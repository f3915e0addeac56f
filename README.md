# Portfolio page interactivity, modelled in Dafny

This project models the logic of the portfolio page's script (`script.js`).
There are three modules:

- `Carousel` (`carousel.dfy`) models the "About" section carousel. It is a
  class `AboutCarousel` with a slide index `currentSlide` over
  `TotalSlides = 6` slides. Arrays of booleans stand for the `active` class on
  the six `.about-slide` elements and the six `.about-indicator` elements.
  The track's `translateX` (in percent) and the title text are fields.
  `nextSlide` and `prevSlide` wrap around with JavaScript's truncating `%` (`JsRem`).
  `goToSlide` jumps, and the keydown handler moves with the arrow keys while
  the section is in view. Each transition redraws the view with
  `updateCarousel`, whose two loops set the marks in place.
- `EmailValidation` (`email.dfy`) models `validateEmail`. The regular
  expression `^[^\s@]+@[^\s@]+\.[^\s@]+$` becomes a structural predicate: the
  address splits at an `@` and a later `.` into three non-empty runs that have
  neither whitespace nor `@`. JavaScript's `\s` is written out as an explicit
  set of code points. A lemma proves that this predicate holds exactly for
  the addresses that have no whitespace, exactly one `@` with something
  before it, and a `.` after it that is neither the first nor the last
  character of the domain.
- `Navigation` (`navigation.dfy`) models the mobile menu toggle and the
  navbar's scroll rule. The menu has two `active` flags. A hamburger click
  flips both, and a navigation-link click clears both. Pure functions `Step`
  and `Run` specify this, and the class `MobileMenu` implements the handlers
  against `Step`. The navbar takes its "scrolled" look exactly when
  `scrollY > 50`.

Inputs that the browser supplies become parameters. The key and the result of
`isAboutSectionInView()` are passed to `HandleKeydown`. The initial markup of
the slides, the indicators, the track and the title is passed to the
carousel's constructor. `scrollY` is passed to `NavbarLookFor` as an integer.

Two details of the carousel code shape the model:

- The title is "About Me" for slide 0 and "My Hobbies" for every other
  slide (`script.js:126`). The array `slideNames` (`script.js:90`) is never
  read, so the model has no counterpart for it.
- The constructor (`script.js:81-93`) does not call `updateCarousel`. So
  right after construction the view is what the markup sets. The model's
  constructor promises `Valid()` and not `Rendered()`.

## Model

| member | source | states |
|---|---|---|
| Carousel.JsRem | script.js:142 | JavaScript's `%` for a positive divisor: `a` is the quotient rounded toward zero times `b` plus the result. It agrees with Euclidean `%` on a non-negative dividend and lies in `(-b, 0]` on a negative one. |
| Carousel.NextIndex | script.js:141-144 | For an in-range index, the next index stays in `[0, n)`. It is `i + 1`, except that the last slide wraps to 0. |
| Carousel.PrevIndex | script.js:146-149 | For an in-range index, the previous index stays in `[0, n)`. It is `i - 1`, except that slide 0 wraps to `n - 1`. |
| Carousel.NextThenPrev | script.js:141-149 | `prevSlide` after `nextSlide` restores the index. |
| Carousel.PrevThenNext | script.js:141-149 | `nextSlide` after `prevSlide` restores the index. |
| Carousel.AdvanceIsRotation | script.js:141-144 | `m` successive `nextSlide` steps from slide `i` reach slide `(i + m) mod 6`. So six steps go full circle. |
| Carousel.TrackOffset | script.js:122-123 | The track offset for an in-range slide lies in `[-500, 0]`. It is a multiple of 100 from which the slide is recovered as `-offset / 100`, so distinct slides get distinct offsets. |
| Carousel.TitleFor | script.js:126 | The title is "About Me" iff the slide is 0. Otherwise it is "My Hobbies". |
| Carousel.ExactlyOneActive | script.js:129-135 | Marks set exactly at an in-range position contain exactly one active mark. |
| Carousel.NoneActive | script.js:129-135 | Marks set only at an out-of-range index (one that the unchecked `goToSlide` could store) contain no active mark. |
| Carousel.KeyTarget | script.js:106-111 | The index a keydown leads to stays in range. Out of view, or for any key other than the two arrows, it is the old index. |
| Carousel.KeyArrowsInverse | script.js:106-111 | ArrowLeft then ArrowRight restores the slide while the section is in view, and so does the reverse order. Out of view, no key changes it. |
| Carousel.AboutCarousel.constructor | script.js:81-93 | It starts at slide 0 and binds six slides and six indicators. It leaves the view as the markup set it. |
| Carousel.AboutCarousel.UpdateCarousel | script.js:120-139 | The offset becomes `-currentSlide*100`, and the title is set for `currentSlide`. Slide `j` and indicator `j` are active iff `j == currentSlide`, so exactly one of each is active. The index is unchanged. |
| Carousel.AboutCarousel.NextSlide | script.js:141-144 | The index becomes `NextIndex` of the old index, it stays in range, and the view is redrawn with one active slide and one active indicator. |
| Carousel.AboutCarousel.PrevSlide | script.js:146-149 | The index becomes `PrevIndex` of the old index, it stays in range, and the view is redrawn with one active slide and one active indicator. |
| Carousel.AboutCarousel.GoToSlide | script.js:151-154 | The index becomes `index`, and the view is redrawn with one active slide and one active indicator. The model requires an indicator position, which is what the handlers at script.js:101-102 pass. |
| Carousel.AboutCarousel.HandleKeydown | script.js:106-111 | In view, ArrowLeft acts as `prevSlide` and ArrowRight as `nextSlide`. Any other key, or any key out of view, changes nothing. |
| EmailValidation.IsWhitespace | script.js:191 | The characters of `\s`: the ECMAScript whitespace and line-terminator code points, listed one by one. None of them is `@` or `.`. |
| EmailValidation.ValidateEmail | script.js:190-193 | The pattern matches the whole address: a plain run, `@`, a plain run, `.`, a plain run, where a plain run is non-empty and has no whitespace and no `@`. An accepted address has at least five characters and contains `@` and `.`. |
| EmailValidation.MatchIsWellFormed | script.js:190-193 | Every address the pattern accepts has no whitespace, exactly one `@`, a non-empty part before it, and an inner `.` after it. |
| EmailValidation.WellFormedIsMatch | script.js:190-193 | Every address with those four properties is accepted. |
| EmailValidation.ValidateEmailIff | script.js:190-193 | `validateEmail` holds iff those four properties hold. |
| EmailValidation.AcceptsPlainAddress | script.js:191 | `me@site.io` is accepted. |
| EmailValidation.RejectsMissingDot | script.js:191 | `me@site` is refused because no `.` follows the `@`. |
| EmailValidation.RejectsDoubleAt | script.js:191 | `me@@site.io` is refused because it has two `@`. |
| EmailValidation.RejectsSpace | script.js:191 | `me @site.io` is refused because it has whitespace. |
| EmailValidation.RejectsLeadingDot | script.js:191 | `me@.io` is refused because the `.` directly follows the `@`. |
| Navigation.Step | script.js:5-16 | A hamburger click flips both flags. A nav-link click clears both. |
| Navigation.Run | script.js:5-16 | An empty sequence of events leaves the state as it was. After a sequence that ends with a nav-link click, both flags are false. |
| Navigation.StepKeepsSync | script.js:5-16 | Each click keeps the button's and the menu's `active` flags equal. |
| Navigation.RunKeepsSync | script.js:5-16 | Any sequence of clicks keeps the two flags equal if they start equal. |
| Navigation.DoubleToggle | script.js:5-8 | Two hamburger clicks restore the state. |
| Navigation.RunActiveParity | script.js:5-16 | After a sequence of clicks, the button is active iff it was toggled an odd number of times since the last nav-link click. With no nav-link click, it counts from the initial state. |
| Navigation.MobileMenu.constructor | script.js:2-3 | The menu starts with the flags the markup gives. |
| Navigation.MobileMenu.ClickHamburger | script.js:5-8 | Both flags flip, as `Step` says, and equal flags stay equal. |
| Navigation.MobileMenu.ClickNavLink | script.js:11-16 | Both flags become false, as `Step` says. |
| Navigation.NavbarLookFor | script.js:33-42 | The navbar has the scrolled look iff `scrollY > 50`, and the top look iff `scrollY <= 50`. |
| Navigation.NavbarLook.Background | script.js:36-39 | The scrolled look sets background `rgba(255, 255, 255, 0.98)`, and the top look sets `rgba(255, 255, 255, 0.95)`. |
| Navigation.NavbarLook.BoxShadow | script.js:37-40 | The scrolled look sets the shadow `0 2px 20px rgba(0, 0, 0, 0.1)`, and the top look sets `none`. |
| Navigation.NavbarMonotone | script.js:35 | Scrolling further down never brings the top look back. |

## Left out

- `isAboutSectionInView` (script.js:114-118) computes from floating-point layout geometry. `HandleKeydown` takes its result as the parameter `inView`.
- `startAutoPlay` (script.js:157-161) is a timer and is never called. `AdvanceIsRotation` states what repeated `nextSlide` steps do.
- The scroll progress bar (script.js:216-234) uses floating-point division whose denominator can be zero, and it creates a DOM element.
- The fade-in observer and `lazyLoadImages` (script.js:44-77, 196-213) are browser observer callbacks that only set styles or sources when an element intersects.
- Smooth scrolling (script.js:19-30), the project-card hover effects (script.js:171-179) and the external-link logging (script.js:182-187) are pure DOM calls or logging.
- CSS transition and transform strings are presentation only. The model keeps the numeric `translateX` and the `active` flags. The navbar's colour strings are kept only as members of `NavbarLook`.
- Carousel.AboutCarousel.GoToSlide: the source does not check the index. The model requires `0 <= index < 6`, the indicator positions, so it cannot show the view after a bad index. `NoneActive` shows that such an index would leave no slide active.
- The markup is assumed to have six `.about-slide` and six `.about-indicator` elements (`AboutCarousel.Valid`). The source never checks this.
- EmailValidation: the model works on Unicode scalar values, while JavaScript tests the pattern on UTF-16 code units. For every string a Dafny `string` can hold, both give the same verdict, because `\s`, `@` and `.` are all single code units. JavaScript strings can also hold unpaired surrogates, which a Dafny `string` cannot, so the model says nothing about such strings.
- The window's scroll offset is modelled as an integer, although the browser reports a floating-point number.
