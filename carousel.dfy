/** The "About" section carousel of the portfolio page: a wrap-around slide
    index over six slides ("About Me" and five hobbies) and the view derived
    from it (the offset of the slide track, the section title, and the
    `active` mark on each slide and on each indicator). */
module Carousel {

  /** Number of slides of the About carousel (`this.totalSlides`). */
  const TotalSlides: int := 6

  /** The quotient of `a` by `b` rounded toward zero, as JavaScript's `%`
      uses it. */
  function TruncQuot(a: int, b: int): int
    requires b > 0
  {
    if a >= 0 then a / b else -((-a) / b)
  }

  /** JavaScript's `%` on numbers: truncating division, so the remainder takes
      the sign of the dividend (Dafny's own `%` is Euclidean). */
  function JsRem(a: int, b: int): (r: int)
    requires b > 0
    ensures a == TruncQuot(a, b) * b + r
    ensures a >= 0 ==> 0 <= r < b && r == a % b
    ensures a < 0 ==> -b < r <= 0
  {
    if a >= 0 then a % b else
      assert -a == ((-a) / b) * b + (-a) % b;
      assert -((-a) / b) * b == -(((-a) / b) * b);
      -((-a) % b)
  }

  /** The index `nextSlide` moves to among `n` slides. */
  function NextIndex(i: int, n: int): (r: int)
    requires n > 0
    ensures 0 <= i < n ==> 0 <= r < n && r == (if i == n - 1 then 0 else i + 1)
  {
    JsRem(i + 1, n)
  }

  /** The index `prevSlide` moves to among `n` slides. */
  function PrevIndex(i: int, n: int): (r: int)
    requires n > 0
    ensures 0 <= i < n ==> 0 <= r < n && r == (if i == 0 then n - 1 else i - 1)
  {
    JsRem(i - 1 + n, n)
  }

  /** "Next" then "previous" comes back to the starting slide. */
  lemma NextThenPrev(i: int, n: int)
    requires 0 <= i < n
    ensures PrevIndex(NextIndex(i, n), n) == i
  {
  }

  /** "Previous" then "next" comes back to the starting slide. */
  lemma PrevThenNext(i: int, n: int)
    requires 0 <= i < n
    ensures NextIndex(PrevIndex(i, n), n) == i
  {
  }

  /** The slide reached by `m` successive "next" steps from slide `i`. */
  function Advance(i: int, m: nat): int
  {
    if m == 0 then i else NextIndex(Advance(i, m - 1), TotalSlides)
  }

  /** One "next" step on a reduced index is reduction of the successor. */
  lemma NextOfMod(y: int)
    ensures NextIndex(y % TotalSlides, TotalSlides) == (y + 1) % TotalSlides
  {
  }

  /** `m` "next" steps from slide `i` land on slide `(i + m) mod 6`: the
      carousel is a rotation, and six steps go full circle. */
  lemma {:induction false} AdvanceIsRotation(i: int, m: nat)
    requires 0 <= i < TotalSlides
    ensures Advance(i, m) == (i + m) % TotalSlides
  {
    if m > 0 {
      AdvanceIsRotation(i, m - 1);
      NextOfMod(i + m - 1);
    }
  }

  /** The track translation (percent) that `updateCarousel` gives slide `k`. */
  function TrackOffset(k: int): (r: int)
    ensures 0 <= k < TotalSlides ==> -100 * (TotalSlides - 1) <= r <= 0
    ensures r % 100 == 0 && -r / 100 == k
  {
    -k * 100
  }

  /** The section title that `updateCarousel` shows for slide `k`. */
  function TitleFor(k: int): (r: string)
    ensures r == "About Me" <==> k == 0
    ensures r == "About Me" || r == "My Hobbies"
  {
    if k == 0 then "About Me" else "My Hobbies"
  }

  /** Number of `true` marks in `s`. */
  function CountActive(s: seq<bool>): nat
  {
    if s == [] then 0 else (if s[0] then 1 else 0) + CountActive(s[1..])
  }

  /** Marks set exactly at position `k` (nowhere, when `k` is out of range). */
  ghost predicate MarkedOnlyAt(s: seq<bool>, k: int)
  {
    forall j :: 0 <= j < |s| ==> (s[j] <==> j == k)
  }

  /** Marks set only at an out-of-range position are no marks at all. */
  lemma {:induction false} NoneActive(s: seq<bool>, k: int)
    requires MarkedOnlyAt(s, k)
    requires k < 0 || k >= |s|
    ensures CountActive(s) == 0
  {
    if s != [] {
      assert !s[0];
      NoneActive(s[1..], k - 1);
    }
  }

  /** Marks set exactly at an in-range position are exactly one mark. */
  lemma {:induction false} ExactlyOneActive(s: seq<bool>, k: int)
    requires MarkedOnlyAt(s, k)
    requires 0 <= k < |s|
    ensures CountActive(s) == 1
  {
    if k == 0 {
      assert s[0];
      NoneActive(s[1..], -1);
    } else {
      assert !s[0];
      ExactlyOneActive(s[1..], k - 1);
    }
  }

  /** Which index a keydown leaves the carousel at: arrows move it only while
      the About section is in view. */
  function KeyTarget(i: int, key: string, inView: bool): (r: int)
    ensures 0 <= i < TotalSlides ==> 0 <= r < TotalSlides
    ensures !inView || (key != "ArrowLeft" && key != "ArrowRight") ==> r == i
  {
    if inView && key == "ArrowLeft" then PrevIndex(i, TotalSlides)
    else if inView && key == "ArrowRight" then NextIndex(i, TotalSlides)
    else i
  }

  /** ArrowLeft then ArrowRight (in view) restores the slide, and so does the
      reverse order; out of view, no key changes it. */
  lemma KeyArrowsInverse(i: int, key: string)
    requires 0 <= i < TotalSlides
    ensures KeyTarget(KeyTarget(i, "ArrowLeft", true), "ArrowRight", true) == i
    ensures KeyTarget(KeyTarget(i, "ArrowRight", true), "ArrowLeft", true) == i
    ensures KeyTarget(i, key, false) == i
  {
  }

  class AboutCarousel {
    var currentSlide: int
    /** The `active` class of each `.about-slide` element, in document order. */
    const slides: array<bool>
    /** The `active` class of each `.about-indicator` element, in document order. */
    const indicators: array<bool>
    /** The track's `translateX`, in percent. */
    var translateX: int
    /** The text of the `aboutTitle` element. */
    var title: string

    /** The index is a slide, and the page has one slide element and one
        indicator per slide. */
    ghost predicate Valid()
      reads this
    {
      0 <= currentSlide < TotalSlides &&
      slides.Length == TotalSlides && indicators.Length == TotalSlides &&
      slides != indicators
    }

    /** The view shows slide `currentSlide`. */
    ghost predicate Rendered()
      reads this, slides, indicators
    {
      translateX == TrackOffset(currentSlide) &&
      title == TitleFor(currentSlide) &&
      MarkedOnlyAt(slides[..], currentSlide) &&
      MarkedOnlyAt(indicators[..], currentSlide)
    }

    /** Binds the page's elements, whose view is left as the markup set it. */
    constructor (slides: array<bool>, indicators: array<bool>, translateX: int, title: string)
      requires slides.Length == TotalSlides && indicators.Length == TotalSlides
      requires slides != indicators
      ensures Valid() && currentSlide == 0
      ensures this.slides == slides && this.indicators == indicators
      ensures this.translateX == translateX && this.title == title
    {
      currentSlide := 0;
      this.slides := slides;
      this.indicators := indicators;
      this.translateX := translateX;
      this.title := title;
    }

    /** Redraws the view from `currentSlide`, leaving exactly one slide and
        one indicator active. */
    method UpdateCarousel()
      requires Valid()
      modifies this`translateX, this`title, slides, indicators
      ensures Valid() && Rendered()
      ensures CountActive(slides[..]) == 1 && CountActive(indicators[..]) == 1
    {
      translateX := -currentSlide * 100;
      title := if currentSlide == 0 then "About Me" else "My Hobbies";
      var i := 0;
      while i < slides.Length
        invariant 0 <= i <= slides.Length
        invariant translateX == TrackOffset(currentSlide) && title == TitleFor(currentSlide)
        invariant forall j :: 0 <= j < i ==> (slides[j] <==> j == currentSlide)
      {
        slides[i] := i == currentSlide;
        i := i + 1;
      }
      i := 0;
      while i < indicators.Length
        invariant 0 <= i <= indicators.Length
        invariant translateX == TrackOffset(currentSlide) && title == TitleFor(currentSlide)
        invariant forall j :: 0 <= j < slides.Length ==> (slides[j] <==> j == currentSlide)
        invariant forall j :: 0 <= j < i ==> (indicators[j] <==> j == currentSlide)
      {
        indicators[i] := i == currentSlide;
        i := i + 1;
      }
      ExactlyOneActive(slides[..], currentSlide);
      ExactlyOneActive(indicators[..], currentSlide);
    }

    method NextSlide()
      requires Valid()
      modifies this, slides, indicators
      ensures Valid() && Rendered()
      ensures currentSlide == NextIndex(old(currentSlide), TotalSlides)
      ensures CountActive(slides[..]) == 1 && CountActive(indicators[..]) == 1
    {
      currentSlide := JsRem(currentSlide + 1, TotalSlides);
      UpdateCarousel();
    }

    method PrevSlide()
      requires Valid()
      modifies this, slides, indicators
      ensures Valid() && Rendered()
      ensures currentSlide == PrevIndex(old(currentSlide), TotalSlides)
      ensures CountActive(slides[..]) == 1 && CountActive(indicators[..]) == 1
    {
      currentSlide := JsRem(currentSlide - 1 + TotalSlides, TotalSlides);
      UpdateCarousel();
    }

    /** Jumps to slide `index`; the source does not check the index, and its
        only callers, the indicator click handlers, pass their own position. */
    method GoToSlide(index: int)
      requires Valid()
      requires 0 <= index < indicators.Length
      modifies this, slides, indicators
      ensures Valid() && Rendered()
      ensures currentSlide == index
      ensures CountActive(slides[..]) == 1 && CountActive(indicators[..]) == 1
    {
      currentSlide := index;
      UpdateCarousel();
    }

    /** The document's keydown handler; `inView` stands for
        `isAboutSectionInView()`. */
    method HandleKeydown(key: string, inView: bool)
      requires Valid()
      modifies this, slides, indicators
      ensures Valid()
      ensures currentSlide == KeyTarget(old(currentSlide), key, inView)
      ensures inView && (key == "ArrowLeft" || key == "ArrowRight") ==> Rendered()
      ensures !(inView && (key == "ArrowLeft" || key == "ArrowRight")) ==>
        unchanged(this) && unchanged(slides) && unchanged(indicators)
    {
      if inView {
        if key == "ArrowLeft" {
          PrevSlide();
        }
        if key == "ArrowRight" {
          NextSlide();
        }
      }
    }
  }
}
