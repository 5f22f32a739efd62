/** The hero carousel: a slide index stepped modulo the slide count, a
    render pass that translates every slide and marks the current
    indicator, and an 8-second interval that advances to the next slide.
    One class covers both copies of the code: the `Carousel` class (whose
    startCarousel returns early while an interval is held) and the
    closures of initCarousel (whose startCarousel always registers a new
    interval); `guardedStart` tells them apart. */
module Carousels {
  import opened Host

  /** Carousel.DURATION, and the literal delay of the closure copy. */
  const DURATION: int := 8000

  /** The value of `curr`: a slide number, or NaN once `% 0` was taken on
      a carousel without slides. */
  datatype Index = At(n: int) | NaN

  /** q·b, named so that a quantifier over q has a term to match on. */
  function Times(q: int, b: int): int
  {
    q * b
  }

  /** JavaScript's `a % b` on integers: a zero divisor gives NaN;
      otherwise a differs from the remainder by a multiple of b, the
      remainder is smaller than b in magnitude, and its sign follows the
      dividend (truncated division). */
  function JsRem(a: int, b: nat): (r: Index)
    ensures b == 0 <==> r.NaN?
    ensures r.At? ==> (exists q :: a == Times(q, b) + r.n) && -(b as int) < r.n < b
    ensures r.At? && r.n > 0 ==> a > 0
    ensures r.At? && r.n < 0 ==> a < 0
  {
    if b == 0 then NaN
    else
      TruncatedRemainder(a, b);
      if a >= 0 then At(a % b) else At(-((-a) % b))
  }

  /** The remainder JsRem takes for a non-zero divisor obeys the law of
      truncated division. */
  lemma TruncatedRemainder(a: int, b: nat)
    requires b > 0
    ensures var m := if a >= 0 then a % b else -((-a) % b);
            && (exists q :: a == Times(q, b) + m) && -(b as int) < m < b
            && (m > 0 ==> a > 0) && (m < 0 ==> a < 0)
  {
    if a >= 0 {
      assert a == Times(a / b, b) + a % b;
    } else {
      var q, m := (-a) / b, (-a) % b;
      assert -a == Times(q, b) + m;
      assert a == Times(-q, b) + -m;
    }
  }

  /** `(curr + 1) % total`; NaN stays NaN. A carousel with slides stays
      on one of them; one without slides gets NaN. */
  function NextIndex(c: Index, total: nat): (r: Index)
    ensures total == 0 ==> r.NaN?
    ensures InRange(c, total) ==> InRange(r, total)
  {
    match c
    case NaN => NaN
    case At(n) => JsRem(n + 1, total)
  }

  /** `(curr - 1 + total) % total`; NaN stays NaN. A carousel with slides
      stays on one of them; one without slides gets NaN. */
  function PrevIndex(c: Index, total: nat): (r: Index)
    ensures total == 0 ==> r.NaN?
    ensures InRange(c, total) ==> InRange(r, total)
  {
    match c
    case NaN => NaN
    case At(n) => JsRem(n - 1 + total, total)
  }

  /** Inside [0, total). */
  predicate InRange(c: Index, total: nat)
  {
    c.At? && 0 <= c.n < total
  }

  /** Stepping forward moves to the following slide, and from the last
      slide back to the first. */
  lemma NextWraps(n: int, total: nat)
    requires 0 <= n < total
    ensures NextIndex(At(n), total) == At(if n + 1 == total then 0 else n + 1)
  {
  }

  /** Stepping back moves to the preceding slide, and from the first slide
      to the last. */
  lemma PrevWraps(n: int, total: nat)
    requires 0 <= n < total
    ensures PrevIndex(At(n), total) == At(if n == 0 then total - 1 else n - 1)
  {
    if n == 0 {
      assert (total - 1) % total == total - 1;
    } else {
      assert (n - 1 + total) % total == n - 1;
    }
  }

  /** Back after forward, and forward after back, return to the slide. */
  lemma PrevUndoesNext(c: Index, total: nat)
    requires InRange(c, total)
    ensures PrevIndex(NextIndex(c, total), total) == c
    ensures NextIndex(PrevIndex(c, total), total) == c
  {
    NextWraps(c.n, total);
    PrevWraps(c.n, total);
    var nx := NextIndex(c, total);
    var pv := PrevIndex(c, total);
    NextWraps(pv.n, total);
    PrevWraps(nx.n, total);
  }

  /** `k` forward steps: they stay on a slide when there are slides, and
      give NaN when there are none. */
  function Advanced(c: Index, total: nat, k: nat): (r: Index)
    ensures InRange(c, total) ==> InRange(r, total)
    ensures total == 0 && k > 0 ==> r.NaN?
  {
    if k == 0 then c else NextIndex(Advanced(c, total, k - 1), total)
  }

  /** k forward steps (at most one round) from slide n land on slide
      n + k, wrapped once past the last slide. */
  lemma {:induction false} AdvancedWrapsOnce(n: int, total: nat, k: nat)
    requires 0 <= n < total && k <= total
    ensures Advanced(At(n), total, k) == At(if n + k < total then n + k else n + k - total)
  {
    if k > 0 {
      AdvancedWrapsOnce(n, total, k - 1);
      NextWraps(if n + k - 1 < total then n + k - 1 else n + k - 1 - total, total);
    }
  }

  /** A full round of `total` forward steps comes back to the same slide. */
  lemma FullRoundReturns(n: int, total: nat)
    requires 0 <= n < total
    ensures Advanced(At(n), total, total) == At(n)
  {
    AdvancedWrapsOnce(n, total, total);
  }

  /** An indicator button's state: the `CarouselDot` class, the
      `CarouselDotActive` class and the `aria-current` attribute. */
  datatype Dot = Dot(dotClass: bool, activeClass: bool, ariaCurrent: bool)

  const ACTIVE: Dot := Dot(false, true, true)
  const IDLE: Dot := Dot(true, false, false)

  class Carousel {
    const host: Browser
    /** true: modules/Carousel.js, whose startCarousel returns while an
        interval is held; false: the initCarousel closures. */
    const guardedStart: bool
    /** #total, the number of slides. */
    const total: nat
    /** The translateX percentage last written on each slide. */
    const slides: array<int>
    const indicators: array<Dot>
    /** Which carousel of the page this is: its nextSlide callback is
        `CarouselNext(key)`. */
    const key: nat
    var curr: Index
    /** The interval id; 0 is null. */
    var interval: nat

    ghost predicate Valid()
      reads this, host
    {
      && host.Valid()
      && 0 < key <= host.carousels
      && total == slides.Length
      && (total > 0 ==> InRange(curr, total))
      && (total == 0 ==> curr == At(0) || curr == NaN)
      && (interval != 0 ==> interval in host.intervals
                            && host.intervals[interval] == Timer(CarouselNext(key), DURATION))
      && (forall id | id in host.intervals && host.intervals[id].task == CarouselNext(key) :: id == interval)
    }

    /** An interval is pending: the carousel advances by itself. */
    ghost predicate Ticking()
      reads this
    {
      interval != 0
    }

    /** What #updateCarousel leaves behind: slide k translated by
        (k - curr)·100 %, and only the indicator at `curr` active. */
    ghost predicate Rendered()
      reads this, slides, indicators
    {
      && (forall k | 0 <= k < slides.Length :: curr.At? && slides[k] == (k - curr.n) * 100)
      && (forall i | 0 <= i < indicators.Length :: indicators[i] == if curr == At(i) then ACTIVE else IDLE)
    }

    /** `new Carousel(id).init()`, or initCarousel(): collect `slideCount`
        slides and `dotCount` indicator buttons, render slide 0 and start
        the interval. */
    constructor (host: Browser, guardedStart: bool, slideCount: nat, dotCount: nat)
      requires host.Valid()
      modifies host`lastId, host`intervals, host`carousels
      ensures Valid() && Rendered() && Ticking()
      ensures this.host == host && this.guardedStart == guardedStart && key == host.carousels == old(host.carousels) + 1
      ensures total == slideCount && indicators.Length == dotCount && curr == At(0)
      ensures fresh(slides) && fresh(indicators)
      ensures interval == old(host.lastId) + 1
      ensures host.intervals == old(host.intervals)[interval := Timer(CarouselNext(key), DURATION)]
    {
      this.host := host;
      this.guardedStart := guardedStart;
      var k := host.NewCarousel();
      key := k;
      total := slideCount;
      slides := new int[slideCount];
      indicators := new Dot[dotCount](_ => IDLE);
      curr := At(0);
      interval := 0;
      new;
      Render();
      Start();
    }

    /** #updateCarousel: write every slide's offset, starting from
        -curr·100 and adding 100 per slide, then set each indicator. */
    method Render()
      requires Valid()
      modifies slides, indicators
      ensures Rendered()
    {
      if curr.At? {
        var offset := (0 - curr.n) * 100;
        for k := 0 to slides.Length
          invariant offset == (k - curr.n) * 100
          invariant forall j | 0 <= j < k :: slides[j] == (j - curr.n) * 100
        {
          slides[k] := offset;
          offset := offset + 100;
        }
      }
      // a NaN index only happens without slides: that loop has nothing to do
      for i := 0 to indicators.Length
        invariant forall k | 0 <= k < slides.Length :: curr.At? && slides[k] == (k - curr.n) * 100
        invariant forall j | 0 <= j < i :: indicators[j] == if curr == At(j) then ACTIVE else IDLE
      {
        if curr == At(i) {
          indicators[i] := ACTIVE;
        } else {
          indicators[i] := IDLE;
        }
      }
    }

    /** startCarousel: register the interval, unless (guarded copy) one is
        already held. The unguarded copy is only ever called with none. */
    method Start()
      requires Valid() && (guardedStart || interval == 0)
      modifies this`interval, host`lastId, host`intervals
      ensures Valid() && Ticking()
      ensures old(interval) != 0 ==> interval == old(interval) && host.intervals == old(host.intervals)
                                     && host.lastId == old(host.lastId)
      ensures old(interval) == 0 ==>
                && interval == old(host.lastId) + 1
                && host.intervals == old(host.intervals)[interval := Timer(CarouselNext(key), DURATION)]
    {
      if guardedStart && interval != 0 {
        return;
      }
      interval := host.SetInterval(CarouselNext(key), DURATION);
    }

    /** stopCarousel: clear the interval when one is held. */
    method Stop()
      requires Valid()
      modifies this`interval, host`intervals
      ensures Valid() && !Ticking()
      ensures host.intervals == old(host.intervals) - {old(interval)}
      ensures old(interval) == 0 ==> host.intervals == old(host.intervals)
      ensures forall id | id in host.intervals :: host.intervals[id].task != CarouselNext(key)
    {
      if interval == 0 {
        assert host.intervals - {0} == host.intervals;
        return;
      }
      host.ClearInterval(interval);
      interval := 0;
    }

    /** nextSlide: stop, step forward, render, start. */
    method Next()
      requires Valid()
      modifies this`curr, this`interval, slides, indicators, host`lastId, host`intervals
      ensures Valid() && Rendered() && Ticking()
      ensures curr == NextIndex(old(curr), total)
      ensures interval == old(host.lastId) + 1
      ensures host.intervals == (old(host.intervals) - {old(interval)})[interval := Timer(CarouselNext(key), DURATION)]
    {
      Stop();
      curr := NextIndex(curr, total);
      Render();
      Start();
    }

    /** prevSlide: stop, step back, render, start. */
    method Prev()
      requires Valid()
      modifies this`curr, this`interval, slides, indicators, host`lastId, host`intervals
      ensures Valid() && Rendered() && Ticking()
      ensures curr == PrevIndex(old(curr), total)
      ensures interval == old(host.lastId) + 1
      ensures host.intervals == (old(host.intervals) - {old(interval)})[interval := Timer(CarouselNext(key), DURATION)]
    {
      Stop();
      curr := PrevIndex(curr, total);
      Render();
      Start();
    }

    /** toSlide: an index outside [0, total) is ignored altogether;
        otherwise stop, jump, render, start. */
    method ToSlide(index: int)
      requires Valid()
      modifies this`curr, this`interval, slides, indicators, host`lastId, host`intervals
      ensures Valid()
      ensures (index < 0 || index >= total) ==>
                && curr == old(curr) && interval == old(interval)
                && host.intervals == old(host.intervals) && host.lastId == old(host.lastId)
                && slides[..] == old(slides[..]) && indicators[..] == old(indicators[..])
      ensures 0 <= index < total ==>
                && curr == At(index) && Rendered() && Ticking()
                && interval == old(host.lastId) + 1
                && host.intervals == (old(host.intervals) - {old(interval)})[interval := Timer(CarouselNext(key), DURATION)]
    {
      if index < 0 || index >= total {
        return;
      }
      Stop();
      curr := At(index);
      Render();
      Start();
    }

    /** The interval fires: it runs nextSlide. */
    method IntervalFired(id: nat)
      requires Valid() && id in host.intervals && host.intervals[id].task == CarouselNext(key)
      modifies this`curr, this`interval, slides, indicators, host`lastId, host`intervals
      ensures Valid() && Rendered() && Ticking()
      ensures curr == NextIndex(old(curr), total)
      ensures host.intervals == (old(host.intervals) - {id})[interval := Timer(CarouselNext(key), DURATION)]
    {
      Next();
    }
  }

  /** While the carousel ticks, exactly one of its nextSlide intervals is
      pending: the one it holds. */
  lemma OneIntervalWhileTicking(c: Carousel)
    requires c.Valid() && c.Ticking()
    ensures (set id | id in c.host.intervals && c.host.intervals[id].task == CarouselNext(c.key)) == {c.interval}
  {
  }

  /** Two carousels of one page (the galleries page builds one per
      gallery) hold different intervals, each running its own nextSlide. */
  lemma CarouselsTickApart(a: Carousel, b: Carousel)
    requires a.Valid() && b.Valid() && a.host == b.host && a.key != b.key
    requires a.Ticking() && b.Ticking()
    ensures a.interval != b.interval
    ensures a.host.intervals[a.interval].task != a.host.intervals[b.interval].task
  {
  }

  /** After a render the current slide sits at offset 0 and exactly the
      current indicator is marked. */
  lemma RenderedMarksOnlyCurrent(c: Carousel)
    requires c.Valid() && c.Rendered() && c.total > 0 && c.curr.n < c.indicators.Length
    ensures c.slides[c.curr.n] == 0
    ensures (set i | 0 <= i < c.indicators.Length && c.indicators[i].ariaCurrent) == {c.curr.n}
    ensures forall i | 0 <= i < c.indicators.Length :: c.indicators[i].activeClass != c.indicators[i].dotClass
  {
    var marked := set i | 0 <= i < c.indicators.Length && c.indicators[i].ariaCurrent;
    assert c.curr.n in marked;
  }
}
