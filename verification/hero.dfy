/**
 * The hero carousel: four slides, an index that the arrows step cyclically,
 * a row of indicator dots that select a slide directly, and a timer whose
 * every tick advances to the next slide.
 */
module Hero {
  import Cyclic

  datatype Slide = Slide(title: string, description: string)

  /** The shipped slides (image URLs left out). */
  const Slides: seq<Slide> := [
    Slide("Modern Minimalism", "Clean lines meet warm textures"),
    Slide("Luxurious Living", "Elegance in every detail"),
    Slide("Timeless Sophistication", "Where comfort meets style"),
    Slide("Contemporary Charm", "Thoughtful design for modern living")
  ]

  /** The carousel mounts on the first slide. */
  const InitialSlide: nat := 0

  /** The right arrow: `(prev + 1) % slides.length`. */
  function NextSlide(i: nat): (r: nat)
    ensures r < |Slides|
    ensures i + 1 < |Slides| ==> r == i + 1
    ensures i == |Slides| - 1 ==> r == 0
  {
    Cyclic.Next(i, |Slides|)
  }

  /** The left arrow: `(prev - 1 + slides.length) % slides.length`. */
  function PrevSlide(i: nat): (r: nat)
    ensures r < |Slides|
    ensures 0 < i <= |Slides| ==> r == i - 1
    ensures i == 0 ==> r == |Slides| - 1
  {
    Cyclic.Prev(i, |Slides|)
  }

  /** The left arrow undoes the right one, and the right arrow the left one. */
  lemma PrevNextSlide(i: nat)
    requires i < |Slides|
    ensures PrevSlide(NextSlide(i)) == i
    ensures NextSlide(PrevSlide(i)) == i
  {
    Cyclic.PrevNext(i, |Slides|);
    Cyclic.NextPrev(i, |Slides|);
  }

  /** The indicator dots, one per slide: `slides.map((_, index) => index)`. */
  function Indicators(): (r: seq<nat>)
    ensures |r| == |Slides|
    ensures forall k :: 0 <= k < |r| ==> r[k] == k
  {
    [0, 1, 2, 3]
  }

  /** What moves the carousel. */
  datatype Event =
    | Forward          // the right arrow
    | Backward         // the left arrow
    | Indicator(dot: nat)  // the indicator dot at this position
    | Tick             // one firing of the five-second timer

  /** One event; a dot that is not rendered cannot be clicked and changes nothing. */
  function Step(i: nat, e: Event): (r: nat)
    ensures i < |Slides| ==> r < |Slides|
    ensures !e.Indicator? ==> r < |Slides|
    ensures e.Indicator? && e.dot < |Slides| ==> r == e.dot
    ensures e.Indicator? && e.dot >= |Slides| ==> r == i
    ensures (e.Forward? || e.Tick?) && i < |Slides| ==> r == (if i + 1 < |Slides| then i + 1 else 0)
    ensures e.Backward? && i < |Slides| ==> r == (if i > 0 then i - 1 else |Slides| - 1)
  {
    match e
    case Forward => NextSlide(i)
    case Backward => PrevSlide(i)
    case Indicator(k) => if k < |Indicators()| then Indicators()[k] else i
    case Tick => Cyclic.Next(i, |Slides|)
  }

  /** Clicking a dot shows exactly the slide of that dot. */
  lemma IndicatorSelects(i: nat, k: nat)
    requires k < |Indicators()|
    ensures Step(i, Indicator(k)) == k && k < |Slides|
  {
  }

  /** The timer's tick is the right arrow. */
  lemma TickIsNext(i: nat)
    ensures Step(i, Tick) == NextSlide(i)
    ensures Step(i, Tick) == Step(i, Forward)
  {
  }

  /** The slide shown after `k` ticks of the timer from slide `i`. */
  function Ticks(i: nat, k: nat): nat {
    if k == 0 then i else Step(Ticks(i, k - 1), Tick)
  }

  lemma {:induction false} TicksAreNextIter(i: nat, k: nat)
    ensures Ticks(i, k) == Cyclic.NextIter(i, |Slides|, k)
  {
    if k > 0 {
      TicksAreNextIter(i, k - 1);
    }
  }

  /** Left alone, the carousel is back where it started after one tick per slide. */
  lemma TicksPeriod(i: nat)
    requires i < |Slides|
    ensures Ticks(i, |Slides|) == i
    ensures forall k :: 0 < k < |Slides| ==> Ticks(i, k) != i
  {
    TicksAreNextIter(i, |Slides|);
    Cyclic.NextPeriod(i, |Slides|);
    forall k | 0 < k < |Slides|
      ensures Ticks(i, k) != i
    {
      TicksAreNextIter(i, k);
      Cyclic.NextIterWraps(i, |Slides|, k);
    }
  }

  /** The slide shown after a sequence of events. */
  function Run(i: nat, events: seq<Event>): nat
    decreases |events|
  {
    if |events| == 0 then i else Run(Step(i, events[0]), events[1..])
  }

  /** Whatever happens, `slides[currentSlide]` exists. */
  lemma {:induction false} RunInRange(i: nat, events: seq<Event>)
    requires i < |Slides|
    ensures Run(i, events) < |Slides|
    decreases |events|
  {
    if |events| > 0 {
      var j := Step(i, events[0]);
      assert j < |Slides|;
      RunInRange(j, events[1..]);
    }
  }

  /** From the first slide every reachable index names a slide. */
  lemma ReachableSlide(events: seq<Event>)
    ensures Run(InitialSlide, events) < |Slides|
  {
    RunInRange(InitialSlide, events);
  }
}
