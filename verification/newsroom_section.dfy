/** The newsroom carousel: a `currentSlide` index over the document's news items,
    moved by the arrows, the dots and a recurring timer. All three wrap with
    `% news.length`; when the document has no news that is a remainder by zero,
    which JavaScript evaluates to NaN, and NaN then absorbs every later step. */
module NewsroomSection {
  import opened SlideIndex
  import Content
  import Seqs

  /** A JavaScript number as the carousel can hold it. */
  datatype Slide = At(index: int) | NaN

  /** `(prev + 1) % news.length`. */
  function Advance(s: Slide, n: nat): (r: Slide)
    ensures r == NaN <==> s == NaN || n == 0
    ensures s.At? && 0 <= s.index < n ==> r.At? && 0 <= r.index < n
    ensures s.At? && 0 <= s.index < n - 1 ==> r == At(s.index + 1)
  {
    match s
    case NaN => NaN
    case At(i) => if n == 0 then NaN else At(Next(i, n))
  }

  /** `(prev - 1 + news.length) % news.length`. */
  function Retreat(s: Slide, n: nat): (r: Slide)
    ensures r == NaN <==> s == NaN || n == 0
    ensures s.At? && 0 <= s.index < n ==> r.At? && 0 <= r.index < n
    ensures s.At? && 0 < s.index < n ==> r == At(s.index - 1)
  {
    match s
    case NaN => NaN
    case At(i) => if n == 0 then NaN else At(Prev(i, n))
  }

  /** The states the carousel can reach: an in-range index when there is news,
      otherwise the initial 0 or NaN. */
  ghost predicate Reachable(s: Slide, n: nat) {
    if n > 0 then s.At? && 0 <= s.index < n else s == At(0) || s == NaN
  }

  lemma AdvanceStaysReachable(s: Slide, n: nat)
    requires Reachable(s, n)
    ensures Reachable(Advance(s, n), n)
    ensures n > 0 && s.index == n - 1 ==> Advance(s, n) == At(0)
  {
  }

  lemma RetreatStaysReachable(s: Slide, n: nat)
    requires Reachable(s, n)
    ensures Reachable(Retreat(s, n), n)
    ensures n > 0 && s.index == 0 ==> Retreat(s, n) == At(n - 1)
  {
  }

  /** With news present the arrows undo each other. */
  lemma ArrowsAreInverse(s: Slide, n: nat)
    requires n > 0 && Reachable(s, n)
    ensures Advance(Retreat(s, n), n) == s
    ensures Retreat(Advance(s, n), n) == s
  {
    NextUndoesPrev(s.index, n);
    PrevUndoesNext(s.index, n);
  }

  /** The slide `k` timer ticks after mounting. */
  function Ticks(k: nat, n: nat): Slide
  {
    if k == 0 then At(0) else Advance(Ticks(k - 1, n), n)
  }

  /** With news present, `k` ticks from mounting show slide `k mod n`. */
  lemma {:induction false} TicksWrap(k: nat, n: nat)
    requires n > 0
    ensures Ticks(k, n) == At(k % n)
  {
    if k > 0 {
      TicksWrap(k - 1, n);
      AfterTicksIsMod(k - 1, n);
      AfterTicksIsMod(k, n);
    }
  }

  /** With no news, the first tick turns the index into NaN for good. */
  lemma {:induction false} EmptyNewsTicksToNaN(k: nat)
    requires k > 0
    ensures Ticks(k, 0) == NaN
  {
    if k > 1 {
      EmptyNewsTicksToNaN(k - 1);
    }
  }

  class Carousel {
    const news: seq<Content.NewsItem>
    var currentSlide: Slide

    ghost predicate Valid()
      reads this
    {
      Reachable(currentSlide, |news|)
    }

    /** Mounting the section over the document's news list: `useState(0)`. */
    constructor (news: seq<Content.NewsItem>)
      ensures this.news == news
      ensures Valid() && currentSlide == At(0)
    {
      this.news := news;
      currentSlide := At(0);
    }

    /** The right arrow. */
    method NextSlide()
      requires Valid()
      modifies this
      ensures Valid()
      ensures currentSlide == Advance(old(currentSlide), |news|)
    {
      AdvanceStaysReachable(currentSlide, |news|);
      currentSlide := Advance(currentSlide, |news|);
    }

    /** The left arrow. */
    method PrevSlide()
      requires Valid()
      modifies this
      ensures Valid()
      ensures currentSlide == Retreat(old(currentSlide), |news|)
    {
      RetreatStaysReachable(currentSlide, |news|);
      currentSlide := Retreat(currentSlide, |news|);
    }

    /** One firing of the 5000 ms interval: the same step as the right arrow. */
    method Tick()
      requires Valid()
      modifies this
      ensures Valid()
      ensures currentSlide == Advance(old(currentSlide), |news|)
    {
      AdvanceStaysReachable(currentSlide, |news|);
      currentSlide := Advance(currentSlide, |news|);
    }

    /** A dot; the dots are rendered one per news item, so `index` is an item position. */
    method ClickDot(index: nat)
      requires index < |news|
      modifies this
      ensures Valid() && currentSlide == At(index)
    {
      currentSlide := At(index);
    }


    /** With news present, exactly one dot is highlighted. */
    lemma ExactlyOneDot()
      requires Valid() && |news| > 0
      ensures Seqs.Count(Highlighted(currentSlide.index, |news|)) == 1
    {
      ExactlyOneHighlighted(currentSlide.index, |news|);
    }
  }
}
