/** The index arithmetic shared by the two carousels: `(i + 1) % n` to advance,
    `(i - 1 + n) % n` to go back, where `%` is JavaScript's remainder, which
    truncates toward zero and so keeps the sign of its left operand. */
module SlideIndex {
  import Seqs

  lemma {:induction false} MulAtLeast(n: int, d: int)
    requires n > 0 && d >= 1
    ensures n * d >= n
  {
    if d > 1 {
      MulAtLeast(n, d - 1);
      assert n * d == n * (d - 1) + n;
    }
  }

  /** Euclidean division is unique: `x == n * q + j` with `0 <= j < n` fixes both. */
  lemma ModUnique(x: int, n: int, q: int, j: int)
    requires n > 0 && 0 <= j < n && x == n * q + j
    ensures x % n == j && x / n == q
  {
    var q', j' := x / n, x % n;
    assert x == n * q' + j';
    if q' > q {
      MulAtLeast(n, q' - q);
    } else if q' < q {
      MulAtLeast(n, q - q');
    }
  }

  /** JavaScript's `a % n` for a positive divisor. */
  function JsRem(a: int, n: int): (r: int)
    requires n > 0
    ensures -n < r < n
    ensures a >= 0 ==> r >= 0
    ensures a <= 0 ==> r <= 0
    ensures (a - r) % n == 0
  {
    if a >= 0 then
      ModUnique(a - a % n, n, a / n, 0);
      a % n
    else
      var q := (-a) / n;
      assert a - -((-a) % n) == n * (-q);
      ModUnique(a - -((-a) % n), n, -q, 0);
      -((-a) % n)
  }

  /** The slide after `i` (`nextSlide` and the interval tick). */
  function Next(i: int, n: nat): (r: int)
    requires n > 0
    ensures 0 <= i < n ==> 0 <= r < n
    ensures 0 <= i < n - 1 ==> r == i + 1
    ensures i == n - 1 ==> r == 0
  {
    JsRem(i + 1, n)
  }

  /** The slide before `i` (`prevSlide`). The `+ n` keeps the left operand of `%`
      non-negative, so the result is never negative. */
  function Prev(i: int, n: nat): (r: int)
    requires n > 0
    ensures 0 <= i < n ==> 0 <= r < n
    ensures 0 < i < n ==> r == i - 1
    ensures i == 0 ==> r == n - 1
  {
    JsRem(i - 1 + n, n)
  }

  lemma NextUndoesPrev(i: int, n: nat)
    requires 0 <= i < n
    ensures Next(Prev(i, n), n) == i
  {
  }

  lemma PrevUndoesNext(i: int, n: nat)
    requires 0 <= i < n
    ensures Prev(Next(i, n), n) == i
  {
  }

  /** The index after `k` timer ticks from the initial slide 0, with no manual input. */
  function AfterTicks(k: nat, n: nat): int
    requires n > 0
  {
    if k == 0 then 0 else Next(AfterTicks(k - 1, n), n)
  }

  /** `k` ticks from slide 0 show slide `k mod n`. */
  lemma {:induction false} AfterTicksIsMod(k: nat, n: nat)
    requires n > 0
    ensures AfterTicks(k, n) == k % n
  {
    if k > 0 {
      AfterTicksIsMod(k - 1, n);
      var q, i := (k - 1) / n, (k - 1) % n;
      assert k - 1 == n * q + i;
      assert n * (q + 1) == n * q + n;
      assert AfterTicks(k, n) == Next(i, n);
      if i < n - 1 {
        ModUnique(k, n, q, i + 1);
      } else {
        ModUnique(k, n, q + 1, 0);
      }
    }
  }

  /** The per-position "is the current slide" flags: slide opacity and indicator
      highlight are both `index === currentSlide`. */
  function Highlighted(current: int, n: nat): (r: seq<bool>)
    ensures |r| == n
    ensures 0 <= current < n ==> r[current]
    ensures forall k :: 0 <= k < n && k != current ==> !r[k]
  {
    seq(n, k => k == current)
  }

  /** With the index in range, exactly one position is shown / highlighted. */
  lemma ExactlyOneHighlighted(current: int, n: nat)
    requires 0 <= current < n
    ensures Seqs.Count(Highlighted(current, n)) == 1
  {
    Seqs.CountSingle(Highlighted(current, n), current);
  }

  /** With the index out of range no position is highlighted. (The newsroom's
      NaN index arises only with an empty news list, where there are no dots.) */
  lemma NoneHighlightedOutOfRange(current: int, n: nat)
    requires current < 0 || current >= n
    ensures Seqs.Count(Highlighted(current, n)) == 0
  {
    Seqs.CountNone(Highlighted(current, n));
  }
}
