/** Small generic facts about sequences that the page components rely on:
    order-preserving filtering (JavaScript's Array.prototype.filter), removal of
    one value, counting the true flags of a rendered list, and duplicate freedom. */
module Seqs {

  /** No value occurs twice. */
  ghost predicate Distinct<T>(s: seq<T>) {
    forall i, j :: 0 <= i < j < |s| ==> s[i] != s[j]
  }

  /** `r` can be obtained from `s` by deleting elements, keeping the order of the rest. */
  predicate IsSubseq<T(==)>(r: seq<T>, s: seq<T>)
    decreases |s|
  {
    if r == [] then true
    else if s == [] then false
    else if r[0] == s[0] then IsSubseq(r[1..], s[1..])
    else IsSubseq(r, s[1..])
  }

  /** Array.prototype.filter: the elements of `s` that satisfy `p`, in their original order. */
  function Filter<T(==)>(s: seq<T>, p: T -> bool): (r: seq<T>)
    ensures |r| <= |s|
    ensures IsSubseq(r, s)
    ensures forall y :: y in r ==> y in s && p(y)
    ensures forall y :: y in s && p(y) ==> multiset(r)[y] == multiset(s)[y]
  {
    if s == [] then []
    else
      var rest := Filter(s[1..], p);
      assert s == [s[0]] + s[1..];
      if p(s[0]) then
        assert ([s[0]] + rest)[1..] == rest;
        [s[0]] + rest
      else
        rest
  }

  /** The test `y => y !== x`. */
  function NotEqual<T(==)>(x: T): T -> bool
  {
    y => y != x
  }

  /** `s` with every occurrence of `x` removed (`s.filter(y => y !== x)`). */
  function Without<T(==)>(s: seq<T>, x: T): (r: seq<T>)
    ensures IsSubseq(r, s)
    ensures x !in r
    ensures forall y :: y in s && y != x ==> multiset(r)[y] == multiset(s)[y]
  {
    Filter(s, NotEqual(x))
  }

  /** Number of true flags. */
  function Count(s: seq<bool>): nat
  {
    if s == [] then 0 else Count(s[..|s| - 1]) + (if s[|s| - 1] then 1 else 0)
  }

  lemma {:induction false} FilterKeepsAll<T>(s: seq<T>, p: T -> bool)
    requires forall k :: 0 <= k < |s| ==> p(s[k])
    ensures Filter(s, p) == s
  {
    if s != [] {
      FilterKeepsAll(s[1..], p);
    }
  }

  lemma {:induction false} FilterDropsAll<T>(s: seq<T>, p: T -> bool)
    requires forall k :: 0 <= k < |s| ==> !p(s[k])
    ensures Filter(s, p) == []
  {
    if s != [] {
      FilterDropsAll(s[1..], p);
    }
  }

  lemma {:induction false} FilterAppend<T>(a: seq<T>, b: seq<T>, p: T -> bool)
    ensures Filter(a + b, p) == Filter(a, p) + Filter(b, p)
  {
    if a == [] {
      assert a + b == b;
    } else {
      assert (a + b)[1..] == a[1..] + b;
      FilterAppend(a[1..], b, p);
    }
  }

  /** Filtering a duplicate-free list leaves it duplicate-free. */
  lemma {:induction false} FilterDistinct<T>(s: seq<T>, p: T -> bool)
    requires Distinct(s)
    ensures Distinct(Filter(s, p))
  {
    if s != [] {
      var rest := Filter(s[1..], p);
      assert Distinct(s[1..]) by {
        forall i, j | 0 <= i < j < |s[1..]| ensures s[1..][i] != s[1..][j] {
          assert s[1..][i] == s[i + 1] && s[1..][j] == s[j + 1];
        }
      }
      FilterDistinct(s[1..], p);
      if p(s[0]) {
        assert s[0] !in s[1..] by {
          forall k | 0 <= k < |s[1..]| ensures s[1..][k] != s[0] {
            assert s[1..][k] == s[k + 1];
          }
        }
        assert s[0] !in rest;
        var r := [s[0]] + rest;
        forall i, j | 0 <= i < j < |r| ensures r[i] != r[j] {
          if i == 0 {
            assert r[j] == rest[j - 1];
            assert rest[j - 1] in rest;
          } else {
            assert r[i] == rest[i - 1] && r[j] == rest[j - 1];
          }
        }
      }
    }
  }

  /** A list of flags with no true flag counts zero. */
  lemma {:induction false} CountNone(s: seq<bool>)
    requires forall k :: 0 <= k < |s| ==> !s[k]
    ensures Count(s) == 0
  {
    if s != [] {
      CountNone(s[..|s| - 1]);
    }
  }

  /** A list of flags whose only true flag sits at `k` counts exactly one. */
  lemma {:induction false} CountSingle(s: seq<bool>, k: nat)
    requires k < |s| && s[k]
    requires forall j :: 0 <= j < |s| && j != k ==> !s[j]
    ensures Count(s) == 1
  {
    var init := s[..|s| - 1];
    if k == |s| - 1 {
      CountNone(init);
    } else {
      CountSingle(init, k);
    }
  }

  /** A list of flags in which no two flags are both true counts at most one. */
  lemma {:induction false} CountAtMostOne(s: seq<bool>)
    requires forall i, j :: 0 <= i < j < |s| ==> !(s[i] && s[j])
    ensures Count(s) <= 1
  {
    if s != [] {
      var init := s[..|s| - 1];
      if s[|s| - 1] {
        CountNone(init);
      } else {
        CountAtMostOne(init);
      }
    }
  }
}
