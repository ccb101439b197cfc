/** The leader directory. Only ministries with at least one leader are listed;
    a row of filter buttons selects either every such ministry (the sentinel
    string "all") or the one with a given id. Each filter button is labelled with
    the ministry name minus its first "Ministry of ". */
module LeadersSection {
  import opened Wrappers
  import opened Seqs
  import Content

  /** `ministry.leaders && ministry.leaders.length > 0`. */
  predicate HasLeaders(m: Content.Ministry): (r: bool)
    ensures m.leaders.None? ==> !r
    ensures m.leaders == Some([]) ==> !r
    ensures m.leaders.Some? && m.leaders.value != [] ==> r
  {
    m.leaders.Some? && |m.leaders.value| > 0
  }

  /** `ministriesWithLeaders`. */
  function WithLeaders(ms: seq<Content.Ministry>): (r: seq<Content.Ministry>)
    ensures IsSubseq(r, ms)
    ensures forall m :: m in r ==> m in ms && HasLeaders(m)
    ensures forall m :: m in ms && HasLeaders(m) ==> m in r
  {
    var r := Filter(ms, HasLeaders);
    assert forall m :: m in ms && HasLeaders(m) ==> multiset(r)[m] == multiset(ms)[m] > 0;
    r
  }

  /** The test `m => m.id === selectedMinistry`. */
  function IdIs(id: string): Content.Ministry -> bool
  {
    (m: Content.Ministry) => m.id == id
  }

  /** `filteredMinistries`: what the directory shows under filter `selected`. */
  function Displayed(ms: seq<Content.Ministry>, selected: string): (r: seq<Content.Ministry>)
    ensures selected == "all" ==> r == WithLeaders(ms)
    ensures selected != "all" ==> forall m :: m in r ==> m.id == selected
    ensures selected != "all" ==> IsSubseq(r, WithLeaders(ms))
    ensures forall m :: m in r ==> m in ms && HasLeaders(m)
  {
    if selected == "all" then WithLeaders(ms) else Filter(WithLeaders(ms), IdIs(selected))
  }

  /** Under a specific filter, every listed ministry carrying that id is shown. */
  lemma DisplayedKeepsMatches(ms: seq<Content.Ministry>, selected: string, m: Content.Ministry)
    requires selected != "all"
    requires m in ms && HasLeaders(m) && m.id == selected
    ensures m in Displayed(ms, selected)
  {
    var wl := WithLeaders(ms);
    assert IdIs(selected)(m);
    assert multiset(Filter(wl, IdIs(selected)))[m] == multiset(wl)[m] > 0;
  }

  /** Filtering keeps the document's ids unique. */
  lemma {:induction false} FilterKeepsUniqueIds(ms: seq<Content.Ministry>, p: Content.Ministry -> bool)
    requires Content.UniqueMinistryIds(ms)
    ensures Content.UniqueMinistryIds(Filter(ms, p))
  {
    if ms != [] {
      var tail := ms[1..];
      assert Content.UniqueMinistryIds(tail) by {
        forall i, j | 0 <= i < j < |tail| ensures tail[i].id != tail[j].id {
          assert tail[i] == ms[i + 1] && tail[j] == ms[j + 1];
        }
      }
      FilterKeepsUniqueIds(tail, p);
      var rest := Filter(tail, p);
      assert Filter(ms, p) == if p(ms[0]) then [ms[0]] + rest else rest;
      if p(ms[0]) {
        forall x | x in tail ensures x.id != ms[0].id {
          var k :| 0 <= k < |tail| && tail[k] == x;
          assert tail[k] == ms[k + 1];
        }
        var r := [ms[0]] + rest;
        forall i, j | 0 <= i < j < |r| ensures r[i].id != r[j].id {
          assert r[j] == rest[j - 1];
          if i == 0 {
            assert rest[j - 1] in rest;
          } else {
            assert r[i] == rest[i - 1];
          }
        }
      }
    }
  }

  /** With unique ids, selecting an id keeps at most one ministry. */
  lemma {:induction false} AtMostOneWithId(ms: seq<Content.Ministry>, id: string)
    requires Content.UniqueMinistryIds(ms)
    ensures |Filter(ms, IdIs(id))| <= 1
  {
    if ms != [] {
      var tail := ms[1..];
      var rest := Filter(tail, IdIs(id));
      if ms[0].id == id {
        forall k | 0 <= k < |tail| ensures !IdIs(id)(tail[k]) {
          assert tail[k] == ms[k + 1];
        }
        FilterDropsAll(tail, IdIs(id));
      } else {
        assert Content.UniqueMinistryIds(tail) by {
          forall i, j | 0 <= i < j < |tail| ensures tail[i].id != tail[j].id {
            assert tail[i] == ms[i + 1] && tail[j] == ms[j + 1];
          }
        }
        AtMostOneWithId(tail, id);
      }
    }
  }

  /** With unique ids, a specific filter shows at most one ministry. */
  lemma AtMostOneDisplayed(ms: seq<Content.Ministry>, selected: string)
    requires Content.UniqueMinistryIds(ms) && selected != "all"
    ensures |Displayed(ms, selected)| <= 1
  {
    FilterKeepsUniqueIds(ms, HasLeaders);
    AtMostOneWithId(WithLeaders(ms), selected);
  }

  /** The filter values the buttons offer: "all", then one per ministry with leaders. */
  function FilterOptions(ms: seq<Content.Ministry>): (r: seq<string>)
    ensures |r| == |WithLeaders(ms)| + 1 && r[0] == "all"
    ensures forall k :: 0 < k < |r| ==> exists m :: m in ms && HasLeaders(m) && m.id == r[k]
    ensures forall k :: 0 < k < |r| ==> r[k] == WithLeaders(ms)[k - 1].id
    ensures forall m :: m in ms && HasLeaders(m) ==> m.id in r
  {
    var wl := WithLeaders(ms);
    var r := ["all"] + seq(|wl|, k requires 0 <= k < |wl| => wl[k].id);
    assert forall k :: 0 < k < |r| ==> r[k] == wl[k - 1].id;
    assert forall k :: 0 < k < |r| ==> exists m :: m in ms && HasLeaders(m) && m.id == r[k] by {
      forall k | 0 < k < |r| ensures exists m :: m in ms && HasLeaders(m) && m.id == r[k] {
        assert wl[k - 1] in wl;
      }
    }
    assert forall m :: m in ms && HasLeaders(m) ==> m.id in r by {
      forall m | m in ms && HasLeaders(m) ensures m.id in r {
        var k :| 0 <= k < |wl| && wl[k] == m;
        assert r[k + 1] == m.id;
      }
    }
    r
  }

  /** Every ministry button selects a non-empty list: a filter for a ministry
      without leaders cannot be chosen. */
  lemma OfferedFilterNonEmpty(ms: seq<Content.Ministry>, k: nat)
    requires 0 < k < |FilterOptions(ms)|
    ensures |Displayed(ms, FilterOptions(ms)[k])| >= 1
  {
    var wl := WithLeaders(ms);
    var m := wl[k - 1];
    assert m in wl;
    assert FilterOptions(ms)[k] == m.id;
    if m.id != "all" {
      DisplayedKeepsMatches(ms, m.id, m);
    }
  }

  /** The text JavaScript's `name.replace('Ministry of ', '')` removes. */
  const Prefix: string := "Ministry of "

  predicate OccursAt(s: string, pat: string, j: nat) {
    j + |pat| <= |s| && s[j..j + |pat|] == pat
  }

  /** The first position at or after `i` where `pat` occurs in `s`. */
  function FindFrom(s: string, pat: string, i: nat): (r: Option<nat>)
    requires i <= |s|
    decreases |s| - i
    ensures r.Some? ==> i <= r.value && OccursAt(s, pat, r.value)
    ensures r.Some? ==> forall j: nat :: i <= j < r.value ==> !OccursAt(s, pat, j)
    ensures r.None? ==> forall j: nat :: i <= j ==> !OccursAt(s, pat, j)
  {
    if i + |pat| > |s| then None
    else if s[i..i + |pat|] == pat then Some(i)
    else FindFrom(s, pat, i + 1)
  }

  /** A filter button's label. */
  function ButtonLabel(name: string): (r: string)
    ensures r == name <==> forall j: nat :: !OccursAt(name, Prefix, j)
    ensures r != name ==> |r| == |name| - |Prefix|
  {
    match FindFrom(name, Prefix, 0)
    case None => name
    case Some(i) => name[..i] + name[i + |Prefix|..]
  }

  /** A name without "Ministry of " is its own label. */
  lemma LabelKeepsPlainName(name: string)
    requires forall j: nat :: !OccursAt(name, Prefix, j)
    ensures ButtonLabel(name) == name
  {
  }

  /** Only the first occurrence of "Ministry of " is cut out. */
  lemma LabelCutsFirstOccurrence(name: string, i: nat)
    requires OccursAt(name, Prefix, i)
    requires forall j: nat :: j < i ==> !OccursAt(name, Prefix, j)
    ensures ButtonLabel(name) == name[..i] + name[i + |Prefix|..]
    ensures |ButtonLabel(name)| == |name| - |Prefix|
  {
  }

  lemma LabelOfMinistryName(rest: string)
    ensures ButtonLabel(Prefix + rest) == rest
  {
    var name := Prefix + rest;
    assert OccursAt(name, Prefix, 0) by {
      assert name[0..|Prefix|] == Prefix;
    }
    LabelCutsFirstOccurrence(name, 0);
    assert name[|Prefix|..] == rest;
  }

  class FilterState {
    const ministries: seq<Content.Ministry>
    var selectedMinistry: string

    /** Mounting the section over the document's ministries: filter "all". */
    constructor (ministries: seq<Content.Ministry>)
      ensures this.ministries == ministries && selectedMinistry == "all"
      ensures Shown() == WithLeaders(ministries)
    {
      this.ministries := ministries;
      selectedMinistry := "all";
    }

    /** A filter button ("All Ministries" passes "all"). Selecting is idempotent. */
    method Select(id: string)
      modifies this
      ensures selectedMinistry == id
      ensures Shown() == Displayed(ministries, id)
    {
      selectedMinistry := id;
    }

    function Shown(): seq<Content.Ministry>
      reads this
    {
      Displayed(ministries, selectedMinistry)
    }
  }
}
