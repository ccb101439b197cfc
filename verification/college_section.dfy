/** The college directory: any number of college cards may be expanded at once.
    `openColleges` lists the expanded college ids; clicking a card's trigger
    removes its id if listed and appends it otherwise. */
module CollegeSection {
  import opened Wrappers
  import opened Seqs
  import Content

  /** `prev.includes(id) ? prev.filter(x => x !== id) : [...prev, id]`. */
  function Toggle(open: seq<string>, id: string): (r: seq<string>)
    ensures id in r <==> id !in open
    ensures forall y :: y != id ==> (y in r <==> y in open)
    ensures id !in open ==> r == open + [id]
    ensures id in open ==> IsSubseq(r, open)
    ensures forall y :: y != id ==> multiset(r)[y] == multiset(open)[y]
  {
    if id in open then Without(open, id) else open + [id]
  }

  /** An open list without repeated ids stays so. */
  lemma ToggleKeepsDistinct(open: seq<string>, id: string)
    requires Distinct(open)
    ensures Distinct(Toggle(open, id))
  {
    if id in open {
      FilterDistinct(open, NotEqual(id));
    } else {
      var r := open + [id];
      forall i, j | 0 <= i < j < |r| ensures r[i] != r[j] {
        if j == |open| {
          assert r[i] == open[i];
        }
      }
    }
  }

  /** Toggling an unlisted id twice restores the list exactly. */
  lemma ToggleTwiceAbsent(open: seq<string>, id: string)
    requires id !in open
    ensures Toggle(Toggle(open, id), id) == open
  {
    var p := NotEqual(id);
    assert Toggle(open, id) == open + [id];
    FilterAppend(open, [id], p);
    FilterKeepsAll(open, p);
    assert Filter([id], p) == [];
  }

  /** Toggling a listed id twice lists it again, but now last. */
  lemma ToggleTwicePresent(open: seq<string>, id: string)
    requires id in open
    ensures Toggle(Toggle(open, id), id) == Without(open, id) + [id]
  {
  }

  /** Opening two different colleges leaves both open. */
  lemma IndependentExpansion(open: seq<string>, a: string, b: string)
    requires a != b && a !in open && b !in open
    ensures a in Toggle(Toggle(open, a), b) && b in Toggle(Toggle(open, a), b)
  {
  }

  /** The college head's block (`college.leader && college.leader.name`). */
  predicate ShowsLeader(leader: Option<Content.Leader>): (r: bool)
    ensures leader.None? ==> !r
    ensures r ==> leader.value.name != ""
    ensures leader.Some? && leader.value.name != "" ==> r
  {
    leader.Some? && leader.value.name != ""
  }

  /** The department's dial link: present only inside a shown leader line and only
      for a non-empty phone (`dept.leader.phone && ...`). */
  function DepartmentPhoneLink(d: Content.Department): (r: Option<string>)
    ensures r.Some? ==> ShowsLeader(d.leader) && r.value == d.leader.value.phone && r.value != ""
    ensures ShowsLeader(d.leader) && d.leader.value.phone != "" ==> r.Some?
  {
    if ShowsLeader(d.leader) && d.leader.value.phone != "" then Some(d.leader.value.phone) else None
  }

  class Directory {
    var openColleges: seq<string>

    ghost predicate Valid()
      reads this
    {
      Distinct(openColleges)
    }

    /** Mounting the section: no college is expanded. */
    constructor ()
      ensures Valid() && openColleges == []
    {
      openColleges := [];
    }

    /** A college card's open/close trigger. */
    method ToggleCollege(collegeId: string)
      requires Valid()
      modifies this
      ensures Valid()
      ensures openColleges == Toggle(old(openColleges), collegeId)
      ensures IsOpen(collegeId) <==> !old(IsOpen(collegeId))
      ensures forall c :: c != collegeId ==> (IsOpen(c) <==> old(IsOpen(c)))
    {
      ToggleKeepsDistinct(openColleges, collegeId);
      if collegeId in openColleges {
        openColleges := Without(openColleges, collegeId);
      } else {
        openColleges := openColleges + [collegeId];
      }
    }

    /** A card is drawn expanded (and its chevron points up) exactly when its id is listed. */
    predicate IsOpen(collegeId: string): (r: bool)
      reads this
      ensures openColleges == [] ==> !r
      ensures r <==> exists k :: 0 <= k < |openColleges| && openColleges[k] == collegeId
    {
      collegeId in openColleges
    }
  }
}
