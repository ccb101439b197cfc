/** The ministry cards: at most one card shows its list of functions. `expandedId`
    is that card's ministry id, or null; each card's button toggles its own id in
    and out. Each card also shows an icon looked up by ministry id. */
module MinistryCards {
  import opened Wrappers
  import Content
  import Seqs

  /** `expandedId === id ? null : id`. */
  function ToggleExpanded(expanded: Option<string>, id: string): (r: Option<string>)
    ensures r == None <==> expanded == Some(id)
    ensures r != None ==> r == Some(id)
  {
    if expanded == Some(id) then None else Some(id)
  }

  /** Pressing the same button twice returns to the start only from "none" or from
      that very card; from another expanded card it ends with nothing expanded. */
  lemma ToggleTwice(expanded: Option<string>, id: string)
    ensures expanded == None || expanded == Some(id) ==>
      ToggleExpanded(ToggleExpanded(expanded, id), id) == expanded
    ensures expanded.Some? && expanded.value != id ==>
      ToggleExpanded(ToggleExpanded(expanded, id), id) == None
  {
  }

  /** Per card, in document order: is its functions list rendered (`expandedId === ministry.id`)? */
  function FunctionsShown(ministries: seq<Content.Ministry>, expanded: Option<string>): (r: seq<bool>)
    ensures |r| == |ministries|
    ensures expanded == None ==> forall k :: 0 <= k < |r| ==> !r[k]
    ensures forall k :: 0 <= k < |r| && r[k] ==> expanded == Some(ministries[k].id)
    ensures forall k :: 0 <= k < |r| && expanded == Some(ministries[k].id) ==> r[k]
  {
    seq(|ministries|, k requires 0 <= k < |ministries| => expanded == Some(ministries[k].id))
  }

  /** With unique ministry ids, at most one card shows its functions. */
  lemma AtMostOneShown(ministries: seq<Content.Ministry>, expanded: Option<string>)
    requires Content.UniqueMinistryIds(ministries)
    ensures Seqs.Count(FunctionsShown(ministries, expanded)) <= 1
  {
    Seqs.CountAtMostOne(FunctionsShown(ministries, expanded));
  }

  /** With unique ministry ids, expanding card `k` shows the functions of card
      `k` and of no other card. */
  lemma ExactlyTheExpandedShown(ministries: seq<Content.Ministry>, k: nat)
    requires Content.UniqueMinistryIds(ministries) && k < |ministries|
    ensures FunctionsShown(ministries, Some(ministries[k].id))[k]
    ensures Seqs.Count(FunctionsShown(ministries, Some(ministries[k].id))) == 1
  {
    var s := FunctionsShown(ministries, Some(ministries[k].id));
    forall j | 0 <= j < |s| && j != k ensures !s[j] {
      if j < k {
        assert ministries[j].id != ministries[k].id;
      } else {
        assert ministries[k].id != ministries[j].id;
      }
    }
    Seqs.CountSingle(s, k);
  }

  /** The card's button text. */
  function ButtonLabel(expanded: Option<string>, id: string): (r: string)
    ensures r == "Show Less" <==> expanded == Some(id)
    ensures r == "View Details" <==> expanded != Some(id)
  {
    if expanded == Some(id) then "Show Less" else "View Details"
  }

  datatype Icon =
    | BookOpen | Heart | Scale | Users | Wallet
    | Trophy | Megaphone | Shield | Building | GraduationCap

  /** `iconMap`: the ten ministry ids with a dedicated icon. */
  const IconMap: map<string, Icon> := map[
    "education" := BookOpen,
    "health_food_environment" := Heart,
    "legal_affairs" := Scale,
    "gender_religion_ethics" := Users,
    "finance_planning" := Wallet,
    "sports_entertainment_culture" := Trophy,
    "information_public_relations" := Megaphone,
    "defense_security_disaster" := Shield,
    "infrastructure_accommodation" := Building,
    "student_loans" := GraduationCap
  ]

  /** `iconMap[ministry.id] || <BookOpen/>`. */
  function IconFor(id: string): (r: Icon)
    ensures id in IconMap ==> r == IconMap[id]
    ensures id !in IconMap ==> r == BookOpen
  {
    if id in IconMap then IconMap[id] else BookOpen
  }

  /** The book icon marks exactly the education ministry and every unlisted id:
      the fallback looks like "education", and no other listed id shares it. */
  lemma IconTable(id: string)
    ensures IconFor(id) == BookOpen <==> id == "education" || id !in IconMap
  {
  }

  class Cards {
    var expandedId: Option<string>

    /** Mounting the section: nothing expanded. */
    constructor ()
      ensures expandedId == None
    {
      expandedId := None;
    }

    /** A card's "View Details" / "Show Less" button. */
    method Toggle(id: string)
      modifies this
      ensures expandedId == ToggleExpanded(old(expandedId), id)
      ensures expandedId == None <==> old(expandedId) == Some(id)
    {
      expandedId := if expandedId == Some(id) then None else Some(id);
    }
  }
}
