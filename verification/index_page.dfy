/** The page composer. It owns `activeSection`, changes it only through
    `handleNavigation`, and mounts the primary view(s) of that section between
    the navigation bar and the footer. */
module IndexPage {
  import opened Sections
  import Seqs

  /** The components the page can mount. */
  datatype View = NavbarView | HeroView | MinistryCardsView | LeadersView | CollegesView | NewsroomView | FooterView

  /** The four guarded branches of `<main>`, in source order: which of them render. */
  function BranchGuards(active: Section): (r: seq<bool>)
    ensures |r| == 4
    ensures r[0] <==> HeroView in MainViews(active)
    ensures r[1] <==> LeadersView in MainViews(active)
    ensures r[2] <==> CollegesView in MainViews(active)
    ensures r[3] <==> NewsroomView in MainViews(active)
  {
    [active == Home, active == Contacts, active == Colleges, active == Newsroom]
  }

  /** Whatever the active section, exactly one branch of `<main>` renders. */
  lemma ExactlyOneBranch(active: Section)
    ensures Seqs.Count(BranchGuards(active)) == 1
  {
    var k := match active
      case Home => 0
      case Contacts => 1
      case Colleges => 2
      case Newsroom => 3;
    Seqs.CountSingle(BranchGuards(active), k);
  }

  /** The contents of `<main>`. */
  function MainViews(active: Section): (r: seq<View>)
    ensures active == Home ==> r == [HeroView, MinistryCardsView]
    ensures active == Contacts ==> r == [LeadersView]
    ensures active == Colleges ==> r == [CollegesView]
    ensures active == Newsroom ==> r == [NewsroomView]
    ensures NavbarView !in r && FooterView !in r
  {
    match active
    case Home => [HeroView, MinistryCardsView]
    case Contacts => [LeadersView]
    case Colleges => [CollegesView]
    case Newsroom => [NewsroomView]
  }

  /** The whole page: the navigation bar and the footer frame every section. */
  function Rendered(active: Section): (r: seq<View>)
    ensures |r| >= 3 && r[0] == NavbarView && r[|r| - 1] == FooterView
    ensures r[1..|r| - 1] == MainViews(active)
  {
    [NavbarView] + MainViews(active) + [FooterView]
  }

  /** Different sections mount different views, so each section's view is its own. */
  lemma SectionsMountDistinctViews(a: Section, b: Section)
    requires a != b
    ensures MainViews(a) != MainViews(b)
  {
  }

  class Page {
    var activeSection: Section

    /** Loading the page: `useState('home')`. */
    constructor ()
      ensures activeSection == Home
    {
      activeSection := Home;
    }

    /** `handleNavigation(section)`, the callback handed to the bar and the footer.
        Its argument is a Section, so "services" can never be stored. */
    method HandleNavigation(section: Section)
      modifies this
      ensures activeSection == section
    {
      activeSection := section;
    }
  }
}
