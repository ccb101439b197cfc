/** The fixed navigation bar. It receives the active section and the page's
    navigation callback; it owns two flags of its own, the mobile menu's
    `isOpen` and `scrolled` (the window is scrolled past 20 pixels). */
module Navbar {
  import opened Sections
  import IndexPage
  import Seqs

  datatype NavItem = NavItem(title: string, target: NavTarget)

  /** `navItems`, in display order. */
  const NavItems: seq<NavItem> := [
    NavItem("Home", Page(Home)),
    NavItem("Services", Services),
    NavItem("Contacts", Page(Contacts)),
    NavItem("College Wise", Page(Colleges)),
    NavItem("Newsroom", Page(Newsroom))
  ]

  /** Where `handleNavClick` sends the page: "services" goes to home (the
      delayed scroll to the services anchor is not part of this model). */
  function ClickedSection(target: NavTarget): (r: Section)
    ensures target == Services ==> r == Home
    ensures target.Page? ==> r == target.section
  {
    match target
    case Services => Home
    case Page(s) => s
  }

  /** `isActive`: "services" is never highlighted; a section is highlighted
      exactly when it is the active one. */
  predicate IsActive(target: NavTarget, active: Section): (r: bool)
    ensures target == Services ==> !r
    ensures r <==> target == Page(active)
  {
    match target
    case Services => false
    case Page(s) => s == active
  }

  /** The highlight flag of each nav item, in display order. */
  function ActiveFlags(active: Section): seq<bool>
  {
    seq(|NavItems|, k requires 0 <= k < |NavItems| => IsActive(NavItems[k].target, active))
  }

  /** Exactly one of the five items is highlighted, the active section's. */
  lemma ExactlyOneItemActive(active: Section)
    ensures Seqs.Count(ActiveFlags(active)) == 1
    ensures !ActiveFlags(active)[1]
  {
    var k := match active
      case Home => 0
      case Contacts => 2
      case Colleges => 3
      case Newsroom => 4;
    Seqs.CountSingle(ActiveFlags(active), k);
  }

  /** The scroll position past which the bar counts as scrolled. */
  const ScrollThreshold: int := 20

  /** `showTransparent`: a see-through bar only over the un-scrolled home view. */
  predicate ShowTransparent(active: Section, scrolled: bool): (r: bool)
    ensures r ==> active == Home
    ensures scrolled ==> !r
    ensures active == Home && !scrolled ==> r
  {
    active == Home && !scrolled
  }

  class Menu {
    var isOpen: bool
    var scrolled: bool

    /** Mounting the bar: menu closed, not scrolled. */
    constructor ()
      ensures !isOpen && !scrolled
    {
      isOpen := false;
      scrolled := false;
    }

    /** `handleNavClick`, from the logo (with Home), a desktop item or a mobile item. */
    method HandleNavClick(target: NavTarget, page: IndexPage.Page)
      modifies this, page
      ensures page.activeSection == ClickedSection(target)
      ensures !isOpen && scrolled == old(scrolled)
    {
      match target {
        case Services => page.HandleNavigation(Home);
        case Page(s) => page.HandleNavigation(s);
      }
      isOpen := false;
    }

    /** The mobile menu button: two presses restore the menu. */
    method ToggleMenu()
      modifies this
      ensures isOpen == !old(isOpen) && scrolled == old(scrolled)
    {
      isOpen := !isOpen;
    }

    /** The window's scroll listener. */
    method HandleScroll(scrollY: int)
      modifies this
      ensures scrolled <==> scrollY > ScrollThreshold
      ensures isOpen == old(isOpen)
      ensures scrollY > ScrollThreshold ==> forall s :: !ShowTransparent(s, scrolled)
      ensures scrollY <= ScrollThreshold ==> ShowTransparent(Home, scrolled)
    {
      scrolled := scrollY > ScrollThreshold;
    }
  }
}
