/** The footer's quick links. The footer has no state of its own: each link
    calls the page's navigation callback with the link's section, except that
    "services" is sent to home. */
module Footer {
  import opened Sections
  import IndexPage
  import Navbar
  import Seqs

  datatype QuickLink = QuickLink(title: string, target: NavTarget)

  /** `quickLinks`, in display order. */
  const QuickLinks: seq<QuickLink> := [
    QuickLink("Home", Page(Home)),
    QuickLink("Services", Services),
    QuickLink("Leaders", Page(Contacts)),
    QuickLink("Colleges", Page(Colleges)),
    QuickLink("Newsroom", Page(Newsroom))
  ]

  /** Where `handleLinkClick` sends the page. */
  function LinkSection(target: NavTarget): (r: Section)
    ensures target == Services ==> r == Home
    ensures target.Page? ==> r == target.section
  {
    if target == Services then Home else target.section
  }

  /** A quick link's click. */
  method HandleLinkClick(target: NavTarget, page: IndexPage.Page)
    modifies page
    ensures page.activeSection == LinkSection(target)
  {
    if target == Services {
      page.HandleNavigation(Home);
    } else {
      page.HandleNavigation(target.section);
    }
  }

  /** The targets of the quick links, in display order. */
  function Targets(): seq<NavTarget>
  {
    seq(|QuickLinks|, k requires 0 <= k < |QuickLinks| => QuickLinks[k].target)
  }

  /** Five links with pairwise different targets; "Leaders" opens the contacts view. */
  lemma QuickLinksTable()
    ensures |QuickLinks| == 5 && Seqs.Distinct(Targets())
    ensures QuickLinks[2] == QuickLink("Leaders", Page(Contacts))
  {
  }

  /** For every target the footer and the navigation bar open the same section,
      and they offer the same targets in the same order. */
  lemma AgreesWithNavbar(target: NavTarget)
    ensures LinkSection(target) == Navbar.ClickedSection(target)
    ensures Targets() == seq(|Navbar.NavItems|, k requires 0 <= k < |Navbar.NavItems| => Navbar.NavItems[k].target)
  {
  }
}
