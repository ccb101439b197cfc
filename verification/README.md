# MUSTSO site: the page-local state machines, in Dafny

The MUSTSO website is a single-page React site for the Mbeya University
Students Organization. Apart from markup, its behaviour is a handful of small
state machines that live inside the components:

- two **carousels** (hero banner, newsroom): a slide index that wraps forward
  with `(i + 1) % n`, backward with `(i - 1 + n) % n`, jumps on a dot click and
  advances on a timer;
- a **multi-expand accordion** (colleges): a list of open college ids in which a
  click removes the id if it is listed and appends it otherwise;
- a **single-expand accordion** (ministry cards): at most one expanded ministry
  id, plus an id-to-icon table with a fallback icon;
- a **filter** (leaders): ministries with at least one leader, all of them or
  only the one with the selected id, under buttons labelled by the ministry
  name minus its first `"Ministry of "`;
- **section navigation** (page, navigation bar, footer): one active section out
  of home, contacts, colleges and newsroom, with a `services` link that goes
  to home, plus the bar's highlighting, mobile-menu and transparency flags.

Each component that keeps state is a class whose fields are its `useState`
variables. Its methods are the event handlers and the timer tick, and each
one's `ensures` gives the new state as a function of the old. The pure
derivations (wrap arithmetic, toggles, filters, labels, which views render)
are functions, and lemmas prove what the components promise about them. The
content document (`mustsoData.json`) is an input: its records are parameters,
shaped by the datatypes in `Content`. Uniqueness of ministry ids is an explicit
precondition where a property needs it.

Layout: one module per source file (`HeroSection`, `NewsroomSection`,
`CollegeSection`, `MinistryCards`, `LeadersSection`, `Navbar`, `Footer`,
`IndexPage`), plus five shared modules:

- `SlideIndex`: wrap arithmetic with JavaScript's truncating `%`.
- `Seqs`: order-preserving filter, removing one value, counting true flags, duplicate freedom.
- `Sections`: the section enum and the `services` pseudo-target.
- `Content`: the record shapes of the content document.
- `Wrappers`: `Option`.

The page's `onNavigate` callback is modelled by passing the page object to the
handlers of the navigation bar and the footer, which change its section through
`IndexPage.Page.HandleNavigation`. In the source the page imports the bar and
the footer; here `Navbar` and `Footer` import `IndexPage` instead, and `Footer`
imports `Navbar` only to state that the two agree.

Four behaviours of the code are worth spelling out:

- With an empty news list, the newsroom's `% news.length` is a remainder by zero. JavaScript gives NaN for it, and NaN absorbs every later step, so the index does not stay 0. The model has `Slide = At(i) | NaN` and proves that the first tick on an empty list yields NaN for good (`NewsroomSection.EmptyNewsTicksToNaN`).
- Only a department leader's phone has its own presence check. The college head's phone and e-mail links are rendered with the head's block, which needs a leader with a non-empty name, without a check of their own; the ministry leaders' links have no check at all. The model's checks cover exactly these guards (`CollegeSection.ShowsLeader`, `CollegeSection.DepartmentPhoneLink`).
- The open colleges are an ordered list, not a set: a re-opened college moves to the end (`CollegeSection.ToggleTwicePresent`).
- The leaders filter's sentinel "all" shares the id space: a ministry whose id were "all" would select every ministry with leaders. `LeadersSection.Displayed` states exactly that, and `LeadersSection.OfferedFilterNonEmpty` covers that case as well.

## Model

| member | source | states |
|---|---|---|
| SlideIndex.JsRem | src/components/HeroSection.tsx:37 | JavaScript's `%` for a positive divisor: the result is strictly between `-n` and `n`, takes the sign of the dividend, and differs from it by a multiple of `n` |
| SlideIndex.Next | src/components/HeroSection.tsx:40-42 | from an index in `[0, n)` the next index stays in `[0, n)`; it is `i + 1` below the last slide, and the last slide wraps to 0 |
| SlideIndex.Prev | src/components/HeroSection.tsx:36-38 | from an index in `[0, n)` the previous index stays in `[0, n)`, so it is never negative; it is `i - 1` above 0, and 0 wraps to `n - 1` |
| SlideIndex.NextUndoesPrev | src/components/HeroSection.tsx:36-42 | next after previous returns to the original index, for every index in range |
| SlideIndex.PrevUndoesNext | src/components/HeroSection.tsx:36-42 | previous after next returns to the original index, for every index in range |
| SlideIndex.AfterTicksIsMod | src/components/HeroSection.tsx:16-21 | `k` timer ticks from the initial slide 0, with no manual input, show slide `k mod n` |
| SlideIndex.ExactlyOneHighlighted | src/components/HeroSection.tsx:50-55 | with the index in range, exactly one position satisfies `index === currentSlide` |
| SlideIndex.Highlighted | src/components/HeroSection.tsx:50-55 | one flag per position; the current position's flag is set when it is in range, and no other position's is |
| SlideIndex.NoneHighlightedOutOfRange | src/components/NewsroomSection.tsx:88-96 | an out-of-range index highlights no dot at all; NaN arises only with an empty list, where there are no dots |
| HeroSection.Carousel.constructor | src/components/HeroSection.tsx:16 | the hero carousel starts on slide 0 |
| HeroSection.Carousel.NextSlide | src/components/HeroSection.tsx:40-42 | the right arrow moves to `Next` of the old index over three slides, keeps the index in range, and wraps 2 to 0 |
| HeroSection.Carousel.PrevSlide | src/components/HeroSection.tsx:36-38 | the left arrow moves to `Prev` of the old index, keeps the index in range, and wraps 0 to 2 |
| HeroSection.Carousel.Tick | src/components/HeroSection.tsx:18-23 | a timer firing makes exactly the right arrow's step |
| HeroSection.Carousel.GoToSlide | src/components/HeroSection.tsx:32-34 | an indicator dot, which exists only for positions `0..2`, sets the index to that position |
| HeroSection.Carousel.ExactlyOneShown | src/components/HeroSection.tsx:50-55 | exactly one of the three background slides is opaque |
| HeroSection.SeventeenTicks | src/components/HeroSection.tsx:18-21 | seventeen ticks after mounting show slide 2 |
| NewsroomSection.Advance | src/components/NewsroomSection.tsx:13 | `(prev + 1) % news.length`: NaN exactly when the index is already NaN or there is no news; an in-range index stays in range and moves up by one below the last item |
| NewsroomSection.Retreat | src/components/NewsroomSection.tsx:23 | `(prev - 1 + news.length) % news.length`: NaN exactly when the index is already NaN or there is no news; an in-range index stays in range and moves down by one above 0 |
| NewsroomSection.AdvanceStaysReachable | src/components/NewsroomSection.tsx:18-20 | with news present, next keeps the index in `[0, n)` and wraps `n - 1` to 0; with no news the only states are 0 and NaN |
| NewsroomSection.RetreatStaysReachable | src/components/NewsroomSection.tsx:22-24 | with news present, previous keeps the index in `[0, n)` and wraps 0 to `n - 1` |
| NewsroomSection.ArrowsAreInverse | src/components/NewsroomSection.tsx:18-24 | with news present, the two arrows undo each other in either order |
| NewsroomSection.TicksWrap | src/components/NewsroomSection.tsx:11-16 | with `n > 0` news items, `k` ticks after mounting show slide `k mod n` |
| NewsroomSection.EmptyNewsTicksToNaN | src/components/NewsroomSection.tsx:13 | with no news, every tick from the first on leaves the index NaN (a remainder by zero) |
| NewsroomSection.Carousel.constructor | src/components/NewsroomSection.tsx:8-9 | the newsroom carousel starts on slide 0 over the document's news list |
| NewsroomSection.Carousel.NextSlide | src/components/NewsroomSection.tsx:18-20 | the right arrow applies `(prev + 1) % news.length`, NaN for an empty list, and keeps the reachable-state invariant |
| NewsroomSection.Carousel.PrevSlide | src/components/NewsroomSection.tsx:22-24 | the left arrow applies `(prev - 1 + news.length) % news.length` and keeps the invariant |
| NewsroomSection.Carousel.Tick | src/components/NewsroomSection.tsx:11-16 | a timer firing makes exactly the right arrow's step |
| NewsroomSection.Carousel.ClickDot | src/components/NewsroomSection.tsx:88-91 | a dot, which exists once per news item, sets the index to that item's position |
| NewsroomSection.Carousel.ExactlyOneDot | src/components/NewsroomSection.tsx:88-96 | with news present, exactly one dot is widened |
| Seqs.Filter | src/components/LeadersSection.tsx:23-25 | `Array.prototype.filter`: the result is an order-preserving subsequence, holds only passing elements, and keeps each passing element as often as the input has it |
| Seqs.Without | src/components/CollegeSection.tsx:14 | removing an id: an order-preserving subsequence without the id, with every other id kept as often as before |
| CollegeSection.Toggle | src/components/CollegeSection.tsx:11-17 | a toggle flips membership of the clicked id only; an absent id is appended at the end; a present id is removed with the rest kept in order; every other id keeps its number of occurrences |
| CollegeSection.ToggleKeepsDistinct | src/components/CollegeSection.tsx:13-15 | a list without duplicates has none after a toggle |
| CollegeSection.ToggleTwiceAbsent | src/components/CollegeSection.tsx:13-15 | toggling an unlisted id twice restores the exact list |
| CollegeSection.ToggleTwicePresent | src/components/CollegeSection.tsx:13-15 | toggling a listed id twice lists it again, but at the end |
| CollegeSection.IndependentExpansion | src/components/CollegeSection.tsx:11-17 | opening two different colleges leaves both open |
| CollegeSection.ShowsLeader | src/components/CollegeSection.tsx:71 | the college head's block (with its phone and e-mail links) renders exactly for a present head with a non-empty name |
| CollegeSection.DepartmentPhoneLink | src/components/CollegeSection.tsx:118-132 | a department's dial link appears exactly when its leader exists with a non-empty name and a non-empty phone, and it dials that phone |
| CollegeSection.Directory.constructor | src/components/CollegeSection.tsx:9 | no college starts expanded |
| CollegeSection.Directory.ToggleCollege | src/components/CollegeSection.tsx:11-17 | a card's trigger replaces the list by its toggle and keeps it duplicate-free; it flips that card's open state and no other card's |
| CollegeSection.Directory.IsOpen | src/components/CollegeSection.tsx:41-61 | a card is drawn open exactly when its id is listed, so none is on a fresh directory |
| MinistryCards.ToggleExpanded | src/components/MinistryCards.tsx:23-25 | a click on the expanded card collapses it; any other click expands exactly the clicked card, closing whichever was open |
| MinistryCards.ToggleTwice | src/components/MinistryCards.tsx:24 | two clicks on one card restore the state from none or from that card; from another expanded card they end with none expanded |
| MinistryCards.FunctionsShown | src/components/MinistryCards.tsx:67 | one flag per card, set exactly when that card's id is the expanded one; with none expanded no card shows its functions |
| MinistryCards.ExactlyTheExpandedShown | src/components/MinistryCards.tsx:67 | with unique ministry ids, expanding a card shows that card's functions and no other card's |
| MinistryCards.AtMostOneShown | src/components/MinistryCards.tsx:67 | with unique ministry ids, at most one card renders its functions |
| MinistryCards.ButtonLabel | src/components/MinistryCards.tsx:87-95 | the button reads "Show Less" exactly when its card is expanded and "View Details" otherwise |
| MinistryCards.IconFor | src/components/MinistryCards.tsx:51 | a listed id gets its table icon, any other id the book icon |
| MinistryCards.IconTable | src/components/MinistryCards.tsx:7-18 | an id gets the book icon exactly when it is "education" or unlisted: the fallback looks like education, and no other listed ministry shares it |
| MinistryCards.Cards.constructor | src/components/MinistryCards.tsx:21 | no card starts expanded |
| MinistryCards.Cards.Toggle | src/components/MinistryCards.tsx:23-25 | a card's button applies the exclusive toggle; the result is none exactly when that card was the expanded one |
| LeadersSection.HasLeaders | src/components/LeadersSection.tsx:24 | a ministry has leaders exactly when its leader list is present and non-empty |
| LeadersSection.WithLeaders | src/components/LeadersSection.tsx:23-25 | the ministries with leaders form an order-preserving subsequence of the document's ministries; every one of them has a leader, and every ministry with a leader is among them |
| LeadersSection.Displayed | src/components/LeadersSection.tsx:27-29 | under "all" every ministry with leaders is shown; under an id only ministries with that id are shown, in order; a ministry without leaders is never shown |
| LeadersSection.DisplayedKeepsMatches | src/components/LeadersSection.tsx:29 | under an id filter, every ministry with leaders and that id is shown |
| LeadersSection.FilterKeepsUniqueIds | src/components/LeadersSection.tsx:23-25 | filtering the ministries keeps their ids unique |
| LeadersSection.AtMostOneWithId | src/components/LeadersSection.tsx:29 | with unique ids, filtering by one id keeps at most one ministry |
| LeadersSection.AtMostOneDisplayed | src/components/LeadersSection.tsx:27-29 | with unique ids, a specific filter displays at most one ministry |
| LeadersSection.FilterOptions | src/components/LeadersSection.tsx:46-64 | the buttons offer "all" first, then the ids of the ministries with leaders, one per ministry and in document order, so every ministry with leaders has its button |
| LeadersSection.OfferedFilterNonEmpty | src/components/LeadersSection.tsx:54-60 | each ministry filter button selects a non-empty list |
| LeadersSection.FindFrom | src/components/LeadersSection.tsx:62 | the search `replace` performs: the first position at or after `i` where the pattern occurs, or none if it does not occur there |
| LeadersSection.ButtonLabel | src/components/LeadersSection.tsx:62 | a label equals the name exactly when the name contains no "Ministry of "; otherwise it is 12 characters shorter |
| LeadersSection.LabelKeepsPlainName | src/components/LeadersSection.tsx:62 | a name without "Ministry of " is left unchanged |
| LeadersSection.LabelCutsFirstOccurrence | src/components/LeadersSection.tsx:62 | only the first occurrence of "Ministry of " is cut out, so the label is 12 characters shorter |
| LeadersSection.LabelOfMinistryName | src/components/LeadersSection.tsx:62 | "Ministry of X" is labelled "X" |
| LeadersSection.FilterState.constructor | src/components/LeadersSection.tsx:21 | the filter starts at "all", showing every ministry with leaders |
| LeadersSection.FilterState.Select | src/components/LeadersSection.tsx:59 | a filter button stores its value and shows that filter's list, so a repeated press changes nothing |
| Navbar.ClickedSection | src/components/Navbar.tsx:33-47 | a click on "services" opens home; a click on a section opens exactly that section |
| Navbar.IsActive | src/components/Navbar.tsx:49-52 | "services" is never highlighted; an item is highlighted exactly when it targets the active section |
| Navbar.ExactlyOneItemActive | src/components/Navbar.tsx:49-52 | exactly one of the five items is highlighted, the active section's; "services" never is |
| Navbar.ShowTransparent | src/components/Navbar.tsx:55 | the bar is transparent only on the home view and never once scrolled, and always at the top of home |
| Navbar.Menu.constructor | src/components/Navbar.tsx:22-23 | the mobile menu starts closed and the bar unscrolled |
| Navbar.Menu.HandleNavClick | src/components/Navbar.tsx:33-47 | a click sets the page's section as `ClickedSection` says, closes the menu, and leaves the scroll flag alone |
| Navbar.Menu.ToggleMenu | src/components/Navbar.tsx:104 | the menu button flips the menu, so two presses restore it |
| Navbar.Menu.HandleScroll | src/components/Navbar.tsx:25-28 | the scroll flag holds exactly when the scroll position is past 20; past it the bar is opaque on every section, and at 20 or less the bar is transparent on home |
| Footer.LinkSection | src/components/Footer.tsx:20-32 | a click on "services" opens home; any other link opens its own section |
| Footer.HandleLinkClick | src/components/Footer.tsx:20-32 | a quick link sets the page's section as `LinkSection` says |
| Footer.QuickLinksTable | src/components/Footer.tsx:12-18 | there are five quick links with pairwise different targets, and "Leaders" opens the contacts view |
| Footer.AgreesWithNavbar | src/components/Footer.tsx:20-32 | for every target the footer and the navigation bar open the same section, and they list the same targets in the same order |
| IndexPage.BranchGuards | src/pages/Index.tsx:24-32 | the four guards of `<main>`, in order, hold exactly when the hero, the leaders, the colleges and the newsroom view is mounted |
| IndexPage.ExactlyOneBranch | src/pages/Index.tsx:24-32 | for every active section exactly one of the four branches of `<main>` renders |
| IndexPage.MainViews | src/pages/Index.tsx:24-32 | home mounts the hero and the ministry cards; contacts mounts the leaders view, colleges the college directory and newsroom the newsroom, and neither the bar nor the footer is part of `<main>` |
| IndexPage.Rendered | src/pages/Index.tsx:20-36 | the navigation bar comes first and the footer last for every section, with the section's views between them |
| IndexPage.SectionsMountDistinctViews | src/pages/Index.tsx:24-32 | two different sections never mount the same views |
| IndexPage.Page.constructor | src/pages/Index.tsx:13 | the page starts on home |
| IndexPage.Page.HandleNavigation | src/pages/Index.tsx:15-18 | navigation stores exactly the given section, so repeating it changes nothing; "services" is not a storable value |

## Left out

- DOM effects are not modelled: `window.scrollTo`, `scrollIntoView` and `document.querySelector` in the page, the navigation bar, the footer and the hero's "Explore Services" button. The same goes for the scroll listener's registration; only its `scrollY > 20` test is modelled.
- The 100 ms delayed scroll to the services anchor after a "services" click is left out. Only the navigation to home is modelled.
- Real time is left out: the 5000 ms intervals and their cleanup on unmount. A timer firing is an explicit `Tick` step.
- The React runtime is left out: re-rendering, effect cleanup and closure capture. Unmounting a view and mounting it again gives fresh state in React, which the model shows only through the constructors' initial states. The objects are not destroyed and recreated on navigation.
- The contents of the content document are inputs. Markup, CSS classes, icons as elements, copy text, `tel:`/`mailto:` hrefs and the newsroom's `translateX` offset are presentation.
- Navbar.Menu.HandleScroll: the scroll position is an integer; a fractional `scrollY` is not modelled.
- HeroSection.Carousel.GoToSlide: `goToSlide` itself accepts any number. The model requires an index in `[0, 3)` because its only callers are the three indicator dots.
- NewsroomSection.Carousel.ClickDot: requires an index below the news count for the same reason, since there is one dot per news item.
- MinistryCards.IconFor: `iconMap` is a plain JavaScript object, so an id that names an inherited property (such as `constructor`) would find a truthy value there. The model's table holds only the ten listed ids.
