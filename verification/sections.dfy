/** The page's top-level views and the navigation targets that name them. */
module Sections {

  /** `ActiveSection`: the one primary view on screen. */
  datatype Section = Home | Contacts | Colleges | Newsroom

  /** What a navigation link names: a real section, or the "services" anchor that
      lives inside the home view. */
  datatype NavTarget = Page(section: Section) | Services
}
