/** Record shapes of the static content document (mustsoData.json) that the
    sections read. The document itself is an input: every operation that needs
    its records takes them as parameters. */
module Content {
  import opened Wrappers

  /** An office-holder. Every field may be the empty string. */
  datatype Leader = Leader(title: string, name: string, phone: string, email: string)

  /** A ministry; `leaders` is absent for ministries the document lists without any. */
  datatype Ministry = Ministry(
    id: string,
    name: string,
    summary: string,
    functions: seq<string>,
    leaders: Option<seq<Leader>>)

  datatype Department = Department(name: string, leader: Option<Leader>)

  datatype College = College(id: string, name: string, leader: Option<Leader>, departments: seq<Department>)

  datatype NewsItem = NewsItem(id: string, date: string, title: string, description: string)

  /** The document's invariant that ministry ids are unique. */
  ghost predicate UniqueMinistryIds(ms: seq<Ministry>) {
    forall i, j :: 0 <= i < j < |ms| ==> ms[i].id != ms[j].id
  }
}
