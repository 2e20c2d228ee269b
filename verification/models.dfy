/** The entities of the link collection (internal/models/link.go). */
module Models {

  /** A hyperlink. Only the (title, url) pair is ever produced by the parser or used for matching;
      the Go struct's ID and Timestamp fields are left at their zero values and are not modelled. */
  datatype Link = Link(title: string, url: string)

  /** A named group of links: one header section of a Markdown file, or the synthetic "Others" group. */
  datatype Subject = Subject(name: string, links: seq<Link>)

  /** The name given to the group of links found before the first header. */
  const OthersName: string := "Others"

  /** The exact text `[title](url)` a link is written as, and looked for when deleting. */
  function Markup(l: Link): string {
    "[" + l.title + "](" + l.url + ")"
  }

  /** All links of a sequence of subjects, in order. */
  function AllLinksOf(subjects: seq<Subject>): seq<Link> {
    if |subjects| == 0 then [] else subjects[0].links + AllLinksOf(subjects[1..])
  }

  /** The names of a sequence of subjects, in order. */
  function NamesOf(subjects: seq<Subject>): (names: seq<string>)
    ensures |names| == |subjects|
    ensures forall i :: 0 <= i < |subjects| ==> names[i] == subjects[i].name
  {
    if |subjects| == 0 then [] else [subjects[0].name] + NamesOf(subjects[1..])
  }
}
