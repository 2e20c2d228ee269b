/** The text rewrites of internal/services/store/markdown/markdown.go (and the identical line filter of
    backend/main.go): appending a subject section with its links, and deleting every line that
    mentions one of a set of links. Both are pure functions of the current file text. */
module Mutator {
  import opened Models
  import opened Strings

  // ---------------------------------------------------------------------------------------------
  // Append (`AddBulkLinks`).

  /** The blank line put between existing content and a new section: only when there is content and it
      does not already end in a blank line. */
  function Separator(content: string): (r: string)
    ensures r == "" || r == "\n\n"
    ensures content == "" || HasSuffix(content + r, "\n\n")
    ensures content == "" || HasSuffix(content, "\n\n") ==> r == ""
  {
    assert HasSuffix(content + "\n\n", "\n\n");
    if |content| > 0 && !HasSuffix(content, "\n\n") then "\n\n" else ""
  }

  function HeaderLine(subject: string): string {
    "### " + subject
  }

  function BulletLine(l: Link): string {
    "- " + Markup(l)
  }

  /** One bullet line per link, in order, each ended by a newline. */
  function BulletBlock(links: seq<Link>): string {
    if |links| == 0 then "" else BulletLine(links[0]) + "\n" + BulletBlock(links[1..])
  }

  function BulletLines(links: seq<Link>): (lines: seq<string>)
    ensures |lines| == |links|
    ensures forall i :: 0 <= i < |links| ==> lines[i] == BulletLine(links[i])
  {
    if |links| == 0 then [] else [BulletLine(links[0])] + BulletLines(links[1..])
  }

  /** The appended text: a header and a blank line when the subject is not empty, the bullets, and a
      final blank line. */
  function Section(subject: string, links: seq<Link>): string {
    (if subject != "" then HeaderLine(subject) + "\n\n" else "") + BulletBlock(links) + "\n"
  }

  /** A non-empty bullet block ends with a newline. */
  lemma {:induction false} BulletBlockEnd(links: seq<Link>)
    ensures links != [] ==> HasSuffix(BulletBlock(links), "\n")
    decreases |links|
  {
    if |links| > 1 {
      BulletBlockEnd(links[1..]);
      assert BulletBlock(links) == (BulletLine(links[0]) + "\n") + BulletBlock(links[1..]);
    } else if |links| == 1 {
      assert BulletBlock(links) == BulletLine(links[0]) + "\n" + "";
    }
  }

  /** A named subject's section opens with its header and a blank line; every section ends with a
      newline, and with a blank line whenever it writes a header or a bullet, so a later append needs
      no separator. */
  lemma SectionFrame(subject: string, links: seq<Link>)
    ensures subject != "" ==> HasPrefix(Section(subject, links), HeaderLine(subject) + "\n\n")
    ensures HasSuffix(Section(subject, links), "\n")
    ensures subject != "" || links != [] ==> HasSuffix(Section(subject, links), "\n\n")
  {
    BulletBlockEnd(links);
    var tail := BulletBlock(links) + "\n";
    if subject != "" {
      SectionShape(subject, links);
      var head := HeaderLine(subject) + "\n\n";
      assert (head + tail)[..|head|] == head;
      assert (head + tail)[|head + tail| - 1..] == tail[|tail| - 1..];
      assert links == [] ==> (head + tail)[|head + tail| - 2..] == "\n\n";
    } else {
      SectionShapeWithoutHeader(links);
    }
    assert links != [] ==> tail[|tail| - 2..] == BulletBlock(links)[|BulletBlock(links)| - 1..] + "\n";
  }

  /** The new file text after adding a subject with its links. */
  function AppendSection(content: string, subject: string, links: seq<Link>): (r: string)
    ensures |r| > |content| && r[..|content|] == content
    ensures HasSuffix(r, Section(subject, links))
    ensures |content| > 0 ==> HasSuffix(r[..|r| - |Section(subject, links)|], "\n\n")
    ensures |r| == |content| + |Section(subject, links)| + if |content| > 0 && !HasSuffix(content, "\n\n") then 2 else 0
  {
    var glued := content + Separator(content);
    assert |content| > 0 && HasSuffix(content, "\n\n") ==> glued == content;
    var r := glued + Section(subject, links);
    assert r[..|glued|] == glued;
    r
  }

  /** A link survives a write and a read when its title has no `]` and its url no `)`, and neither has a
      newline: the text does not escape them. */
  predicate Writable(l: Link) {
    ']' !in l.title && '\n' !in l.title && ')' !in l.url && '\n' !in l.url
  }

  lemma BulletLineHasNoNewline(l: Link)
    requires '\n' !in l.title && '\n' !in l.url
    ensures '\n' !in BulletLine(l)
  {
  }

  lemma {:induction false} BulletBlockLines(links: seq<Link>)
    requires forall i :: 0 <= i < |links| ==> '\n' !in links[i].title && '\n' !in links[i].url
    ensures Split(BulletBlock(links) + "\n") == BulletLines(links) + ["", ""]
    decreases |links|
  {
    if |links| == 0 {
      assert BulletBlock(links) + "\n" == "" + "\n" + "";
      SplitAround("", "");
    } else {
      var rest := BulletBlock(links[1..]) + "\n";
      assert BulletBlock(links) + "\n" == BulletLine(links[0]) + "\n" + rest;
      SplitAround(BulletLine(links[0]), rest);
      BulletLineHasNoNewline(links[0]);
      SplitWithoutNewline(BulletLine(links[0]));
      BulletBlockLines(links[1..]);
    }
  }

  /** The appended section for a named subject, line by line: the header, a blank line, one bullet
      line per link, then two empty pieces from the final blank line. */
  lemma SectionWithHeader(subject: string, links: seq<Link>)
    requires subject != "" && '\n' !in subject
    requires forall i :: 0 <= i < |links| ==> '\n' !in links[i].title && '\n' !in links[i].url
    ensures Split(Section(subject, links)) == [HeaderLine(subject), ""] + BulletLines(links) + ["", ""]
  {
    BulletBlockLines(links);
    SectionShape(subject, links);
    HeaderLineHasNoNewline(subject);
    HeaderThenLines(HeaderLine(subject), BulletBlock(links) + "\n", BulletLines(links));
  }

  lemma HeaderLineHasNoNewline(subject: string)
    requires '\n' !in subject
    ensures '\n' !in HeaderLine(subject)
  {
    assert HeaderLine(subject) == "### " + subject;
  }

  lemma SectionShape(subject: string, links: seq<Link>)
    requires subject != ""
    ensures Section(subject, links) == HeaderLine(subject) + "\n\n" + (BulletBlock(links) + "\n")
  {
  }

  /** Without a subject the section is the bullet lines alone, then the two empty pieces. */
  lemma SectionWithoutHeader(links: seq<Link>)
    requires forall i :: 0 <= i < |links| ==> '\n' !in links[i].title && '\n' !in links[i].url
    ensures Split(Section("", links)) == BulletLines(links) + ["", ""]
  {
    SectionShapeWithoutHeader(links);
    BulletBlockLines(links);
  }

  lemma SectionShapeWithoutHeader(links: seq<Link>)
    ensures Section("", links) == BulletBlock(links) + "\n"
  {
  }

  /** A line, a blank line, then text: the line, an empty piece, then the pieces of the text. */
  lemma HeaderThenLines(header: string, tail: string, body: seq<string>)
    requires '\n' !in header
    requires Split(tail) == body + ["", ""]
    ensures Split(header + "\n\n" + tail) == [header, ""] + body + ["", ""]
  {
    assert header + "\n\n" + tail == header + "\n" + ("" + "\n" + tail);
    SplitAround(header, "" + "\n" + tail);
    SplitAround("", tail);
    SplitWithoutNewline(header);
    assert Split("") == [""];
    assert [header] + ([""] + (body + ["", ""])) == [header, ""] + body + ["", ""];
  }

  // ---------------------------------------------------------------------------------------------
  // Delete by match (`DeleteLinks`).

  /** The texts a delete request looks for, one per distinct link. */
  function Patterns(links: seq<Link>): set<string> {
    set l | l in links :: Markup(l)
  }

  /** A line is deleted when it contains any of the patterns anywhere. */
  predicate Doomed(line: string, patterns: set<string>) {
    exists p | p in patterns :: Contains(line, p)
  }

  predicate IsSubsequence<T(==)>(a: seq<T>, b: seq<T>)
    decreases |b|
  {
    |a| <= |b| && (a == [] || (a[0] == b[0] && IsSubsequence(a[1..], b[1..])) || IsSubsequence(a, b[1..]))
  }

  /** Putting the same element in front of both keeps one a subsequence of the other. */
  lemma SubsequenceConsBoth<T>(e: T, a: seq<T>, b: seq<T>)
    requires IsSubsequence(a, b)
    ensures IsSubsequence([e] + a, [e] + b)
  {
    assert ([e] + a)[1..] == a && ([e] + b)[1..] == b;
  }

  /** Putting an element in front of the longer one keeps the other a subsequence of it. */
  lemma SubsequenceConsRight<T>(e: T, a: seq<T>, b: seq<T>)
    requires IsSubsequence(a, b)
    ensures IsSubsequence(a, [e] + b)
  {
    assert ([e] + b)[1..] == b;
  }

  /** The lines that mention none of the patterns, in their original order. */
  function KeepLines(lines: seq<string>, patterns: set<string>): (kept: seq<string>)
    ensures IsSubsequence(kept, lines)
    ensures forall i :: 0 <= i < |kept| ==> !Doomed(kept[i], patterns)
    ensures forall x :: multiset(kept)[x] == if Doomed(x, patterns) then 0 else multiset(lines)[x]
    decreases |lines|
  {
    if |lines| == 0 then []
    else
      assert lines == [lines[0]] + lines[1..];
      var rest := KeepLines(lines[1..], patterns);
      if Doomed(lines[0], patterns) then rest else [lines[0]] + rest
  }

  /** The new file text after deleting links: the kept lines joined back with newlines. Its lines are
      exactly the kept ones (one empty line when none is kept), so none of them mentions a deleted
      link and there are never more of them than before. */
  function DeleteLinks(content: string, links: seq<Link>): (r: string)
    ensures var kept := KeepLines(Split(content), Patterns(links));
            Split(r) == if kept == [] then [""] else kept
    ensures |Split(r)| <= |Split(content)|
  {
    KeptTextLines(content, Patterns(links));
    Join(KeepLines(Split(content), Patterns(links)))
  }

  /** Joining the kept lines and splitting again gives them back. */
  lemma KeptTextLines(content: string, patterns: set<string>)
    ensures var kept := KeepLines(Split(content), patterns);
            Split(Join(kept)) == if kept == [] then [""] else kept
  {
    var kept := KeepLines(Split(content), patterns);
    if kept != [] {
      KeptLinesHaveNoNewline(content, patterns);
      JoinThenSplit(kept);
    }
  }

  lemma {:induction false} KeepEveryLine(lines: seq<string>, patterns: set<string>)
    requires forall i :: 0 <= i < |lines| ==> !Doomed(lines[i], patterns)
    ensures KeepLines(lines, patterns) == lines
    decreases |lines|
  {
    if |lines| > 0 {
      KeepEveryLine(lines[1..], patterns);
      assert [lines[0]] + lines[1..] == lines;
    }
  }

  /** When no line mentions any of the links (in particular when there are no links), the text comes
      back byte for byte: splitting and joining on newlines loses nothing. */
  lemma DeleteWithoutMatch(content: string, links: seq<Link>)
    requires forall i :: 0 <= i < |Split(content)| ==> !Doomed(Split(content)[i], Patterns(links))
    ensures DeleteLinks(content, links) == content
  {
    KeepEveryLine(Split(content), Patterns(links));
    SplitThenJoin(content);
  }

  /** Deleting no links changes nothing. */
  lemma DeleteNoLinks(content: string)
    ensures DeleteLinks(content, []) == content
  {
    assert Patterns([]) == {};
    DeleteWithoutMatch(content, []);
  }

  /** Only the set of links matters: repeated links act as one, and their order is irrelevant. */
  lemma DeleteLinksAsSet(content: string, a: seq<Link>, b: seq<Link>)
    requires forall l :: l in a <==> l in b
    ensures DeleteLinks(content, a) == DeleteLinks(content, b)
  {
    assert Patterns(a) == Patterns(b);
  }

  lemma KeptLinesHaveNoNewline(content: string, patterns: set<string>)
    ensures forall i :: 0 <= i < |KeepLines(Split(content), patterns)| ==> '\n' !in KeepLines(Split(content), patterns)[i]
  {
    var lines := Split(content);
    var kept := KeepLines(lines, patterns);
    SplitHasNoNewline(content);
    forall i | 0 <= i < |kept| ensures '\n' !in kept[i] {
      assert kept[i] in multiset(kept);
      assert kept[i] in multiset(lines);
      var j :| 0 <= j < |lines| && lines[j] == kept[i];
    }
  }

  /** The new text splits into exactly the kept lines; when every line was deleted it is empty. */
  lemma DeletedTextLines(content: string, links: seq<Link>)
    ensures var kept := KeepLines(Split(content), Patterns(links));
            Split(DeleteLinks(content, links)) == if kept == [] then [""] else kept
  {
    var kept := KeepLines(Split(content), Patterns(links));
    if kept != [] {
      KeptLinesHaveNoNewline(content, Patterns(links));
      JoinThenSplit(kept);
    }
  }

  /** Deleting never adds a line. */
  lemma DeleteNeverAddsLines(content: string, links: seq<Link>)
    ensures |Split(DeleteLinks(content, links))| <= |Split(content)|
  {
    DeletedTextLines(content, links);
  }

  lemma PatternsAreLong(links: seq<Link>)
    ensures forall p :: p in Patterns(links) ==> |p| >= 4
  {
  }

  /** Deleting the same links twice is the same as deleting them once. */
  lemma DeleteIdempotent(content: string, links: seq<Link>)
    ensures DeleteLinks(DeleteLinks(content, links), links) == DeleteLinks(content, links)
  {
    var patterns := Patterns(links);
    var kept := KeepLines(Split(content), patterns);
    var once := DeleteLinks(content, links);
    DeletedTextLines(content, links);
    if kept == [] {
      PatternsAreLong(links);
      assert !Doomed("", patterns);
      KeepEveryLine([""], patterns);
    } else {
      KeepEveryLine(kept, patterns);
    }
  }
}
