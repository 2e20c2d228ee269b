/** How the text rewrites look through the parser: an appended subject reads back as written, after
    the subjects already in the file, and deleted links no longer read back at all. These hold for
    both header rules. */
module RoundTrip {
  import opened Wrappers
  import opened Models
  import opened Strings
  import opened LinkPattern
  import opened Parser
  import opened Mutator

  /** A subject name survives a write and a read: not empty, no newline, no white space at either end. */
  predicate WritableName(subject: string) {
    subject != "" && '\n' !in subject && Trimmed(subject)
  }

  predicate AllWritable(links: seq<Link>) {
    forall i :: 0 <= i < |links| ==> Writable(links[i])
  }

  function BulletKinds(links: seq<Link>): (ks: seq<LineKind>)
    ensures |ks| == |links|
  {
    if |links| == 0 then [] else [Bullet(Some(links[0]))] + BulletKinds(links[1..])
  }

  // ---------------------------------------------------------------------------------------------
  // How each written line is read.

  lemma ReadHeaderLine(style: HeaderStyle, subject: string)
    requires WritableName(subject)
    ensures Classify(style, HeaderLine(subject)) == Header(subject)
  {
    var t := HeaderLine(subject);
    assert Trimmed(t);
    assert t == "###" + " " + subject;
    assert AllHashes("###");
    TripleRuleHeaderLevels("###", subject);
    AnyRuleHeaderLevels("###", subject);
  }

  /** Whatever the subject, its header line never reads as a bullet, so it contributes no link. */
  lemma HeaderLineIsNoBullet(style: HeaderStyle, subject: string)
    ensures !Classify(style, HeaderLine(subject)).Bullet?
  {
    var t := TrimSpace(HeaderLine(subject));
    assert HeaderLine(subject)[0] == '#';
    TrimSpaceKeepsFirst(HeaderLine(subject));
    assert t[0] == '#';
    assert !HasPrefix(t, "-") by {
      assert t[..1][0] == t[0];
    }
  }

  /** A trimmed line starting with `-` is a bullet under either rule, holding whatever the pattern finds. */
  lemma ReadDashLine(style: HeaderStyle, t: string)
    requires |t| > 0 && t[0] == '-' && Trimmed(t)
    ensures Classify(style, t) == Bullet(MatchLink(t))
  {
    NoHashNoHeader(style, t);
    assert t[..1] == "-";
  }

  lemma ReadBulletLine(style: HeaderStyle, l: Link)
    requires Writable(l)
    ensures Classify(style, BulletLine(l)) == Bullet(Some(l))
  {
    var t := BulletLine(l);
    assert t[0] == '-' && t[|t| - 1] == ')';
    ReadDashLine(style, t);
    BulletLineMatches(l.title, l.url);
  }

  lemma {:induction false} ReadBulletLines(style: HeaderStyle, links: seq<Link>)
    requires AllWritable(links)
    ensures Kinds(style, BulletLines(links)) == BulletKinds(links)
    decreases |links|
  {
    if |links| > 0 {
      ReadBulletLine(style, links[0]);
      ReadBulletLines(style, links[1..]);
      assert BulletLines(links) == [BulletLine(links[0])] + BulletLines(links[1..]);
      KindsConcat(style, [BulletLine(links[0])], BulletLines(links[1..]));
    }
  }

  lemma TwoBlanks()
    ensures LinksUntilHeader([Other, Other]) == []
    ensures Sections([Other, Other]) == []
    ensures BulletLinks([Other, Other]) == []
  {
    var ks: seq<LineKind> := [Other, Other];
    assert ks[1..] == [Other];
    assert ks[1..][1..] == [];
    assert LinksUntilHeader(ks[1..]) == [];
    assert Sections(ks[1..]) == [];
    assert BulletLinks(ks[1..]) == [];
  }

  lemma {:induction false} BulletsThenBlanks(links: seq<Link>)
    ensures LinksUntilHeader(BulletKinds(links) + [Other, Other]) == links
    ensures Sections(BulletKinds(links) + [Other, Other]) == []
    ensures BulletLinks(BulletKinds(links) + [Other, Other]) == links
    decreases |links|
  {
    var ks := BulletKinds(links) + [Other, Other];
    if |links| == 0 {
      assert ks == [Other, Other];
      TwoBlanks();
    } else {
      assert ks[0] == Bullet(Some(links[0]));
      assert ks[1..] == BulletKinds(links[1..]) + [Other, Other];
      BulletsThenBlanks(links[1..]);
      assert [links[0]] + links[1..] == links;
    }
  }

  // ---------------------------------------------------------------------------------------------
  // The appended section on its own.

  lemma KindsOfTwo(style: HeaderStyle, a: string, b: string, ka: LineKind, kb: LineKind)
    requires Classify(style, a) == ka && Classify(style, b) == kb
    ensures Kinds(style, [a, b]) == [ka, kb]
  {
    assert [a, b][1..] == [b];
    KindsOfSingle(style, b, kb);
  }

  lemma KindsOfSingle(style: HeaderStyle, a: string, k: LineKind)
    requires Classify(style, a) == k
    ensures Kinds(style, [a]) == [k]
  {
    assert [a][1..] == [];
  }

  lemma HeaderKinds(style: HeaderStyle, subject: string)
    requires WritableName(subject)
    ensures Kinds(style, [HeaderLine(subject), ""]) == [Header(subject), Other]
  {
    ReadHeaderLine(style, subject);
    BlankLineIsOther(style);
    KindsOfTwo(style, HeaderLine(subject), "", Header(subject), Other);
  }

  lemma BlankKinds(style: HeaderStyle)
    ensures Kinds(style, ["", ""]) == [Other, Other]
  {
    BlankLineIsOther(style);
    KindsOfTwo(style, "", "", Other, Other);
  }

  lemma KindsOfThree(style: HeaderStyle, a: seq<string>, b: seq<string>, c: seq<string>)
    ensures Kinds(style, a + b + c) == Kinds(style, a) + Kinds(style, b) + Kinds(style, c)
  {
    KindsConcat(style, a + b, c);
    KindsConcat(style, a, b);
  }

  lemma WrittenLinesKinds(style: HeaderStyle, subject: string, links: seq<Link>, lines: seq<string>)
    requires WritableName(subject) && AllWritable(links)
    requires lines == [HeaderLine(subject), ""] + BulletLines(links) + ["", ""]
    ensures Kinds(style, lines) == [Header(subject), Other] + BulletKinds(links) + [Other, Other]
  {
    KindsOfThree(style, [HeaderLine(subject), ""], BulletLines(links), ["", ""]);
    HeaderKinds(style, subject);
    ReadBulletLines(style, links);
    BlankKinds(style);
  }

  lemma SectionKinds(style: HeaderStyle, subject: string, links: seq<Link>)
    requires WritableName(subject) && AllWritable(links)
    ensures Kinds(style, Split(Section(subject, links))) == [Header(subject), Other] + BulletKinds(links) + [Other, Other]
  {
    SectionWithHeader(subject, links);
    WrittenLinesKinds(style, subject, links, Split(Section(subject, links)));
  }

  lemma WrittenKindsReference(subject: string, links: seq<Link>, ks: seq<LineKind>)
    requires ks == [Header(subject), Other] + BulletKinds(links) + [Other, Other]
    ensures Reference(ks) == [Subject(subject, links)]
    ensures !BulletBeforeHeader(ks)
  {
    var tail := BulletKinds(links) + [Other, Other];
    var rest := [Other] + tail;
    assert ks == [Header(subject)] + rest;
    assert ks[1..] == rest;
    assert rest[0] == Other && rest[1..] == tail;
    BulletsThenBlanks(links);
    assert LinksUntilHeader(rest) == links;
    assert Sections(rest) == [];
    assert Sections(ks) == [Subject(subject, links)];
    assert Preamble(ks) == [];
  }

  /** A section written for a named subject reads back as exactly that subject with those links. */
  lemma SectionReadsBack(style: HeaderStyle, subject: string, links: seq<Link>)
    requires WritableName(subject) && AllWritable(links)
    ensures Parse(style, Section(subject, links)) == [Subject(subject, links)]
    ensures !BulletBeforeHeader(Kinds(style, Split(Section(subject, links))))
  {
    SectionKinds(style, subject, links);
    WrittenKindsReference(subject, links, Kinds(style, Split(Section(subject, links))));
    ParseIsReference(style, Section(subject, links));
  }

  // ---------------------------------------------------------------------------------------------
  // Appending to a file.

  lemma BlankLineGlue(a: string, b: string)
    ensures a + "\n\n" + b == a + "\n" + ("\n" + b)
  {
    assert "\n\n" == "\n" + "\n";
  }

  /** Text after a blank line at the end of a file adds its subjects after the file's own, when it
      starts with no bullet before its first header. */
  lemma AfterBlankLine(style: HeaderStyle, front: string, sec: string)
    requires !BulletBeforeHeader(Kinds(style, Split(sec)))
    ensures Parse(style, front + "\n" + sec) == Parse(style, front + "\n") + Parse(style, sec)
  {
    ParseAround(style, front, sec);
    TrailingNewline(style, front);
  }

  /** Text glued after a blank line to a file that does not end in one adds its subjects after the
      file's own, under the same condition. */
  lemma GlueWithBlankLine(style: HeaderStyle, content: string, sec: string)
    requires !BulletBeforeHeader(Kinds(style, Split(sec)))
    ensures Parse(style, content + "\n\n" + sec) == Parse(style, content) + Parse(style, sec)
  {
    BlankLineGlue(content, sec);
    LeadingNewline(style, sec);
    ParseAround(style, content, "\n" + sec);
  }

  lemma DropFinalNewline(content: string)
    requires HasSuffix(content, "\n\n")
    ensures content == content[..|content| - 1] + "\n"
  {
    assert content[|content| - 1] == "\n\n"[1];
  }

  /** Appending a named subject to any file and reading it back gives the file's subjects as before,
      followed by the new subject with exactly the given links in order. */
  lemma AppendThenParse(style: HeaderStyle, content: string, subject: string, links: seq<Link>)
    requires WritableName(subject) && AllWritable(links)
    ensures Parse(style, AppendSection(content, subject, links)) == Parse(style, content) + [Subject(subject, links)]
  {
    var sec := Section(subject, links);
    var r := AppendSection(content, subject, links);
    assert r == content + Separator(content) + sec;
    SectionReadsBack(style, subject, links);
    if |content| == 0 {
      assert r == sec;
      ParseEmptyText(style);
    } else if HasSuffix(content, "\n\n") {
      var front := content[..|content| - 1];
      DropFinalNewline(content);
      AfterBlankLine(style, front, sec);
    } else {
      GlueWithBlankLine(style, content, sec);
    }
  }

  /** Appending to an empty or missing file: the file then reads as the one new subject. */
  lemma AppendToEmptyThenParse(style: HeaderStyle, subject: string, links: seq<Link>)
    requires WritableName(subject) && AllWritable(links)
    ensures Parse(style, AppendSection("", subject, links)) == [Subject(subject, links)]
  {
    AppendThenParse(style, "", subject, links);
    ParseEmptyText(style);
  }

  // ---------------------------------------------------------------------------------------------
  // Deleting links.

  /** A line that reads as a bullet with a link contains that link's markup. */
  lemma BulletLineHoldsMarkup(style: HeaderStyle, raw: string, l: Link)
    requires Classify(style, raw) == Bullet(Some(l))
    ensures Contains(raw, Markup(l))
  {
    var t := TrimSpace(raw);
    MatchedLinkInLine(t);
    TrimSpaceIsInside(raw);
    ContainsTransitive(raw, t, Markup(l));
  }

  /** Every link read comes from some bullet. */
  lemma {:induction false} LinkFromSomeBullet(ks: seq<LineKind>, l: Link)
    requires l in BulletLinks(ks)
    ensures exists i :: 0 <= i < |ks| && ks[i] == Bullet(Some(l))
    decreases |ks|
  {
    var first := if ks[0].Bullet? then LinksOf(ks[0].link) else [];
    assert BulletLinks(ks) == first + BulletLinks(ks[1..]);
    if l in first {
      assert ks[0] == Bullet(Some(l));
    } else {
      LinkFromSomeBullet(ks[1..], l);
      var i :| 0 <= i < |ks[1..]| && ks[1..][i] == Bullet(Some(l));
      assert ks[i + 1] == Bullet(Some(l));
    }
  }

  /** Lines none of which mentions a link's markup read back without that link. */
  lemma KeptLinesHoldNoLink(style: HeaderStyle, kept: seq<string>, patterns: set<string>, l: Link)
    requires forall i :: 0 <= i < |kept| ==> !Doomed(kept[i], patterns)
    requires Markup(l) in patterns
    ensures l !in BulletLinks(Kinds(style, kept))
  {
    var ks := Kinds(style, kept);
    if l in BulletLinks(ks) {
      LinkFromSomeBullet(ks, l);
      var i :| 0 <= i < |ks| && ks[i] == Bullet(Some(l));
      KindAt(style, kept, i);
      BulletLineHoldsMarkup(style, kept[i], l);
      assert false;
    }
  }

  /** After deleting some links, none of them reads back from the file, under either header rule. */
  lemma DeleteThenParse(style: HeaderStyle, content: string, links: seq<Link>, l: Link)
    requires l in links
    ensures l !in AllLinksOf(Parse(style, Mutator.DeleteLinks(content, links)))
  {
    var patterns := Patterns(links);
    var kept := KeepLines(Split(content), patterns);
    var after := Mutator.DeleteLinks(content, links);
    if kept == [] {
      assert after == "";
      ParseEmptyText(style);
    } else {
      DeletedTextLines(content, links);
      ParseKeepsLinkOrder(style, after);
      assert Markup(l) in patterns;
      KeptLinesHoldNoLink(style, kept, patterns, l);
    }
  }

  /** Reading the lines of a subsequence gives a subsequence of the readings. */
  lemma {:induction false} KindsKeepSubsequence(style: HeaderStyle, a: seq<string>, b: seq<string>)
    requires IsSubsequence(a, b)
    ensures IsSubsequence(Kinds(style, a), Kinds(style, b))
    decreases |b|
  {
    if a == [] {
      assert Kinds(style, a) == [];
    } else {
      var kb := Kinds(style, b);
      assert kb == [Classify(style, b[0])] + Kinds(style, b[1..]);
      if a[0] == b[0] && IsSubsequence(a[1..], b[1..]) {
        KindsKeepSubsequence(style, a[1..], b[1..]);
        assert Kinds(style, a) == [Classify(style, b[0])] + Kinds(style, a[1..]);
        SubsequenceConsBoth(Classify(style, b[0]), Kinds(style, a[1..]), Kinds(style, b[1..]));
      } else {
        KindsKeepSubsequence(style, a, b[1..]);
        SubsequenceConsRight(Classify(style, b[0]), Kinds(style, a), Kinds(style, b[1..]));
      }
    }
  }

  /** The links of a subsequence of line kinds are a subsequence of their links. */
  lemma {:induction false} BulletLinksKeepSubsequence(a: seq<LineKind>, b: seq<LineKind>)
    requires IsSubsequence(a, b)
    ensures IsSubsequence(BulletLinks(a), BulletLinks(b))
    decreases |b|
  {
    if a == [] {
      assert BulletLinks(a) == [];
    } else if a[0] == b[0] && IsSubsequence(a[1..], b[1..]) {
      BulletLinksKeepSubsequence(a[1..], b[1..]);
      LinksConsBoth(b[0], a[1..], b[1..]);
      assert a == [b[0]] + a[1..] && b == [b[0]] + b[1..];
    } else {
      BulletLinksKeepSubsequence(a, b[1..]);
      LinksConsRight(b[0], a, b[1..]);
      assert b == [b[0]] + b[1..];
    }
  }

  /** One more line kind in front of both keeps the links a subsequence. */
  lemma LinksConsBoth(k: LineKind, a: seq<LineKind>, b: seq<LineKind>)
    requires IsSubsequence(BulletLinks(a), BulletLinks(b))
    ensures IsSubsequence(BulletLinks([k] + a), BulletLinks([k] + b))
  {
    var first := if k.Bullet? then LinksOf(k.link) else [];
    assert ([k] + a)[1..] == a && ([k] + b)[1..] == b;
    assert BulletLinks([k] + a) == first + BulletLinks(a);
    assert BulletLinks([k] + b) == first + BulletLinks(b);
    if first != [] {
      SubsequenceConsBoth(first[0], BulletLinks(a), BulletLinks(b));
      assert first == [first[0]];
    } else {
      assert first + BulletLinks(a) == BulletLinks(a) && first + BulletLinks(b) == BulletLinks(b);
    }
  }

  /** One more line kind in front of the longer one keeps the links a subsequence. */
  lemma LinksConsRight(k: LineKind, a: seq<LineKind>, b: seq<LineKind>)
    requires IsSubsequence(BulletLinks(a), BulletLinks(b))
    ensures IsSubsequence(BulletLinks(a), BulletLinks([k] + b))
  {
    var first := if k.Bullet? then LinksOf(k.link) else [];
    assert ([k] + b)[1..] == b;
    assert BulletLinks([k] + b) == first + BulletLinks(b);
    if first != [] {
      SubsequenceConsRight(first[0], BulletLinks(a), BulletLinks(b));
      assert first == [first[0]];
    } else {
      assert first + BulletLinks(b) == BulletLinks(b);
    }
  }

  /** Deleting only drops links: what reads back afterwards is a subsequence of what read back before. */
  lemma DeleteOnlyDropsLinks(style: HeaderStyle, content: string, links: seq<Link>)
    ensures IsSubsequence(AllLinksOf(Parse(style, Mutator.DeleteLinks(content, links))), AllLinksOf(Parse(style, content)))
  {
    var kept := KeepLines(Split(content), Patterns(links));
    var after := Mutator.DeleteLinks(content, links);
    ParseKeepsLinkOrder(style, content);
    if kept == [] {
      assert after == "";
      ParseEmptyText(style);
      assert AllLinksOf([]) == [];
    } else {
      DeletedTextLines(content, links);
      ParseKeepsLinkOrder(style, after);
      KindsKeepSubsequence(style, kept, Split(content));
      BulletLinksKeepSubsequence(Kinds(style, kept), Kinds(style, Split(content)));
    }
  }
}
