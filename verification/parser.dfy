/** The link-collection parser: `GetLinks` in internal/services/store/markdown/markdown.go and
    `getFile` in backend/main.go. Both scan the trimmed lines of a file, open a subject at each header,
    collect `- [title](url)` bullets into the open subject (opening "Others" for bullets before any
    header) and flush subjects in file order. They differ only in what counts as a header, which is
    the `HeaderStyle` parameter here. */
module Parser {
  import opened Wrappers
  import opened Models
  import opened Strings
  import opened LinkPattern

  /** `TripleHash`: a trimmed line starting with "### " (markdown.go). `AnyHash`: a trimmed line starting
      with "#", named by the line with every leading '#' removed (backend/main.go). */
  datatype HeaderStyle = TripleHash | AnyHash

  /** What one line contributes to the parse. */
  datatype LineKind = Header(name: string) | Bullet(link: Option<Link>) | Other

  /** The subject name a trimmed line opens, or None when it is not a header. */
  function HeaderName(style: HeaderStyle, t: string): (r: Option<string>)
    ensures r.Some? ==> HasPrefix(t, "#") && Trimmed(r.value) && |r.value| < |t|
    ensures style.AnyHash? ==> (r.Some? <==> HasPrefix(t, "#"))
    ensures style.TripleHash? ==> (r.Some? <==> HasPrefix(t, "### "))
  {
    match style
    case TripleHash =>
      if HasPrefix(t, "### ") then TripleHashIsHash(t); Some(TrimSpace(t[4..])) else None
    case AnyHash =>
      if HasPrefix(t, "#") then HashesRemoved(t); Some(TrimSpace(TrimLeftChar(t, '#'))) else None
  }

  lemma TripleHashIsHash(t: string)
    requires HasPrefix(t, "### ")
    ensures HasPrefix(t, "#")
  {
    assert t[..1] == t[..4][..1];
  }

  lemma HashesRemoved(t: string)
    requires HasPrefix(t, "#")
    ensures |TrimLeftChar(t, '#')| < |t|
  {
    assert t[..1][0] == t[0];
  }

  /** A trimmed line that does not start with '#' is no header under either rule. */
  lemma NoHashNoHeader(style: HeaderStyle, t: string)
    requires |t| > 0 && t[0] != '#'
    ensures HeaderName(style, t).None?
  {
    match style
    case TripleHash =>
      assert !HasPrefix(t, "### ") by {
        if |t| >= 4 {
          assert t[..4][0] == t[0];
        }
      }
    case AnyHash =>
      assert !HasPrefix(t, "#") by {
        assert t[..1][0] == t[0];
      }
  }

  /** A trimmed line starting with "-" is no header under either rule. */
  lemma DashIsNoHeader(style: HeaderStyle, t: string)
    ensures HasPrefix(t, "-") ==> HeaderName(style, t).None?
  {
    if HasPrefix(t, "-") {
      assert t[..1][0] == t[0];
      NoHashNoHeader(style, t);
    }
  }

  /** How the scanning loop treats one raw line: header first, then `-` bullet, otherwise ignored. A
      line is a header exactly when its trimmed text opens a subject under the rule, and then carries
      that subject's name; it is a bullet exactly when its trimmed text starts with "-", and then it
      carries the link the pattern finds there; a blank line is neither. */
  function Classify(style: HeaderStyle, raw: string): (k: LineKind)
    ensures k.Header? <==> HeaderName(style, TrimSpace(raw)).Some?
    ensures k.Header? ==> HeaderName(style, TrimSpace(raw)) == Some(k.name)
    ensures k.Header? ==> HasPrefix(TrimSpace(raw), "#") && Trimmed(k.name)
    ensures k.Bullet? <==> HasPrefix(TrimSpace(raw), "-")
    ensures k.Bullet? ==> k.link == MatchLink(TrimSpace(raw))
    ensures TrimSpace(raw) == "" ==> k == Other
  {
    var t := TrimSpace(raw);
    DashIsNoHeader(style, t);
    match HeaderName(style, t)
    case Some(n) => Header(n)
    case None => if HasPrefix(t, "-") then Bullet(MatchLink(t)) else Other
  }

  function Kinds(style: HeaderStyle, lines: seq<string>): (ks: seq<LineKind>)
    ensures |ks| == |lines|
  {
    if |lines| == 0 then [] else [Classify(style, lines[0])] + Kinds(style, lines[1..])
  }

  lemma {:induction false} KindAt(style: HeaderStyle, lines: seq<string>, i: nat)
    requires i < |lines|
    ensures Kinds(style, lines)[i] == Classify(style, lines[i])
    decreases i
  {
    if i > 0 {
      KindAt(style, lines[1..], i - 1);
      KindsTail(style, lines, i);
    }
  }

  lemma KindsTail(style: HeaderStyle, lines: seq<string>, i: nat)
    requires 0 < i < |lines|
    ensures Kinds(style, lines)[i] == Kinds(style, lines[1..])[i - 1]
    ensures lines[1..][i - 1] == lines[i]
  {
  }

  /** The links a bullet contributes: its match, or none. */
  function LinksOf(link: Option<Link>): seq<Link> {
    match link
    case None => []
    case Some(l) => [l]
  }

  // ---------------------------------------------------------------------------------------------
  // The scanning loop, as written: a list of finished subjects and the subject currently open.

  datatype ScanState = ScanState(done: seq<Subject>, open: Option<Subject>)

  /** The finished subjects plus the open one, if any: what the loop returns after its last line. */
  function Finish(st: ScanState): seq<Subject> {
    match st.open
    case None => st.done
    case Some(s) => st.done + [s]
  }

  /** One turn of the loop. */
  function Step(st: ScanState, k: LineKind): ScanState {
    match k
    case Header(n) => ScanState(Finish(st), Some(Subject(n, [])))
    case Bullet(link) =>
      var cur := if st.open.Some? then st.open.value else Subject(OthersName, []);
      ScanState(st.done, Some(cur.(links := cur.links + LinksOf(link))))
    case Other => st
  }

  function Scan(st: ScanState, ks: seq<LineKind>): ScanState
    decreases |ks|
  {
    if |ks| == 0 then st else Scan(Step(st, ks[0]), ks[1..])
  }

  /** The subjects of a file's text, read line by line between newlines: the loop returns exactly the
      declarative view below. */
  function Parse(style: HeaderStyle, text: string): (r: seq<Subject>)
    ensures r == Reference(Kinds(style, Split(text)))
  {
    ScanWithNoSubject(Kinds(style, Split(text)), []);
    assert [] + Reference(Kinds(style, Split(text))) == Reference(Kinds(style, Split(text)));
    Finish(Scan(ScanState([], None), Kinds(style, Split(text))))
  }

  // ---------------------------------------------------------------------------------------------
  // The same view stated declaratively: an "Others" subject when a bullet comes before any header,
  // then one subject per header holding the links of the bullets up to the next header.

  /** A bullet line comes before the first header line. */
  predicate BulletBeforeHeader(ks: seq<LineKind>) {
    |ks| > 0 && !ks[0].Header? && (ks[0].Bullet? || BulletBeforeHeader(ks[1..]))
  }

  /** The links of the bullets before the first header. */
  function LinksUntilHeader(ks: seq<LineKind>): seq<Link> {
    if |ks| == 0 || ks[0].Header? then []
    else if ks[0].Bullet? then LinksOf(ks[0].link) + LinksUntilHeader(ks[1..])
    else LinksUntilHeader(ks[1..])
  }

  function Preamble(ks: seq<LineKind>): seq<Subject> {
    if BulletBeforeHeader(ks) then [Subject(OthersName, LinksUntilHeader(ks))] else []
  }

  /** One subject per header, in order, each with the links up to the next header. */
  function Sections(ks: seq<LineKind>): seq<Subject> {
    if |ks| == 0 then []
    else if ks[0].Header? then [Subject(ks[0].name, LinksUntilHeader(ks[1..]))] + Sections(ks[1..])
    else Sections(ks[1..])
  }

  function Reference(ks: seq<LineKind>): seq<Subject> {
    Preamble(ks) + Sections(ks)
  }

  /** All bullet links, in order. */
  function BulletLinks(ks: seq<LineKind>): seq<Link> {
    if |ks| == 0 then []
    else (if ks[0].Bullet? then LinksOf(ks[0].link) else []) + BulletLinks(ks[1..])
  }

  /** All header names, in order. */
  function HeaderNames(ks: seq<LineKind>): seq<string> {
    if |ks| == 0 then []
    else (if ks[0].Header? then [ks[0].name] else []) + HeaderNames(ks[1..])
  }

  // ---------------------------------------------------------------------------------------------
  // The loop computes the declarative view.

  lemma {:induction false} ScanWithOpenSubject(ks: seq<LineKind>, done: seq<Subject>, s: Subject)
    ensures Finish(Scan(ScanState(done, Some(s)), ks))
            == done + [s.(links := s.links + LinksUntilHeader(ks))] + Sections(ks)
    decreases |ks|
  {
    if |ks| > 0 {
      var rest := ks[1..];
      match ks[0]
      case Header(n) =>
        ScanWithOpenSubject(rest, done + [s], Subject(n, []));
        assert s.(links := s.links + []) == s;
        assert Sections(ks) == [Subject(n, LinksUntilHeader(rest))] + Sections(rest);
        assert [] + LinksUntilHeader(rest) == LinksUntilHeader(rest);
        assert (done + [s]) + [Subject(n, LinksUntilHeader(rest))] + Sections(rest)
            == done + [s] + Sections(ks);
      case Bullet(link) =>
        var s' := s.(links := s.links + LinksOf(link));
        ScanWithOpenSubject(rest, done, s');
        assert s'.links + LinksUntilHeader(rest) == s.links + LinksUntilHeader(ks);
      case Other =>
        ScanWithOpenSubject(rest, done, s);
    } else {
      assert s.(links := s.links + []) == s;
    }
  }

  lemma {:induction false} ScanWithNoSubject(ks: seq<LineKind>, done: seq<Subject>)
    ensures Finish(Scan(ScanState(done, None), ks)) == done + Reference(ks)
    decreases |ks|
  {
    if |ks| > 0 {
      var rest := ks[1..];
      match ks[0]
      case Header(n) =>
        ScanWithOpenSubject(rest, done, Subject(n, []));
        assert Sections(ks) == [Subject(n, LinksUntilHeader(rest))] + Sections(rest);
        assert Subject(n, [] + LinksUntilHeader(rest)) == Subject(n, LinksUntilHeader(rest));
        assert done + [Subject(n, LinksUntilHeader(rest))] + Sections(rest) == done + Sections(ks);
      case Bullet(link) =>
        assert [] + LinksOf(link) == LinksOf(link);
        assert Step(ScanState(done, None), ks[0]) == ScanState(done, Some(Subject(OthersName, LinksOf(link))));
        ScanWithOpenSubject(rest, done, Subject(OthersName, LinksOf(link)));
        assert BulletBeforeHeader(ks);
        assert LinksUntilHeader(ks) == LinksOf(link) + LinksUntilHeader(rest);
        assert Sections(ks) == Sections(rest);
      case Other =>
        ScanWithNoSubject(rest, done);
    }
  }

  /** The scanning loop returns exactly the declarative view of the file's lines. */
  lemma ParseIsReference(style: HeaderStyle, text: string)
    ensures Parse(style, text) == Reference(Kinds(style, Split(text)))
  {
    ScanWithNoSubject(Kinds(style, Split(text)), []);
  }

  // ---------------------------------------------------------------------------------------------
  // Consequences for whole files.

  /** An empty file has no subjects. */
  lemma ParseEmptyText(style: HeaderStyle)
    ensures Parse(style, "") == []
  {
    ParseIsReference(style, "");
    assert Split("") == [""];
    assert Kinds(style, [""]) == [Other];
  }

  /** A file with no header line and no bullet line has no subjects: blank lines and prose are ignored. */
  lemma {:induction false} ParseWithoutStructure(style: HeaderStyle, text: string)
    requires forall i :: 0 <= i < |Split(text)| ==> Classify(style, Split(text)[i]).Other?
    ensures Parse(style, text) == []
  {
    var lines := Split(text);
    var ks := Kinds(style, lines);
    forall i | 0 <= i < |ks| ensures ks[i].Other? {
      KindAt(style, lines, i);
    }
    ParseIsReference(style, text);
    OnlyOtherLines(ks);
  }

  lemma {:induction false} OnlyOtherLines(ks: seq<LineKind>)
    requires forall i :: 0 <= i < |ks| ==> ks[i].Other?
    ensures Reference(ks) == []
    decreases |ks|
  {
    if |ks| > 0 {
      OnlyOtherLines(ks[1..]);
    }
  }

  /** Every bullet link of the file appears, once, in file order, across the subjects. */
  lemma ParseKeepsLinkOrder(style: HeaderStyle, text: string)
    ensures AllLinksOf(Parse(style, text)) == BulletLinks(Kinds(style, Split(text)))
  {
    var ks := Kinds(style, Split(text));
    ParseIsReference(style, text);
    AllLinksOfConcat(Preamble(ks), Sections(ks));
    PreambleAndSectionLinks(ks);
    if !BulletBeforeHeader(ks) {
      NoPreambleLinks(ks);
    }
  }

  /** The subjects are the "Others" group when a bullet precedes the first header, then one per header,
      named by it, in file order. */
  lemma SubjectNamesInOrder(style: HeaderStyle, text: string)
    ensures NamesOf(Parse(style, text))
            == (if BulletBeforeHeader(Kinds(style, Split(text))) then [OthersName] else [])
               + HeaderNames(Kinds(style, Split(text)))
  {
    var ks := Kinds(style, Split(text));
    ParseIsReference(style, text);
    NamesOfConcat(Preamble(ks), Sections(ks));
    SectionNames(ks);
  }

  /** Bullets before any header go to a first subject named "Others", holding their links in order. */
  lemma OthersCollectsLeadingBullets(style: HeaderStyle, text: string)
    requires BulletBeforeHeader(Kinds(style, Split(text)))
    ensures |Parse(style, text)| > 0
    ensures Parse(style, text)[0] == Subject(OthersName, LinksUntilHeader(Kinds(style, Split(text))))
  {
    ParseIsReference(style, text);
  }

  lemma {:induction false} AllLinksOfConcat(a: seq<Subject>, b: seq<Subject>)
    ensures AllLinksOf(a + b) == AllLinksOf(a) + AllLinksOf(b)
    decreases |a|
  {
    if |a| > 0 {
      assert (a + b)[0] == a[0];
      assert (a + b)[1..] == a[1..] + b;
      AllLinksOfConcat(a[1..], b);
      assert AllLinksOf(a + b) == a[0].links + (AllLinksOf(a[1..]) + AllLinksOf(b));
    } else {
      assert a + b == b;
    }
  }

  lemma {:induction false} NamesOfConcat(a: seq<Subject>, b: seq<Subject>)
    ensures NamesOf(a + b) == NamesOf(a) + NamesOf(b)
    decreases |a|
  {
    if |a| > 0 {
      assert (a + b)[1..] == a[1..] + b;
      NamesOfConcat(a[1..], b);
    }
  }

  lemma {:induction false} PreambleAndSectionLinks(ks: seq<LineKind>)
    ensures LinksUntilHeader(ks) + AllLinksOf(Sections(ks)) == BulletLinks(ks)
    decreases |ks|
  {
    if |ks| > 0 {
      var rest := ks[1..];
      PreambleAndSectionLinks(rest);
      if ks[0].Header? {
        AllLinksOfConcat([Subject(ks[0].name, LinksUntilHeader(rest))], Sections(rest));
      }
    }
  }

  lemma {:induction false} SectionNames(ks: seq<LineKind>)
    ensures NamesOf(Sections(ks)) == HeaderNames(ks)
    decreases |ks|
  {
    if |ks| > 0 {
      SectionNames(ks[1..]);
      if ks[0].Header? {
        NamesOfConcat([Subject(ks[0].name, LinksUntilHeader(ks[1..]))], Sections(ks[1..]));
      }
    }
  }

  // ---------------------------------------------------------------------------------------------
  // Parsing text glued at a newline.

  lemma {:induction false} NoPreambleLinks(ks: seq<LineKind>)
    requires !BulletBeforeHeader(ks)
    ensures LinksUntilHeader(ks) == []
    decreases |ks|
  {
    if |ks| > 0 && !ks[0].Header? {
      NoPreambleLinks(ks[1..]);
    }
  }

  lemma {:induction false} LinksUntilHeaderConcat(k1: seq<LineKind>, k2: seq<LineKind>)
    requires !BulletBeforeHeader(k2)
    ensures LinksUntilHeader(k1 + k2) == LinksUntilHeader(k1)
    ensures BulletBeforeHeader(k1 + k2) == BulletBeforeHeader(k1)
    decreases |k1|
  {
    if |k1| == 0 {
      assert k1 + k2 == k2;
      NoPreambleLinks(k2);
    } else {
      assert (k1 + k2)[1..] == k1[1..] + k2;
      LinksUntilHeaderConcat(k1[1..], k2);
    }
  }

  lemma {:induction false} SectionsConcat(k1: seq<LineKind>, k2: seq<LineKind>)
    requires !BulletBeforeHeader(k2)
    ensures Sections(k1 + k2) == Sections(k1) + Sections(k2)
    decreases |k1|
  {
    if |k1| == 0 {
      assert k1 + k2 == k2;
    } else {
      assert (k1 + k2)[1..] == k1[1..] + k2;
      SectionsConcat(k1[1..], k2);
      LinksUntilHeaderConcat(k1[1..], k2);
    }
  }

  /** Lines that open with no bullet before their first header add their subjects after the others. */
  lemma ReferenceConcat(k1: seq<LineKind>, k2: seq<LineKind>)
    requires !BulletBeforeHeader(k2)
    ensures Reference(k1 + k2) == Reference(k1) + Reference(k2)
  {
    LinksUntilHeaderConcat(k1, k2);
    SectionsConcat(k1, k2);
  }

  lemma {:induction false} KindsConcat(style: HeaderStyle, l1: seq<string>, l2: seq<string>)
    ensures Kinds(style, l1 + l2) == Kinds(style, l1) + Kinds(style, l2)
    decreases |l1|
  {
    if |l1| == 0 {
      assert l1 + l2 == l2;
    } else {
      assert (l1 + l2)[0] == l1[0];
      assert (l1 + l2)[1..] == l1[1..] + l2;
      KindsConcat(style, l1[1..], l2);
    }
  }

  /** Text appended after a newline, with no bullet before its first header, leaves the subjects of the
      text before it as they were and adds its own after them. */
  lemma ParseAround(style: HeaderStyle, a: string, b: string)
    requires !BulletBeforeHeader(Kinds(style, Split(b)))
    ensures Parse(style, a + "\n" + b) == Parse(style, a) + Parse(style, b)
  {
    SplitAround(a, b);
    KindsConcat(style, Split(a), Split(b));
    ReferenceConcat(Kinds(style, Split(a)), Kinds(style, Split(b)));
    ParseIsReference(style, a + "\n" + b);
    ParseIsReference(style, a);
    ParseIsReference(style, b);
  }

  /** A blank line is ignored under either rule. */
  lemma BlankLineIsOther(style: HeaderStyle)
    ensures Classify(style, "") == Other
  {
  }

  lemma EmptyTextKinds(style: HeaderStyle)
    ensures Kinds(style, Split("")) == [Other]
  {
    assert Split("") == [""];
    BlankLineIsOther(style);
    assert [""][1..] == [];
  }

  lemma OtherFirst(ks: seq<LineKind>)
    ensures Reference([Other] + ks) == Reference(ks)
    ensures BulletBeforeHeader([Other] + ks) == BulletBeforeHeader(ks)
  {
    var ks' := [Other] + ks;
    assert ks'[0] == Other && ks'[1..] == ks;
    assert LinksUntilHeader(ks') == LinksUntilHeader(ks);
    assert Sections(ks') == Sections(ks);
  }

  /** A newline at the front of a file adds an ignored empty line and changes nothing. */
  lemma LeadingNewline(style: HeaderStyle, text: string)
    ensures Kinds(style, Split("\n" + text)) == [Other] + Kinds(style, Split(text))
    ensures BulletBeforeHeader(Kinds(style, Split("\n" + text))) == BulletBeforeHeader(Kinds(style, Split(text)))
    ensures Parse(style, "\n" + text) == Parse(style, text)
  {
    assert "\n" + text == "" + "\n" + text;
    SplitAround("", text);
    KindsConcat(style, Split(""), Split(text));
    EmptyTextKinds(style);
    OtherFirst(Kinds(style, Split(text)));
    ParseIsReference(style, "\n" + text);
    ParseIsReference(style, text);
  }

  /** A newline at the end of a file adds an ignored empty line and changes nothing. */
  lemma TrailingNewline(style: HeaderStyle, text: string)
    ensures Parse(style, text + "\n") == Parse(style, text)
  {
    assert text + "\n" == text + "\n" + "";
    EmptyTextKinds(style);
    ParseAround(style, text, "");
    ParseEmptyText(style);
  }

  // ---------------------------------------------------------------------------------------------
  // The two header rules.

  /** A run of '#' characters. */
  predicate AllHashes(h: string) {
    forall i :: 0 <= i < |h| ==> h[i] == '#'
  }

  lemma {:induction false} TrimLeftHashes(h: string, rest: string)
    requires AllHashes(h)
    requires rest == [] || rest[0] != '#'
    ensures TrimLeftChar(h + rest, '#') == rest
    decreases |h|
  {
    if |h| == 0 {
      assert h + rest == rest;
    } else {
      assert (h + rest)[1..] == h[1..] + rest;
      TrimLeftHashes(h[1..], rest);
    }
  }

  lemma TrimSpaceAfterSpace(x: string)
    ensures TrimSpace(" " + x) == TrimSpace(x)
  {
    assert (" " + x)[1..] == x;
  }

  /** Only white space. */
  predicate AllSpace(sp: string) {
    forall i :: 0 <= i < |sp| ==> IsSpace(sp[i])
  }

  lemma {:induction false} LeadingSpaces(sp: string, x: string)
    requires AllSpace(sp) && Trimmed(x)
    ensures TrimLeadingSpace(sp + x) == x
    decreases |sp|
  {
    if |sp| == 0 {
      assert sp + x == x;
    } else {
      assert (sp + x)[0] == sp[0];
      assert (sp + x)[1..] == sp[1..] + x;
      LeadingSpaces(sp[1..], x);
    }
  }

  /** Trimming white space in front of trimmed text gives the text. */
  lemma TrimSpaceAfterSpaces(sp: string, x: string)
    requires AllSpace(sp) && Trimmed(x)
    ensures TrimSpace(sp + x) == x
  {
    LeadingSpaces(sp, x);
  }

  /** Under the "### " rule a header line is named by what follows "### ", trimmed: any white space
      `sp` after the marker is dropped and the trimmed rest `x` is the name. */
  lemma TripleRuleHeaderName(sp: string, x: string)
    requires AllSpace(sp) && Trimmed(x)
    ensures HeaderName(TripleHash, "### " + sp + x) == Some(x)
  {
    var t := "### " + (sp + x);
    assert "### " + sp + x == t;
    assert t[..4] == "### ";
    assert t[4..] == sp + x;
    TrimSpaceAfterSpaces(sp, x);
  }

  /** Under the "#" rule a header line is named by what follows its leading run of '#', trimmed: the
      run `h`, any white space `sp` and the trimmed rest `x`, which does not continue the run. Every
      trimmed line starting with '#' splits this way in exactly one way. */
  lemma AnyRuleHeaderName(h: string, sp: string, x: string)
    requires |h| > 0 && AllHashes(h)
    requires AllSpace(sp) && Trimmed(x)
    requires sp + x == [] || (sp + x)[0] != '#'
    ensures HeaderName(AnyHash, h + sp + x) == Some(x)
  {
    var t := h + (sp + x);
    assert h + sp + x == t;
    assert t[..1] == "#" by {
      assert t[..1][0] == h[0];
    }
    TrimLeftHashes(h, sp + x);
    TrimSpaceAfterSpaces(sp, x);
  }

  /** A header line of any level, `h + " " + x`, is named `x` under the "#" rule. */
  lemma AnyRuleHeaderLevels(h: string, x: string)
    requires |h| > 0 && AllHashes(h)
    requires |x| > 0 && Trimmed(x)
    ensures HeaderName(AnyHash, h + " " + x) == Some(x)
  {
    var t := h + " " + x;
    assert t[..1] == "#";
    assert HasPrefix(t, "#");
    TrimLeftHashes(h, " " + x);
    assert h + (" " + x) == t;
    TrimSpaceAfterSpace(x);
    assert TrimSpace(TrimLeftChar(t, '#')) == x;
  }

  /** Under the "### " rule only level three is a header: "# x" and "## x" are not. */
  lemma TripleRuleHeaderLevels(h: string, x: string)
    requires |h| > 0 && AllHashes(h)
    requires |x| > 0 && Trimmed(x)
    ensures HeaderName(TripleHash, h + " " + x) == if |h| == 3 then Some(x) else None
  {
    var t := h + " " + x;
    if |h| == 3 {
      assert HasPrefix(t, "### ") by {
        assert t[..4] == "### " by {
          forall i | 0 <= i < 4 ensures t[..4][i] == "### "[i] {
            assert t[..4][i] == t[i];
          }
        }
      }
      assert t[4..] == x;
      assert TrimSpace(x) == x;
    } else {
      assert !HasPrefix(t, "### ") by {
        if |t| >= 4 {
          if |h| < 3 {
            assert t[..4][|h|] == t[|h|] == ' ';
          } else {
            assert t[..4][3] == t[3] == '#';
          }
        }
      }
    }
  }

  /** A line of '#' alone opens a subject with the empty name under the "#" rule, and is not a header
      under the "### " rule. */
  lemma BareHashes(h: string)
    requires |h| > 0 && AllHashes(h)
    ensures HeaderName(AnyHash, h) == Some("")
    ensures HeaderName(TripleHash, h).None?
  {
    assert HasPrefix(h, "#") by {
      assert h[..1][0] == h[0];
    }
    assert TrimLeftChar(h, '#') == "" by {
      TrimLeftHashes(h, "");
      assert h + "" == h;
    }
    assert TrimSpace("") == "";
    assert !HasPrefix(h, "### ") by {
      if |h| >= 4 {
        assert h[..4][3] == h[3] == '#';
      }
    }
  }

  lemma TrimLeftTripleHash(t: string)
    requires HasPrefix(t, "### ")
    ensures TrimLeftChar(t, '#') == " " + t[4..]
  {
    assert t == "###" + (" " + t[4..]);
    TrimLeftHashes("###", " " + t[4..]);
  }

  /** Every "### " header is also a "#" header, with the same name. */
  lemma TripleHeaderIsAnyHeader(t: string)
    requires HeaderName(TripleHash, t).Some?
    ensures HeaderName(AnyHash, t) == HeaderName(TripleHash, t)
  {
    TrimLeftTripleHash(t);
    TrimSpaceAfterSpace(t[4..]);
    assert t[..1] == "#";
  }

  /** A line that is a "### " header or does not start with '#' is read the same way under both rules. */
  lemma ClassifyRulesAgree(raw: string)
    requires var t := TrimSpace(raw); !HasPrefix(t, "#") || HasPrefix(t, "### ")
    ensures Classify(AnyHash, raw) == Classify(TripleHash, raw)
  {
    var t := TrimSpace(raw);
    if HasPrefix(t, "### ") {
      TripleHeaderIsAnyHeader(t);
    }
  }

  /** A file whose '#' lines are all "### " headers parses the same under both rules. */
  lemma {:induction false} ParseRulesAgree(text: string)
    requires forall i :: 0 <= i < |Split(text)| ==>
               var t := TrimSpace(Split(text)[i]); !HasPrefix(t, "#") || HasPrefix(t, "### ")
    ensures Parse(AnyHash, text) == Parse(TripleHash, text)
  {
    var lines := Split(text);
    forall i | 0 <= i < |lines|
      ensures Kinds(AnyHash, lines)[i] == Kinds(TripleHash, lines)[i]
    {
      KindAt(AnyHash, lines, i);
      KindAt(TripleHash, lines, i);
      ClassifyRulesAgree(lines[i]);
    }
    assert Kinds(AnyHash, lines) == Kinds(TripleHash, lines);
  }
}
