/** The file handlers of backend/main.go over the same abstract directory: reading a file's subjects
    under the loose "#" header rule, deleting links with the same line filter as the store, and
    appending a dated block of raw text. The date is a parameter (the handler formats the clock). */
module Backend {
  import opened Wrappers
  import opened Models
  import opened Strings
  import opened Parser
  import opened Mutator
  import opened RoundTrip
  import Store

  /** A bad request (no file name) or a file that cannot be read. */
  datatype BackendError = EmptyFilename | NotFound(name: string)

  /** `getFile`: the subjects of a file under the "#" rule, or an error when it does not exist. */
  function GetFile(fs: Store.Files, name: string): (r: Result<seq<Subject>, BackendError>)
    ensures r.Err? <==> name !in fs
    ensures r.Err? ==> r.error == NotFound(name)
    ensures r.Ok? ==> r.value == Reference(Kinds(AnyHash, Split(fs[name])))
  {
    if name in fs then
      ParseIsReference(AnyHash, fs[name]);
      Ok(Parse(AnyHash, fs[name]))
    else Err(NotFound(name))
  }

  /** `deleteLinks`: the same line filter as the store, failing when the file does not exist. */
  function DeleteLinks(fs: Store.Files, name: string, links: seq<Link>): (r: Result<Store.Files, BackendError>)
    ensures r.Err? <==> name !in fs
    ensures r.Err? ==> r.error == NotFound(name)
    ensures r.Ok? ==> r.value.Keys == fs.Keys
    ensures r.Ok? ==> forall n :: n in fs && n != name ==> r.value[n] == fs[n]
    ensures r.Ok? ==> r.value[name] == Mutator.DeleteLinks(fs[name], links)
    ensures r.Ok? ==> |Split(r.value[name])| <= |Split(fs[name])|
  {
    if name in fs then Ok(fs[name := Mutator.DeleteLinks(fs[name], links)]) else Err(NotFound(name))
  }

  /** The block `addBulkLinks` writes after the separator: a level-one header naming the date, a blank
      line, the request's text with white space trimmed at both ends, and a final newline. */
  function DatedSection(date: string, content: string): (r: string)
    ensures HasPrefix(r, "# " + date + "\n\n") && HasSuffix(r, TrimSpace(content) + "\n")
    ensures |r| == |date| + |TrimSpace(content)| + 5
  {
    "# " + date + "\n\n" + TrimSpace(content) + "\n"
  }

  /** `addBulkLinks`: rejected when no file name is given; otherwise the file, created when missing, has
      the dated block appended, after a blank line when it already holds anything. */
  function AddBulkLinks(fs: Store.Files, name: string, date: string, content: string): (r: Result<Store.Files, BackendError>)
    ensures r.Err? <==> name == ""
    ensures r.Err? ==> r.error == EmptyFilename
    ensures r.Ok? ==> r.value.Keys == fs.Keys + {name}
    ensures r.Ok? ==> forall n :: n in fs && n != name ==> r.value[n] == fs[n]
    ensures r.Ok? ==> var before := Store.ContentOf(fs, name);
                      var tail := DatedSection(date, content);
                      && HasPrefix(r.value[name], before)
                      && HasSuffix(r.value[name], tail)
  {
    if name == "" then Err(EmptyFilename)
    else
      var before := Store.ContentOf(fs, name);
      var sep := if |before| > 0 then "\n\n" else "";
      var tail := DatedSection(date, content);
      ThreePieces(before, sep, tail);
      Ok(fs[name := before + sep + tail])
  }

  /** Where the three pieces of a text put end to end sit in it. */
  lemma ThreePieces(a: string, b: string, c: string)
    ensures HasPrefix(a + b + c, a) && HasSuffix(a + b + c, c)
    ensures |a + b + c| == |a| + |b| + |c| && (a + b + c)[|a|..|a| + |b|] == b
  {
    assert (a + b + c)[..|a|] == a;
    assert (a + b + c)[|a| + |b|..] == c;
  }

  /** The file text after a successful append, piece by piece. */
  lemma AddedText(fs: Store.Files, name: string, date: string, content: string)
    requires name != ""
    ensures AddBulkLinks(fs, name, date, content).Ok?
    ensures var before := Store.ContentOf(fs, name);
            AddBulkLinks(fs, name, date, content).value[name]
            == before + (if |before| > 0 then "\n\n" else "") + DatedSection(date, content)
  {
  }

  /** The separator: a file that already holds text gets exactly one blank line ("\n\n") between its
      text and the dated block, whatever it ends with; an empty or missing file gets none. */
  lemma AddSeparator(fs: Store.Files, name: string, date: string, content: string)
    requires name != ""
    ensures AddBulkLinks(fs, name, date, content).Ok?
    ensures var before := Store.ContentOf(fs, name);
            var after := AddBulkLinks(fs, name, date, content).value[name];
            && |after| == |before| + |DatedSection(date, content)| + (if |before| > 0 then 2 else 0)
            && (|before| > 0 ==> after[|before|..|before| + 2] == "\n\n")
  {
    var before := Store.ContentOf(fs, name);
    AddedText(fs, name, date, content);
    ThreePieces(before, if |before| > 0 then "\n\n" else "", DatedSection(date, content));
  }

  // ---------------------------------------------------------------------------------------------
  // Agreement with the store.

  /** Both services delete links with the same filter and fail on the same missing file. */
  lemma DeleteHandlersAgree(fs: Store.Files, name: string, links: seq<Link>)
    ensures DeleteLinks(fs, name, links).Ok? <==> Store.DeleteLinks(fs, name, links).Ok?
    ensures DeleteLinks(fs, name, links).Ok? ==> DeleteLinks(fs, name, links).value == Store.DeleteLinks(fs, name, links).value
  {
  }

  /** A file whose '#' lines are all "### " headers reads the same in both services. */
  lemma GetFileAgreesWithStore(fs: Store.Files, name: string)
    requires name in fs
    requires forall i :: 0 <= i < |Split(fs[name])| ==>
               var t := TrimSpace(Split(fs[name])[i]); !HasPrefix(t, "#") || HasPrefix(t, "### ")
    ensures GetFile(fs, name) == Ok(Store.GetLinks(fs, name).value)
  {
    ParseRulesAgree(fs[name]);
  }

  // ---------------------------------------------------------------------------------------------
  // Reading back an appended block.

  /** The date header opens a subject named by the date. */
  lemma ReadDateLine(date: string)
    requires WritableName(date)
    ensures Classify(AnyHash, "# " + date) == Header(date)
  {
    var t := "# " + date;
    assert Trimmed(t);
    assert t == "#" + " " + date;
    assert AllHashes("#");
    AnyRuleHeaderLevels("#", date);
  }

  /** A text followed by a newline reads as its own lines, then an ignored empty line. */
  lemma TextThenNewlineKinds(text: string)
    ensures Kinds(AnyHash, Split(text + "\n")) == Kinds(AnyHash, Split(text)) + [Other]
  {
    assert text + "\n" == text + "\n" + "";
    SplitAround(text, "");
    KindsConcat(AnyHash, Split(text), Split(""));
    EmptyTextKinds(AnyHash);
  }

  lemma DateLineHasNoNewline(date: string)
    requires '\n' !in date
    ensures '\n' !in "# " + date
  {
  }

  /** The date line alone reads as one header. */
  lemma DateLineKinds(date: string)
    requires WritableName(date)
    ensures Kinds(AnyHash, Split("# " + date)) == [Header(date)]
  {
    var d := "# " + date;
    DateLineHasNoNewline(date);
    SplitWithoutNewline(d);
    ReadDateLine(date);
    KindsOfSingle(AnyHash, d, Header(date));
  }

  /** Two texts either side of a newline read as the lines of the first, then the lines of the second. */
  lemma KindsAround(a: string, b: string)
    ensures Kinds(AnyHash, Split(a + "\n" + b)) == Kinds(AnyHash, Split(a)) + Kinds(AnyHash, Split(b))
  {
    SplitAround(a, b);
    KindsConcat(AnyHash, Split(a), Split(b));
  }

  lemma DatedSectionGlue(d: string, text: string)
    ensures d + "\n\n" + text + "\n" == d + "\n" + ("\n" + (text + "\n"))
  {
    assert "\n\n" == "\n" + "\n";
  }

  /** The lines of a dated block: the date header, an ignored blank line, the lines of the text, and the
      ignored empty piece after the final newline. */
  lemma DatedSectionKinds(date: string, text: string)
    requires WritableName(date)
    ensures Kinds(AnyHash, Split("# " + date + "\n\n" + text + "\n"))
            == [Header(date)] + ([Other] + (Kinds(AnyHash, Split(text)) + [Other]))
  {
    var d := "# " + date;
    DatedSectionGlue(d, text);
    KindsAround(d, "\n" + (text + "\n"));
    DateLineKinds(date);
    LeadingNewline(AnyHash, text + "\n");
    TextThenNewlineKinds(text);
  }

  /** A header first: no "Others" subject, and the header's subject holds the links up to the next one. */
  lemma HeaderFirst(name: string, rest: seq<LineKind>)
    ensures Reference([Header(name)] + rest) == [Subject(name, LinksUntilHeader(rest))] + Sections(rest)
    ensures !BulletBeforeHeader([Header(name)] + rest)
  {
    var all := [Header(name)] + rest;
    assert all[0] == Header(name) && all[1..] == rest;
  }

  /** An ignored line in front changes neither the links before the first header nor the sections. */
  lemma OtherInFront(ks: seq<LineKind>)
    ensures LinksUntilHeader([Other] + ks) == LinksUntilHeader(ks)
    ensures Sections([Other] + ks) == Sections(ks)
  {
    assert ([Other] + ks)[0] == Other && ([Other] + ks)[1..] == ks;
  }

  /** An ignored line at the end changes neither the links before the first header nor the sections. */
  lemma OtherAtEnd(ks: seq<LineKind>)
    ensures LinksUntilHeader(ks + [Other]) == LinksUntilHeader(ks)
    ensures Sections(ks + [Other]) == Sections(ks)
  {
    assert !BulletBeforeHeader([Other]) by {
      assert [Other][1..] == [];
    }
    LinksUntilHeaderConcat(ks, [Other]);
    SectionsConcat(ks, [Other]);
    assert Sections([Other]) == [] by {
      assert [Other][1..] == [];
    }
  }

  /** The subjects of a dated block's line kinds: the date's subject, holding the links of the text's
      bullets before its first header, then one subject per header of the text. */
  lemma DatedSectionReference(date: string, ks: seq<LineKind>)
    ensures var all := [Header(date)] + ([Other] + (ks + [Other]));
            && Reference(all) == [Subject(date, LinksUntilHeader(ks))] + Sections(ks)
            && !BulletBeforeHeader(all)
  {
    HeaderFirst(date, [Other] + (ks + [Other]));
    OtherInFront(ks + [Other]);
    OtherAtEnd(ks);
  }

  /** A dated block read on its own. */
  lemma DatedSectionReadsBack(date: string, content: string)
    requires WritableName(date)
    ensures var ks := Kinds(AnyHash, Split(TrimSpace(content)));
            Parse(AnyHash, DatedSection(date, content)) == [Subject(date, LinksUntilHeader(ks))] + Sections(ks)
    ensures !BulletBeforeHeader(Kinds(AnyHash, Split(DatedSection(date, content))))
  {
    var text := TrimSpace(content);
    DatedSectionKinds(date, text);
    DatedSectionReference(date, Kinds(AnyHash, Split(text)));
    ParseIsReference(AnyHash, DatedSection(date, content));
  }

  /** Appending a dated block and reading the file back: the subjects the file had (none when it was
      missing), then a subject named by the date holding the links of the text's bullets before its
      first header (the ones the text alone would put under "Others"), then one subject per header of
      the text. */
  lemma AddThenGetFile(fs: Store.Files, name: string, date: string, content: string)
    requires name != "" && WritableName(date)
    ensures AddBulkLinks(fs, name, date, content).Ok?
    ensures var after := AddBulkLinks(fs, name, date, content).value;
            var ks := Kinds(AnyHash, Split(TrimSpace(content)));
            GetFile(after, name)
            == Ok((if name in fs then Parse(AnyHash, fs[name]) else [])
                  + ([Subject(date, LinksUntilHeader(ks))] + Sections(ks)))
  {
    var before := Store.ContentOf(fs, name);
    var sec := DatedSection(date, content);
    AddedText(fs, name, date, content);
    DatedSectionReadsBack(date, content);
    GlueParse(before, sec);
    ParseEmptyText(AnyHash);
  }

  /** Text glued after a file's text, with a blank line between when the file is not empty, reads as
      the file's subjects followed by its own, when no bullet comes before its first header. */
  lemma GlueParse(before: string, sec: string)
    requires !BulletBeforeHeader(Kinds(AnyHash, Split(sec)))
    ensures Parse(AnyHash, before + (if |before| > 0 then "\n\n" else "") + sec)
            == Parse(AnyHash, before) + Parse(AnyHash, sec)
  {
    if |before| > 0 {
      GlueWithBlankLine(AnyHash, before, sec);
    } else {
      assert before == "";
      EmptyThenText(sec);
    }
  }

  lemma EmptyThenText(sec: string)
    ensures Parse(AnyHash, "" + "" + sec) == Parse(AnyHash, "") + Parse(AnyHash, sec)
  {
    ParseEmptyText(AnyHash);
    assert "" + "" + sec == sec;
  }

  /** Appending never disturbs what the file already read as: its before subjects come first, unchanged. */
  lemma AddKeepsOldSubjects(fs: Store.Files, name: string, date: string, content: string)
    requires name in fs && name != "" && WritableName(date)
    ensures var r := GetFile(AddBulkLinks(fs, name, date, content).value, name);
            r.Ok? && |r.value| > |Parse(AnyHash, fs[name])|
            && r.value[..|Parse(AnyHash, fs[name])|] == Parse(AnyHash, fs[name])
            && r.value[|Parse(AnyHash, fs[name])|].name == date
  {
    AddThenGetFile(fs, name, date, content);
  }
}
