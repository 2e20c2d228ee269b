/** The file-level operations of internal/services/store/markdown/markdown.go over an abstract
    directory: a map from file name to file text. Reading and deleting need the file to exist;
    adding treats a missing file as empty and creates it. Headers follow the "### " rule. */
module Store {
  import opened Wrappers
  import opened Models
  import opened Strings
  import opened Parser
  import opened Mutator
  import opened RoundTrip

  /** The markdown directory: file name to file text. */
  type Files = map<string, string>

  datatype StoreError = NotFound(name: string)

  /** The text a file holds, a missing file counting as empty. */
  function ContentOf(fs: Files, name: string): string {
    if name in fs then fs[name] else ""
  }

  /** `GetLinks`: the subjects of a file, or an error when the file does not exist. */
  function GetLinks(fs: Files, name: string): (r: Result<seq<Subject>, StoreError>)
    ensures r.Err? <==> name !in fs
    ensures r.Err? ==> r.error == NotFound(name)
    ensures r.Ok? ==> r.value == Reference(Kinds(TripleHash, Split(fs[name])))
  {
    if name in fs then
      ParseIsReference(TripleHash, fs[name]);
      Ok(Parse(TripleHash, fs[name]))
    else Err(NotFound(name))
  }

  /** `AddBulkLinks`: the file, created when missing, gets the new section appended; no other file
      changes. */
  function AddBulkLinks(fs: Files, name: string, subject: string, links: seq<Link>): (r: Files)
    ensures r.Keys == fs.Keys + {name}
    ensures forall n :: n in fs && n != name ==> r[n] == fs[n]
    ensures HasPrefix(r[name], ContentOf(fs, name)) && |r[name]| > |ContentOf(fs, name)|
    ensures HasSuffix(r[name], Section(subject, links))
  {
    fs[name := AppendSection(ContentOf(fs, name), subject, links)]
  }

  /** `DeleteLinks`: the file keeps only the lines that mention none of the links; a missing file is an
      error and changes nothing. */
  function DeleteLinks(fs: Files, name: string, links: seq<Link>): (r: Result<Files, StoreError>)
    ensures r.Err? <==> name !in fs
    ensures r.Err? ==> r.error == NotFound(name)
    ensures r.Ok? ==> r.value.Keys == fs.Keys
    ensures r.Ok? ==> forall n :: n in fs && n != name ==> r.value[n] == fs[n]
    ensures r.Ok? ==> r.value[name] == Mutator.DeleteLinks(fs[name], links)
    ensures r.Ok? ==> |Split(r.value[name])| <= |Split(fs[name])|
  {
    if name in fs then
      Ok(fs[name := Mutator.DeleteLinks(fs[name], links)])
    else Err(NotFound(name))
  }

  /** Adding a subject and reading the file back gives the subjects it had (none when it was missing),
      followed by the new subject with exactly its links. */
  lemma AddThenGet(fs: Files, name: string, subject: string, links: seq<Link>)
    requires WritableName(subject) && AllWritable(links)
    ensures GetLinks(AddBulkLinks(fs, name, subject, links), name)
            == Ok((if name in fs then Parse(TripleHash, fs[name]) else []) + [Subject(subject, links)])
  {
    AppendThenParse(TripleHash, ContentOf(fs, name), subject, links);
    ParseEmptyText(TripleHash);
  }

  /** After a delete, none of the deleted links reads back from the file. */
  lemma DeleteThenGet(fs: Files, name: string, links: seq<Link>, l: Link)
    requires name in fs && l in links
    ensures DeleteLinks(fs, name, links).Ok?
    ensures var after := DeleteLinks(fs, name, links).value;
            GetLinks(after, name).Ok? && l !in AllLinksOf(GetLinks(after, name).value)
  {
    DeleteThenParse(TripleHash, fs[name], links, l);
  }

  /** A delete only drops links: the links the file reads as afterwards are a subsequence of before. */
  lemma DeleteThenGetSubsequence(fs: Files, name: string, links: seq<Link>)
    requires name in fs
    ensures DeleteLinks(fs, name, links).Ok?
    ensures var after := DeleteLinks(fs, name, links).value;
            IsSubsequence(AllLinksOf(GetLinks(after, name).value), AllLinksOf(GetLinks(fs, name).value))
  {
    DeleteOnlyDropsLinks(TripleHash, fs[name], links);
  }
}
