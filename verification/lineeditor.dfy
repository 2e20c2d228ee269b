/** The line editor of main.go: deleting one line of a file by its index among the "\n"-separated
    lines, after checking the index. */
module LineEditor {
  import opened Wrappers
  import opened Strings
  import Store

  /** A file that cannot be read, or an index outside the file's lines. */
  datatype EditError = NotFound(name: string) | InvalidIndex(index: int)

  /** The text after removing line `index`, or an error when there is no such line. */
  function DeleteLineOf(content: string, index: int): (r: Result<string, EditError>)
    ensures r.Err? <==> index < 0 || index >= |Split(content)|
    ensures r.Err? ==> r.error == InvalidIndex(index)
    ensures r.Ok? && |Split(content)| == 1 ==> r.value == ""
  {
    var lines := Split(content);
    if index < 0 || index >= |lines| then Err(InvalidIndex(index))
    else Ok(Join(lines[..index] + lines[index + 1..]))
  }

  /** `deleteLine`: a missing file fails first; a bad index fails next, leaving the file as it was;
      otherwise only the named file changes. */
  function DeleteLine(fs: Store.Files, name: string, index: int): (r: Result<Store.Files, EditError>)
    ensures r.Err? <==> name !in fs || index < 0 || index >= |Split(fs[name])|
    ensures r.Err? ==> r.error == if name !in fs then NotFound(name) else InvalidIndex(index)
    ensures r.Ok? ==> r.value.Keys == fs.Keys
    ensures r.Ok? ==> forall n :: n in fs && n != name ==> r.value[n] == fs[n]
    ensures r.Ok? ==> DeleteLineOf(fs[name], index) == Ok(r.value[name])
  {
    if name !in fs then Err(NotFound(name))
    else
      match DeleteLineOf(fs[name], index)
      case Err(e) => Err(e)
      case Ok(text) => Ok(fs[name := text])
  }

  /** The lines left after removing line `i` have no newline in them. */
  lemma RemainingLinesHaveNoNewline(content: string, i: int, rest: seq<string>)
    requires 0 <= i < |Split(content)|
    requires rest == Split(content)[..i] + Split(content)[i + 1..]
    ensures forall j :: 0 <= j < |rest| ==> '\n' !in rest[j]
  {
    var lines := Split(content);
    SplitHasNoNewline(content);
    forall j | 0 <= j < |rest|
      ensures '\n' !in rest[j]
    {
      if j < i {
        assert rest[j] == lines[j];
      } else {
        assert rest[j] == lines[j + 1];
      }
    }
  }

  /** Removing line `i` of a file with more than one line: the new text splits into exactly the old
      lines without line `i`. */
  lemma DeleteLineLines(content: string, i: int)
    requires 0 <= i < |Split(content)| && |Split(content)| > 1
    ensures DeleteLineOf(content, i).Ok?
    ensures var lines := Split(content);
            Split(DeleteLineOf(content, i).value) == lines[..i] + lines[i + 1..]
  {
    var lines := Split(content);
    RemainingLinesHaveNoNewline(content, i, lines[..i] + lines[i + 1..]);
    JoinThenSplit(lines[..i] + lines[i + 1..]);
  }

  /** One line fewer; the lines before `i` stay where they were and the lines after it move up by one. */
  lemma DeleteLineShifts(content: string, i: int)
    requires 0 <= i < |Split(content)| && |Split(content)| > 1
    ensures DeleteLineOf(content, i).Ok?
    ensures var lines := Split(content);
            var after := Split(DeleteLineOf(content, i).value);
            && |after| == |lines| - 1
            && (forall j :: 0 <= j < i ==> after[j] == lines[j])
            && (forall j :: i <= j < |after| ==> after[j] == lines[j + 1])
  {
    DeleteLineLines(content, i);
  }

  /** Putting an element removed from a list back at its index gives the list again. */
  lemma PutBack(lines: seq<string>, i: int)
    requires 0 <= i < |lines|
    ensures var rest := lines[..i] + lines[i + 1..];
            rest[..i] + [lines[i]] + rest[i..] == lines
  {
    var rest := lines[..i] + lines[i + 1..];
    assert rest[..i] == lines[..i];
    assert rest[i..] == lines[i + 1..];
  }

  /** Putting the removed line back at index `i` gives the original text again. */
  lemma DeleteLineThenRestore(content: string, i: int)
    requires 0 <= i < |Split(content)| && |Split(content)| > 1
    ensures DeleteLineOf(content, i).Ok?
    ensures var lines := Split(content);
            var after := Split(DeleteLineOf(content, i).value);
            i <= |after| && Join(after[..i] + [lines[i]] + after[i..]) == content
  {
    DeleteLineLines(content, i);
    PutBack(Split(content), i);
    SplitThenJoin(content);
  }
}
