# linky link-collection codec, in Dafny

linky keeps collections of links in Markdown files. Its core has three parts:

- a reader that turns a file's text into an ordered list of subjects, each with its links;
- the text rewrites the service performs on those files, which append a subject section and delete the lines that mention given links;
- a small line editor that deletes one line by index.

This project models that core as pure functions over strings and proves properties of it.

The modules follow the program's structure.

| module | file | models |
|---|---|---|
| `Wrappers` | wrappers.dfy | `Option`, `Result` |
| `Models` | models.dfy | `Link` (title, url) and `Subject` (name, links) of internal/models/link.go, and the `[title](url)` markup |
| `Strings` | strings.dfy | the parts of Go's `strings` package the code uses: `TrimSpace` with `unicode.IsSpace`, `HasPrefix`, `Contains`, `TrimLeft` with a one-character cutset, and `Split`/`Join` on `"\n"` |
| `LinkPattern` | linkpattern.dfy | the regular expression `\[(.*?)\]\((.*?)\)` as Go's `FindStringSubmatch` applies it. This is not an engine: it is a search whose result is proved to be the leftmost match with the shortest title, then the shortest url, where `.` never crosses a newline |
| `Parser` | parser.dfy | the line-scanning loop of `GetLinks` and `getFile`, parameterised by the header rule: `TripleHash` (a trimmed line starting `"### "`) or `AnyHash` (any trimmed line starting `#`, named by what follows the leading `#`s) |
| `Mutator` | mutator.dfy | the text of `AddBulkLinks` (separator, `### subject` header, one bullet per link, final blank line) and the line filter of `DeleteLinks` / `deleteLinks` |
| `RoundTrip` | roundtrip.dfy | how those rewrites look through the reader, under either header rule |
| `Store` | store.dfy | the file operations of markdown.go over a directory modelled as `map<string, string>` |
| `Backend` | backend.dfy | the handlers of backend/main.go: `getFile`, `deleteLinks`, and `addBulkLinks` with its empty-filename check and dated block |
| `LineEditor` | lineeditor.dfy | `deleteLine` of main.go |

The reader is stated twice:

- as the loop the code runs (`Scan`, `Step`, `Finish`);
- as a declarative view (`Reference`): an `"Others"` subject when a bullet comes before the first header, then one subject per header holding the links of the bullets up to the next header.

`Parser.ParseIsReference` proves the two agree. The other reader lemmas, including the round trips, are proved against the declarative view.

The reader runs over `Split(text)` rather than `bufio.Scanner`. The two give the same subjects:

- The extra empty piece `Split` yields after a final newline is a blank line, which the loop ignores.
- `bufio`'s removal of a trailing `\r` is subsumed by `TrimSpace`.

Behaviours worth noting:

- An empty file name is rejected as a bad request only by `addBulkLinks` in backend/main.go (lines 223-227). The store's `AddBulkLinks` (markdown.go:80-106) does no validation of its own: with `""` the path is the directory itself, reading it fails with an I/O error other than "does not exist", and that error is returned (lines 82-85). I/O errors are not modelled, so `Store.AddBulkLinks` has no error case.
- `addBulkLinks` in backend/main.go decodes a `links` field into its request (lines 63-67) but never reads it: it writes only the request's `content` text under the date (lines 242-259). `Backend.AddBulkLinks` therefore takes the text and no links.
- The pattern's `.*?` groups may be empty. `[](u)` reads as a link with an empty title, and `[t]()` reads as one with an empty url.
- A bad line index in main.go is answered as a bad request ("Invalid line index", lines 87-90), not as a missing file. `LineEditor.EditError` keeps `InvalidIndex` apart from `NotFound`.
- File names are not checked for path separators or `..`. The model treats a name as an opaque key.

## Model

| member | source | states |
|---|---|---|
| Strings.TrimSpace | internal/services/store/markdown/markdown.go:51 | the trimmed line has no white space (in the `unicode.IsSpace` sense) at either end, is no longer than the line, and a line already trimmed is left alone |
| Strings.Split | internal/services/store/markdown/markdown.go:115 | `strings.Split(s, "\n")` always yields at least one piece, even for empty text |
| Strings.SplitCount | internal/services/store/markdown/markdown.go:115 | a split yields exactly one piece more than the text has newlines |
| Strings.JoinCount | internal/services/store/markdown/markdown.go:136 | `strings.Join(lines, "\n")` of newline-free lines (`Strings.Join`) starts with the first line and holds `|lines| - 1` newlines; `Strings.JoinThenSplit` pins where they are |
| Strings.TrimLeftChar | backend/main.go:138 | `strings.TrimLeft(line, "#")` drops exactly the leading run of `#`: what it drops is all `#`, what remains is a suffix that does not start with `#` |
| Strings.TrimSpaceIsInside | internal/services/store/markdown/markdown.go:51 | the trimmed line occurs inside the raw line, so whatever the reader finds in a trimmed line is also in the raw line the delete filter looks at |
| Strings.SplitHasNoNewline | internal/services/store/markdown/markdown.go:115 | no piece of a `"\n"` split holds a newline |
| Strings.SplitThenJoin | internal/services/store/markdown/markdown.go:115-136 | joining the pieces of a split on `"\n"` gives back exactly the text that was split |
| Strings.JoinThenSplit | internal/services/store/markdown/markdown.go:136 | splitting newline-free lines after joining them gives the same lines back |
| Strings.SplitAround | internal/services/store/markdown/markdown.go:115 | splitting `a + "\n" + b` gives the pieces of `a` followed by the pieces of `b` |
| LinkPattern.FindCloseIsFirst | internal/services/store/markdown/markdown.go:47 | the url search stops at the first `)` on the line and finds none when a newline comes first |
| LinkPattern.FindMidIsFirst | internal/services/store/markdown/markdown.go:47 | for a fixed `[`, the search returns the shortest title that can be completed, and within it the shortest url. It finds nothing exactly when no completion exists |
| LinkPattern.FindFromIsFirst | internal/services/store/markdown/markdown.go:47 | the search returns a real match that no other match at or after the start position precedes in the engine's order. It finds nothing exactly when no match starts there |
| LinkPattern.FindLinkIsLeftmostFirst | internal/services/store/markdown/markdown.go:63-64 | the reported match is a match of the pattern and is leftmost-first among all matches; there is none exactly when the pattern matches nowhere in the line |
| LinkPattern.MatchLink | internal/services/store/markdown/markdown.go:63-68 | the link read from a line is its markup found inside the line: neither part crosses a newline, and the url holds no `)` because the lazy url stops at the first one |
| LinkPattern.MatchLinkReadsMatch | internal/services/store/markdown/markdown.go:63-69 | a line yields a link exactly when the pattern matches in it; the link's `[title](url)` then occurs in the line, and neither part has a newline |
| LinkPattern.CapturedLink | internal/services/store/markdown/markdown.go:63-68 | the two capture groups of a match, written back as `[title](url)`, are exactly the matched text |
| LinkPattern.BulletLineMatches | internal/services/store/markdown/markdown.go:101 | a bullet written as `- [title](url)` reads back as that link when the title has no `]`, the url no `)` and neither a newline |
| Parser.HeaderName | internal/services/store/markdown/markdown.go:52-58 | a header name comes only from a line starting with `#`, is trimmed and is shorter than the line. Under the `"### "` rule a line is a header exactly when it starts with `"### "` (markdown.go), under the `#` rule exactly when it starts with `#` (backend/main.go:133-138). Which name it opens is stated by `Parser.TripleRuleHeaderName` and `Parser.AnyRuleHeaderName` |
| Parser.TripleRuleHeaderName | internal/services/store/markdown/markdown.go:52-58 | a `"### "` line is named by the rest of the line with its white space trimmed: `"### " + sp + x`, with `sp` white space and `x` trimmed, is named `x` |
| Parser.AnyRuleHeaderName | backend/main.go:133-138 | a `#` line is named by what follows its leading run of `#`, trimmed: `h + sp + x`, with `h` all `#`, `sp` white space and `x` trimmed and not continuing the run, is named `x`. Every trimmed line starting with `#` can be written in this form (take the whole run of `#`, then the whole run of white space) |
| Parser.Classify | internal/services/store/markdown/markdown.go:51-63 | a line is a header exactly when its trimmed text opens a subject under the rule, and then it carries that subject's name; it is a bullet exactly when its trimmed text starts with `-`, and then holds the link the pattern finds in the trimmed text; a blank line is neither |
| Parser.NoHashNoHeader | backend/main.go:133 | a trimmed line that does not start with `#` is a header under neither rule |
| Parser.Parse | internal/services/store/markdown/markdown.go:50-75 | the scanning loop (and the same loop at backend/main.go:131-158 under the `#` rule) returns exactly the declarative view: an `"Others"` subject when a bullet precedes the first header, then one subject per header with the links up to the next header |
| Parser.ScanWithOpenSubject | internal/services/store/markdown/markdown.go:52-75 | with a subject open, the loop adds the bullets up to the next header to that subject, and every header flushes the open subject and opens its own |
| Parser.ScanWithNoSubject | internal/services/store/markdown/markdown.go:50-75 | from the start state the loop returns the declarative view of the lines after those already done |
| Parser.ParseIsReference | internal/services/store/markdown/markdown.go:50-75 | the loop returns an `"Others"` subject when a bullet precedes the first header, then one subject per header with the links up to the next header, the last one flushed at the end |
| Parser.ParseEmptyText | internal/services/store/markdown/markdown.go:73-75 | an empty file has no subjects |
| Parser.ParseWithoutStructure | internal/services/store/markdown/markdown.go:59-70 | a file with no header and no bullet line has no subjects: blank lines and prose are ignored |
| Parser.ParseKeepsLinkOrder | internal/services/store/markdown/markdown.go:63-69 | the links of all subjects, in order, are exactly the links of the bullet lines in file order; a bullet without a match contributes none |
| Parser.SubjectNamesInOrder | internal/services/store/markdown/markdown.go:52-62 | the subject names are `"Others"` (only when a bullet precedes the first header) followed by the header names in file order |
| Parser.OthersCollectsLeadingBullets | internal/services/store/markdown/markdown.go:59-62 | bullets before any header open a first subject named `"Others"` holding their links in order |
| Parser.ParseAround | internal/services/store/markdown/markdown.go:50-75 | text after a newline that has no bullet before its first header keeps the subjects of the text before it and adds its own after them |
| Parser.LeadingNewline | internal/services/store/markdown/markdown.go:50-51 | a newline at the front of a file adds an ignored line and changes no subject |
| Parser.TrailingNewline | internal/services/store/markdown/markdown.go:50-51 | a newline at the end of a file changes no subject |
| Parser.TripleRuleHeaderLevels | internal/services/store/markdown/markdown.go:52-58 | under the `"### "` rule, `### x` is a header named `x`, while `# x`, `## x` and `#### x` are not headers |
| Parser.BareHashes | backend/main.go:133-139 | a line of `#`s alone opens a subject named `""` under the `#` rule, and is no header under the `"### "` rule |
| Parser.AnyRuleHeaderLevels | backend/main.go:133-139 | under the `#` rule a header of any level, `#…# x`, is named `x` |
| Parser.TripleHeaderIsAnyHeader | backend/main.go:133-139 | every `"### "` header is a `#` header with the same name |
| Parser.ClassifyRulesAgree | backend/main.go:131-153 | a line that is a `"### "` header, or does not start with `#`, reads the same under both rules |
| Parser.ParseRulesAgree | backend/main.go:131-158 | a file whose `#` lines are all `"### "` headers has the same subjects under both rules |
| Mutator.Separator | internal/services/store/markdown/markdown.go:88-93 | the separator is nothing or one blank line; after it, non-empty text always ends in a blank line, and none is added to empty text or text that already ends in one |
| Mutator.SectionFrame | internal/services/store/markdown/markdown.go:95-103 | the section `Mutator.Section` writes opens with `### subject` and a blank line when the subject is named, always ends with a newline, and ends with a blank line whenever it writes a header or a bullet |
| Mutator.AppendSection | internal/services/store/markdown/markdown.go:87-103 | the old text is a proper prefix of the new text, and the new text ends with the section. Old text that is not empty is followed by a blank line before the section. Two characters are added between them exactly when the old text is not empty and does not already end in a blank line |
| Mutator.BulletBlockLines | internal/services/store/markdown/markdown.go:100-103 | the bullets and the final newline split into one `- [t](u)` line per link, in input order, then two empty pieces |
| Mutator.SectionWithHeader | internal/services/store/markdown/markdown.go:96-103 | with a subject, the section's lines are `### subject`, a blank line, one bullet line per link, then the final blank line |
| Mutator.SectionWithoutHeader | internal/services/store/markdown/markdown.go:96-103 | with no subject, the section's lines are the bullet lines alone, then the final blank line |
| Mutator.KeepLines | internal/services/store/markdown/markdown.go:123-134 | the kept lines are a subsequence of the lines, none mentions a pattern, and each line that mentions none is kept as many times as it occurs |
| Mutator.DeleteLinks | internal/services/store/markdown/markdown.go:115-136 | the new text's lines are exactly the kept lines (one empty line when none is kept), so there are never more lines than before |
| Mutator.DeleteWithoutMatch | internal/services/store/markdown/markdown.go:115-136 | when no line mentions any link, the text comes back byte for byte |
| Mutator.DeleteNoLinks | internal/services/store/markdown/markdown.go:119-136 | deleting an empty list of links changes nothing |
| Mutator.DeleteLinksAsSet | internal/services/store/markdown/markdown.go:117-121 | only the set of links matters: duplicates act as one and their order is irrelevant |
| Mutator.DeletedTextLines | internal/services/store/markdown/markdown.go:115-136 | the new text splits into exactly the kept lines, or is empty when every line was deleted |
| Mutator.DeleteNeverAddsLines | internal/services/store/markdown/markdown.go:115-136 | deleting never increases the number of lines |
| Mutator.DeleteIdempotent | internal/services/store/markdown/markdown.go:115-136 | deleting the same links twice gives the same text as deleting them once |
| RoundTrip.ReadHeaderLine | internal/services/store/markdown/markdown.go:52-58 | a written `### subject` line reads as a header named by the subject, under both rules, for a non-empty trimmed subject with no newline |
| RoundTrip.HeaderLineIsNoBullet | internal/services/store/markdown/markdown.go:52-59 | whatever the subject, its header line never reads as a bullet |
| RoundTrip.ReadDashLine | internal/services/store/markdown/markdown.go:59-63 | a trimmed line starting with `-` is a bullet under both rules, holding what the pattern finds |
| RoundTrip.ReadBulletLine | internal/services/store/markdown/markdown.go:59-69 | a written bullet reads back as exactly its link |
| RoundTrip.SectionReadsBack | internal/services/store/markdown/markdown.go:96-103 | a written section read on its own is the one subject with exactly its links, and has no bullet before its header |
| RoundTrip.GlueWithBlankLine | internal/services/store/markdown/markdown.go:88-93 | text glued after a blank line adds its subjects after the file's own, provided no bullet comes before its first header |
| RoundTrip.AppendThenParse | internal/services/store/markdown/markdown.go:87-103 | appending a subject to any file and reading it back gives the file's subjects as before, then the new subject with exactly its links in order |
| RoundTrip.AppendToEmptyThenParse | internal/services/store/markdown/markdown.go:96-103 | appending to an empty file gives a file that reads as the one new subject |
| RoundTrip.BulletLineHoldsMarkup | internal/services/store/markdown/markdown.go:63-69 | a line that reads as a bullet with a link contains that link's `[title](url)` |
| RoundTrip.DeleteThenParse | internal/services/store/markdown/markdown.go:119-134 | after deleting a list of links, none of them reads back from the file |
| RoundTrip.DeleteOnlyDropsLinks | internal/services/store/markdown/markdown.go:123-134 | after a delete, the links read back are a subsequence of those read before |
| Store.GetLinks | internal/services/store/markdown/markdown.go:38-78 | fails exactly when the file is missing; otherwise gives the declarative view of its lines under the `"### "` rule |
| Store.AddBulkLinks | internal/services/store/markdown/markdown.go:80-106 | creates a missing file and leaves every other file alone. The old text (empty for a missing file) is a proper prefix of the new, which ends with the section |
| Store.DeleteLinks | internal/services/store/markdown/markdown.go:108-137 | fails exactly when the file is missing, leaves every other file alone, and otherwise replaces the file by the line filter's text, which never has more lines |
| Store.AddThenGet | internal/services/store/markdown/markdown.go:80-106 | after adding, the file reads as its old subjects (none if it was missing), then the new subject with exactly its links |
| Store.DeleteThenGet | internal/services/store/markdown/markdown.go:108-137 | after a delete on an existing file, none of the deleted links reads back |
| Store.DeleteThenGetSubsequence | internal/services/store/markdown/markdown.go:108-137 | after a delete, the file's links are a subsequence of those it had |
| Backend.GetFile | backend/main.go:116-165 | fails exactly when the file is missing; otherwise gives the declarative view of its lines under the `#` rule |
| Backend.GetFileAgreesWithStore | backend/main.go:131-158 | a file whose `#` lines are all `"### "` headers reads the same through both services |
| Backend.DeleteLinks | backend/main.go:167-209 | fails exactly when the file is missing, leaves every other file alone, and otherwise replaces the file by the same line filter's text, which never has more lines |
| Backend.DeleteHandlersAgree | backend/main.go:181-202 | both services fail on the same files and delete links with the same filter |
| Backend.AddBulkLinks | backend/main.go:211-270 | is rejected exactly when the file name is empty. Otherwise it creates a missing file and leaves the others alone; the old text is a prefix of the new, which ends with the dated block |
| Backend.DatedSection | backend/main.go:243-259 | the dated block opens with `# date` and a blank line and ends with the trimmed text and a newline, five characters longer than the date and text together; `Backend.DatedSectionReadsBack` gives how it reads |
| Backend.AddSeparator | backend/main.go:245-259 | a file already holding text gets exactly `"\n\n"` between its text and the dated block, whatever it ends with; an empty file gets nothing |
| Backend.ReadDateLine | backend/main.go:133-139 | the `# date` line opens a subject named by the date |
| Backend.DatedSectionReadsBack | backend/main.go:242-259 | the dated block reads as a subject named by the date, holding the links of the text's bullets before its first header, then one subject per header of the text |
| Backend.AddThenGetFile | backend/main.go:233-262 | after an append the file reads as its old subjects, then the date's subject with the text's leading links, then the text's own header subjects |
| Backend.AddKeepsOldSubjects | backend/main.go:233-262 | appending never disturbs the old subjects: they come first, unchanged, followed by a subject named by the date |
| LineEditor.DeleteLineOf | main.go:86-93 | fails exactly when the index is outside the file's lines; deleting the only line leaves an empty file |
| LineEditor.DeleteLine | main.go:72-100 | a missing file fails before the index is checked, a bad index fails next, and on success the named file holds the text without that line and no other file changes |
| LineEditor.DeleteLineLines | main.go:92-93 | the new text splits into exactly the old lines without line `i` |
| LineEditor.DeleteLineShifts | main.go:92 | one line fewer; lines before `i` stay put and lines after it move up by one |
| LineEditor.DeleteLineThenRestore | main.go:86-93 | putting the removed line back at index `i` gives the original text |

## Left out

- `ID` and `Timestamp` of `Link`: the reader never sets them and the writers never print them.
- I/O failures other than a missing file: permission errors, failed writes and `scanner.Err()`. A write is modelled as always succeeding.
- `bufio.Scanner`'s 64 KiB token limit. A longer line makes the Go reader stop with an error.
- UTF-8 decoding: strings are sequences of code points, and invalid UTF-8 is not modelled.
- `ListFiles`, `CreateFile`, `DeleteFile` and `New` of the store, and `listFiles` of both servers: these are directory listing and file creation, not text processing.
- `getFile` of main.go: it is `markdown.ToHTML` from a third-party library whose code is not part of this model.
- HTTP routing, JSON decoding and status codes: malformed bodies answered 400 are outside the model. Errors are kept as `Result` values whose kinds correspond to the status classes.
- `time.Now().Format("02/01/2006")` in `addBulkLinks`: the date string is a parameter.
- Paths: `filepath.Join`, directory traversal, and a name that denotes the directory itself are not modelled. A file name is a key of the map.
- Concurrency: each operation is one atomic step over the map. Lost updates between concurrent requests are not modelled.
- Strings.TrimSpace: its contract states trimming at both ends and idempotence. The exact characters removed are those of `IsSpace`, which follows `unicode.IsSpace` (the Latin-1 spaces plus the Unicode White_Space characters).
