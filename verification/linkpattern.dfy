/** The link pattern `\[(.*?)\]\((.*?)\)` of internal/services/store/markdown/markdown.go and
    backend/main.go, applied with `FindStringSubmatch`. Rather than a regular-expression engine, the
    model states which match Go's engine reports: among all places the pattern can match, the one
    that starts leftmost, then has the shortest title, then the shortest url (leftmost-first
    matching with lazy `.*?`). `.` does not match a newline. */
module LinkPattern {
  import opened Wrappers
  import opened Models
  import opened Strings

  /** One match: `[` at `open`, `](` at `mid` and `mid + 1`, `)` at `close`. */
  datatype Match = Match(open: nat, mid: nat, close: nat)

  /** No newline in `s[from..to]`. */
  predicate NoNewline(s: string, from: nat, to: nat)
    requires from <= to <= |s|
  {
    forall p :: from <= p < to ==> s[p] != '\n'
  }

  /** The pattern matches `s[i..k + 1]` with the title `s[i + 1..j]` and the url `s[j + 2..k]`. */
  predicate IsMatch(s: string, i: nat, j: nat, k: nat) {
    && i < j && j + 2 <= k < |s|
    && s[i] == '[' && s[j] == ']' && s[j + 1] == '(' && s[k] == ')'
    && NoNewline(s, i + 1, j) && NoNewline(s, j + 2, k)
  }

  /** The engine tries the match (i, j, k) no later than (i', j', k'): start, then title end, then url end. */
  predicate TriedNoLater(i: nat, j: nat, k: nat, i': nat, j': nat, k': nat) {
    i < i' || (i == i' && (j < j' || (j == j' && k <= k')))
  }

  /** The first `)` at or after `from`, provided no newline comes before it. */
  function FindClose(s: string, from: nat): (r: Option<nat>)
    requires from <= |s|
    ensures r.Some? ==> from <= r.value < |s| && s[r.value] == ')'
    decreases |s| - from
  {
    if from == |s| then None
    else if s[from] == ')' then Some(from)
    else if s[from] == '\n' then None
    else FindClose(s, from + 1)
  }

  /** With `[` at `i`, the first title end at or after `j` that completes a match, and its first url end. */
  function FindMid(s: string, i: nat, j: nat): (r: Option<(nat, nat)>)
    requires i < j <= |s|
    ensures r.Some? ==> j <= r.value.0 && r.value.0 + 2 <= r.value.1 < |s|
    decreases |s| - j
  {
    if j + 2 >= |s| then None
    else if s[j] == ']' && s[j + 1] == '(' && FindClose(s, j + 2).Some? then Some((j, FindClose(s, j + 2).value))
    else if s[j] == '\n' then None
    else FindMid(s, i, j + 1)
  }

  /** The first match that starts at or after `i`, in the engine's order. */
  function FindFrom(s: string, i: nat): (r: Option<Match>)
    requires i <= |s|
    ensures r.Some? ==> i <= r.value.open < r.value.mid && r.value.mid + 2 <= r.value.close < |s|
    decreases |s| - i
  {
    if i == |s| then None
    else if s[i] == '[' && FindMid(s, i, i + 1).Some? then
      var jk := FindMid(s, i, i + 1).value;
      Some(Match(i, jk.0, jk.1))
    else FindFrom(s, i + 1)
  }

  /** The match `FindStringSubmatch` reports, if any. */
  function FindLink(s: string): (r: Option<Match>)
    ensures r.Some? ==> r.value.open < r.value.mid && r.value.mid + 2 <= r.value.close < |s|
  {
    FindFrom(s, 0)
  }

  /** The link read from a line: the two capture groups of the reported match, or nothing. Its markup
      is a piece of the line; neither part crosses a newline, and the url stops at the first `)`. */
  function MatchLink(line: string): (r: Option<Link>)
    ensures r.Some? ==> |Markup(r.value)| <= |line| && Contains(line, Markup(r.value))
    ensures r.Some? ==> '\n' !in r.value.title && '\n' !in r.value.url && ')' !in r.value.url
  {
    match FindLink(line)
    case None => None
    case Some(m) =>
      FindLinkIsLeftmostFirst(line);
      CapturedLink(line, m.open, m.mid, m.close);
      UrlStopsAtFirstClose(line, m);
      Some(Link(line[m.open + 1..m.mid], line[m.mid + 2..m.close]))
  }

  /** The reported url holds no `)`: a `)` inside it would end an earlier match. */
  lemma UrlStopsAtFirstClose(line: string, m: Match)
    requires FindLink(line) == Some(m)
    ensures ')' !in line[m.mid + 2..m.close]
  {
    FindLinkIsLeftmostFirst(line);
    forall p: nat | m.mid + 2 <= p < m.close
      ensures line[p] != ')'
    {
      assert line[p] == ')' ==> IsMatch(line, m.open, m.mid, p);
    }
  }

  // ---------------------------------------------------------------------------------------------
  // The search finds exactly the match the engine reports.

  lemma {:induction false} FindCloseIsFirst(s: string, from: nat)
    requires from <= |s|
    ensures var r := FindClose(s, from);
            && (r.Some? ==> NoNewline(s, from, r.value) && forall k :: from <= k < r.value ==> s[k] != ')')
            && (r.None? ==> forall k :: from <= k < |s| && s[k] == ')' ==> !NoNewline(s, from, k))
    decreases |s| - from
  {
    if from < |s| && s[from] != ')' && s[from] != '\n' {
      FindCloseIsFirst(s, from + 1);
    }
  }

  lemma {:induction false} FindMidIsFirst(s: string, i: nat, j: nat)
    requires i < j <= |s| && s[i] == '['
    requires NoNewline(s, i + 1, j)
    ensures var r := FindMid(s, i, j);
            && (r.Some? ==> IsMatch(s, i, r.value.0, r.value.1))
            && (r.Some? ==> forall j', k' :: j <= j' && IsMatch(s, i, j', k') ==> TriedNoLater(i, r.value.0, r.value.1, i, j', k'))
            && (r.None? ==> forall j', k' :: j <= j' ==> !IsMatch(s, i, j', k'))
    decreases |s| - j
  {
    if j + 2 < |s| {
      FindCloseIsFirst(s, j + 2);
      if !(s[j] == ']' && s[j + 1] == '(' && FindClose(s, j + 2).Some?) && s[j] != '\n' {
        FindMidIsFirst(s, i, j + 1);
      }
    }
  }

  lemma {:induction false} FindFromIsFirst(s: string, i: nat)
    requires i <= |s|
    ensures var r := FindFrom(s, i);
            && (r.Some? ==> IsMatch(s, r.value.open, r.value.mid, r.value.close))
            && (r.Some? ==> forall i', j', k' :: i <= i' && IsMatch(s, i', j', k') ==>
                              TriedNoLater(r.value.open, r.value.mid, r.value.close, i', j', k'))
            && (r.None? ==> forall i', j', k' :: i <= i' ==> !IsMatch(s, i', j', k'))
    decreases |s| - i
  {
    if i < |s| {
      if s[i] == '[' {
        FindMidIsFirst(s, i, i + 1);
      }
      if !(s[i] == '[' && FindMid(s, i, i + 1).Some?) {
        FindFromIsFirst(s, i + 1);
      }
    }
  }

  /** The reported match is a match, and it is the leftmost-first one: no other match was tried before
      it. There is none exactly when the pattern matches nowhere. */
  lemma FindLinkIsLeftmostFirst(s: string)
    ensures var r := FindLink(s);
            && (r.Some? ==> IsMatch(s, r.value.open, r.value.mid, r.value.close))
            && (r.Some? ==> forall i', j', k' :: IsMatch(s, i', j', k') ==>
                              TriedNoLater(r.value.open, r.value.mid, r.value.close, i', j', k'))
            && (r.None? <==> forall i', j', k' :: !IsMatch(s, i', j', k'))
  {
    FindFromIsFirst(s, 0);
  }

  /** A line yields a link exactly when the pattern matches somewhere in it; the link's markup then
      occurs in the line, and neither part holds a newline. */
  lemma MatchLinkReadsMatch(line: string)
    ensures var r := MatchLink(line);
            && (r.None? <==> forall i', j', k' :: !IsMatch(line, i', j', k'))
            && (r.Some? ==> Contains(line, Markup(r.value)))
            && (r.Some? ==> '\n' !in r.value.title && '\n' !in r.value.url)
  {
    MatchLinkWhenMatching(line);
    if MatchLink(line).Some? {
      MatchedLinkInLine(line);
    }
  }

  lemma MatchLinkWhenMatching(line: string)
    ensures MatchLink(line).None? <==> forall i', j', k' :: !IsMatch(line, i', j', k')
  {
    FindLinkIsLeftmostFirst(line);
  }

  lemma MatchedLinkInLine(line: string)
    requires MatchLink(line).Some?
    ensures Contains(line, Markup(MatchLink(line).value))
    ensures '\n' !in MatchLink(line).value.title && '\n' !in MatchLink(line).value.url
  {
    FindLinkIsLeftmostFirst(line);
    var m := FindLink(line).value;
    CapturedLink(line, m.open, m.mid, m.close);
  }

  /** The two capture groups of a match, written back as markup, are the matched text. */
  lemma CapturedLink(line: string, i: nat, j: nat, k: nat)
    requires IsMatch(line, i, j, k)
    ensures var l := Link(line[i + 1..j], line[j + 2..k]);
            && OccursAt(line, Markup(l), i)
            && '\n' !in l.title && '\n' !in l.url
  {
    var l := Link(line[i + 1..j], line[j + 2..k]);
    assert line[i..k + 1] == Markup(l);
  }

  /** A bullet written as `- [title](url)` reads back as that link, provided the title has no `]` and
      the url no `)`, and neither has a newline. */
  lemma BulletLineMatches(title: string, url: string)
    requires ']' !in title && '\n' !in title
    requires ')' !in url && '\n' !in url
    ensures MatchLink("- " + Markup(Link(title, url))) == Some(Link(title, url))
  {
    var line := "- " + Markup(Link(title, url));
    var j := 3 + |title|;
    var k := j + 2 + |url|;
    BulletLineMatch(title, url);
    assert line[3..j] == title;
    assert line[j + 2..k] == url;
  }

  /** The match found in a written bullet line spans the link's markup. */
  lemma BulletLineMatch(title: string, url: string)
    requires ']' !in title && '\n' !in title
    requires ')' !in url && '\n' !in url
    ensures FindLink("- " + Markup(Link(title, url))) == Some(Match(2, 3 + |title|, 5 + |title| + |url|))
  {
    var line := "- " + Markup(Link(title, url));
    var j := 3 + |title|;
    var k := j + 2 + |url|;
    assert line == "- [" + title + "](" + url + ")";
    assert line[3..j] == title;
    assert line[j + 2..k] == url;
    assert IsMatch(line, 2, j, k);
    FindLinkIsLeftmostFirst(line);
    var m := FindLink(line).value;
    assert TriedNoLater(m.open, m.mid, m.close, 2, j, k);
    assert m.open == 2;
    assert m.mid == j;
    assert m.close == k;
  }
}
