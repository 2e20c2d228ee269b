/** The parts of Go's `strings` package the link-collection code relies on: white-space trimming,
    prefix and substring tests, and splitting and joining on "\n". Strings are sequences of
    Unicode code points; Go's UTF-8 decoding is not modelled. */
module Strings {

  /** Go's `unicode.IsSpace`: the Latin-1 space characters and the other Unicode White_Space characters. */
  predicate IsSpace(c: char) {
    || c == '\t' || c == '\n' || c == '\U{000B}' || c == '\U{000C}' || c == '\r' || c == ' '
    || c == '\U{0085}' || c == '\U{00A0}' || c == '\U{1680}'
    || ('\U{2000}' <= c <= '\U{200A}')
    || c == '\U{2028}' || c == '\U{2029}' || c == '\U{202F}' || c == '\U{205F}' || c == '\U{3000}'
  }

  /** Neither end of `s` is white space, so trimming leaves it alone. */
  predicate Trimmed(s: string) {
    s == [] || (!IsSpace(s[0]) && !IsSpace(s[|s| - 1]))
  }

  /** Drops the white space at the front: the result is the suffix of `s` from its first non-space character. */
  function TrimLeadingSpace(s: string): (r: string)
    ensures |r| <= |s| && r == s[|s| - |r|..]
    ensures forall i :: 0 <= i < |s| - |r| ==> IsSpace(s[i])
    ensures r == [] || !IsSpace(r[0])
  {
    if |s| > 0 && IsSpace(s[0]) then TrimLeadingSpace(s[1..]) else s
  }

  /** Drops the white space at the back: the result is the prefix of `s` up to its last non-space character. */
  function TrimTrailingSpace(s: string): (r: string)
    ensures |r| <= |s| && r == s[..|r|]
    ensures forall i :: |r| <= i < |s| ==> IsSpace(s[i])
    ensures r == [] || !IsSpace(r[|r| - 1])
  {
    if |s| > 0 && IsSpace(s[|s| - 1]) then TrimTrailingSpace(s[..|s| - 1]) else s
  }

  /** Go's `strings.TrimSpace`. */
  function TrimSpace(s: string): (r: string)
    ensures |r| <= |s|
    ensures Trimmed(r)
    ensures Trimmed(s) ==> r == s
  {
    TrimTrailingSpace(TrimLeadingSpace(s))
  }

  /** What trimming keeps is a piece of the text. */
  lemma TrimSpaceIsInside(s: string)
    ensures Contains(s, TrimSpace(s))
  {
    var front := TrimLeadingSpace(s);
    var r := TrimTrailingSpace(front);
    var k := |s| - |front|;
    assert front == s[k..] && r == front[..|r|];
    assert s[k..k + |r|] == s[k..][..|r|];
    assert OccursAt(s, r, k);
  }

  /** Trimming text that does not start with white space keeps its first character. */
  lemma TrimSpaceKeepsFirst(s: string)
    requires |s| > 0 && !IsSpace(s[0])
    ensures |TrimSpace(s)| > 0 && TrimSpace(s)[0] == s[0]
  {
    assert TrimLeadingSpace(s) == s;
    var r := TrimTrailingSpace(s);
    assert |r| > 0;
    assert r == s[..|r|];
  }

  /** Go's `strings.TrimLeft(s, cutset)` for a one-character cutset: drops every leading `c`. */
  function TrimLeftChar(s: string, c: char): (r: string)
    ensures |r| <= |s| && r == s[|s| - |r|..]
    ensures forall i :: 0 <= i < |s| - |r| ==> s[i] == c
    ensures r == [] || r[0] != c
  {
    if |s| > 0 && s[0] == c then TrimLeftChar(s[1..], c) else s
  }

  /** Go's `strings.HasPrefix`. */
  predicate HasPrefix(s: string, p: string) {
    |p| <= |s| && s[..|p|] == p
  }

  /** Go's `strings.HasSuffix`. */
  predicate HasSuffix(s: string, p: string) {
    |p| <= |s| && s[|s| - |p|..] == p
  }

  /** Go's `strings.Contains`: `p` occurs somewhere in `s` as a contiguous substring. */
  predicate Contains(s: string, p: string) {
    exists i | 0 <= i <= |s| - |p| :: OccursAt(s, p, i)
  }

  /** `p` occurs in `s` starting at index `i`. */
  predicate OccursAt(s: string, p: string, i: int) {
    0 <= i && i + |p| <= |s| && s[i..i + |p|] == p
  }

  /** A substring of a substring is a substring. */
  lemma ContainsTransitive(s: string, t: string, p: string)
    requires Contains(s, t) && Contains(t, p)
    ensures Contains(s, p)
  {
    var i :| 0 <= i <= |s| - |t| && OccursAt(s, t, i);
    var j :| 0 <= j <= |t| - |p| && OccursAt(t, p, j);
    assert s[i..i + |t|] == t;
    var inS, inT := s[i + j..i + j + |p|], t[j..j + |p|];
    forall k | 0 <= k < |p| ensures inS[k] == inT[k] {
      assert inT[k] == s[i..i + |t|][j + k];
    }
    assert inS == inT;
    assert OccursAt(s, p, i + j);
  }

  /** Go's `strings.Split(s, "\n")`: the pieces between newlines, one more than there are newlines. */
  function Split(s: string): (lines: seq<string>)
    ensures |lines| >= 1
    decreases |s|
  {
    if |s| == 0 then [""]
    else
      assert s == [s[0]] + s[1..];
      var rest := Split(s[1..]);
      if s[0] == '\n' then [""] + rest
      else [[s[0]] + rest[0]] + rest[1..]
  }

  /** No piece of a split holds a newline. */
  lemma {:induction false} SplitHasNoNewline(s: string)
    ensures forall i :: 0 <= i < |Split(s)| ==> '\n' !in Split(s)[i]
    decreases |s|
  {
    if |s| > 0 {
      SplitHasNoNewline(s[1..]);
      var rest := Split(s[1..]);
      if s[0] != '\n' {
        assert '\n' !in [s[0]] + rest[0];
        assert Split(s) == [[s[0]] + rest[0]] + rest[1..];
      } else {
        assert Split(s) == [""] + rest;
      }
    }
  }

  /** Go's `strings.Join(lines, "\n")`; joining no lines gives the empty string. */
  function Join(lines: seq<string>): string {
    if |lines| == 0 then ""
    else if |lines| == 1 then lines[0]
    else lines[0] + "\n" + Join(lines[1..])
  }

  /** A split yields one piece more than the text has newlines. */
  lemma {:induction false} SplitCount(s: string)
    ensures |Split(s)| == multiset(s)['\n'] + 1
    decreases |s|
  {
    if |s| > 0 {
      SplitCount(s[1..]);
      assert s == [s[0]] + s[1..];
    }
  }

  /** Joining newline-free lines starts with the first line and puts exactly one newline between
      neighbours. */
  lemma {:induction false} JoinCount(lines: seq<string>)
    requires |lines| > 0 && forall i :: 0 <= i < |lines| ==> '\n' !in lines[i]
    ensures HasPrefix(Join(lines), lines[0])
    ensures multiset(Join(lines))['\n'] == |lines| - 1
    decreases |lines|
  {
    if |lines| > 1 {
      JoinCount(lines[1..]);
      assert Join(lines) == lines[0] + ("\n" + Join(lines[1..]));
      assert Join(lines)[..|lines[0]|] == lines[0];
    }
  }

  /** Joining the pieces of a split puts back exactly the text that was split. */
  lemma {:induction false} SplitThenJoin(s: string)
    ensures Join(Split(s)) == s
    decreases |s|
  {
    if |s| > 0 {
      var rest := Split(s[1..]);
      SplitThenJoin(s[1..]);
      if s[0] == '\n' {
        assert Split(s) == [""] + rest;
      } else {
        var lines := Split(s);
        assert lines == [[s[0]] + rest[0]] + rest[1..];
        if |rest| > 1 {
          assert lines[1..] == rest[1..];
          assert Join(rest) == rest[0] + "\n" + Join(rest[1..]);
        }
      }
    }
  }

  /** Text without a newline splits into itself alone. */
  lemma {:induction false} SplitWithoutNewline(s: string)
    requires '\n' !in s
    ensures Split(s) == [s]
    decreases |s|
  {
    if |s| > 0 {
      assert '\n' !in s[1..] by {
        forall i | 0 <= i < |s[1..]| ensures s[1..][i] != '\n' {
          assert s[1..][i] == s[i + 1];
        }
      }
      SplitWithoutNewline(s[1..]);
      assert [s[0]] + s[1..] == s;
    }
  }

  /** Adding a character to the first of some lines commutes with appending more lines. */
  lemma PrependToFirst(c: char, ra: seq<string>, rb: seq<string>)
    requires |ra| >= 1
    ensures [[c] + (ra + rb)[0]] + (ra + rb)[1..] == ([[c] + ra[0]] + ra[1..]) + rb
  {
    assert (ra + rb)[0] == ra[0];
    assert (ra + rb)[1..] == ra[1..] + rb;
  }

  /** Splitting at a newline splits each side on its own. */
  lemma {:induction false} SplitAround(a: string, b: string)
    ensures Split(a + "\n" + b) == Split(a) + Split(b)
    decreases |a|
  {
    var s := a + "\n" + b;
    if |a| == 0 {
      assert s[1..] == b;
    } else {
      assert s[1..] == a[1..] + "\n" + b;
      SplitAround(a[1..], b);
      var rest := Split(s[1..]);
      var ra := Split(a[1..]);
      assert rest == ra + Split(b);
      if a[0] != '\n' {
        assert s[0] == a[0];
        PrependToFirst(a[0], ra, Split(b));
      }
    }
  }

  /** Splitting newline-free lines after joining them gives the lines back. */
  lemma {:induction false} JoinThenSplit(lines: seq<string>)
    requires |lines| > 0
    requires forall i :: 0 <= i < |lines| ==> '\n' !in lines[i]
    ensures Split(Join(lines)) == lines
    decreases |lines|
  {
    SplitWithoutNewline(lines[0]);
    if |lines| > 1 {
      JoinThenSplit(lines[1..]);
      SplitAround(lines[0], Join(lines[1..]));
      assert [lines[0]] + lines[1..] == lines;
    }
  }
}
