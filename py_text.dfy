/**
 The three Python built-ins the detector uses to recover the text of a
 source line: `str.splitlines()`, indexing into the resulting list, and
 `str.strip()`. Strings are sequences of Unicode scalar values. A Python
 `str` may also hold lone surrogates, which Dafny's `char` excludes; source
 text holding one never reaches the line lookup, since `ast.parse` fails on
 it with UnicodeEncodeError, which analyze_code reports as a Parse Error.
 */
module PyText {

  datatype Option<+T> = None | Some(value: T)

  /** `str.isspace()` for one character: the Unicode whitespace set Python uses. */
  predicate IsSpace(c: char) {
    var n := c as int;
    (0x09 <= n <= 0x0D) || (0x1C <= n <= 0x20) || n == 0x85 || n == 0xA0 ||
    n == 0x1680 || (0x2000 <= n <= 0x200A) || n == 0x2028 || n == 0x2029 ||
    n == 0x202F || n == 0x205F || n == 0x3000
  }

  /** The characters `str.splitlines()` treats as line boundaries ("\r\n" is one boundary). */
  predicate IsLineBreak(c: char) {
    var n := c as int;
    n == 0x0A || n == 0x0B || n == 0x0C || n == 0x0D || n == 0x1C || n == 0x1D ||
    n == 0x1E || n == 0x85 || n == 0x2028 || n == 0x2029
  }

  predicate AllSpace(s: string) {
    forall k :: 0 <= k < |s| ==> IsSpace(s[k])
  }

  predicate NoLineBreak(s: string) {
    forall k :: 0 <= k < |s| ==> !IsLineBreak(s[k])
  }

  // ---------------------------------------------------------------------
  // str.strip()
  // ---------------------------------------------------------------------

  lemma AllSpaceAppend(a: string, b: string)
    ensures AllSpace(a + b) <==> AllSpace(a) && AllSpace(b)
  {
    if AllSpace(a) && AllSpace(b) {
      forall k | 0 <= k < |a + b| ensures IsSpace((a + b)[k]) {
        if k < |a| { assert (a + b)[k] == a[k]; } else { assert (a + b)[k] == b[k - |a|]; }
      }
    }
    if AllSpace(a + b) {
      forall k | 0 <= k < |a| ensures IsSpace(a[k]) { assert (a + b)[k] == a[k]; }
      forall k | 0 <= k < |b| ensures IsSpace(b[k]) { assert (a + b)[|a| + k] == b[k]; }
    }
  }

  /** `s.lstrip()`: a suffix of s that does not start with whitespace. */
  function TrimStart(s: string): (r: string)
    ensures |r| <= |s| && r == s[|s| - |r|..]
    ensures r != [] ==> !IsSpace(r[0])
  {
    if s != [] && IsSpace(s[0]) then TrimStart(s[1..]) else s
  }

  /** What `s.lstrip()` drops is whitespace only. */
  lemma {:induction false} TrimStartDropsSpace(s: string)
    ensures AllSpace(s[..|s| - |TrimStart(s)|])
  {
    if s != [] && IsSpace(s[0]) {
      var r := TrimStart(s[1..]);
      TrimStartDropsSpace(s[1..]);
      assert s[..|s| - |r|] == [s[0]] + s[1..][..|s| - 1 - |r|];
      AllSpaceAppend([s[0]], s[1..][..|s| - 1 - |r|]);
    }
  }

  /** `s.rstrip()`: a prefix of s that does not end with whitespace. */
  function TrimEnd(s: string): (r: string)
    ensures |r| <= |s| && r == s[..|r|]
    ensures r != [] ==> !IsSpace(r[|r| - 1])
  {
    if s != [] && IsSpace(s[|s| - 1]) then TrimEnd(s[..|s| - 1]) else s
  }

  /** What `s.rstrip()` drops is whitespace only. */
  lemma {:induction false} TrimEndDropsSpace(s: string)
    ensures AllSpace(s[|TrimEnd(s)|..])
  {
    if s != [] && IsSpace(s[|s| - 1]) {
      var r := TrimEnd(s[..|s| - 1]);
      TrimEndDropsSpace(s[..|s| - 1]);
      assert s[|r|..] == s[..|s| - 1][|r|..] + [s[|s| - 1]];
      AllSpaceAppend(s[..|s| - 1][|r|..], [s[|s| - 1]]);
    }
  }

  /** Slicing a suffix of s is slicing s further along. */
  lemma SliceOfSuffix(s: string, i: nat, j: nat)
    requires i + j <= |s|
    ensures s[i..][..j] == s[i..i + j]
    ensures s[i..][j..] == s[i + j..]
  {
  }

  /** `s.strip()`: whitespace removed from both ends. */
  function Strip(s: string): (r: string)
    ensures |r| <= |s|
    ensures r != [] ==> !IsSpace(r[0]) && !IsSpace(r[|r| - 1])
  {
    TrimEnd(TrimStart(s))
  }

  /**
   What `s.strip()` returns is the infix of `s` left after removing
   whitespace from both ends: it neither starts nor ends with whitespace,
   and what was cut off on either side is all whitespace.
   */
  lemma StripFacts(s: string)
    ensures var r := Strip(s);
            && (r != [] ==> !IsSpace(r[0]) && !IsSpace(r[|r| - 1]))
            && exists i :: 0 <= i <= |s| - |r| && r == s[i..i + |r|] && AllSpace(s[..i]) && AllSpace(s[i + |r|..])
  {
    var i := StripInfix(s);
  }

  lemma StripInfix(s: string) returns (i: nat)
    ensures var r := Strip(s);
            i + |r| <= |s| && r == s[i..i + |r|] && AllSpace(s[..i]) && AllSpace(s[i + |r|..])
  {
    var t := TrimStart(s);
    var r := TrimEnd(t);
    i := |s| - |t|;
    TrimStartDropsSpace(s);
    TrimEndDropsSpace(t);
    PrefixOfSuffix(s, i, t, r);
  }

  /**
   r, a prefix of the suffix t = s[i..] that is followed by whitespace in t,
   is an infix of s followed by whitespace; a non-space start of t is one of r.
   */
  lemma PrefixOfSuffix(s: string, i: nat, t: string, r: string)
    requires i <= |s| && t == s[i..]
    requires |r| <= |t| && r == t[..|r|] && AllSpace(t[|r|..])
    requires t != [] ==> !IsSpace(t[0])
    ensures i + |r| <= |s| && r == s[i..i + |r|] && AllSpace(s[i + |r|..])
    ensures r != [] ==> !IsSpace(r[0])
  {
    SliceOfSuffix(s, i, |r|);
    if r != [] { assert r[0] == t[0]; }
  }

  /** Where the leading whitespace ends, TrimStart starts. */
  lemma {:induction false} TrimStartAt(s: string, i: nat)
    requires i <= |s| && AllSpace(s[..i])
    requires i < |s| ==> !IsSpace(s[i])
    ensures TrimStart(s) == s[i..]
  {
    if i > 0 {
      assert s[..i][0] == s[0];
      assert s[1..][..i - 1] == s[..i][1..];
      TrimStartAt(s[1..], i - 1);
      assert s[1..][i - 1..] == s[i..];
    }
  }

  /** Where the trailing whitespace starts, TrimEnd ends. */
  lemma {:induction false} TrimEndAt(s: string, j: nat)
    requires j <= |s| && AllSpace(s[j..])
    requires 0 < j ==> !IsSpace(s[j - 1])
    ensures TrimEnd(s) == s[..j]
  {
    if j < |s| {
      assert s[j..][|s| - 1 - j] == s[|s| - 1];
      var s' := s[..|s| - 1];
      assert forall k :: 0 <= k < |s'| - j ==> s'[j..][k] == s[j..][k];
      assert 0 < j ==> s'[j - 1] == s[j - 1];
      TrimEndAt(s', j);
      assert s'[..j] == s[..j];
    }
  }

  lemma TrimEndOfSuffix(s: string, i: nat, j: nat)
    requires i < j <= |s|
    requires AllSpace(s[j..]) && !IsSpace(s[j - 1])
    ensures TrimEnd(s[i..]) == s[i..j]
  {
    var t := s[i..];
    SliceOfSuffix(s, i, j - i);
    assert t[j - i - 1] == s[j - 1];
    TrimEndAt(t, j - i);
  }

  /**
   The characterisation in Strip's contract has exactly one solution: any
   split of `s` into whitespace, a core that starts and ends with a
   non-space character (or is empty), and whitespace, has Strip(s) as its core.
   */
  lemma StripUnique(s: string, i: nat, j: nat)
    requires i <= j <= |s|
    requires AllSpace(s[..i]) && AllSpace(s[j..])
    requires i < j ==> !IsSpace(s[i]) && !IsSpace(s[j - 1])
    ensures Strip(s) == s[i..j]
  {
    if i == j {
      assert s[..|s|] == s == s[..i] + s[j..];
      AllSpaceAppend(s[..i], s[j..]);
      TrimStartAt(s, |s|);
    } else {
      var t := s[i..];
      TrimStartAt(s, i);
      TrimEndOfSuffix(s, i, j);
      assert Strip(s) == TrimEnd(t);
    }
  }

  // ---------------------------------------------------------------------
  // str.splitlines()
  // ---------------------------------------------------------------------

  /** Index of the first line boundary in `s`, or |s| when there is none. */
  function BreakIndex(s: string): (i: nat)
    ensures i <= |s| && NoLineBreak(s[..i])
    ensures i < |s| ==> IsLineBreak(s[i])
  {
    if s == [] || IsLineBreak(s[0]) then 0
    else
      var j := BreakIndex(s[1..]);
      assert s[..1 + j] == [s[0]] + s[1..][..j];
      1 + j
  }

  /**
   `s.splitlines()`: the lines of `s` without their terminators. A
   terminator at the very end does not open a further empty line, so the
   empty string has no lines at all and "\n" has one empty line.
   */
  function SplitLines(s: string): (lines: seq<string>)
    ensures lines == [] <==> s == []
    decreases |s|
  {
    if s == [] then []
    else
      var i := BreakIndex(s);
      if i == |s| then [s]
      else
        var next := if s[i] == '\r' && i + 1 < |s| && s[i + 1] == '\n' then i + 2 else i + 1;
        [s[..i]] + SplitLines(s[next..])
  }

  /** No line that `s.splitlines()` returns holds a line boundary. */
  lemma {:induction false} SplitLinesNoBreak(s: string)
    ensures forall k :: 0 <= k < |SplitLines(s)| ==> NoLineBreak(SplitLines(s)[k])
    decreases |s|
  {
    if s != [] {
      var i := BreakIndex(s);
      if i == |s| {
        assert s[..i] == s;
      } else {
        var next := if s[i] == '\r' && i + 1 < |s| && s[i + 1] == '\n' then i + 2 else i + 1;
        SplitLinesNoBreak(s[next..]);
        assert SplitLines(s) == [s[..i]] + SplitLines(s[next..]);
      }
    }
  }

  /**
   A line terminator that `str.splitlines()` recognises: "\r\n", or one of
   the ten boundary characters on its own.
   */
  predicate IsTerminator(t: string) {
    t == "\r\n" || (|t| == 1 && IsLineBreak(t[0]))
  }

  /** The inverse direction: lines glued together with the terminator t. */
  function JoinLines(lines: seq<string>, t: string): string {
    if lines == [] then ""
    else if |lines| == 1 then lines[0]
    else lines[0] + t + JoinLines(lines[1..], t)
  }

  /** Text that does not start with "\n", so that a "\r" before it ends a line on its own. */
  predicate NoLeadingNewline(s: string) {
    s == [] || s[0] != '\n'
  }

  /** Lines without boundaries, joined with "\r", do not start with "\n". */
  lemma JoinLinesNoLeadingNewline(lines: seq<string>, t: string)
    requires forall line :: line in lines ==> NoLineBreak(line)
    requires t == "\r"
    ensures NoLeadingNewline(JoinLines(lines, t))
  {
    if lines != [] {
      assert lines[0] in lines;
      if lines[0] != [] {
        assert JoinLines(lines, t)[0] == lines[0][0];
        assert !IsLineBreak(lines[0][0]);
      } else if |lines| > 1 {
        assert JoinLines(lines, t)[0] == t[0];
      }
    }
  }

  lemma {:induction false} BreakIndexAt(a: string, b: string)
    requires NoLineBreak(a)
    requires b == [] || IsLineBreak(b[0])
    ensures BreakIndex(a + b) == |a|
  {
    if a == [] {
      assert a + b == b;
    } else {
      assert (a + b)[0] == a[0] && (a + b)[1..] == a[1..] + b;
      BreakIndexAt(a[1..], b);
    }
  }

  /**
   A line without boundaries followed by a terminator is the first line of
   what it starts. "\r\n" counts as one terminator, so a lone "\r" needs a
   rest that does not start with "\n".
   */
  lemma SplitLinesCons(line: string, t: string, rest: string)
    requires NoLineBreak(line) && IsTerminator(t)
    requires t == "\r" ==> NoLeadingNewline(rest)
    ensures SplitLines(line + t + rest) == [line] + SplitLines(rest)
  {
    var s := line + t + rest;
    var i := |line|;
    assert s == line + (t + rest);
    BreakIndexAt(line, t + rest);
    assert s[..i] == line;
    assert s[i] == t[0];
    if t == "\r\n" {
      assert s[i + 1] == '\n';
    } else if t == "\r" && rest != [] {
      assert s[i + 1] == rest[0];
    }
    assert s[i + |t|..] == rest;
  }

  /** A non-empty text without boundaries is one line. */
  lemma SplitLinesSingle(line: string)
    requires NoLineBreak(line) && line != []
    ensures SplitLines(line) == [line]
  {
    BreakIndexAt(line, []);
    assert line + [] == line;
  }

  /** The first of several joined lines splits off at the terminator after it. */
  lemma SplitLinesJoinStep(lines: seq<string>, t: string)
    requires forall line :: line in lines ==> NoLineBreak(line)
    requires |lines| > 1 && IsTerminator(t)
    ensures SplitLines(JoinLines(lines, t)) == [lines[0]] + SplitLines(JoinLines(lines[1..], t))
  {
    var rest := lines[1..];
    assert lines[0] in lines;
    if t == "\r" {
      assert forall line :: line in rest ==> line in lines;
      JoinLinesNoLeadingNewline(rest, t);
    }
    SplitLinesCons(lines[0], t, JoinLines(rest, t));
  }

  /**
   Splitting lines that were joined with any one terminator gives the lines
   back, provided no line holds a boundary itself and the last line is not
   empty (an empty last line would read as a trailing terminator). With
   t == "\r\n" this is a file posted with CRLF line breaks.
   */
  lemma {:induction false} SplitLinesJoinLines(lines: seq<string>, t: string)
    requires forall line :: line in lines ==> NoLineBreak(line)
    requires lines != [] ==> lines[|lines| - 1] != []
    requires IsTerminator(t)
    ensures SplitLines(JoinLines(lines, t)) == lines
  {
    if lines == [] {
    } else if |lines| == 1 {
      SplitLinesSingle(lines[0]);
    } else {
      var rest := lines[1..];
      SplitLinesJoinStep(lines, t);
      assert SplitLines(JoinLines(rest, t)) == rest by {
        assert forall line :: line in rest ==> line in lines;
        assert rest[|rest| - 1] == lines[|lines| - 1];
        SplitLinesJoinLines(rest, t);
      }
      assert lines == [lines[0]] + rest;
    }
  }

  /**
   A terminator after the last line opens no further line: a file that ends
   in a terminator has as many lines as the same file without it.
   */
  lemma {:induction false} SplitLinesTrailingBreak(lines: seq<string>, t: string)
    requires forall line :: line in lines ==> NoLineBreak(line)
    requires lines != []
    requires IsTerminator(t)
    ensures SplitLines(JoinLines(lines, t) + t) == lines
  {
    if |lines| == 1 {
      SplitLinesCons(lines[0], t, []);
      assert lines[0] + t + [] == lines[0] + t;
    } else {
      var rest := JoinLines(lines[1..], t);
      assert forall line :: line in lines[1..] ==> line in lines;
      assert SplitLines(JoinLines(lines, t) + t) == [lines[0]] + SplitLines(rest + t) by {
        assert JoinLines(lines, t) + t == lines[0] + t + (rest + t);
        assert lines[0] in lines;
        if t == "\r" {
          JoinLinesNoLeadingNewline(lines[1..], t);
          if rest != [] { assert (rest + t)[0] == rest[0]; }
        }
        SplitLinesCons(lines[0], t, rest + t);
      }
      assert SplitLines(rest + t) == lines[1..] by {
        SplitLinesTrailingBreak(lines[1..], t);
      }
      assert lines == [lines[0]] + lines[1..];
    }
  }

  // ---------------------------------------------------------------------
  // list indexing
  // ---------------------------------------------------------------------

  /**
   `xs[i]` on a Python list: a negative index counts from the end, and an
   index outside -|xs| .. |xs|-1 raises IndexError (modelled as None).
   */
  function PyIndex<T>(xs: seq<T>, i: int): (r: Option<T>)
    ensures r.Some? <==> -|xs| <= i < |xs|
    ensures 0 <= i < |xs| ==> r == Some(xs[i])
    ensures -|xs| <= i < 0 ==> r == Some(xs[|xs| + i])
  {
    if 0 <= i < |xs| then Some(xs[i])
    else if -|xs| <= i < 0 then Some(xs[|xs| + i])
    else None
  }
}
