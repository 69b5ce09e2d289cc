/**
 The string primitives the hosts-file code leans on, written out with Python's
 semantics: `str.strip()`, `str.split()` with no separator, `str.split(c)` and
 `str.splitlines()`, together with the joins that undo them.
 */
module Text {

  /** Python's `str.isspace()` for one character. */
  predicate IsSpace(c: char) {
    || c == ' '
    || ('\t' <= c <= '\r')
    || ('\U{1C}' <= c <= '\U{1F}')
    || c == '\U{85}' || c == '\U{A0}' || c == '\U{1680}'
    || ('\U{2000}' <= c <= '\U{200A}')
    || c == '\U{2028}' || c == '\U{2029}' || c == '\U{202F}' || c == '\U{205F}' || c == '\U{3000}'
  }

  /** The line boundaries recognised by Python's `str.splitlines()`. */
  predicate IsLineBreak(c: char) {
    || ('\n' <= c <= '\r')
    || ('\U{1C}' <= c <= '\U{1E}')
    || c == '\U{85}' || c == '\U{2028}' || c == '\U{2029}'
  }

  predicate NoSpace(s: string) {
    forall i :: 0 <= i < |s| ==> !IsSpace(s[i])
  }

  predicate AllSpace(s: string) {
    forall i :: 0 <= i < |s| ==> IsSpace(s[i])
  }

  predicate NoLineBreak(s: string) {
    forall i :: 0 <= i < |s| ==> !IsLineBreak(s[i])
  }

  lemma NoSpaceAppend(a: string, b: string)
    requires NoSpace(a) && NoSpace(b)
    ensures NoSpace(a + b)
  {
    assert forall i :: |a| <= i < |a + b| ==> (a + b)[i] == b[i - |a|];
  }

  /** Every line boundary is also whitespace, so a whitespace-free string is a single line. */
  lemma LineBreakIsSpace(c: char)
    ensures IsLineBreak(c) ==> IsSpace(c)
  {}

  /** Joining two non-empty lists is joining each and putting one separator between them. */
  lemma {:induction false} JoinWithAppend(sep: string, a: seq<string>, b: seq<string>)
    requires a != [] && b != []
    ensures JoinWith(sep, a + b) == JoinWith(sep, a) + sep + JoinWith(sep, b)
    decreases |a|
  {
    if |a| == 1 {
      assert (a + b)[1..] == b;
    } else {
      JoinWithAppend(sep, a[1..], b);
      assert (a + b)[1..] == a[1..] + b;
    }
  }

  /** Number of whitespace characters `s.lstrip()` removes. */
  function LeadingSpace(s: string): (n: nat)
    ensures n <= |s| && AllSpace(s[..n])
    ensures n == |s| || !IsSpace(s[n])
  {
    if s == [] || !IsSpace(s[0]) then 0 else 1 + LeadingSpace(s[1..])
  }

  /** Number of whitespace characters `s.rstrip()` removes. */
  function TrailingSpace(s: string): (n: nat)
    ensures n <= |s| && AllSpace(s[|s| - n..])
    ensures n == |s| || !IsSpace(s[|s| - n - 1])
  {
    if s == [] || !IsSpace(s[|s| - 1]) then 0 else 1 + TrailingSpace(s[..|s| - 1])
  }

  /**
   `s.strip()`: `s` without its leading run of whitespace (what `lstrip()`
   removes) and its trailing run (what `rstrip()` removes), so it is bounded by
   non-space characters; empty exactly when `s` is all whitespace.
   */
  function Strip(s: string): (r: string)
    ensures !AllSpace(s) ==> LeadingSpace(s) + TrailingSpace(s) < |s| && r == s[LeadingSpace(s)..|s| - TrailingSpace(s)]
    ensures r == [] <==> AllSpace(s)
    ensures r != [] ==> !IsSpace(r[0]) && !IsSpace(r[|r| - 1])
    ensures |r| <= |s|
  {
    if AllSpace(s) then []
    else
      StripBounds(s);
      s[LeadingSpace(s)..|s| - TrailingSpace(s)]
  }

  /** Unless `s` is all whitespace, its leading and trailing runs do not meet. */
  lemma StripBounds(s: string)
    requires !AllSpace(s)
    ensures LeadingSpace(s) + TrailingSpace(s) < |s|
  {
    hide LeadingSpace, TrailingSpace, AllSpace, IsSpace;
    var a := LeadingSpace(s);
    var b := TrailingSpace(s);
    assert s[..|s|] == s;
    if a == |s| {
      assert false;
    }
    if a + b >= |s| {
      assert s[|s| - b..][a - (|s| - b)] == s[a];
      SpaceAt(s[|s| - b..], a - (|s| - b));
      assert false;
    }
  }

  /** Every character of an all-whitespace string is whitespace. */
  lemma SpaceAt(s: string, i: nat)
    requires AllSpace(s) && i < |s|
    ensures IsSpace(s[i])
  {}

  /** A string already bounded by non-space characters is left alone by `strip()`. */
  lemma StripNoop(s: string)
    requires s == [] || (!IsSpace(s[0]) && !IsSpace(s[|s| - 1]))
    ensures Strip(s) == s
  {
    if s != [] {
      assert LeadingSpace(s) == 0;
      assert TrailingSpace(s) == 0;
    }
  }

  /** `strip()` only removes characters, so it cannot introduce a line break. */
  lemma StripKeepsNoLineBreak(s: string)
    requires NoLineBreak(s)
    ensures NoLineBreak(Strip(s))
  {
    var a := LeadingSpace(s);
    var t := s[a..];
    var r := t[..|t| - TrailingSpace(t)];
    assert forall i :: 0 <= i < |r| ==> r[i] == s[a + i];
  }

  /** Length of the maximal whitespace-free prefix. */
  function TokenLength(s: string): (n: nat)
    ensures n <= |s| && NoSpace(s[..n])
    ensures n == |s| || IsSpace(s[n])
  {
    if s == [] || IsSpace(s[0]) then 0 else 1 + TokenLength(s[1..])
  }

  /**
   `s.split()`: the maximal runs of non-space characters, in order. No token is
   empty or holds whitespace; the list is empty exactly when `s` is blank.
   */
  function Split(s: string): (r: seq<string>)
    ensures forall i :: 0 <= i < |r| ==> r[i] != [] && NoSpace(r[i])
    ensures r == [] <==> AllSpace(s)
    decreases |s|
  {
    if s == [] then []
    else if IsSpace(s[0]) then
      assert AllSpace(s) <==> AllSpace(s[1..]) by {
        assert forall i :: 1 <= i < |s| ==> s[i] == s[1..][i - 1];
      }
      Split(s[1..])
    else
      var n := TokenLength(s);
      [s[..n]] + Split(s[n..])
  }

  /** `s.strip()` keeps the text from the first visible character on. */
  lemma StripStart(s: string)
    requires !AllSpace(s)
    ensures LeadingSpace(s) < |s| && Strip(s)[0] == s[LeadingSpace(s)]
  {
    assert s[..|s|] == s;
  }

  /** The first word of `s.split()` also starts at the first visible character. */
  lemma {:induction false} SplitStart(s: string)
    requires !AllSpace(s)
    ensures LeadingSpace(s) < |s| && Split(s)[0][0] == s[LeadingSpace(s)]
    decreases |s|
  {
    if IsSpace(s[0]) {
      assert !AllSpace(s[1..]) by {
        var i :| 0 <= i < |s| && !IsSpace(s[i]);
        assert s[1..][i - 1] == s[i];
      }
      SplitStart(s[1..]);
      assert s[1..][LeadingSpace(s[1..])] == s[LeadingSpace(s)];
    }
  }

  /** The non-space characters of `s`, in order. */
  function Visible(s: string): string
  {
    if s == [] then [] else (if IsSpace(s[0]) then [] else [s[0]]) + Visible(s[1..])
  }

  /** Concatenation of a list of strings. */
  function Concat(parts: seq<string>): string
  {
    if parts == [] then [] else parts[0] + Concat(parts[1..])
  }

  /** `sep.join(parts)`. */
  function JoinWith(sep: string, parts: seq<string>): string
  {
    if |parts| == 0 then []
    else if |parts| == 1 then parts[0]
    else parts[0] + sep + JoinWith(sep, parts[1..])
  }

  lemma {:induction false} VisibleAppend(a: string, b: string)
    ensures Visible(a + b) == Visible(a) + Visible(b)
    decreases |a|
  {
    if a == [] {
      assert a + b == b;
    } else {
      assert (a + b)[1..] == a[1..] + b;
      VisibleAppend(a[1..], b);
    }
  }

  lemma {:induction false} VisibleOfSpaces(s: string)
    requires AllSpace(s)
    ensures Visible(s) == []
    decreases |s|
  {
    if s != [] {
      VisibleOfSpaces(s[1..]);
    }
  }

  lemma {:induction false} VisibleOfToken(s: string)
    requires NoSpace(s)
    ensures Visible(s) == s
    decreases |s|
  {
    if s != [] {
      VisibleOfToken(s[1..]);
      assert [s[0]] + s[1..] == s;
    }
  }

  /** `split()` loses only whitespace: gluing the tokens back gives every other character, in order. */
  lemma {:induction false} SplitKeepsEveryVisible(s: string)
    ensures Concat(Split(s)) == Visible(s)
    decreases |s|
  {
    if s != [] {
      if IsSpace(s[0]) {
        SplitKeepsEveryVisible(s[1..]);
      } else {
        var n := TokenLength(s);
        assert s == s[..n] + s[n..];
        VisibleAppend(s[..n], s[n..]);
        VisibleOfToken(s[..n]);
        SplitKeepsEveryVisible(s[n..]);
        var r := [s[..n]] + Split(s[n..]);
        assert r[1..] == Split(s[n..]);
      }
    }
  }

  lemma {:induction false} TokenLengthOf(x: string, rest: string)
    requires NoSpace(x)
    requires rest == [] || IsSpace(rest[0])
    ensures TokenLength(x + rest) == |x|
    decreases |x|
  {
    if x != [] {
      assert (x + rest)[1..] == x[1..] + rest;
      TokenLengthOf(x[1..], rest);
    } else {
      assert x + rest == rest;
    }
  }

  /** One token followed by a separator is split off intact. */
  lemma SplitCons(x: string, c: char, rest: string)
    requires x != [] && NoSpace(x) && IsSpace(c)
    ensures Split(x + [c] + rest) == [x] + Split(rest)
  {
    var s := x + [c] + rest;
    TokenLengthOf(x, [c] + rest);
    assert s == x + ([c] + rest);
    assert s[..|x|] == x;
    assert s[|x|..] == [c] + rest;
    assert ([c] + rest)[1..] == rest;
  }

  /** A single token is split into itself. */
  lemma SplitToken(x: string)
    requires x != [] && NoSpace(x)
    ensures Split(x) == [x]
  {
    TokenLengthOf(x, []);
    assert x + [] == x;
    assert x[..|x|] == x;
    assert x[|x|..] == [];
  }

  /** `split()` undoes a join on a whitespace character, for non-empty whitespace-free tokens. */
  lemma {:induction false} SplitJoin(c: char, tokens: seq<string>)
    requires IsSpace(c)
    requires forall i :: 0 <= i < |tokens| ==> tokens[i] != [] && NoSpace(tokens[i])
    ensures Split(JoinWith([c], tokens)) == tokens
    decreases |tokens|
  {
    if |tokens| == 0 {
    } else if |tokens| == 1 {
      SplitToken(tokens[0]);
    } else {
      SplitJoin(c, tokens[1..]);
      SplitCons(tokens[0], c, JoinWith([c], tokens[1..]));
      assert tokens[0] + [c] + JoinWith([c], tokens[1..]) == JoinWith([c], tokens);
      assert [tokens[0]] + tokens[1..] == tokens;
    }
  }

  /** The last character of a join is the last character of the last part. */
  lemma {:induction false} JoinWithLast(sep: string, parts: seq<string>)
    requires |parts| > 0 && parts[|parts| - 1] != []
    ensures JoinWith(sep, parts) != []
    ensures JoinWith(sep, parts)[|JoinWith(sep, parts)| - 1] == parts[|parts| - 1][|parts[|parts| - 1]| - 1]
    decreases |parts|
  {
    if |parts| > 1 {
      JoinWithLast(sep, parts[1..]);
    }
  }

  /** Every character of a join comes from a part or from the separator. */
  lemma {:induction false} JoinWithChars(sep: string, parts: seq<string>, p: char -> bool)
    requires forall i :: 0 <= i < |sep| ==> p(sep[i])
    requires forall j, i :: 0 <= j < |parts| && 0 <= i < |parts[j]| ==> p(parts[j][i])
    ensures forall i :: 0 <= i < |JoinWith(sep, parts)| ==> p(JoinWith(sep, parts)[i])
    decreases |parts|
  {
    if |parts| > 1 {
      JoinWithChars(sep, parts[1..], p);
      var rest := JoinWith(sep, parts[1..]);
      var s := parts[0] + sep + rest;
      forall i | 0 <= i < |s|
        ensures p(s[i])
      {
        if i < |parts[0]| {
          assert s[i] == parts[0][i];
        } else if i < |parts[0]| + |sep| {
          assert s[i] == sep[i - |parts[0]|];
        } else {
          assert s[i] == rest[i - |parts[0]| - |sep|];
        }
      }
    }
  }

  /** Index of the first `c` in `s`, or `|s|`. */
  function IndexOf(s: string, c: char): (n: nat)
    ensures n <= |s|
    ensures forall i :: 0 <= i < n ==> s[i] != c
    ensures n < |s| ==> s[n] == c
    ensures c !in s[..n]
  {
    if s == [] then 0 else if s[0] == c then 0 else 1 + IndexOf(s[1..], c)
  }

  /**
   `s.split(c)`: the pieces between occurrences of `c`. There is always at least
   one piece, no piece contains `c`, and joining the pieces on `c` rebuilds `s`.
   */
  function SplitOn(s: string, c: char): (r: seq<string>)
    ensures |r| >= 1
    ensures c !in s ==> r == [s]
    ensures forall i :: 0 <= i < |r| ==> c !in r[i]
    ensures JoinWith([c], r) == s
    decreases |s|
  {
    var n := IndexOf(s, c);
    if n == |s| then
      assert s[..n] == s;
      [s]
    else
      var head := s[..n];
      var rest := SplitOn(s[n + 1..], c);
      PiecesCons(c, head, rest);
      assert s == head + [c] + s[n + 1..];
      [head] + rest
  }

  /** Putting a piece without `c` in front of a split keeps every piece free of `c`. */
  lemma PiecesCons(c: char, head: string, rest: seq<string>)
    requires c !in head && |rest| >= 1
    requires forall i :: 0 <= i < |rest| ==> c !in rest[i]
    ensures forall i :: 0 <= i < |[head] + rest| ==> c !in ([head] + rest)[i]
    ensures JoinWith([c], [head] + rest) == head + [c] + JoinWith([c], rest)
  {
    var r := [head] + rest;
    assert r[0] == head && r[1..] == rest;
    forall i | 0 <= i < |r|
      ensures c !in r[i]
    {
      if i > 0 {
        assert r[i] == rest[i - 1];
      }
    }
  }

  /** `split(c)` undoes a join on `c` when no part contains `c`. */
  lemma {:induction false} SplitOnJoin(c: char, parts: seq<string>)
    requires |parts| >= 1
    requires forall i :: 0 <= i < |parts| ==> c !in parts[i]
    ensures SplitOn(JoinWith([c], parts), c) == parts
    decreases |parts|
  {
    var s := JoinWith([c], parts);
    if |parts| == 1 {
      assert IndexOf(s, c) == |s|;
    } else {
      var rest := JoinWith([c], parts[1..]);
      assert s == parts[0] + [c] + rest;
      IndexOfAfter(parts[0], c, rest);
      assert s[..|parts[0]|] == parts[0];
      assert s[|parts[0]| + 1..] == rest;
      SplitOnJoin(c, parts[1..]);
      assert [parts[0]] + parts[1..] == parts;
    }
  }

  lemma IndexOfAfter(x: string, c: char, rest: string)
    requires c !in x
    ensures IndexOf(x + [c] + rest, c) == |x|
  {
    var s := x + [c] + rest;
    assert s[|x|] == c;
    assert forall i :: 0 <= i < |x| ==> s[i] == x[i];
  }

  /** Length of the longest prefix without a line boundary. */
  function LineLength(s: string): (n: nat)
    ensures n <= |s| && NoLineBreak(s[..n])
    ensures n == |s| || IsLineBreak(s[n])
  {
    if s == [] || IsLineBreak(s[0]) then 0 else 1 + LineLength(s[1..])
  }

  /**
   `s.splitlines()`: the lines of `s` without their terminators, where `"\r\n"`
   counts as one terminator and a final terminator does not start a new line.
   */
  function SplitLines(s: string): (r: seq<string>)
    ensures forall i :: 0 <= i < |r| ==> NoLineBreak(r[i])
    ensures r == [] <==> s == []
    decreases |s|
  {
    if s == [] then []
    else
      var n := LineLength(s);
      if n == |s| then
        assert s[..n] == s;
        [s]
      else
        var next := if s[n] == '\r' && n + 1 < |s| && s[n + 1] == '\n' then n + 2 else n + 1;
        [s[..n]] + SplitLines(s[next..])
  }

  /** The text of a list of lines, each one followed by a newline (what a file writer produces). */
  function Lines(ls: seq<string>): string
  {
    if ls == [] then [] else ls[0] + "\n" + Lines(ls[1..])
  }

  lemma {:induction false} LineLengthOf(x: string, rest: string)
    requires NoLineBreak(x)
    requires rest == [] || IsLineBreak(rest[0])
    ensures LineLength(x + rest) == |x|
    decreases |x|
  {
    if x != [] {
      assert (x + rest)[1..] == x[1..] + rest;
      LineLengthOf(x[1..], rest);
    } else {
      assert x + rest == rest;
    }
  }

  /** A single non-empty line without a terminator splits into itself. */
  lemma SplitLinesOfLine(s: string)
    requires s != [] && NoLineBreak(s)
    ensures SplitLines(s) == [s]
  {
    LineLengthOf(s, []);
    assert s + [] == s;
  }

  /** `splitlines()` recovers the lines of newline-terminated text, so a final newline adds no empty line. */
  lemma {:induction false} SplitLinesOfLines(ls: seq<string>)
    requires forall i :: 0 <= i < |ls| ==> NoLineBreak(ls[i])
    ensures SplitLines(Lines(ls)) == ls
    decreases |ls|
  {
    if ls != [] {
      var rest := Lines(ls[1..]);
      var s := ls[0] + "\n" + rest;
      assert s == ls[0] + ("\n" + rest);
      LineLengthOf(ls[0], "\n" + rest);
      assert s[|ls[0]|] == '\n';
      assert s[..|ls[0]|] == ls[0];
      assert s[|ls[0]| + 1..] == rest;
      SplitLinesOfLines(ls[1..]);
      assert [ls[0]] + ls[1..] == ls;
    }
  }
}
