/** The parts of Python's `str` the pipeline relies on, restricted to ASCII:
    `isspace`, `lower`, `capitalize`, `strip`, `split`, `splitlines`,
    `startswith`, `endswith`, `in` and `replace`. */
module Strings {

  /** `c.isspace()` for the ASCII range: space, \t \n \v \f \r and the
      separators 0x1c-0x1f. */
  predicate IsSpace(c: char)
  {
    c == ' ' || (9 <= c as int <= 13) || (28 <= c as int <= 31)
  }

  predicate IsUpper(c: char) { 'A' <= c <= 'Z' }

  predicate IsLower(c: char) { 'a' <= c <= 'z' }

  function ToLower(c: char): (d: char)
    ensures !IsUpper(d)
    ensures IsSpace(d) == IsSpace(c)
    ensures !IsUpper(c) ==> d == c
  {
    if IsUpper(c) then (c as int + 32) as char else c
  }

  function ToUpper(c: char): (d: char)
    ensures !IsLower(d)
    ensures IsSpace(d) == IsSpace(c)
    ensures !IsLower(c) ==> d == c
  {
    if IsLower(c) then (c as int - 32) as char else c
  }

  /** `s.lower()` */
  function Lower(s: string): (r: string)
    ensures |r| == |s|
    ensures forall i :: 0 <= i < |s| ==> r[i] == ToLower(s[i])
  {
    seq(|s|, i requires 0 <= i < |s| => ToLower(s[i]))
  }

  /** `s.capitalize()`: the first character upper-cased, the rest lower-cased. */
  function Capitalize(s: string): (r: string)
    ensures |r| == |s|
  {
    if s == [] then [] else [ToUpper(s[0])] + Lower(s[1..])
  }

  /** A capitalized string is left alone by `capitalize`, and case changes never
      create or remove surrounding whitespace. */
  lemma CapitalizeProperties(s: string)
    ensures Capitalize(Capitalize(s)) == Capitalize(s)
    ensures s != [] ==> IsSpace(Capitalize(s)[0]) == IsSpace(s[0])
    ensures s != [] ==> IsSpace(Capitalize(s)[|s| - 1]) == IsSpace(s[|s| - 1])
  {
    if s != [] {
      var c := Capitalize(s);
      assert c[1..] == Lower(s[1..]);
      assert Lower(c[1..]) == c[1..];
    }
  }

  predicate StartsWith(s: string, prefix: string)
  {
    |prefix| <= |s| && s[..|prefix|] == prefix
  }

  predicate EndsWith(s: string, suffix: string)
  {
    |suffix| <= |s| && s[|s| - |suffix|..] == suffix
  }

  /** `sub in s` */
  predicate Contains(s: string, sub: string)
    decreases |s|
  {
    StartsWith(s, sub) || (s != [] && Contains(s[1..], sub))
  }

  /** `s.replace(pat, rep)`: every non-overlapping occurrence of `pat`, found
      left to right, is replaced. */
  function ReplaceAll(s: string, pat: string, rep: string): (r: string)
    requires pat != []
    decreases |s|
  {
    if s == [] then []
    else if StartsWith(s, pat) then rep + ReplaceAll(s[|pat|..], pat, rep)
    else [s[0]] + ReplaceAll(s[1..], pat, rep)
  }

  /** A prefix in which no occurrence of `pat` starts passes through `replace` untouched. */
  lemma {:induction false} ReplaceAllKeepsPrefix(p: string, t: string, pat: string, rep: string)
    requires pat != []
    requires forall k :: 0 <= k < |p| ==> !StartsWith((p + t)[k..], pat)
    ensures ReplaceAll(p + t, pat, rep) == p + ReplaceAll(t, pat, rep)
  {
    if p != [] {
      assert !StartsWith((p + t)[0..], pat);
      assert (p + t)[0..] == p + t;
      assert (p + t)[1..] == p[1..] + t;
      forall k | 0 <= k < |p[1..]| ensures !StartsWith((p[1..] + t)[k..], pat) {
        assert (p[1..] + t)[k..] == (p + t)[k + 1..];
      }
      ReplaceAllKeepsPrefix(p[1..], t, pat, rep);
    }
  }

  /** A prefix in which the first character of `pat` never occurs passes
      through `replace` untouched. */
  lemma {:induction false} ReplaceAllAbsentPrefix(p: string, t: string, pat: string, rep: string)
    requires pat != [] && pat[0] !in p
    ensures ReplaceAll(p + t, pat, rep) == p + ReplaceAll(t, pat, rep)
  {
    forall k | 0 <= k < |p| ensures !StartsWith((p + t)[k..], pat) {
      assert (p + t)[k] == p[k];
    }
    ReplaceAllKeepsPrefix(p, t, pat, rep);
  }

  /** An occurrence at the front is replaced. */
  lemma ReplaceAllAtFront(t: string, pat: string, rep: string)
    requires pat != []
    ensures ReplaceAll(pat + t, pat, rep) == rep + ReplaceAll(t, pat, rep)
  {
    assert (pat + t)[..|pat|] == pat;
    assert (pat + t)[|pat|..] == t;
  }

  /** Removing occurrences of `pat` keeps every character that `pat` does not
      contain, and introduces none. */
  lemma {:induction false} RemoveAllChars(s: string, pat: string, c: char)
    requires pat != []
    ensures c in ReplaceAll(s, pat, "") ==> c in s
    ensures c in s && c !in pat ==> c in ReplaceAll(s, pat, "")
  {
    if s != [] {
      if StartsWith(s, pat) {
        RemoveAllChars(s[|pat|..], pat, c);
        assert s == s[..|pat|] + s[|pat|..];
      } else {
        RemoveAllChars(s[1..], pat, c);
        assert s == [s[0]] + s[1..];
      }
    }
  }

  /** The number of whitespace characters `s` starts with. */
  function Indent(s: string): (n: nat)
    ensures n <= |s| && (n < |s| ==> !IsSpace(s[n]))
  {
    if s != [] && IsSpace(s[0]) then 1 + Indent(s[1..]) else 0
  }

  lemma {:induction false} IndentIsSpace(s: string)
    ensures forall k :: 0 <= k < Indent(s) ==> IsSpace(s[k])
  {
    if s != [] && IsSpace(s[0]) {
      IndentIsSpace(s[1..]);
      assert forall k :: 0 < k < Indent(s) ==> s[k] == s[1..][k - 1];
    }
  }

  /** The number of whitespace characters `s` ends with. */
  function Trailing(s: string): (n: nat)
    ensures n <= |s| && (n < |s| ==> !IsSpace(s[|s| - n - 1]))
  {
    if s != [] && IsSpace(s[|s| - 1]) then 1 + Trailing(s[..|s| - 1]) else 0
  }

  lemma {:induction false} TrailingIsSpace(s: string)
    ensures forall k :: |s| - Trailing(s) <= k < |s| ==> IsSpace(s[k])
  {
    if s != [] && IsSpace(s[|s| - 1]) {
      TrailingIsSpace(s[..|s| - 1]);
    }
  }

  /** `s.strip()`: the longest whitespace prefix and suffix are removed. */
  function Strip(s: string): (r: string)
    ensures Indent(s) + |r| <= |s| && r == s[Indent(s)..Indent(s) + |r|]
    ensures forall k :: 0 <= k < Indent(s) ==> IsSpace(s[k])
    ensures forall k :: Indent(s) + |r| <= k < |s| ==> IsSpace(s[k])
    ensures r != [] ==> !IsSpace(r[0]) && !IsSpace(r[|r| - 1])
    ensures r == [] <==> forall k :: 0 <= k < |s| ==> IsSpace(s[k])
  {
    IndentIsSpace(s);
    TrailingIsSpace(s);
    var i := Indent(s);
    if i == |s| then []
    else
      var j := |s| - Trailing(s);
      assert i < j;
      s[i..j]
  }

  /** A string without surrounding whitespace is its own strip. */
  lemma StripUnchanged(s: string)
    requires s != [] && !IsSpace(s[0]) && !IsSpace(s[|s| - 1])
    ensures Strip(s) == s
  {
    assert Indent(s) == 0 && Trailing(s) == 0;
  }

  /** `s.split(sep)`; like Python, an empty string gives `[""]`. */
  function Split(s: string, sep: char): (r: seq<string>)
    ensures |r| >= 1
  {
    if s == [] then [""]
    else
      var rest := Split(s[1..], sep);
      if s[0] == sep then [""] + rest else [[s[0]] + rest[0]] + rest[1..]
  }

  /** No piece of a split contains the separator. */
  lemma {:induction false} SplitNoSeparator(s: string, sep: char)
    ensures forall piece :: piece in Split(s, sep) ==> sep !in piece
  {
    if s != [] {
      SplitNoSeparator(s[1..], sep);
    }
  }

  /** A piece without the separator, then the separator, starts the split. */
  lemma {:induction false} SplitPiece(a: string, rest: string, sep: char)
    requires sep !in a
    ensures Split(a + [sep] + rest, sep) == [a] + Split(rest, sep)
  {
    if a == [] {
      assert [] + [sep] + rest == [sep] + rest;
    } else {
      SplitPiece(a[1..], rest, sep);
      assert (a + [sep] + rest)[1..] == a[1..] + [sep] + rest;
      assert [a[0]] + a[1..] == a;
    }
  }

  /** Text without the separator is a single piece. */
  lemma {:induction false} SplitWhole(a: string, sep: char)
    requires sep !in a
    ensures Split(a, sep) == [a]
  {
    if a != [] {
      SplitWhole(a[1..], sep);
      assert [a[0]] + a[1..] == a;
    }
  }

  /** `sep.join(parts)` */
  function Join(parts: seq<string>, sep: char): string
  {
    if parts == [] then ""
    else if |parts| == 1 then parts[0]
    else parts[0] + [sep] + Join(parts[1..], sep)
  }

  lemma JoinCons(p: string, parts: seq<string>, sep: char)
    requires parts != []
    ensures Join([p] + parts, sep) == p + [sep] + Join(parts, sep)
  {
    assert ([p] + parts)[1..] == parts;
  }

  lemma JoinPrepend(c: char, parts: seq<string>, sep: char)
    requires parts != []
    ensures Join([[c] + parts[0]] + parts[1..], sep) == [c] + Join(parts, sep)
  {
    var q := [[c] + parts[0]] + parts[1..];
    if |parts| > 1 {
      assert q[1..] == parts[1..];
      assert Join(q, sep) == [c] + parts[0] + [sep] + Join(parts[1..], sep);
    }
  }

  /** Splitting and joining again gives back the original string. */
  lemma {:induction false} JoinSplit(s: string, sep: char)
    ensures Join(Split(s, sep), sep) == s
  {
    if s != [] {
      JoinSplit(s[1..], sep);
      var rest := Split(s[1..], sep);
      if s[0] == sep {
        JoinCons("", rest, sep);
      } else {
        JoinPrepend(s[0], rest, sep);
      }
      assert s == [s[0]] + s[1..];
    }
  }

  predicate IsLineBreak(c: char) { c == '\n' || c == '\r' }

  /** Index of the first line break in `s`, or `|s|` when there is none. */
  function LineEnd(s: string): (i: nat)
    ensures i <= |s| && (i < |s| ==> IsLineBreak(s[i]))
  {
    if s == [] || IsLineBreak(s[0]) then 0 else 1 + LineEnd(s[1..])
  }

  /** No break comes before `LineEnd(s)`. */
  lemma {:induction false} LineEndFirstBreak(s: string)
    ensures forall k :: 0 <= k < LineEnd(s) ==> !IsLineBreak(s[k])
  {
    if s != [] && !IsLineBreak(s[0]) {
      LineEndFirstBreak(s[1..]);
      assert forall k :: 0 < k < LineEnd(s) ==> s[k] == s[1..][k - 1];
    }
  }

  /** Where the line after the first break starts: a `\r\n` pair counts as
      one break. */
  function NextLine(s: string): (j: nat)
    requires LineEnd(s) < |s|
    ensures LineEnd(s) < j <= |s|
    ensures j == LineEnd(s) + 1 || (j == LineEnd(s) + 2 && s[LineEnd(s)] == '\r' && s[LineEnd(s) + 1] == '\n')
  {
    var i := LineEnd(s);
    if s[i] == '\r' && i + 1 < |s| && s[i + 1] == '\n' then i + 2 else i + 1
  }

  /** `s.splitlines()` for `\n`, `\r` and `\r\n` breaks: the final line is
      kept only when it is not empty. */
  function SplitLines(s: string): (r: seq<string>)
    ensures s != [] ==> |r| >= 1
    decreases |s|
  {
    if s == [] then []
    else if LineEnd(s) == |s| then [s]
    else [s[..LineEnd(s)]] + SplitLines(s[NextLine(s)..])
  }

  /** No line that `SplitLines` returns contains a line break. */
  lemma {:induction false} SplitLinesNoBreaks(s: string)
    ensures forall line, k :: line in SplitLines(s) && 0 <= k < |line| ==> !IsLineBreak(line[k])
    decreases |s|
  {
    if s != [] {
      LineEndFirstBreak(s);
      if LineEnd(s) < |s| {
        SplitLinesNoBreaks(s[NextLine(s)..]);
      }
    }
  }

  /** The line break that `s.splitlines()` drops from the end of `s`. */
  function FinalBreak(s: string): (r: string)
    ensures r == [] || (r == "\n" && s != [] && s[|s| - 1] == '\n')
  {
    if s != [] && s[|s| - 1] == '\n' then "\n" else ""
  }

  /** A `\n` break ends the first line; the rest is split on its own. */
  lemma SplitLinesAtBreak(s: string)
    requires LineEnd(s) < |s| && s[LineEnd(s)] == '\n'
    ensures SplitLines(s) == [s[..LineEnd(s)]] + SplitLines(s[LineEnd(s) + 1..])
  {
  }

  lemma JoinLinesCons(a: string, t: string, lines: seq<string>)
    requires t != [] && Join(lines, '\n') + FinalBreak(t) == t
    ensures lines != [] ==> Join([a] + lines, '\n') + FinalBreak(a + "\n" + t) == a + "\n" + t
  {
    var s := a + "\n" + t;
    assert s[|s| - 1] == t[|t| - 1];
    if lines != [] {
      JoinCons(a, lines, '\n');
    }
  }

  /** For text using `\n` only, joining the lines with `\n` restores the text,
      up to its final line break. */
  lemma {:induction false} SplitLinesJoin(s: string)
    requires forall k :: 0 <= k < |s| ==> s[k] != '\r'
    ensures Join(SplitLines(s), '\n') + FinalBreak(s) == s
    decreases |s|
  {
    if s != [] {
      var i := LineEnd(s);
      if i == |s| {
        LineEndFirstBreak(s);
        assert SplitLines(s) == [s];
      } else {
        var a, t := s[..i], s[i + 1..];
        SplitLinesAtBreak(s);
        assert s == a + "\n" + t;
        if t != [] {
          SplitLinesJoin(t);
          JoinLinesCons(a, t, SplitLines(t));
        }
      }
    }
  }

  /** The last character of `pat` followed by `pat` loses only `pat`. */
  lemma RemoveAfterLast(pat: string)
    requires |pat| >= 2 && pat[0] != pat[|pat| - 1]
    ensures ReplaceAll(pat[|pat| - 1..] + pat, pat, "") == pat[|pat| - 1..]
  {
    var last := pat[|pat| - 1..];
    assert pat[0] !in last;
    ReplaceAllAbsentPrefix(last, pat, pat, "");
    ReplaceAllAtFront([], pat, "");
    assert pat + [] == pat;
    assert last + [] == last;
  }

  /** All of `pat` but its last character, in front of an occurrence, is
      kept when the first character of `pat` does not recur in it. */
  lemma RemoveAfterHead(pat: string, mid: string)
    requires |pat| >= 2 && pat[0] !in pat[1..] && StartsWith(mid, pat)
    ensures ReplaceAll(pat[..|pat| - 1] + mid, pat, "") == pat[..|pat| - 1] + ReplaceAll(mid, pat, "")
  {
    var n := |pat| - 1;
    var head := pat[..n];
    var t := head + mid;
    assert t[n] == pat[0];
    assert pat[0] != pat[n] by { assert pat[n] in pat[1..]; }
    assert !StartsWith(t, pat);
    assert t[1..] == head[1..] + mid;
    assert pat[0] !in head[1..] by {
      forall k | 0 <= k < |head[1..]| ensures head[1..][k] != pat[0] {
        assert head[1..][k] == pat[1..][k];
      }
    }
    ReplaceAllAbsentPrefix(head[1..], mid, pat, "");
  }

  /** Removing the middle occurrence of `pat` joins the text around it into a
      new occurrence of `pat`, which the left-to-right scan does not revisit. */
  lemma RemovalRejoins(pat: string)
    requires |pat| >= 2 && pat[0] !in pat[1..]
    ensures var n := |pat| - 1;
      ReplaceAll(pat[..n] + (pat + (pat[n..] + pat)), pat, "") == pat
  {
    var n := |pat| - 1;
    var head, last := pat[..n], pat[n..];
    assert head + last == pat;
    var tail := last + pat;
    var mid := pat + tail;
    assert pat[0] != pat[n] by { assert pat[n] in pat[1..]; }
    var r1 := ReplaceAll(tail, pat, "");
    assert r1 == last by { RemoveAfterLast(pat); }
    var r2 := ReplaceAll(mid, pat, "");
    assert r2 == last by {
      ReplaceAllAtFront(tail, pat, "");
      assert "" + r1 == r1;
    }
    assert ReplaceAll(head + mid, pat, "") == head + r2 by {
      assert mid[..|pat|] == pat;
      RemoveAfterHead(pat, mid);
    }
  }
}
