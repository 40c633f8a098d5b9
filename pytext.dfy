/** The Python `str` methods the kernels rely on, with Python's semantics:
    `startswith`, `partition`, `split(sep)`, `splitlines` and slicing. */
module PyText {

  /** `s.startswith(p)`. */
  predicate StartsWith(s: string, p: string)
  {
    |p| <= |s| && s[..|p|] == p
  }

  /** `s[lo:hi]` for non-negative bounds: Python clamps both bounds to the
      length and yields "" when they cross, so slicing never fails. */
  function Slice(s: string, lo: nat, hi: nat): (r: string)
    ensures |r| <= |s|
    ensures lo <= hi <= |s| ==> r == s[lo..hi]
    ensures lo <= |s| <= hi ==> r == s[lo..]
    ensures hi <= lo || |s| <= lo ==> r == ""
  {
    var a := if lo < |s| then lo else |s|;
    var b := if hi < |s| then hi else |s|;
    if a < b then s[a..b] else ""
  }

  /** Index of the first `c` in `s`, or `|s|` when there is none. */
  function IndexOf(s: string, c: char): (k: nat)
    ensures k <= |s|
    ensures forall i :: 0 <= i < k ==> s[i] != c
    ensures k < |s| ==> s[k] == c
  {
    if s == [] then 0 else if s[0] == c then 0 else 1 + IndexOf(s[1..], c)
  }

  datatype Parts = Parts(head: string, sep: string, tail: string)

  /** `s.partition(c)`: the text before the first `c`, the separator, and the rest;
      `(s, "", "")` when `c` does not occur. */
  function Partition(s: string, c: char): (p: Parts)
    ensures p.head + p.sep + p.tail == s
    ensures c !in p.head
    ensures p.sep == [c] || (p.sep == "" && p.tail == "" && c !in s)
  {
    var k := IndexOf(s, c);
    if k == |s| then Parts(s, "", "")
    else
      assert s[..k] + [c] + s[k + 1..] == s;
      Parts(s[..k], [c], s[k + 1..])
  }

  /** `s.split(c)` for a one-character separator: every piece between two
      separators, empty pieces included, so the result is never empty. */
  function SplitOn(s: string, c: char): (pieces: seq<string>)
    ensures |pieces| >= 1
    ensures forall i :: 0 <= i < |pieces| ==> c !in pieces[i]
    ensures |pieces| == 1 ==> pieces[0] == s
    ensures c !in s ==> |pieces| == 1
  {
    if s == [] then [[]]
    else
      var t := SplitOn(s[1..], c);
      if s[0] == c then [[]] + t
      else [[s[0]] + t[0]] + t[1..]
  }

  /** `c.join(pieces)`. */
  function JoinWith(pieces: seq<string>, c: char): string
  {
    if pieces == [] then ""
    else if |pieces| == 1 then pieces[0]
    else pieces[0] + [c] + JoinWith(pieces[1..], c)
  }

  /** Splitting and joining again with the same separator gives the text back. */
  lemma {:induction false} JoinSplit(s: string, c: char)
    ensures JoinWith(SplitOn(s, c), c) == s
  {
    if s != [] {
      var t := SplitOn(s[1..], c);
      JoinSplit(s[1..], c);
      if s[0] == c {
        assert ([[]] + t)[1..] == t;
      } else {
        JoinExtendFirst(s[0], t, c);
      }
    }
  }

  /** Putting a character in front of the first piece puts it in front of the joined text. */
  lemma JoinExtendFirst(x: char, t: seq<string>, c: char)
    requires |t| >= 1
    ensures JoinWith([[x] + t[0]] + t[1..], c) == [x] + JoinWith(t, c)
  {
    var u := [[x] + t[0]] + t[1..];
    assert u[1..] == t[1..];
  }

  /** `s.split(c)[-1]`. */
  function LastField(s: string, c: char): string
  {
    var pieces := SplitOn(s, c);
    pieces[|pieces| - 1]
  }

  /** The last field is the text after the last `c`: a suffix of `s` free of
      `c`, preceded by `c` unless it is all of `s`. */
  lemma {:induction false} LastFieldIsTail(s: string, c: char)
    ensures var r := LastField(s, c);
      |r| <= |s| && r == s[|s| - |r|..] && c !in r &&
      (|r| < |s| ==> s[|s| - |r| - 1] == c)
  {
    if s != [] {
      LastFieldCons(s, c);
      if s[0] == c || c in s[1..] {
        LastFieldIsTail(s[1..], c);
        var r := LastField(s[1..], c);
        assert s[1..][|s| - 1 - |r|..] == s[|s| - |r|..];
        if |r| == |s| - 1 {
          assert s[|s| - |r| - 1] == s[0];
          assert c !in s[1..];
        } else {
          assert s[|s| - |r| - 1] == s[1..][|s| - 1 - |r| - 1];
        }
      }
    }
  }

  /** The last field of a non-empty text is the last field of its tail,
      unless the text has no separator at all. */
  lemma LastFieldCons(s: string, c: char)
    requires s != []
    ensures LastField(s, c) == (if s[0] == c || c in s[1..] then LastField(s[1..], c) else s)
  {
    var t := SplitOn(s[1..], c);
    if s[0] != c {
      var u := [[s[0]] + t[0]] + t[1..];
      if |t| == 1 {
        assert u[|u| - 1] == [s[0]] + s[1..] == s;
      } else {
        assert c in s[1..];
        assert u[|u| - 1] == t[|t| - 1];
      }
    }
  }

  /** The line boundaries `bytes.splitlines()` recognises. */
  predicate IsBreak(c: char) { c == '\n' || c == '\r' }

  /** Index of the first line boundary in `s`, or `|s|`. */
  function LineEnd(s: string): (k: nat)
    ensures k <= |s|
    ensures forall i :: 0 <= i < k ==> !IsBreak(s[i])
    ensures k < |s| ==> IsBreak(s[k])
  {
    if s == [] || IsBreak(s[0]) then 0 else 1 + LineEnd(s[1..])
  }

  /** Where the text after the first line starts: past its boundary, where
      `\r\n` is one boundary of two characters. */
  function LineNext(s: string): (n: nat)
    ensures s != [] ==> LineEnd(s) < n <= |s| || LineEnd(s) == n == |s|
    ensures n <= |s|
  {
    var k := LineEnd(s);
    if k < |s| && s[k] == '\r' && k + 1 < |s| && s[k + 1] == '\n' then k + 2
    else if k < |s| then k + 1 else k
  }

  /** `s.splitlines()`: the lines between boundaries, where `\r\n` counts as one
      boundary and a final boundary does not start an empty last line. */
  function SplitLines(s: string): (lines: seq<string>)
    ensures forall i, j :: 0 <= i < |lines| && 0 <= j < |lines[i]| ==> !IsBreak(lines[i][j])
    ensures s == [] <==> lines == []
    decreases |s|
  {
    if s == [] then [] else [s[..LineEnd(s)]] + SplitLines(s[LineNext(s)..])
  }

  /** Each line followed by a newline, concatenated. */
  function Terminated(lines: seq<string>): string
  {
    if lines == [] then "" else lines[0] + "\n" + Terminated(lines[1..])
  }

  /** Lines free of boundaries survive being written one per line and split again. */
  lemma {:induction false} SplitTerminated(lines: seq<string>)
    requires forall i, j :: 0 <= i < |lines| && 0 <= j < |lines[i]| ==> !IsBreak(lines[i][j])
    ensures SplitLines(Terminated(lines)) == lines
  {
    if lines != [] {
      SplitFirstLine(lines[0], Terminated(lines[1..]));
      SplitTerminated(lines[1..]);
    }
  }

  /** A boundary-free line followed by a newline is split off as the first line. */
  lemma SplitFirstLine(l: string, rest: string)
    requires forall j :: 0 <= j < |l| ==> !IsBreak(l[j])
    ensures SplitLines(l + "\n" + rest) == [l] + SplitLines(rest)
  {
    var s := l + "\n" + rest;
    assert s == l + ("\n" + rest);
    LineEndAt(l, "\n" + rest);
    assert s[..|l|] == l;
    assert s[|l| + 1..] == rest;
  }

  /** The text with every line boundary written as a single `\n`: `\r\n`
      and a lone `\r` both become `\n`. */
  function Newlines(s: string): string
    decreases |s|
  {
    if s == [] then []
    else if s[0] == '\r' && |s| > 1 && s[1] == '\n' then "\n" + Newlines(s[2..])
    else if s[0] == '\r' then "\n" + Newlines(s[1..])
    else [s[0]] + Newlines(s[1..])
  }

  /** A text without `\r` is its own normal form. */
  lemma {:induction false} NewlinesPlain(s: string)
    requires '\r' !in s
    ensures Newlines(s) == s
    decreases |s|
  {
    if s != [] {
      assert s == [s[0]] + s[1..];
      NewlinesPlain(s[1..]);
    }
  }

  /** A text that is empty or ends in a newline, as it is; otherwise with one added. */
  function Closed(t: string): string
  {
    if t == [] || t[|t| - 1] == '\n' then t else t + "\n"
  }

  /** What `splitlines` returns, for every text: written back one per line,
      the lines give the text with its boundaries as newlines and a newline
      closing the last line. With SplitTerminated, this fixes the lines. */
  lemma {:induction false} SplitLinesMeaning(s: string)
    ensures Terminated(SplitLines(s)) == Closed(Newlines(s))
    decreases |s|
  {
    if s != [] && LineEnd(s) == |s| {
      SplitOneLine(s);
    } else if s != [] {
      var k, rest := LineEnd(s), s[LineNext(s)..];
      SplitLinesMeaning(rest);
      SplitFirstOfMany(s);
    }
  }

  /** For a text without `\r`: the lines, written back one per line, are the
      text itself with a newline added unless it already ends in one. */
  lemma SplitLinesPlain(s: string)
    requires '\r' !in s
    ensures Terminated(SplitLines(s)) == (if s == [] || s[|s| - 1] == '\n' then s else s + "\n")
  {
    SplitLinesMeaning(s);
    NewlinesPlain(s);
  }

  /** The lines of `splitlines` are the only boundary-free lines that write
      back to the text's normal form. */
  lemma SplitLinesUnique(s: string, lines: seq<string>)
    requires forall i, j :: 0 <= i < |lines| && 0 <= j < |lines[i]| ==> !IsBreak(lines[i][j])
    requires Terminated(lines) == Closed(Newlines(s))
    ensures lines == SplitLines(s)
  {
    SplitLinesMeaning(s);
    SplitTerminated(lines);
    SplitTerminated(SplitLines(s));
  }

  /** A text without boundaries is one line, closed by the newline it lacks. */
  lemma SplitOneLine(s: string)
    requires s != [] && LineEnd(s) == |s|
    ensures Terminated(SplitLines(s)) == Closed(Newlines(s))
  {
    NoBreakIn(s);
    NewlinesPlain(s);
    TerminatedFirst(s);
    assert s[..LineEnd(s)] == s && s[LineNext(s)..] == [];
  }

  /** A text that is all one line holds neither `\n` nor `\r`, and so does not end in a newline. */
  lemma NoBreakIn(s: string)
    requires LineEnd(s) == |s|
    ensures '\r' !in s && '\n' !in s
    ensures s != [] ==> s[|s| - 1] != '\n'
  {
  }

  /** A text with a boundary: its first line and one newline, then the rest. */
  lemma SplitFirstOfMany(s: string)
    requires s != [] && LineEnd(s) < |s|
    requires Terminated(SplitLines(s[LineNext(s)..])) == Closed(Newlines(s[LineNext(s)..]))
    ensures Terminated(SplitLines(s)) == Closed(Newlines(s))
  {
    var k, rest := LineEnd(s), s[LineNext(s)..];
    TerminatedFirst(s);
    NewlinesFirst(s);
    ClosedAfterNewline(s[..k], Newlines(rest));
  }

  lemma TerminatedFirst(s: string)
    requires s != []
    ensures Terminated(SplitLines(s)) == s[..LineEnd(s)] + "\n" + Terminated(SplitLines(s[LineNext(s)..]))
  {
    TerminatedCons(s[..LineEnd(s)], SplitLines(s[LineNext(s)..]));
  }

  lemma NewlinesFirst(s: string)
    requires s != [] && LineEnd(s) < |s|
    ensures Newlines(s) == s[..LineEnd(s)] + "\n" + Newlines(s[LineNext(s)..])
  {
    NewlinesAtEnd(s);
    Assoc(s[..LineEnd(s)], "\n", Newlines(s[LineNext(s)..]));
  }

  lemma Assoc<T>(a: seq<T>, b: seq<T>, c: seq<T>)
    ensures a + (b + c) == a + b + c
  {
  }

  lemma TerminatedCons(line: string, lines: seq<string>)
    ensures Terminated([line] + lines) == line + "\n" + Terminated(lines)
  {
    assert ([line] + lines)[1..] == lines;
  }

  lemma ClosedAfterNewline(a: string, n: string)
    ensures Closed(a + "\n" + n) == a + "\n" + Closed(n)
  {
    if n != [] {
      assert (a + "\n" + n)[|a + "\n" + n| - 1] == n[|n| - 1];
    }
  }

  /** The first line of a text is kept as it is, and its boundary becomes
      one newline. */
  lemma {:induction false} NewlinesAtEnd(s: string)
    requires s != []
    ensures Newlines(s) == s[..LineEnd(s)] + (if LineEnd(s) < |s| then "\n" + Newlines(s[LineNext(s)..]) else [])
    decreases |s|
  {
    if IsBreak(s[0]) {
      NewlinesAtBreak(s);
    } else if |s| == 1 {
      assert Newlines(s) == [s[0]] + Newlines([]);
    } else {
      NewlinesAtEnd(s[1..]);
      NewlinesAtEndCons(s);
    }
  }

  /** The step of `NewlinesAtEnd` past a first character that is not a break. */
  lemma NewlinesAtEndCons(s: string)
    requires |s| > 1 && !IsBreak(s[0])
    requires var t := s[1..];
      Newlines(t) == t[..LineEnd(t)] + (if LineEnd(t) < |t| then "\n" + Newlines(t[LineNext(t)..]) else [])
    ensures Newlines(s) == s[..LineEnd(s)] + (if LineEnd(s) < |s| then "\n" + Newlines(s[LineNext(s)..]) else [])
  {
    var t := s[1..];
    var rest := if LineEnd(t) < |t| then "\n" + Newlines(t[LineNext(t)..]) else [];
    assert Newlines(s) == [s[0]] + Newlines(t);
    LineNextCons(s);
    assert t[LineNext(t)..] == s[LineNext(s)..];
    assert rest == (if LineEnd(s) < |s| then "\n" + Newlines(s[LineNext(s)..]) else []);
    PrefixCons(s, LineEnd(s));
    Assoc([s[0]], t[..LineEnd(t)], rest);
  }

  lemma PrefixCons(s: string, k: nat)
    requires 0 < k <= |s|
    ensures [s[0]] + s[1..][..k - 1] == s[..k]
  {
    assert forall i | 0 <= i < k :: ([s[0]] + s[1..][..k - 1])[i] == s[i];
  }

  /** A text that starts with a line break: the break becomes one `\n`. */
  lemma NewlinesAtBreak(s: string)
    requires s != [] && IsBreak(s[0])
    ensures LineEnd(s) == 0 && Newlines(s) == "\n" + Newlines(s[LineNext(s)..])
  {
    if s[0] == '\r' && |s| > 1 && s[1] == '\n' {
      assert LineNext(s) == 2;
    } else {
      assert LineNext(s) == 1;
    }
  }

  /** Past a first character that is no boundary, the first line and what
      follows it start one character later in the tail. */
  lemma LineNextCons(s: string)
    requires |s| > 1 && !IsBreak(s[0])
    ensures LineEnd(s) == 1 + LineEnd(s[1..]) && LineNext(s) == 1 + LineNext(s[1..])
  {
    var k := LineEnd(s[1..]);
    if k < |s| - 1 {
      assert s[1..][k] == s[k + 1];
      if k + 1 < |s| - 1 {
        assert s[1..][k + 1] == s[k + 2];
      }
    }
  }

  /** A boundary-free prefix followed by a boundary ends the first line. */
  lemma {:induction false} LineEndAt(l: string, rest: string)
    requires forall j :: 0 <= j < |l| ==> !IsBreak(l[j])
    requires rest != [] && IsBreak(rest[0])
    ensures LineEnd(l + rest) == |l|
  {
    if l != [] {
      assert (l + rest)[1..] == l[1..] + rest;
      LineEndAt(l[1..], rest);
    }
  }
}
