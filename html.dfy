/** Python's `html.escape(s)` (quote=True): five `str.replace` calls, `&`
    first so that the entities the later calls insert are not escaped again. */
module Html {

  /** `s.replace(c, r)` for a one-character pattern. */
  function Replace(s: string, c: char, r: string): string
  {
    if s == [] then "" else (if s[0] == c then r else [s[0]]) + Replace(s[1..], c, r)
  }

  /** `html.escape(s)`, as the library writes it. */
  function Escape(s: string): string
  {
    Replace(Replace(Replace(Replace(Replace(s, '&', "&amp;"), '<', "&lt;"), '>', "&gt;"), '"', "&quot;"), '\'', "&#x27;")
  }

  /** The entity that stands for one character in escaped text. */
  function EscapeChar(c: char): string
  {
    match c
    case '&' => "&amp;"
    case '<' => "&lt;"
    case '>' => "&gt;"
    case '"' => "&quot;"
    case '\'' => "&#x27;"
    case _ => [c]
  }

  /** Escaping character by character. */
  function EscapeEach(s: string): string
  {
    if s == [] then "" else EscapeChar(s[0]) + EscapeEach(s[1..])
  }

  lemma {:induction false} ReplaceAppend(a: string, b: string, c: char, r: string)
    ensures Replace(a + b, c, r) == Replace(a, c, r) + Replace(b, c, r)
  {
    if a != [] {
      var h := if a[0] == c then r else [a[0]];
      assert (a + b)[0] == a[0];
      assert (a + b)[1..] == a[1..] + b;
      ReplaceAppend(a[1..], b, c, r);
      calc {
        Replace(a + b, c, r);
        h + Replace(a[1..] + b, c, r);
        h + (Replace(a[1..], c, r) + Replace(b, c, r));
        (h + Replace(a[1..], c, r)) + Replace(b, c, r);
      }
    } else {
      assert a + b == b;
    }
  }

  lemma {:induction false} ReplaceAbsent(s: string, c: char, r: string)
    requires c !in s
    ensures Replace(s, c, r) == s
  {
    if s != [] {
      ReplaceAbsent(s[1..], c, r);
      assert [s[0]] + s[1..] == s;
    }
  }

  lemma EscapeAppend(a: string, b: string)
    ensures Escape(a + b) == Escape(a) + Escape(b)
  {
    var a1, b1 := Replace(a, '&', "&amp;"), Replace(b, '&', "&amp;");
    ReplaceAppend(a, b, '&', "&amp;");
    var a2, b2 := Replace(a1, '<', "&lt;"), Replace(b1, '<', "&lt;");
    ReplaceAppend(a1, b1, '<', "&lt;");
    var a3, b3 := Replace(a2, '>', "&gt;"), Replace(b2, '>', "&gt;");
    ReplaceAppend(a2, b2, '>', "&gt;");
    var a4, b4 := Replace(a3, '"', "&quot;"), Replace(b3, '"', "&quot;");
    ReplaceAppend(a3, b3, '"', "&quot;");
    ReplaceAppend(a4, b4, '\'', "&#x27;");
  }

  lemma ReplaceSingle(c: char, x: char, r: string)
    ensures Replace([c], x, r) == if c == x then r else [c]
  {
    assert [c][1..] == [];
  }

  /** Once a character has become `e`, the remaining replace calls leave `e` alone. */
  lemma Settled(e: string, stage: nat)
    requires stage <= 4
    requires stage <= 0 ==> '<' !in e
    requires stage <= 1 ==> '>' !in e
    requires stage <= 2 ==> '"' !in e
    requires stage <= 3 ==> '\'' !in e
    ensures Finish(e, stage) == e
    decreases 4 - stage
  {
    if stage < 4 {
      var x := StageChar(stage);
      ReplaceAbsent(e, x, EscapeChar(x));
      Settled(e, stage + 1);
    }
  }

  /** The character that replace call number `stage + 1` (of 1..4 after `&`) rewrites. */
  function StageChar(stage: nat): char
    requires stage < 4
  {
    if stage == 0 then '<' else if stage == 1 then '>' else if stage == 2 then '"' else '\''
  }

  /** The replace calls after `&`, from number `stage + 1` on. */
  function Finish(s: string, stage: nat): string
    requires stage <= 4
    decreases 4 - stage
  {
    if stage == 4 then s
    else Finish(Replace(s, StageChar(stage), EscapeChar(StageChar(stage))), stage + 1)
  }

  lemma EscapeInStages(s: string)
    ensures Escape(s) == Finish(Replace(s, '&', "&amp;"), 0)
  {
  }

  /** A single character escapes to its entity, whichever replace call makes it. */
  lemma EscapeOne(c: char)
    ensures Escape([c]) == EscapeChar(c)
  {
    EscapeInStages([c]);
    ReplaceSingle(c, '&', "&amp;");
    if c == '&' {
      AmpSettled();
    } else {
      Passes(c, 0);
    }
  }

  /** The entity for `&` contains none of the later patterns. */
  lemma AmpSettled()
    ensures Finish("&amp;", 0) == "&amp;"
  {
    var e := "&amp;";
    assert forall i :: 0 <= i < |e| ==> e[i] in {'&', 'a', 'm', 'p', ';'};
    Settled(e, 0);
  }

  /** A character other than `&`, from stage `stage` on, becomes its own entity. */
  lemma Passes(c: char, stage: nat)
    requires c != '&' && stage <= 4
    requires forall k :: 0 <= k < stage ==> c != StageChar(k)
    ensures Finish([c], stage) == EscapeChar(c)
    decreases 4 - stage
  {
    if stage == 4 {
      assert c != StageChar(0) && c != StageChar(1) && c != StageChar(2) && c != StageChar(3);
    } else {
      var x := StageChar(stage);
      ReplaceSingle(c, x, EscapeChar(x));
      if c == x {
        Settled(EscapeChar(x), stage + 1);
      } else {
        Passes(c, stage + 1);
      }
    }
  }

  /** The five sequential replacements amount to escaping each character on its own. */
  lemma {:induction false} EscapeIsPerChar(s: string)
    ensures Escape(s) == EscapeEach(s)
  {
    if s != [] {
      assert s == [s[0]] + s[1..];
      EscapeAppend([s[0]], s[1..]);
      EscapeOne(s[0]);
      EscapeIsPerChar(s[1..]);
    }
  }

  /** Escaped text holds no `<`, so markup placed around it cannot be confused with it. */
  lemma {:induction false} NoTagInEscaped(s: string)
    ensures '<' !in Escape(s)
  {
    EscapeIsPerChar(s);
    NoTagInEach(s);
  }

  lemma {:induction false} NoTagInEach(s: string)
    ensures '<' !in EscapeEach(s)
  {
    if s != [] {
      NoTagInEach(s[1..]);
    }
  }

  /** Reading the five entities back; any other text stands for itself. */
  function Unescape(s: string): string
    decreases |s|
  {
    if s == [] then ""
    else if |s| >= 5 && s[..5] == "&amp;" then "&" + Unescape(s[5..])
    else if |s| >= 4 && s[..4] == "&lt;" then "<" + Unescape(s[4..])
    else if |s| >= 4 && s[..4] == "&gt;" then ">" + Unescape(s[4..])
    else if |s| >= 6 && s[..6] == "&quot;" then "\"" + Unescape(s[6..])
    else if |s| >= 6 && s[..6] == "&#x27;" then "'" + Unescape(s[6..])
    else [s[0]] + Unescape(s[1..])
  }

  /** A text that differs from `p` at position `k` does not start with `p`. */
  lemma Differ(s: string, p: string, k: nat)
    requires k < |p| && k < |s| && s[k] != p[k]
    ensures |s| >= |p| ==> s[..|p|] != p
  {
    if |s| >= |p| {
      assert s[..|p|][k] == s[k];
    }
  }

  lemma UnescapeFirst(c: char, rest: string)
    ensures Unescape(EscapeChar(c) + rest) == [c] + Unescape(rest)
  {
    var e := EscapeChar(c);
    var s := e + rest;
    assert s[..|e|] == e && s[|e|..] == rest;
    assert s[0] == e[0];
    if |e| > 1 {
      assert s[1] == e[1];
    }
    if e == [c] {
      if c == '&' {
        assert false;
      }
      Differ(s, "&amp;", 0);
      Differ(s, "&lt;", 0);
      Differ(s, "&gt;", 0);
      Differ(s, "&quot;", 0);
      Differ(s, "&#x27;", 0);
      assert s[1..] == rest;
    } else if c == '&' {
    } else if c == '<' {
      Differ(s, "&amp;", 1);
    } else if c == '>' {
      Differ(s, "&amp;", 1);
      Differ(s, "&lt;", 1);
    } else if c == '"' {
      Differ(s, "&amp;", 1);
      Differ(s, "&lt;", 1);
      Differ(s, "&gt;", 1);
    } else {
      Differ(s, "&amp;", 1);
      Differ(s, "&lt;", 1);
      Differ(s, "&gt;", 1);
      Differ(s, "&quot;", 1);
    }
  }

  /** Escaping loses nothing: the original text can be read back from it. */
  lemma {:induction false} UnescapeEscape(s: string)
    ensures Unescape(Escape(s)) == s
  {
    EscapeIsPerChar(s);
    UnescapeEach(s);
  }

  lemma {:induction false} UnescapeEach(s: string)
    ensures Unescape(EscapeEach(s)) == s
  {
    if s != [] {
      UnescapeFirst(s[0], EscapeEach(s[1..]));
      UnescapeEach(s[1..]);
      assert [s[0]] + s[1..] == s;
    }
  }
}
