/** The cell rendering both kernels send as `text/html`: the escaped output
    inside `<pre>`, with the runs that difflib's SequenceMatcher classifies
    as inserted or replaced relative to the escaped code wrapped in `<b>`.

    The matcher's alignment algorithm is not modelled: its opcodes are an
    input, and `Tiles` states difflib's guarantee about them. */
module Render {
  import opened PyText

  datatype Tag = Equal | Delete | Insert | Replace

  /** One `(tag, i1, i2, j1, j2)` of `SequenceMatcher.get_opcodes()`. */
  datatype Opcode = Opcode(tag: Tag, i1: nat, i2: nat, j1: nat, j2: nat)

  predicate Bold(t: Tag) { t == Insert || t == Replace }

  /** difflib's shape for one opcode: `equal` runs have equal lengths,
      `delete` leaves the second string alone, `insert` the first. */
  predicate WellShaped(op: Opcode)
  {
    op.i1 <= op.i2 && op.j1 <= op.j2 &&
    match op.tag
    case Equal => op.i2 - op.i1 == op.j2 - op.j1
    case Delete => op.j1 == op.j2 && op.i1 < op.i2
    case Insert => op.i1 == op.i2 && op.j1 < op.j2
    case Replace => op.i1 < op.i2 && op.j1 < op.j2
  }

  /** The opcodes cover `a[i..m]` and `b[j..n]` contiguously, in order. */
  predicate TilesFrom(ops: seq<Opcode>, i: nat, j: nat, m: nat, n: nat)
    decreases |ops|
  {
    if ops == [] then i == m && j == n
    else ops[0].i1 == i && ops[0].j1 == j && WellShaped(ops[0]) && TilesFrom(ops[1..], ops[0].i2, ops[0].j2, m, n)
  }

  /** What difflib guarantees of `SequenceMatcher(None, a, b).get_opcodes()`. */
  predicate Tiles(ops: seq<Opcode>, a: string, b: string)
  {
    TilesFrom(ops, 0, 0, |a|, |b|)
  }

  /** The markup for one opcode: `output[j1:j2]`, in bold for an insert or replace. */
  function Piece(op: Opcode, out: string): string
  {
    if Bold(op.tag) then "<b>" + Slice(out, op.j1, op.j2) + "</b>" else Slice(out, op.j1, op.j2)
  }

  function Pieces(ops: seq<Opcode>, out: string): string
  {
    if ops == [] then "" else Piece(ops[0], out) + Pieces(ops[1..], out)
  }

  /** `"<pre>" + "".join(...) + "</pre>"`. */
  function RenderHtml(ops: seq<Opcode>, out: string): string
  {
    "<pre>" + Pieces(ops, out) + "</pre>"
  }

  /** A character as the front end shows it, and whether it is in bold. */
  datatype Glyph = Glyph(c: char, bold: bool)

  /** Reading markup: `<pre>` and `</pre>` vanish, `<b>` and `</b>` switch
      bold on and off, every other character is shown. */
  function Shown(html: string, bold: bool): seq<Glyph>
    decreases |html|
  {
    if html == [] then []
    else if StartsWith(html, "<pre>") then Shown(html[5..], bold)
    else if StartsWith(html, "</pre>") then Shown(html[6..], bold)
    else if StartsWith(html, "<b>") then Shown(html[3..], true)
    else if StartsWith(html, "</b>") then Shown(html[4..], false)
    else [Glyph(html[0], bold)] + Shown(html[1..], bold)
  }

  /** The text of the markup with its tags deleted. */
  function Visible(html: string): string
  {
    var g := Shown(html, false);
    seq(|g|, k requires 0 <= k < |g| => g[k].c)
  }

  /** Position `p` of the output lies in an insert or replace run. */
  predicate InBoldRun(ops: seq<Opcode>, p: nat)
  {
    exists k :: 0 <= k < |ops| && Bold(ops[k].tag) && ops[k].j1 <= p < ops[k].j2
  }

  function Paint(s: string, bold: bool): seq<Glyph>
  {
    seq(|s|, k requires 0 <= k < |s| => Glyph(s[k], bold))
  }

  /** The glyphs that the pieces of `ops` put on screen, opcode by opcode. */
  function Glyphs(ops: seq<Opcode>, out: string): seq<Glyph>
  {
    if ops == [] then [] else Paint(Slice(out, ops[0].j1, ops[0].j2), Bold(ops[0].tag)) + Glyphs(ops[1..], out)
  }

  lemma {:induction false} ShownPlain(x: string, bold: bool, rest: string)
    requires '<' !in x
    ensures Shown(x + rest, bold) == Paint(x, bold) + Shown(rest, bold)
  {
    if x == [] {
      assert x + rest == rest;
    } else {
      var g, t := Glyph(x[0], bold), x[1..] + rest;
      assert x + rest == [x[0]] + t;
      ShownChar(x[0], bold, t);
      ShownPlain(x[1..], bold, rest);
      PaintCons(x, bold);
      assert [g] + (Paint(x[1..], bold) + Shown(rest, bold)) == ([g] + Paint(x[1..], bold)) + Shown(rest, bold);
    }
  }

  lemma PaintCons(x: string, bold: bool)
    requires x != []
    ensures Paint(x, bold) == [Glyph(x[0], bold)] + Paint(x[1..], bold)
  {
  }

  /** A character other than `<` is shown as itself. */
  lemma ShownChar(c: char, bold: bool, rest: string)
    requires c != '<'
    ensures Shown([c] + rest, bold) == [Glyph(c, bold)] + Shown(rest, bold)
  {
    var s := [c] + rest;
    assert s[0] == c && s[1..] == rest;
    assert !StartsWith(s, "<pre>") && !StartsWith(s, "</pre>") && !StartsWith(s, "<b>") && !StartsWith(s, "</b>") by {
      assert s[0] != '<';
    }
  }

  lemma ShownOpen(rest: string, bold: bool)
    ensures Shown("<b>" + rest, bold) == Shown(rest, true)
  {
    var s := "<b>" + rest;
    assert s[..3] == "<b>" && s[3..] == rest;
    assert !StartsWith(s, "<pre>") && !StartsWith(s, "</pre>") by {
      assert s[1] == 'b';
    }
  }

  lemma ShownClose(rest: string, bold: bool)
    ensures Shown("</b>" + rest, bold) == Shown(rest, false)
  {
    var s := "</b>" + rest;
    assert s[..4] == "</b>" && s[4..] == rest;
    assert !StartsWith(s, "<pre>") && !StartsWith(s, "</pre>") && !StartsWith(s, "<b>") by {
      assert s[1] == '/' && s[2] == 'b';
    }
  }

  lemma ShownPre(rest: string, bold: bool)
    ensures Shown("<pre>" + rest, bold) == Shown(rest, bold)
    ensures Shown("</pre>" + rest, bold) == Shown(rest, bold)
  {
    var s := "<pre>" + rest;
    assert s[..5] == "<pre>" && s[5..] == rest;
    var t := "</pre>" + rest;
    assert t[..6] == "</pre>" && t[6..] == rest;
    assert !StartsWith(t, "<pre>") by {
      assert t[1] == '/';
    }
  }

  /** A bold piece reads back as its text painted bold, and bold is off after it. */
  lemma ShownBold(x: string, tail: string)
    requires '<' !in x
    ensures Shown("<b>" + x + "</b>" + tail, false) == Paint(x, true) + Shown(tail, false)
  {
    assert "<b>" + x + "</b>" + tail == "<b>" + (x + ("</b>" + tail));
    ShownOpen(x + ("</b>" + tail), false);
    ShownPlain(x, true, "</b>" + tail);
    ShownClose(tail, true);
  }

  lemma NoTagInSlice(out: string, lo: nat, hi: nat)
    requires '<' !in out
    ensures '<' !in Slice(out, lo, hi)
  {
    var x := Slice(out, lo, hi);
    if '<' in x {
      var k :| 0 <= k < |x| && x[k] == '<';
      SliceElement(out, lo, hi, k);
    }
  }

  /** Reading the pieces back gives their glyphs. */
  lemma {:induction false} ShownPieces(ops: seq<Opcode>, out: string)
    requires '<' !in out
    ensures Shown(Pieces(ops, out) + "</pre>", false) == Glyphs(ops, out)
  {
    if ops == [] {
      ShownPre("", false);
      assert "" + "</pre>" == "</pre>" + "";
    } else {
      var tail := Pieces(ops[1..], out) + "</pre>";
      ShownPieces(ops[1..], out);
      assert Pieces(ops, out) + "</pre>" == Piece(ops[0], out) + tail;
      ShownPiece(ops[0], out, tail);
    }
  }

  /** One piece reads back as its slice of the output, bold as its tag says. */
  lemma ShownPiece(op: Opcode, out: string, tail: string)
    requires '<' !in out
    ensures Shown(Piece(op, out) + tail, false) == Paint(Slice(out, op.j1, op.j2), Bold(op.tag)) + Shown(tail, false)
  {
    var x := Slice(out, op.j1, op.j2);
    NoTagInSlice(out, op.j1, op.j2);
    if Bold(op.tag) {
      assert Piece(op, out) + tail == "<b>" + x + "</b>" + tail;
      ShownBold(x, tail);
    } else {
      assert Piece(op, out) == x;
      ShownPlain(x, false, tail);
    }
  }

  lemma SliceElement(s: string, lo: nat, hi: nat, k: nat)
    requires k < |Slice(s, lo, hi)|
    ensures Slice(s, lo, hi)[k] in s
  {
  }

  /** Under difflib's tiling, all later runs start where this one ends. */
  lemma {:induction false} RunsAfter(ops: seq<Opcode>, i: nat, j: nat, m: nat, n: nat)
    requires TilesFrom(ops, i, j, m, n)
    ensures j <= n
    ensures forall k :: 0 <= k < |ops| ==> j <= ops[k].j1 <= ops[k].j2 <= n
  {
    if ops != [] {
      RunsAfter(ops[1..], ops[0].i2, ops[0].j2, m, n);
      forall k | 0 < k < |ops|
        ensures j <= ops[k].j1 <= ops[k].j2 <= n
      {
        assert ops[k] == ops[1..][k - 1];
      }
    }
  }

  /** Under the tiling, an output position inside the first run is bold
      exactly when that run is; past it, exactly when a later run makes it so. */
  lemma BoldSplit(ops: seq<Opcode>, i: nat, j: nat, m: nat, n: nat, p: nat)
    requires TilesFrom(ops, i, j, m, n) && ops != []
    ensures p < ops[0].j2 ==> (InBoldRun(ops, p) <==> Bold(ops[0].tag) && j <= p)
    ensures p >= ops[0].j2 ==> (InBoldRun(ops, p) <==> InBoldRun(ops[1..], p))
  {
    RunsAfter(ops[1..], ops[0].i2, ops[0].j2, m, n);
    if InBoldRun(ops, p) {
      var k :| 0 <= k < |ops| && Bold(ops[k].tag) && ops[k].j1 <= p < ops[k].j2;
      if k > 0 {
        assert ops[k] == ops[1..][k - 1];
        assert InBoldRun(ops[1..], p);
      }
    }
    if InBoldRun(ops[1..], p) {
      var k :| 0 <= k < |ops[1..]| && Bold(ops[1..][k].tag) && ops[1..][k].j1 <= p < ops[1..][k].j2;
      assert ops[k + 1] == ops[1..][k];
    }
    if p < ops[0].j2 && Bold(ops[0].tag) && j <= p {
      assert Bold(ops[0].tag) && ops[0].j1 <= p < ops[0].j2;
    }
  }

  /** One position of the glyphs of a tiling: in the first run or after it. */
  lemma GlyphAt(ops: seq<Opcode>, i: nat, j: nat, m: nat, out: string, front: seq<Glyph>, back: seq<Glyph>, p: nat)
    requires TilesFrom(ops, i, j, m, |out|) && ops != []
    requires j <= ops[0].j2 <= |out|
    requires front == Paint(out[j..ops[0].j2], Bold(ops[0].tag))
    requires |back| == |out| - ops[0].j2
    requires forall q :: ops[0].j2 <= q < |out| ==> back[q - ops[0].j2] == Glyph(out[q], InBoldRun(ops[1..], q))
    requires j <= p < |out|
    ensures (front + back)[p - j] == Glyph(out[p], InBoldRun(ops, p))
  {
    BoldSplit(ops, i, j, m, |out|, p);
    if p < ops[0].j2 {
      assert (front + back)[p - j] == front[p - j];
    } else {
      assert (front + back)[p - j] == back[p - ops[0].j2];
    }
  }

  /** Under the tiling, the glyphs are the output from position `j` on, one
      per character, bold exactly where an insert or replace run lies. */
  lemma {:induction false} GlyphsTile(ops: seq<Opcode>, i: nat, j: nat, m: nat, out: string)
    requires TilesFrom(ops, i, j, m, |out|)
    ensures GlyphsMatch(Glyphs(ops, out), ops, out, j)
  {
    if ops != [] {
      GlyphsTile(ops[1..], ops[0].i2, ops[0].j2, m, out);
      GlyphsStep(ops, i, j, m, out);
    }
  }

  /** `g` is the output from position `j` on, one glyph per character, bold
      exactly where an insert or replace run of `ops` lies. */
  predicate GlyphsMatch(g: seq<Glyph>, ops: seq<Opcode>, out: string, j: nat)
  {
    |g| == |out| - j && forall p :: j <= p < |out| ==> g[p - j] == Glyph(out[p], InBoldRun(ops, p))
  }

  /** The step of the induction: the first run's glyphs, then the rest. */
  lemma GlyphsStep(ops: seq<Opcode>, i: nat, j: nat, m: nat, out: string)
    requires TilesFrom(ops, i, j, m, |out|) && ops != []
    requires GlyphsMatch(Glyphs(ops[1..], out), ops[1..], out, ops[0].j2)
    ensures GlyphsMatch(Glyphs(ops, out), ops, out, j)
  {
    var op := ops[0];
    RunsAfter(ops[1..], op.i2, op.j2, m, |out|);
    var x := Slice(out, op.j1, op.j2);
    assert x == out[j..op.j2];
    var front := Paint(x, Bold(op.tag));
    var back := Glyphs(ops[1..], out);
    assert Glyphs(ops, out) == front + back;
    forall p | j <= p < |out|
      ensures (front + back)[p - j] == Glyph(out[p], InBoldRun(ops, p))
    {
      GlyphAt(ops, i, j, m, out, front, back, p);
    }
  }


  /** Rendering round trip: deleting the tags from the HTML gives back the
      (escaped) output exactly, provided it holds no `<` and the opcodes tile it. */
  lemma RenderRoundTrip(ops: seq<Opcode>, code: string, out: string)
    requires Tiles(ops, code, out)
    requires '<' !in out
    ensures Visible(RenderHtml(ops, out)) == out
  {
    RenderGlyphs(ops, code, out);
  }

  /** What the front end shows: the output character by character, in bold
      exactly where difflib puts an insert or replace run. */
  lemma RenderGlyphs(ops: seq<Opcode>, code: string, out: string)
    requires Tiles(ops, code, out)
    requires '<' !in out
    ensures |Shown(RenderHtml(ops, out), false)| == |out|
    ensures forall p :: 0 <= p < |out| ==> Shown(RenderHtml(ops, out), false)[p] == Glyph(out[p], InBoldRun(ops, p))
  {
    assert RenderHtml(ops, out) == "<pre>" + (Pieces(ops, out) + "</pre>");
    ShownPre(Pieces(ops, out) + "</pre>", false);
    ShownPieces(ops, out);
    GlyphsTile(ops, 0, 0, |code|, out);
  }
}
