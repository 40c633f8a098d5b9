/** Byte strings and the two codecs the kernels use on gforth's output:
    Python's strict UTF-8 decoder (`bytes.decode()`), and its Latin-1
    decoder, which `get_queue` falls back on line by line. */
module Utf8 {
  import opened Wrappers

  type Byte = b: int | 0 <= b < 0x100
  type Bytes = seq<Byte>

  /** Several byte strings, one after another. */
  function Concat(chunks: seq<Bytes>): Bytes
  {
    if chunks == [] then [] else Concat(chunks[..|chunks| - 1]) + chunks[|chunks| - 1]
  }

  /** A continuation byte 10xxxxxx. */
  predicate Cont(b: Byte) { 0x80 <= b <= 0xBF }

  /** The shortest UTF-8 form of one Unicode scalar value (RFC 3629 section 3). */
  function EncodeChar(c: char): (bs: Bytes)
    ensures 1 <= |bs| <= 4
    ensures (c as int < 0x80) == (|bs| == 1)
  {
    var n := c as int;
    if n < 0x80 then [n]
    else if n < 0x800 then [0xC0 + n / 0x40, 0x80 + n % 0x40]
    else if n < 0x1_0000 then [0xE0 + n / 0x1000, 0x80 + n / 0x40 % 0x40, 0x80 + n % 0x40]
    else [0xF0 + n / 0x4_0000, 0x80 + n / 0x1000 % 0x40, 0x80 + n / 0x40 % 0x40, 0x80 + n % 0x40]
  }

  /** `str.encode()`: the UTF-8 encoding of a text. */
  function Encode(s: string): Bytes
  {
    if s == [] then [] else EncodeChar(s[0]) + Encode(s[1..])
  }

  /** The range a second byte must lie in after lead byte `b0` of a three-
      or four-byte sequence: it excludes overlong forms, the surrogates
      D800-DFFF and everything above 10FFFF (RFC 3629 section 4). */
  predicate SecondOk(b0: Byte, b1: Byte)
  {
    if b0 == 0xE0 then 0xA0 <= b1 <= 0xBF
    else if b0 == 0xED then 0x80 <= b1 <= 0x9F
    else if b0 == 0xF0 then 0x90 <= b1 <= 0xBF
    else if b0 == 0xF4 then 0x80 <= b1 <= 0x8F
    else Cont(b1)
  }

  /** The scalar value that the well-formed sequence at the front of `b`
      stands for, with its length; None when `b` does not start with one. */
  function DecodeFirst(b: Bytes): (r: Option<(char, nat)>)
    ensures r.Some? ==> 1 <= r.value.1 <= |b| && r.value.1 <= 4
  {
    if |b| == 0 then None
    else if b[0] < 0x80 then Some((b[0] as char, 1))
    else if 0xC2 <= b[0] <= 0xDF && |b| >= 2 && Cont(b[1]) then
      Some((((b[0] as int - 0xC0) * 0x40 + (b[1] as int - 0x80)) as char, 2))
    else if 0xE0 <= b[0] <= 0xEF && |b| >= 3 && SecondOk(b[0], b[1]) && Cont(b[2]) then
      Some((((b[0] as int - 0xE0) * 0x1000 + (b[1] as int - 0x80) * 0x40 + (b[2] as int - 0x80)) as char, 3))
    else if 0xF0 <= b[0] <= 0xF4 && |b| >= 4 && SecondOk(b[0], b[1]) && Cont(b[2]) && Cont(b[3]) then
      Some((((b[0] as int - 0xF0) * 0x4_0000 + (b[1] as int - 0x80) * 0x1000 + (b[2] as int - 0x80) * 0x40 + (b[3] as int - 0x80)) as char, 4))
    else None
  }

  /** `bytes.decode()` with the strict error handler: None where Python
      raises UnicodeDecodeError. */
  function Decode(b: Bytes): Option<string>
    decreases |b|, 1
  {
    if b == [] then Some([]) else DecodeFrom(b)
  }

  /** Strict decoding of a non-empty byte string: the scalar value at its
      front, then the rest. */
  function DecodeFrom(b: Bytes): Option<string>
    requires b != []
    decreases |b|, 0
  {
    match DecodeFirst(b)
    case None => None
    case Some(first) =>
      match Decode(b[first.1..])
      case None => None
      case Some(rest) => Some([first.0] + rest)
  }

  lemma DecodeFirstOfEncodeChar(c: char, rest: Bytes)
    ensures DecodeFirst(EncodeChar(c) + rest) == Some((c, |EncodeChar(c)|))
  {
    var n := c as int;
    if n < 0x80 {
    } else if n < 0x800 {
      DecodeTwo(c, rest);
    } else if n < 0x1_0000 {
      DecodeThree(c, rest);
    } else {
      DecodeFour(c, rest);
    }
  }

  lemma DecodeTwo(c: char, rest: Bytes)
    requires 0x80 <= c as int < 0x800
    ensures DecodeFirst(EncodeChar(c) + rest) == Some((c, 2))
  {
    var n := c as int;
    var b := EncodeChar(c) + rest;
    assert b[0] == 0xC0 + n / 0x40 && b[1] == 0x80 + n % 0x40;
    assert (b[0] as int - 0xC0) * 0x40 + (b[1] as int - 0x80) == n;
  }

  lemma DecodeThree(c: char, rest: Bytes)
    requires 0x800 <= c as int < 0x1_0000
    ensures DecodeFirst(EncodeChar(c) + rest) == Some((c, 3))
  {
    var n := c as int;
    var b := EncodeChar(c) + rest;
    assert b[0] == 0xE0 + n / 0x1000 && b[1] == 0x80 + n / 0x40 % 0x40 && b[2] == 0x80 + n % 0x40;
    ThreeDigits(n);
  }

  lemma DecodeFour(c: char, rest: Bytes)
    requires 0x1_0000 <= c as int
    ensures DecodeFirst(EncodeChar(c) + rest) == Some((c, 4))
  {
    var n := c as int;
    var b := EncodeChar(c) + rest;
    assert b[0] == 0xF0 + n / 0x4_0000 && b[1] == 0x80 + n / 0x1000 % 0x40;
    assert b[2] == 0x80 + n / 0x40 % 0x40 && b[3] == 0x80 + n % 0x40;
    FourDigits(n);
  }

  /** Base-64 digits of a value in 800..FFFF and the second-byte ranges they fall in. */
  lemma ThreeDigits(n: int)
    requires 0x800 <= n < 0x1_0000
    ensures (n / 0x1000) * 0x1000 + (n / 0x40 % 0x40) * 0x40 + n % 0x40 == n
    ensures n / 0x1000 == 0 ==> n / 0x40 % 0x40 >= 0x20
    ensures n / 0x1000 == 0xD ==> (n < 0xD800 <==> n / 0x40 % 0x40 < 0x20)
  {
    var q := n / 0x40;
    assert n == q * 0x40 + n % 0x40;
    assert q == (q / 0x40) * 0x40 + q % 0x40;
    assert q / 0x40 == n / 0x1000;
  }

  /** Base-64 digits of a value in 10000..10FFFF and the second-byte ranges they fall in. */
  lemma FourDigits(n: int)
    requires 0x1_0000 <= n < 0x11_0000
    ensures (n / 0x4_0000) * 0x4_0000 + (n / 0x1000 % 0x40) * 0x1000 + (n / 0x40 % 0x40) * 0x40 + n % 0x40 == n
    ensures n / 0x4_0000 == 0 ==> n / 0x1000 % 0x40 >= 0x10
    ensures n / 0x4_0000 == 4 ==> n / 0x1000 % 0x40 < 0x10
  {
    var q := n / 0x40;
    var p := q / 0x40;
    assert n == q * 0x40 + n % 0x40;
    assert q == p * 0x40 + q % 0x40;
    assert p == (p / 0x40) * 0x40 + p % 0x40;
    assert p == n / 0x1000;
    assert p / 0x40 == n / 0x4_0000;
  }

  /** Decoding what was encoded gives the text back: every text is valid UTF-8 once encoded. */
  lemma {:induction false} DecodeEncode(s: string)
    ensures Decode(Encode(s)) == Some(s)
  {
    if s != [] {
      var e := EncodeChar(s[0]);
      DecodeFirstOfEncodeChar(s[0], Encode(s[1..]));
      assert (e + Encode(s[1..]))[|e|..] == Encode(s[1..]);
      DecodeEncode(s[1..]);
      assert [s[0]] + s[1..] == s;
    }
  }

  /** Dividing a base-64 numeral by 64 drops its last digit. */
  lemma DropDigit(hi: int, lo: int)
    requires 0 <= hi && 0 <= lo < 0x40
    ensures (hi * 0x40 + lo) / 0x40 == hi && (hi * 0x40 + lo) % 0x40 == lo
  {
  }

  lemma EncodeCharOfDecodeFirst(b: Bytes)
    requires DecodeFirst(b).Some?
    ensures EncodeChar(DecodeFirst(b).value.0) == b[..DecodeFirst(b).value.1]
  {
    if b[0] < 0x80 {
    } else if b[0] <= 0xDF {
      EncodeTwo(b);
    } else if b[0] <= 0xEF {
      EncodeThree(b);
    } else {
      EncodeFour(b);
    }
  }

  lemma EncodeTwo(b: Bytes)
    requires |b| >= 2 && 0xC2 <= b[0] <= 0xDF && Cont(b[1])
    ensures EncodeChar(DecodeFirst(b).value.0) == b[..2]
  {
    var x0, x1 := b[0] as int - 0xC0, b[1] as int - 0x80;
    var n := x0 * 0x40 + x1;
    assert DecodeFirst(b).value.0 as int == n;
    DropDigit(x0, x1);
  }

  lemma EncodeThree(b: Bytes)
    requires |b| >= 3 && 0xE0 <= b[0] <= 0xEF && SecondOk(b[0], b[1]) && Cont(b[2])
    ensures EncodeChar(DecodeFirst(b).value.0) == b[..3]
  {
    var x0, x1, x2 := b[0] as int - 0xE0, b[1] as int - 0x80, b[2] as int - 0x80;
    var n := (x0 * 0x40 + x1) * 0x40 + x2;
    assert DecodeFirst(b).value.0 as int == n;
    DropDigit(x0 * 0x40 + x1, x2);
    DropDigit(x0, x1);
    assert n / 0x1000 == n / 0x40 / 0x40;
  }

  lemma EncodeFour(b: Bytes)
    requires |b| >= 4 && 0xF0 <= b[0] <= 0xF4 && SecondOk(b[0], b[1]) && Cont(b[2]) && Cont(b[3])
    ensures EncodeChar(DecodeFirst(b).value.0) == b[..4]
  {
    var x0, x1, x2, x3 := b[0] as int - 0xF0, b[1] as int - 0x80, b[2] as int - 0x80, b[3] as int - 0x80;
    var n := ((x0 * 0x40 + x1) * 0x40 + x2) * 0x40 + x3;
    assert DecodeFirst(b).value.0 as int == n;
    DropDigit((x0 * 0x40 + x1) * 0x40 + x2, x3);
    DropDigit(x0 * 0x40 + x1, x2);
    DropDigit(x0, x1);
    assert n / 0x1000 == n / 0x40 / 0x40;
    assert n / 0x4_0000 == n / 0x40 / 0x40 / 0x40;
  }

  /** What decodes successfully is exactly the encoding of its result: the
      strict decoder loses no byte and accepts nothing but shortest forms. */
  lemma {:induction false} EncodeDecode(b: Bytes)
    requires Decode(b).Some?
    ensures Encode(Decode(b).value) == b
    decreases |b|
  {
    if b != [] {
      DecodeCons(b);
      var first := DecodeFirst(b).value;
      var rest := Decode(b[first.1..]).value;
      EncodeDecode(b[first.1..]);
      EncodeCharOfDecodeFirst(b);
      EncodeCons(first.0, rest);
      SplitJoin(b, first.1);
    }
  }

  /** A successful decoding of a non-empty byte string is its first scalar
      value followed by the successful decoding of the rest. */
  lemma DecodeCons(b: Bytes)
    requires b != [] && Decode(b).Some?
    ensures DecodeFirst(b).Some? && Decode(b[DecodeFirst(b).value.1..]).Some?
    ensures Decode(b).value == [DecodeFirst(b).value.0] + Decode(b[DecodeFirst(b).value.1..]).value
  {
  }

  lemma SplitJoin(b: Bytes, k: nat)
    requires k <= |b|
    ensures b[..k] + b[k..] == b
  {
  }

  lemma EncodeCons(c: char, s: string)
    ensures Encode([c] + s) == EncodeChar(c) + Encode(s)
  {
    assert ([c] + s)[1..] == s;
  }

  /** `bytes.decode("latin-1")`: one character per byte, of the byte's value. */
  function Latin1Decode(b: Bytes): string
  {
    seq(|b|, i requires 0 <= i < |b| => b[i] as char)
  }

  /** The code point of each character; the inverse of Latin-1 decoding. */
  function CodePoints(s: string): seq<int>
  {
    seq(|s|, i requires 0 <= i < |s| => s[i] as int)
  }

  /** How `get_queue` decodes one queued line: UTF-8, and Latin-1 if that fails. */
  function DecodeLine(line: Bytes): (text: string)
    ensures Decode(line).Some? ==> Encode(text) == line
    ensures Decode(line).None? ==> CodePoints(text) == line
  {
    match Decode(line)
    case Some(s) => EncodeDecode(line); s
    case None => Latin1Decode(line)
  }
}
