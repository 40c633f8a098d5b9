/** gforth's stdin as both Queue-based kernels open it: `Popen(...,
    bufsize=2)` puts a `BufferedWriter` with a two-byte buffer in front of
    the pipe, and neither kernel calls `flush()`. */
module Pipe {
  import opened Utf8

  /** `bufsize=2`. */
  const BufferSize: nat := 2

  /** What has reached the pipe, one entry per raw write, and the bytes
      still waiting in the buffer. */
  datatype Writer = Writer(sent: seq<Bytes>, held: Bytes)

  /** Writing out the buffered bytes, if there are any. */
  function FlushHeld(w: Writer): (r: Writer)
    ensures r.held == [] && Concat(r.sent) == Concat(w.sent) + w.held
  {
    if w.held == [] then w
    else
      assert (w.sent + [w.held])[..|w.sent|] == w.sent;
      Writer(w.sent + [w.held], [])
  }

  /** `BufferedWriter.write`: data that fits in the free part of the buffer
      is only copied into it. Otherwise the buffer is written out first;
      then data longer than the whole buffer goes to the pipe in one raw
      write, and shorter data is kept in the buffer. No byte is lost or
      reordered, and the buffer never holds more than its size. */
  function BufferedWrite(w: Writer, data: Bytes): (r: Writer)
    requires |w.held| <= BufferSize
    ensures Concat(r.sent) + r.held == Concat(w.sent) + w.held + data
    ensures |r.held| <= BufferSize
    ensures |r.sent| >= |w.sent| && r.sent[..|w.sent|] == w.sent
  {
    if |data| <= BufferSize - |w.held| then Writer(w.sent, w.held + data)
    else
      var f := FlushHeld(w);
      if |data| > BufferSize then
        assert (f.sent + [data])[..|f.sent|] == f.sent;
        Writer(f.sent + [data], [])
      else Writer(f.sent, data)
  }

  /** A cell with at most one ASCII character is written as at most two
      bytes with its newline, and the buffer keeps them all: gforth is
      not sent the cell, and the kernel waits for output in vain. */
  lemma {:induction false} ShortCellHeld(sent: seq<Bytes>, code: string)
    requires code == [] || (|code| == 1 && code[0] as int < 0x80)
    ensures var w := BufferedWrite(Writer(sent, []), Encode(code + "\n"));
      w.sent == sent && w.held == Encode(code + "\n")
  {
    if code == [] {
      assert Encode("\n") == [0x0A];
    } else {
      assert (code + "\n")[1..] == "\n";
      assert Encode("\n") == [0x0A];
      assert |Encode(code + "\n")| == 2;
    }
  }

  /** The bytes held back go out only with the next write that does not
      fit, ahead of it. */
  lemma HeldGoesFirst(w: Writer, data: Bytes)
    requires |w.held| <= BufferSize && w.held != [] && |w.held| + |data| > BufferSize
    ensures var r := BufferedWrite(w, data);
      |r.sent| > |w.sent| && r.sent[|w.sent|] == w.held
  {
  }

  /** The write followed by `flush()`: everything written is in the pipe. */
  function FlushedWrite(w: Writer, data: Bytes): (r: Writer)
    requires |w.held| <= BufferSize
    ensures r.held == [] && Concat(r.sent) == Concat(w.sent) + w.held + data
  {
    FlushHeld(BufferedWrite(w, data))
  }

  /** With an empty buffer, a flushed write reaches the pipe whole, as one write. */
  lemma FlushedWriteSends(sent: seq<Bytes>, data: Bytes)
    requires data != []
    ensures FlushedWrite(Writer(sent, []), data) == Writer(sent + [data], [])
  {
    var w := Writer(sent, []);
    assert FlushHeld(w) == w;
    if |data| <= BufferSize {
      assert BufferedWrite(w, data) == Writer(sent, [] + data);
      assert [] + data == data;
    } else {
      assert BufferedWrite(w, data) == Writer(sent + [data], []);
    }
  }
}
