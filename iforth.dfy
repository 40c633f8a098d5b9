/** `forth_kernel/iforth.py`: the asyncio kernel. `GForth` sends a cell to
    the interpreter one line at a time and reads back what each line
    printed. At the first line that writes to stderr it gives up and
    returns None; only when every line succeeded does it send `.s` to
    capture the stack. `IForth` turns that into Jupyter messages.

    The subprocess is replaced by the outcomes of its `readline` calls:
    one `Reply` per line written, saying what the coming reads of stdout
    and stderr return. A read past the end of a reply times out. */
module IForth {
  import opened Wrappers
  import opened Utf8
  import opened PyText
  import opened Messages

  /** `gforth_path`. `env` is `GFORTHPATH`, `onPath` what `shutil.which`
      finds; with neither, FileNotFoundError is raised. */
  function GforthPath(env: Option<string>, onPath: Option<string>): (r: Result<string>)
    ensures env.Some? && env.value != "" ==> r == Ok(env.value)
    ensures (env.None? || env.value == "") && onPath.Some? ==> r == Ok(onPath.value)
    ensures r.Failure? <==> (env.None? || env.value == "") && onPath.None?
    ensures r.Failure? ==> r.error == FileNotFoundError
  {
    if env.Some? && env.value != "" then Ok(env.value)
    else if onPath.Some? then Ok(onPath.value)
    else Failure(FileNotFoundError)
  }

  /** The outcome of one `await asyncio.wait_for(file.readline(), timeout)`:
      a line (empty at end of file) or a timeout. */
  datatype Read = Line(bytes: Bytes) | TimedOut

  function ReadAt(results: seq<Read>, k: nat): Read
  {
    if k < |results| then results[k] else TimedOut
  }

  /** A read that `read_lines` passes on: a non-empty line. */
  predicate Yields(r: Read)
  {
    r.Line? && r.bytes != []
  }

  /** What `read_lines` yields: the reads up to the first end of file or timeout. */
  function ReadPrefix(results: seq<Read>): seq<Bytes>
  {
    if results == [] || !Yields(results[0]) then [] else [results[0].bytes] + ReadPrefix(results[1..])
  }

  /** The lines yielded are the non-empty lines read, in order, and the read
      after them is an end of file or a timeout. */
  lemma {:induction false} ReadPrefixMeaning(results: seq<Read>)
    ensures var lines := ReadPrefix(results);
      |lines| <= |results| &&
      (forall i :: 0 <= i < |lines| ==> results[i] == Line(lines[i]) && lines[i] != []) &&
      !Yields(ReadAt(results, |lines|))
  {
    if results != [] && Yields(results[0]) {
      ReadPrefixMeaning(results[1..]);
      var rest := ReadPrefix(results[1..]);
      assert forall i :: 0 < i < |rest| + 1 ==> results[i] == results[1..][i - 1];
      assert ReadAt(results, |rest| + 1) == ReadAt(results[1..], |rest|);
    }
  }

  /** The `read_lines` generator, run to the end. */
  method ReadLines(results: seq<Read>) returns (lines: seq<Bytes>)
    ensures lines == ReadPrefix(results)
  {
    lines := [];
    var i := 0;
    while Yields(ReadAt(results, i))
      invariant i <= |results|
      invariant ReadPrefix(results) == lines + ReadPrefix(results[i..])
      decreases |results| - i
    {
      ReadPrefixStep(results, i);
      lines := lines + [results[i].bytes];
      i := i + 1;
    }
    ReadPrefixStep(results, i);
  }

  /** One step of `read_lines`, from the `i`-th read on. */
  lemma ReadPrefixStep(results: seq<Read>, i: nat)
    requires i <= |results|
    ensures Yields(ReadAt(results, i)) ==> ReadPrefix(results[i..]) == [results[i].bytes] + ReadPrefix(results[i + 1..])
    ensures !Yields(ReadAt(results, i)) ==> ReadPrefix(results[i..]) == []
  {
    if i < |results| {
      assert results[i..][0] == results[i];
      assert results[i..][1..] == results[i + 1..];
    }
  }

  /** One call of `print_func(text, stream)`. */
  datatype Printed = Printed(text: string, stream: StreamName)

  /** The calls made while printing a stream's lines, and whether all of them decoded. */
  datatype Printout = Printout(printed: seq<Printed>, complete: bool)

  predicate AllDecode(lines: seq<Bytes>)
  {
    forall i :: 0 <= i < |lines| ==> Decode(lines[i]).Some?
  }

  /** Passing each line, strictly decoded, to `print_func`, until a line
      fails to decode and UnicodeDecodeError ends the loop. */
  function PrintAll(lines: seq<Bytes>, stream: StreamName): Printout
    decreases |lines|
  {
    if lines == [] then Printout([], true)
    else
      var before := PrintAll(lines[..|lines| - 1], stream);
      if !before.complete then before
      else match Decode(lines[|lines| - 1])
        case None => Printout(before.printed, false)
        case Some(t) => Printout(before.printed + [Printed(t, stream)], true)
  }

  /** The calls are the decoded lines in order, tagged with the stream;
      they cover every line when all decode, and otherwise stop just before
      the first line that does not. */
  lemma {:induction false} PrintAllMeaning(lines: seq<Bytes>, stream: StreamName)
    ensures var p := PrintAll(lines, stream);
      |p.printed| <= |lines| &&
      (forall i :: 0 <= i < |p.printed| ==> Decode(lines[i]) == Some(p.printed[i].text) && p.printed[i].stream == stream) &&
      (p.complete ==> |p.printed| == |lines|) &&
      (!p.complete ==> |p.printed| < |lines| && Decode(lines[|p.printed|]).None?) &&
      (p.complete <==> AllDecode(lines))
    decreases |lines|
  {
    if lines != [] {
      var front := lines[..|lines| - 1];
      PrintAllMeaning(front, stream);
      assert forall i :: 0 <= i < |front| ==> front[i] == lines[i];
    }
  }

  /** After the first undecodable line nothing more is printed. */
  lemma {:induction false} PrintAllStops(lines: seq<Bytes>, k: nat, stream: StreamName)
    requires k <= |lines|
    requires !PrintAll(lines[..k], stream).complete
    ensures PrintAll(lines, stream) == PrintAll(lines[..k], stream)
    decreases |lines| - k
  {
    if k < |lines| {
      var shorter := lines[..|lines| - 1];
      assert shorter[..k] == lines[..k];
      PrintAllStops(shorter, k, stream);
    } else {
      assert lines[..k] == lines;
    }
  }

  /** The `async for ... print_func(line.decode(), stream)` loop. */
  method PrintLines(lines: seq<Bytes>, stream: StreamName) returns (printed: seq<Printed>, complete: bool)
    ensures Printout(printed, complete) == PrintAll(lines, stream)
  {
    printed := [];
    var i := 0;
    while i < |lines|
      invariant i <= |lines|
      invariant PrintAll(lines[..i], stream) == Printout(printed, true)
    {
      var text := Decode(lines[i]);
      assert lines[..i + 1][..i] == lines[..i];
      if text.None? {
        PrintAllStops(lines, i + 1, stream);
        return printed, false;
      }
      printed := printed + [Printed(text.value, stream)];
      i := i + 1;
    }
    assert lines[..i] == lines;
    complete := true;
  }

  /** What the interpreter does with one line written to it. */
  datatype Reply = Reply(stdout: seq<Read>, stderr: seq<Read>)

  /** How `_exec_code_line` ends: True, False, or an exception. */
  datatype LineStatus = Succeeded | Failed | Aborted(error: PyError)

  datatype LineRun = LineRun(calls: seq<Printed>, status: LineStatus)

  /** `_exec_code_line` after the write: stdout's lines are printed, then
      stderr's; the line succeeds when stderr yields nothing. */
  function RunLine(reply: Reply): LineRun
  {
    var out := PrintAll(ReadPrefix(reply.stdout), Stdout);
    if !out.complete then LineRun(out.printed, Aborted(UnicodeDecodeError))
    else
      var errLines := ReadPrefix(reply.stderr);
      var err := PrintAll(errLines, Stderr);
      LineRun(out.printed + err.printed, if !err.complete then Aborted(UnicodeDecodeError) else if errLines == [] then Succeeded else Failed)
  }

  /** A line succeeds exactly when everything decodes and stderr yields
      nothing, and fails when everything decodes but stderr yields lines;
      the only exception it raises is UnicodeDecodeError. */
  lemma RunLineStatus(reply: Reply)
    ensures var r, out, err := RunLine(reply), ReadPrefix(reply.stdout), ReadPrefix(reply.stderr);
      (r.status == Succeeded <==> AllDecode(out) && err == []) &&
      (r.status == Failed <==> AllDecode(out) && AllDecode(err) && err != []) &&
      (r.status.Aborted? ==> r.status.error == UnicodeDecodeError)
  {
    var outLines, errLines := ReadPrefix(reply.stdout), ReadPrefix(reply.stderr);
    PrintAllMeaning(outLines, Stdout);
    PrintAllMeaning(errLines, Stderr);
    if errLines == [] {
      assert AllDecode(errLines);
    }
  }

  /** `calls` are `lines`, each strictly decoded, in order, tagged with `stream`. */
  predicate Shows(lines: seq<Bytes>, calls: seq<Printed>, stream: StreamName)
  {
    |calls| == |lines| &&
    forall i :: 0 <= i < |calls| ==> Decode(lines[i]) == Some(calls[i].text) && calls[i].stream == stream
  }

  /** Unless it raised, a line passes on every stdout line, decoded and
      tagged stdout, and then every stderr line, tagged stderr. */
  lemma RunLineCalls(reply: Reply)
    ensures var r, out, err := RunLine(reply), ReadPrefix(reply.stdout), ReadPrefix(reply.stderr);
      !r.status.Aborted? ==>
        |out| <= |r.calls| && Shows(out, r.calls[..|out|], Stdout) && Shows(err, r.calls[|out|..], Stderr)
  {
    var outLines, errLines := ReadPrefix(reply.stdout), ReadPrefix(reply.stderr);
    var out, err := PrintAll(outLines, Stdout), PrintAll(errLines, Stderr);
    RunLineParts(reply);
    if !RunLine(reply).status.Aborted? {
      var calls := RunLine(reply).calls;
      PrintAllMeaning(outLines, Stdout);
      PrintAllMeaning(errLines, Stderr);
      assert calls[..|outLines|] == out.printed;
      assert calls[|outLines|..] == err.printed;
    }
  }

  /** A line that did not raise printed both streams completely, stdout first. */
  lemma RunLineParts(reply: Reply)
    ensures var r, out, err := RunLine(reply), PrintAll(ReadPrefix(reply.stdout), Stdout), PrintAll(ReadPrefix(reply.stderr), Stderr);
      !r.status.Aborted? ==> out.complete && err.complete && r.calls == out.printed + err.printed
  {
  }

  /** Once a line's output reaches stderr, everything after is stderr too. */
  lemma RunLineStderrLast(reply: Reply)
    ensures var r := RunLine(reply);
      forall i, j :: 0 <= i < j < |r.calls| && r.calls[i].stream == Stderr ==> r.calls[j].stream == Stderr
  {
    var outLines, errLines := ReadPrefix(reply.stdout), ReadPrefix(reply.stderr);
    PrintAllMeaning(outLines, Stdout);
    PrintAllMeaning(errLines, Stderr);
    var out, err := PrintAll(outLines, Stdout), PrintAll(errLines, Stderr);
    var r := RunLine(reply);
    if out.complete {
      assert r.calls == out.printed + err.printed;
      forall i, j | 0 <= i < j < |r.calls| && r.calls[i].stream == Stderr
        ensures r.calls[j].stream == Stderr
      {
        assert r.calls[j] == err.printed[j - |out.printed|];
      }
    } else {
      assert r.calls == out.printed;
    }
  }

  /** The reply to the next line written, and what is left after it. A line
      the schedule does not cover finds both streams silent. */
  function NextReply(pending: seq<Reply>): Reply
  {
    if pending == [] then Reply([], []) else pending[0]
  }

  function After(pending: seq<Reply>, k: nat): seq<Reply>
  {
    if k < |pending| then pending[k..] else []
  }

  /** The reply to the k-th line written from now on. */
  function ReplyAt(pending: seq<Reply>, k: nat): Reply
  {
    NextReply(After(pending, k))
  }

  lemma AfterNext(pending: seq<Reply>, k: nat)
    ensures After(After(pending, k), 1) == After(pending, k + 1)
    ensures After(pending, 0) == pending
  {
  }

  /** The text `print_stack` accumulates: what was printed on stdout. */
  function StdoutText(calls: seq<Printed>): string
  {
    if calls == [] then ""
    else StdoutText(calls[..|calls| - 1]) + (if calls[|calls| - 1].stream == Stdout then calls[|calls| - 1].text else "")
  }

  /** The calls `print_stack` passes on: those for stderr, in order. */
  function StderrCalls(calls: seq<Printed>): (c: seq<Printed>)
    ensures forall i :: 0 <= i < |c| ==> c[i].stream == Stderr
  {
    if calls == [] then []
    else StderrCalls(calls[..|calls| - 1]) + (if calls[|calls| - 1].stream == Stderr then [calls[|calls| - 1]] else [])
  }

  /** The stderr calls of two runs of calls, one after the other. */
  lemma {:induction false} StderrCallsAppend(a: seq<Printed>, b: seq<Printed>)
    ensures StderrCalls(a + b) == StderrCalls(a) + StderrCalls(b)
    decreases |b|
  {
    if b == [] {
      assert a + b == a;
    } else {
      var front := b[..|b| - 1];
      assert (a + b)[..|a + b| - 1] == a + front;
      assert (a + b)[|a + b| - 1] == b[|b| - 1];
      StderrCallsAppend(a, front);
    }
  }

  /** Calls that are all for stderr are all passed on; calls that are all
      for stdout, none of them. */
  lemma {:induction false} StderrCallsAll(calls: seq<Printed>, stream: StreamName)
    requires forall i :: 0 <= i < |calls| ==> calls[i].stream == stream
    ensures StderrCalls(calls) == (if stream == Stderr then calls else [])
    decreases |calls|
  {
    if calls != [] {
      var front := calls[..|calls| - 1];
      StderrCallsAll(front, stream);
      assert front + [calls[|calls| - 1]] == calls;
    }
  }

  /** For a line that did not raise, `print_stack` passes on every call of
      its stderr lines, in order, and nothing else: exactly the calls after
      those of its stdout lines. */
  lemma StderrCallsOfLine(reply: Reply)
    ensures var r, out := RunLine(reply), ReadPrefix(reply.stdout);
      !r.status.Aborted? ==>
        |out| <= |r.calls| && StderrCalls(r.calls) == r.calls[|out|..] &&
        Shows(ReadPrefix(reply.stderr), StderrCalls(r.calls), Stderr)
  {
    var r, out := RunLine(reply), ReadPrefix(reply.stdout);
    RunLineCalls(reply);
    if !r.status.Aborted? {
      var a, b := r.calls[..|out|], r.calls[|out|..];
      assert r.calls == a + b;
      StderrCallsAppend(a, b);
      StderrCallsAll(a, Stdout);
      StderrCallsAll(b, Stderr);
    }
  }

  /** What `exec` returns (or raises). */
  datatype ExecOutcome = Stack(text: string) | NoStack | Crashed(error: PyError)

  /** The lines written, the `print_func` calls made, and the result. */
  datatype ExecTrace = ExecTrace(sent: seq<string>, printed: seq<Printed>, outcome: ExecOutcome)

  /** The result of the trailing `.s`: its stdout when it succeeded and printed something. */
  function StackOutcome(r: LineRun): ExecOutcome
  {
    match r.status
    case Aborted(e) => Crashed(e)
    case Failed => NoStack
    case Succeeded => if StdoutText(r.calls) != "" then Stack(StdoutText(r.calls)) else NoStack
  }

  /** The outcome of the line written `k`-th from now on; a line the
      schedule does not cover prints nothing and succeeds. */
  function RunAt(runs: seq<LineRun>, k: nat): LineRun
  {
    if k < |runs| then runs[k] else LineRun([], Succeeded)
  }

  /** What each scheduled reply makes of its line. */
  function Outcomes(pending: seq<Reply>): seq<LineRun>
  {
    if pending == [] then [] else [RunLine(pending[0])] + Outcomes(pending[1..])
  }

  lemma {:induction false} OutcomesAt(pending: seq<Reply>, k: nat)
    ensures RunAt(Outcomes(pending), k) == RunLine(ReplyAt(pending, k))
  {
    if pending == [] {
      assert ReplyAt(pending, k) == Reply([], []);
      assert ReadPrefix([]) == [];
      assert PrintAll([], Stdout) == Printout([], true);
      assert PrintAll([], Stderr) == Printout([], true);
    } else if k > 0 {
      OutcomesAt(pending[1..], k - 1);
      OutcomesLength(pending[1..]);
      assert ReplyAt(pending, k) == ReplyAt(pending[1..], k - 1) by {
        if k < |pending| {
          assert pending[k..] == pending[1..][k - 1..];
        }
      }
    }
  }

  lemma {:induction false} OutcomesLength(pending: seq<Reply>)
    ensures |Outcomes(pending)| == |pending|
  {
    if pending != [] {
      OutcomesLength(pending[1..]);
    }
  }

  /** The result of a line that did not succeed: None, or its exception. */
  function Stopped(status: LineStatus): ExecOutcome
  {
    if status.Aborted? then Crashed(status.error) else NoStack
  }

  /** `exec` on a running process from line `k` on: the lines in order
      until one does not succeed, then `.s`. */
  function BatchFrom(cmds: seq<string>, runs: seq<LineRun>, k: nat): (t: ExecTrace)
    requires k <= |cmds|
    ensures t.outcome.Stack? ==> t.outcome.text != ""
    decreases |cmds| - k
  {
    var r := RunAt(runs, k);
    if k == |cmds| then ExecTrace([".s"], StderrCalls(r.calls), StackOutcome(r))
    else if r.status == Succeeded then Then([cmds[k]], r.calls, BatchFrom(cmds, runs, k + 1))
    else ExecTrace([cmds[k]], r.calls, Stopped(r.status))
  }

  /** `exec`: the lines of the cell against the interpreter's replies;
      without a process the first write raises AttributeError. */
  function ExecSpec(started: bool, code: string, pending: seq<Reply>): (t: ExecTrace)
    ensures t.outcome.Stack? ==> t.outcome.text != ""
  {
    if started then BatchFrom(SplitLines(code), Outcomes(pending), 0) else ExecTrace([], [], Crashed(AttributeError))
  }

  /** The bytes written for a list of lines, one write each. */
  function Sent(cmds: seq<string>): seq<Bytes>
  {
    if cmds == [] then [] else [Encode(cmds[0]) + [0x0A]] + Sent(cmds[1..])
  }

  /** The `print_func` calls of lines `lo` to `hi - 1`, in order. */
  function Forwarded(runs: seq<LineRun>, lo: nat, hi: nat): seq<Printed>
    decreases hi - lo
  {
    if lo >= hi then [] else RunAt(runs, lo).calls + Forwarded(runs, lo + 1, hi)
  }

  /** Fail fast, from line `k` on: the lines are sent in order, every line
      before the last one sent succeeded, and either some line did not
      succeed and was the last thing sent, or all succeeded and exactly one
      `.s` followed. Every call of a sent line is passed on, except the
      stdout of `.s`. */
  lemma {:induction false} BatchFailFast(cmds: seq<string>, runs: seq<LineRun>, k: nat)
    requires k <= |cmds|
    ensures var t := BatchFrom(cmds, runs, k);
      1 <= |t.sent| <= |cmds| - k + 1 &&
      (forall j :: k <= j < k + |t.sent| - 1 ==> RunAt(runs, j).status == Succeeded) &&
      (|t.sent| <= |cmds| - k ==>
        t.sent == cmds[k..k + |t.sent|] && RunAt(runs, k + |t.sent| - 1).status != Succeeded &&
        t.outcome == Stopped(RunAt(runs, k + |t.sent| - 1).status) &&
        t.printed == Forwarded(runs, k, k + |t.sent|)) &&
      (|t.sent| == |cmds| - k + 1 ==>
        t.sent == cmds[k..] + [".s"] && t.outcome == StackOutcome(RunAt(runs, |cmds|)) &&
        t.printed == Forwarded(runs, k, |cmds|) + StderrCalls(RunAt(runs, |cmds|).calls))
    decreases |cmds| - k
  {
    BatchSent(cmds, runs, k);
    BatchStops(cmds, runs, k);
    BatchCompletes(cmds, runs, k);
  }

  /** From line `k` on, between one line and all of them plus `.s` are
      sent, and every one but the last succeeded. */
  lemma {:induction false} BatchSent(cmds: seq<string>, runs: seq<LineRun>, k: nat)
    requires k <= |cmds|
    ensures 1 <= |BatchFrom(cmds, runs, k).sent| <= |cmds| - k + 1
    ensures forall j :: k <= j < k + |BatchFrom(cmds, runs, k).sent| - 1 ==> RunAt(runs, j).status == Succeeded
    decreases |cmds| - k
  {
    if k < |cmds| && RunAt(runs, k).status == Succeeded {
      BatchSent(cmds, runs, k + 1);
    }
  }

  /** A batch that stops early ends with the line that did not succeed. */
  lemma {:induction false} BatchStops(cmds: seq<string>, runs: seq<LineRun>, k: nat)
    requires k <= |cmds|
    ensures var t := BatchFrom(cmds, runs, k);
      |t.sent| <= |cmds| - k ==>
        t.sent == cmds[k..k + |t.sent|] && RunAt(runs, k + |t.sent| - 1).status != Succeeded &&
        t.outcome == Stopped(RunAt(runs, k + |t.sent| - 1).status) &&
        t.printed == Forwarded(runs, k, k + |t.sent|)
    decreases |cmds| - k
  {
    var r := RunAt(runs, k);
    if k < |cmds| {
      if r.status == Succeeded {
        BatchStops(cmds, runs, k + 1);
        BatchSent(cmds, runs, k + 1);
        var t := BatchFrom(cmds, runs, k + 1);
        if |t.sent| <= |cmds| - k - 1 {
          assert [cmds[k]] + cmds[k + 1..k + 1 + |t.sent|] == cmds[k..k + 1 + |t.sent|];
        }
      } else {
        assert cmds[k..k + 1] == [cmds[k]];
        assert Forwarded(runs, k + 1, k + 1) == [];
        assert r.calls + [] == r.calls;
      }
    }
  }

  /** A batch whose lines all succeed ends with `.s`, which decides the result. */
  lemma {:induction false} BatchCompletes(cmds: seq<string>, runs: seq<LineRun>, k: nat)
    requires k <= |cmds|
    ensures var t := BatchFrom(cmds, runs, k);
      |t.sent| == |cmds| - k + 1 ==>
        t.sent == cmds[k..] + [".s"] && t.outcome == StackOutcome(RunAt(runs, |cmds|)) &&
        t.printed == Forwarded(runs, k, |cmds|) + StderrCalls(RunAt(runs, |cmds|).calls)
    decreases |cmds| - k
  {
    if k == |cmds| {
      assert cmds[k..] == [];
    } else if RunAt(runs, k).status == Succeeded {
      BatchCompletes(cmds, runs, k + 1);
      BatchSent(cmds, runs, k + 1);
      var calls := RunAt(runs, k).calls;
      assert [cmds[k]] + (cmds[k + 1..] + [".s"]) == cmds[k..] + [".s"];
      assert calls + (Forwarded(runs, k + 1, |cmds|) + StderrCalls(RunAt(runs, |cmds|).calls))
          == Forwarded(runs, k, |cmds|) + StderrCalls(RunAt(runs, |cmds|).calls);
    }
  }

  /** Fail fast, for a cell and the interpreter's replies: the cell's lines
      are sent in order; every line before the last one sent succeeded; if
      a line did not succeed it was the last thing sent, `exec` returns None
      or raises, and `.s` is not sent; otherwise exactly one `.s` follows and
      decides the result. Everything the sent lines printed is passed on
      except what `.s` wrote to stdout. */
  lemma ExecFailFast(code: string, pending: seq<Reply>)
    ensures var cmds, t := SplitLines(code), ExecSpec(true, code, pending);
      1 <= |t.sent| <= |cmds| + 1 &&
      (forall j :: 0 <= j < |t.sent| - 1 ==> RunLine(ReplyAt(pending, j)).status == Succeeded) &&
      (|t.sent| <= |cmds| ==>
        t.sent == cmds[..|t.sent|] && RunLine(ReplyAt(pending, |t.sent| - 1)).status != Succeeded && !t.outcome.Stack? &&
        t.printed == Forwarded(Outcomes(pending), 0, |t.sent|)) &&
      (|t.sent| == |cmds| + 1 ==>
        t.sent == cmds + [".s"] && t.outcome == StackOutcome(RunLine(ReplyAt(pending, |cmds|))) &&
        t.printed == Forwarded(Outcomes(pending), 0, |cmds|) + StderrCalls(RunLine(ReplyAt(pending, |cmds|)).calls))
  {
    var cmds, runs := SplitLines(code), Outcomes(pending);
    var t := BatchFrom(cmds, runs, 0);
    assert ExecSpec(true, code, pending) == t;
    BatchFromStart(cmds, runs);
    forall j | 0 <= j < |t.sent| - 1
      ensures RunLine(ReplyAt(pending, j)).status == Succeeded
    {
      OutcomesAt(pending, j);
    }
    OutcomesAt(pending, |cmds|);
    if |t.sent| <= |cmds| {
      var k := |t.sent| - 1;
      OutcomesAt(pending, k);
      assert RunLine(ReplyAt(pending, k)).status != Succeeded;
      assert !t.outcome.Stack?;
    }
  }

  /** BatchFailFast for a whole cell. */
  lemma BatchFromStart(cmds: seq<string>, runs: seq<LineRun>)
    ensures 1 <= |BatchFrom(cmds, runs, 0).sent| <= |cmds| + 1
    ensures forall j :: 0 <= j < |BatchFrom(cmds, runs, 0).sent| - 1 ==> RunAt(runs, j).status == Succeeded
    ensures var t := BatchFrom(cmds, runs, 0);
      |t.sent| <= |cmds| ==>
        t.sent == cmds[..|t.sent|] && RunAt(runs, |t.sent| - 1).status != Succeeded &&
        t.outcome == Stopped(RunAt(runs, |t.sent| - 1).status) && t.printed == Forwarded(runs, 0, |t.sent|)
    ensures var t := BatchFrom(cmds, runs, 0);
      |t.sent| == |cmds| + 1 ==>
        t.sent == cmds + [".s"] && t.outcome == StackOutcome(RunAt(runs, |cmds|)) &&
        t.printed == Forwarded(runs, 0, |cmds|) + StderrCalls(RunAt(runs, |cmds|).calls)
  {
    BatchFailFast(cmds, runs, 0);
    assert cmds[0..] == cmds;
  }

  /** When every line of the cell succeeds, all of them are sent and then
      `.s`, whose run decides the result. */
  lemma ExecAllSucceed(code: string, pending: seq<Reply>)
    requires forall k :: 0 <= k < |SplitLines(code)| ==> RunLine(ReplyAt(pending, k)).status == Succeeded
    ensures ExecSpec(true, code, pending).sent == SplitLines(code) + [".s"]
    ensures ExecSpec(true, code, pending).outcome == StackOutcome(RunLine(ReplyAt(pending, |SplitLines(code)|)))
  {
    ExecFailFast(code, pending);
  }

  /** The stack text is returned if and only if every line and `.s`
      succeeded and `.s` printed something; it is then what `.s` printed. */
  lemma ExecStackIff(code: string, pending: seq<Reply>)
    ensures var cmds := SplitLines(code);
      var t, s := ExecSpec(true, code, pending), RunLine(ReplyAt(pending, |cmds|));
      (t.outcome.Stack? <==>
        (forall k :: 0 <= k < |cmds| ==> RunLine(ReplyAt(pending, k)).status == Succeeded) &&
        s.status == Succeeded && StdoutText(s.calls) != "") &&
      (t.outcome.Stack? ==> t.outcome.text == StdoutText(s.calls))
  {
    var cmds := SplitLines(code);
    ExecFailFast(code, pending);
    var t := ExecSpec(true, code, pending);
    if forall k :: 0 <= k < |cmds| ==> RunLine(ReplyAt(pending, k)).status == Succeeded {
      ExecAllSucceed(code, pending);
    }
  }

  /** An empty cell splits into no lines, so only `.s` is sent. */
  lemma EmptyCellSendsStack(pending: seq<Reply>)
    ensures ExecSpec(true, "", pending).sent == [".s"]
  {
  }

  /** Without a process, `exec` sends nothing, prints nothing and raises
      AttributeError, whatever the code. */
  lemma ExecUnstarted(code: string, pending: seq<Reply>)
    ensures ExecSpec(false, code, pending) == ExecTrace([], [], Crashed(AttributeError))
  {
  }

  /** `"".join(line.decode() for line in ...)`: None where a line fails to decode. */
  function JoinStrict(lines: seq<Bytes>): (r: Option<string>)
    ensures r.Some? <==> AllDecode(lines)
    ensures r.Some? ==> Encode(r.value) == Concat(lines)
  {
    if lines == [] then Some("")
    else
      var front := JoinStrict(lines[..|lines| - 1]);
      var last := lines[|lines| - 1];
      assert forall i :: 0 <= i < |lines| - 1 ==> lines[..|lines| - 1][i] == lines[i];
      match (front, Decode(last))
      case (Some(a), Some(b)) =>
        EncodeDecode(last);
        EncodeAppend(a, b);
        Some(a + b)
      case _ => None
  }

  lemma {:induction false} EncodeAppend(a: string, b: string)
    ensures Encode(a + b) == Encode(a) + Encode(b)
  {
    if a != [] {
      assert (a + b)[0] == a[0] && (a + b)[1..] == a[1..] + b;
      EncodeAppend(a[1..], b);
    } else {
      assert a + b == b;
    }
  }

  /** `Sent` of two lists of lines is the concatenation of their writes. */
  lemma {:induction false} SentAppend(a: seq<string>, b: seq<string>)
    ensures Sent(a + b) == Sent(a) + Sent(b)
  {
    if a == [] {
      assert a + b == b;
    } else {
      assert (a + b)[0] == a[0] && (a + b)[1..] == a[1..] + b;
      SentAppend(a[1..], b);
    }
  }

  lemma AppendAssoc<T>(a: seq<T>, b: seq<T>, c: seq<T>)
    ensures (a + b) + c == a + (b + c)
  {
  }

  /** The trace so far followed by the rest. */
  function Then(sent: seq<string>, printed: seq<Printed>, t: ExecTrace): ExecTrace
  {
    ExecTrace(sent + t.sent, printed + t.printed, t.outcome)
  }

  lemma ThenThen(s1: seq<string>, p1: seq<Printed>, s2: seq<string>, p2: seq<Printed>, t: ExecTrace)
    ensures Then(s1, p1, Then(s2, p2, t)) == Then(s1 + s2, p1 + p2, t)
  {
    assert s1 + (s2 + t.sent) == (s1 + s2) + t.sent;
    assert p1 + (p2 + t.printed) == (p1 + p2) + t.printed;
  }

  class GForth {
    /** Whether the process exists (`initialized()`). */
    var started: bool
    /** Everything written to the process's stdin, one entry per write. */
    var stdin: seq<Bytes>
    /** The interpreter's replies to the lines still to be written. */
    var pending: seq<Reply>
    /** Set by `start`; absent before. */
    var banner: Option<string>
    var version: Option<string>

    constructor ()
      ensures !started && stdin == [] && pending == [] && banner.None? && version.None?
    {
      started, stdin, pending, banner, version := false, [], [], None, None;
    }

    /** `start()`, awaited: the process exists from then on and the banner
        is the decoded greeting; the version is the banner up to its first
        comma. A greeting that is not UTF-8 raises before either is set. */
    method Start(greeting: seq<Read>, replies: seq<Reply>) returns (error: Option<PyError>)
      modifies this
      ensures started && stdin == [] && pending == replies
      ensures var text := JoinStrict(ReadPrefix(greeting));
        (text.Some? ==> error.None? && banner == text && version == Some(Partition(text.value, ',').head)) &&
        (text.None? ==> error == Some(UnicodeDecodeError) && banner == old(banner) && version == old(version))
    {
      started, stdin, pending := true, [], replies;
      var lines := ReadLines(greeting);
      var text := JoinStrict(lines);
      if text.None? {
        return Some(UnicodeDecodeError);
      }
      banner := text;
      version := Some(Partition(text.value, ',').head);
      error := None;
    }

    /** `__aenter__`: it calls `start()` without awaiting it, so the
        coroutine never runs and the process is not started. */
    method AEnter() returns (self: GForth)
      ensures self == this && started == old(started) && stdin == old(stdin) && pending == old(pending)
    {
      self := this;
    }

    /** `_exec_code_line`: write the line and its newline, print what stdout
        and then stderr yield; raises AttributeError when there is no process. */
    method ExecCodeLine(cmd: string) returns (calls: seq<Printed>, status: LineStatus)
      modifies this
      ensures started == old(started) && banner == old(banner) && version == old(version)
      ensures !started ==> calls == [] && status == Aborted(AttributeError) && stdin == old(stdin) && pending == old(pending)
      ensures started ==>
        stdin == old(stdin) + [Encode(cmd) + [0x0A]] && pending == After(old(pending), 1) &&
        LineRun(calls, status) == RunLine(NextReply(old(pending)))
    {
      if !started {
        return [], Aborted(AttributeError);
      }
      stdin := stdin + [Encode(cmd) + [0x0A]];
      var reply := NextReply(pending);
      pending := After(pending, 1);
      var successful := true;
      var outLines := ReadLines(reply.stdout);
      var outCalls, outOk := PrintLines(outLines, Stdout);
      if !outOk {
        return outCalls, Aborted(UnicodeDecodeError);
      }
      var errLines := ReadLines(reply.stderr);
      if errLines != [] {
        successful := false;
      }
      var errCalls, errOk := PrintLines(errLines, Stderr);
      calls := outCalls + errCalls;
      if !errOk {
        return calls, Aborted(UnicodeDecodeError);
      }
      status := if successful then Succeeded else Failed;
    }

    /** `exec`: the cell's lines one by one, returning None at the first that
        fails, then `.s` with its stdout captured and its stderr passed on. */
    method Exec(code: string) returns (printed: seq<Printed>, outcome: ExecOutcome)
      modifies this
      ensures started == old(started) && banner == old(banner) && version == old(version)
      ensures var t := ExecSpec(old(started), code, old(pending));
        printed == t.printed && outcome == t.outcome &&
        stdin == old(stdin) + Sent(t.sent) && pending == After(old(pending), |t.sent|)
    {
      var cmds := SplitLines(code);
      if !started {
        var calls, status := ExecCodeLine(if cmds == [] then ".s" else cmds[0]);
        return calls, Crashed(status.error);
      }
      ghost var runs := Outcomes(pending);
      assert BatchFrom(cmds, runs, 0) == ExecSpec(true, code, pending);
      var stop, n;
      printed, stop, n := ExecLines(cmds);
      if stop.Some? {
        return printed, stop.value;
      }
      var calls, status := ExecCodeLine(".s");
      OutcomesAt(old(pending), |cmds|);
      AfterNext(old(pending), |cmds|);
      StackFacts(cmds, runs, BatchFrom(cmds, runs, 0), printed, calls, status);
      assert cmds[..n] == cmds;
      AppendAssoc(old(stdin), Sent(cmds), [Encode(".s") + [0x0A]]);
      var stackOutput := StdoutText(calls);
      printed := printed + StderrCalls(calls);
      if status.Aborted? {
        return printed, Crashed(status.error);
      }
      outcome := if status == Succeeded && stackOutput != "" then Stack(stackOutput) else NoStack;
    }

    /** The loop of `exec` over the cell's lines: it stops at the first line
        that does not succeed, with that line's result, or runs out of lines;
        `n` lines were written. */
    method ExecLines(cmds: seq<string>) returns (printed: seq<Printed>, stop: Option<ExecOutcome>, n: nat)
      requires started
      modifies this
      ensures started && banner == old(banner) && version == old(version)
      ensures n <= |cmds| && stdin == old(stdin) + Sent(cmds[..n]) && pending == After(old(pending), n)
      ensures stop.Some? ==> 0 < n && BatchFrom(cmds, Outcomes(old(pending)), 0) == ExecTrace(cmds[..n], printed, stop.value)
      ensures stop.None? ==> n == |cmds| && BatchFrom(cmds, Outcomes(old(pending)), 0) == Then(cmds[..n], printed, BatchFrom(cmds, Outcomes(old(pending)), n))
    {
      ghost var whole := BatchFrom(cmds, Outcomes(pending), 0);
      printed := [];
      n := 0;
      AfterNext(pending, 0);
      assert cmds[..0] == [];
      while n < |cmds|
        invariant n <= |cmds| && started
        invariant banner == old(banner) && version == old(version)
        invariant whole == Then(cmds[..n], printed, BatchFrom(cmds, Outcomes(old(pending)), n))
        invariant stdin == old(stdin) + Sent(cmds[..n]) && pending == After(old(pending), n)
      {
        var calls, status := ExecStep(cmds, n, old(pending), old(stdin), whole, printed);
        if status != Succeeded {
          return printed + calls, Some(Stopped(status)), n + 1;
        }
        printed := printed + calls;
        n := n + 1;
      }
      stop := None;
    }

    /** One turn of the loop of `exec`: line `n` is written and its run
        extends the trace so far. */
    method ExecStep(cmds: seq<string>, n: nat, ghost start: seq<Reply>, ghost written: seq<Bytes>,
                    ghost whole: ExecTrace, printed: seq<Printed>)
      returns (calls: seq<Printed>, status: LineStatus)
      requires started && n < |cmds|
      requires stdin == written + Sent(cmds[..n]) && pending == After(start, n)
      requires whole == Then(cmds[..n], printed, BatchFrom(cmds, Outcomes(start), n))
      modifies this
      ensures started && banner == old(banner) && version == old(version)
      ensures stdin == written + Sent(cmds[..n + 1]) && pending == After(start, n + 1)
      ensures status == Succeeded ==> whole == Then(cmds[..n + 1], printed + calls, BatchFrom(cmds, Outcomes(start), n + 1))
      ensures status != Succeeded ==> whole == ExecTrace(cmds[..n + 1], printed + calls, Stopped(status))
    {
      ghost var before := pending;
      calls, status := ExecCodeLine(cmds[n]);
      LineStep(cmds, start, n, whole, printed, before, calls, status);
      AppendAssoc(written, Sent(cmds[..n]), [Encode(cmds[n]) + [0x0A]]);
    }
  }

  /** What the loop of `exec` needs about one line: how the trace so far
      grows, and what was written. */
  lemma LineFacts(cmds: seq<string>, runs: seq<LineRun>, i: nat, whole: ExecTrace,
                  printed: seq<Printed>, calls: seq<Printed>, status: LineStatus)
    requires i < |cmds| && LineRun(calls, status) == RunAt(runs, i)
    requires whole == Then(cmds[..i], printed, BatchFrom(cmds, runs, i))
    ensures status == Succeeded ==> whole == Then(cmds[..i + 1], printed + calls, BatchFrom(cmds, runs, i + 1))
    ensures status != Succeeded ==> whole == ExecTrace(cmds[..i + 1], printed + calls, Stopped(status))
    ensures Sent(cmds[..i + 1]) == Sent(cmds[..i]) + [Encode(cmds[i]) + [0x0A]]
  {
    assert cmds[..i + 1] == cmds[..i] + [cmds[i]];
    SentAppend(cmds[..i], [cmds[i]]);
    if status == Succeeded {
      ThenThen(cmds[..i], printed, [cmds[i]], calls, BatchFrom(cmds, runs, i + 1));
    } else {
      ThenThen(cmds[..i], printed, [cmds[i]], calls, ExecTrace([], [], Stopped(status)));
    }
  }

  /** One turn of the loop of `exec`: what was written, what is left of
      the replies, and how the trace so far grows. */
  lemma LineStep(cmds: seq<string>, pending: seq<Reply>, i: nat, whole: ExecTrace,
                 printed: seq<Printed>, before: seq<Reply>, calls: seq<Printed>, status: LineStatus)
    requires i < |cmds| && before == After(pending, i)
    requires LineRun(calls, status) == RunLine(NextReply(before))
    requires whole == Then(cmds[..i], printed, BatchFrom(cmds, Outcomes(pending), i))
    ensures After(before, 1) == After(pending, i + 1)
    ensures status == Succeeded ==> whole == Then(cmds[..i + 1], printed + calls, BatchFrom(cmds, Outcomes(pending), i + 1))
    ensures status != Succeeded ==> whole == ExecTrace(cmds[..i + 1], printed + calls, Stopped(status))
    ensures Sent(cmds[..i + 1]) == Sent(cmds[..i]) + [Encode(cmds[i]) + [0x0A]]
  {
    OutcomesAt(pending, i);
    AfterNext(pending, i);
    LineFacts(cmds, Outcomes(pending), i, whole, printed, calls, status);
  }

  /** What the end of `exec` needs about the `.s` line. */
  lemma StackFacts(cmds: seq<string>, runs: seq<LineRun>, whole: ExecTrace,
                   printed: seq<Printed>, calls: seq<Printed>, status: LineStatus)
    requires LineRun(calls, status) == RunAt(runs, |cmds|)
    requires whole == Then(cmds[..|cmds|], printed, BatchFrom(cmds, runs, |cmds|))
    ensures whole == ExecTrace(cmds + [".s"], printed + StderrCalls(calls), StackOutcome(LineRun(calls, status)))
    ensures Sent(cmds + [".s"]) == Sent(cmds) + [Encode(".s") + [0x0A]]
  {
    assert cmds[..|cmds|] == cmds;
    SentAppend(cmds, [".s"]);
  }

  /** The stream messages `answer_text` sends for the `print_func` calls. */
  function Answers(printed: seq<Printed>): (ms: seq<Message>)
    ensures |ms| == |printed|
    ensures forall i :: 0 <= i < |ms| ==> ms[i] == AnswerText(printed[i].text, printed[i].stream)
  {
    seq(|printed|, i requires 0 <= i < |printed| => AnswerText(printed[i].text, printed[i].stream))
  }

  class IForth {
    /** The class attribute `gforth`, shared by every instance. */
    const gforth: GForth
    var iopub: seq<Message>
    /** The base class's execution counter, which the kernel only reads. */
    var executionCount: int

    constructor (g: GForth, count: int)
      ensures gforth == g && iopub == [] && executionCount == count
    {
      gforth := g;
      iopub := [];
      executionCount := count;
    }

    /** `do_execute`: a silent request leaves the process alone; otherwise
        the cell runs with `answer_text` as `print_func` and a non-empty
        stack is sent as an execute result. The status is always "ok" unless
        an exception escapes. */
    method DoExecute(code: string, silent: bool) returns (c: Completion)
      modifies this, gforth
      ensures executionCount == old(executionCount)
      ensures gforth.started == old(gforth.started) && gforth.banner == old(gforth.banner) && gforth.version == old(gforth.version)
      ensures silent ==>
        iopub == old(iopub) && gforth.stdin == old(gforth.stdin) && gforth.pending == old(gforth.pending) &&
        c == Replied(SuccessResponse(executionCount))
      ensures !silent ==>
        var t := ExecSpec(old(gforth.started), code, old(gforth.pending));
        gforth.stdin == old(gforth.stdin) + Sent(t.sent) && gforth.pending == After(old(gforth.pending), |t.sent|) &&
        iopub == old(iopub) + Answers(t.printed) + (if t.outcome.Stack? then [ExecuteResult(executionCount, t.outcome.text)] else []) &&
        c == (if t.outcome.Crashed? then Raised(t.outcome.error) else Replied(SuccessResponse(executionCount)))
    {
      if !silent {
        var printed, outcome := gforth.Exec(code);
        iopub := iopub + Answers(printed);
        if outcome.Crashed? {
          return Raised(outcome.error);
        }
        if outcome.Stack? && outcome.text != "" {
          iopub := iopub + [ExecuteResult(executionCount, outcome.text)];
        }
      }
      return Replied(SuccessResponse(executionCount));
    }
  }
  /** A cell sent to the kernel as the module builds it: the class
      attribute `gforth = GForth()` is never started, so a cell that is not
      silent raises AttributeError at its first write, having sent nothing. */
  method ShippedCell(code: string, count: int) returns (c: Completion, sent: seq<Message>)
    ensures c == Raised(AttributeError) && sent == []
  {
    var g := new GForth();
    var kernel := new IForth(g, count);
    c := kernel.DoExecute(code, false);
    sent := kernel.iopub;
  }

  /** The same cell once `start()` has been awaited: a greeting that is not
      UTF-8 raises; otherwise the cell runs against the interpreter's
      replies as `ExecSpec` says for a live process. */
  method StartedCell(code: string, count: int, greeting: seq<Read>, replies: seq<Reply>)
    returns (c: Completion, sent: seq<Message>)
    ensures JoinStrict(ReadPrefix(greeting)).None? ==> c == Raised(UnicodeDecodeError) && sent == []
    ensures JoinStrict(ReadPrefix(greeting)).Some? ==>
      var t := ExecSpec(true, code, replies);
      sent == Answers(t.printed) + (if t.outcome.Stack? then [ExecuteResult(count, t.outcome.text)] else []) &&
      c == (if t.outcome.Crashed? then Raised(t.outcome.error) else Replied(SuccessResponse(count)))
  {
    var g := new GForth();
    var error := g.Start(greeting, replies);
    if error.Some? {
      return Raised(error.value), [];
    }
    assert g.started && g.pending == replies;
    var kernel := new IForth(g, count);
    assert kernel.gforth.pending == replies && kernel.executionCount == count;
    c := RunCell(kernel, code);
    sent := kernel.iopub;
  }

  /** A cell that is not silent, sent to a fresh kernel over a live process. */
  method RunCell(kernel: IForth, code: string) returns (c: Completion)
    requires kernel.iopub == [] && kernel.gforth.started
    modifies kernel, kernel.gforth
    ensures kernel.executionCount == old(kernel.executionCount)
    ensures var t := ExecSpec(true, code, old(kernel.gforth.pending));
      kernel.iopub == Answers(t.printed) + (if t.outcome.Stack? then [ExecuteResult(kernel.executionCount, t.outcome.text)] else []) &&
      c == (if t.outcome.Crashed? then Raised(t.outcome.error) else Replied(SuccessResponse(kernel.executionCount)))
  {
    ghost var t := ExecSpec(true, code, kernel.gforth.pending);
    ghost var count := kernel.executionCount;
    c := kernel.DoExecute(code, false);
    assert kernel.iopub == Answers(t.printed) + (if t.outcome.Stack? then [ExecuteResult(count, t.outcome.text)] else []);
  }
}
