/** `forth_kernel/forth_kernel.py`: the Jupyter kernel that keeps one gforth
    process running, feeds it each cell, collects what it prints from two
    queues, and shows the output as HTML with the parts gforth added in bold.

    The process, its reader threads and the shell are replaced by what
    they would produce: the schedule of `get_nowait` outcomes on each queue,
    the text `check_output` returns or the exception it raises, whether
    gforth's stdin is already closed, the opcodes difflib computes, and the
    exit status `poll()` reports. */
module Kernel {
  import opened Wrappers
  import opened Utf8
  import opened PyText
  import opened Html
  import opened Render
  import opened Drain
  import opened Messages
  import opened Pipe

  /** `get_queue` waits 5.0 seconds in steps of 0.01. */
  const WaitTicks: nat := 500

  const DeathNotice := "Killing kernel because GForth process has died"

  /** The HTML for a cell: code and output escaped, then rendered against
      the opcodes that the matcher finds between them. */
  function CellHtml(code: string, out: string, matcher: (string, string) -> seq<Opcode>): string
  {
    var c, o := Escape(code), Escape(out);
    RenderHtml(matcher(c, o), o)
  }

  /** The messages a Forth cell sends before the liveness check: nothing
      when silent, otherwise the HTML and, if gforth wrote to stderr, that text. */
  function CellMessages(code: string, out: string, err: string, silent: bool, matcher: (string, string) -> seq<Opcode>): (ms: seq<Message>)
    ensures silent ==> ms == []
    ensures !silent ==> 1 <= |ms| <= 2 && ms[0] == DisplayData(CellHtml(code, out, matcher))
    ensures !silent ==> (|ms| == 2 <==> err != "")
    ensures |ms| == 2 ==> ms[1] == AnswerText(err, Stderr)
  {
    if silent then []
    else [DisplayData(CellHtml(code, out, matcher))] + (if err != "" then [AnswerText(err, Stderr)] else [])
  }

  /** The notice sent when `poll()` finds the process gone. */
  function Epitaph(exitCode: Option<int>): seq<Message>
  {
    if exitCode.Some? then [AnswerText(DeathNotice, Stderr)] else []
  }

  /** What the front end sees of a cell's HTML is gforth's output itself,
      character for character once the entities are read back, whatever the
      code was; and it is bold exactly where difflib reports an insert or
      replace run of the escaped output. */
  lemma CellShowsOutput(code: string, out: string, matcher: (string, string) -> seq<Opcode>)
    requires Tiles(matcher(Escape(code), Escape(out)), Escape(code), Escape(out))
    ensures Unescape(Visible(CellHtml(code, out, matcher))) == out
    ensures var g, o := Shown(CellHtml(code, out, matcher), false), Escape(out);
      |g| == |o| && forall p :: 0 <= p < |o| ==> g[p] == Glyph(o[p], InBoldRun(matcher(Escape(code), o), p))
  {
    var o := Escape(out);
    NoTagInEscaped(out);
    RenderRoundTrip(matcher(Escape(code), o), Escape(code), o);
    RenderGlyphs(matcher(Escape(code), o), Escape(code), o);
    UnescapeEscape(out);
  }

  class ForthKernel {
    /** Everything written to gforth's stdin, one entry per write. */
    var stdin: seq<Bytes>
    /** What the coming `get_nowait` calls on each queue return. */
    var stdoutPolls: seq<Poll>
    var stderrPolls: seq<Poll>
    /** The IOPub messages sent so far. */
    var iopub: seq<Message>
    /** gforth's greeting, read once at start-up. */
    var banner: string
    /** The base class's execution counter, which the kernel only reads. */
    var executionCount: int

    /** Start-up: the reader threads begin filling the queues and the
        banner is whatever stdout yields within the wait budget. */
    constructor (outPolls: seq<Poll>, errPolls: seq<Poll>, count: int)
      ensures banner == Drained(outPolls, WaitTicks)
      ensures stdoutPolls == Rest(outPolls, PollCount(outPolls, WaitTicks))
      ensures stderrPolls == errPolls
      ensures stdin == [] && iopub == [] && executionCount == count
    {
      var text, used, slept := GetQueue(outPolls, WaitTicks, DecodeLine);
      banner := text;
      stdoutPolls := Rest(outPolls, used);
      stderrPolls := errPolls;
      stdin := [];
      iopub := [];
      executionCount := count;
    }

    /** The `language_version` property: the banner up to its first comma. */
    function LanguageVersion(): (v: string)
      reads this
      ensures StartsWith(banner, v) && ',' !in v
      ensures |v| < |banner| ==> banner[|v|] == ','
    {
      var p := Partition(banner, ',');
      assert banner == p.head + (p.sep + p.tail);
      p.head
    }

    /** `do_execute`. A cell starting with `!` runs the rest as a shell
        command and shows its output, even when silent; an exception of
        `check_output` escapes. Any other cell is written to gforth with a
        newline, which raises BrokenPipeError once gforth has exited; then
        both queues are drained, and unless silent the output is shown as
        HTML and stderr as text; then a dead process makes the kernel
        announce it and exit with its status. The write is modelled
        followed by `flush()`, so that the whole cell reaches gforth. */
    method DoExecute(code: string, silent: bool, shell: Result<string>, broken: bool,
                     matcher: (string, string) -> seq<Opcode>, exitCode: Option<int>)
      returns (c: Completion)
      modifies this
      ensures banner == old(banner) && executionCount == old(executionCount)
      ensures StartsWith(code, "!") ==>
        stdin == old(stdin) && stdoutPolls == old(stdoutPolls) && stderrPolls == old(stderrPolls) &&
        (shell.Failure? ==> c == Raised(shell.error) && iopub == old(iopub)) &&
        (shell.Ok? ==> c == Replied(SuccessResponse(executionCount)) && iopub == old(iopub) + [AnswerText(shell.value, Stdout)])
      ensures !StartsWith(code, "!") && broken ==>
        c == Raised(BrokenPipeError) && stdin == old(stdin) && iopub == old(iopub) &&
        stdoutPolls == old(stdoutPolls) && stderrPolls == old(stderrPolls)
      ensures !StartsWith(code, "!") && !broken ==>
        var out, err := Drained(old(stdoutPolls), WaitTicks), Drained(old(stderrPolls), WaitTicks);
        stdin == old(stdin) + [Encode(code + "\n")] &&
        stdoutPolls == Rest(old(stdoutPolls), PollCount(old(stdoutPolls), WaitTicks)) &&
        stderrPolls == Rest(old(stderrPolls), PollCount(old(stderrPolls), WaitTicks)) &&
        iopub == old(iopub) + CellMessages(code, out, err, silent, matcher) + Epitaph(exitCode) &&
        c == (if exitCode.Some? then Exited(exitCode.value) else Replied(SuccessResponse(executionCount)))
    {
      if StartsWith(code, "!") {
        if shell.Failure? {
          return Raised(shell.error);
        }
        iopub := iopub + [AnswerText(shell.value, Stdout)];
        return Replied(SuccessResponse(executionCount));
      }
      if broken {
        return Raised(BrokenPipeError);
      }
      c := RunForth(code, silent, matcher, exitCode);
    }

    /** A cell for gforth, once the write succeeds: send it, collect and
        show the output, and report a process that died. */
    method RunForth(code: string, silent: bool, matcher: (string, string) -> seq<Opcode>, exitCode: Option<int>)
      returns (c: Completion)
      modifies this
      ensures banner == old(banner) && executionCount == old(executionCount)
      ensures
        var out, err := Drained(old(stdoutPolls), WaitTicks), Drained(old(stderrPolls), WaitTicks);
        stdin == old(stdin) + [Encode(code + "\n")] &&
        stdoutPolls == Rest(old(stdoutPolls), PollCount(old(stdoutPolls), WaitTicks)) &&
        stderrPolls == Rest(old(stderrPolls), PollCount(old(stderrPolls), WaitTicks)) &&
        iopub == old(iopub) + CellMessages(code, out, err, silent, matcher) + Epitaph(exitCode) &&
        c == (if exitCode.Some? then Exited(exitCode.value) else Replied(SuccessResponse(executionCount)))
    {
      Send(code);
      var output, error := CollectAndShow(code, silent, matcher);
      if exitCode.Some? {
        iopub := iopub + [AnswerText(DeathNotice, Stderr)];
        return Exited(exitCode.value);
      }
      return Replied(SuccessResponse(executionCount));
    }

    /** `stdin.write` of the cell and its newline. The source does not
        flush, and its two-byte buffer holds back a write of at most two
        bytes (`Pipe.ShortCellHeld`); the model flushes after the write
        (`Pipe.FlushedWrite`), so the bytes reach gforth as one write. */
    method Send(code: string)
      modifies this
      ensures stdin == old(stdin) + [Encode(code + "\n")]
      ensures stdoutPolls == old(stdoutPolls) && stderrPolls == old(stderrPolls) && iopub == old(iopub)
      ensures banner == old(banner) && executionCount == old(executionCount)
    {
      FlushedWriteSends(stdin, Encode(code + "\n"));
      stdin := FlushedWrite(Writer(stdin, []), Encode(code + "\n")).sent;
    }

    /** Drain both queues after the cell was written, then show the result. */
    method CollectAndShow(code: string, silent: bool, matcher: (string, string) -> seq<Opcode>) returns (output: string, error: string)
      modifies this
      ensures output == Drained(old(stdoutPolls), WaitTicks) && error == Drained(old(stderrPolls), WaitTicks)
      ensures stdoutPolls == Rest(old(stdoutPolls), PollCount(old(stdoutPolls), WaitTicks))
      ensures stderrPolls == Rest(old(stderrPolls), PollCount(old(stderrPolls), WaitTicks))
      ensures iopub == old(iopub) + CellMessages(code, output, error, silent, matcher)
      ensures stdin == old(stdin) && banner == old(banner) && executionCount == old(executionCount)
    {
      var usedOut, usedErr, sleptOut, sleptErr;
      output, usedOut, sleptOut := GetQueue(stdoutPolls, WaitTicks, DecodeLine);
      stdoutPolls := Rest(stdoutPolls, usedOut);
      error, usedErr, sleptErr := GetQueue(stderrPolls, WaitTicks, DecodeLine);
      stderrPolls := Rest(stderrPolls, usedErr);
      Show(code, output, error, silent, matcher);
    }

    /** Send the cell's HTML and, if there was any, its stderr text. */
    method Show(code: string, output: string, error: string, silent: bool, matcher: (string, string) -> seq<Opcode>)
      modifies this
      ensures iopub == old(iopub) + CellMessages(code, output, error, silent, matcher)
      ensures stdin == old(stdin) && stdoutPolls == old(stdoutPolls) && stderrPolls == old(stderrPolls)
      ensures banner == old(banner) && executionCount == old(executionCount)
    {
      if !silent {
        iopub := iopub + [DisplayData(CellHtml(code, output, matcher))];
        if error != "" {
          iopub := iopub + [AnswerText(error, Stderr)];
        }
      }
    }
  }
}
