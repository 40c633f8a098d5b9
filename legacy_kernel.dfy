/** `forth_kernel.py`, the earlier single-file kernel. It differs from the
    package kernel in five ways: the wait budget is 3.0 seconds, the banner
    is the output of `gforth --version`, `language_version` is the banner's
    last space-separated field, queues that already hold lines are drained
    (and the text thrown away) before the cell is written, and the death
    notice calls `self.answer`, which the class does not have. */
module LegacyKernel {
  import opened Wrappers
  import opened Utf8
  import opened PyText
  import opened Render
  import opened Drain
  import opened Messages
  import opened Pipe
  import Kernel

  /** `get_queue` waits 3.0 seconds in steps of 0.01. */
  const LegacyTicks: nat := 300

  /** The schedule left after the stale-output check: when `qsize()` is
      non-zero, that is when the next poll finds a line, the queue is drained
      once and the text dropped. */
  function Flushed(polls: seq<Poll>): seq<Poll>
  {
    if PollAt(polls, 0).Got? then Rest(polls, PollCount(polls, LegacyTicks)) else polls
  }

  /** The stale-output drain never sleeps: the queued lines are taken back
      to back until the first poll that yields nothing, and that poll is the
      last one. */
  lemma FlushTakesQueuedRun(polls: seq<Poll>)
    requires PollAt(polls, 0).Got?
    ensures FirstArrival(polls, 0, LegacyTicks) == 0
    ensures PollCount(polls, LegacyTicks) == RunEnd(polls, 0) + 1
    ensures forall i :: 0 < i < RunEnd(polls, 0) ==> Carries(PollAt(polls, i))
    ensures !Carries(PollAt(polls, RunEnd(polls, 0)))
  {
  }

  class ForthKernel {
    var stdin: seq<Bytes>
    var stdoutPolls: seq<Poll>
    var stderrPolls: seq<Poll>
    var iopub: seq<Message>
    /** What `gforth --version` printed. */
    var banner: string
    var executionCount: int

    constructor (outPolls: seq<Poll>, errPolls: seq<Poll>, versionText: string, count: int)
      ensures stdoutPolls == outPolls && stderrPolls == errPolls
      ensures banner == versionText && stdin == [] && iopub == [] && executionCount == count
    {
      stdoutPolls, stderrPolls := outPolls, errPolls;
      banner := versionText;
      stdin, iopub := [], [];
      executionCount := count;
    }

    /** The `language_version` property: the last space-separated field of
        the banner, that is the text after its last space. */
    function LanguageVersion(): (v: string)
      reads this
      ensures |v| <= |banner| && v == banner[|banner| - |v|..] && ' ' !in v
      ensures |v| < |banner| ==> banner[|banner| - |v| - 1] == ' '
    {
      LastFieldIsTail(banner, ' ');
      LastField(banner, ' ')
    }

    /** `do_execute`. As in the package kernel, except that stale lines are
        flushed first and a dead process raises AttributeError at the
        `self.answer` call, before any notice is sent or the kernel exits. */
    method DoExecute(code: string, silent: bool, shell: Result<string>, broken: bool,
                     matcher: (string, string) -> seq<Opcode>, exitCode: Option<int>)
      returns (c: Completion)
      modifies this
      ensures banner == old(banner) && executionCount == old(executionCount)
      ensures StartsWith(code, "!") ==>
        stdin == old(stdin) && stdoutPolls == old(stdoutPolls) && stderrPolls == old(stderrPolls) &&
        (shell.Failure? ==> c == Raised(shell.error) && iopub == old(iopub)) &&
        (shell.Ok? ==> c == Replied(SuccessResponse(executionCount)) && iopub == old(iopub) + [AnswerText(shell.value, Stdout)])
      ensures !StartsWith(code, "!") && broken ==>
        c == Raised(BrokenPipeError) && stdin == old(stdin) && iopub == old(iopub) &&
        stdoutPolls == Flushed(old(stdoutPolls)) && stderrPolls == Flushed(old(stderrPolls))
      ensures !StartsWith(code, "!") && !broken ==>
        var outs, errs := Flushed(old(stdoutPolls)), Flushed(old(stderrPolls));
        var out, err := Drained(outs, LegacyTicks), Drained(errs, LegacyTicks);
        stdin == old(stdin) + [Encode(code + "\n")] &&
        stdoutPolls == Rest(outs, PollCount(outs, LegacyTicks)) &&
        stderrPolls == Rest(errs, PollCount(errs, LegacyTicks)) &&
        iopub == old(iopub) + Kernel.CellMessages(code, out, err, silent, matcher) &&
        c == (if exitCode.Some? then Raised(AttributeError) else Replied(SuccessResponse(executionCount)))
    {
      if StartsWith(code, "!") {
        if shell.Failure? {
          return Raised(shell.error);
        }
        iopub := iopub + [AnswerText(shell.value, Stdout)];
        return Replied(SuccessResponse(executionCount));
      }
      Flush();
      if broken {
        return Raised(BrokenPipeError);
      }
      FlushedWriteSends(stdin, Encode(code + "\n"));
      stdin := FlushedWrite(Writer(stdin, []), Encode(code + "\n")).sent;
      var output, error := CollectAndShow(code, silent, matcher);
      if exitCode.Some? {
        return Raised(AttributeError);
      }
      return Replied(SuccessResponse(executionCount));
    }

    /** The `qsize()` checks and the drains they guard. */
    method Flush()
      modifies this
      ensures stdoutPolls == Flushed(old(stdoutPolls)) && stderrPolls == Flushed(old(stderrPolls))
      ensures stdin == old(stdin) && iopub == old(iopub)
      ensures banner == old(banner) && executionCount == old(executionCount)
    {
      if PollAt(stdoutPolls, 0).Got? {
        var stale, used, slept := GetQueue(stdoutPolls, LegacyTicks, DecodeLine);
        stdoutPolls := Rest(stdoutPolls, used);
      }
      if PollAt(stderrPolls, 0).Got? {
        var stale, used, slept := GetQueue(stderrPolls, LegacyTicks, DecodeLine);
        stderrPolls := Rest(stderrPolls, used);
      }
    }

    /** Drain both queues after the cell was written, then show the result. */
    method CollectAndShow(code: string, silent: bool, matcher: (string, string) -> seq<Opcode>) returns (output: string, error: string)
      modifies this
      ensures output == Drained(old(stdoutPolls), LegacyTicks) && error == Drained(old(stderrPolls), LegacyTicks)
      ensures stdoutPolls == Rest(old(stdoutPolls), PollCount(old(stdoutPolls), LegacyTicks))
      ensures stderrPolls == Rest(old(stderrPolls), PollCount(old(stderrPolls), LegacyTicks))
      ensures iopub == old(iopub) + Kernel.CellMessages(code, output, error, silent, matcher)
      ensures stdin == old(stdin) && banner == old(banner) && executionCount == old(executionCount)
    {
      var usedOut, usedErr, sleptOut, sleptErr;
      output, usedOut, sleptOut := GetQueue(stdoutPolls, LegacyTicks, DecodeLine);
      stdoutPolls := Rest(stdoutPolls, usedOut);
      error, usedErr, sleptErr := GetQueue(stderrPolls, LegacyTicks, DecodeLine);
      stderrPolls := Rest(stderrPolls, usedErr);
      Show(code, output, error, silent, matcher);
    }

    /** Send the cell's HTML and, if there was any, its stderr text. */
    method Show(code: string, output: string, error: string, silent: bool, matcher: (string, string) -> seq<Opcode>)
      modifies this
      ensures iopub == old(iopub) + Kernel.CellMessages(code, output, error, silent, matcher)
      ensures stdin == old(stdin) && stdoutPolls == old(stdoutPolls) && stderrPolls == old(stderrPolls)
      ensures banner == old(banner) && executionCount == old(executionCount)
    {
      if !silent {
        iopub := iopub + [DisplayData(Kernel.CellHtml(code, output, matcher))];
        if error != "" {
          iopub := iopub + [AnswerText(error, Stderr)];
        }
      }
    }
  }
}
