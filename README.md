# iforth: a Dafny model of the Forth Jupyter kernels

This project models the three kernels of the `iforth` repository. Each one
runs Forth code in a gforth interpreter on behalf of Jupyter:

- `forth_kernel/forth_kernel.py`, the package kernel. It keeps one gforth
  process. Two reader threads fill two queues, and `get_queue` drains a
  queue within a 5-second budget. It writes each cell to gforth's stdin
  with a newline. It shows gforth's output as HTML, with the parts that difflib finds
  inserted or replaced relative to the code in bold. It sends stderr as
  text, and ends the kernel when the process has died.
- `forth_kernel.py`, the earlier single-file kernel. It works the same way,
  with five differences:
  - the budget is 3 seconds;
  - the banner is the output of `gforth --version`;
  - `language_version` is the banner's last space-separated field, not its
    text up to the first comma;
  - queues that already hold lines are drained before the cell is written;
  - the death notice calls a method that does not exist.
- `forth_kernel/iforth.py`, the asyncio kernel. `GForth` writes a cell one
  line at a time and prints what each line produced. At the first line that
  writes to stderr it returns None and sends nothing more. Only when every
  line succeeded does it send `.s` to capture the stack. `IForth` turns this
  into Jupyter stream and execute-result messages.

Each file is one module:

- `wrappers.dfy` (`Wrappers`): the `Option` type.
- `utf8.dfy` (`Utf8`): strict UTF-8, `bytes.decode()` and `str.encode()`, plus the Latin-1 fallback.
- `pytext.dfy` (`PyText`): the `str` methods the kernels call, with Python's semantics.
- `html.dfy` (`Html`): `html.escape`.
- `drain.dfy` (`Drain`): the `get_queue` polling loop.
- `pipe.dfy` (`Pipe`): the two-byte `BufferedWriter` in front of gforth's stdin in the thread kernels.
- `render.dfy` (`Render`): the opcode-to-HTML rendering.
- `messages.dfy` (`Messages`): IOPub messages, reply records and the exceptions that can escape.
- `kernel.dfy`, `legacy_kernel.dfy` and `iforth.dfy`: the three kernels.

Processes, threads and the shell are replaced by what they would produce:

- For the thread kernels: the schedule of `get_nowait` outcomes on each
  queue, the text `check_output` returns or the exception it raises,
  whether gforth's stdin is already closed when the cell is written, the
  difflib opcodes (a function of the escaped code and output), and the exit
  status that `poll()` reports.
- For the asyncio kernel: one `Reply` per line written, giving the outcomes
  of the coming `readline` calls on stdout and stderr. A read past the end
  of a reply times out, and a line past the end of the schedule gets an
  empty reply.

IOPub messages are appended to a list. An escaping exception or
`sys.exit` is a `Completion` value.

## Model

| member | source | states |
|---|---|---|
| Utf8.EncodeChar | forth_kernel/forth_kernel.py:148 | A character encodes to 1 to 4 bytes, and to one byte exactly when it is ASCII. |
| Utf8.DecodeEncode | forth_kernel/iforth.py:104-105 | Decoding the UTF-8 encoding of any text gives the text back. |
| Utf8.EncodeDecode | forth_kernel/forth_kernel.py:92-93 | Whatever the strict decoder accepts is the encoding of what it returns: no byte is lost or accepted in a non-shortest form. |
| Utf8.DecodeLine | forth_kernel/forth_kernel.py:92-95 | A queued line decodes as UTF-8 when valid, and the text re-encodes to the line; otherwise it decodes as Latin-1, one character per byte with the byte's value. |
| PyText.StartsWith | forth_kernel/forth_kernel.py:141 | `code.startswith("!")`: true exactly when the text is at least as long as the prefix and begins with it. Both thread kernels' `DoExecute` contracts use it to tell a shell cell from a Forth cell. |
| PyText.Slice | forth_kernel/forth_kernel.py:164 | `output[j1:j2]` is the plain slice when the bounds are in range, runs to the end when only the upper bound is past it, and is empty when the bounds cross or the lower one is past the end. |
| PyText.Partition | forth_kernel/forth_kernel.py:35 | The head, separator and tail concatenate to the text; the head holds no separator; the separator is absent only when the text has none. |
| PyText.SplitOn | forth_kernel.py:32 | `split(' ')` gives at least one piece, none holding a space; a text without a space gives itself. |
| PyText.JoinSplit | forth_kernel.py:32 | Joining the pieces of `split(c)` with `c` gives the text back. |
| PyText.LastField | forth_kernel.py:32 | `split(' ')[-1]`, the last of the pieces; `PyText.LastFieldIsTail` states that it is the suffix after the last space, and `PyText.SplitOn` that it holds no space. |
| PyText.LastFieldIsTail | forth_kernel.py:32 | `split(' ')[-1]` is the suffix after the last space: free of spaces, and preceded by a space unless it is the whole text. |
| PyText.SplitLines | forth_kernel/iforth.py:104 | `splitlines()` yields lines free of line boundaries, and no lines exactly for the empty cell; what the lines are is stated by the next three rows. |
| PyText.SplitLinesMeaning | forth_kernel/iforth.py:104 | For every text, the lines written back one per line are the text with `\r\n` and `\r` turned into `\n`, with a newline closing the last line if it had none. |
| PyText.SplitLinesPlain | forth_kernel/iforth.py:104 | For a text without `\r`, the lines written back one per line are the text itself, plus a newline unless it already ends in one. |
| PyText.SplitLinesUnique | forth_kernel/iforth.py:104 | Any boundary-free lines that write back to that same text are the lines `splitlines()` returns. |
| PyText.SplitTerminated | forth_kernel/iforth.py:104 | Boundary-free lines, each written with a newline, split back into the same lines. |
| Html.Escape | forth_kernel/forth_kernel.py:155 | `html.escape` with quotes: the five ordered replacements, `&` first. `Html.EscapeIsPerChar` states that this escapes each character on its own, `Html.UnescapeEscape` that nothing is lost and `Html.NoTagInEscaped` that no `<` is left. |
| Html.EscapeIsPerChar | forth_kernel/forth_kernel.py:155 | The five sequential `replace` calls of `html.escape` amount to replacing each character by its own entity. |
| Html.NoTagInEscaped | forth_kernel/forth_kernel.py:155 | Escaped text contains no `<`. |
| Html.UnescapeEscape | forth_kernel/forth_kernel.py:155 | Reading the entities back from escaped text gives the original text. |
| Drain.FirstArrival | forth_kernel/forth_kernel.py:83-90 | The polls before the first arrival within the budget all find the queue empty, and the one at the arrival finds a line. |
| Drain.RunEnd | forth_kernel/forth_kernel.py:83-96 | From an index on, every poll up to the run's end hands over a non-empty line, and the poll at the end does not. |
| Drain.GetQueue | forth_kernel/forth_kernel.py:78-97 | The loop makes `PollCount` polls, sleeps until the first arrival, and returns the lines it took, each decoded by the decoder it is given (both kernels pass `Utf8.DecodeLine`), concatenated in order. |
| Drain.QuietQueue | forth_kernel/forth_kernel.py:83-90 | A queue that stays empty for the whole budget is polled once per tick, and the result is "". |
| Drain.NoWaitAfterArrival | forth_kernel/forth_kernel.py:91-96 | When a line arrives within the budget, every poll before it found the queue empty, every poll after it but the last hands over a line, and the last poll yields nothing. |
| Drain.TakenInOrder | forth_kernel/forth_kernel.py:83-96 | The lines received are exactly the queue's lines from the first arrival on, none skipped and none reordered. |
| Render.RenderHtml | forth_kernel/forth_kernel.py:158-171 | The `<pre>` markup over difflib's opcodes, with the output slice of each insert and replace run in `<b>` tags; `Render.RenderRoundTrip` states that removing the tags gives the escaped output back, and `Render.RenderGlyphs` where the bold falls. |
| Render.RenderRoundTrip | forth_kernel/forth_kernel.py:158-171 | When the opcodes tile code and output, the HTML with its tags removed is the escaped output, character for character. |
| Render.RenderGlyphs | forth_kernel/forth_kernel.py:158-171 | Each output character is shown once, in order, and in bold exactly when an insert or replace opcode covers it. |
| Messages.AnswerText | forth_kernel/forth_kernel.py:99-103 | A stream message on the given stream whose text is the argument followed by one newline. |
| Messages.SuccessResponse | forth_kernel/forth_kernel.py:113-120 | Status "ok", the current execution count, no payload and no user expressions. |
| Pipe.FlushHeld | forth_kernel/forth_kernel.py:53-60 | Writing out the buffer empties it and appends its bytes to what reached the pipe. |
| Pipe.BufferedWrite | forth_kernel/forth_kernel.py:53-60 | A write through the two-byte buffer loses and reorders no byte, and leaves at most two bytes held. |
| Pipe.ShortCellHeld | forth_kernel/forth_kernel.py:148 | An empty cell or a one-character ASCII cell, written with its newline, stays entirely in the buffer: nothing reaches gforth. |
| Pipe.HeldGoesFirst | forth_kernel/forth_kernel.py:148 | Bytes held back reach gforth only with the next write that does not fit, ahead of it. |
| Pipe.FlushedWrite | forth_kernel/forth_kernel.py:148 | A write followed by `flush()` leaves nothing held: every byte written has reached the pipe. |
| Pipe.FlushedWriteSends | forth_kernel/forth_kernel.py:148 | With an empty buffer, a flushed write reaches the pipe whole, as one write. |
| Kernel.CellHtml | forth_kernel/forth_kernel.py:155-171 | Code and output are escaped, the matcher's opcodes between them are taken, and the output is rendered; `Kernel.CellShowsOutput` states that the markup reads back to the output, bold exactly on insert and replace runs. |
| Kernel.CellMessages | forth_kernel/forth_kernel.py:154-175 | A silent cell sends nothing. Otherwise the HTML is sent first, then a stderr message, which is sent exactly when gforth wrote to stderr. |
| Kernel.Epitaph | forth_kernel/forth_kernel.py:177-179 | The death notice on stderr when `poll()` gives a status, and nothing otherwise; `Kernel.ForthKernel.DoExecute` and `Kernel.ForthKernel.RunForth` state that it follows the cell's messages and that the kernel then exits with that status. |
| Kernel.CellShowsOutput | forth_kernel/forth_kernel.py:155-172 | The front end shows gforth's raw output once entities are read back, whatever the code, and in bold exactly where difflib reports an insert or replace run. |
| Kernel.ForthKernel.constructor | forth_kernel/forth_kernel.py:44-76 | The banner is what stdout yields within the budget, and the rest of the stdout queue is left for later. |
| Kernel.ForthKernel.LanguageVersion | forth_kernel/forth_kernel.py:32-35 | The banner up to, and not including, its first comma. |
| Kernel.ForthKernel.DoExecute | forth_kernel/forth_kernel.py:127-182 | A `!` cell shows the shell output even when silent; an exception of `check_output` escapes. Any other cell raises BrokenPipeError when gforth's stdin is closed. Otherwise the whole cell and a newline reach gforth and both queues are drained. The cell's messages are sent; a dead process then gets a notice and exits with its status, and otherwise the reply is "ok". |
| Kernel.ForthKernel.RunForth | forth_kernel/forth_kernel.py:148-182 | Once the write succeeds, the cell and a newline are sent, both queues are drained, and the cell's messages are sent. A dead process adds the notice and exits with its status; otherwise the reply is "ok". |
| Kernel.ForthKernel.Send | forth_kernel/forth_kernel.py:148 | The cell and its newline, encoded as UTF-8, are appended to what gforth's stdin has received, as one write, and nothing else changes. |
| Kernel.ForthKernel.CollectAndShow | forth_kernel/forth_kernel.py:150-175 | Both queues are drained in turn within the budget, and the cell's messages are sent. |
| Kernel.ForthKernel.Show | forth_kernel/forth_kernel.py:154-175 | It appends exactly the cell's messages and changes nothing else. |
| LegacyKernel.Flushed | forth_kernel.py:109-112 | The schedule left after the pre-write drain: drained once when its first poll hands over a line, untouched otherwise; `LegacyKernel.FlushTakesQueuedRun` states that the drain takes exactly the queued run without waiting. |
| LegacyKernel.FlushTakesQueuedRun | forth_kernel.py:109-112 | Draining a queue that already holds a line never sleeps, and stops at the first poll after the queued run. |
| LegacyKernel.ForthKernel.constructor | forth_kernel.py:34-64 | The banner is the text `gforth --version` printed; the queues start as the schedules given. |
| LegacyKernel.ForthKernel.LanguageVersion | forth_kernel.py:30-32 | The text after the banner's last space: a suffix free of spaces, preceded by a space unless it is the whole banner. |
| LegacyKernel.ForthKernel.DoExecute | forth_kernel.py:104-137 | As in the package kernel, but stale queued lines are drained and dropped first (before a closed stdin raises), the budget is 3 seconds, and a dead process raises AttributeError before any notice. |
| LegacyKernel.ForthKernel.Flush | forth_kernel.py:109-112 | Each queue that already holds a line is drained once, and nothing else changes. |
| LegacyKernel.ForthKernel.CollectAndShow | forth_kernel.py:116-130 | Both queues are drained within the 3-second budget, and the cell's messages are sent. |
| LegacyKernel.ForthKernel.Show | forth_kernel.py:120-130 | It appends exactly the cell's messages and changes nothing else. |
| IForth.GforthPath | forth_kernel/iforth.py:22-26 | A non-empty `GFORTHPATH` wins; otherwise the result is what `which` finds. FileNotFoundError is raised exactly when neither gives a path. |
| IForth.ReadPrefix | forth_kernel/iforth.py:32-40 | The lines `read_lines` yields: the reads up to the first time-out or end of file; `IForth.ReadPrefixMeaning` states it and `IForth.ReadLines` that the generator's loop yields exactly these. |
| IForth.ReadPrefixMeaning | forth_kernel/iforth.py:32-40 | `read_lines` yields the non-empty lines read, in order, up to the first end of file or timeout. |
| IForth.ReadLines | forth_kernel/iforth.py:32-40 | The generator's loop yields exactly `ReadPrefix` of the reads. |
| IForth.PrintAll | forth_kernel/iforth.py:91-95 | The `print_func` calls of one stream's lines, stopping at the first line `decode()` rejects; `IForth.PrintAllMeaning` states which calls are made and `IForth.PrintLines` that the loop makes them. |
| IForth.PrintAllMeaning | forth_kernel/iforth.py:91-95 | The `print_func` calls are the decoded lines in order, tagged with the stream. They cover every line when all decode, and stop just before the first line that does not, where UnicodeDecodeError escapes. |
| IForth.PrintLines | forth_kernel/iforth.py:91-95 | The `async for` loop makes exactly the calls `PrintAll` describes, and reports whether it finished. |
| IForth.RunLine | forth_kernel/iforth.py:88-96 | One line's run: the stdout calls, then the stderr ones, and whether it succeeded, failed or raised; `IForth.RunLineStatus`, `IForth.RunLineCalls` and `IForth.RunLineStderrLast` state each part. |
| IForth.RunLineStatus | forth_kernel/iforth.py:82-96 | A line succeeds exactly when everything decodes and stderr yields nothing, and fails when everything decodes but stderr yields lines; the only exception is UnicodeDecodeError. |
| IForth.RunLineCalls | forth_kernel/iforth.py:88-96 | Unless it raised, the calls of a line are its stdout lines, each decoded and tagged stdout, followed by its stderr lines, each decoded and tagged stderr (`Shows`). |
| IForth.RunLineStderrLast | forth_kernel/iforth.py:91-95 | After the first stderr call, every later call of that line is also for stderr. |
| IForth.StderrCalls | forth_kernel/iforth.py:111-116 | `print_stack` passes on only stderr calls. |
| IForth.StderrCallsAppend | forth_kernel/iforth.py:111-116 | The calls passed on for two runs of calls are those of the first run followed by those of the second. |
| IForth.StderrCallsOfLine | forth_kernel/iforth.py:111-118 | For a `.s` line that did not raise, `print_stack` passes on exactly the calls after its stdout ones: every stderr line, decoded, in order. |
| IForth.ExecSpec | forth_kernel/iforth.py:98-119 | A stack result, when there is one, is never empty. |
| IForth.BatchFailFast | forth_kernel/iforth.py:104-107 | From any line on, the lines are sent in order and every line sent but the last succeeded. Either a line failed and was the last thing sent, or all succeeded and exactly one `.s` followed. |
| IForth.ExecFailFast | forth_kernel/iforth.py:104-119 | The same for a whole cell against the interpreter's replies. Every call of a sent line is passed on except the stdout of `.s`. |
| IForth.ExecAllSucceed | forth_kernel/iforth.py:104-119 | When every line of the cell succeeds, all lines and then `.s` are sent, and the run of `.s` decides the result. |
| IForth.ExecStackIff | forth_kernel/iforth.py:109-119 | The stack text is returned exactly when every line and `.s` succeeded and `.s` printed something, and it is what `.s` printed. |
| IForth.EmptyCellSendsStack | forth_kernel/iforth.py:104-118 | An empty cell sends only `.s`. |
| IForth.ExecUnstarted | forth_kernel/iforth.py:56-89 | Without a process, `exec` sends nothing, prints nothing and raises AttributeError at the first write. |
| IForth.JoinStrict | forth_kernel/iforth.py:71 | The banner exists exactly when every greeting line decodes, and its encoding is the greeting's bytes. |
| IForth.GForth.constructor | forth_kernel/iforth.py:56-57 | A new `GForth` has no process. |
| IForth.GForth.Start | forth_kernel/iforth.py:62-73 | After an awaited `start` the process exists, the banner is the decoded greeting, and the version is the banner up to its first comma; a greeting that is not UTF-8 raises first. |
| IForth.GForth.AEnter | forth_kernel/iforth.py:75-77 | `__aenter__` returns the object unchanged and does not start the process. |
| IForth.GForth.ExecCodeLine | forth_kernel/iforth.py:82-96 | The line is written with a newline and consumes one reply, and the calls and status are those of `RunLine`; without a process AttributeError escapes and nothing is written. |
| IForth.GForth.Exec | forth_kernel/iforth.py:98-119 | The calls, result, bytes written and replies consumed are those of `ExecSpec`, whose fail-fast and stack properties are proved above. |
| IForth.GForth.ExecStep | forth_kernel/iforth.py:104-107 | One pass of the loop: one more line is written and one more reply consumed. If the line succeeded the run continues as `BatchFrom` says; otherwise the cell stops with that line's status. |
| IForth.GForth.ExecLines | forth_kernel/iforth.py:104-107 | The loop over the cell's lines writes `n` lines and matches `BatchFrom`: it either stops with the result of the first line that did not succeed, or runs out of lines. |
| IForth.Answers | forth_kernel/iforth.py:135-140 | There is one stream message per `print_func` call, in order, with the call's text and stream. |
| IForth.IForth.constructor | forth_kernel/iforth.py:128-133 | The kernel uses the given `GForth` and starts with no messages. |
| IForth.ShippedCell | forth_kernel/iforth.py:133-168 | A cell that is not silent, sent to a kernel whose `gforth` is the class attribute's fresh `GForth()`, raises AttributeError and sends nothing. |
| IForth.StartedCell | forth_kernel/iforth.py:62-73 | Once `start()` has been awaited, a cell that is not silent sends the stream messages of `ExecSpec` for a live process and the stack as an execute result; a greeting that is not UTF-8 raises first. |
| IForth.IForth.DoExecute | forth_kernel/iforth.py:152-174 | A silent request touches nothing. Otherwise the cell's calls become stream messages, and a non-empty stack becomes an execute result. An exception from `exec` escapes after the messages already sent; otherwise the reply is "ok". |

## Left out

- The gforth process, `Popen`, the reader threads, asyncio, `atexit` and signals: they are replaced by the schedules described above.
- Drain.GetQueue: the 0.01-second sleeps become whole ticks, so real time and the drift of the float budget are not modelled. It requires a budget above zero, which both callers pass as a constant. The per-line decoding is a parameter of the loop; the callers pass `Utf8.DecodeLine`, whose properties are proved on its own.
- Difflib's longest-matching-block search: the opcodes are an input. The properties about them take as a hypothesis the tiling difflib guarantees, and otherwise rendering is total by Python's slice clamping.
- `check_output`: the shell command is not run; its text or the exception it raises is a parameter. Called with a string and without `shell=True`, it takes the whole text after `!` as the program name, so a command with arguments raises FileNotFoundError; output that is not UTF-8 raises UnicodeDecodeError, and a non-zero status CalledProcessError.
- Kernel.ForthKernel.DoExecute: the write of a Forth cell is modelled followed by `flush()`, so the whole cell reaches gforth at once; the source's two-byte buffer holds back a write of at most two bytes, which only `Pipe` models (see Findings). A closed stdin is a parameter and raises BrokenPipeError, as any write that reaches the pipe does.
- Kernel.ForthKernel.RunForth: it sends the cell through `Send`, so it too assumes the flushed write; a cell of at most two bytes is drained here as if gforth had received it.
- Kernel.ForthKernel.Send: it appends the whole encoded cell as one write, where the source's unflushed `bufsize=2` pipe sends nothing for a write of at most two bytes (`Pipe.ShortCellHeld`) and sends held bytes ahead of the next longer write (`Pipe.HeldGoesFirst`).
- LegacyKernel.ForthKernel.DoExecute: the write at forth_kernel.py:114 is modelled followed by `flush()`, as in the package kernel, although the legacy `Popen` also has `bufsize=2` (forth_kernel.py:54) and never flushes. A closed stdin is a parameter and raises BrokenPipeError after the stale queues were drained.
- IForth.GForth.ExecCodeLine: the `write` and `drain()` on stdin cannot fail in the model. Once gforth has exited they raise (ConnectionResetError or BrokenPipeError), and the cell would end there.
- A cell holding a lone surrogate: `encode` raises UnicodeEncodeError in all three kernels. A Dafny `char` is a Unicode scalar value and cannot hold a surrogate, so this case does not arise in the model.
- IForth.IForth.constructor: it takes any `GForth`, started or not, so that `do_execute` can be stated for a live process. The source's kernel always holds the class attribute `GForth()`, which nothing starts; `IForth.ShippedCell` states what that kernel does (see Findings).
- Jupyter messaging: `send_response` appends to a message list. The base class's `execution_count` increment and its reply envelope are not modelled.
- Logging and the log file: they have no effect on results.
- `print_terminal`, the default `print_func` of `exec`: it writes to the terminal. Only `answer_text` and `print_stack` are modelled as `print_func`.
- `GForth.interrupt` and `IForth.interrupt_request`: the request handler calls the coroutine without awaiting it, so it sends no signal and passes a coroutine object to `answer_text`, and that path only fails. Signals are not modelled.
- `GForth.__aexit__`: terminating the process is I/O.
- The `initialized()` helper: it is the `started` field.
- The `cached_property` on the legacy banner: the banner is computed once, at construction.
- `IForth.gforth` is a class attribute shared by all kernels: the kernel holds a reference to one `GForth`, and aliasing between kernels is not modelled.
- PyText.SplitLines: it splits the text rather than its UTF-8 bytes. The two agree, because the bytes of a multi-byte character are never `\n` or `\r`.
- The `__main__` blocks, packaging, installation and the doctests: they are outside the kernels' behaviour.

## Findings

| source | as written | input that shows it | evidently intended | confidence | as-written member | corrected member |
|---|---|---|---|---|---|---|
| forth_kernel.py:132-135 | On a dead process the kernel calls `self.answer`, which the class does not define, so AttributeError escapes before the notice is sent or the kernel exits. | A cell whose run makes gforth exit, such as `bye`: the write succeeds (`broken` is false) and `poll()` then gives a status (`exitCode` is `Some`). A later cell of more than two bytes raises BrokenPipeError at the write instead, before `poll()` | Send the death notice on stderr and exit with gforth's status, as the package kernel does | not executed | LegacyKernel.ForthKernel.DoExecute | Kernel.ForthKernel.DoExecute |
| forth_kernel/forth_kernel.py:53-60 | `Popen(..., bufsize=2)` puts a two-byte buffer in front of gforth's stdin, in this kernel and at forth_kernel.py:54, and neither kernel flushes it, so a write of at most two bytes stays in the buffer until a later write. | The cell `.` (written as `.` and a newline) or an empty cell: gforth is not sent the cell, and `get_queue` waits out its budget for output that never comes | Flush after each write, or open stdin unbuffered, so that each cell reaches gforth as it is written | not executed | Pipe.ShortCellHeld | Pipe.FlushedWrite |
| forth_kernel/iforth.py:133 | The kernel's `gforth` is the class attribute `GForth()`, and nothing in the module starts it (`do_execute` never enters `async with`), so every cell that is not silent raises AttributeError at its first write. | Any cell that is not silent, such as `1 2 + .` | Start the process before the first cell, so that cells run and the stack is shown | not executed | IForth.ShippedCell | IForth.StartedCell |
| forth_kernel/iforth.py:75-77 | `__aenter__` calls `start()` without `await`, so the process is never created and every `exec` raises AttributeError at its first write. | `async with GForth() as g: await g.exec("1 2 + .")` | Await `start()`, so that `exec` runs the cell and returns the stack | not executed | IForth.GForth.AEnter | IForth.GForth.Start |

In the first row, the as-written member ends in `Raised(AttributeError)`
when the write succeeded and the process died during the cell. The
corrected member sends `DeathNotice` on stderr and ends in `Exited`. Once
the process is gone, the next Forth cell fails at the write in both
kernels (in the source, any cell of more than two bytes).

In the second row, `Pipe.HeldGoesFirst` adds that the held bytes go out
ahead of the next longer write, so a short cell's output is drained with
the next cell's. Both thread kernels use the corrected, flushed write.

In the third row, `IForth.ShippedCell` builds the kernel as the module
does. `IForth.StartedCell` awaits `start()` first and then reaches the same
`do_execute`, whose result `ExecSpec` describes.

In the fourth row, `IForth.ExecUnstarted` is the counterexample lemma. It
shows that without a process `exec` sends nothing and raises. After
`IForth.GForth.Start` the process exists, and `IForth.ExecAllSucceed` and
`IForth.ExecStackIff` state what `exec` then returns.
