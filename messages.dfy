/** What the kernels send to the Jupyter front end on the IOPub channel,
    what `do_execute` hands back, and the Python exceptions that can end a
    request instead. Sending a message is modelled by appending it to a
    list of sent messages. */
module Messages {

  datatype StreamName = Stdout | Stderr

  datatype Message =
    | Stream(name: StreamName, text: string)      // "stream"
    | DisplayData(html: string)                   // "display_data" with {"text/html": html}
    | ExecuteResult(count: int, plain: string)    // "execute_result" with {"text/plain": plain}

  /** `answer_text`: a stream message whose text is the argument and a newline. */
  function AnswerText(text: string, stream: StreamName): (m: Message)
    ensures m.Stream? && m.name == stream
    ensures |m.text| == |text| + 1 && m.text[..|text|] == text && m.text[|text|] == '\n'
  {
    Stream(stream, text + "\n")
  }

  /** The reply dictionary of a finished `execute_request`. */
  datatype ExecuteReply = ExecuteReply(status: string, executionCount: int, payload: seq<string>, userExpressions: map<string, string>)

  /** `success_response`: status "ok", the current execution count, no payload
      and no user expressions. */
  function SuccessResponse(count: int): (r: ExecuteReply)
    ensures r.status == "ok" && r.executionCount == count
    ensures r.payload == [] && r.userExpressions == map[]
  {
    ExecuteReply("ok", count, [], map[])
  }

  /** The exceptions that can escape a request. */
  datatype PyError =
    | CalledProcessError    // the shell command of a `!` cell exited with a non-zero status
    | AttributeError        // a missing attribute was looked up
    | UnicodeDecodeError    // bytes that are not UTF-8 were decoded strictly
    | FileNotFoundError     // no executable of that name was found
    | BrokenPipeError       // gforth's stdin was written after gforth had exited

  /** The value a call returns, or the exception it raises. */
  datatype Result<T> = Ok(value: T) | Failure(error: PyError)

  /** How a request ends: a reply, `sys.exit(code)`, or an exception. */
  datatype Completion = Replied(reply: ExecuteReply) | Exited(code: int) | Raised(error: PyError)
}
