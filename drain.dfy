/** `ForthKernel.get_queue`: drain the lines that gforth's reader thread
    has put on a queue, polling without blocking within a wait budget.

    The reader thread is replaced by the outcomes that successive
    `get_nowait` calls see: `polls[k]` is the outcome of the k-th call, and
    once the schedule is used up the queue stays empty. The float budget,
    lowered by 0.01 after each empty poll that sleeps, becomes a count of
    ticks. */
module Drain {
  import opened Utf8

  /** The outcome of one `queue.get_nowait()`: `Empty` is the exception. */
  datatype Poll = Empty | Got(line: Bytes)

  function PollAt(polls: seq<Poll>, k: nat): Poll
  {
    if k < |polls| then polls[k] else Empty
  }

  /** A poll that hands over a non-empty line, which keeps the loop going. */
  predicate Carries(p: Poll)
  {
    p.Got? && |p.line| > 0
  }

  /** Index of the first poll in `from..limit` that hands over a line, or
      `limit` when the queue stays empty that long. */
  function FirstArrival(polls: seq<Poll>, from: nat, limit: nat): (w: nat)
    requires from <= limit
    ensures from <= w <= limit
    ensures forall i :: from <= i < w ==> PollAt(polls, i) == Empty
    ensures w < limit ==> PollAt(polls, w).Got?
    decreases limit - from
  {
    if from == limit then limit
    else if PollAt(polls, from).Got? then from
    else FirstArrival(polls, from + 1, limit)
  }

  /** Index of the first poll from `from` on that yields no bytes (the queue
      is empty, or hands over an empty line). */
  function RunEnd(polls: seq<Poll>, from: nat): (e: nat)
    ensures from <= e
    ensures !Carries(PollAt(polls, e))
    ensures forall i :: from <= i < e ==> Carries(PollAt(polls, i))
    decreases |polls| - from
  {
    if from >= |polls| || !Carries(polls[from]) then from
    else RunEnd(polls, from + 1)
  }

  /** How many polls `get_queue` makes with a budget of `budget` ticks: the
      whole budget when nothing arrives in time, otherwise up to and
      including the first poll after the arrival that yields nothing. */
  function PollCount(polls: seq<Poll>, budget: nat): nat
    requires budget > 0
  {
    var w := FirstArrival(polls, 0, budget);
    if w == budget then budget else RunEnd(polls, w) + 1
  }

  /** The lines handed over by the first `n` polls, in the order they were taken. */
  function Received(polls: seq<Poll>, n: nat): seq<Bytes>
  {
    if n == 0 then []
    else Received(polls, n - 1) + (if PollAt(polls, n - 1).Got? then [PollAt(polls, n - 1).line] else [])
  }

  /** The lines, each decoded by `decode`, concatenated in order. */
  function JoinDecoded(lines: seq<Bytes>, decode: Bytes -> string): string
  {
    if lines == [] then "" else JoinDecoded(lines[..|lines| - 1], decode) + decode(lines[|lines| - 1])
  }

  /** The text `get_queue` returns: each line decoded as UTF-8, or as
      Latin-1 where that fails. */
  function Drained(polls: seq<Poll>, budget: nat): string
    requires budget > 0
  {
    JoinDecoded(Received(polls, PollCount(polls, budget)), DecodeLine)
  }

  /** What is left of the schedule after `used` polls. */
  function Rest(polls: seq<Poll>, used: nat): seq<Poll>
  {
    if used < |polls| then polls[used..] else []
  }

  /** The polling loop. `used` counts the `get_nowait` calls and `slept`
      the 0.01-second sleeps; both are observable only through time. The
      per-line decoding (`Utf8.DecodeLine` at both call sites) is a
      parameter, since the loop does not depend on what it computes. */
  method GetQueue(polls: seq<Poll>, budget: nat, decode: Bytes -> string) returns (output: string, used: nat, slept: nat)
    requires budget > 0
    ensures used == PollCount(polls, budget)
    ensures output == JoinDecoded(Received(polls, used), decode)
    ensures slept == FirstArrival(polls, 0, budget)
  {
    output := "";
    var line: Bytes := [0x2E];  // b"."
    var timeout := budget;
    used, slept := 0, 0;
    ghost var w := FirstArrival(polls, 0, budget);
    while |line| > 0 || timeout > 0
      invariant output == JoinDecoded(Received(polls, used), decode)
      invariant used <= w ==> timeout == budget - used && slept == used
      invariant used <= w ==> used == 0 || line == []
      invariant used > w ==> w < budget && timeout == 0 && slept == w
      invariant used > w ==> used - 1 <= RunEnd(polls, w)
      invariant used > w ==> line == (if PollAt(polls, used - 1).Got? then PollAt(polls, used - 1).line else [])
      decreases (if used < |polls| then 2 * (|polls| - used) else 0) + timeout + (if |line| > 0 then 1 else 0)
    {
      var got := PollAt(polls, used);
      ghost var before := Received(polls, used);
      used := used + 1;
      if got.Empty? {
        assert Received(polls, used) == before + [] == before;
        line := [];
        if timeout > 0 {
          timeout := timeout - 1;
          slept := slept + 1;
        }
      } else {
        line := got.line;
        assert Received(polls, used) == before + [line];
        assert (before + [line])[..|before|] == before;
        output := output + decode(line);
        timeout := 0;
      }
    }
  }

  /** A queue that stays empty for the whole budget: `get_queue` polls
      `budget` times, sleeping after each, and returns "". */
  lemma {:induction false} QuietQueue(polls: seq<Poll>, budget: nat)
    requires budget > 0
    requires forall i :: 0 <= i < budget ==> PollAt(polls, i) == Empty
    ensures PollCount(polls, budget) == budget
    ensures FirstArrival(polls, 0, budget) == budget
    ensures Drained(polls, budget) == ""
  {
    NothingReceived(polls, budget);
  }

  lemma {:induction false} NothingReceived(polls: seq<Poll>, n: nat)
    requires forall i :: 0 <= i < n ==> PollAt(polls, i) == Empty
    ensures Received(polls, n) == []
  {
    if n > 0 {
      NothingReceived(polls, n - 1);
    }
  }

  /** Once a line has been taken, draining stops at the first empty poll:
      every later poll but the last hands over a line, and the last yields
      nothing. That all sleeping happened before the arrival is what
      `GetQueue`'s `slept` states. */
  lemma NoWaitAfterArrival(polls: seq<Poll>, budget: nat)
    requires budget > 0
    requires FirstArrival(polls, 0, budget) < budget
    ensures var w, n := FirstArrival(polls, 0, budget), PollCount(polls, budget);
      w < n &&
      (forall i :: 0 <= i < w ==> PollAt(polls, i) == Empty) &&
      PollAt(polls, w).Got? &&
      (forall i :: w < i < n - 1 ==> Carries(PollAt(polls, i))) &&
      !Carries(PollAt(polls, n - 1))
  {
  }

  /** The lines taken are exactly the lines the queue handed over, none
      skipped, none reordered: the received lines are the arrivals from the
      first one on, in queue order. The reader thread never queues an empty
      line (it stops at the first empty read), which the second requires says. */
  lemma {:induction false} TakenInOrder(polls: seq<Poll>, budget: nat)
    requires budget > 0
    requires forall i :: 0 <= i < |polls| ==> polls[i] != Got([])
    requires FirstArrival(polls, 0, budget) < budget
    ensures var w, n := FirstArrival(polls, 0, budget), PollCount(polls, budget);
      Received(polls, n) == seq(n - 1 - w, i requires 0 <= i < n - 1 - w => PollAt(polls, w + i).line)
  {
    var w, n := FirstArrival(polls, 0, budget), PollCount(polls, budget);
    NothingReceived(polls, w);
    ReceivedRun(polls, w, n - 1);
    assert PollAt(polls, n - 1) == Empty;
  }

  lemma {:induction false} ReceivedRun(polls: seq<Poll>, w: nat, n: nat)
    requires w <= n
    requires Received(polls, w) == []
    requires forall i :: w <= i < n ==> PollAt(polls, i).Got?
    ensures Received(polls, n) == seq(n - w, i requires 0 <= i < n - w => PollAt(polls, w + i).line)
  {
    if n > w {
      ReceivedRun(polls, w, n - 1);
      var r := seq(n - 1 - w, i requires 0 <= i < n - 1 - w => PollAt(polls, w + i).line);
      assert Received(polls, n) == r + [PollAt(polls, n - 1).line];
    }
  }
}
