/** The lifetime of a Rust object held by a C# `ControllerInfo`: a lock-free call counter decides
    when the `Arc` pointer is freed.

    The protocol is a step system over any number of threads. Each atomic operation of the source is
    one step: reading the counter, comparing and swapping it, cloning the pointer, using the clone,
    decrementing, and freeing. A finalizer is a thread like any other: it runs `Destroy`. */
module ObjectLifetime {
  import opened Bytes

  /** What the callback does with the cloned pointer: a method passes it to Rust, which consumes it;
      `Lower` hands it to the caller. */
  datatype Use = MethodCall | LowerPointer

  datatype Outcome = NotStarted | Returned | ObjectDisposed | CounterOverflow | CallFailed

  /** Where a thread stands; the next step is named. */
  datatype Pc =
    | Idle(last: Outcome)
    | ReadingCount(use: Use)                          // Interlocked.Read
    | Swapping(use: Use, count: int, seen: int)       // Interlocked.CompareExchange on the counter
    | Cloning(use: Use)                               // CloneRustArcPtr
    | Using(use: Use)                                 // the callback
    | Releasing(outcome: Outcome)                     // Interlocked.Decrement after a call
    | Destroying                                      // CompareExchange on _wasDestroyed
    | DroppingToken                                   // Interlocked.Decrement in Destroy
    | Freeing(outcome: Outcome)                       // FreeRustArcPtr

  /** `retries` counts the thread's failed swaps and `changes` its own updates of the counter. */
  datatype Thread = Thread(pc: Pc, retries: nat, changes: nat)

  datatype State = State(
    counter: int,          // _callCounter
    destroyed: bool,       // _wasDestroyed
    strong: int,           // Rust's strong count of the Arc
    freed: nat,            // executions of FreeRustArcPtr
    handedOut: nat,        // clones returned by Lower and not consumed yet
    threads: seq<Thread>,
    changes: nat,          // updates of the counter so far, by any thread
    starts: nat,           // operations started so far
    steps: nat)            // steps taken by the threads so far

  datatype Choice = StartCall(use: Use) | StartDestroy | Proceed | FailClone

  /** A scheduler's choice, or the consumption by Rust of a clone that `Lower` handed out. */
  datatype Event = Act(thread: nat, choice: Choice) | ConsumeHandedOut

  // ---------- Steps ----------

  function Init(n: nat): State {
    State(1, false, 1, 0, 0, seq(n, _ => Thread(Idle(NotStarted), 0, 0)), 0, 0, 0)
  }

  function Goto(s: State, t: nat, pc: Pc): State
    requires t < |s.threads|
  {
    s.(threads := s.threads[t := s.threads[t].(pc := pc)], steps := s.steps + 1)
  }

  function Retry(s: State, t: nat, use: Use): State
    requires t < |s.threads|
  {
    var th := s.threads[t];
    s.(threads := s.threads[t := Thread(ReadingCount(use), th.retries + 1, th.changes)], steps := s.steps + 1)
  }

  /** An update of the counter by thread `t`. */
  function Count(s: State, t: nat, counter: int, pc: Pc): State
    requires t < |s.threads|
  {
    var th := s.threads[t];
    s.(counter := counter, changes := s.changes + 1, steps := s.steps + 1,
       threads := s.threads[t := Thread(pc, th.retries, th.changes + 1)])
  }

  /** Updates of the counter by threads other than `t`. */
  function ByOthers(s: State, t: nat): int
    requires t < |s.threads|
  {
    s.changes - s.threads[t].changes
  }

  function Decrement(s: State, t: nat, outcome: Outcome): State
    requires t < |s.threads|
  {
    Count(s, t, s.counter - 1, if s.counter - 1 == 0 then Freeing(outcome) else Idle(outcome))
  }

  function Move(s: State, t: nat, choice: Choice): State
    requires t < |s.threads|
  {
    match s.threads[t].pc
    case Idle(_) => (
      match choice
      case StartCall(use) => Goto(s, t, ReadingCount(use)).(starts := s.starts + 1)
      case StartDestroy => Goto(s, t, Destroying).(starts := s.starts + 1)
      case _ => s)
    case ReadingCount(use) =>
      if s.counter == 0 then Goto(s, t, Idle(ObjectDisposed))
      else if s.counter == INT64_MAX then Goto(s, t, Idle(CounterOverflow))
      else Goto(s, t, Swapping(use, s.counter, ByOthers(s, t)))
    case Swapping(use, count, _) =>
      if s.counter == count then Count(s, t, count + 1, Cloning(use)) else Retry(s, t, use)
    case Cloning(use) =>
      if choice == FailClone then Goto(s, t, Releasing(CallFailed))
      else Goto(s, t, Using(use)).(strong := s.strong + 1)
    case Using(use) => (
      match use
      case MethodCall => Goto(s, t, Releasing(Returned)).(strong := s.strong - 1)
      case LowerPointer => Goto(s, t, Releasing(Returned)).(handedOut := s.handedOut + 1))
    case Releasing(outcome) => Decrement(s, t, outcome)
    case Destroying =>
      if s.destroyed then Goto(s, t, Idle(Returned))
      else Goto(s, t, DroppingToken).(destroyed := true)
    case DroppingToken => Decrement(s, t, Returned)
    case Freeing(outcome) => Goto(s, t, Idle(outcome)).(freed := s.freed + 1, strong := s.strong - 1)
  }

  function Step(s: State, e: Event): State {
    match e
    case Act(t, choice) => if t < |s.threads| then Move(s, t, choice) else s
    case ConsumeHandedOut =>
      if s.handedOut > 0 then s.(handedOut := s.handedOut - 1, strong := s.strong - 1) else s
  }

  /** A run: the events from left to right. */
  function Exec(s: State, run: seq<Event>): State {
    if run == [] then s else Step(Exec(s, run[..|run| - 1]), run[|run| - 1])
  }

  // ---------- What happens in a run, counted over its events ----------

  datatype Happening =
    | ThreadStep                  // a thread takes a step
    | OperationStart              // a call or a destroy begins
    | RetryBy(thread: nat)        // a compare-and-swap of the thread finds another count
    | CounterChange               // the counter takes another value
    | CounterChangeBy(thread: nat)
    | CloneTaken                  // CloneRustArcPtr succeeds
    | CloneUsed                   // Rust consumes a clone passed to a method
    | CloneHandedOut              // Lower returns a clone
    | HandedOutConsumed           // Rust consumes such a clone
    | PointerFreed                // FreeRustArcPtr runs

  /** It happens as thread `t` moves. */
  predicate Does(h: Happening, s: State, t: nat, choice: Choice)
    requires t < |s.threads|
  {
    var pc := s.threads[t].pc;
    var starts := choice.StartCall? || choice.StartDestroy?;
    match h
    case ThreadStep => pc.Idle? ==> starts
    case OperationStart => pc.Idle? && starts
    case RetryBy(u) => t == u && pc.Swapping? && pc.count != s.counter
    case CounterChange => Move(s, t, choice).counter != s.counter
    case CounterChangeBy(u) => t == u && Move(s, t, choice).counter != s.counter
    case CloneTaken => pc.Cloning? && choice != FailClone
    case CloneUsed => pc == Using(MethodCall)
    case CloneHandedOut => pc == Using(LowerPointer)
    case HandedOutConsumed => false
    case PointerFreed => pc.Freeing?
  }

  predicate Happens(h: Happening, s: State, e: Event) {
    match e
    case Act(t, choice) => t < |s.threads| && Does(h, s, t, choice)
    case ConsumeHandedOut => h == HandedOutConsumed && s.handedOut > 0
  }

  /** How often it happens in a run from `s`. */
  function Occurrences(h: Happening, s: State, run: seq<Event>): nat {
    if run == [] then 0 else
    var before := run[..|run| - 1];
    Occurrences(h, s, before) + if Happens(h, Exec(s, before), run[|run| - 1]) then 1 else 0
  }

  // ---------- Sums over the threads ----------

  function Sum(ts: seq<Thread>, w: Thread -> int): int {
    if ts == [] then 0 else Sum(ts[..|ts| - 1], w) + w(ts[|ts| - 1])
  }

  lemma {:induction false} SumUpdate(ts: seq<Thread>, t: nat, th: Thread, w: Thread -> int)
    requires t < |ts|
    ensures Sum(ts[t := th], w) == Sum(ts, w) - w(ts[t]) + w(th)
  {
    var front := ts[..|ts| - 1];
    if t < |ts| - 1 {
      SumUpdate(front, t, th, w);
      assert ts[t := th][..|ts| - 1] == front[t := th];
    } else {
      assert ts[t := th][..|ts| - 1] == front;
    }
  }

  lemma {:induction false} SumBound(ts: seq<Thread>, w: Thread -> int, t: nat)
    requires (forall th :: w(th) >= 0) && t < |ts|
    ensures Sum(ts, w) >= w(ts[t])
  {
    SumNonNegative(ts[..|ts| - 1], w);
    if t < |ts| - 1 {
      SumBound(ts[..|ts| - 1], w, t);
    }
  }

  lemma {:induction false} SumNonNegative(ts: seq<Thread>, w: Thread -> int)
    requires forall th :: w(th) >= 0
    ensures Sum(ts, w) >= 0
  {
    if ts != [] {
      SumNonNegative(ts[..|ts| - 1], w);
    }
  }

  lemma {:induction false} SumAtMost(ts: seq<Thread>, w: Thread -> int, bound: int)
    requires forall t :: 0 <= t < |ts| ==> w(ts[t]) <= bound
    ensures Sum(ts, w) <= bound * |ts|
  {
    if ts != [] {
      SumAtMost(ts[..|ts| - 1], w, bound);
    }
  }

  lemma {:induction false} SumAllZero(ts: seq<Thread>, w: Thread -> int)
    requires forall t :: 0 <= t < |ts| ==> w(ts[t]) == 0
    ensures Sum(ts, w) == 0
  {
    if ts != [] {
      SumAllZero(ts[..|ts| - 1], w);
    }
  }

  /** The thread is between a successful increment and its decrement. */
  function Holding(th: Thread): int {
    if th.pc.Cloning? || th.pc.Using? || th.pc.Releasing? then 1 else 0
  }

  /** The thread has won `Destroy` and not yet given up the owner's token. */
  function Dropping(th: Thread): int { if th.pc.DroppingToken? then 1 else 0 }

  function AboutToFree(th: Thread): int { if th.pc.Freeing? then 1 else 0 }

  /** The thread has a clone of its own. */
  function WithClone(th: Thread): int { if th.pc.Using? then 1 else 0 }

  /** Steps the thread has left if nobody interferes. */
  function Rank(th: Thread): int {
    match th.pc
    case Idle(_) => 0
    case Freeing(_) => 1
    case Releasing(_) | DroppingToken => 2
    case Using(_) | Destroying => 3
    case Cloning(_) => 4
    case Swapping(_, _, _) => 5
    case ReadingCount(_) => 6
  }

  /** Updates of the counter the thread may still make in its present operation. */
  function Pending(th: Thread): int {
    match th.pc
    case Idle(_) | Freeing(_) => 0
    case ReadingCount(_) | Swapping(_, _, _) => 2
    case _ => 1
  }

  function Retries(th: Thread): int { th.retries }

  // ---------- The invariant ----------

  /** The owner's token: held until the winning `Destroy` has decremented. */
  function Token(s: State): int {
    (if s.destroyed then 0 else 1) + Sum(s.threads, Dropping)
  }

  /** The counter is the token plus the calls in flight; the last of them to go frees; the strong
      count is the original pointer plus the clones. */
  ghost predicate Balanced(s: State) {
    && s.counter == Token(s) + Sum(s.threads, Holding)
    && 0 <= Token(s) <= 1
    && s.counter <= INT64_MAX
    && Sum(s.threads, AboutToFree) + s.freed == (if s.counter == 0 then 1 else 0)
    && s.strong == 1 - s.freed + Sum(s.threads, WithClone) + s.handedOut
  }

  /** A swap expects a count that is current unless another thread has changed the counter since,
      and each retry is paid for by such a change. */
  ghost predicate Paid(s: State, t: nat)
    requires t < |s.threads|
  {
    var th := s.threads[t];
    && th.retries <= ByOthers(s, t)
    && (th.pc.Swapping? ==>
          && 0 < th.pc.count < INT64_MAX
          && th.retries <= th.pc.seen <= ByOthers(s, t)
          && (th.pc.seen == ByOthers(s, t) ==> s.counter == th.pc.count))
  }

  /** Every step is paid for by an operation started or by a retry. */
  ghost predicate Bounded(s: State) {
    && s.steps + Sum(s.threads, Rank) <= 7 * s.starts + 2 * Sum(s.threads, Retries)
    && s.changes + Sum(s.threads, Pending) <= 2 * s.starts
  }

  ghost predicate Inv(s: State) {
    && Balanced(s)
    && (forall t :: 0 <= t < |s.threads| ==> Paid(s, t))
    && Bounded(s)
  }
}
