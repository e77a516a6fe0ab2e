/** What every run of the lifetime protocol keeps, and what follows. */
module ObjectLifetimeProofs {
  import opened Bytes
  import opened ObjectLifetime

  lemma SumsUpdate(ts: seq<Thread>, t: nat, th: Thread)
    requires t < |ts|
    ensures Sum(ts[t := th], Holding) == Sum(ts, Holding) - Holding(ts[t]) + Holding(th)
    ensures Sum(ts[t := th], Dropping) == Sum(ts, Dropping) - Dropping(ts[t]) + Dropping(th)
    ensures Sum(ts[t := th], AboutToFree) == Sum(ts, AboutToFree) - AboutToFree(ts[t]) + AboutToFree(th)
    ensures Sum(ts[t := th], WithClone) == Sum(ts, WithClone) - WithClone(ts[t]) + WithClone(th)
    ensures Sum(ts[t := th], Rank) == Sum(ts, Rank) - Rank(ts[t]) + Rank(th)
    ensures Sum(ts[t := th], Pending) == Sum(ts, Pending) - Pending(ts[t]) + Pending(th)
    ensures Sum(ts[t := th], Retries) == Sum(ts, Retries) - Retries(ts[t]) + Retries(th)
  {
    SumUpdate(ts, t, th, Holding);
    SumUpdate(ts, t, th, Dropping);
    SumUpdate(ts, t, th, AboutToFree);
    SumUpdate(ts, t, th, WithClone);
    SumUpdate(ts, t, th, Rank);
    SumUpdate(ts, t, th, Pending);
    SumUpdate(ts, t, th, Retries);
  }

  lemma SumsBound(ts: seq<Thread>, t: nat)
    requires t < |ts|
    ensures Sum(ts, Holding) >= Holding(ts[t]) && Sum(ts, Dropping) >= Dropping(ts[t])
    ensures Sum(ts, AboutToFree) >= AboutToFree(ts[t]) && Sum(ts, WithClone) >= WithClone(ts[t])
  {
    SumBound(ts, Holding, t);
    SumBound(ts, Dropping, t);
    SumBound(ts, AboutToFree, t);
    SumBound(ts, WithClone, t);
  }

  lemma InitInv(n: nat)
    ensures Inv(Init(n))
  {
    var ts := Init(n).threads;
    SumAllZero(ts, Holding);
    SumAllZero(ts, Dropping);
    SumAllZero(ts, AboutToFree);
    SumAllZero(ts, WithClone);
    SumAllZero(ts, Rank);
    SumAllZero(ts, Pending);
    SumAllZero(ts, Retries);
  }

  lemma SumsNonNegative(ts: seq<Thread>)
    ensures Sum(ts, Holding) >= 0 && Sum(ts, Dropping) >= 0 && Sum(ts, AboutToFree) >= 0
    ensures Sum(ts, WithClone) >= 0 && Sum(ts, Rank) >= 0 && Sum(ts, Pending) >= 0
  {
    SumNonNegative(ts, Holding);
    SumNonNegative(ts, Dropping);
    SumNonNegative(ts, AboutToFree);
    SumNonNegative(ts, WithClone);
    SumNonNegative(ts, Rank);
    SumNonNegative(ts, Pending);
  }

  lemma MoveBalanced(s: State, t: nat, choice: Choice)
    requires Inv(s) && t < |s.threads|
    ensures Balanced(Move(s, t, choice))
  {
    hide Sum;
    SumsUpdate(s.threads, t, Move(s, t, choice).threads[t]);
    SumsBound(s.threads, t);
    SumsNonNegative(s.threads);
    assert Paid(s, t);
    match s.threads[t].pc
    case Idle(_) =>
    case ReadingCount(_) =>
    case Swapping(_, _, _) =>
    case Cloning(_) =>
    case Using(_) =>
    case Releasing(_) =>
    case Destroying =>
    case DroppingToken =>
    case Freeing(_) =>
  }

  /** The thread that moves: it observes the counter afresh, or finds it changed by another. */
  lemma MoverPaid(s: State, t: nat, choice: Choice)
    requires Inv(s) && t < |s.threads|
    ensures Paid(Move(s, t, choice), t)
  {
    hide Sum;
    assert Paid(s, t);
    SumsNonNegative(s.threads);
    SumsBound(s.threads, t);
  }

  /** The others: a move either leaves the counter alone or is one more change by another. */
  lemma OtherPaid(s: State, t: nat, choice: Choice, u: nat)
    requires Inv(s) && t < |s.threads| && u < |s.threads| && u != t
    ensures Paid(Move(s, t, choice), u)
  {
    hide Sum, Balanced, Bounded;
    assert Paid(s, u);
    var s' := Move(s, t, choice);
    assert s'.threads[u] == s.threads[u];
    assert (s'.changes == s.changes && s'.counter == s.counter) || s'.changes == s.changes + 1;
  }

  /** One step, seen from the thread that takes it. */
  lemma MoveCost(s: State, t: nat, choice: Choice)
    requires t < |s.threads|
    ensures var s' := Move(s, t, choice);
            var th, th' := s.threads[t], s'.threads[t];
            && s'.threads == s.threads[t := th']
            && s'.steps + Rank(th') + 7 * s.starts + 2 * Retries(th)
               <= s.steps + Rank(th) + 7 * s'.starts + 2 * Retries(th')
  {
    match s.threads[t].pc
    case Idle(_) =>
      match choice {
        case StartCall(_) =>
        case StartDestroy =>
        case _ => assert s.threads == s.threads[t := s.threads[t]];
      }
    case ReadingCount(_) =>
    case Swapping(_, _, _) =>
    case Cloning(_) =>
    case Using(use) =>
      match use {
        case MethodCall =>
        case LowerPointer =>
      }
    case Releasing(_) =>
    case Destroying =>
    case DroppingToken =>
    case Freeing(_) =>
  }

  lemma MoveStepsBounded(s: State, t: nat, choice: Choice)
    requires t < |s.threads| && s.steps + Sum(s.threads, Rank) <= 7 * s.starts + 2 * Sum(s.threads, Retries)
    ensures var s' := Move(s, t, choice);
            s'.steps + Sum(s'.threads, Rank) <= 7 * s'.starts + 2 * Sum(s'.threads, Retries)
  {
    hide Sum, Move;
    MoveCost(s, t, choice);
    var th := Move(s, t, choice).threads[t];
    SumUpdate(s.threads, t, th, Rank);
    SumUpdate(s.threads, t, th, Retries);
  }

  lemma MoveChangesBounded(s: State, t: nat, choice: Choice)
    requires t < |s.threads| && s.changes + Sum(s.threads, Pending) <= 2 * s.starts
    ensures var s' := Move(s, t, choice);
            s'.changes + Sum(s'.threads, Pending) <= 2 * s'.starts
  {
    hide Sum;
    SumUpdate(s.threads, t, Move(s, t, choice).threads[t], Pending);
  }

  lemma MovePaid(s: State, t: nat, choice: Choice, u: nat)
    requires Inv(s) && t < |s.threads| && u < |s.threads|
    ensures |Move(s, t, choice).threads| == |s.threads| && Paid(Move(s, t, choice), u)
  {
    hide Inv, Paid, Move;
    MoveCost(s, t, choice);
    if u == t {
      MoverPaid(s, t, choice);
    } else {
      OtherPaid(s, t, choice, u);
    }
  }

  lemma MoveInv(s: State, t: nat, choice: Choice)
    requires Inv(s) && t < |s.threads|
    ensures Inv(Move(s, t, choice)) && |Move(s, t, choice).threads| == |s.threads|
  {
    hide Balanced, Paid, Move, Sum;
    MoveBalanced(s, t, choice);
    MoveStepsBounded(s, t, choice);
    MoveChangesBounded(s, t, choice);
    MoveCost(s, t, choice);
    forall u | 0 <= u < |s.threads| ensures Paid(Move(s, t, choice), u) {
      MovePaid(s, t, choice, u);
    }
  }

  lemma StepInv(s: State, e: Event)
    requires Inv(s)
    ensures Inv(Step(s, e)) && |Step(s, e).threads| == |s.threads|
  {
    hide Move, Sum;
    if e.Act? && e.thread < |s.threads| {
      MoveInv(s, e.thread, e.choice);
    } else {
      forall u | 0 <= u < |s.threads| ensures Paid(Step(s, e), u) {
        assert Paid(s, u);
      }
    }
  }

  /** The invariant holds in every state of every run. */
  lemma {:induction false} RunInv(s: State, run: seq<Event>)
    requires Inv(s)
    ensures Inv(Exec(s, run)) && |Exec(s, run).threads| == |s.threads|
  {
    if run != [] {
      RunInv(s, run[..|run| - 1]);
      StepInv(Exec(s, run[..|run| - 1]), run[|run| - 1]);
    }
  }

  lemma {:induction false} ExecConcat(s: State, a: seq<Event>, b: seq<Event>)
    ensures Exec(s, a + b) == Exec(Exec(s, a), b)
  {
    if b == [] {
      assert a + b == a;
    } else {
      ExecConcat(s, a, b[..|b| - 1]);
      assert (a + b)[..|a + b| - 1] == a + b[..|b| - 1];
    }
  }

  // ---------- The tallies kept in the state are those of the events ----------

  function One(h: Happening, s: State, t: nat, choice: Choice): nat
    requires t < |s.threads|
  {
    if Does(h, s, t, choice) then 1 else 0
  }

  lemma MoveSteps(s: State, t: nat, choice: Choice)
    requires t < |s.threads|
    ensures Move(s, t, choice).steps == s.steps + One(ThreadStep, s, t, choice)
    ensures Move(s, t, choice).starts == s.starts + One(OperationStart, s, t, choice)
  {}

  lemma MoveChanges(s: State, t: nat, choice: Choice)
    requires t < |s.threads|
    ensures Move(s, t, choice).changes == s.changes + One(CounterChange, s, t, choice)
    ensures |Move(s, t, choice).threads| == |s.threads|
  {}

  lemma MoveHandles(s: State, t: nat, choice: Choice)
    requires t < |s.threads|
    ensures Move(s, t, choice).freed == s.freed + One(PointerFreed, s, t, choice)
    ensures Move(s, t, choice).handedOut == s.handedOut + One(CloneHandedOut, s, t, choice)
    ensures One(HandedOutConsumed, s, t, choice) == 0
  {}

  lemma MoveStrong(s: State, t: nat, choice: Choice)
    requires t < |s.threads|
    ensures Move(s, t, choice).strong == s.strong + One(CloneTaken, s, t, choice) - One(CloneUsed, s, t, choice)
                                         - One(PointerFreed, s, t, choice)
  {}

  lemma MoveThreadTallies(s: State, t: nat, choice: Choice)
    requires t < |s.threads|
    ensures var s' := Move(s, t, choice);
            && s'.threads == s.threads[t := s'.threads[t]]
            && s'.threads[t].retries == s.threads[t].retries + One(RetryBy(t), s, t, choice)
            && s'.threads[t].changes == s.threads[t].changes + One(CounterChangeBy(t), s, t, choice)
  {
    MoveCost(s, t, choice);
  }

  lemma NotByOthers(s: State, t: nat, choice: Choice, u: nat)
    requires t < |s.threads| && u != t
    ensures One(RetryBy(u), s, t, choice) == One(CounterChangeBy(u), s, t, choice) == 0
  {}

  /** What the state counts is what happened: steps, starts and updates of the counter. */
  lemma {:induction false} Tallies(n: nat, run: seq<Event>)
    ensures var s := Exec(Init(n), run);
            && |s.threads| == n
            && s.steps == Occurrences(ThreadStep, Init(n), run)
            && s.starts == Occurrences(OperationStart, Init(n), run)
            && s.changes == Occurrences(CounterChange, Init(n), run)
  {
    hide Does, Move;
    if run != [] {
      var before, e := Exec(Init(n), run[..|run| - 1]), run[|run| - 1];
      Tallies(n, run[..|run| - 1]);
      if e.Act? && e.thread < n {
        MoveSteps(before, e.thread, e.choice);
        MoveChanges(before, e.thread, e.choice);
      }
    }
  }

  /** The clones handed out are those `Lower` returned and Rust has not consumed since. Rust's strong
      count is one for the pointer itself, plus the clones taken, minus those consumed by methods, those
      consumed after `Lower`, and the frees. */
  lemma {:induction false} PointerTallies(n: nat, run: seq<Event>)
    ensures var s := Exec(Init(n), run);
            && |s.threads| == n
            && s.freed == Occurrences(PointerFreed, Init(n), run)
            && s.handedOut == Occurrences(CloneHandedOut, Init(n), run) - Occurrences(HandedOutConsumed, Init(n), run)
            && s.strong == 1 + Occurrences(CloneTaken, Init(n), run) - Occurrences(CloneUsed, Init(n), run)
                           - Occurrences(HandedOutConsumed, Init(n), run) - Occurrences(PointerFreed, Init(n), run)
  {
    hide Does, Move;
    if run != [] {
      var before, e := Exec(Init(n), run[..|run| - 1]), run[|run| - 1];
      PointerTallies(n, run[..|run| - 1]);
      if e.Act? && e.thread < n {
        MoveChanges(before, e.thread, e.choice);
        MoveHandles(before, e.thread, e.choice);
        MoveStrong(before, e.thread, e.choice);
      }
    }
  }

  lemma {:induction false} ThreadTallies(n: nat, run: seq<Event>, t: nat)
    requires t < n
    ensures var s := Exec(Init(n), run);
            && |s.threads| == n
            && s.threads[t].retries == Occurrences(RetryBy(t), Init(n), run)
            && s.threads[t].changes == Occurrences(CounterChangeBy(t), Init(n), run)
  {
    hide Does, Move;
    if run != [] {
      var before, e := Exec(Init(n), run[..|run| - 1]), run[|run| - 1];
      ThreadTallies(n, run[..|run| - 1], t);
      if e.Act? && e.thread < n {
        MoveThreadTallies(before, e.thread, e.choice);
        if e.thread != t {
          NotByOthers(before, e.thread, e.choice, t);
        }
      }
    }
  }

  // ---------- Safety ----------

  predicate Quiescent(s: State) {
    forall t :: 0 <= t < |s.threads| ==> s.threads[t].pc.Idle?
  }

  /** Whoever clones, uses or frees the pointer finds it unfreed and the object alive. */
  lemma NoUseAfterFree(n: nat, run: seq<Event>, t: nat)
    requires t < n
    ensures var s := Exec(Init(n), run);
            && |s.threads| == n
            && (s.threads[t].pc.Cloning? || s.threads[t].pc.Using? || s.threads[t].pc.Freeing? ==>
                  s.freed == 0 && s.strong >= 1)
  {
    hide Sum;
    InitInv(n);
    RunInv(Init(n), run);
    var s := Exec(Init(n), run);
    SumsBound(s.threads, t);
    SumsNonNegative(s.threads);
  }

  /** The pointer is freed at most once, only after `Destroy` won and with no call in flight; and
      once all threads are done it has been freed exactly when `Destroy` has run. */
  lemma FreedExactlyOnce(n: nat, run: seq<Event>)
    ensures var s := Exec(Init(n), run);
            && s.freed == Occurrences(PointerFreed, Init(n), run) <= 1
            && (s.freed == 1 ==> s.destroyed && s.counter == 0 && Sum(s.threads, Holding) == 0)
            && (Quiescent(s) ==> s.freed == (if s.destroyed then 1 else 0))
            && (Quiescent(s) ==> s.counter == 1 - s.freed)
  {
    hide Sum;
    InitInv(n);
    RunInv(Init(n), run);
    PointerTallies(n, run);
    var s := Exec(Init(n), run);
    SumsNonNegative(s.threads);
    if Quiescent(s) {
      SumAllZero(s.threads, Holding);
      SumAllZero(s.threads, Dropping);
      SumAllZero(s.threads, AboutToFree);
    }
  }

  /** The strong count is conserved: the original pointer until it is freed, one per call that has
      cloned and not yet consumed, one per pointer handed out. In particular a pointer that `Lower`
      handed out keeps the object alive whatever `Destroy` does. */
  lemma StrongCountConserved(n: nat, run: seq<Event>)
    ensures var s := Exec(Init(n), run);
            && s.strong == 1 - s.freed + Sum(s.threads, WithClone) + s.handedOut
            && s.handedOut == Occurrences(CloneHandedOut, Init(n), run) - Occurrences(HandedOutConsumed, Init(n), run)
            && s.strong >= s.handedOut
            && (Quiescent(s) && s.destroyed ==> s.strong == s.handedOut)
  {
    hide Sum;
    InitInv(n);
    RunInv(Init(n), run);
    var s := Exec(Init(n), run);
    SumsNonNegative(s.threads);
    FreedExactlyOnce(n, run);
    PointerTallies(n, run);
    if Quiescent(s) {
      SumAllZero(s.threads, WithClone);
    }
  }

  /** Rust consumes `k` of the clones handed out. */
  function Consumptions(k: nat): (run: seq<Event>)
    ensures |run| == k
  {
    seq(k, _ => ConsumeHandedOut)
  }

  lemma {:induction false} Drain(s: State, k: nat)
    requires k <= s.handedOut
    ensures Exec(s, Consumptions(k)) == s.(handedOut := s.handedOut - k, strong := s.strong - k)
  {
    if k > 0 {
      Drain(s, k - 1);
      assert Consumptions(k)[..k - 1] == Consumptions(k - 1);
    }
  }

  /** No leak: once `Destroy` has run and all threads are done, the object dies exactly when Rust has
      consumed the clones that were handed out. */
  lemma Released(n: nat, run: seq<Event>)
    requires Quiescent(Exec(Init(n), run)) && Exec(Init(n), run).destroyed
    ensures var out := Exec(Init(n), run).handedOut;
            && out == Occurrences(CloneHandedOut, Init(n), run) - Occurrences(HandedOutConsumed, Init(n), run)
            && forall k :: 0 <= k <= out ==>
                 var s := Exec(Init(n), run + Consumptions(k));
                 && s.handedOut == s.strong == out - k
                 && (s.strong == 0 <==> k == out)
  {
    StrongCountConserved(n, run);
    var s := Exec(Init(n), run);
    forall k: nat | k <= s.handedOut
      ensures Exec(Init(n), run + Consumptions(k)) == s.(handedOut := s.handedOut - k, strong := s.strong - k)
    {
      ExecConcat(Init(n), run, Consumptions(k));
      Drain(s, k);
    }
  }

  /** The counter stays in range, and is zero exactly when `Destroy` has given up the owner's token
      and no call is in flight. */
  lemma ZeroIff(n: nat, run: seq<Event>)
    ensures var s := Exec(Init(n), run);
            && 0 <= s.counter <= INT64_MAX
            && (s.counter == 0 <==>
                  s.destroyed && forall t :: 0 <= t < |s.threads| ==> Holding(s.threads[t]) + Dropping(s.threads[t]) == 0)
  {
    hide Sum;
    InitInv(n);
    RunInv(Init(n), run);
    var s := Exec(Init(n), run);
    SumsNonNegative(s.threads);
    forall t | 0 <= t < n && s.counter == 0 ensures Holding(s.threads[t]) + Dropping(s.threads[t]) == 0 {
      SumsBound(s.threads, t);
    }
    if forall t :: 0 <= t < n ==> Holding(s.threads[t]) + Dropping(s.threads[t]) == 0 {
      SumAllZero(s.threads, Holding);
      SumAllZero(s.threads, Dropping);
    }
  }

  /** Once zero, the counter is zero for good, and no call is admitted any more. */
  lemma {:induction false} ZeroForever(s: State, run: seq<Event>)
    requires Inv(s) && s.counter == 0
    ensures var s' := Exec(s, run);
            && s'.counter == 0 && |s'.threads| == |s.threads|
            && forall t :: 0 <= t < |s'.threads| ==> Holding(s'.threads[t]) == 0
  {
    hide Sum;
    RunInv(s, run);
    var s' := Exec(s, run);
    if run != [] {
      ZeroForever(s, run[..|run| - 1]);
      var m := Exec(s, run[..|run| - 1]);
      var e := run[|run| - 1];
      RunInv(s, run[..|run| - 1]);
      if e.Act? && e.thread < |m.threads| {
        assert Paid(m, e.thread);
        SumsBound(m.threads, e.thread);
        SumsNonNegative(m.threads);
      }
    }
    SumsNonNegative(s'.threads);
    forall t | 0 <= t < |s'.threads| ensures Holding(s'.threads[t]) == 0 {
      SumsBound(s'.threads, t);
    }
  }

  /** A thread that reads the counter is refused as disposed exactly when the counter is zero: it is
      the counter, not the destroyed flag, that refuses. */
  lemma RefusedIff(s: State, t: nat)
    requires Inv(s) && t < |s.threads| && s.threads[t].pc.ReadingCount?
    ensures Move(s, t, Proceed).threads[t].pc == Idle(ObjectDisposed) <==> s.counter == 0
    ensures s.counter == 0 ==> s.destroyed
    ensures Move(s, t, Proceed).threads[t].pc == Idle(CounterOverflow) <==> s.counter == INT64_MAX
  {
    hide Sum;
    SumsNonNegative(s.threads);
  }

  lemma ExecThree(s: State, a: Event, b: Event, c: Event)
    ensures Exec(s, [a, b, c]) == Step(Step(Step(s, a), b), c)
  {
    assert [a, b, c][..2] == [a, b] && [a, b][..1] == [a] && [a][..0] == [];
    assert Exec(s, [a]) == Step(s, a);
    assert Exec(s, [a, b]) == Step(Step(s, a), b);
  }

  /** An idle thread that nobody interferes with gets in whenever the counter is not zero (and not
      at its maximum), destroyed or not. */
  lemma EnterCall(s: State, t: nat, use: Use)
    requires t < |s.threads| && s.threads[t].pc.Idle? && 0 < s.counter < INT64_MAX
    ensures var s' := Exec(s, [Act(t, StartCall(use)), Act(t, Proceed), Act(t, Proceed)]);
            && s'.counter == s.counter + 1 && s'.destroyed == s.destroyed
            && |s'.threads| == |s.threads| && s'.threads[t].pc == Cloning(use)
            && forall u :: 0 <= u < |s.threads| && u != t ==> s'.threads[u] == s.threads[u]
  {
    ExecThree(s, Act(t, StartCall(use)), Act(t, Proceed), Act(t, Proceed));
    var s1 := Move(s, t, StartCall(use));
    var s2 := Move(s1, t, Proceed);
    assert s2.threads[t].pc.Swapping? && s2.threads[t].pc.count == s2.counter == s.counter;
  }

  lemma DestroyDuringCall(s: State, t: nat)
    requires t < |s.threads| && s.threads[t].pc.Idle? && s.counter > 1 && !s.destroyed
    ensures var s' := Exec(s, [Act(t, StartDestroy), Act(t, Proceed), Act(t, Proceed)]);
            && s'.counter == s.counter - 1 && s'.destroyed
            && |s'.threads| == |s.threads| && s'.threads[t].pc == Idle(Returned)
            && forall u :: 0 <= u < |s.threads| && u != t ==> s'.threads[u] == s.threads[u]
  {
    ExecThree(s, Act(t, StartDestroy), Act(t, Proceed), Act(t, Proceed));
    var s1 := Move(s, t, StartDestroy);
    var s2 := Move(s1, t, Proceed);
    assert s2.threads[t].pc.DroppingToken? && s2.counter == s.counter;
  }

  /** So a call can still be admitted after `Destroy` has run to completion, while another call is
      in flight: here thread 0 is in a call, thread 1 destroys, and thread 2 gets in. */
  lemma AdmittedAfterDestroy() returns (run: seq<Event>)
    ensures var s := Exec(Init(3), run);
            |s.threads| == 3 && s.destroyed && s.threads[1].pc == Idle(Returned) && s.threads[2].pc.Cloning?
  {
    hide Move;
    var call := [Act(0, StartCall(MethodCall)), Act(0, Proceed), Act(0, Proceed)];
    var destroy := [Act(1, StartDestroy), Act(1, Proceed), Act(1, Proceed)];
    var late := [Act(2, StartCall(MethodCall)), Act(2, Proceed), Act(2, Proceed)];
    EnterCall(Init(3), 0, MethodCall);
    DestroyDuringCall(Exec(Init(3), call), 1);
    EnterCall(Exec(Exec(Init(3), call), destroy), 2, MethodCall);
    ExecConcat(Init(3), call, destroy);
    ExecConcat(Init(3), call + destroy, late);
    run := call + destroy + late;
  }

  // ---------- Overflow ----------

  /** A thread that holds nothing leaves room for itself under the number of threads. */
  lemma CounterBound(s: State, t: nat)
    requires Inv(s) && t < |s.threads|
    ensures s.counter <= |s.threads| + Holding(s.threads[t])
  {
    hide Sum;
    var full := s.threads[t := Thread(Cloning(MethodCall), 0, 0)];
    SumUpdate(s.threads, t, full[t], Holding);
    SumAtMost(full, Holding, 1);
  }

  /** Some thread was told that the counter would overflow. */
  ghost predicate Overflowed(s: State) {
    exists t :: 0 <= t < |s.threads| && s.threads[t].pc == Idle(CounterOverflow)
  }

  /** No position that leads to, or is, the overflow refusal without reading the counter. */
  predicate Unrefused(pc: Pc) {
    match pc
    case Idle(o) => o != CounterOverflow
    case Releasing(o) => o != CounterOverflow
    case Freeing(o) => o != CounterOverflow
    case _ => true
  }

  /** An event of another thread, or of Rust, leaves a thread where it is and cannot undo a destroy. */
  lemma ForeignStep(s: State, me: nat, e: Event)
    requires me < |s.threads| && (e.Act? ==> e.thread != me)
    ensures var s' := Step(s, e);
            && |s'.threads| == |s.threads| && s'.threads[me] == s.threads[me]
            && (s.destroyed ==> s'.destroyed)
  {}

  lemma {:induction false} NeverOverflows(n: nat, run: seq<Event>, t: nat)
    requires n < INT64_MAX && t < n
    ensures |Exec(Init(n), run).threads| == n && Unrefused(Exec(Init(n), run).threads[t].pc)
  {
    hide Inv, Sum;
    InitInv(n);
    RunInv(Init(n), run);
    if run != [] {
      var before, e := run[..|run| - 1], run[|run| - 1];
      NeverOverflows(n, before, t);
      RunInv(Init(n), before);
      var s := Exec(Init(n), before);
      if e.Act? && e.thread == t {
        CounterBound(s, t);
      } else {
        ForeignStep(s, t, e);
      }
    }
  }

  lemma NotOverflowed(n: nat, run: seq<Event>)
    requires n < INT64_MAX
    ensures !Overflowed(Exec(Init(n), run))
  {
    InitInv(n);
    RunInv(Init(n), run);
    forall t | 0 <= t < n ensures Exec(Init(n), run).threads[t].pc != Idle(CounterOverflow) {
      NeverOverflows(n, run, t);
    }
  }

  /** The first `k` threads are in a call, the others have not started. */
  lemma {:induction false} Fill(n: nat, k: nat) returns (run: seq<Event>)
    requires k <= n && k < INT64_MAX
    ensures var s := Exec(Init(n), run);
            && s.counter == 1 + k && |s.threads| == n
            && forall u :: k <= u < n ==> s.threads[u].pc == Idle(NotStarted)
  {
    hide Move;
    if k == 0 {
      run := [];
    } else {
      var before := Fill(n, k - 1);
      EnterCall(Exec(Init(n), before), k - 1, MethodCall);
      var enter := [Act(k - 1, StartCall(MethodCall)), Act(k - 1, Proceed), Act(k - 1, Proceed)];
      run := before + enter;
      ExecConcat(Init(n), before, enter);
    }
  }

  lemma RefusedAsOverflow(n: nat) returns (run: seq<Event>)
    requires n >= INT64_MAX
    ensures Overflowed(Exec(Init(n), run))
  {
    var t := INT64_MAX - 1;
    var before := Fill(n, t);
    var s := Exec(Init(n), before);
    var start, read := Act(t, StartCall(MethodCall)), Act(t, Proceed);
    assert [start, read][..1] == [start] && [start][..0] == [];
    assert Exec(s, [start]) == Step(s, start);
    assert Exec(s, [start, read]) == Step(Step(s, start), read);
    run := before + [start, read];
    ExecConcat(Init(n), before, [start, read]);
    assert Exec(Init(n), run).threads[t].pc == Idle(CounterOverflow);
  }

  /** Refusing a call because the counter would overflow can happen only to a program with as many
      threads as the counter's maximum, and to such a program it can happen. */
  lemma OverflowIff(n: nat)
    ensures (exists run :: Overflowed(Exec(Init(n), run))) <==> n >= 0x7fff_ffff_ffff_ffff
  {
    assert INT64_MAX == 0x7fff_ffff_ffff_ffff;
    hide *;
    if n >= INT64_MAX {
      var run := RefusedAsOverflow(n);
      assert Overflowed(Exec(Init(n), run));
    } else {
      forall run ensures !Overflowed(Exec(Init(n), run)) {
        NotOverflowed(n, run);
      }
    }
  }

  // ---------- Progress ----------

  /** A thread's failed swaps are at most the changes of the counter made by other threads: a swap
      fails only if somebody else made progress, although the value may have changed back. */
  lemma RetriesPaidByOthers(n: nat, run: seq<Event>, t: nat)
    requires t < n
    ensures Occurrences(RetryBy(t), Init(n), run)
            <= Occurrences(CounterChange, Init(n), run) - Occurrences(CounterChangeBy(t), Init(n), run)
  {
    hide Occurrences, Exec;
    InitInv(n);
    RunInv(Init(n), run);
    Tallies(n, run);
    ThreadTallies(n, run, t);
    assert Paid(Exec(Init(n), run), t);
  }

  /** The protocol is lock-free with an explicit bound: a run that starts k operations on `n` threads
      takes at most (7 + 4n)k steps, however the threads are scheduled. */
  lemma StepsBounded(n: nat, run: seq<Event>)
    ensures Occurrences(ThreadStep, Init(n), run) <= (7 + 4 * n) * Occurrences(OperationStart, Init(n), run)
  {
    hide Sum, Step, Balanced, Occurrences;
    Tallies(n, run);
    InitInv(n);
    RunInv(Init(n), run);
    var s := Exec(Init(n), run);
    SumsNonNegative(s.threads);
    forall t | 0 <= t < |s.threads| ensures Retries(s.threads[t]) <= s.changes {
      assert Paid(s, t);
    }
    SumAtMost(s.threads, Retries, s.changes);
    BoundArithmetic(s.steps, s.starts, Sum(s.threads, Retries), s.changes, n);
  }

  lemma BoundArithmetic(steps: int, starts: nat, retries: int, changes: int, n: nat)
    requires steps <= 7 * starts + 2 * retries && retries <= changes * n && changes <= 2 * starts
    ensures steps <= (7 + 4 * n) * starts
  {
    assert changes * n <= 2 * starts * n;
  }

  /** Steps a thread still needs when it runs alone. A stale swap costs a second round. */
  function Alone(s: State, t: nat): nat
    requires t < |s.threads|
  {
    var th := s.threads[t];
    Rank(th) + if th.pc.Swapping? && th.pc.count != s.counter then 2 else 0
  }

  /** A step taken alone brings the thread nearer to its end and leaves the others where they are. */
  lemma AloneStep(s: State, t: nat)
    requires Inv(s) && t < |s.threads| && !s.threads[t].pc.Idle?
    ensures var s' := Move(s, t, Proceed);
            && |s'.threads| == |s.threads| && Alone(s', t) < Alone(s, t)
            && (forall u :: 0 <= u < |s.threads| && u != t ==> s'.threads[u] == s.threads[u])
            && (s.destroyed ==> s'.destroyed) && s'.starts == s.starts
  {
    hide Inv, Sum;
  }

  /** From any state a thread that runs alone finishes its operation. */
  lemma {:induction false} FinishThread(s: State, t: nat) returns (run: seq<Event>)
    requires Inv(s) && t < |s.threads|
    ensures Inv(Exec(s, run)) && |Exec(s, run).threads| == |s.threads|
    ensures Exec(s, run).threads[t].pc.Idle?
    ensures forall u :: 0 <= u < |s.threads| && u != t ==> Exec(s, run).threads[u] == s.threads[u]
    ensures s.destroyed ==> Exec(s, run).destroyed
    ensures Exec(s, run).starts == s.starts
    decreases Alone(s, t)
  {
    hide Inv, Move, Alone;
    if s.threads[t].pc.Idle? {
      run := [];
    } else {
      var s' := Move(s, t, Proceed);
      StepInv(s, Act(t, Proceed));
      AloneStep(s, t);
      var rest := FinishThread(s', t);
      run := [Act(t, Proceed)] + rest;
      assert Exec(s, [Act(t, Proceed)]) == s' by {
        assert [Act(t, Proceed)][..0] == [];
      }
      ExecConcat(s, [Act(t, Proceed)], rest);
    }
  }

  lemma {:induction false} FinishFirst(s: State, k: nat) returns (run: seq<Event>)
    requires Inv(s) && k <= |s.threads|
    ensures Inv(Exec(s, run)) && |Exec(s, run).threads| == |s.threads|
    ensures forall t :: 0 <= t < k ==> Exec(s, run).threads[t].pc.Idle?
    ensures forall t :: k <= t < |s.threads| ==> Exec(s, run).threads[t] == s.threads[t]
    ensures s.destroyed ==> Exec(s, run).destroyed
    ensures Exec(s, run).starts == s.starts
  {
    hide Inv;
    if k == 0 {
      run := [];
    } else {
      var first := FinishFirst(s, k - 1);
      var last := FinishThread(Exec(s, first), k - 1);
      run := first + last;
      ExecConcat(s, first, last);
    }
  }

  /** Nothing can get stuck: from every reachable state the operations under way can be completed
      without starting new ones, and if `Destroy` has begun the pointer has then been freed. */
  lemma CanAlwaysComplete(n: nat, run: seq<Event>) returns (more: seq<Event>)
    ensures var s := Exec(Init(n), run + more);
            && Quiescent(s) && s.starts == Exec(Init(n), run).starts
            && (Exec(Init(n), run).destroyed ==> s.freed == 1 && s.strong == s.handedOut)
  {
    InitInv(n);
    RunInv(Init(n), run);
    more := FinishFirst(Exec(Init(n), run), n);
    ExecConcat(Init(n), run, more);
    FreedExactlyOnce(n, run + more);
    StrongCountConserved(n, run + more);
  }
}
