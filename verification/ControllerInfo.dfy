/** `ControllerInfo` in the form of its source: methods that act on the shared counter one atomic
    operation at a time, with other threads running in between.

    What the other threads do is given as a schedule of bursts, one of which is played before every
    atomic operation of ours once the call has begun, so the methods are verified against every
    interleaving. Each contract says which run of the step system the method has added to the trace:
    its own operations, with the bursts in between. The theorems about runs therefore apply. */
module ControllerInfo {
  import opened Bytes
  import opened Interleaving
  import opened ObjectLifetime
  import opened ObjectLifetimeProofs

  /** Others leave my program counter alone, and cannot undo a destroy. */
  lemma {:induction false} ForeignKeeps(s: State, me: nat, burst: seq<Event>)
    requires Inv(s) && me < |s.threads| && Foreign(me, burst)
    ensures var s' := Exec(s, burst);
            && Inv(s') && |s'.threads| == |s.threads|
            && s'.threads[me] == s.threads[me]
            && (s.destroyed ==> s'.destroyed)
            && (s.counter == 0 ==> s'.counter == 0)
  {
    hide Inv, Step;
    RunInv(s, burst);
    if s.counter == 0 {
      ZeroForever(s, burst);
    }
    if burst != [] {
      var before := burst[..|burst| - 1];
      ForeignKeeps(s, me, before);
      ForeignStep(Exec(s, before), me, burst[|burst| - 1]);
    }
  }

  // ---------- The operations a method performs ----------

  /** The decrement that ends an operation, and the free if it gave back the last share. */
  function WithDecrement(me: nat, s: State, bursts: seq<seq<Event>>, ours: seq<Choice>): seq<Choice> {
    var before := Exec(s, Weave(me, bursts, ours));
    ours + Proceeds(if First(before, Drop(bursts, |ours|)).counter == 1 then 2 else 1)
  }

  /** The operations of an admitted call: the clone, the callback if there is a clone, and the decrement. */
  function AdmittedSteps(me: nat, s: State, bursts: seq<seq<Event>>, cloneFails: bool): seq<Choice> {
    WithDecrement(me, s, bursts, if cloneFails then [FailClone] else Proceeds(2))
  }

  /** The operations of a call: a read and a swap for each failed round, a read, and if it is not
      refused a swap and what an admitted call does. */
  function CallSteps(me: nat, s: State, bursts: seq<seq<Event>>, retries: nat, outcome: Outcome): seq<Choice> {
    if outcome in {ObjectDisposed, CounterOverflow} then Proceeds(2 * retries + 1) else
    var entry := Proceeds(2 * retries + 2);
    entry + AdmittedSteps(me, Exec(s, Weave(me, bursts, entry)), Drop(bursts, |entry|), outcome == CallFailed)
  }

  /** The operations of a destroy: the exchange, and the decrement if it was won. */
  function DestroySteps(me: nat, s: State, bursts: seq<seq<Event>>): seq<Choice> {
    if First(s, bursts).destroyed then Proceeds(1) else WithDecrement(me, s, bursts, Proceeds(1))
  }

  // ---------- The object ----------

  /** Everything the threads share except the counter. */
  function Owned(s: State): (bool, int, nat, nat) {
    (s.destroyed, s.strong, s.freed, s.handedOut)
  }

  /** What others did left my position alone, and kept what cannot be undone. */
  ghost predicate Undisturbed(before: State, after: State, me: nat) {
    && Inv(after) && me < |before.threads| == |after.threads|
    && after.threads[me] == before.threads[me]
    && (before.destroyed ==> after.destroyed)
    && (before.counter == 0 ==> after.counter == 0)
  }

  lemma StartMove(s: State, t: nat, choice: Choice)
    requires t < |s.threads| && s.threads[t].pc.Idle? && (choice.StartCall? || choice.StartDestroy?)
    ensures var s', th := Move(s, t, choice), s.threads[t];
            && |s'.threads| == |s.threads| && s'.counter == s.counter && Owned(s') == Owned(s)
            && s'.threads[t] == th.(pc := if choice.StartCall? then ReadingCount(choice.use) else Destroying)
  {}

  lemma ExchangeMove(s: State, t: nat)
    requires t < |s.threads| && s.threads[t].pc.Destroying?
    ensures var s', th := Move(s, t, Proceed), s.threads[t];
            && |s'.threads| == |s.threads| && s'.counter == s.counter && s'.destroyed
            && s'.strong == s.strong && s'.freed == s.freed && s'.handedOut == s.handedOut
            && s'.threads[t] == th.(pc := if s.destroyed then Idle(Returned) else DroppingToken)
  {}

  lemma DecrementMove(s: State, t: nat)
    requires t < |s.threads| && (s.threads[t].pc.Releasing? || s.threads[t].pc.DroppingToken?)
    ensures var s', th := Move(s, t, Proceed), s.threads[t];
            var outcome := if th.pc.Releasing? then th.pc.outcome else Returned;
            && |s'.threads| == |s.threads| && s'.counter == s.counter - 1 && Owned(s') == Owned(s)
            && s'.threads[t] == Thread(if s.counter == 1 then Freeing(outcome) else Idle(outcome),
                                       th.retries, th.changes + 1)
  {}

  /** Whoever is to free the pointer is the first and only one to do so. */
  lemma FreeMove(s: State, t: nat)
    requires Inv(s) && t < |s.threads| && s.threads[t].pc.Freeing?
    ensures var s', th := Move(s, t, Proceed), s.threads[t];
            && |s'.threads| == |s.threads| && s'.counter == s.counter == 0
            && s.freed == 0 && s'.freed == 1 && s'.strong == s.strong - 1
            && s'.handedOut == s.handedOut && s'.destroyed == s.destroyed
            && s'.threads[t] == th.(pc := Idle(th.pc.outcome))
  {
    hide Sum;
    SumsBound(s.threads, t);
    SumsNonNegative(s.threads);
  }

  lemma ReadMove(s: State, t: nat)
    requires t < |s.threads| && s.threads[t].pc.ReadingCount?
    ensures var s', th, use := Move(s, t, Proceed), s.threads[t], s.threads[t].pc.use;
            && |s'.threads| == |s.threads| && s'.counter == s.counter && Owned(s') == Owned(s)
            && s'.threads[t] == th.(pc := if s.counter == 0 then Idle(ObjectDisposed)
                                          else if s.counter == INT64_MAX then Idle(CounterOverflow)
                                          else Swapping(use, s.counter, ByOthers(s, t)))
  {}

  lemma SwapMove(s: State, t: nat)
    requires t < |s.threads| && s.threads[t].pc.Swapping?
    ensures var s', th, use := Move(s, t, Proceed), s.threads[t], s.threads[t].pc.use;
            && |s'.threads| == |s.threads| && Owned(s') == Owned(s)
            && if s.counter == th.pc.count
               then s'.counter == s.counter + 1 && s'.threads[t] == Thread(Cloning(use), th.retries, th.changes + 1)
               else s'.counter == s.counter && s'.threads[t] == Thread(ReadingCount(use), th.retries + 1, th.changes)
  {}

  /** The same after one clone, or none, was handed out. */
  function WithHandedOut(s: State, handed: bool): (bool, int, nat, nat) {
    if handed then (s.destroyed, s.strong + 1, s.freed, s.handedOut + 1) else Owned(s)
  }

  /** A share of the counter has been given back; the last one took the pointer with it. */
  predicate GaveBack(before: State, after: State) {
    && after.counter == before.counter - 1
    && after.freed == before.freed + (if before.counter == 1 then 1 else 0)
    && after.strong == before.strong - (if before.counter == 1 then 1 else 0)
    && after.handedOut == before.handedOut
  }

  class ControllerInfo {
    var state: State
    var schedule: seq<seq<Event>>  // the bursts still to come
    ghost const size: nat          // number of threads
    ghost var trace: seq<Event>    // everything that has happened

    ghost predicate Valid(me: nat)
      reads this
    {
      && state == Exec(Init(size), trace) && Inv(state)
      && me < |state.threads|
      && forall i :: 0 <= i < |schedule| ==> Foreign(me, schedule[i])
    }

    /** From any state, whatever we and the others do: the run continues. */
    twostate predicate Continues(me: nat)
      reads this
    {
      && Valid(me)
      && |state.threads| == old(|state.threads|)
      && (old(state.destroyed) ==> state.destroyed)
      && (old(state.counter) == 0 ==> state.counter == 0)
    }

    /** We performed our operations, with the next bursts of the others before each of them, and that
        is all that happened. */
    twostate predicate Ran(me: nat, ours: seq<Choice>)
      reads this
    {
      && Continues(me)
      && trace == old(trace) + Weave(me, old(schedule), ours)
      && schedule == Drop(old(schedule), |ours|)
    }

    /** The same after the step that began the operation, before which the others do not run. */
    twostate predicate RanFrom(me: nat, start: Choice, ours: seq<Choice>)
      reads this
    {
      && Continues(me)
      && trace == old(trace) + [Act(me, start)] + Weave(me, old(schedule), ours)
      && schedule == Drop(old(schedule), |ours|)
    }

    constructor (n: nat, schedule: seq<seq<Event>>)
      ensures state == Init(n) && size == n && trace == [] && this.schedule == schedule
      ensures state.counter == 1 && !state.destroyed && state.strong == 1 && state.freed == 0 && state.handedOut == 0
      ensures forall me: nat :: me < n && (forall i :: 0 <= i < |schedule| ==> Foreign(me, schedule[i])) ==> Valid(me)
    {
      state, size, trace := Init(n), n, [];
      this.schedule := schedule;
      InitInv(n);
    }

    function Pc(me: nat): Pc
      requires me < |state.threads|
      reads this
    {
      state.threads[me].pc
    }

    /** The other threads run for a while: the next burst, or not at all once there is none. */
    method Interfere(me: nat)
      requires Valid(me)
      modifies this
      ensures Continues(me) && state.threads[me] == old(state.threads[me])
      ensures old(schedule) == [] ==> state == old(state) && trace == old(trace) && schedule == []
      ensures old(schedule) != [] ==>
                && state == Exec(old(state), old(schedule)[0])
                && trace == old(trace) + old(schedule)[0]
                && schedule == old(schedule)[1..]
    {
      if schedule != [] {
        var burst := schedule[0];
        ForeignKeeps(state, me, burst);
        ExecConcat(Init(size), trace, burst);
        state := Exec(state, burst);
        trace := trace + burst;
        schedule := schedule[1..];
      }
    }

    /** One atomic operation of ours. */
    method Atomically(me: nat, choice: Choice)
      requires Valid(me)
      modifies this
      ensures Continues(me) && state == Step(old(state), Act(me, choice)) && schedule == old(schedule)
      ensures trace == old(trace) + [Act(me, choice)]
    {
      ghost var next := trace + [Act(me, choice)];
      assert next[..|next| - 1] == trace;
      StepInv(state, Act(me, choice));
      if state.counter == 0 {
        ZeroForever(Exec(Init(size), trace), [Act(me, choice)]);
        ExecConcat(Init(size), trace, [Act(me, choice)]);
      }
      state := Step(state, Act(me, choice));
      trace := next;
    }

    lemma NextBurst(me: nat)
      requires Valid(me)
      ensures Undisturbed(state, First(state, schedule), me)
      ensures schedule == [] ==> First(state, schedule) == state
    {
      hide Inv, Exec;
      if schedule != [] {
        ForeignKeeps(state, me, schedule[0]);
      }
    }

    /** The next burst, then one atomic operation of ours. */
    method Perform(me: nat, choice: Choice)
      requires Valid(me)
      modifies this
      ensures Ran(me, [choice])
      ensures state == Step(First(old(state), old(schedule)), Act(me, choice))
      ensures Undisturbed(old(state), First(old(state), old(schedule)), me)
    {
      hide Inv, Exec, Weave;
      NextBurst(me);
      Interfere(me);
      Atomically(me, choice);
      WeaveOne(me, old(schedule), choice);
      DropFew(old(schedule));
    }

    /** One round of the retry loop: read, and compare and swap unless refused. A swap fails only when
        the others have used up a burst of their schedule since the read. */
    method TryIncrement(me: nat, use: Use)
      requires Valid(me) && Pc(me) == ReadingCount(use)
      modifies this
      ensures Continues(me) && Ran(me, Proceeds(if Pc(me).Idle? then 1 else 2))
      ensures Pc(me) in {Idle(ObjectDisposed), Idle(CounterOverflow), Cloning(use), ReadingCount(use)}
      ensures Pc(me) == Idle(ObjectDisposed) ==> state.counter == 0
      ensures Pc(me) == Idle(CounterOverflow) ==> state.counter == INT64_MAX
      ensures var s := First(old(state), old(schedule));
              && (s.counter == 0 <==> Pc(me) == Idle(ObjectDisposed))
              && (s.counter == INT64_MAX <==> Pc(me) == Idle(CounterOverflow))
              && (Pc(me).Idle? ==> state == Step(s, Act(me, Proceed)))
      ensures old(schedule) == [] ==>
                && !Pc(me).ReadingCount? && Owned(state) == old(Owned(state))
                && state.counter == old(state.counter) + (if Pc(me).Cloning? then 1 else 0)
      ensures Pc(me).ReadingCount? ==> |schedule| < old(|schedule|)
      ensures state.threads[me].changes == old(state.threads[me].changes) + if Pc(me).Cloning? then 1 else 0
      ensures state.threads[me].retries == old(state.threads[me].retries) + if Pc(me).ReadingCount? then 1 else 0
    {
      hide Inv, Exec, Move, Owned, Weave, First, Drop, Proceeds;
      NextBurst(me);
      ReadMove(First(state, schedule), me);
      ProceedsPlus(1, 1);
      Perform(me, Proceed);  // read
      if Pc(me).Idle? { return; }
      NextBurst(me);
      SwapMove(First(state, schedule), me);
      Extend(old(trace), me, old(schedule), [Proceed], [Proceed]);
      DropShorter(old(schedule), 1);
      DropFew(old(schedule));
      DropFew(schedule);
      Perform(me, Proceed);  // compare and swap
    }

    /** The compare-and-set retry loop. It ends because the others have finitely many bursts. */
    method IncrementCallCounter(me: nat, use: Use)
      requires Valid(me) && Pc(me) == ReadingCount(use)
      modifies this
      ensures Continues(me) && state.threads[me].retries >= old(state.threads[me].retries)
      ensures Ran(me, Proceeds(2 * (state.threads[me].retries - old(state.threads[me].retries))
                               + if Pc(me).Cloning? then 2 else 1))
      ensures Pc(me) in {Cloning(use), Idle(ObjectDisposed), Idle(CounterOverflow)}
      ensures Pc(me) == Idle(ObjectDisposed) ==> state.counter == 0
      ensures Pc(me) == Idle(CounterOverflow) ==> state.counter == INT64_MAX
      ensures var s := First(old(state), old(schedule));
              && (s.counter == 0 ==> Pc(me) == Idle(ObjectDisposed))
              && (s.counter == INT64_MAX ==> Pc(me) == Idle(CounterOverflow))
              && (s.counter in {0, INT64_MAX} ==> state == Step(s, Act(me, Proceed)))
      ensures old(schedule) == [] ==>
                && Pc(me) == old(if state.counter == 0 then Idle(ObjectDisposed)
                                 else if state.counter == INT64_MAX then Idle(CounterOverflow)
                                 else Cloning(use))
                && state.counter == old(state.counter) + (if Pc(me).Cloning? then 1 else 0)
                && Owned(state) == old(Owned(state))
      ensures state.threads[me].changes == old(state.threads[me].changes) + if Pc(me).Cloning? then 1 else 0
      ensures state.threads[me].retries + |schedule| <= old(state.threads[me].retries + |schedule|)
    {
      hide Inv, Exec, Step, Owned, Weave, Drop, Proceeds;
      ghost var k := 0;
      ProceedsPlus(0, 0);
      ExtendNothing(trace, me, schedule);
      while true
        invariant Ran(me, Proceeds(2 * k)) && Pc(me) == ReadingCount(use)
        invariant state.threads[me].retries == old(state.threads[me].retries) + k
        invariant state.threads[me].changes == old(state.threads[me].changes)
        invariant k + |schedule| <= old(|schedule|)
        invariant k == 0 ==> state == old(state) && schedule == old(schedule)
        invariant k > 0 ==> old(schedule) != [] && First(old(state), old(schedule)).counter !in {0, INT64_MAX}
        decreases |schedule|
      {
        ghost var before := schedule;
        TryIncrement(me, use);
        ghost var more := if Pc(me).Idle? then 1 else 2;
        Extend(old(trace), me, old(schedule), Proceeds(2 * k), Proceeds(more));
        ProceedsPlus(2 * k, more);
        assert |schedule| <= |before| by { DropShorter(before, more); }
        if !Pc(me).ReadingCount? { return; }
        k := k + 1;
      }
    }

    /** Gives back a share of the counter; whoever gives back the last one frees the pointer. `Destroy`
        gives back the owner's token in the same way. */
    method DecrementCallCounter(me: nat)
      requires Valid(me) && (Pc(me).Releasing? || Pc(me).DroppingToken?)
      modifies this
      ensures Continues(me) && Pc(me) == Idle(if old(Pc(me)).Releasing? then old(Pc(me)).outcome else Returned)
      ensures var s := First(old(state), old(schedule));
              && Ran(me, Proceeds(if s.counter == 1 then 2 else 1))
              && (s.counter == 1 ==> state.counter == 0 && state.freed == 1)
              && (s.counter != 1 ==> state == Step(s, Act(me, Proceed)) && GaveBack(s, state))
      ensures old(schedule) == [] ==> GaveBack(old(state), state) && state.destroyed == old(state.destroyed)
      ensures state.threads[me].retries == old(state.threads[me].retries)
      ensures state.threads[me].changes == old(state.threads[me].changes) + 1
    {
      hide Inv, Exec, Move, Weave, First, Drop, Proceeds;
      NextBurst(me);
      DecrementMove(First(state, schedule), me);
      ProceedsPlus(1, 1);
      DropFew(schedule);
      Perform(me, Proceed);  // decrement
      if Pc(me).Freeing? {
        NextBurst(me);
        FreeMove(First(state, schedule), me);
        Extend(old(trace), me, old(schedule), [Proceed], [Proceed]);
        Perform(me, Proceed);  // free
      }
    }

    /** Clones the pointer and passes the clone to the callback, which consumes it or hands it out. */
    method UseClone(me: nat, use: Use, cloneFails: bool)
      requires Valid(me) && Pc(me) == Cloning(use)
      modifies this
      ensures Ran(me, if cloneFails then [FailClone] else Proceeds(2))
      ensures Pc(me) == Releasing(if cloneFails then CallFailed else Returned)
      ensures state.threads[me].changes == old(state.threads[me].changes)
      ensures state.threads[me].retries == old(state.threads[me].retries)
      ensures old(schedule) == [] ==>
                && schedule == [] && state.counter == old(state.counter)
                && Owned(state) == old(WithHandedOut(state, !cloneFails && use == LowerPointer))
    {
      hide Inv, Exec, Weave, First, Drop, Proceeds;
      NextBurst(me);
      DropFew(schedule);
      Perform(me, if cloneFails then FailClone else Proceed);  // clone
      if !cloneFails {
        NextBurst(me);
        Extend(old(trace), me, old(schedule), [Proceed], [Proceed]);
        DropFew(schedule);
        ProceedsPlus(1, 1);
        Perform(me, Proceed);  // callback
      }
    }

    /** What a call does once it is admitted; the decrement is made whether or not the clone throws. */
    method RunAdmitted(me: nat, use: Use, cloneFails: bool)
      requires Valid(me) && Pc(me) == Cloning(use)
      modifies this
      ensures Ran(me, AdmittedSteps(me, old(state), old(schedule), cloneFails))
      ensures Pc(me) == Idle(if cloneFails then CallFailed else Returned)
      ensures state.threads[me].changes == old(state.threads[me].changes) + 1
      ensures state.threads[me].retries == old(state.threads[me].retries)
      ensures old(schedule) == [] && old(state.counter) != 1 ==>
                && state.counter == old(state.counter) - 1
                && Owned(state) == old(WithHandedOut(state, !cloneFails && use == LowerPointer))
    {
      hide Inv, Exec, Move, Weave, First, Drop, Proceeds;
      ghost var ours := if cloneFails then [FailClone] else Proceeds(2);
      UseClone(me, use, cloneFails);
      assert state == Exec(old(state), Weave(me, old(schedule), ours)) by {
        ExecConcat(Init(size), old(trace), Weave(me, old(schedule), ours));
      }
      Extend(old(trace), me, old(schedule), ours, Proceeds(if First(state, schedule).counter == 1 then 2 else 1));
      DecrementCallCounter(me);
    }

    /** Runs a callback on a clone of the pointer. Whatever happens in between, a call on an object
        that is dead when it is first looked at is refused, a refused call never touches the counter
        while an admitted one updates it exactly twice, even if it throws, and the number of retries is
        at most the number of times the others were allowed to run. */
    method CallWithPointer(me: nat, use: Use, cloneFails: bool) returns (outcome: Outcome)
      requires Valid(me) && Pc(me).Idle?
      modifies this
      ensures Continues(me) && state.threads[me].retries >= old(state.threads[me].retries)
      ensures RanFrom(me, StartCall(use),
                      CallSteps(me, Step(old(state), Act(me, StartCall(use))), old(schedule),
                                state.threads[me].retries - old(state.threads[me].retries), outcome))
      ensures Pc(me) == Idle(outcome)
      ensures outcome in {if cloneFails then CallFailed else Returned, ObjectDisposed, CounterOverflow}
      ensures outcome == ObjectDisposed ==> state.counter == 0
      ensures outcome == CounterOverflow ==> state.counter == INT64_MAX && size >= INT64_MAX
      ensures First(Step(old(state), Act(me, StartCall(use))), old(schedule)).counter == 0 ==> outcome == ObjectDisposed
      ensures old(schedule) == [] ==>
                && outcome == old(if state.counter == 0 then ObjectDisposed
                                  else if state.counter == INT64_MAX then CounterOverflow
                                  else if cloneFails then CallFailed else Returned)
                && state.counter == old(state.counter)
                && Owned(state) == old(WithHandedOut(state, outcome == Returned && use == LowerPointer))
      ensures state.threads[me].changes
           == old(state.threads[me].changes) + if outcome in {Returned, CallFailed} then 2 else 0
      ensures state.threads[me].retries <= old(state.threads[me].retries + |schedule|)
    {
      hide Inv, Exec, Move, Weave, First, Drop, Proceeds, AdmittedSteps;
      StartMove(state, me, StartCall(use));
      Atomically(me, StartCall(use));
      ghost var started, before := state, trace;
      IncrementCallCounter(me, use);
      ghost var retries := state.threads[me].retries - old(state.threads[me].retries);
      if Pc(me).Idle? {
        if size < INT64_MAX {
          NotOverflowed(size, trace);
        }
        return Pc(me).last;
      }
      ghost var entry := Proceeds(2 * retries + 2);
      assert state == Exec(started, Weave(me, old(schedule), entry)) by {
        ExecConcat(Init(size), before, Weave(me, old(schedule), entry));
      }
      Extend(before, me, old(schedule), entry, AdmittedSteps(me, state, schedule, cloneFails));
      RunAdmitted(me, use, cloneFails);
      outcome := Pc(me).last;
    }

    /** Only the first `Destroy` touches the counter; it frees the pointer if it gives up the last share. */
    method Destroy(me: nat)
      requires Valid(me) && Pc(me).Idle?
      modifies this
      ensures RanFrom(me, StartDestroy, DestroySteps(me, Step(old(state), Act(me, StartDestroy)), old(schedule)))
      ensures Pc(me) == Idle(Returned)
      ensures state.destroyed
      ensures var s := First(Step(old(state), Act(me, StartDestroy)), old(schedule));
              var u := First(Step(s, Act(me, Proceed)), Drop(old(schedule), 1));
              && state.threads[me].changes == old(state.threads[me].changes) + (if s.destroyed then 0 else 1)
              && (s.destroyed ==> state.counter == s.counter && Owned(state) == Owned(s))
              && (!s.destroyed ==> if u.counter == 1 then state.counter == 0 && state.freed == 1 else GaveBack(u, state))
      ensures old(state.destroyed) ==> state.threads[me].changes == old(state.threads[me].changes)
      ensures old(schedule == [] && state.destroyed) ==>
                state.counter == old(state.counter) && Owned(state) == old(Owned(state))
      ensures old(schedule == [] && !state.destroyed) ==> GaveBack(old(state), state)
    {
      hide Inv, Exec, Move, Weave, First, Drop, Proceeds;
      StartMove(state, me, StartDestroy);
      Atomically(me, StartDestroy);
      ghost var started, before := state, trace;
      NextBurst(me);
      ExchangeMove(First(state, schedule), me);
      ProceedsPlus(0, 1);
      DropFew(schedule);
      Perform(me, Proceed);  // exchange _wasDestroyed
      if Pc(me).DroppingToken? {
        assert state == Exec(started, Weave(me, old(schedule), Proceeds(1))) by {
          ExecConcat(Init(size), before, Weave(me, old(schedule), Proceeds(1)));
        }
        NextBurst(me);
        Extend(before, me, old(schedule), Proceeds(1), Proceeds(if First(state, schedule).counter == 1 then 2 else 1));
        DecrementCallCounter(me);
      }
    }
  }
}
