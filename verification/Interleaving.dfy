/** How the operations of one thread and the bursts of the others make up a run. */
module Interleaving {
  import opened ObjectLifetime

  /** Steps of the other threads, or of Rust. */
  predicate Foreign(me: nat, burst: seq<Event>) {
    forall i :: 0 <= i < |burst| && burst[i].Act? ==> burst[i].thread != me
  }

  /** The state after the next burst. */
  function First(s: State, bursts: seq<seq<Event>>): State {
    if bursts == [] then s else Exec(s, bursts[0])
  }

  /** The bursts left over after `k` have been played. */
  function Drop(bursts: seq<seq<Event>>, k: nat): seq<seq<Event>> {
    if k <= |bursts| then bursts[k..] else []
  }

  /** Burst number `i`, as long as there is one, and then an operation of ours. */
  function Round(me: nat, bursts: seq<seq<Event>>, i: nat, choice: Choice): seq<Event> {
    (if i < |bursts| then bursts[i] else []) + [Act(me, choice)]
  }

  /** Our operations, each with the next burst before it. */
  function Weave(me: nat, bursts: seq<seq<Event>>, ours: seq<Choice>): seq<Event> {
    if ours == [] then [] else
    var last := |ours| - 1;
    Weave(me, bursts, ours[..last]) + Round(me, bursts, last, ours[last])
  }

  function Proceeds(k: nat): (ours: seq<Choice>)
    ensures |ours| == k
  {
    seq(k, _ => Proceed)
  }

  lemma ProceedsPlus(j: nat, k: nat)
    ensures Proceeds(j) + Proceeds(k) == Proceeds(j + k)
    ensures Proceeds(0) == [] && Proceeds(1) == [Proceed]
  {}

  lemma Assoc<T>(a: seq<T>, b: seq<T>, c: seq<T>)
    ensures a + b + c == a + (b + c)
  {}

  lemma DropDrop(bursts: seq<seq<Event>>, i: nat, j: nat)
    ensures Drop(Drop(bursts, i), j) == Drop(bursts, i + j)
  {}

  lemma DropFew(bursts: seq<seq<Event>>)
    ensures Drop(bursts, 0) == bursts
    ensures Drop(bursts, 1) == if bursts == [] then [] else bursts[1..]
  {}

  lemma DropShorter(bursts: seq<seq<Event>>, k: nat)
    ensures |Drop(bursts, k)| <= |bursts|
  {}

  lemma RoundLater(me: nat, bursts: seq<seq<Event>>, i: nat, j: nat, choice: Choice)
    ensures Round(me, Drop(bursts, i), j, choice) == Round(me, bursts, i + j, choice)
  {}

  lemma WeaveNext(me: nat, bursts: seq<seq<Event>>, ours: seq<Choice>, choice: Choice)
    ensures Weave(me, bursts, ours + [choice]) == Weave(me, bursts, ours) + Round(me, bursts, |ours|, choice)
    ensures Weave(me, bursts, []) == []
  {
    assert (ours + [choice])[..|ours|] == ours;
  }

  lemma WeaveOne(me: nat, bursts: seq<seq<Event>>, choice: Choice)
    ensures Weave(me, bursts, [choice]) == (if bursts == [] then [] else bursts[0]) + [Act(me, choice)]
  {
    WeaveNext(me, bursts, [], choice);
    assert [] + [choice] == [choice];
  }

  lemma {:induction false} WeaveConcat(me: nat, bursts: seq<seq<Event>>, a: seq<Choice>, b: seq<Choice>)
    ensures Weave(me, bursts, a + b) == Weave(me, bursts, a) + Weave(me, Drop(bursts, |a|), b)
  {
    hide Drop, Round, Weave;
    WeaveNext(me, Drop(bursts, |a|), [], Proceed);
    if b == [] {
      assert a + b == a;
    } else {
      var front, last := b[..|b| - 1], b[|b| - 1];
      WeaveConcat(me, bursts, a, front);
      WeaveNext(me, bursts, a + front, last);
      WeaveNext(me, Drop(bursts, |a|), front, last);
      RoundLater(me, bursts, |a|, |front|, last);
      Assoc(Weave(me, bursts, a), Weave(me, Drop(bursts, |a|), front), Round(me, bursts, |a| + |front|, last));
      assert a + b == a + front + [last] && b == front + [last];
    }
  }

  /** A run that goes on with more operations. */
  lemma Extend(before: seq<Event>, me: nat, bursts: seq<seq<Event>>, ours: seq<Choice>, more: seq<Choice>)
    ensures before + Weave(me, bursts, ours) + Weave(me, Drop(bursts, |ours|), more)
         == before + Weave(me, bursts, ours + more)
    ensures Drop(Drop(bursts, |ours|), |more|) == Drop(bursts, |ours + more|)
  {
    hide Drop, Weave;
    DropDrop(bursts, |ours|, |more|);
    WeaveConcat(me, bursts, ours, more);
    Assoc(before, Weave(me, bursts, ours), Weave(me, Drop(bursts, |ours|), more));
  }

  lemma ExtendNothing(before: seq<Event>, me: nat, bursts: seq<seq<Event>>)
    ensures before + Weave(me, bursts, []) == before && Drop(bursts, 0) == bursts
  {}

  // ---------- What is in a woven run ----------

  /** What others did, and what we did, in a run. */
  function Theirs(me: nat, run: seq<Event>): seq<Event> {
    if run == [] then [] else
    var e := run[|run| - 1];
    Theirs(me, run[..|run| - 1]) + if e.Act? && e.thread == me then [] else [e]
  }

  function Ours(me: nat, run: seq<Event>): seq<Choice> {
    if run == [] then [] else
    var e := run[|run| - 1];
    Ours(me, run[..|run| - 1]) + if e.Act? && e.thread == me then [e.choice] else []
  }

  /** The first `k` bursts, one after another; all of them when there are fewer. */
  function Played(bursts: seq<seq<Event>>, k: nat): seq<Event> {
    if k == 0 then [] else Played(bursts, k - 1) + if k <= |bursts| then bursts[k - 1] else []
  }

  lemma {:induction false} ForeignRun(me: nat, run: seq<Event>, burst: seq<Event>)
    requires Foreign(me, burst)
    ensures Theirs(me, run + burst) == Theirs(me, run) + burst && Ours(me, run + burst) == Ours(me, run)
  {
    if burst == [] {
      assert run + burst == run;
    } else {
      ForeignRun(me, run, burst[..|burst| - 1]);
      assert (run + burst)[..|run + burst| - 1] == run + burst[..|burst| - 1];
    }
  }

  /** A burst is foreign exactly when nothing in it is ours. */
  lemma {:induction false} ForeignIff(me: nat, burst: seq<Event>)
    ensures Foreign(me, burst) <==> Ours(me, burst) == []
    ensures Foreign(me, burst) <==> Theirs(me, burst) == burst
  {
    if burst != [] {
      var front, last := burst[..|burst| - 1], burst[|burst| - 1];
      ForeignIff(me, front);
      TheirsShorter(me, front);
      assert burst == front + [last];
      assert Foreign(me, burst) <==> Foreign(me, front) && !(last.Act? && last.thread == me);
    }
  }

  lemma {:induction false} TheirsShorter(me: nat, run: seq<Event>)
    ensures |Theirs(me, run)| <= |run|
  {
    if run != [] {
      TheirsShorter(me, run[..|run| - 1]);
    }
  }

  lemma OwnEvent(me: nat, run: seq<Event>, choice: Choice)
    ensures Theirs(me, run + [Act(me, choice)]) == Theirs(me, run)
    ensures Ours(me, run + [Act(me, choice)]) == Ours(me, run) + [choice]
  {
    assert (run + [Act(me, choice)])[..|run|] == run;
  }

  lemma RoundParts(me: nat, run: seq<Event>, bursts: seq<seq<Event>>, i: nat, choice: Choice)
    requires i < |bursts| ==> Foreign(me, bursts[i])
    ensures Theirs(me, run + Round(me, bursts, i, choice))
         == Theirs(me, run) + if i < |bursts| then bursts[i] else []
    ensures Ours(me, run + Round(me, bursts, i, choice)) == Ours(me, run) + [choice]
  {
    hide Theirs, Ours;
    var burst := if i < |bursts| then bursts[i] else [];
    ForeignRun(me, run, burst);
    OwnEvent(me, run + burst, choice);
    Assoc(run, burst, [Act(me, choice)]);
  }

  /** What others did in a woven run is exactly the bursts played, in their order, and what we did is
      exactly our operations. */
  lemma {:induction false} WeaveParts(me: nat, bursts: seq<seq<Event>>, ours: seq<Choice>)
    requires forall i :: 0 <= i < |bursts| ==> Foreign(me, bursts[i])
    ensures Theirs(me, Weave(me, bursts, ours)) == Played(bursts, |ours|)
    ensures Ours(me, Weave(me, bursts, ours)) == ours
  {
    if ours != [] {
      hide Foreign, Round, Weave;
      var front, last := ours[..|ours| - 1], ours[|ours| - 1];
      WeaveParts(me, bursts, front);
      assert ours == front + [last];
      WeaveNext(me, bursts, front, last);
      RoundParts(me, Weave(me, bursts, front), bursts, |front|, last);
    }
  }
}
