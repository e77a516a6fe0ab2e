/** The Python binding's map from handles to objects, and the log it refines.

    The reference is the log of everything ever handed out: object number i, and which numbers have
    been given back. In it no number can be issued twice. The map issues handle 1 + 2i for number i
    and forgets what is given back; the two agree on every reply of every run. */
module HandleMap {
  import opened Wrappers

  const INITIAL := 1
  const DELTA := 2

  datatype Op<T> = Insert(obj: T) | Get(handle: int) | Clone(handle: int) | Remove(handle: int)

  datatype Reply<T> = Issued(handle: int) | Found(obj: T) | InvalidHandle

  // ---------- The reference ----------

  datatype Log<T> = Log(objects: seq<T>, returned: set<int>)

  /** Number i has been handed out and not given back. */
  predicate Live<T>(log: Log<T>, i: int) {
    0 <= i < |log.objects| && i !in log.returned
  }

  /** The number a handle stands for; no number for an even or negative handle. */
  function Number(handle: int): int {
    if handle % DELTA == INITIAL then (handle - INITIAL) / DELTA else -1
  }

  function HandleOf(i: int): int { INITIAL + DELTA * i }

  function LogStep<T>(log: Log<T>, op: Op<T>): (Log<T>, Reply<T>) {
    match op
    case Insert(obj) => (log.(objects := log.objects + [obj]), Issued(HandleOf(|log.objects|)))
    case Get(h) =>
      if Live(log, Number(h)) then (log, Found(log.objects[Number(h)])) else (log, InvalidHandle)
    case Clone(h) =>
      if Live(log, Number(h))
      then (log.(objects := log.objects + [log.objects[Number(h)]]), Issued(HandleOf(|log.objects|)))
      else (log, InvalidHandle)
    case Remove(h) =>
      if Live(log, Number(h))
      then (log.(returned := log.returned + {Number(h)}), Found(log.objects[Number(h)]))
      else (log, InvalidHandle)
  }

  function LogRun<T>(log: Log<T>, ops: seq<Op<T>>): (Log<T>, seq<Reply<T>>) {
    if ops == [] then (log, []) else
    var (l, replies) := LogRun(log, ops[..|ops| - 1]);
    var (l', reply) := LogStep(l, ops[|ops| - 1]);
    (l', replies + [reply])
  }

  // ---------- The map ----------

  datatype Registry<T> = Registry(entries: map<int, T>, counter: int)

  function Init<T>(): Registry<T> { Registry(map[], INITIAL) }

  function Step<T>(s: Registry<T>, op: Op<T>): (Registry<T>, Reply<T>) {
    match op
    case Insert(obj) => (Registry(s.entries[s.counter := obj], s.counter + DELTA), Issued(s.counter))
    case Get(h) => if h in s.entries then (s, Found(s.entries[h])) else (s, InvalidHandle)
    case Clone(h) =>
      if h in s.entries
      then (Registry(s.entries[s.counter := s.entries[h]], s.counter + DELTA), Issued(s.counter))
      else (s, InvalidHandle)
    case Remove(h) =>
      if h in s.entries then (s.(entries := s.entries - {h}), Found(s.entries[h])) else (s, InvalidHandle)
  }

  function Run<T>(s: Registry<T>, ops: seq<Op<T>>): (Registry<T>, seq<Reply<T>>) {
    if ops == [] then (s, []) else
    var (r, replies) := Run(s, ops[..|ops| - 1]);
    var (r', reply) := Step(r, ops[|ops| - 1]);
    (r', replies + [reply])
  }

  // ---------- Refinement ----------

  /** The map holds exactly the live numbers of the log, under their handles. */
  ghost predicate Refines<T>(s: Registry<T>, log: Log<T>) {
    && s.counter == HandleOf(|log.objects|)
    && (forall i :: i in log.returned ==> 0 <= i < |log.objects|)
    && (forall h :: h in s.entries <==> Live(log, Number(h)))
    && (forall h :: h in s.entries ==> s.entries[h] == log.objects[Number(h)])
    && |s.entries| == |log.objects| - |log.returned|
  }

  lemma HandleArithmetic(h: int, g: int)
    ensures Number(HandleOf(h)) == h
    ensures Number(h) == Number(g) && Number(h) >= 0 ==> h == g
  {}

  lemma AddRefines<T>(s: Registry<T>, log: Log<T>, obj: T)
    requires Refines(s, log)
    ensures Refines(Registry(s.entries[s.counter := obj], s.counter + DELTA),
                    log.(objects := log.objects + [obj]))
  {
    var n := |log.objects|;
    HandleArithmetic(n, 0);
    forall h: int ensures Number(h) == n <==> h == s.counter {
      HandleArithmetic(h, s.counter);
    }
    assert s.counter !in s.entries;
    assert n !in log.returned;
  }

  lemma RemoveRefines<T>(s: Registry<T>, log: Log<T>, h: int)
    requires Refines(s, log) && h in s.entries
    ensures Refines(s.(entries := s.entries - {h}), log.(returned := log.returned + {Number(h)}))
  {
    forall g: int ensures Number(g) == Number(h) <==> h == g {
      HandleArithmetic(g, h);
    }
    assert (s.entries - {h}).Keys == s.entries.Keys - {h};
  }

  lemma StepRefines<T>(s: Registry<T>, log: Log<T>, op: Op<T>)
    requires Refines(s, log)
    ensures Refines(Step(s, op).0, LogStep(log, op).0)
    ensures Step(s, op).1 == LogStep(log, op).1
  {
    match op
    case Insert(obj) => AddRefines(s, log, obj);
    case Get(h) =>
    case Clone(h) => if h in s.entries { AddRefines(s, log, s.entries[h]); }
    case Remove(h) => if h in s.entries { RemoveRefines(s, log, h); }
  }

  // ---------- The object ----------

  class UniffiHandleMap<T> {
    var entries: map<int, T>
    var counter: int
    ghost var log: Log<T>  // everything handed out and given back

    function State(): Registry<T>
      reads this
    {
      Registry(entries, counter)
    }

    ghost predicate Valid()
      reads this
    {
      Refines(State(), log)
    }

    /** The object replied as the log does and still agrees with it. */
    twostate predicate Did(op: Op<T>, new reply: Reply<T>)
      reads this
    {
      Valid() && (log, reply) == LogStep(old(log), op)
    }

    constructor ()
      ensures Valid() && log == Log([], {})
    {
      entries, counter, log := map[], INITIAL, Log([], {});
    }

    method Insert(obj: T) returns (handle: int)
      requires Valid()
      modifies this
      ensures Did(Op.Insert(obj), Issued(handle))
      ensures handle !in old(entries) && entries == old(entries)[handle := obj]
    {
      StepRefines(State(), log, Op.Insert(obj));
      handle := counter;
      counter := counter + DELTA;
      entries := entries[handle := obj];
      log := LogStep(log, Op.Insert(obj)).0;
    }

    method Get(handle: int) returns (r: Option<T>)
      requires Valid()
      ensures Did(Op.Get(handle), match r case Some(x) => Found(x) case None => InvalidHandle)
    {
      r := if handle in entries then Some(entries[handle]) else None;
    }

    method Clone(handle: int) returns (r: Option<int>)
      requires Valid()
      modifies this
      ensures Did(Op.Clone(handle), match r case Some(h) => Issued(h) case None => InvalidHandle)
    {
      if handle !in entries { return None; }
      var copy := Insert(entries[handle]);
      r := Some(copy);
    }

    method Remove(handle: int) returns (r: Option<T>)
      requires Valid()
      modifies this
      ensures Did(Op.Remove(handle), match r case Some(x) => Found(x) case None => InvalidHandle)
    {
      StepRefines(State(), log, Op.Remove(handle));
      if handle !in entries { return None; }
      r := Some(entries[handle]);
      entries := entries - {handle};
      log := LogStep(log, Op.Remove(handle)).0;
    }
  }

  // ---------- Runs ----------

  /** Over every run, from a fresh map, the replies are those of the log, and the map's size is what
      was issued minus what was given back. */
  lemma {:induction false} RunRefines<T>(ops: seq<Op<T>>)
    ensures Refines(Run(Init(), ops).0, LogRun(Log([], {}), ops).0)
    ensures Run(Init(), ops).1 == LogRun(Log([], {}), ops).1
  {
    if ops != [] {
      RunRefines(ops[..|ops| - 1]);
      StepRefines(Run<T>(Init(), ops[..|ops| - 1]).0, LogRun(Log([], {}), ops[..|ops| - 1]).0, ops[|ops| - 1]);
    }
  }

  /** The handles issued by a run, in order. */
  function IssuedBy<T>(replies: seq<Reply<T>>): seq<int> {
    if replies == [] then [] else
    IssuedBy(replies[..|replies| - 1])
      + if replies[|replies| - 1].Issued? then [replies[|replies| - 1].handle] else []
  }

  /** The i-th handle issued by a run is 1 + 2i: handles are odd, no two are equal, and none is issued
      again after it has been removed. */
  lemma {:induction false} HandlesNeverReissued<T>(ops: seq<Op<T>>)
    ensures var issued := IssuedBy(Run(Init(), ops).1);
            && |issued| == |LogRun(Log([], {}), ops).0.objects|
            && (forall i :: 0 <= i < |issued| ==> issued[i] == 1 + 2 * i)
            && (forall i, j :: 0 <= i < j < |issued| ==> issued[i] != issued[j])
  {
    if ops != [] {
      var before := ops[..|ops| - 1];
      hide Refines, Step;
      HandlesNeverReissued(before);
      RunRefines(before);
      var r := Run<T>(Init(), ops).1;
      assert r[..|r| - 1] == Run<T>(Init(), before).1;
      StepRefines(Run<T>(Init(), before).0, LogRun(Log([], {}), before).0, ops[|ops| - 1]);
    }
  }

  /** The map maps: an inserted object is found under its new handle, a removed one is given back and then
      gone, and no operation changes what other handles give. */
  lemma PartialMap<T>(ops: seq<Op<T>>, obj: T, h: int, other: int)
    ensures var s := Run(Init(), ops).0;
            var (inserted, issued) := Step(s, Insert(obj));
            var (removed, given) := Step(s, Remove(h));
            && issued.Issued? && Step(s, Get(issued.handle)).1 == InvalidHandle
            && Step(inserted, Get(issued.handle)).1 == Found(obj)
            && (other != issued.handle ==> Step(inserted, Get(other)).1 == Step(s, Get(other)).1)
            && given == Step(s, Get(h)).1
            && Step(removed, Get(h)).1 == InvalidHandle
            && (other != h ==> Step(removed, Get(other)).1 == Step(s, Get(other)).1)
            && Step(s, Get(h)).0 == s
            && |inserted.entries| == |s.entries| + 1
            && |removed.entries| == |s.entries| - (if given.Found? then 1 else 0)
  {
    RunRefines(ops);
    var s := Run(Init(), ops).0;
    assert s.counter !in s.entries;
    if h in s.entries {
      RemoveRefines(s, LogRun(Log([], {}), ops).0, h);
    }
  }

  /** After a successful clone both handles give the same object, and removing one leaves the other. */
  lemma CloneIsIndependent<T>(ops: seq<Op<T>>, h: int)
    requires h in Run<T>(Init(), ops).0.entries
    ensures var s := Run(Init(), ops).0;
            var (s', reply) := Step(s, Clone(h));
            && reply.Issued? && reply.handle != h
            && Step(s', Get(h)).1 == Step(s', Get(reply.handle)).1 == Found(s.entries[h])
            && Step(Step(s', Remove(h)).0, Get(reply.handle)).1 == Found(s.entries[h])
            && Step(Step(s', Remove(reply.handle)).0, Get(h)).1 == Found(s.entries[h])
            && Step(Step(s', Remove(h)).0, Get(h)).1 == InvalidHandle
  {
    RunRefines(ops);
  }
}
