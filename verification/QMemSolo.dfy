// A call that no other thread interrupts does to the shared state what the
// sequential specification says: the N-thread model and `QMemSpec` describe one system.
module QMemSolo {
  import opened CInt
  import opened QMemSpec
  import opened QMemThreads
  import opened Runs

  function Blocks(used: seq<Id>, heap: map<Id, Block>): (r: seq<Blk>)
    ensures |r| == |used|
  {
    seq(|used|, i requires 0 <= i < |used| =>
      if used[i] in heap then Blk(used[i], heap[used[i]].size, heap[used[i]].flags, heap[used[i]].refs)
      else Blk(used[i], 0, 0, 0))
  }

  // What a sequential observer sees of a state.
  function Abs(s: State): QState {
    QState(Blocks(s.used, s.heap), s.nextId, s.totalQubits, s.allocatedQubits, s.maxQubits)
  }

  // k steps of one thread.
  function Ticks(t: nat, ok: bool, k: nat): (evs: seq<Event>)
    ensures |evs| == k
  {
    Repeat(Event(t, Tick(ok)), k)
  }

  lemma {:induction false} FirstTick(ar: Arith, s: State, t: nat, ok: bool, k: nat)
    ensures Exec(ar, s, Ticks(t, ok, 0)) == s
    ensures k > 0 ==> Exec(ar, s, Ticks(t, ok, k)) == Exec(ar, Next(ar, s, Event(t, Tick(ok))), Ticks(t, ok, k - 1))
  {
    FoldRepeat(NextOf(ar), s, Event(t, Tick(ok)), k);
  }

  // A call, then k steps of its thread.
  function CallEvents(t: nat, call: Act, ok: bool, k: nat): seq<Event> {
    [Event(t, call)] + Ticks(t, ok, k)
  }

  lemma {:induction false} CallThenTicks(ar: Arith, s: State, t: nat, call: Act, ok: bool, k: nat)
    ensures Exec(ar, s, CallEvents(t, call, ok, k)) == Exec(ar, Next(ar, s, Event(t, call)), Ticks(t, ok, k))
  {
    FoldFirst(NextOf(ar), s, Event(t, call), Ticks(t, ok, k));
  }

  lemma {:induction false} OneTick(ar: Arith, s: State, t: nat, ok: bool)
    ensures Exec(ar, s, Ticks(t, ok, 1)) == Next(ar, s, Event(t, Tick(ok)))
  {
    FirstTick(ar, s, t, ok, 1);
    FirstTick(ar, Next(ar, s, Event(t, Tick(ok))), t, ok, 0);
  }

  // Steps of an idle thread change nothing.
  lemma {:induction false} IdleTicks(ar: Arith, s: State, t: nat, ok: bool, k: nat)
    requires t < |s.pcs| && s.pcs[t].Idle?
    ensures Exec(ar, s, Ticks(t, ok, k)) == s
    decreases k
  {
    FirstTick(ar, s, t, ok, k);
    if k > 0 { IdleTicks(ar, s, t, ok, k - 1); }
  }

  // ---- a critical section run to its end ----------------------------------------

  function StepsLeft(sec: Sec): nat {
    match sec
    case AllocLocked(_) => 5
    case AllocMade(_, _) => 4
    case AllocLinked(_, _) => 3
    case AllocTotal(_, _) => 2
    case AllocCounted(_, _) => 1
    case FreeLocked(_) => 7
    case FreeZero(_) => 6
    case FreeUnlinked(_) => 5
    case FreeStateless(_) => 4
    case FreeTotal(_) => 3
    case FreeCounted(_) => 2
    case Leaving => 1
  }

  lemma {:induction false} SectionEnds(ar: Arith, s: State, sec: Sec, ok: bool)
    ensures var pc := SectionNext(ar, s, sec, ok);
            if pc.In? then StepsLeft(pc.sec) < StepsLeft(sec) else pc.Idle?
  {
  }

  // The memory after the section has run to its end with nobody else stepping.
  function Finish(ar: Arith, s: State, sec: Sec, ok: bool): State
    decreases StepsLeft(sec)
  {
    var pc := SectionNext(ar, s, sec, ok);
    var s' := SectionEffect(ar, s, sec, ok);
    SectionEnds(ar, s, sec, ok);
    if pc.In? then Finish(ar, s', pc.sec, ok) else s'
  }

  lemma {:induction false} EffectIgnoresThreads(ar: Arith, s: State, sec: Sec, ok: bool,
                                               pcs: seq<Pc>, lock: Option<nat>)
    ensures var s' := s.(pcs := pcs, lock := lock);
            && SectionNext(ar, s', sec, ok) == SectionNext(ar, s, sec, ok)
            && SectionEffect(ar, s', sec, ok) == SectionEffect(ar, s, sec, ok).(pcs := pcs, lock := lock)
  {
  }

  lemma {:induction false} FinishIgnoresThreads(ar: Arith, s: State, sec: Sec, ok: bool,
                                               pcs: seq<Pc>, lock: Option<nat>)
    ensures Finish(ar, s.(pcs := pcs, lock := lock), sec, ok) == Finish(ar, s, sec, ok).(pcs := pcs, lock := lock)
    decreases StepsLeft(sec)
  {
    EffectIgnoresThreads(ar, s, sec, ok, pcs, lock);
    SectionEnds(ar, s, sec, ok);
    var pc := SectionNext(ar, s, sec, ok);
    if pc.In? { FinishIgnoresThreads(ar, SectionEffect(ar, s, sec, ok), pc.sec, ok, pcs, lock); }
  }

  lemma {:induction false} SectionStep(ar: Arith, s: State, t: nat, ok: bool)
    requires t < |s.pcs| && s.pcs[t].In? && s.lock == Some(t)
    ensures var sec := s.pcs[t].sec;
            var pc := SectionNext(ar, s, sec, ok);
            Next(ar, s, Event(t, Tick(ok))) ==
            SectionEffect(ar, s, sec, ok).(pcs := s.pcs[t := pc], lock := if pc.In? then Some(t) else None)
  {
  }

  // With j steps to go the thread will end in this state: it is idle there already, or its
  // section leads there.
  ghost predicate Ending(ar: Arith, t: nat, ok: bool, end: State, s: State, j: nat) {
    && t < |s.pcs|
    && if s.pcs[t].Idle? then s == end
       else
         && s.pcs[t].In? && s.lock == Some(t) && j >= StepsLeft(s.pcs[t].sec)
         && Finish(ar, s, s.pcs[t].sec, ok).(pcs := s.pcs[t := Idle], lock := None) == end
  }

  lemma {:induction false} EndingStep(ar: Arith, t: nat, ok: bool, end: State, s: State, j: nat)
    requires Ending(ar, t, ok, end, s, j)
    ensures j == 0 ==> s == end
    ensures j > 0 ==> Ending(ar, t, ok, end, Next(ar, s, Event(t, Tick(ok))), j - 1)
  {
    if s.pcs[t].In? {
      SectionGoesOn(ar, s, Next(ar, s, Event(t, Tick(ok))), t, s.pcs[t].sec, ok);
    }
  }

  // A section step leaves the thread in the section with the same end in sight, or is the end.
  lemma {:induction false} SectionGoesOn(ar: Arith, s: State, s1: State, t: nat, sec: Sec, ok: bool)
    requires t < |s.pcs| && s.pcs[t] == In(sec) && s.lock == Some(t) && s1 == Next(ar, s, Event(t, Tick(ok)))
    ensures |s1.pcs| == |s.pcs| && s1.pcs[t := Idle] == s.pcs[t := Idle]
    ensures var pc, end := s1.pcs[t], Finish(ar, s, sec, ok).(pcs := s.pcs[t := Idle], lock := None);
            if pc.In? then
              && s1.lock == Some(t) && StepsLeft(pc.sec) < StepsLeft(sec)
              && Finish(ar, s1, pc.sec, ok).(pcs := s.pcs[t := Idle], lock := None) == end
            else s1 == end && pc.Idle?
  {
    var pc := SectionNext(ar, s, sec, ok);
    var s0 := SectionEffect(ar, s, sec, ok);
    SectionStep(ar, s, t, ok);
    SectionEnds(ar, s, sec, ok);
    assert s.pcs[t := pc][t := Idle] == s.pcs[t := Idle];
    if pc.In? { FinishIgnoresThreads(ar, s0, pc.sec, ok, s.pcs[t := pc], Some(t)); }
  }

  lemma {:induction false} RunSection(ar: Arith, s: State, t: nat, sec: Sec, ok: bool, k: nat)
    requires t < |s.pcs| && s.pcs[t] == In(sec) && s.lock == Some(t) && k >= StepsLeft(sec)
    ensures Exec(ar, s, Ticks(t, ok, k)) == Finish(ar, s, sec, ok).(pcs := s.pcs[t := Idle], lock := None)
  {
    var end := Finish(ar, s, sec, ok).(pcs := s.pcs[t := Idle], lock := None);
    assert Ending(ar, t, ok, end, s, k);
    RunTo(ar, t, ok, end, s, k);
  }

  lemma {:induction false} RunTo(ar: Arith, t: nat, ok: bool, end: State, s: State, k: nat)
    requires Ending(ar, t, ok, end, s, k)
    ensures Exec(ar, s, Ticks(t, ok, k)) == end
  {
    var e := Event(t, Tick(ok));
    forall x, j: nat | Ending(ar, t, ok, end, x, j)
      ensures j == 0 ==> x == end
      ensures j > 0 ==> Ending(ar, t, ok, end, NextOf(ar)(x, e), j - 1) {
      EndingStep(ar, t, ok, end, x, j);
    }
    FoldReaches(NextOf(ar), (x, j) => Ending(ar, t, ok, end, x, j), s, e, k, end);
  }

  // ---- alloc -------------------------------------------------------------------

  function AllocCall(t: nat, req: Req, maxFirst: bool, ok: bool): seq<Event> {
    CallEvents(t, CallAlloc(req, maxFirst), ok, 7)
  }

  // The state after a request past the quota test has run its critical section alone.
  function Committed(ar: Arith, s: State, r: Req): State {
    s.(heap := s.heap[s.nextId := Block(r.n, r.flags, 1)],
       nextId := s.nextId + 1,
       used := [s.nextId] + s.used,
       totalQubits := Int(ar, s.totalQubits + r.n),
       allocatedQubits := Int(ar, s.allocatedQubits + r.n),
       pool := s.pool + multiset{s.nextId})
  }

  lemma {:induction false} AllocFinish(ar: Arith, s: State, r: Req, ok: bool)
    ensures Finish(ar, s, AllocLocked(r), ok) == if ok then Committed(ar, s, r) else s
  {
    if ok {
      var b := s.nextId;
      var s1 := s.(heap := s.heap[b := Block(r.n, r.flags, 1)], nextId := b + 1);
      assert Finish(ar, s, AllocLocked(r), ok) == Finish(ar, s1, AllocMade(r, b), ok);
      MadeFinish(ar, s1, r, b, ok);
    } else {
      assert Finish(ar, s, AllocLocked(r), ok) == Finish(ar, s, Leaving, ok);
    }
  }

  lemma {:induction false} MadeFinish(ar: Arith, s: State, r: Req, b: Id, ok: bool)
    ensures Finish(ar, s, AllocMade(r, b), ok) ==
            s.(used := [b] + s.used,
               totalQubits := Int(ar, s.totalQubits + r.n),
               allocatedQubits := Int(ar, s.allocatedQubits + r.n),
               pool := s.pool + multiset{b})
  {
    var s2 := s.(used := [b] + s.used);
    assert Finish(ar, s, AllocMade(r, b), ok) == Finish(ar, s2, AllocLinked(r, b), ok);
    var s3 := s2.(totalQubits := Int(ar, s.totalQubits + r.n));
    assert Finish(ar, s2, AllocLinked(r, b), ok) == Finish(ar, s3, AllocTotal(r, b), ok);
    LinkedFinish(ar, s3, r, b, ok);
  }

  lemma {:induction false} LinkedFinish(ar: Arith, s: State, r: Req, b: Id, ok: bool)
    ensures Finish(ar, s, AllocTotal(r, b), ok) ==
            s.(allocatedQubits := Int(ar, s.allocatedQubits + r.n), pool := s.pool + multiset{b})
  {
    var s1 := s.(allocatedQubits := Int(ar, s.allocatedQubits + r.n));
    assert Finish(ar, s, AllocTotal(r, b), ok) == Finish(ar, s1, AllocCounted(r, b), ok);
  }

  // The two reads of the quota test, in either order, with nothing in between.
  function FirstRead(s: State, req: Req, maxFirst: bool): Pc {
    if maxFirst then SawMax(req, s.maxQubits) else SawAllocated(req, s.allocatedQubits)
  }

  lemma {:induction false} CallStep(ar: Arith, s: State, t: nat, req: Req, maxFirst: bool)
    requires t < |s.pcs| && s.pcs[t].Idle? && !BadRequest(req.n)
    ensures Next(ar, s, Event(t, CallAlloc(req, maxFirst))) == s.Goto(t, FirstRead(s, req, maxFirst))
  {
  }

  lemma {:induction false} TestStep(ar: Arith, s: State, t: nat, req: Req, maxFirst: bool, ok: bool)
    requires t < |s.pcs| && s.pcs[t] == FirstRead(s, req, maxFirst)
    ensures Next(ar, s, Event(t, Tick(ok))) ==
            s.Goto(t, if Exceeds(ar, s.allocatedQubits, req.n, s.maxQubits) then Idle else Passed(req))
  {
  }

  lemma {:induction false} TestSteps(ar: Arith, s: State, t: nat, req: Req, maxFirst: bool, ok: bool)
    requires t < |s.pcs| && s.pcs[t].Idle? && !BadRequest(req.n)
    ensures Exec(ar, s, CallEvents(t, CallAlloc(req, maxFirst), ok, 1)) ==
            s.Goto(t, if Exceeds(ar, s.allocatedQubits, req.n, s.maxQubits) then Idle else Passed(req))
  {
    var pc := FirstRead(s, req, maxFirst);
    CallThenTicks(ar, s, t, CallAlloc(req, maxFirst), ok, 1);
    CallStep(ar, s, t, req, maxFirst);
    OneTick(ar, s.Goto(t, pc), t, ok);
    TestStep(ar, s.Goto(t, pc), t, req, maxFirst, ok);
    var pc' := if Exceeds(ar, s.allocatedQubits, req.n, s.maxQubits) then Idle else Passed(req);
    assert s.pcs[t := pc][t := pc'] == s.pcs[t := pc'];
  }

  lemma {:induction false} AllocSteps(ar: Arith, s: State, t: nat, req: Req, maxFirst: bool, ok: bool)
    requires t < |s.pcs| && s.pcs[t].Idle? && s.lock.None?
    ensures Exec(ar, s, AllocCall(t, req, maxFirst, ok)) ==
            if AllocRet(ar, Abs(s), req.n, ok).Refused? then s else Committed(ar, s, req)
  {
    var call := CallAlloc(req, maxFirst);
    if BadRequest(req.n) {
      CallThenTicks(ar, s, t, call, ok, 7);
      IdleTicks(ar, s, t, ok, 7);
    } else {
      assert AllocCall(t, req, maxFirst, ok) == CallEvents(t, call, ok, 1) + Ticks(t, ok, 6);
      FoldConcat(NextOf(ar), s, CallEvents(t, call, ok, 1), Ticks(t, ok, 6));
      TestSteps(ar, s, t, req, maxFirst, ok);
      assert s.pcs[t := Idle] == s.pcs;
      if Exceeds(ar, s.allocatedQubits, req.n, s.maxQubits) {
        IdleTicks(ar, s, t, ok, 6);
      } else {
        CommitSteps(ar, s, t, req, ok);
      }
    }
  }

  lemma {:induction false} CommitSteps(ar: Arith, s: State, t: nat, req: Req, ok: bool)
    requires t < |s.pcs| && s.lock.None?
    ensures Exec(ar, s.Goto(t, Passed(req)), Ticks(t, ok, 6)) ==
            (if ok then Committed(ar, s, req) else s).(pcs := s.pcs[t := Idle])
  {
    var pcs := s.pcs[t := In(AllocLocked(req))];
    FirstTick(ar, s.Goto(t, Passed(req)), t, ok, 6);
    EnterAlloc(ar, s, t, req, ok);
    RunSection(ar, s.(pcs := pcs, lock := Some(t)), t, AllocLocked(req), ok, 5);
    AllocFinish(ar, s, req, ok);
    FinishIgnoresThreads(ar, s, AllocLocked(req), ok, pcs, Some(t));
    assert pcs[t := Idle] == s.pcs[t := Idle];
  }

  lemma {:induction false} EnterAlloc(ar: Arith, s: State, t: nat, req: Req, ok: bool)
    requires t < |s.pcs| && s.lock.None?
    ensures Next(ar, s.Goto(t, Passed(req)), Event(t, Tick(ok))) ==
            s.(pcs := s.pcs[t := In(AllocLocked(req))], lock := Some(t))
  {
    assert s.pcs[t := Passed(req)][t := In(AllocLocked(req))] == s.pcs[t := In(AllocLocked(req))];
  }

  // An allocation that runs alone is the sequential one, in either order of its two
  // reads, and hands out one reference iff it succeeds.
  lemma {:induction false} SoloAlloc(ar: Arith, s: State, t: nat, req: Req, maxFirst: bool, ok: bool)
    requires t < |s.pcs| && s.pcs[t].Idle? && s.lock.None? && ListInv(s, Leaving)
    ensures var s' := Exec(ar, s, AllocCall(t, req, maxFirst, ok));
            && Abs(s') == Alloc(ar, Abs(s), req.n, req.flags, ok)
            && s'.pcs == s.pcs && s'.lock.None?
            && match AllocRet(ar, Abs(s), req.n, ok)
               case Got(id) => s'.pool == s.pool + multiset{id}
               case Refused(_) => s'.pool == s.pool
  {
    AllocSteps(ar, s, t, req, maxFirst, ok);
    if AllocRet(ar, Abs(s), req.n, ok).Got? { CommittedIsInsert(ar, s, req); }
  }

  lemma {:induction false} CommittedIsInsert(ar: Arith, s: State, req: Req)
    requires ListInv(s, Leaving)
    ensures Abs(Committed(ar, s, req)) == Insert(ar, Abs(s), req.n, req.flags)
  {
    assert s.nextId !in s.used;
    CommittedBlocks(s.used, s.heap, s.nextId, req);
  }

  lemma {:induction false} CommittedBlocks(used: seq<Id>, heap: map<Id, Block>, b: Id, req: Req)
    requires b !in used
    ensures Blocks([b] + used, heap[b := Block(req.n, req.flags, 1)]) ==
            [Blk(b, req.n, req.flags, 1)] + Blocks(used, heap)
  {
  }

  // ---- free, get, set_max_qubits -------------------------------------------------

  function FreeCallEvents(t: nat, b: Id): seq<Event> {
    CallEvents(t, CallFree(b), true, 8)
  }

  function Dropped(ar: Arith, s: State, b: Id): State
    requires b in s.heap && b in s.used
  {
    var refs := Int(ar, s.heap[b].refs - 1);
    var s' := s.(pool := s.pool - multiset{b});
    if refs != 0 then s'.(heap := s.heap[b := s.heap[b].(refs := refs)])
    else s'.(heap := s.heap - {b}, used := Unlink(s.used, b),
             totalQubits := Int(ar, s.totalQubits - s.heap[b].size),
             allocatedQubits := Int(ar, s.allocatedQubits - s.heap[b].size),
             kfreed := s.kfreed + multiset{b}, statesFreed := s.statesFreed + multiset{b})
  }

  lemma {:induction false} FreeFinish(ar: Arith, s: State, b: Id, ok: bool)
    requires b in s.heap && b in s.used
    ensures Finish(ar, s.(pool := s.pool - multiset{b}), FreeLocked(b), ok) == Dropped(ar, s, b)
  {
    var refs := Int(ar, s.heap[b].refs - 1);
    var s0 := s.(pool := s.pool - multiset{b});
    var s1 := s0.(heap := s.heap[b := s.heap[b].(refs := refs)]);
    FirstFinish(ar, s0, b, ok);
    if refs == 0 {
      LastFinish(ar, s1, b, ok);
      DroppedLast(ar, s, b);
    }
  }

  lemma {:induction false} DroppedLast(ar: Arith, s: State, b: Id)
    requires b in s.heap && b in s.used && Int(ar, s.heap[b].refs - 1) == 0
    ensures var heap := s.heap[b := s.heap[b].(refs := Int(ar, s.heap[b].refs - 1))];
            Dropped(ar, s, b) ==
            s.(pool := s.pool - multiset{b}, heap := heap - {b}, used := Unlink(s.used, b),
               totalQubits := Int(ar, s.totalQubits - heap[b].size),
               allocatedQubits := Int(ar, s.allocatedQubits - heap[b].size),
               kfreed := s.kfreed + multiset{b}, statesFreed := s.statesFreed + multiset{b})
  {
    assert s.heap[b := s.heap[b].(refs := Int(ar, s.heap[b].refs - 1))] - {b} == s.heap - {b};
  }

  lemma {:induction false} FirstFinish(ar: Arith, s: State, b: Id, ok: bool)
    requires b in s.heap
    ensures var refs := Int(ar, s.heap[b].refs - 1);
            var s1 := s.(heap := s.heap[b := s.heap[b].(refs := refs)]);
            Finish(ar, s, FreeLocked(b), ok) == if refs == 0 then Finish(ar, s1, FreeZero(b), ok) else s1
  {
    var s1 := s.(heap := s.heap[b := s.heap[b].(refs := Int(ar, s.heap[b].refs - 1))]);
    assert Finish(ar, s1, Leaving, ok) == s1;
  }

  lemma {:induction false} LastFinish(ar: Arith, s: State, b: Id, ok: bool)
    requires b in s.heap && b in s.used
    ensures Finish(ar, s, FreeZero(b), ok) ==
            s.(heap := s.heap - {b}, used := Unlink(s.used, b),
               totalQubits := Int(ar, s.totalQubits - s.heap[b].size),
               allocatedQubits := Int(ar, s.allocatedQubits - s.heap[b].size),
               kfreed := s.kfreed + multiset{b}, statesFreed := s.statesFreed + multiset{b})
  {
    var s2 := s.(used := Unlink(s.used, b));
    assert Finish(ar, s, FreeZero(b), ok) == Finish(ar, s2, FreeUnlinked(b), ok);
    UnlinkedFinish(ar, s2, b, ok);
    var s3 := s2.(statesFreed := s.statesFreed + multiset{b}, totalQubits := Int(ar, s.totalQubits - s.heap[b].size));
    CountedFinish(ar, s3, b, ok);
  }

  lemma {:induction false} UnlinkedFinish(ar: Arith, s: State, b: Id, ok: bool)
    requires b in s.heap
    ensures Finish(ar, s, FreeUnlinked(b), ok) ==
            Finish(ar, s.(statesFreed := s.statesFreed + multiset{b},
                          totalQubits := Int(ar, s.totalQubits - s.heap[b].size)), FreeTotal(b), ok)
  {
    var s1 := s.(statesFreed := s.statesFreed + multiset{b});
    assert Finish(ar, s, FreeUnlinked(b), ok) == Finish(ar, s1, FreeStateless(b), ok);
  }

  lemma {:induction false} CountedFinish(ar: Arith, s: State, b: Id, ok: bool)
    requires b in s.heap
    ensures Finish(ar, s, FreeTotal(b), ok) ==
            s.(heap := s.heap - {b}, allocatedQubits := Int(ar, s.allocatedQubits - s.heap[b].size),
               kfreed := s.kfreed + multiset{b})
  {
    var s1 := s.(allocatedQubits := Int(ar, s.allocatedQubits - s.heap[b].size));
    assert Finish(ar, s, FreeTotal(b), ok) == Finish(ar, s1, FreeCounted(b), ok);
    var s2 := s1.(heap := s.heap - {b}, kfreed := s.kfreed + multiset{b});
    assert Finish(ar, s1, FreeCounted(b), ok) == Finish(ar, s2, Leaving, ok);
  }

  lemma {:induction false} EnterFree(ar: Arith, s: State, t: nat, b: Id)
    requires t < |s.pcs| && s.lock.None?
    ensures Next(ar, s.Goto(t, FreeCalled(b)), Event(t, Tick(true))) ==
            s.(pcs := s.pcs[t := In(FreeLocked(b))], lock := Some(t))
  {
    assert s.pcs[t := FreeCalled(b)][t := In(FreeLocked(b))] == s.pcs[t := In(FreeLocked(b))];
  }

  lemma {:induction false} CallFreeStep(ar: Arith, s: State, t: nat, b: Id)
    requires t < |s.pcs| && s.pcs[t].Idle? && b in s.pool
    ensures Next(ar, s, Event(t, CallFree(b))) == s.(pool := s.pool - multiset{b}).Goto(t, FreeCalled(b))
  {
  }

  // Waiting for the lock, then the section.
  lemma {:induction false} WaitAndRun(ar: Arith, s: State, t: nat, b: Id)
    requires t < |s.pcs| && s.lock.None?
    ensures Exec(ar, s.Goto(t, FreeCalled(b)), Ticks(t, true, 8)) ==
            Finish(ar, s, FreeLocked(b), true).(pcs := s.pcs[t := Idle], lock := None)
  {
    var pcs := s.pcs[t := In(FreeLocked(b))];
    var s1 := s.(pcs := pcs, lock := Some(t));
    FirstTick(ar, s.Goto(t, FreeCalled(b)), t, true, 8);
    EnterFree(ar, s, t, b);
    RunSection(ar, s1, t, FreeLocked(b), true, 7);
    FinishIgnoresThreads(ar, s, FreeLocked(b), true, pcs, Some(t));
    assert pcs[t := Idle] == s.pcs[t := Idle];
  }

  lemma {:induction false} FreeSteps(ar: Arith, s: State, t: nat, b: Id)
    requires t < |s.pcs| && s.pcs[t].Idle? && s.lock.None? && b in s.pool && b in s.heap && b in s.used
    ensures Exec(ar, s, FreeCallEvents(t, b)) == Dropped(ar, s, b)
  {
    CallThenTicks(ar, s, t, CallFree(b), true, 8);
    CallFreeStep(ar, s, t, b);
    WaitAndRun(ar, s.(pool := s.pool - multiset{b}), t, b);
    FreeFinish(ar, s, b, true);
    assert s.pcs[t := Idle] == s.pcs;
  }

  lemma {:induction false} FindIsPosition(used: seq<Id>, heap: map<Id, Block>, b: Id)
    ensures Find(Blocks(used, heap), b) == Position(used, b)
  {
    if used != [] && used[0] != b {
      assert Blocks(used, heap)[1..] == Blocks(used[1..], heap);
      FindIsPosition(used[1..], heap, b);
    }
  }

  lemma {:induction false} RecountBlocks(used: seq<Id>, heap: map<Id, Block>, k: nat, refs: int)
    requires Falling(used) && k < |used| && used[k] in heap
    ensures var bs := Blocks(used, heap);
            Blocks(used, heap[used[k] := heap[used[k]].(refs := refs)]) == bs[k := bs[k].(refs := refs)]
  {
  }

  lemma {:induction false} RemoveBlock(used: seq<Id>, heap: map<Id, Block>, k: nat)
    requires Falling(used) && k < |used|
    ensures var bs := Blocks(used, heap);
            Blocks(used[..k] + used[k + 1..], heap - {used[k]}) == bs[..k] + bs[k + 1..]
  {
    var rest := used[..k] + used[k + 1..];
    assert forall i :: 0 <= i < |rest| ==> rest[i] == used[if i < k then i else i + 1] && rest[i] != used[k];
  }

  // A free or put that runs alone consumes its reference and is the sequential free.
  lemma {:induction false} SoloFree(ar: Arith, s: State, t: nat, b: Id)
    requires t < |s.pcs| && s.pcs[t].Idle? && s.lock.None? && ListInv(s, Leaving)
    requires b in s.pool && b in s.heap
    ensures var s' := Exec(ar, s, FreeCallEvents(t, b));
            && Listed(Abs(s), b) && Abs(s') == Free(ar, Abs(s), b)
            && s'.pcs == s.pcs && s'.lock.None? && s'.pool == s.pool - multiset{b}
  {
    ListedIfHeap(s, b);
    FreeSteps(ar, s, t, b);
    DroppedIsFree(ar, s, b);
  }

  lemma {:induction false} DroppedIsFree(ar: Arith, s: State, b: Id)
    requires b in s.heap && b in s.used && Falling(s.used)
    requires Listed(Abs(s), b) && Find(Abs(s).blocks, b) == Position(s.used, b)
    ensures Abs(Dropped(ar, s, b)) == Free(ar, Abs(s), b)
    ensures Dropped(ar, s, b).pcs == s.pcs && Dropped(ar, s, b).lock == s.lock
    ensures Dropped(ar, s, b).pool == s.pool - multiset{b}
  {
    var k := Position(s.used, b);
    RecountBlocks(s.used, s.heap, k, Int(ar, s.heap[b].refs - 1));
    RemoveBlock(s.used, s.heap, k);
  }

  lemma {:induction false} ListedIfHeap(s: State, b: Id)
    requires ListInv(s, Leaving) && b in s.heap
    ensures b in s.used && Falling(s.used) && Listed(Abs(s), b)
    ensures Find(Abs(s).blocks, b) == Position(s.used, b)
  {
    assert !OffList(Leaving, b);
    FindIsPosition(s.used, s.heap, b);
  }

  lemma {:induction false} SoloGet(ar: Arith, s: State, t: nat, b: Id)
    requires t < |s.pcs| && s.pcs[t].Idle? && ListInv(s, Leaving)
    requires b in s.pool && b in s.heap
    ensures var s' := Exec(ar, s, CallEvents(t, CallGet(b), true, 1));
            && Listed(Abs(s), b) && Abs(s') == Get(ar, Abs(s), b)
            && s'.pcs == s.pcs && s'.pool == s.pool + multiset{b}
  {
    ListedIfHeap(s, b);
    GetSteps(ar, s, t, b);
    CountedIsGet(ar, s, b);
  }

  lemma {:induction false} CountedIsGet(ar: Arith, s: State, b: Id)
    requires b in s.heap && b in s.used && Falling(s.used)
    requires Listed(Abs(s), b) && Find(Abs(s).blocks, b) == Position(s.used, b)
    ensures Abs(s.(heap := s.heap[b := s.heap[b].(refs := Int(ar, s.heap[b].refs + 1))],
                  pool := s.pool + multiset{b})) ==
            Get(ar, Abs(s), b)
  {
    RecountBlocks(s.used, s.heap, Position(s.used, b), Int(ar, s.heap[b].refs + 1));
  }

  lemma {:induction false} GetSteps(ar: Arith, s: State, t: nat, b: Id)
    requires t < |s.pcs| && s.pcs[t].Idle? && b in s.pool && b in s.heap
    ensures Exec(ar, s, CallEvents(t, CallGet(b), true, 1)) ==
            s.(heap := s.heap[b := s.heap[b].(refs := Int(ar, s.heap[b].refs + 1))], pool := s.pool + multiset{b})
  {
    var s1 := s.Goto(t, Getting(b)).(pool := s.pool - multiset{b});
    CallThenTicks(ar, s, t, CallGet(b), true, 1);
    CallGetStep(ar, s, t, b);
    OneTick(ar, s1, t, true);
    GetStepResult(ar, s, t, b);
  }

  lemma {:induction false} CallGetStep(ar: Arith, s: State, t: nat, b: Id)
    requires t < |s.pcs| && s.pcs[t].Idle? && b in s.pool
    ensures Next(ar, s, Event(t, CallGet(b))) == s.Goto(t, Getting(b)).(pool := s.pool - multiset{b})
  {
  }

  lemma {:induction false} GetStepResult(ar: Arith, s: State, t: nat, b: Id)
    requires t < |s.pcs| && s.pcs[t].Idle? && b in s.pool && b in s.heap
    ensures Next(ar, s.Goto(t, Getting(b)).(pool := s.pool - multiset{b}), Event(t, Tick(true))) ==
            s.(heap := s.heap[b := s.heap[b].(refs := Int(ar, s.heap[b].refs + 1))], pool := s.pool + multiset{b})
  {
    assert s.pcs[t := Getting(b)][t := Idle] == s.pcs;
    assert s.pool - multiset{b} + multiset{b, b} == s.pool + multiset{b};
  }

  lemma {:induction false} SoloSetMax(ar: Arith, s: State, t: nat, v: nat)
    requires t < |s.pcs| && s.pcs[t].Idle?
    ensures var s' := Exec(ar, s, CallEvents(t, CallSetMax(v), true, 1));
            Abs(s') == SetMax(ar, Abs(s), v) && s'.pcs == s.pcs && s'.pool == s.pool
  {
    CallThenTicks(ar, s, t, CallSetMax(v), true, 1);
    OneTick(ar, s.Goto(t, SetMaxSaw(v, s.allocatedQubits)), t, true);
    SetMaxWrites(ar, s, t, v);
  }

  lemma {:induction false} SetMaxWrites(ar: Arith, s: State, t: nat, v: nat)
    requires t < |s.pcs| && s.pcs[t].Idle?
    ensures Next(ar, s, Event(t, CallSetMax(v))) == s.Goto(t, SetMaxSaw(v, s.allocatedQubits))
    ensures Next(ar, s.Goto(t, SetMaxSaw(v, s.allocatedQubits)), Event(t, Tick(true))) ==
            s.(maxQubits := if v < Size(ar, s.allocatedQubits) then s.maxQubits else Int(ar, v))
  {
    assert s.pcs[t := SetMaxSaw(v, s.allocatedQubits)][t := Idle] == s.pcs;
  }

  // ---- which requests are granted ---------------------------------------------------------

  // Whoever else is doing what: an idle thread's request for 1 to 64 qubits enters the call
  // with the first operand of the quota test read; any other is refused at once.
  lemma {:induction false} AllocEnters(ar: Arith, s: State, t: nat, req: Req, maxFirst: bool)
    requires t < |s.pcs| && s.pcs[t].Idle?
    ensures var s' := Next(ar, s, Event(t, CallAlloc(req, maxFirst)));
            if 1 <= req.n <= 64 then
              s' == s.Goto(t, if maxFirst then SawMax(req, s.maxQubits) else SawAllocated(req, s.allocatedQubits))
            else s' == s
  {
  }

  // In every reachable state with the lock free: an allocation that runs alone hands out a
  // reference to a new block of the size and flags asked for, exactly if it is for 1 to 64
  // qubits that fit under the maximum beside the used list and both kernel allocations
  // succeed; otherwise it leaves the state as it was.
  lemma {:induction false} SoloGranted(n: nat, evs: seq<Event>, t: nat, req: Req, maxFirst: bool, ok: bool)
    requires var s := Exec(EXACT, Start(n), evs); t < |s.pcs| && s.pcs[t].Idle? && s.lock.None?
    ensures var s := Exec(EXACT, Start(n), evs);
            var s' := Exec(EXACT, s, AllocCall(t, req, maxFirst, ok));
            if 1 <= req.n <= 64 && InUse(s) + req.n <= s.maxQubits && ok then
              s' == s.(heap := s.heap[s.nextId := Block(req.n, req.flags, 1)], nextId := s.nextId + 1,
                       used := [s.nextId] + s.used, pool := s.pool + multiset{s.nextId},
                       totalQubits := InUse(s) + req.n, allocatedQubits := InUse(s) + req.n)
            else s' == s
  {
    var s := Exec(EXACT, Start(n), evs);
    Conservation(n, evs);
    AllocSteps(EXACT, s, t, req, maxFirst, ok);
    assert AllocRet(EXACT, Abs(s), req.n, ok).Got? <==> 1 <= req.n <= 64 && InUse(s) + req.n <= s.maxQubits && ok;
  }
}
