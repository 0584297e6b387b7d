// The quantum memory manager under any number of threads. Each thread has a
// program counter; each step is one access to shared memory: the two reads of
// the quota test (in either order), taking and releasing the lock, every list
// and counter update inside the critical section, and the unlocked increment
// of `ctrlxt_qmem_get`.
module QMemThreads {
  import opened CInt
  import opened Runs
  import opened Sequences
  import opened Sums
  import opened QMemSpec

  type Id = nat

  datatype Block = Block(size: nat, flags: int, refs: int)

  datatype Req = Req(n: nat, flags: int)

  // Where a thread is inside the critical section.
  datatype Sec =
    // ctrlxt_qmem_alloc: lock taken, block made, linked, counted once, counted twice
    | AllocLocked(req: Req)
    | AllocMade(req: Req, b: Id)
    | AllocLinked(req: Req, b: Id)
    | AllocTotal(req: Req, b: Id)
    | AllocCounted(req: Req, b: Id)
    // ctrlxt_qmem_free and ctrlxt_qmem_put: lock taken, last reference gone,
    // unlinked, state freed, uncounted once, uncounted twice
    | FreeLocked(b: Id)
    | FreeZero(b: Id)
    | FreeUnlinked(b: Id)
    | FreeStateless(b: Id)
    | FreeTotal(b: Id)
    | FreeCounted(b: Id)
    // about to release the lock with nothing left to do
    | Leaving

  datatype Pc =
    | Idle
    // ctrlxt_qmem_alloc: one operand of the quota test read, then past the test
    | SawAllocated(req: Req, a: int)
    | SawMax(req: Req, m: int)
    | Passed(req: Req)
    // ctrlxt_qmem_get, and a free waiting for the lock
    | Getting(b: Id)
    | FreeCalled(b: Id)
    // ctrlxt_qmem_set_max_qubits, between its read and its write
    | SetMaxSaw(v: nat, a: int)
    | In(sec: Sec)

  // `pool` holds the references that clients own outside any call. `kfreed` and
  // `statesFreed` record every deallocation; `fault` records an access to memory
  // that is not allocated or the unlinking of a block that is not linked.
  datatype State = State(
    pcs: seq<Pc>,
    lock: Option<nat>,
    heap: map<Id, Block>,
    nextId: Id,
    used: seq<Id>,
    totalQubits: int,
    allocatedQubits: int,
    maxQubits: int,
    pool: multiset<Id>,
    kfreed: multiset<Id>,
    statesFreed: multiset<Id>,
    fault: bool)
  {
    function Goto(t: nat, pc: Pc): State
      requires t < |pcs|
    {
      this.(pcs := pcs[t := pc])
    }

    function Acquire(t: nat, sec: Sec): State
      requires t < |pcs|
    {
      if lock.None? then Goto(t, In(sec)).(lock := Some(t)) else this
    }
  }

  datatype Act =
    | CallAlloc(req: Req, maxFirst: bool)
    | CallGet(b: Id)
    | CallFree(b: Id)
    | CallSetMax(v: nat)
    | Tick(ok: bool)

  datatype Event = Event(t: nat, act: Act)

  function Start(n: nat): State {
    State(seq(n, _ => Idle), None, map[], 0, [], 0, 0, QMEM_MAX_QUBITS, multiset{}, multiset{}, multiset{}, false)
  }

  function Position(s: seq<Id>, b: Id): (k: nat)
    ensures k < |s| <==> b in s
  {
    First(s, x => x == b)
  }

  function Unlink(s: seq<Id>, b: Id): seq<Id>
    requires Position(s, b) < |s|
  {
    s[..Position(s, b)] + s[Position(s, b) + 1..]
  }

  // An idle thread enters a call. A get or free takes the reference it works on
  // out of the pool; without one the call is not legal and does not happen.
  function Call(s: State, t: nat, act: Act): State
    requires t < |s.pcs|
  {
    match act
    case CallAlloc(req, maxFirst) =>
      if BadRequest(req.n) then s
      else s.Goto(t, if maxFirst then SawMax(req, s.maxQubits) else SawAllocated(req, s.allocatedQubits))
    case CallGet(b) => if b in s.pool then s.Goto(t, Getting(b)).(pool := s.pool - multiset{b}) else s
    case CallFree(b) => if b in s.pool then s.Goto(t, FreeCalled(b)).(pool := s.pool - multiset{b}) else s
    case CallSetMax(v) => s.Goto(t, SetMaxSaw(v, s.allocatedQubits))
    case Tick(_) => s
  }

  // A step outside the critical section; waiting for a held lock changes nothing.
  function OutsideStep(ar: Arith, s: State, t: nat): State
    requires t < |s.pcs|
  {
    match s.pcs[t]
    case SawAllocated(r, a) => s.Goto(t, if Exceeds(ar, a, r.n, s.maxQubits) then Idle else Passed(r))
    case SawMax(r, m) => s.Goto(t, if Exceeds(ar, s.allocatedQubits, r.n, m) then Idle else Passed(r))
    case Passed(r) => s.Acquire(t, AllocLocked(r))
    case Getting(b) =>
      if b !in s.heap then s.(fault := true)
      else s.Goto(t, Idle).(heap := s.heap[b := s.heap[b].(refs := Int(ar, s.heap[b].refs + 1))],
                            pool := s.pool + multiset{b, b})
    case FreeCalled(b) => s.Acquire(t, FreeLocked(b))
    case SetMaxSaw(v, a) =>
      if v < Size(ar, a) then s.Goto(t, Idle) else s.Goto(t, Idle).(maxQubits := Int(ar, v))
    case _ => s
  }

  // The lock holder's step, its control part: where the thread goes (Idle releases the lock) ...
  function SectionNext(ar: Arith, s: State, sec: Sec, ok: bool): Pc {
    match sec
    case AllocLocked(r) => if ok then In(AllocMade(r, s.nextId)) else In(Leaving)
    case AllocMade(r, b) => In(AllocLinked(r, b))
    case AllocLinked(r, b) => In(AllocTotal(r, b))
    case AllocTotal(r, b) => In(AllocCounted(r, b))
    case AllocCounted(_, _) => Idle
    case FreeLocked(b) =>
      if b in s.heap && Int(ar, s.heap[b].refs - 1) == 0 then In(FreeZero(b)) else In(Leaving)
    case FreeZero(b) => In(FreeUnlinked(b))
    case FreeUnlinked(b) => In(FreeStateless(b))
    case FreeStateless(b) => In(FreeTotal(b))
    case FreeTotal(b) => In(FreeCounted(b))
    case FreeCounted(_) => In(Leaving)
    case Leaving => Idle
  }

  // ... and its effect on memory, the same for every thread.
  function SectionEffect(ar: Arith, s: State, sec: Sec, ok: bool): State {
    match sec
    case AllocLocked(r) =>
      if ok then s.(heap := s.heap[s.nextId := Block(r.n, r.flags, 1)], nextId := s.nextId + 1) else s
    case AllocMade(_, b) => s.(used := [b] + s.used)
    case AllocLinked(r, _) => s.(totalQubits := Int(ar, s.totalQubits + r.n))
    case AllocTotal(r, _) => s.(allocatedQubits := Int(ar, s.allocatedQubits + r.n))
    case AllocCounted(_, b) => s.(pool := s.pool + multiset{b})
    case Leaving => s
    case _ => if sec.b in s.heap then FreeEffect(ar, s, sec) else s.(fault := true)
  }

  function FreeEffect(ar: Arith, s: State, sec: Sec): State
    requires Freeing(sec) && sec.b in s.heap
  {
    match sec
    case FreeLocked(b) => s.(heap := s.heap[b := s.heap[b].(refs := Int(ar, s.heap[b].refs - 1))])
    case FreeZero(b) =>
      if Position(s.used, b) < |s.used| then s.(used := Unlink(s.used, b)) else s.(fault := true)
    case FreeUnlinked(b) => s.(statesFreed := s.statesFreed + multiset{b})
    case FreeStateless(b) => s.(totalQubits := Int(ar, s.totalQubits - s.heap[b].size))
    case FreeTotal(b) => s.(allocatedQubits := Int(ar, s.allocatedQubits - s.heap[b].size))
    case FreeCounted(b) => s.(heap := s.heap - {b}, kfreed := s.kfreed + multiset{b})
  }

  predicate Freeing(sec: Sec) {
    sec.FreeLocked? || sec.FreeZero? || sec.FreeUnlinked? || sec.FreeStateless? || sec.FreeTotal? || sec.FreeCounted?
  }

  // A thread inside a call takes its next step.
  function Step(ar: Arith, s: State, t: nat, ok: bool): State
    requires t < |s.pcs|
  {
    if s.pcs[t].In? then
      var pc := SectionNext(ar, s, s.pcs[t].sec, ok);
      SectionEffect(ar, s, s.pcs[t].sec, ok).(pcs := s.pcs[t := pc], lock := if pc.In? then s.lock else None)
    else OutsideStep(ar, s, t)
  }

  // One event of a schedule. Every sequence of events is a run: an event of a
  // thread that does not exist or cannot act leaves the state alone.
  function Next(ar: Arith, s: State, e: Event): State {
    if e.t >= |s.pcs| then s
    else if e.act.Tick? then Step(ar, s, e.t, e.act.ok)
    else if s.pcs[e.t].Idle? then Call(s, e.t, e.act)
    else s
  }

  function NextOf(ar: Arith): (State, Event) -> State {
    (s, e) => Next(ar, s, e)
  }

  function Exec(ar: Arith, s: State, evs: seq<Event>): State {
    Fold(NextOf(ar), s, evs)
  }

  // ---- the invariant ---------------------------------------------------------

  ghost predicate LockInv(s: State) {
    && (s.lock.Some? ==> s.lock.value < |s.pcs|)
    && forall t :: 0 <= t < |s.pcs| ==> (s.pcs[t].In? <==> s.lock == Some(t))
  }

  // What the thread in the critical section has still to do; nothing if there is none.
  function Holder(s: State): Sec {
    if s.lock.Some? && s.lock.value < |s.pcs| && s.pcs[s.lock.value].In? then s.pcs[s.lock.value].sec else Leaving
  }

  predicate Making(sec: Sec) {
    sec.AllocMade? || sec.AllocLinked? || sec.AllocTotal? || sec.AllocCounted?
  }

  // The thread owns one reference on b: it made the block, or its call was given one.
  predicate Holds(pc: Pc, b: Id) {
    match pc
    case Getting(b') => b == b'
    case FreeCalled(b') => b == b'
    case In(sec) => (Making(sec) || sec.FreeLocked?) && sec.b == b
    case _ => false
  }

  ghost function HoldW(b: Id): Pc -> int {
    pc => if Holds(pc, b) then 1 else 0
  }

  // References to b that someone still owns, in the pool or inside a call.
  ghost function Outstanding(s: State, b: Id): int {
    s.pool[b] + Sum(s.pcs, HoldW(b))
  }

  function RefsOf(s: State, b: Id): int {
    if b in s.heap then s.heap[b].refs else 0
  }

  ghost predicate RefInv(s: State) {
    forall b: Id :: RefsOf(s, b) == Outstanding(s, b)
  }

  predicate StateGone(sec: Sec, b: Id) {
    (sec.FreeStateless? || sec.FreeTotal? || sec.FreeCounted?) && sec.b == b
  }

  predicate OffList(sec: Sec, b: Id) {
    ((sec.AllocMade? || sec.FreeUnlinked?) && sec.b == b) || StateGone(sec, b)
  }

  predicate Dying(sec: Sec, b: Id) {
    ((sec.FreeZero? || sec.FreeUnlinked?) && sec.b == b) || StateGone(sec, b)
  }

  // Newest first: serial numbers fall along the list.
  ghost predicate Falling(used: seq<Id>) {
    forall i, j :: 0 <= i < j < |used| ==> used[i] > used[j]
  }

  // The used list and the heap agree, up to the block the lock holder has in hand.
  ghost predicate ListInv(s: State, h: Sec) {
    && Falling(s.used)
    && (forall b: Id :: b in s.heap <==> b in s.used || OffList(h, b))
    && (forall b: Id :: OffList(h, b) ==> b !in s.used)
    && (forall b: Id :: b in s.heap ==> b < s.nextId)
    && (h.AllocMade? ==> h.b == s.nextId - 1)
  }

  ghost predicate BlockInv(s: State, h: Sec) {
    && (forall b: Id :: b in s.heap ==> !BadRequest(s.heap[b].size))
    && (Making(h) ==> h.b in s.heap && s.heap[h.b].size == h.req.n)
    && (forall b: Id :: b in s.heap ==> (s.heap[b].refs == 0 <==> Dying(h, b)))
    && (forall b: Id :: Dying(h, b) ==> b in s.heap)
    && (h.FreeLocked? ==> h.b in s.heap)
  }

  // Every allocation but the ones still in the heap was freed once, and its state with it.
  ghost predicate FreedInv(s: State, h: Sec) {
    && !s.fault
    && (forall b: Id :: s.kfreed[b] == if b < s.nextId && b !in s.heap then 1 else 0)
    && (forall b: Id :: s.statesFreed[b] == s.kfreed[b] + if StateGone(h, b) then 1 else 0)
  }

  ghost function SizeIn(heap: map<Id, Block>): Id -> int {
    b => if b in heap then heap[b].size else 0
  }

  // The qubits of the blocks in the used list.
  ghost function InUse(s: State): int {
    Sum(s.used, SizeIn(s.heap))
  }

  // What the lock holder has still to put right in each counter.
  ghost function TotalGap(s: State, h: Sec): int {
    if h.AllocLinked? then 0 - h.req.n
    else if h.FreeUnlinked? || h.FreeStateless? then SizeIn(s.heap)(h.b)
    else 0
  }

  ghost function AllocatedGap(s: State, h: Sec): int {
    if h.AllocLinked? || h.AllocTotal? then 0 - h.req.n
    else if h.FreeUnlinked? || h.FreeStateless? || h.FreeTotal? then SizeIn(s.heap)(h.b)
    else 0
  }

  ghost predicate CountInv(s: State, h: Sec) {
    && s.totalQubits == InUse(s) + TotalGap(s, h)
    && s.allocatedQubits == InUse(s) + AllocatedGap(s, h)
  }

  function ReqOf(pc: Pc): Option<Req> {
    match pc
    case SawAllocated(r, _) => Some(r)
    case SawMax(r, _) => Some(r)
    case Passed(r) => Some(r)
    case In(sec) => if sec.AllocLocked? || Making(sec) then Some(sec.req) else None
    case _ => None
  }

  ghost predicate ReqInv(s: State) {
    forall t :: 0 <= t < |s.pcs| && ReqOf(s.pcs[t]).Some? ==> !BadRequest(ReqOf(s.pcs[t]).value.n)
  }

  // The memory part does not depend on which thread holds the lock.
  ghost predicate MemInv(s: State, h: Sec) {
    ListInv(s, h) && BlockInv(s, h) && FreedInv(s, h) && CountInv(s, h)
  }

  ghost predicate Inv(s: State) {
    LockInv(s) && ReqInv(s) && RefInv(s) && MemInv(s, Holder(s))
  }

  lemma {:induction false} StartInv(n: nat)
    ensures Inv(Start(n))
  {
    var s := Start(n);
    forall b: Id ensures Sum(s.pcs, HoldW(b)) == 0 {
      SumBounds(s.pcs, HoldW(b), 0, 0);
    }
  }

  // A thread that owns a reference on b keeps the count positive, so b is allocated
  // and no other thread is taking it apart.
  lemma {:induction false} HeldIsAlive(s: State, t: nat, b: Id)
    requires RefInv(s) && BlockInv(s, Holder(s)) && t < |s.pcs| && Holds(s.pcs[t], b)
    ensures b in s.heap && s.heap[b].refs >= 1 + s.pool[b] && !Dying(Holder(s), b)
  {
    SumNonNegative(s.pcs, HoldW(b));
    assert HoldW(b)(s.pcs[t]) == 1;
    assert RefsOf(s, b) == Outstanding(s, b);
  }

  lemma {:induction false} CallInv(s: State, t: nat, act: Act)
    requires Inv(s) && t < |s.pcs| && s.pcs[t].Idle?
    ensures Inv(Call(s, t, act))
  {
    CallControl(s, t, act);
    SameMemory(s, Call(s, t, act), Holder(s));
    forall b: Id ensures RefsOf(Call(s, t, act), b) == Outstanding(Call(s, t, act), b) {
      assert RefsOf(s, b) == Outstanding(s, b);
      CallRefs(s, t, act, b);
    }
  }

  lemma {:induction false} CallRefs(s: State, t: nat, act: Act, b: Id)
    requires t < |s.pcs| && s.pcs[t].Idle?
    requires RefsOf(s, b) == Outstanding(s, b)
    ensures RefsOf(Call(s, t, act), b) == Outstanding(Call(s, t, act), b)
  {
    var s' := Call(s, t, act);
    CallThread(s, t, act);
    CallDelta(s, t, act, b);
    SumUpdate(s.pcs, t, s'.pcs[t], HoldW(b));
  }

  // A call, and a step, change their own thread's program counter only.
  lemma {:induction false} CallThread(s: State, t: nat, act: Act)
    requires t < |s.pcs| && s.pcs[t].Idle?
    ensures var s' := Call(s, t, act);
            && |s'.pcs| == |s.pcs| && s'.pcs == s.pcs[t := s'.pcs[t]] && !s'.pcs[t].In?
            && s' == s.(pcs := s'.pcs, pool := s'.pool)
            && (ReqOf(s'.pcs[t]).Some? ==> !BadRequest(ReqOf(s'.pcs[t]).value.n))
  {
    if !act.CallAlloc? || BadRequest(act.req.n) { assert s.pcs[t := Idle] == s.pcs; }
  }

  lemma {:induction false} CallDelta(s: State, t: nat, act: Act, b: Id)
    requires t < |s.pcs| && s.pcs[t].Idle?
    ensures Call(s, t, act).pool[b] + HoldW(b)(Call(s, t, act).pcs[t]) == s.pool[b]
  {
  }

  lemma {:induction false} CallControl(s: State, t: nat, act: Act)
    requires LockInv(s) && ReqInv(s) && t < |s.pcs| && s.pcs[t].Idle?
    ensures var s' := Call(s, t, act);
            && LockInv(s') && ReqInv(s') && Holder(s') == Holder(s)
            && s' == s.(pcs := s'.pcs, pool := s'.pool)
  {
    CallThread(s, t, act);
  }

  lemma {:induction false} OutsideThread(ar: Arith, s: State, t: nat)
    requires t < |s.pcs| && !s.pcs[t].In?
    ensures var s' := OutsideStep(ar, s, t);
            && |s'.pcs| == |s.pcs| && s'.pcs == s.pcs[t := s'.pcs[t]]
            && (ReqOf(s'.pcs[t]).Some? ==> ReqOf(s'.pcs[t]) == ReqOf(s.pcs[t]))
            && (if s'.pcs[t].In? then s.lock.None? && s'.lock == Some(t) else s'.lock == s.lock)
  {
    assert s.pcs[t := s.pcs[t]] == s.pcs;
  }

  lemma {:induction false} SectionReq(ar: Arith, s: State, sec: Sec, ok: bool)
    ensures var pc := SectionNext(ar, s, sec, ok);
            && (pc.Idle? || pc.In?)
            && (ReqOf(pc).Some? ==> ReqOf(pc) == ReqOf(In(sec)))
  {
  }

  // The lock moves with the program counter, and a thread keeps its request.
  lemma {:induction false} StepThread(ar: Arith, s: State, t: nat, ok: bool)
    requires t < |s.pcs|
    ensures var s' := Step(ar, s, t, ok);
            && |s'.pcs| == |s.pcs| && s'.pcs == s.pcs[t := s'.pcs[t]]
            && (ReqOf(s'.pcs[t]).Some? ==> ReqOf(s'.pcs[t]) == ReqOf(s.pcs[t]))
            && (if s'.pcs[t].In? == s.pcs[t].In? then s'.lock == s.lock
                else if s'.pcs[t].In? then s.lock.None? && s'.lock == Some(t) else s'.lock.None?)
  {
    if s.pcs[t].In? { SectionReq(ar, s, s.pcs[t].sec, ok); } else { OutsideThread(ar, s, t); }
  }

  lemma {:induction false} StepLock(s: State, t: nat, ok: bool)
    requires LockInv(s) && t < |s.pcs|
    ensures LockInv(Step(EXACT, s, t, ok))
  {
    StepThread(EXACT, s, t, ok);
  }

  lemma {:induction false} StepReq(s: State, t: nat, ok: bool)
    requires ReqInv(s) && t < |s.pcs|
    ensures ReqInv(Step(EXACT, s, t, ok))
  {
    StepThread(EXACT, s, t, ok);
  }

  lemma {:induction false} OutsideRefs(s: State, t: nat, b: Id)
    requires t < |s.pcs| && !s.pcs[t].In?
    requires RefsOf(s, b) == Outstanding(s, b)
    ensures RefsOf(OutsideStep(EXACT, s, t), b) == Outstanding(OutsideStep(EXACT, s, t), b)
  {
    var s' := OutsideStep(EXACT, s, t);
    OutsideThread(EXACT, s, t);
    if s.pcs[t].Getting? { GetDelta(s, t, b); } else { OutsideDelta(s, t, b); }
    SumUpdate(s.pcs, t, s'.pcs[t], HoldW(b));
  }

  lemma {:induction false} GetDelta(s: State, t: nat, b: Id)
    requires t < |s.pcs| && s.pcs[t].Getting?
    ensures var s' := OutsideStep(EXACT, s, t);
            RefsOf(s', b) - RefsOf(s, b) == s'.pool[b] - s.pool[b] + HoldW(b)(s'.pcs[t]) - HoldW(b)(s.pcs[t])
  {
  }

  lemma {:induction false} OutsideDelta(s: State, t: nat, b: Id)
    requires t < |s.pcs| && !s.pcs[t].In? && !s.pcs[t].Getting?
    ensures var s' := OutsideStep(EXACT, s, t);
            s'.heap == s.heap && s'.pool == s.pool && HoldW(b)(s'.pcs[t]) == HoldW(b)(s.pcs[t])
  {
  }

  lemma {:induction false} SectionRefs(s: State, t: nat, ok: bool, b: Id)
    requires t < |s.pcs| && s.pcs[t].In? && s.nextId !in s.heap
    requires RefsOf(s, b) == Outstanding(s, b)
    requires BlockInv(s, s.pcs[t].sec)
    ensures RefsOf(Step(EXACT, s, t, ok), b) == Outstanding(Step(EXACT, s, t, ok), b)
  {
    var sec := s.pcs[t].sec;
    var pc := SectionNext(EXACT, s, sec, ok);
    assert Freeing(sec) ==> (sec.FreeLocked? || Dying(sec, sec.b)) && sec.b in s.heap;
    SectionDelta(s, sec, ok, b);
    SumUpdate(s.pcs, t, pc, HoldW(b));
  }

  // A critical-section step moves the count and the owned references of b together.
  ghost predicate Together(s: State, s': State, sec: Sec, pc: Pc, b: Id) {
    RefsOf(s', b) - RefsOf(s, b) == s'.pool[b] - s.pool[b] + HoldW(b)(pc) - HoldW(b)(In(sec))
  }

  lemma {:induction false} SectionDelta(s: State, sec: Sec, ok: bool, b: Id)
    requires s.nextId !in s.heap && BlockInv(s, sec) && (Freeing(sec) ==> sec.b in s.heap)
    ensures Together(s, SectionEffect(EXACT, s, sec, ok), sec, SectionNext(EXACT, s, sec, ok), b)
  {
    if Freeing(sec) {
      assert sec.FreeCounted? ==> Dying(sec, sec.b);
      FreeDelta(s, sec, b);
    } else {
      AllocDelta(s, sec, ok, b);
    }
  }

  lemma {:induction false} AllocDelta(s: State, sec: Sec, ok: bool, b: Id)
    requires s.nextId !in s.heap && !Freeing(sec)
    ensures Together(s, SectionEffect(EXACT, s, sec, ok), sec, SectionNext(EXACT, s, sec, ok), b)
  {
  }

  lemma {:induction false} FreeDelta(s: State, sec: Sec, b: Id)
    requires Freeing(sec) && sec.b in s.heap && (sec.FreeCounted? ==> s.heap[sec.b].refs == 0)
    ensures Together(s, FreeEffect(EXACT, s, sec), sec, SectionNext(EXACT, s, sec, true), b)
  {
    match sec
    case FreeLocked(_) => DropDelta(s, sec, b);
    case FreeCounted(_) =>
    case _ => KeepDelta(s, sec, b);
  }

  lemma {:induction false} DropDelta(s: State, sec: Sec, b: Id)
    requires sec.FreeLocked? && sec.b in s.heap
    ensures Together(s, FreeEffect(EXACT, s, sec), sec, SectionNext(EXACT, s, sec, true), b)
  {
    var s', pc := FreeEffect(EXACT, s, sec), SectionNext(EXACT, s, sec, true);
    assert s'.pool == s.pool && HoldW(b)(pc) == 0;
  }

  lemma {:induction false} KeepDelta(s: State, sec: Sec, b: Id)
    requires Freeing(sec) && !sec.FreeLocked? && !sec.FreeCounted? && sec.b in s.heap
    ensures Together(s, FreeEffect(EXACT, s, sec), sec, SectionNext(EXACT, s, sec, true), b)
  {
    var s', pc := FreeEffect(EXACT, s, sec), SectionNext(EXACT, s, sec, true);
    assert s'.pool == s.pool && s'.heap == s.heap && HoldW(b)(pc) == HoldW(b)(In(sec)) == 0;
  }

  function After(pc: Pc): Sec {
    if pc.In? then pc.sec else Leaving
  }

  lemma {:induction false} UnlinkMembers(used: seq<Id>, b: Id, x: Id)
    requires Falling(used) && b in used
    ensures x in Unlink(used, b) <==> x in used && x != b
  {
    var k := Position(used, b);
    if x in used && x != b {
      var i := Position(used, x);
      if i < k { assert Unlink(used, b)[i] == x; } else { assert Unlink(used, b)[i - 1] == x; }
    }
  }

  lemma {:induction false} UnlinkFalling(used: seq<Id>, b: Id)
    requires Falling(used) && b in used
    ensures Falling(Unlink(used, b))
  {
    var k := Position(used, b);
    assert forall i :: 0 <= i < |used| - 1 ==> Unlink(used, b)[i] == used[if i < k then i else i + 1];
  }

  lemma {:induction false} SectionList(s: State, sec: Sec, ok: bool)
    requires ListInv(s, sec) && BlockInv(s, sec)
    ensures ListInv(SectionEffect(EXACT, s, sec, ok), After(SectionNext(EXACT, s, sec, ok)))
  {
    if sec.AllocMade? {
      LinkList(s, sec);
    } else if sec.FreeZero? {
      assert Dying(sec, sec.b);
      UnlinkList(s, sec);
    } else if Freeing(sec) {
      FreeList(s, sec);
    } else {
      AllocList(s, sec, ok);
    }
  }

  lemma {:induction false} LinkList(s: State, sec: Sec)
    requires ListInv(s, sec) && sec.AllocMade?
    ensures ListInv(s.(used := [sec.b] + s.used), AllocLinked(sec.req, sec.b))
  {
    assert OffList(sec, sec.b);
    var used := [sec.b] + s.used;
    assert forall b: Id :: b in used <==> b == sec.b || b in s.used;
    forall i | 0 <= i < |s.used| ensures s.used[i] < sec.b {
      assert s.used[i] in s.heap;
    }
  }

  lemma {:induction false} UnlinkList(s: State, sec: Sec)
    requires ListInv(s, sec) && sec.FreeZero? && sec.b in s.heap
    ensures sec.b in s.used && ListInv(s.(used := Unlink(s.used, sec.b)), FreeUnlinked(sec.b))
  {
    assert !OffList(sec, sec.b);
    UnlinkFalling(s.used, sec.b);
    AllMembers(s.used, sec.b);
    UnlinkedList(s, sec.b, Unlink(s.used, sec.b));
  }

  lemma {:induction false} UnlinkedList(s: State, b: Id, rest: seq<Id>)
    requires ListInv(s, FreeZero(b)) && Falling(rest) && b in s.used
    requires forall x: Id :: x in rest <==> x in s.used && x != b
    ensures ListInv(s.(used := rest), FreeUnlinked(b))
  {
  }

  lemma {:induction false} AllMembers(used: seq<Id>, b: Id)
    requires Falling(used) && b in used
    ensures forall x: Id :: x in Unlink(used, b) <==> x in used && x != b
  {
    forall x: Id ensures x in Unlink(used, b) <==> x in used && x != b {
      UnlinkMembers(used, b, x);
    }
  }

  lemma {:induction false} FreeList(s: State, sec: Sec)
    requires ListInv(s, sec) && Freeing(sec) && !sec.FreeZero? && sec.b in s.heap
    ensures ListInv(FreeEffect(EXACT, s, sec), After(SectionNext(EXACT, s, sec, true)))
  {
  }

  lemma {:induction false} AllocList(s: State, sec: Sec, ok: bool)
    requires ListInv(s, sec) && !Freeing(sec) && !sec.AllocMade?
    ensures ListInv(SectionEffect(EXACT, s, sec, ok), After(SectionNext(EXACT, s, sec, ok)))
  {
    assert s.nextId !in s.used;
  }

  lemma {:induction false} AllocBlocks(s: State, sec: Sec, ok: bool)
    requires BlockInv(s, sec) && !Freeing(sec)
    requires sec.AllocLocked? ==> !BadRequest(sec.req.n)
    requires s.nextId !in s.heap
    ensures BlockInv(SectionEffect(EXACT, s, sec, ok), After(SectionNext(EXACT, s, sec, ok)))
  {
  }

  lemma {:induction false} FreeBlocks(s: State, sec: Sec)
    requires BlockInv(s, sec) && Freeing(sec) && sec.b in s.heap
    ensures BlockInv(FreeEffect(EXACT, s, sec), After(SectionNext(EXACT, s, sec, true)))
  {
  }

  lemma {:induction false} AllocFreed(s: State, sec: Sec, ok: bool)
    requires FreedInv(s, sec) && !Freeing(sec) && s.nextId !in s.heap
    ensures FreedInv(SectionEffect(EXACT, s, sec, ok), After(SectionNext(EXACT, s, sec, ok)))
  {
  }

  lemma {:induction false} FreeFreed(s: State, sec: Sec)
    requires ListInv(s, sec) && FreedInv(s, sec) && Freeing(sec) && sec.b in s.heap
    ensures FreedInv(FreeEffect(EXACT, s, sec), After(SectionNext(EXACT, s, sec, true)))
  {
    assert sec.FreeZero? ==> !OffList(sec, sec.b);
    if sec.FreeCounted? {
      LastFreed(s, sec.b);
    } else if sec.FreeUnlinked? {
      StateFreed(s, sec.b);
    } else {
      OtherFreed(s, sec);
    }
  }

  lemma {:induction false} OtherFreed(s: State, sec: Sec)
    requires FreedInv(s, sec) && Freeing(sec) && !sec.FreeCounted? && !sec.FreeUnlinked? && sec.b in s.heap
    requires sec.FreeZero? ==> sec.b in s.used
    ensures FreedInv(FreeEffect(EXACT, s, sec), After(SectionNext(EXACT, s, sec, true)))
  {
    var s' := FreeEffect(EXACT, s, sec);
    assert s'.kfreed == s.kfreed && s'.statesFreed == s.statesFreed && s'.heap.Keys == s.heap.Keys;
  }

  lemma {:induction false} StateFreed(s: State, b: Id)
    requires FreedInv(s, FreeUnlinked(b))
    ensures FreedInv(s.(statesFreed := s.statesFreed + multiset{b}), FreeStateless(b))
  {
  }

  lemma {:induction false} LastFreed(s: State, b: Id)
    requires ListInv(s, FreeCounted(b)) && FreedInv(s, FreeCounted(b)) && b in s.heap
    ensures FreedInv(s.(heap := s.heap - {b}, kfreed := s.kfreed + multiset{b}), Leaving)
  {
  }

  lemma {:induction false} SectionCounts(s: State, sec: Sec, ok: bool)
    requires ListInv(s, sec) && BlockInv(s, sec) && CountInv(s, sec)
    ensures CountInv(SectionEffect(EXACT, s, sec, ok), After(SectionNext(EXACT, s, sec, ok)))
  {
    if sec.AllocMade? {
      assert ([sec.b] + s.used)[1..] == s.used;
    } else if sec.FreeZero? {
      assert Dying(sec, sec.b);
      UnlinkCounts(s, sec);
    } else {
      OtherCounts(s, sec, ok);
    }
  }

  lemma {:induction false} UnlinkCounts(s: State, sec: Sec)
    requires ListInv(s, sec) && CountInv(s, sec) && sec.FreeZero? && sec.b in s.heap
    ensures sec.b in s.used && CountInv(s.(used := Unlink(s.used, sec.b)), FreeUnlinked(sec.b))
  {
    assert !OffList(sec, sec.b);
    var k := Position(s.used, sec.b);
    SumRemove(s.used, k, SizeIn(s.heap));
    assert InUse(s.(used := Unlink(s.used, sec.b))) == InUse(s) - SizeIn(s.heap)(sec.b);
  }

  lemma {:induction false} OtherCounts(s: State, sec: Sec, ok: bool)
    requires ListInv(s, sec) && BlockInv(s, sec) && CountInv(s, sec) && !sec.AllocMade? && !sec.FreeZero?
    ensures CountInv(SectionEffect(EXACT, s, sec, ok), After(SectionNext(EXACT, s, sec, ok)))
  {
    SizesStay(s, sec, ok);
    SumSame(s.used, SizeIn(s.heap), SizeIn(SectionEffect(EXACT, s, sec, ok).heap));
    if Freeing(sec) {
      assert sec.FreeUnlinked? || StateGone(sec, sec.b) ==> Dying(sec, sec.b);
      FreeCounts(s, sec);
    } else {
      AllocCounts(s, sec, ok);
    }
  }

  lemma {:induction false} FreeCounts(s: State, sec: Sec)
    requires CountInv(s, sec) && Freeing(sec) && !sec.FreeZero? && sec.b in s.heap
    requires InUse(FreeEffect(EXACT, s, sec)) == InUse(s)
    ensures CountInv(FreeEffect(EXACT, s, sec), After(SectionNext(EXACT, s, sec, true)))
  {
  }

  lemma {:induction false} AllocCounts(s: State, sec: Sec, ok: bool)
    requires CountInv(s, sec) && !Freeing(sec) && !sec.AllocMade?
    requires InUse(SectionEffect(EXACT, s, sec, ok)) == InUse(s)
    ensures CountInv(SectionEffect(EXACT, s, sec, ok), After(SectionNext(EXACT, s, sec, ok)))
  {
  }

  // No step changes the size of a linked block.
  lemma {:induction false} SizesStay(s: State, sec: Sec, ok: bool)
    requires ListInv(s, sec) && !sec.AllocMade? && !sec.FreeZero?
    ensures var s' := SectionEffect(EXACT, s, sec, ok);
            s'.used == s.used &&
            forall i :: 0 <= i < |s.used| ==> SizeIn(s.heap)(s.used[i]) == SizeIn(s'.heap)(s.used[i])
  {
    forall i | 0 <= i < |s.used| ensures s.used[i] in s.heap && s.used[i] != s.nextId && !OffList(sec, s.used[i]) {
      assert s.used[i] in s.used;
    }
  }

  // What the critical section does to memory, whoever is in it.
  lemma {:induction false} SectionMem(s: State, sec: Sec, ok: bool)
    requires MemInv(s, sec)
    requires sec.AllocLocked? ==> !BadRequest(sec.req.n)
    ensures MemInv(SectionEffect(EXACT, s, sec, ok), After(SectionNext(EXACT, s, sec, ok)))
  {
    SectionList(s, sec, ok);
    SectionCounts(s, sec, ok);
    if Freeing(sec) { FreeMem(s, sec, ok); } else { AllocMem(s, sec, ok); }
  }

  lemma {:induction false} FreeMem(s: State, sec: Sec, ok: bool)
    requires ListInv(s, sec) && BlockInv(s, sec) && FreedInv(s, sec) && Freeing(sec)
    ensures var s', h := SectionEffect(EXACT, s, sec, ok), After(SectionNext(EXACT, s, sec, ok));
            BlockInv(s', h) && FreedInv(s', h)
  {
    assert !sec.FreeLocked? ==> Dying(sec, sec.b);
    FreeBlocks(s, sec);
    FreeFreed(s, sec);
  }

  lemma {:induction false} AllocMem(s: State, sec: Sec, ok: bool)
    requires ListInv(s, sec) && BlockInv(s, sec) && FreedInv(s, sec) && !Freeing(sec)
    requires sec.AllocLocked? ==> !BadRequest(sec.req.n)
    ensures var s', h := SectionEffect(EXACT, s, sec, ok), After(SectionNext(EXACT, s, sec, ok));
            BlockInv(s', h) && FreedInv(s', h)
  {
    AllocBlocks(s, sec, ok);
    AllocFreed(s, sec, ok);
  }

  // A reference taken while another thread is in the critical section changes
  // one count there, and that of a block the other thread is not taking apart.
  lemma {:induction false} GetMem(s: State, b: Id)
    requires MemInv(s, Holder(s)) && b in s.heap && s.heap[b].refs > 0
    ensures var heap := s.heap[b := s.heap[b].(refs := s.heap[b].refs + 1)];
            MemInv(s.(heap := heap), Holder(s))
  {
    var heap := s.heap[b := s.heap[b].(refs := s.heap[b].refs + 1)];
    SumSame(s.used, SizeIn(s.heap), SizeIn(heap));
    GetLists(s, b, Holder(s));
    GetCounts(s, b, Holder(s));
  }

  lemma {:induction false} GetLists(s: State, b: Id, h: Sec)
    requires ListInv(s, h) && BlockInv(s, h) && b in s.heap && s.heap[b].refs > 0
    ensures var heap := s.heap[b := s.heap[b].(refs := s.heap[b].refs + 1)];
            ListInv(s.(heap := heap), h) && BlockInv(s.(heap := heap), h)
  {
  }

  lemma {:induction false} GetCounts(s: State, b: Id, h: Sec)
    requires FreedInv(s, h) && CountInv(s, h) && b in s.heap
    requires InUse(s.(heap := s.heap[b := s.heap[b].(refs := s.heap[b].refs + 1)])) == InUse(s)
    ensures var heap := s.heap[b := s.heap[b].(refs := s.heap[b].refs + 1)];
            FreedInv(s.(heap := heap), h) && CountInv(s.(heap := heap), h)
  {
  }

  // The memory invariant reads neither the program counters nor the pool.
  lemma {:induction false} SameMemory(s: State, s': State, h: Sec)
    requires MemInv(s, h)
    requires s' == s.(pcs := s'.pcs, lock := s'.lock, pool := s'.pool, maxQubits := s'.maxQubits)
    ensures MemInv(s', h)
  {
    SameLists(s, s', h);
    SameCounts(s, s', h);
  }

  lemma {:induction false} SameLists(s: State, s': State, h: Sec)
    requires ListInv(s, h) && BlockInv(s, h)
    requires s'.heap == s.heap && s'.used == s.used && s'.nextId == s.nextId
    ensures ListInv(s', h) && BlockInv(s', h)
  {
  }

  lemma {:induction false} SameCounts(s: State, s': State, h: Sec)
    requires FreedInv(s, h) && CountInv(s, h)
    requires s'.heap == s.heap && s'.used == s.used && s'.nextId == s.nextId && s'.fault == s.fault
    requires s'.kfreed == s.kfreed && s'.statesFreed == s.statesFreed
    requires s'.totalQubits == s.totalQubits && s'.allocatedQubits == s.allocatedQubits
    ensures FreedInv(s', h) && CountInv(s', h)
  {
  }

  lemma {:induction false} GetStep(s: State, t: nat)
    requires Inv(s) && t < |s.pcs| && s.pcs[t].Getting?
    ensures MemInv(OutsideStep(EXACT, s, t), Holder(OutsideStep(EXACT, s, t)))
  {
    var s' := OutsideStep(EXACT, s, t);
    var b := s.pcs[t].b;
    HeldIsAlive(s, t, b);
    HolderStays(s, t);
    GetResult(s, t, b);
    GetMem(s, b);
    SameMemory(s.(heap := s'.heap), s', Holder(s));
  }

  lemma {:induction false} GetResult(s: State, t: nat, b: Id)
    requires t < |s.pcs| && s.pcs[t] == Getting(b) && b in s.heap
    ensures OutsideStep(EXACT, s, t) ==
            s.(pcs := s.pcs[t := Idle], heap := s.heap[b := s.heap[b].(refs := s.heap[b].refs + 1)],
               pool := s.pool + multiset{b, b})
  {
  }

  lemma {:induction false} HolderStays(s: State, t: nat)
    requires t < |s.pcs| && LockInv(s)
    requires !(s.pcs[t].In? || s.pcs[t].FreeCalled? || s.pcs[t].Passed?)
    ensures Holder(OutsideStep(EXACT, s, t)) == Holder(s)
  {
  }

  lemma {:induction false} EnterMem(s: State, h: Sec)
    requires MemInv(s, Leaving)
    requires h.AllocLocked? || (h.FreeLocked? && h.b in s.heap)
    ensures MemInv(s, h)
  {
    EnterBlocks(s, h);
    EnterCounts(s, h);
  }

  lemma {:induction false} EnterBlocks(s: State, h: Sec)
    requires ListInv(s, Leaving) && BlockInv(s, Leaving)
    requires h.AllocLocked? || (h.FreeLocked? && h.b in s.heap)
    ensures ListInv(s, h) && BlockInv(s, h)
  {
  }

  lemma {:induction false} EnterCounts(s: State, h: Sec)
    requires FreedInv(s, Leaving) && CountInv(s, Leaving) && (h.AllocLocked? || h.FreeLocked?)
    ensures FreedInv(s, h) && CountInv(s, h)
  {
  }

  lemma {:induction false} AcquireStep(s: State, t: nat)
    requires Inv(s) && t < |s.pcs| && (s.pcs[t].FreeCalled? || s.pcs[t].Passed?)
    ensures MemInv(OutsideStep(EXACT, s, t), Holder(OutsideStep(EXACT, s, t)))
  {
    if s.lock.None? {
      var h := if s.pcs[t].FreeCalled? then FreeLocked(s.pcs[t].b) else AllocLocked(s.pcs[t].req);
      if s.pcs[t].FreeCalled? { HeldIsAlive(s, t, s.pcs[t].b); }
      EnterMem(s, h);
      SameMemory(s, s.Acquire(t, h), h);
    }
  }

  lemma {:induction false} OutsideMem(s: State, t: nat)
    requires Inv(s) && t < |s.pcs| && !s.pcs[t].In?
    ensures MemInv(OutsideStep(EXACT, s, t), Holder(OutsideStep(EXACT, s, t)))
  {
    if s.pcs[t].Getting? {
      GetStep(s, t);
    } else if s.pcs[t].FreeCalled? || s.pcs[t].Passed? {
      AcquireStep(s, t);
    } else {
      LocalStep(s, t);
      SameMemory(s, OutsideStep(EXACT, s, t), Holder(s));
    }
  }

  lemma {:induction false} LocalStep(s: State, t: nat)
    requires t < |s.pcs| && LockInv(s)
    requires !(s.pcs[t].In? || s.pcs[t].Getting? || s.pcs[t].FreeCalled? || s.pcs[t].Passed?)
    ensures var s' := OutsideStep(EXACT, s, t);
            s' == s.(pcs := s'.pcs, maxQubits := s'.maxQubits) && Holder(s') == Holder(s)
  {
  }

  lemma {:induction false} InsideMem(s: State, t: nat, ok: bool)
    requires Inv(s) && t < |s.pcs| && s.pcs[t].In?
    ensures MemInv(Step(EXACT, s, t, ok), Holder(Step(EXACT, s, t, ok)))
  {
    var s' := Step(EXACT, s, t, ok);
    assert ReqOf(s.pcs[t]).Some? ==> !BadRequest(ReqOf(s.pcs[t]).value.n);
    SectionMem(s, s.pcs[t].sec, ok);
    assert Holder(s') == After(s'.pcs[t]);
    SameMemory(SectionEffect(EXACT, s, s.pcs[t].sec, ok), s', Holder(s'));
  }

  lemma {:induction false} StepRefs(s: State, t: nat, ok: bool)
    requires LockInv(s) && RefInv(s) && ListInv(s, Holder(s)) && BlockInv(s, Holder(s)) && t < |s.pcs|
    ensures RefInv(Step(EXACT, s, t, ok))
  {
    var s' := Step(EXACT, s, t, ok);
    forall b: Id ensures RefsOf(s', b) == Outstanding(s', b) {
      assert RefsOf(s, b) == Outstanding(s, b);
      if s.pcs[t].In? { SectionRefs(s, t, ok, b); } else { OutsideRefs(s, t, b); }
    }
  }

  lemma {:induction false} StepInv(s: State, t: nat, ok: bool)
    requires Inv(s) && t < |s.pcs|
    ensures Inv(Step(EXACT, s, t, ok))
  {
    StepLock(s, t, ok);
    StepReq(s, t, ok);
    StepRefs(s, t, ok);
    StepMem(s, t, ok);
  }

  lemma {:induction false} StepMem(s: State, t: nat, ok: bool)
    requires Inv(s) && t < |s.pcs|
    ensures MemInv(Step(EXACT, s, t, ok), Holder(Step(EXACT, s, t, ok)))
  {
    if s.pcs[t].In? { InsideMem(s, t, ok); } else { OutsideMem(s, t); }
  }

  lemma {:induction false} NextInv(s: State, e: Event)
    requires Inv(s)
    ensures Inv(Next(EXACT, s, e))
  {
    if e.t < |s.pcs| && e.act.Tick? {
      StepInv(s, e.t, e.act.ok);
    } else if e.t < |s.pcs| && s.pcs[e.t].Idle? {
      CallInv(s, e.t, e.act);
    }
  }

  lemma {:induction false} NextThreads(ar: Arith, s: State, e: Event)
    ensures |Next(ar, s, e).pcs| == |s.pcs|
  {
  }

  lemma {:induction false} ExecThreads(ar: Arith, s: State, evs: seq<Event>)
    ensures |Exec(ar, s, evs).pcs| == |s.pcs|
  {
    if evs != [] {
      ExecThreads(ar, s, evs[..|evs| - 1]);
      NextThreads(ar, Exec(ar, s, evs[..|evs| - 1]), evs[|evs| - 1]);
    }
  }

  lemma {:induction false} ExecInv(n: nat, evs: seq<Event>)
    ensures Inv(Exec(EXACT, Start(n), evs))
  {
    if evs == [] {
      StartInv(n);
    } else {
      ExecInv(n, evs[..|evs| - 1]);
      NextInv(Exec(EXACT, Start(n), evs[..|evs| - 1]), evs[|evs| - 1]);
    }
  }

  // ---- what every reachable state satisfies ----------------------------------

  // Reference counts over all interleavings: the count of an allocated block is the
  // number of references someone owns, no step touches freed memory, and every block
  // is freed, with its state, exactly once: when the last reference goes.
  lemma {:induction false} RefcountSafety(n: nat, evs: seq<Event>)
    ensures var s := Exec(EXACT, Start(n), evs);
            && !s.fault
            && (forall b: Id :: b in s.heap ==> s.heap[b].refs == Outstanding(s, b))
            && (forall t, b: Id :: 0 <= t < |s.pcs| && Holds(s.pcs[t], b) ==> b in s.heap)
            && (forall b: Id :: s.kfreed[b] == if b < s.nextId && b !in s.heap then 1 else 0)
            && (forall b: Id :: s.kfreed[b] <= s.statesFreed[b] <= 1)
            && (forall b: Id :: s.kfreed[b] == 1 ==> Outstanding(s, b) == 0)
            && (forall b: Id :: b < s.nextId && Outstanding(s, b) == 0 ==> s.kfreed[b] == 1 || Dying(Holder(s), b))
  {
    var s := Exec(EXACT, Start(n), evs);
    ExecInv(n, evs);
    forall b: Id ensures RefsOf(s, b) == Outstanding(s, b) {}
    forall t, b: Id | 0 <= t < |s.pcs| && Holds(s.pcs[t], b) ensures b in s.heap {
      HeldIsAlive(s, t, b);
    }
  }

  // Conservation, with the terms the lock holder still owes: -n for an allocation
  // that is linked and not yet counted, +size for a free that is unlinked and not
  // yet uncounted.
  lemma {:induction false} Conservation(n: nat, evs: seq<Event>)
    ensures var s := Exec(EXACT, Start(n), evs);
            && s.totalQubits == InUse(s) + TotalGap(s, Holder(s))
            && s.allocatedQubits == InUse(s) + AllocatedGap(s, Holder(s))
            && (s.lock.None? ==> s.totalQubits == s.allocatedQubits == InUse(s))
  {
    ExecInv(n, evs);
  }

  // The allocations below k that somebody still refers to, newest first.
  ghost function Alive(s: State, k: nat): seq<Id> {
    if k == 0 then [] else (if Outstanding(s, k - 1) > 0 then [k - 1] else []) + Alive(s, k - 1)
  }

  // Whenever the lock is free the used list is exactly the referenced allocations, newest first.
  lemma {:induction false} ListIsAlive(n: nat, evs: seq<Event>)
    ensures var s := Exec(EXACT, Start(n), evs);
            s.lock.None? ==> s.used == Alive(s, s.nextId)
  {
    var s := Exec(EXACT, Start(n), evs);
    ExecInv(n, evs);
    if s.lock.None? {
      forall b: Id ensures b in s.used <==> b < s.nextId && Outstanding(s, b) > 0 {
        assert RefsOf(s, b) == Outstanding(s, b);
        SumNonNegative(s.pcs, HoldW(b));
      }
      AliveMembers(s, s.nextId);
      FallingUnique(s.used, Alive(s, s.nextId));
    }
  }

  lemma {:induction false} AliveMembers(s: State, k: nat)
    ensures Falling(Alive(s, k))
    ensures forall b: Id :: b in Alive(s, k) <==> b < k && Outstanding(s, b) > 0
  {
    if k > 0 {
      AliveMembers(s, k - 1);
      var rest := Alive(s, k - 1);
      assert forall i :: 0 <= i < |rest| ==> rest[i] in rest;
    }
  }

  // A falling list is determined by its members.
  lemma {:induction false} FallingUnique(a: seq<Id>, b: seq<Id>)
    requires Falling(a) && Falling(b)
    requires forall x: Id :: x in a <==> x in b
    ensures a == b
  {
    if a != [] { assert a[0] in a; }
    if b != [] { assert b[0] in b; }
    if a != [] && b != [] {
      assert a[0] in b && b[0] in a;
      assert a[0] == b[0];
      forall x: Id ensures x in a[1..] <==> x in b[1..] {
        assert x in a[1..] <==> x in a && x != a[0];
        assert x in b[1..] <==> x in b && x != b[0];
      }
      FallingUnique(a[1..], b[1..]);
    }
  }
}
