// The 32-bit counters and the mixed int/size_t comparisons of the quantum memory
// manager do what unbounded integers would, for every run that keeps the maximum and
// the number of threads within range and no block at more than 2^32 references; the
// reference counts may wrap meanwhile.
module QMemMachine {
  import opened CInt
  import opened Runs
  import opened Sequences
  import opened Sums
  import opened QMemSpec
  import opened QMemThreads
  import opened QMemSolo
  import opened QMemQuota

  // Every value a thread carries from an earlier read is in range.
  predicate PcInRange(pc: Pc, m: int) {
    match pc
    case SawAllocated(_, a) => 0 <= a <= INT_MAX
    case SawMax(_, max) => 0 <= max
    case SetMaxSaw(v, a) => v <= m && 0 <= a <= INT_MAX
    case _ => true
  }

  ghost predicate RangeInv(s: State, m: int) {
    && 0 <= s.maxQubits
    && forall t :: 0 <= t < |s.pcs| ==> PcInRange(s.pcs[t], m)
  }

  // The most references to one block that 32 bits can tell from none.
  const MAX_REFS: int := 0x1_0000_0000

  ghost predicate RefsAtMost(s: State, k: int) {
    forall b: Id :: b in s.heap ==> Outstanding(s, b) <= k
  }

  ghost predicate Fits(s: State, m: int) {
    && Inv(s) && QuotaInv(s, m) && RangeInv(s, m)
    && |s.pcs| > 0 && m + 64 * (|s.pcs| - 1) <= INT_MAX
  }

  // The state the machine is in: as s, with every reference count stored in an int.
  ghost function WrappedHeap(heap: map<Id, Block>): map<Id, Block> {
    map b | b in heap :: heap[b].(refs := Wrap32(heap[b].refs))
  }

  ghost function Wrapped(s: State): State {
    s.(heap := WrappedHeap(s.heap))
  }

  lemma {:induction false} WrapUpdate(heap: map<Id, Block>, b: Id, block: Block)
    ensures WrappedHeap(heap[b := block]) == WrappedHeap(heap)[b := block.(refs := Wrap32(block.refs))]
    ensures WrappedHeap(heap - {b}) == WrappedHeap(heap) - {b}
  {
  }

  lemma {:induction false} CountersNotNegative(s: State)
    requires ListInv(s, Holder(s)) && BlockInv(s, Holder(s)) && CountInv(s, Holder(s))
    ensures 0 <= s.allocatedQubits && 0 <= InUse(s)
  {
    var h := Holder(s);
    SumNonNegative(s.used, SizeIn(s.heap));
    if h.AllocLinked? || h.AllocTotal? {
      assert !OffList(h, h.b);
      assert h.b in s.used && SizeIn(s.heap)(h.b) == h.req.n;
    }
  }

  // Neither counter leaves 0 .. INT_MAX, nor does it with the current step's change made.
  lemma {:induction false} CountersInRange(s: State, m: int)
    requires Fits(s, m)
    ensures 0 <= s.allocatedQubits <= INT_MAX
    ensures forall t :: 0 <= t < |s.pcs| ==> s.allocatedQubits + InFlight(s.pcs[t]) <= INT_MAX
    ensures 0 <= InUse(s)
  {
    CountersNotNegative(s);
    forall t | 0 <= t < |s.pcs| ensures 0 <= MayPassW(m)(s.pcs[t]) {
      assert ReqOf(s.pcs[t]).Some? ==> !BadRequest(ReqOf(s.pcs[t]).value.n);
    }
    SumNonNegative(s.pcs, MayPassW(m));
    forall t | 0 <= t < |s.pcs| ensures s.allocatedQubits + InFlight(s.pcs[t]) <= INT_MAX {
      assert InFlight(s.pcs[t]) <= MayPassW(m)(s.pcs[t]);
    }
  }

  lemma {:induction false} TestAgrees(a: int, r: Req, max: int)
    requires 0 <= a <= INT_MAX && 0 <= max <= INT_MAX && !BadRequest(r.n)
    ensures Exceeds(MACHINE, a, r.n, max) == Exceeds(EXACT, a, r.n, max)
  {
    MachineTestExact(a, r.n, max);
  }

  lemma {:induction false} OutsideAgrees(s: State, t: nat, m: int)
    requires Fits(s, m) && t < |s.pcs| && !s.pcs[t].In?
    ensures OutsideStep(MACHINE, Wrapped(s), t) == Wrapped(OutsideStep(EXACT, s, t))
  {
    match s.pcs[t]
    case SawAllocated(_, _) => ReadsAgree(s, t, m);
    case SawMax(_, _) => ReadsAgree(s, t, m);
    case SetMaxSaw(_, _) => ReadsAgree(s, t, m);
    case Getting(b) => GetAgrees(s, t, b);
    case _ => LocksAgree(s, t);
  }

  lemma {:induction false} ReadsAgree(s: State, t: nat, m: int)
    requires Fits(s, m) && t < |s.pcs| && (s.pcs[t].SawAllocated? || s.pcs[t].SawMax? || s.pcs[t].SetMaxSaw?)
    ensures OutsideStep(MACHINE, Wrapped(s), t) == Wrapped(OutsideStep(EXACT, s, t))
  {
    CountersInRange(s, m);
    assert PcInRange(s.pcs[t], m);
    assert ReqOf(s.pcs[t]).Some? ==> !BadRequest(ReqOf(s.pcs[t]).value.n);
    match s.pcs[t]
    case SawAllocated(r, a) => TestAgrees(a, r, s.maxQubits); TestsAgree(s, t);
    case SawMax(r, max) => TestAgrees(s.allocatedQubits, r, max); TestsAgree(s, t);
    case SetMaxSaw(v, a) => SetsAgree(s, t, v, a);
  }

  lemma {:induction false} TestsAgree(s: State, t: nat)
    requires t < |s.pcs| && (s.pcs[t].SawAllocated? || s.pcs[t].SawMax?)
    requires var pc := s.pcs[t];
             var a, max := if pc.SawMax? then s.allocatedQubits else pc.a, if pc.SawMax? then pc.m else s.maxQubits;
             Exceeds(MACHINE, a, pc.req.n, max) == Exceeds(EXACT, a, pc.req.n, max)
    ensures OutsideStep(MACHINE, Wrapped(s), t) == Wrapped(OutsideStep(EXACT, s, t))
  {
  }

  lemma {:induction false} SetsAgree(s: State, t: nat, v: nat, a: int)
    requires t < |s.pcs| && s.pcs[t] == SetMaxSaw(v, a) && v <= INT_MAX && 0 <= a <= INT_MAX
    ensures OutsideStep(MACHINE, Wrapped(s), t) == Wrapped(OutsideStep(EXACT, s, t))
  {
    SetStep(MACHINE, Wrapped(s), t, v, a);
    SetStep(EXACT, s, t, v, a);
    assert Size(MACHINE, a) == a && Int(MACHINE, v) == v;
  }

  lemma {:induction false} SetStep(ar: Arith, s: State, t: nat, v: nat, a: int)
    requires t < |s.pcs| && s.pcs[t] == SetMaxSaw(v, a)
    ensures OutsideStep(ar, s, t) ==
            s.(pcs := s.pcs[t := Idle], maxQubits := if v < Size(ar, a) then s.maxQubits else Int(ar, v))
  {
  }

  lemma {:induction false} LocksAgree(s: State, t: nat)
    requires t < |s.pcs| && (s.pcs[t].Passed? || s.pcs[t].FreeCalled? || s.pcs[t].Idle?)
    ensures OutsideStep(MACHINE, Wrapped(s), t) == Wrapped(OutsideStep(EXACT, s, t))
  {
  }

  lemma {:induction false} GetAgrees(s: State, t: nat, b: Id)
    requires t < |s.pcs| && s.pcs[t] == Getting(b)
    ensures OutsideStep(MACHINE, Wrapped(s), t) == Wrapped(OutsideStep(EXACT, s, t))
  {
    if b in s.heap {
      WrapUpdate(s.heap, b, s.heap[b].(refs := s.heap[b].refs + 1));
      WrapStep(s.heap[b].refs, 1);
    }
  }

  lemma {:induction false} InsideAgrees(s: State, t: nat, ok: bool, m: int)
    requires Fits(s, m) && RefsAtMost(s, MAX_REFS) && t < |s.pcs| && s.pcs[t].In?
    ensures SectionNext(MACHINE, Wrapped(s), s.pcs[t].sec, ok) == SectionNext(EXACT, s, s.pcs[t].sec, ok)
    ensures SectionEffect(MACHINE, Wrapped(s), s.pcs[t].sec, ok) == Wrapped(SectionEffect(EXACT, s, s.pcs[t].sec, ok))
  {
    CountersInRange(s, m);
    var sec := s.pcs[t].sec;
    assert sec == Holder(s);
    if sec.FreeLocked? {
      HeldIsAlive(s, t, sec.b);
      assert RefsOf(s, sec.b) == Outstanding(s, sec.b);
    }
    InUseInRange(s, m);
    if Freeing(sec) { FreeAgrees(s, sec, ok); } else { AllocAgrees(s, sec, ok); }
  }

  // Where the value stored is within range, both arithmetics store it.
  lemma {:induction false} AllocAgrees(s: State, sec: Sec, ok: bool)
    requires !Freeing(sec)
    requires sec.AllocLinked? ==> InInt(s.totalQubits + sec.req.n)
    requires sec.AllocTotal? ==> InInt(s.allocatedQubits + sec.req.n)
    ensures SectionNext(MACHINE, Wrapped(s), sec, ok) == SectionNext(EXACT, s, sec, ok)
    ensures SectionEffect(MACHINE, Wrapped(s), sec, ok) == Wrapped(SectionEffect(EXACT, s, sec, ok))
  {
    if sec.AllocLocked? { WrapUpdate(s.heap, s.nextId, Block(sec.req.n, sec.req.flags, 1)); }
  }

  // A count of 1 to 2^32 that is decremented wraps to zero only if it was 1.
  lemma {:induction false} FreeAgrees(s: State, sec: Sec, ok: bool)
    requires Freeing(sec)
    requires sec.FreeLocked? && sec.b in s.heap ==> 1 <= s.heap[sec.b].refs <= MAX_REFS
    requires sec.FreeStateless? && sec.b in s.heap ==> InInt(s.totalQubits - s.heap[sec.b].size)
    requires sec.FreeTotal? && sec.b in s.heap ==> InInt(s.allocatedQubits - s.heap[sec.b].size)
    ensures SectionNext(MACHINE, Wrapped(s), sec, ok) == SectionNext(EXACT, s, sec, ok)
    ensures SectionEffect(MACHINE, Wrapped(s), sec, ok) == Wrapped(SectionEffect(EXACT, s, sec, ok))
  {
    if sec.FreeLocked? && sec.b in s.heap {
      DropAgrees(s, sec, ok);
    } else if sec.FreeCounted? {
      LastAgrees(s, sec.b, ok);
    } else {
      UncountAgrees(s, sec, ok);
    }
  }

  lemma {:induction false} LastAgrees(s: State, b: Id, ok: bool)
    ensures SectionEffect(MACHINE, Wrapped(s), FreeCounted(b), ok) ==
            Wrapped(SectionEffect(EXACT, s, FreeCounted(b), ok))
  {
    WrapUpdate(s.heap, b, Block(0, 0, 0));
  }

  lemma {:induction false} UncountAgrees(s: State, sec: Sec, ok: bool)
    requires Freeing(sec) && !sec.FreeCounted? && (sec.FreeLocked? ==> sec.b !in s.heap)
    requires sec.FreeStateless? && sec.b in s.heap ==> InInt(s.totalQubits - s.heap[sec.b].size)
    requires sec.FreeTotal? && sec.b in s.heap ==> InInt(s.allocatedQubits - s.heap[sec.b].size)
    ensures SectionNext(MACHINE, Wrapped(s), sec, ok) == SectionNext(EXACT, s, sec, ok)
    ensures SectionEffect(MACHINE, Wrapped(s), sec, ok) == Wrapped(SectionEffect(EXACT, s, sec, ok))
  {
  }

  lemma {:induction false} DropAgrees(s: State, sec: Sec, ok: bool)
    requires sec.FreeLocked? && sec.b in s.heap && 1 <= s.heap[sec.b].refs <= MAX_REFS
    ensures SectionNext(MACHINE, Wrapped(s), sec, ok) == SectionNext(EXACT, s, sec, ok)
    ensures SectionEffect(MACHINE, Wrapped(s), sec, ok) == Wrapped(SectionEffect(EXACT, s, sec, ok))
  {
    DropWraps(s.heap[sec.b].refs);
    DropStep(MACHINE, Wrapped(s), sec.b, ok);
    DropStep(EXACT, s, sec.b, ok);
    DropStores(s, sec.b);
  }

  lemma {:induction false} DropStep(ar: Arith, s: State, b: Id, ok: bool)
    requires b in s.heap
    ensures SectionNext(ar, s, FreeLocked(b), ok) ==
            In(if Int(ar, s.heap[b].refs - 1) == 0 then FreeZero(b) else Leaving)
    ensures SectionEffect(ar, s, FreeLocked(b), ok) == Lowered(ar, s, b)
  {
  }

  ghost function Lowered(ar: Arith, s: State, b: Id): State
    requires b in s.heap
  {
    s.(heap := s.heap[b := s.heap[b].(refs := Int(ar, s.heap[b].refs - 1))])
  }

  lemma {:induction false} DropStores(s: State, b: Id)
    requires b in s.heap
    ensures Lowered(MACHINE, Wrapped(s), b) == Wrapped(Lowered(EXACT, s, b))
  {
    DropWraps(s.heap[b].refs);
    WrapUpdate(s.heap, b, s.heap[b].(refs := s.heap[b].refs - 1));
  }

  lemma {:induction false} DropWraps(r: int)
    ensures Wrap32(Wrap32(r) - 1) == Wrap32(r - 1)
    ensures 1 <= r <= MAX_REFS ==> (Wrap32(r - 1) == 0 <==> r == 1)
  {
    WrapStep(r, -1);
  }

  // At each update of a counter the new value is what the used list adds up to.
  lemma {:induction false} InUseInRange(s: State, m: int)
    requires Fits(s, m)
    ensures InUse(s) <= INT_MAX
  {
    CountersInRange(s, m);
    if s.lock.Some? {
      assert s.pcs[s.lock.value].In?;
      assert s.allocatedQubits + InFlight(s.pcs[s.lock.value]) <= INT_MAX;
    }
  }

  lemma {:induction false} NextAgrees(s: State, e: Event, m: int)
    requires Fits(s, m) && RefsAtMost(s, MAX_REFS)
    ensures Next(MACHINE, Wrapped(s), e) == Wrapped(Next(EXACT, s, e))
  {
    if e.t < |s.pcs| && e.act.Tick? {
      if s.pcs[e.t].In? { SectionStepAgrees(s, e.t, e.act.ok, m); } else { OutsideAgrees(s, e.t, m); }
    } else if e.t < |s.pcs| && s.pcs[e.t].Idle? {
      CallAgrees(s, e.t, e.act);
    }
  }

  lemma {:induction false} SectionStepAgrees(s: State, t: nat, ok: bool, m: int)
    requires Fits(s, m) && RefsAtMost(s, MAX_REFS) && t < |s.pcs| && s.pcs[t].In?
    ensures Step(MACHINE, Wrapped(s), t, ok) == Wrapped(Step(EXACT, s, t, ok))
  {
    InsideAgrees(s, t, ok, m);
  }

  lemma {:induction false} CallAgrees(s: State, t: nat, act: Act)
    requires t < |s.pcs| && s.pcs[t].Idle?
    ensures Call(Wrapped(s), t, act) == Wrapped(Call(s, t, act))
  {
  }

  lemma {:induction false} CallInRange(s: State, t: nat, act: Act, m: int)
    requires RangeInv(s, m) && t < |s.pcs| && 0 <= s.allocatedQubits <= INT_MAX
    requires act.CallSetMax? ==> act.v <= m
    ensures RangeInv(Call(s, t, act), m) && Call(s, t, act).maxQubits == s.maxQubits
  {
  }

  lemma {:induction false} OutsideInRange(s: State, t: nat, m: int)
    requires RangeInv(s, m) && s.maxQubits <= m && t < |s.pcs| && !s.pcs[t].In?
    ensures RangeInv(OutsideStep(EXACT, s, t), m) && OutsideStep(EXACT, s, t).maxQubits <= m
  {
    assert PcInRange(s.pcs[t], m);
  }

  lemma {:induction false} InsideInRange(s: State, t: nat, ok: bool, m: int)
    requires RangeInv(s, m) && t < |s.pcs| && s.pcs[t].In?
    ensures RangeInv(Step(EXACT, s, t, ok), m) && Step(EXACT, s, t, ok).maxQubits == s.maxQubits
  {
    InsideFlight(s, s.pcs[t].sec, ok);
  }

  lemma {:induction false} NextInRange(s: State, e: Event, m: int)
    requires Fits(s, m) && (e.act.CallSetMax? ==> e.act.v <= m)
    ensures RangeInv(Next(EXACT, s, e), m) && Next(EXACT, s, e).maxQubits <= m
  {
    CountersInRange(s, m);
    if e.t < |s.pcs| && e.act.Tick? {
      if s.pcs[e.t].In? { InsideInRange(s, e.t, e.act.ok, m); } else { OutsideInRange(s, e.t, m); }
    } else if e.t < |s.pcs| && s.pcs[e.t].Idle? {
      CallInRange(s, e.t, e.act, m);
    }
  }

  // Every maximum asked for is at most m, and that leaves room below 2^31 for one block per
  // further thread.
  ghost predicate MaximaAtMost(n: nat, evs: seq<Event>, m: int) {
    && n > 0 && QMEM_MAX_QUBITS <= m && m + 64 * (n - 1) <= INT_MAX
    && forall i :: 0 <= i < |evs| && evs[i].act.CallSetMax? ==> evs[i].act.v <= m
  }

  // At no time are there more than k references to one block.
  ghost predicate AlwaysRefsAtMost(ar: Arith, n: nat, evs: seq<Event>, k: int) {
    forall i :: 0 <= i <= |evs| ==> RefsAtMost(Exec(ar, Start(n), evs[..i]), k)
  }

  lemma {:induction false} PrefixRefs(ar: Arith, n: nat, evs: seq<Event>, k: int)
    requires AlwaysRefsAtMost(ar, n, evs, k)
    ensures RefsAtMost(Exec(ar, Start(n), evs), k)
    ensures evs != [] ==> AlwaysRefsAtMost(ar, n, evs[..|evs| - 1], k)
  {
    assert evs[..|evs|] == evs;
    if evs != [] {
      var before := evs[..|evs| - 1];
      forall i | 0 <= i <= |before| ensures RefsAtMost(Exec(ar, Start(n), before[..i]), k) {
        assert before[..i] == evs[..i];
      }
    }
  }

  lemma {:induction false} ExecFits(n: nat, evs: seq<Event>, m: int)
    requires MaximaAtMost(n, evs, m) && AlwaysRefsAtMost(MACHINE, n, evs, MAX_REFS)
    ensures Exec(MACHINE, Start(n), evs) == Wrapped(Exec(EXACT, Start(n), evs))
    ensures Fits(Exec(EXACT, Start(n), evs), m)
  {
    PrefixRefs(MACHINE, n, evs, MAX_REFS);
    if evs == [] {
      StartInv(n);
      SumBounds(Start(n).pcs, MayPassW(m), 0, 0);
    } else {
      var before, e := evs[..|evs| - 1], evs[|evs| - 1];
      ExecFits(n, before, m);
      PrefixRefs(MACHINE, n, before, MAX_REFS);
      WrappedRefs(Exec(EXACT, Start(n), before), MAX_REFS);
      NextFits(Exec(EXACT, Start(n), before), e, m);
    }
  }

  // Storing a count in an int changes neither who holds references nor what is allocated.
  lemma {:induction false} WrappedRefs(s: State, k: int)
    ensures RefsAtMost(Wrapped(s), k) <==> RefsAtMost(s, k)
  {
    var s' := Wrapped(s);
    forall b: Id ensures b in s'.heap <==> b in s.heap {}
    forall b: Id ensures Outstanding(s', b) == Outstanding(s, b) {}
  }

  lemma {:induction false} NextFits(s: State, e: Event, m: int)
    requires Fits(s, m) && (e.act.CallSetMax? ==> e.act.v <= m) && RefsAtMost(s, MAX_REFS)
    ensures Next(MACHINE, Wrapped(s), e) == Wrapped(Next(EXACT, s, e)) && Fits(Next(EXACT, s, e), m)
  {
    NextAgrees(s, e, m);
    NextInRange(s, e, m);
    NextQuota(s, e, m);
    NextInv(s, e);
    NextThreads(EXACT, s, e);
  }

  // If every requested maximum is at most m, m leaves room for one block per further
  // thread below 2^31, and no block ever has more than 2^32 references, then the machine's
  // run is the run on unbounded integers with every reference count stored in an int, so
  // what was proved of those holds of the machine. In particular no other counter wraps,
  // and none at all while no block has 2^31 references.
  lemma {:induction false} MachineIsExact(n: nat, evs: seq<Event>, m: int)
    requires MaximaAtMost(n, evs, m) && AlwaysRefsAtMost(MACHINE, n, evs, MAX_REFS)
    ensures Exec(MACHINE, Start(n), evs) == Wrapped(Exec(EXACT, Start(n), evs))
    ensures RefsAtMost(Exec(MACHINE, Start(n), evs), INT_MAX) ==>
              Exec(MACHINE, Start(n), evs) == Exec(EXACT, Start(n), evs)
    ensures var s := Exec(MACHINE, Start(n), evs);
            0 <= s.allocatedQubits <= m + 64 * (n - 1)
  {
    ExecFits(n, evs, m);
    var s := Exec(EXACT, Start(n), evs);
    CountersInRange(s, m);
    ExecThreads(EXACT, Start(n), evs);
    FlightNotNegative(s, m);
    WrappedRefs(s, INT_MAX);
    if RefsAtMost(s, INT_MAX) { WrappedSmall(s); }
  }

  lemma {:induction false} FlightNotNegative(s: State, m: int)
    requires ReqInv(s)
    ensures 0 <= Sum(s.pcs, MayPassW(m))
  {
    forall t | 0 <= t < |s.pcs| ensures 0 <= MayPassW(m)(s.pcs[t]) {
      assert ReqOf(s.pcs[t]).Some? ==> !BadRequest(ReqOf(s.pcs[t]).value.n);
    }
    SumNonNegative(s.pcs, MayPassW(m));
  }

  lemma {:induction false} WrappedSmall(s: State)
    requires RefInv(s) && RefsAtMost(s, INT_MAX)
    ensures Wrapped(s) == s
  {
    forall b: Id | b in s.heap ensures 0 <= s.heap[b].refs <= INT_MAX {
      OutstandingNotNegative(s, b);
      assert RefsOf(s, b) == Outstanding(s, b);
    }
    assert WrappedHeap(s.heap) == s.heap;
  }

  lemma {:induction false} OutstandingNotNegative(s: State, b: Id)
    ensures 0 <= Outstanding(s, b)
  {
    SumNonNegative(s.pcs, HoldW(b));
  }

  // ---- the maximum in force ------------------------------------------------------------------

  predicate WithinMaximum(n: nat, evs: seq<Event>) {
    Exec(MACHINE, Start(n), evs).allocatedQubits <= Exec(MACHINE, Start(n), evs).maxQubits
  }

  predicate MaximaFit(evs: seq<Event>, v: int) {
    forall i :: 0 <= i < |evs| && evs[i].act.CallSetMax? ==> evs[i].act.v <= v
  }

  // After these events of n threads the maximum in force is respected, provided every
  // maximum asked for is at most v and no block ever has more than 2^32 references.
  ghost predicate KeepsMaximum(n: nat, evs: seq<Event>, v: int) {
    MaximaFit(evs, v) && AlwaysRefsAtMost(MACHINE, n, evs, MAX_REFS) ==> WithinMaximum(n, evs)
  }

  // There are two ways to break it: a second thread, and a maximum that does not fit an
  // int. In the machine's arithmetic, with every maximum asked for fitting an int, the
  // maximum in force is respected in every run exactly if there is no second thread ...
  lemma {:induction false} MaximumHoldsIff(n: nat)
    ensures (forall evs: seq<Event> :: KeepsMaximum(n, evs, INT_MAX)) <==> n <= 1
  {
    if n == 0 {
      forall evs: seq<Event> ensures KeepsMaximum(0, evs, INT_MAX) {
        NobodyKeeps(evs, INT_MAX);
      }
    } else if n == 1 {
      MaximumFitsIff(INT_MAX);
    } else {
      RaceBreaks(n);
    }
  }

  // ... and with one thread exactly if those asked for are at most 2^31 - 1.
  lemma {:induction false} MaximumFitsIff(v: nat)
    ensures (forall evs: seq<Event> :: KeepsMaximum(1, evs, v)) <==> v <= INT_MAX
  {
    if v <= INT_MAX {
      forall evs: seq<Event> ensures KeepsMaximum(1, evs, v) {
        SoleKeeps(evs, v);
      }
    } else {
      TruncationBreaks(v);
    }
  }

  lemma {:induction false} NobodyKeeps(evs: seq<Event>, v: int)
    ensures KeepsMaximum(0, evs, v)
  {
    NoThreads(MACHINE, evs);
  }

  lemma {:induction false} SoleKeeps(evs: seq<Event>, v: int)
    requires v <= INT_MAX
    ensures KeepsMaximum(1, evs, v)
  {
    if MaximaFit(evs, v) && AlwaysRefsAtMost(MACHINE, 1, evs, MAX_REFS) {
      MaximaFitInt(evs, v);
      SoleCounters(evs);
    }
  }

  lemma {:induction false} MaximaFitInt(evs: seq<Event>, v: int)
    requires MaximaFit(evs, v) && v <= INT_MAX
    ensures MaximaAtMost(1, evs, INT_MAX)
  {
  }

  lemma {:induction false} SoleCounters(evs: seq<Event>)
    requires MaximaAtMost(1, evs, INT_MAX) && AlwaysRefsAtMost(MACHINE, 1, evs, MAX_REFS)
    ensures WithinMaximum(1, evs)
  {
    MachineIsExact(1, evs, INT_MAX);
    WrappedCounters(Exec(MACHINE, Start(1), evs), Exec(EXACT, Start(1), evs));
    SoleThreadBelowMax(evs);
  }

  lemma {:induction false} WrappedCounters(s': State, s: State)
    requires s' == Wrapped(s)
    ensures s'.allocatedQubits == s.allocatedQubits && s'.maxQubits == s.maxQubits
  {
  }

  lemma {:induction false} RaceBreaks(n: nat)
    requires n >= 2
    ensures !KeepsMaximum(n, SetMaxRace(0, FULL), INT_MAX)
  {
    SetMaxRaceBelowUse(MACHINE, n, 0, FULL);
    RaceTakesNone(n);
  }

  lemma {:induction false} TruncationBreaks(v: nat)
    requires v > INT_MAX
    ensures !KeepsMaximum(1, CallEvents(0, CallSetMax(INT_MAX + 1), true, 1), v)
  {
    Truncated(1, INT_MAX + 1);
    NoGetsFewRefs(MACHINE, 1, CallEvents(0, CallSetMax(INT_MAX + 1), true, 1));
  }

  // One thread and one accepted call: the maximum becomes negative.
  lemma {:induction false} Truncated(n: nat, v: nat)
    requires n >= 1 && v % 0x1_0000_0000 >= 0x8000_0000
    ensures var s := Exec(MACHINE, Start(n), CallEvents(0, CallSetMax(v), true, 1));
            s.maxQubits < 0 == s.allocatedQubits && s.pcs == Start(n).pcs
  {
    SoloSetMax(MACHINE, Start(n), 0, v);
  }

  lemma {:induction false} RaceTakesNone(n: nat)
    ensures MaximaFit(SetMaxRace(0, FULL), INT_MAX) && AlwaysRefsAtMost(MACHINE, n, SetMaxRace(0, FULL), MAX_REFS)
  {
    NoGetsFewRefs(MACHINE, n, SetMaxRace(0, FULL));
  }

  // ---- references and gets -----------------------------------------------------------------------

  // The gets of b that the events ask for.
  function Gets(evs: seq<Event>, b: Id): nat {
    Count(evs, (e: Event) => e.act == CallGet(b))
  }

  ghost function GettingW(b: Id): Pc -> int {
    (pc: Pc) => if pc == Getting(b) then 1 else 0
  }

  // References to b, with the one each pending get is about to add.
  ghost function Coming(s: State, b: Id): int {
    Outstanding(s, b) + Sum(s.pcs, GettingW(b))
  }

  function One(b: bool): int {
    if b then 1 else 0
  }

  // What one thread and the pool contribute.
  ghost function Share(s: State, pc: Pc, b: Id): int {
    s.pool[b] + HoldW(b)(pc) + GettingW(b)(pc) - One(b < s.nextId)
  }

  lemma {:induction false} ComingMoves(s: State, s': State, t: nat, b: Id, d: int)
    requires t < |s.pcs| == |s'.pcs| && s'.pcs == s.pcs[t := s'.pcs[t]]
    requires Share(s', s'.pcs[t], b) <= Share(s, s.pcs[t], b) + d
    ensures Coming(s', b) - One(b < s'.nextId) <= Coming(s, b) - One(b < s.nextId) + d
  {
    SumUpdate(s.pcs, t, s'.pcs[t], HoldW(b));
    SumUpdate(s.pcs, t, s'.pcs[t], GettingW(b));
  }

  // Only a call of get adds to it, in either arithmetic.
  lemma {:induction false} NextComing(ar: Arith, s: State, e: Event, b: Id)
    ensures Coming(Next(ar, s, e), b) - One(b < Next(ar, s, e).nextId) <=
            Coming(s, b) - One(b < s.nextId) + One(e.act == CallGet(b))
  {
    if e.t < |s.pcs| && e.act.Tick? {
      StepThread(ar, s, e.t, e.act.ok);
      if s.pcs[e.t].In? {
        SectionShare(ar, s, s.pcs[e.t].sec, e.act.ok, b);
      } else {
        OutsideShare(ar, s, e.t, b);
      }
      ComingMoves(s, Next(ar, s, e), e.t, b, 0);
    } else if e.t < |s.pcs| && s.pcs[e.t].Idle? {
      CallThread(s, e.t, e.act);
      CallShare(s, e.t, e.act, b);
      ComingMoves(s, Next(ar, s, e), e.t, b, One(e.act == CallGet(b)));
    }
  }

  lemma {:induction false} CallShare(s: State, t: nat, act: Act, b: Id)
    requires t < |s.pcs| && s.pcs[t].Idle?
    ensures var s' := Call(s, t, act);
            |s'.pcs| == |s.pcs| && Share(s', s'.pcs[t], b) <= Share(s, Idle, b) + One(act == CallGet(b))
  {
  }

  lemma {:induction false} OutsideShare(ar: Arith, s: State, t: nat, b: Id)
    requires t < |s.pcs| && !s.pcs[t].In?
    ensures var s' := OutsideStep(ar, s, t);
            |s'.pcs| == |s.pcs| && Share(s', s'.pcs[t], b) <= Share(s, s.pcs[t], b)
  {
    OutsideThread(ar, s, t);
    if s.pcs[t].Getting? { GetShare(ar, s, t, b); } else { KeepShare(ar, s, t, b); }
  }

  lemma {:induction false} GetShare(ar: Arith, s: State, t: nat, b: Id)
    requires t < |s.pcs| && s.pcs[t].Getting?
    ensures Share(OutsideStep(ar, s, t), OutsideStep(ar, s, t).pcs[t], b) <= Share(s, s.pcs[t], b)
  {
  }

  lemma {:induction false} KeepShare(ar: Arith, s: State, t: nat, b: Id)
    requires t < |s.pcs| && !s.pcs[t].In? && !s.pcs[t].Getting?
    ensures Share(OutsideStep(ar, s, t), OutsideStep(ar, s, t).pcs[t], b) <= Share(s, s.pcs[t], b)
  {
  }

  lemma {:induction false} SectionShare(ar: Arith, s: State, sec: Sec, ok: bool, b: Id)
    ensures Share(SectionEffect(ar, s, sec, ok), SectionNext(ar, s, sec, ok), b) <= Share(s, In(sec), b)
  {
    if Freeing(sec) { FreeShare(ar, s, sec, ok, b); } else { AllocShare(ar, s, sec, ok, b); }
  }

  lemma {:induction false} AllocShare(ar: Arith, s: State, sec: Sec, ok: bool, b: Id)
    requires !Freeing(sec)
    ensures Share(SectionEffect(ar, s, sec, ok), SectionNext(ar, s, sec, ok), b) <= Share(s, In(sec), b)
  {
  }

  lemma {:induction false} FreeShare(ar: Arith, s: State, sec: Sec, ok: bool, b: Id)
    requires Freeing(sec)
    ensures Share(SectionEffect(ar, s, sec, ok), SectionNext(ar, s, sec, ok), b) <= Share(s, In(sec), b)
  {
    FreeKeepsPool(ar, s, sec, ok);
    FreeHolds(ar, s, sec, ok, b);
  }

  lemma {:induction false} FreeKeepsPool(ar: Arith, s: State, sec: Sec, ok: bool)
    requires Freeing(sec)
    ensures SectionEffect(ar, s, sec, ok).pool == s.pool && SectionEffect(ar, s, sec, ok).nextId == s.nextId
  {
  }

  lemma {:induction false} FreeHolds(ar: Arith, s: State, sec: Sec, ok: bool, b: Id)
    requires Freeing(sec)
    ensures HoldW(b)(SectionNext(ar, s, sec, ok)) <= HoldW(b)(In(sec)) && GettingW(b)(SectionNext(ar, s, sec, ok)) == 0
  {
  }

  // In every run of either arithmetic a block has at most one reference more than gets of
  // it have been asked for.
  lemma {:induction false} RefsBelowGets(ar: Arith, n: nat, evs: seq<Event>, b: Id)
    ensures Coming(Exec(ar, Start(n), evs), b) <= One(b < Exec(ar, Start(n), evs).nextId) + Gets(evs, b)
  {
    if evs == [] {
      SumBounds(Start(n).pcs, HoldW(b), 0, 0);
      SumBounds(Start(n).pcs, GettingW(b), 0, 0);
    } else {
      RefsBelowGets(ar, n, evs[..|evs| - 1], b);
      NextComing(ar, Exec(ar, Start(n), evs[..|evs| - 1]), evs[|evs| - 1], b);
    }
  }

  lemma {:induction false} GetsPrefix(evs: seq<Event>, b: Id, k: nat)
    requires k <= |evs|
    ensures Gets(evs[..k], b) <= Gets(evs, b)
    decreases |evs|
  {
    if k == |evs| {
      assert evs[..k] == evs;
    } else {
      assert evs[..|evs| - 1][..k] == evs[..k];
      GetsPrefix(evs[..|evs| - 1], b, k);
    }
  }

  lemma {:induction false} FewGetsFewRefs(ar: Arith, n: nat, evs: seq<Event>, k: int)
    requires forall b: Id :: Gets(evs, b) < k
    ensures AlwaysRefsAtMost(ar, n, evs, k)
  {
    forall i, b: Id | 0 <= i <= |evs| ensures Outstanding(Exec(ar, Start(n), evs[..i]), b) <= k {
      var s := Exec(ar, Start(n), evs[..i]);
      RefsBelowGets(ar, n, evs[..i], b);
      GetsPrefix(evs, b, i);
      SumNonNegative(s.pcs, GettingW(b));
    }
  }

  lemma {:induction false} NoGetsFewRefs(ar: Arith, n: nat, evs: seq<Event>)
    requires forall i :: 0 <= i < |evs| ==> !evs[i].act.CallGet?
    ensures AlwaysRefsAtMost(ar, n, evs, MAX_REFS)
  {
    forall b: Id ensures Gets(evs, b) == 0 {
      NoGets(evs, b);
    }
    FewGetsFewRefs(ar, n, evs, MAX_REFS);
  }

  lemma {:induction false} NoGets(evs: seq<Event>, b: Id)
    requires forall i :: 0 <= i < |evs| ==> !evs[i].act.CallGet?
    ensures Gets(evs, b) == 0
  {
    if evs != [] { NoGets(evs[..|evs| - 1], b); }
  }
}
