// How far concurrent allocations can pass the quota: the test at the head of
// `ctrlxt_qmem_alloc` runs outside the lock, so N threads can each be let
// through by the same free qubits. The overshoot is at most one block per
// further thread, and that much is reached.
module QMemQuota {
  import opened CInt
  import opened Sums
  import opened QMemSpec
  import opened QMemThreads
  import opened QMemSolo
  import opened Runs

  const FULL := Req(QMEM_MAX_QUBITS_PER_BLOCK, 0)

  // Qubits of a request past the quota test and not yet in the counter.
  function InFlight(pc: Pc): int {
    match pc
    case Passed(r) => r.n
    case In(sec) => if sec.AllocLocked? || sec.AllocMade? || sec.AllocLinked? || sec.AllocTotal? then sec.req.n else 0
    case _ => 0
  }

  ghost function InFlightW(): Pc -> int {
    (pc: Pc) => InFlight(pc)
  }

  // A request that has read the counter but not yet the maximum counts as well,
  // if a maximum of m would let it through.
  ghost function MayPassW(m: int): Pc -> int {
    (pc: Pc) => if pc.SawAllocated? then (if pc.a + pc.req.n <= m then pc.req.n else 0) else InFlight(pc)
  }

  ghost predicate QuotaInv(s: State, m: int) {
    && s.maxQubits <= m
    && (forall t :: 0 <= t < |s.pcs| && s.pcs[t].SawMax? ==> s.pcs[t].m <= m)
    && s.allocatedQubits + Sum(s.pcs, MayPassW(m)) <= m + 64 * (|s.pcs| - 1)
  }

  // A thread let through by the counter and a maximum of at most m brings the total
  // to at most m plus one block for every other thread.
  lemma {:induction false} LetThrough(s: State, t: nat, r: Req, m: int, pc: Pc)
    requires ReqInv(s) && t < |s.pcs| && !BadRequest(r.n)
    requires s.allocatedQubits + r.n <= m && MayPassW(m)(pc) == r.n
    ensures s.allocatedQubits + Sum(s.pcs[t := pc], MayPassW(m)) <= m + 64 * (|s.pcs| - 1)
  {
    var pcs := s.pcs[t := pc];
    forall i | 0 <= i < |pcs| && i != t ensures 0 <= MayPassW(m)(pcs[i]) <= QMEM_MAX_QUBITS_PER_BLOCK {
      assert ReqOf(s.pcs[i]).Some? ==> !BadRequest(ReqOf(s.pcs[i]).value.n);
    }
    SumOthers(pcs, t, MayPassW(m), 0, QMEM_MAX_QUBITS_PER_BLOCK);
  }

  lemma {:induction false} CallQuota(s: State, t: nat, act: Act, m: int)
    requires ReqInv(s) && QuotaInv(s, m) && t < |s.pcs| && s.pcs[t].Idle?
    ensures QuotaInv(Call(s, t, act), m)
  {
    var s' := Call(s, t, act);
    CallThread(s, t, act);
    if act.CallAlloc? && !act.maxFirst && !BadRequest(act.req.n) && s.allocatedQubits + act.req.n <= m {
      LetThrough(s, t, act.req, m, s'.pcs[t]);
    } else {
      SumUpdate(s.pcs, t, s'.pcs[t], MayPassW(m));
    }
  }

  lemma {:induction false} OutsideQuota(s: State, t: nat, m: int)
    requires ReqInv(s) && QuotaInv(s, m) && t < |s.pcs| && !s.pcs[t].In?
    requires OutsideStep(EXACT, s, t).maxQubits <= m
    ensures QuotaInv(OutsideStep(EXACT, s, t), m)
  {
    var s' := OutsideStep(EXACT, s, t);
    OutsideThread(EXACT, s, t);
    OutsideCarries(s, t);
    if s.pcs[t].SawMax? && s'.pcs[t].Passed? {
      assert ReqOf(s.pcs[t]).Some?;
      LetThrough(s, t, s.pcs[t].req, m, s'.pcs[t]);
    } else {
      SumUpdate(s.pcs, t, s'.pcs[t], MayPassW(m));
      OutsideFlight(s, t, m);
    }
  }

  // No step outside the lock leaves a thread with an unread maximum, or moves the counter.
  lemma {:induction false} OutsideCarries(s: State, t: nat)
    requires t < |s.pcs| && !s.pcs[t].In?
    ensures var s' := OutsideStep(EXACT, s, t);
            s'.allocatedQubits == s.allocatedQubits && |s'.pcs| == |s.pcs| && !s'.pcs[t].SawMax?
            && (s.pcs[t].SawMax? && s'.pcs[t].Passed? ==>
                  s'.pcs[t].req == s.pcs[t].req && s.allocatedQubits + s.pcs[t].req.n <= s.pcs[t].m)
  {
  }

  // A request already counted as possibly passing is not counted again.
  lemma {:induction false} OutsideFlight(s: State, t: nat, m: int)
    requires t < |s.pcs| && !s.pcs[t].In? && s.maxQubits <= m
    ensures var s' := OutsideStep(EXACT, s, t);
            |s'.pcs| == |s.pcs|
            && ((s.pcs[t].SawMax? && s'.pcs[t].Passed?) || MayPassW(m)(s'.pcs[t]) <= MayPassW(m)(s.pcs[t]))
  {
    OutsideCarries(s, t);
    if s.pcs[t].SawAllocated? { TestFlight(s, t, m); }
  }

  lemma {:induction false} TestFlight(s: State, t: nat, m: int)
    requires t < |s.pcs| && s.pcs[t].SawAllocated? && s.maxQubits <= m
    ensures MayPassW(m)(OutsideStep(EXACT, s, t).pcs[t]) <= MayPassW(m)(s.pcs[t])
  {
  }

  lemma {:induction false} InsideQuota(s: State, t: nat, ok: bool, m: int)
    requires QuotaInv(s, m) && t < |s.pcs| && s.pcs[t].In?
    ensures QuotaInv(Step(EXACT, s, t, ok), m)
  {
    var s' := Step(EXACT, s, t, ok);
    SumUpdate(s.pcs, t, s'.pcs[t], MayPassW(m));
    InsideFlight(s, s.pcs[t].sec, ok);
  }

  // Inside the lock a request leaves the flight exactly when the counter takes it in.
  lemma {:induction false} InsideFlight(s: State, sec: Sec, ok: bool)
    ensures var s', pc := SectionEffect(EXACT, s, sec, ok), SectionNext(EXACT, s, sec, ok);
            s'.allocatedQubits + InFlight(pc) <= s.allocatedQubits + InFlight(In(sec)) && s'.maxQubits == s.maxQubits
  {
    if Freeing(sec) { FreeFlight(s, sec, ok); } else { AllocFlight(s, sec, ok); }
  }

  lemma {:induction false} AllocFlight(s: State, sec: Sec, ok: bool)
    requires !Freeing(sec)
    ensures var s', pc := SectionEffect(EXACT, s, sec, ok), SectionNext(EXACT, s, sec, ok);
            s'.allocatedQubits + InFlight(pc) <= s.allocatedQubits + InFlight(In(sec)) && s'.maxQubits == s.maxQubits
  {
  }

  lemma {:induction false} FreeFlight(s: State, sec: Sec, ok: bool)
    requires Freeing(sec)
    ensures var s', pc := SectionEffect(EXACT, s, sec, ok), SectionNext(EXACT, s, sec, ok);
            s'.allocatedQubits <= s.allocatedQubits && InFlight(pc) == InFlight(In(sec)) == 0
            && s'.maxQubits == s.maxQubits
  {
  }

  lemma {:induction false} NextQuota(s: State, e: Event, m: int)
    requires ReqInv(s) && QuotaInv(s, m) && Next(EXACT, s, e).maxQubits <= m
    ensures QuotaInv(Next(EXACT, s, e), m)
  {
    if e.t < |s.pcs| && e.act.Tick? {
      if s.pcs[e.t].In? { InsideQuota(s, e.t, e.act.ok, m); } else { OutsideQuota(s, e.t, m); }
    } else if e.t < |s.pcs| && s.pcs[e.t].Idle? {
      CallQuota(s, e.t, e.act, m);
    }
  }

  // m bounds every maximum installed during the run.
  ghost predicate MaxAtMost(ar: Arith, n: nat, evs: seq<Event>, m: int) {
    forall k :: 0 <= k <= |evs| ==> Exec(ar, Start(n), evs[..k]).maxQubits <= m
  }

  lemma {:induction false} ExecQuota(n: nat, evs: seq<Event>, m: int)
    requires n > 0 && MaxAtMost(EXACT, n, evs, m)
    ensures QuotaInv(Exec(EXACT, Start(n), evs), m)
  {
    assert evs[..|evs|] == evs;
    if evs == [] {
      SumBounds(Start(n).pcs, MayPassW(m), 0, 0);
    } else {
      var before := evs[..|evs| - 1];
      forall k | 0 <= k <= |before| ensures Exec(EXACT, Start(n), before[..k]).maxQubits <= m {
        assert before[..k] == evs[..k];
      }
      ExecQuota(n, before, m);
      ExecInv(n, before);
      NextQuota(Exec(EXACT, Start(n), before), evs[|evs| - 1], m);
    }
  }

  // In every reachable state of every interleaving of N threads, the qubits counted
  // as allocated, plus those let past the quota test and not yet counted, exceed the
  // largest maximum ever installed by at most 64 per thread after the first.
  lemma {:induction false} QuotaBound(n: nat, evs: seq<Event>, m: int)
    requires n > 0 && MaxAtMost(EXACT, n, evs, m)
    ensures var s := Exec(EXACT, Start(n), evs);
            s.allocatedQubits + Sum(s.pcs, InFlightW()) <= m + 64 * (n - 1)
  {
    var s := Exec(EXACT, Start(n), evs);
    ExecQuota(n, evs, m);
    ExecInv(n, evs);
    ExecThreads(EXACT, Start(n), evs);
    SumBelow(s.pcs, InFlightW(), MayPassW(m));
  }

  lemma {:induction false} SumBelow(s: seq<Pc>, f: Pc -> int, g: Pc -> int)
    requires forall pc: Pc :: f(pc) <= g(pc)
    ensures Sum(s, f) <= Sum(s, g)
  {
    if s != [] { SumBelow(s[1..], f, g); }
  }

  // ---- one thread --------------------------------------------------------------

  // A lone thread's reads are never stale, so the quota in force is never exceeded,
  // not even by a request in progress.
  ghost predicate SoleInv(s: State) {
    && |s.pcs| == 1
    && s.allocatedQubits + InFlight(s.pcs[0]) <= s.maxQubits
    && (s.pcs[0].SawAllocated? || s.pcs[0].SetMaxSaw? ==> s.pcs[0].a == s.allocatedQubits)
    && (s.pcs[0].SawMax? ==> s.pcs[0].m == s.maxQubits)
  }

  lemma {:induction false} SoleStep(s: State, ok: bool)
    requires SoleInv(s)
    ensures SoleInv(Step(EXACT, s, 0, ok))
  {
    if s.pcs[0].In? { SoleInside(s, ok); } else { SoleOutside(s); }
  }

  lemma {:induction false} SoleInside(s: State, ok: bool)
    requires SoleInv(s) && s.pcs[0].In?
    ensures SoleInv(Step(EXACT, s, 0, ok))
  {
    InsideFlight(s, s.pcs[0].sec, ok);
    SectionReq(EXACT, s, s.pcs[0].sec, ok);
  }

  lemma {:induction false} SoleOutside(s: State)
    requires SoleInv(s) && !s.pcs[0].In?
    ensures SoleInv(OutsideStep(EXACT, s, 0))
  {
    OutsideThread(EXACT, s, 0);
  }

  lemma {:induction false} SoleNext(s: State, e: Event)
    requires SoleInv(s)
    ensures SoleInv(Next(EXACT, s, e))
  {
    if e.t == 0 && e.act.Tick? { SoleStep(s, e.act.ok); }
  }

  lemma {:induction false} SoleExec(evs: seq<Event>)
    ensures SoleInv(Exec(EXACT, Start(1), evs))
  {
    if evs != [] {
      SoleExec(evs[..|evs| - 1]);
      SoleNext(Exec(EXACT, Start(1), evs[..|evs| - 1]), evs[|evs| - 1]);
    }
  }

  lemma {:induction false} SoleThreadKeepsQuota(evs: seq<Event>)
    ensures var s := Exec(EXACT, Start(1), evs);
            |s.pcs| == 1 && s.allocatedQubits + InFlight(s.pcs[0]) <= s.maxQubits
  {
    SoleExec(evs);
  }

  // A second thread is enough to pass the quota in force without any overshoot: an
  // allocation fits between the two halves of `ctrlxt_qmem_set_max_qubits`.
  function SetMaxRace(v: nat, req: Req): seq<Event> {
    [Event(0, CallSetMax(v))] + AllocCall(1, req, false, true) + Ticks(0, true, 1)
  }

  // With any number of further threads, for every maximum below the size of the request,
  // and in either arithmetic: all calls have returned, both successfully, and the maximum
  // in force is below the qubits in use.
  lemma {:induction false} SetMaxRaceBelowUse(ar: Arith, n: nat, v: nat, req: Req)
    requires (ar == EXACT || ar == MACHINE) && n >= 2 && !BadRequest(req.n) && v < req.n
    ensures var s := Exec(ar, Start(n), SetMaxRace(v, req));
            && s.pcs == Start(n).pcs
            && s.maxQubits == v && s.allocatedQubits == req.n
            && GetStats(ar, Abs(s)).free < 0
  {
    var s0, e := Start(n), Event(0, CallSetMax(v));
    var s1 := s0.Goto(0, SetMaxSaw(v, 0));
    var s2 := Committed(ar, s1, req);
    FoldConcat(NextOf(ar), s0, [e] + AllocCall(1, req, false, true), Ticks(0, true, 1));
    FoldFirst(NextOf(ar), s0, e, AllocCall(1, req, false, true));
    AllocSteps(ar, s1, 1, req, false, true);
    OneTick(ar, s2, 0, true);
    SetMaxWrite(ar, s2, v);
    assert s2.Goto(0, Idle).pcs == s0.pcs;
  }

  lemma {:induction false} SetMaxWrite(ar: Arith, s: State, v: nat)
    requires (ar == EXACT || ar == MACHINE) && |s.pcs| > 0 && s.pcs[0] == SetMaxSaw(v, 0) && v <= INT_MAX
    ensures Next(ar, s, Event(0, Tick(true))) == s.Goto(0, Idle).(maxQubits := v)
  {
  }

  lemma {:induction false} NoThreads(ar: Arith, evs: seq<Event>)
    ensures Exec(ar, Start(0), evs) == Start(0)
  {
    if evs != [] { NoThreads(ar, evs[..|evs| - 1]); }
  }

  lemma {:induction false} SoleThreadBelowMax(evs: seq<Event>)
    ensures Exec(EXACT, Start(1), evs).allocatedQubits <= Exec(EXACT, Start(1), evs).maxQubits
  {
    var s := Exec(EXACT, Start(1), evs);
    SoleThreadKeepsQuota(evs);
    ExecInv(1, evs);
    assert ReqOf(s.pcs[0]).Some? ==> !BadRequest(ReqOf(s.pcs[0]).value.n);
  }

  // ---- the bound is reached ------------------------------------------------------

  predicate SetsNoMax(evs: seq<Event>) {
    forall i :: 0 <= i < |evs| ==> !evs[i].act.CallSetMax?
  }

  lemma {:induction false} BothSetNoMax(a: seq<Event>, b: seq<Event>)
    requires SetsNoMax(a) && SetsNoMax(b)
    ensures SetsNoMax(a + b)
  {
  }

  // Threads lo to hi-1 are past the test, the others idle, the lock free.
  function StagePcs(n: nat, lo: nat, hi: nat): (pcs: seq<Pc>)
    ensures |pcs| == n
  {
    seq(n, t => if lo <= t < hi then Passed(FULL) else Idle)
  }

  ghost predicate Stage(s: State, n: nat, lo: nat, hi: nat, a: int) {
    s.pcs == StagePcs(n, lo, hi) && s.lock.None? && s.allocatedQubits == a && s.maxQubits == QMEM_MAX_QUBITS
  }

  lemma {:induction false} NextStage(s: State, before: seq<Event>, more: seq<Event>, n: nat, lo: nat, hi: nat, a: int)
    requires Stage(Exec(EXACT, Exec(EXACT, s, before), more), n, lo, hi, a) && SetsNoMax(before) && SetsNoMax(more)
    ensures Stage(Exec(EXACT, s, before + more), n, lo, hi, a) && SetsNoMax(before + more)
  {
    FoldConcat(NextOf(EXACT), s, before, more);
    BothSetNoMax(before, more);
  }

  lemma {:induction false} FillOnce(s: State, n: nat, k: nat)
    requires n > 0 && k < 15 && Stage(s, n, 0, 0, 64 * k)
    ensures Stage(Exec(EXACT, s, AllocCall(0, FULL, false, true)), n, 0, 0, 64 * (k + 1))
  {
    AllocSteps(EXACT, s, 0, FULL, false, true);
    assert Exec(EXACT, s, AllocCall(0, FULL, false, true)) == Committed(EXACT, s, FULL);
  }

  // Thread 0 allocates k full blocks, one after the other.
  lemma {:induction false} FillStage(n: nat, k: nat) returns (evs: seq<Event>)
    requires n > 0 && k <= 15
    ensures Stage(Exec(EXACT, Start(n), evs), n, 0, 0, 64 * k) && SetsNoMax(evs)
  {
    if k == 0 {
      evs := [];
      assert Start(n).pcs == StagePcs(n, 0, 0);
    } else {
      var before := FillStage(n, k - 1);
      FillOnce(Exec(EXACT, Start(n), before), n, k - 1);
      NextStage(Start(n), before, AllocCall(0, FULL, false, true), n, 0, 0, 64 * k);
      evs := before + AllocCall(0, FULL, false, true);
    }
  }

  lemma {:induction false} PassOnce(s: State, n: nat, k: nat)
    requires k < n && Stage(s, n, 0, k, 64 * 15)
    ensures Stage(Exec(EXACT, s, CallEvents(k, CallAlloc(FULL, false), true, 1)), n, 0, k + 1, 64 * 15)
  {
    TestSteps(EXACT, s, k, FULL, false, true);
    assert s.pcs[k := Passed(FULL)] == StagePcs(n, 0, k + 1);
  }

  // Threads 0 to k-1 each get past the quota test.
  lemma {:induction false} PassStage(s: State, n: nat, k: nat) returns (evs: seq<Event>)
    requires Stage(s, n, 0, 0, 64 * 15) && k <= n
    ensures Stage(Exec(EXACT, s, evs), n, 0, k, 64 * 15) && SetsNoMax(evs)
  {
    if k == 0 {
      evs := [];
    } else {
      var before := PassStage(s, n, k - 1);
      var one := CallEvents(k - 1, CallAlloc(FULL, false), true, 1);
      PassOnce(Exec(EXACT, s, before), n, k - 1);
      NextStage(s, before, one, n, 0, k, 64 * 15);
      evs := before + one;
    }
  }

  lemma {:induction false} CommitOnce(s: State, n: nat, k: nat)
    requires k < n && Stage(s, n, k, n, 64 * (15 + k))
    ensures Stage(Exec(EXACT, s, Ticks(k, true, 6)), n, k + 1, n, 64 * (16 + k))
  {
    assert s.pcs[k := Passed(FULL)] == s.pcs;
    CommitSteps(EXACT, s, k, FULL, true);
    assert s.pcs[k := Idle] == StagePcs(n, k + 1, n);
  }

  // Threads 0 to k-1 each run their critical section.
  lemma {:induction false} CommitStage(s: State, n: nat, k: nat) returns (evs: seq<Event>)
    requires Stage(s, n, 0, n, 64 * 15) && k <= n
    ensures Stage(Exec(EXACT, s, evs), n, k, n, 64 * (15 + k)) && SetsNoMax(evs)
  {
    if k == 0 {
      evs := [];
    } else {
      var before := CommitStage(s, n, k - 1);
      CommitOnce(Exec(EXACT, s, before), n, k - 1);
      NextStage(s, before, Ticks(k - 1, true, 6), n, k, n, 64 * (15 + k));
      evs := before + Ticks(k - 1, true, 6);
    }
  }

  // A run that never changes the maximum, meets the bound exactly, and ends with every
  // call returned, so that the overshoot is not transient.
  ghost predicate MeetsBound(n: nat, evs: seq<Event>) {
    var s := Exec(EXACT, Start(n), evs);
    && MaxAtMost(EXACT, n, evs, QMEM_MAX_QUBITS)
    && s.allocatedQubits == QMEM_MAX_QUBITS + 64 * (n - 1)
    && s.maxQubits == QMEM_MAX_QUBITS
    && forall t :: 0 <= t < |s.pcs| ==> s.pcs[t].Idle?
  }

  // The bound is attained for every number of threads.
  lemma {:induction false} QuotaBoundReached(n: nat)
    requires n > 0
    ensures exists evs :: MeetsBound(n, evs)
  {
    var fill := FillStage(n, 15);
    var s1 := Exec(EXACT, Start(n), fill);
    var pass := PassStage(s1, n, n);
    var s2 := Exec(EXACT, s1, pass);
    var commit := CommitStage(s2, n, n);
    var evs := fill + pass + commit;
    FoldConcat(NextOf(EXACT), Start(n), fill, pass);
    FoldConcat(NextOf(EXACT), Start(n), fill + pass, commit);
    BothSetNoMax(fill, pass);
    BothSetNoMax(fill + pass, commit);
    MaxNeverSet(n, evs);
    MaxStays(n, evs);
    assert MeetsBound(n, evs);
  }

  lemma {:induction false} MaxNeverSet(n: nat, evs: seq<Event>)
    requires SetsNoMax(evs)
    ensures MaxAtMost(EXACT, n, evs, QMEM_MAX_QUBITS)
  {
    forall k | 0 <= k <= |evs| ensures Exec(EXACT, Start(n), evs[..k]).maxQubits <= QMEM_MAX_QUBITS {
      MaxStays(n, evs[..k]);
    }
  }

  lemma {:induction false} MaxStays(n: nat, evs: seq<Event>)
    requires SetsNoMax(evs)
    ensures var s := Exec(EXACT, Start(n), evs);
            s.maxQubits == QMEM_MAX_QUBITS && forall t :: 0 <= t < |s.pcs| ==> !s.pcs[t].SetMaxSaw?
  {
    if evs != [] {
      MaxStays(n, evs[..|evs| - 1]);
      MaxStaysNext(Exec(EXACT, Start(n), evs[..|evs| - 1]), evs[|evs| - 1]);
    }
  }

  lemma {:induction false} MaxStaysNext(s: State, e: Event)
    requires !e.act.CallSetMax? && forall t :: 0 <= t < |s.pcs| ==> !s.pcs[t].SetMaxSaw?
    ensures var s' := Next(EXACT, s, e);
            s'.maxQubits == s.maxQubits && forall t :: 0 <= t < |s'.pcs| ==> !s'.pcs[t].SetMaxSaw?
  {
    if e.t < |s.pcs| && e.act.Tick? {
      if s.pcs[e.t].In? { MaxStaysInside(s, e.t, e.act.ok); } else { MaxStaysOutside(s, e.t); }
    } else if e.t < |s.pcs| && s.pcs[e.t].Idle? {
      MaxStaysCall(s, e.t, e.act);
    }
  }

  lemma {:induction false} MaxStaysInside(s: State, t: nat, ok: bool)
    requires t < |s.pcs| && s.pcs[t].In?
    ensures var s' := Step(EXACT, s, t, ok);
            s'.maxQubits == s.maxQubits && !s'.pcs[t].SetMaxSaw? && s'.pcs == s.pcs[t := s'.pcs[t]]
  {
    InsideFlight(s, s.pcs[t].sec, ok);
  }

  lemma {:induction false} MaxStaysOutside(s: State, t: nat)
    requires t < |s.pcs| && !s.pcs[t].In? && !s.pcs[t].SetMaxSaw?
    ensures var s' := OutsideStep(EXACT, s, t);
            s'.maxQubits == s.maxQubits && !s'.pcs[t].SetMaxSaw? && s'.pcs == s.pcs[t := s'.pcs[t]]
  {
  }

  lemma {:induction false} MaxStaysCall(s: State, t: nat, act: Act)
    requires t < |s.pcs| && s.pcs[t].Idle? && !act.CallSetMax?
    ensures var s' := Call(s, t, act);
            s'.maxQubits == s.maxQubits && !s'.pcs[t].SetMaxSaw? && s'.pcs == s.pcs[t := s'.pcs[t]]
  {
  }
}
