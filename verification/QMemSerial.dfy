// Serializability of the quantum memory manager: under any interleaving the list and the
// counters are those of the committed operations one after the other, allocations and
// frees in the order they held the lock, gets and new maxima where they were written.
module QMemSerial {
  import opened CInt
  import opened Runs
  import opened QMemSpec
  import opened QMemThreads
  import opened QMemSolo
  import opened QMemMachine

  // What an operation past its tests does. The tests were made earlier, so an allocation
  // may take the counter past the maximum, and a new maximum may be below the counter.
  datatype Commit = CommitAlloc(req: Req) | CommitGet(b: Id) | CommitFree(b: Id) | CommitMax(v: nat)

  function Effect(q: QState, c: Commit): QState {
    match c
    case CommitAlloc(r) => Insert(EXACT, q, r.n, r.flags)
    case CommitGet(b) => if Listed(q, b) then Get(EXACT, q, b) else q
    case CommitFree(b) => if Listed(q, b) then Free(EXACT, q, b) else q
    case CommitMax(v) => q.(maxQubits := v)
  }

  // The operation is one a sequential client may ask for.
  predicate Legal(q: QState, c: Commit) {
    match c
    case CommitAlloc(r) => !BadRequest(r.n)
    case CommitGet(b) => Listed(q, b)
    case CommitFree(b) => Listed(q, b)
    case CommitMax(_) => true
  }

  // The operation an event commits: a section's first step, a get's increment, the write
  // of a maximum.
  function CommittedBy(s: State, e: Event): seq<Commit> {
    if e.t < |s.pcs| && e.act.Tick? then CommittedAt(s.pcs[e.t], e.act.ok) else []
  }

  function CommittedAt(pc: Pc, ok: bool): seq<Commit> {
    match pc
    case Getting(b) => [CommitGet(b)]
    case SetMaxSaw(v, a) => if v < a then [] else [CommitMax(v)]
    case In(AllocLocked(r)) => if ok then [CommitAlloc(r)] else []
    case In(FreeLocked(b)) => [CommitFree(b)]
    case _ => []
  }

  ghost function CommittedIn(s: State, evs: seq<Event>): seq<Commit> {
    if evs == [] then []
    else CommittedIn(s, evs[..|evs| - 1]) + CommittedBy(Exec(EXACT, s, evs[..|evs| - 1]), evs[|evs| - 1])
  }

  // The lock is taken and nothing has been done under it.
  predicate Waiting(sec: Sec) {
    sec.AllocLocked? || sec.FreeLocked?
  }

  function Rest(sec: Sec): Sec {
    if Waiting(sec) then Leaving else sec
  }

  // The list and counters once the lock holder has done what it is committed to.
  function Settled(s: State): QState {
    Abs(Finish(EXACT, s, Rest(Holder(s)), true))
  }

  lemma {:induction false} NothingToDo(s: State)
    requires Rest(Holder(s)) == Leaving
    ensures Settled(s) == Abs(s)
  {
    assert Finish(EXACT, s, Leaving, true) == s;
  }

  // ---- what a section does not look at -----------------------------------------------------------

  ghost predicate SameStore(s: State, s': State) {
    s' == s.(pcs := s'.pcs, lock := s'.lock, pool := s'.pool, maxQubits := s'.maxQubits)
  }

  lemma {:induction false} EffectFrame(s: State, s': State, sec: Sec)
    requires SameStore(s, s')
    ensures SectionNext(EXACT, s', sec, true) == SectionNext(EXACT, s, sec, true)
    ensures SameStore(SectionEffect(EXACT, s, sec, true), SectionEffect(EXACT, s', sec, true))
    ensures SectionEffect(EXACT, s', sec, true).maxQubits == s'.maxQubits
  {
  }

  lemma {:induction false} FinishFrame(s: State, s': State, sec: Sec)
    requires SameStore(s, s')
    ensures SameStore(Finish(EXACT, s, sec, true), Finish(EXACT, s', sec, true))
    ensures Finish(EXACT, s', sec, true).maxQubits == s'.maxQubits
    decreases StepsLeft(sec)
  {
    var pc := SectionNext(EXACT, s, sec, true);
    EffectFrame(s, s', sec);
    SectionEnds(EXACT, s, sec, true);
    if pc.In? { FinishFrame(SectionEffect(EXACT, s, sec, true), SectionEffect(EXACT, s', sec, true), pc.sec); }
  }

  lemma {:induction false} SettledFrame(s: State, s': State, sec: Sec)
    requires SameStore(s, s')
    ensures Abs(Finish(EXACT, s', sec, true)) == Abs(Finish(EXACT, s, sec, true)).(maxQubits := s'.maxQubits)
  {
    FinishFrame(s, s', sec);
  }

  lemma {:induction false} MaxStays(s: State, sec: Sec)
    ensures Finish(EXACT, s, sec, true).maxQubits == s.maxQubits
  {
    FinishFrame(s, s, sec);
  }

  // ---- a get while another thread is in its section ----------------------------------------------

  function Bumped(s: State, b: Id): State
    requires b in s.heap
  {
    s.(heap := s.heap[b := s.heap[b].(refs := s.heap[b].refs + 1)])
  }

  lemma {:induction false} EffectBumped(s: State, sec: Sec, b: Id)
    requires b in s.heap && !Waiting(sec) && (Freeing(sec) ==> sec.b != b)
    ensures SectionNext(EXACT, Bumped(s, b), sec, true) == SectionNext(EXACT, s, sec, true)
    ensures b in SectionEffect(EXACT, s, sec, true).heap
    ensures SectionEffect(EXACT, Bumped(s, b), sec, true) == Bumped(SectionEffect(EXACT, s, sec, true), b)
  {
    if Freeing(sec) { FreeBumped(s, sec, b); }
  }

  lemma {:induction false} FreeBumped(s: State, sec: Sec, b: Id)
    requires b in s.heap && Freeing(sec) && !Waiting(sec) && sec.b != b
    ensures b in SectionEffect(EXACT, s, sec, true).heap
    ensures SectionEffect(EXACT, Bumped(s, b), sec, true) == Bumped(SectionEffect(EXACT, s, sec, true), b)
  {
    if sec.FreeCounted? {
      LastBumped(s, sec.b, b);
    } else if sec.b in s.heap {
      EarlierBumped(s, sec, b);
    }
  }

  lemma {:induction false} LastBumped(s: State, c: Id, b: Id)
    requires b in s.heap && c != b
    ensures SectionEffect(EXACT, Bumped(s, b), FreeCounted(c), true) ==
            Bumped(SectionEffect(EXACT, s, FreeCounted(c), true), b)
  {
    var block := s.heap[b].(refs := s.heap[b].refs + 1);
    assert (s.heap - {c})[b := block] == s.heap[b := block] - {c};
  }

  lemma {:induction false} EarlierBumped(s: State, sec: Sec, b: Id)
    requires b in s.heap && Freeing(sec) && !Waiting(sec) && !sec.FreeCounted? && sec.b != b && sec.b in s.heap
    ensures b in FreeEffect(EXACT, s, sec).heap
    ensures FreeEffect(EXACT, Bumped(s, b), sec) == Bumped(FreeEffect(EXACT, s, sec), b)
  {
    assert Bumped(s, b).heap[sec.b] == s.heap[sec.b];
    assert FreeEffect(EXACT, s, sec).heap == s.heap;
  }

  lemma {:induction false} FinishBumped(s: State, sec: Sec, b: Id)
    requires b in s.heap && !Waiting(sec) && (Freeing(sec) ==> sec.b != b)
    ensures b in Finish(EXACT, s, sec, true).heap
    ensures Finish(EXACT, Bumped(s, b), sec, true) == Bumped(Finish(EXACT, s, sec, true), b)
    decreases StepsLeft(sec)
  {
    var pc := SectionNext(EXACT, s, sec, true);
    EffectBumped(s, sec, b);
    SectionEnds(EXACT, s, sec, true);
    if pc.In? {
      SectionBlock(s, sec);
      FinishBumped(SectionEffect(EXACT, s, sec, true), pc.sec, b);
    }
  }

  lemma {:induction false} SectionBlock(s: State, sec: Sec)
    requires !Waiting(sec) && SectionNext(EXACT, s, sec, true).In?
    ensures var sec' := SectionNext(EXACT, s, sec, true).sec;
            !Waiting(sec') && (Freeing(sec') ==> Freeing(sec) && sec'.b == sec.b)
  {
  }

  lemma {:induction false} FinishMem(s: State, sec: Sec)
    requires MemInv(s, sec) && !Waiting(sec)
    ensures ListInv(Finish(EXACT, s, sec, true), Leaving)
    decreases StepsLeft(sec)
  {
    var pc := SectionNext(EXACT, s, sec, true);
    SectionMem(s, sec, true);
    SectionEnds(EXACT, s, sec, true);
    if pc.In? {
      SectionBlock(s, sec);
      FinishMem(SectionEffect(EXACT, s, sec, true), pc.sec);
    }
  }

  // ---- one event -----------------------------------------------------------------------------------

  // What the event commits is legal, and has been applied to what was settled.
  ghost predicate Serial(s: State, s': State, done: seq<Commit>) {
    Settled(s') == Fold(Effect, Settled(s), done) && Effective(Effect, Legal, Settled(s), done)
  }

  lemma {:induction false} NoneDone(s: State, s': State)
    ensures Settled(s') == Settled(s) ==> Serial(s, s', [])
  {
  }

  lemma {:induction false} OneDone(s: State, s': State, c: Commit)
    ensures Settled(s') == Effect(Settled(s), c) && Legal(Settled(s), c) ==> Serial(s, s', [c])
  {
    FoldOne(Effect, Settled(s), c);
    assert [c][..0] == [];
  }

  lemma {:induction false} SameHolder(s: State, s': State)
    requires SameStore(s, s') && Rest(Holder(s')) == Rest(Holder(s))
    ensures Settled(s') == Settled(s).(maxQubits := s'.maxQubits)
    ensures s'.maxQubits == s.maxQubits ==> Settled(s') == Settled(s)
  {
    SettledFrame(s, s', Rest(Holder(s)));
    MaxStays(s, Rest(Holder(s)));
  }

  lemma {:induction false} CallSerial(s: State, t: nat, act: Act)
    requires LockInv(s) && ReqInv(s) && t < |s.pcs| && s.pcs[t].Idle?
    ensures Settled(Call(s, t, act)) == Settled(s)
  {
    CallControl(s, t, act);
    SameHolder(s, Call(s, t, act));
  }

  lemma {:induction false} AcquireSerial(s: State, t: nat)
    requires LockInv(s) && t < |s.pcs| && (s.pcs[t].FreeCalled? || s.pcs[t].Passed?)
    ensures Settled(OutsideStep(EXACT, s, t)) == Settled(s)
  {
    SameHolder(s, OutsideStep(EXACT, s, t));
  }

  // The reads, and the write of a maximum.
  lemma {:induction false} LocalSerial(s: State, t: nat, ok: bool)
    requires LockInv(s) && t < |s.pcs|
    requires !(s.pcs[t].In? || s.pcs[t].Getting? || s.pcs[t].FreeCalled? || s.pcs[t].Passed?)
    ensures Serial(s, OutsideStep(EXACT, s, t), CommittedAt(s.pcs[t], ok))
  {
    var s' := OutsideStep(EXACT, s, t);
    LocalStep(s, t);
    SameHolder(s, s');
    LocalMax(s, t, ok);
    NoneDone(s, s');
    if s.pcs[t].SetMaxSaw? { OneDone(s, s', CommitMax(s.pcs[t].v)); }
  }

  lemma {:induction false} LocalMax(s: State, t: nat, ok: bool)
    requires t < |s.pcs|
    requires !(s.pcs[t].In? || s.pcs[t].Getting? || s.pcs[t].FreeCalled? || s.pcs[t].Passed?)
    ensures var done, x := CommittedAt(s.pcs[t], ok), OutsideStep(EXACT, s, t).maxQubits;
            (done == [] && x == s.maxQubits) || (s.pcs[t].SetMaxSaw? && x == s.pcs[t].v && done == [CommitMax(x)])
  {
  }

  lemma {:induction false} GetSerial(s: State, t: nat, b: Id)
    requires Inv(s) && t < |s.pcs| && s.pcs[t] == Getting(b)
    ensures Settled(OutsideStep(EXACT, s, t)) == Effect(Settled(s), CommitGet(b)) && Listed(Settled(s), b)
  {
    HeldIsAlive(s, t, b);
    HolderStays(s, t);
    GetStores(s, OutsideStep(EXACT, s, t), t, b);
    BumpSerial(s, b);
  }

  lemma {:induction false} GetStores(s: State, s': State, t: nat, b: Id)
    requires t < |s.pcs| && s.pcs[t] == Getting(b) && b in s.heap
    requires s' == OutsideStep(EXACT, s, t) && Holder(s') == Holder(s)
    ensures Settled(s') == Settled(Bumped(s, b))
  {
    GetResult(s, t, b);
    SameHolder(Bumped(s, b), s');
  }

  lemma {:induction false} BumpSerial(s: State, b: Id)
    requires Inv(s) && b in s.heap && !Dying(Holder(s), b)
    ensures Settled(Bumped(s, b)) == Effect(Settled(s), CommitGet(b)) && Listed(Settled(s), b)
  {
    var sec := Rest(Holder(s));
    assert Holder(Bumped(s, b)) == Holder(s);
    RestMem(s, Holder(s));
    FinishBumped(s, sec, b);
    FinishMem(s, sec);
    BumpIsGet(Finish(EXACT, s, sec, true), b);
  }

  lemma {:induction false} RestMem(s: State, h: Sec)
    requires MemInv(s, h)
    ensures MemInv(s, Rest(h))
  {
    if Waiting(h) { UnlockedMem(s, h); }
  }

  lemma {:induction false} UnlockedMem(s: State, h: Sec)
    requires MemInv(s, h) && Waiting(h)
    ensures MemInv(s, Leaving)
  {
    UnlockedBlocks(s, h);
    UnlockedCounts(s, h);
  }

  lemma {:induction false} UnlockedBlocks(s: State, h: Sec)
    requires ListInv(s, h) && BlockInv(s, h) && Waiting(h)
    ensures ListInv(s, Leaving) && BlockInv(s, Leaving)
  {
  }

  lemma {:induction false} UnlockedCounts(s: State, h: Sec)
    requires FreedInv(s, h) && CountInv(s, h) && Waiting(h)
    ensures FreedInv(s, Leaving) && CountInv(s, Leaving)
  {
  }

  lemma {:induction false} BumpIsGet(s: State, b: Id)
    requires ListInv(s, Leaving) && b in s.heap
    ensures Abs(Bumped(s, b)) == Effect(Abs(s), CommitGet(b)) && Listed(Abs(s), b)
  {
    ListedIfHeap(s, b);
    CountedIsGet(EXACT, s, b);
  }

  // The holder's step: its first commits the operation, the others are settled already.
  lemma {:induction false} SectionSerial(s: State, s': State, t: nat, sec: Sec, ok: bool)
    requires Inv(s) && t < |s.pcs| && s.pcs[t] == In(sec) && s' == Step(EXACT, s, t, ok)
    ensures Serial(s, s', CommittedAt(In(sec), ok))
  {
    FirstCommits(sec, ok);
    assert sec == Holder(s);
    if sec.AllocLocked? {
      AllocCommits(s, s', t, sec.req, ok);
    } else if sec.FreeLocked? {
      FreeCommits(s, s', t, sec.b, ok);
    } else {
      RestCommits(s, s', t, sec, ok);
    }
  }

  lemma {:induction false} FirstCommits(sec: Sec, ok: bool)
    ensures CommittedAt(In(sec), ok) ==
            if sec.AllocLocked? then (if ok then [CommitAlloc(sec.req)] else [])
            else if sec.FreeLocked? then [CommitFree(sec.b)] else []
  {
  }

  lemma {:induction false} AllocCommits(s: State, s': State, t: nat, r: Req, ok: bool)
    requires Inv(s) && t < |s.pcs| && s.pcs[t] == In(AllocLocked(r)) && Holder(s) == AllocLocked(r)
    requires s' == Step(EXACT, s, t, ok)
    ensures Serial(s, s', if ok then [CommitAlloc(r)] else [])
  {
    AllocSerial(s, t, r, ok);
    if ok { OneDone(s, s', CommitAlloc(r)); } else { NoneDone(s, s'); }
  }

  lemma {:induction false} FreeCommits(s: State, s': State, t: nat, b: Id, ok: bool)
    requires Inv(s) && t < |s.pcs| && s.pcs[t] == In(FreeLocked(b)) && Holder(s) == FreeLocked(b)
    requires s' == Step(EXACT, s, t, ok)
    ensures Serial(s, s', [CommitFree(b)])
  {
    FreeSerial(s, t, b, ok);
    OneDone(s, s', CommitFree(b));
  }

  lemma {:induction false} RestCommits(s: State, s': State, t: nat, sec: Sec, ok: bool)
    requires LockInv(s) && t < |s.pcs| && s.pcs[t] == In(sec) && sec == Holder(s) && !Waiting(sec)
    requires s' == Step(EXACT, s, t, ok)
    ensures Serial(s, s', [])
  {
    RestSerial(s, t, sec, ok);
    NoneDone(s, s');
  }

  // What a step leaves settled, from the section's point of view.
  lemma {:induction false} StepSettles(s: State, t: nat, sec: Sec, ok: bool)
    requires LockInv(s) && t < |s.pcs| && s.pcs[t] == In(sec)
    ensures var s1 := SectionEffect(EXACT, s, sec, ok);
            Settled(Step(EXACT, s, t, ok)) == Abs(Finish(EXACT, s1, Rest(After(SectionNext(EXACT, s, sec, ok))), true))
  {
    var s1, s', h := SectionEffect(EXACT, s, sec, ok), Step(EXACT, s, t, ok), After(SectionNext(EXACT, s, sec, ok));
    assert Holder(s') == h;
    FinishIgnoresThreads(EXACT, s1, Rest(h), true, s'.pcs, s'.lock);
    SameAbs(Finish(EXACT, s1, Rest(h), true), s'.pcs, s'.lock);
  }

  lemma {:induction false} SameAbs(s: State, pcs: seq<Pc>, lock: Option<nat>)
    ensures Abs(s.(pcs := pcs, lock := lock)) == Abs(s)
  {
  }

  // Nothing after the first step depends on the kernel's answer.
  lemma {:induction false} RestGoesOn(s: State, sec: Sec, ok: bool)
    requires !Waiting(sec)
    ensures var s1, h := SectionEffect(EXACT, s, sec, ok), After(SectionNext(EXACT, s, sec, ok));
            !Waiting(h) && Finish(EXACT, s1, h, true) == Finish(EXACT, s, sec, true)
  {
    assert SectionEffect(EXACT, s, sec, ok) == SectionEffect(EXACT, s, sec, true);
    assert SectionNext(EXACT, s, sec, ok) == SectionNext(EXACT, s, sec, true);
  }

  lemma {:induction false} RestSerial(s: State, t: nat, sec: Sec, ok: bool)
    requires LockInv(s) && t < |s.pcs| && s.pcs[t] == In(sec) && sec == Holder(s) && !Waiting(sec)
    ensures Settled(Step(EXACT, s, t, ok)) == Settled(s)
  {
    StepSettles(s, t, sec, ok);
    RestGoesOn(s, sec, ok);
  }

  lemma {:induction false} AllocSerial(s: State, t: nat, r: Req, ok: bool)
    requires Inv(s) && t < |s.pcs| && s.pcs[t] == In(AllocLocked(r)) && Holder(s) == AllocLocked(r)
    ensures Settled(Step(EXACT, s, t, ok)) == if ok then Effect(Settled(s), CommitAlloc(r)) else Settled(s)
    ensures !BadRequest(r.n)
  {
    assert ReqOf(s.pcs[t]) == Some(r);
    NothingToDo(s);
    StepSettles(s, t, AllocLocked(r), ok);
    RestMem(s, AllocLocked(r));
    FirstOfAlloc(s, r, ok);
    if ok { CommittedIsInsert(EXACT, s, r); }
  }

  lemma {:induction false} FirstOfAlloc(s: State, r: Req, ok: bool)
    ensures var s1, h := SectionEffect(EXACT, s, AllocLocked(r), ok), After(SectionNext(EXACT, s, AllocLocked(r), ok));
            Finish(EXACT, s1, Rest(h), true) == if ok then Committed(EXACT, s, r) else s
  {
    AllocFinish(EXACT, s, r, ok);
    if !ok { assert Finish(EXACT, s, Leaving, true) == s; }
  }

  lemma {:induction false} FreeSerial(s: State, t: nat, b: Id, ok: bool)
    requires Inv(s) && t < |s.pcs| && s.pcs[t] == In(FreeLocked(b)) && Holder(s) == FreeLocked(b)
    ensures Settled(Step(EXACT, s, t, ok)) == Effect(Settled(s), CommitFree(b)) && Listed(Settled(s), b)
  {
    NothingToDo(s);
    StepSettles(s, t, FreeLocked(b), ok);
    RestMem(s, FreeLocked(b));
    ListedIfHeap(s, b);
    FirstOfFree(s, b, ok);
    DropIsFree(s, b);
  }

  lemma {:induction false} DropIsFree(s: State, b: Id)
    requires b in s.heap && b in s.used && Falling(s.used)
    requires Listed(Abs(s), b) && Find(Abs(s).blocks, b) == Position(s.used, b)
    ensures Abs(Dropped(EXACT, s, b)) == Effect(Abs(s), CommitFree(b))
  {
    DroppedIsFree(EXACT, s, b);
  }

  lemma {:induction false} FirstOfFree(s: State, b: Id, ok: bool)
    requires b in s.heap && b in s.used
    ensures var s1, h := SectionEffect(EXACT, s, FreeLocked(b), ok), After(SectionNext(EXACT, s, FreeLocked(b), ok));
            Abs(Finish(EXACT, s1, Rest(h), true)) == Abs(Dropped(EXACT, s, b))
  {
    var s0 := s.(pool := s.pool - multiset{b});
    FirstGoesOn(s, b, ok);
    FreeFinish(EXACT, s, b, true);
    SettledFrame(s, s0, FreeLocked(b));
    MaxStays(s, FreeLocked(b));
  }

  lemma {:induction false} FirstGoesOn(s: State, b: Id, ok: bool)
    ensures var s1, h := SectionEffect(EXACT, s, FreeLocked(b), ok), After(SectionNext(EXACT, s, FreeLocked(b), ok));
            Finish(EXACT, s1, Rest(h), true) == Finish(EXACT, s, FreeLocked(b), true)
  {
  }

  lemma {:induction false} NextSerial(s: State, e: Event)
    requires Inv(s)
    ensures Serial(s, Next(EXACT, s, e), CommittedBy(s, e))
  {
    NoneDone(s, Next(EXACT, s, e));
    if e.t < |s.pcs| && e.act.Tick? {
      if s.pcs[e.t].In? {
        SectionSerial(s, Next(EXACT, s, e), e.t, s.pcs[e.t].sec, e.act.ok);
      } else {
        OutsideSerial(s, e.t, e.act.ok);
      }
    } else if e.t < |s.pcs| && s.pcs[e.t].Idle? {
      CallSerial(s, e.t, e.act);
    }
  }

  lemma {:induction false} OutsideSerial(s: State, t: nat, ok: bool)
    requires Inv(s) && t < |s.pcs| && !s.pcs[t].In?
    ensures Serial(s, OutsideStep(EXACT, s, t), CommittedAt(s.pcs[t], ok))
  {
    var s' := OutsideStep(EXACT, s, t);
    if s.pcs[t].Getting? {
      GetSerial(s, t, s.pcs[t].b);
      OneDone(s, s', CommitGet(s.pcs[t].b));
    } else if s.pcs[t].FreeCalled? || s.pcs[t].Passed? {
      AcquireSerial(s, t);
      NoneDone(s, s');
    } else {
      LocalSerial(s, t, ok);
    }
  }

  // ---- whole runs ------------------------------------------------------------------------------------

  // The committed operations of a run, one after the other from initialization.
  ghost function InOrder(n: nat, evs: seq<Event>): QState {
    Fold(Effect, QMemSpec.Init(), CommittedIn(Start(n), evs))
  }

  // Each committed operation is legal when its turn comes, so it finds its block in the
  // list. In every reachable state the list and counters, with the lock holder's operation
  // completed, are those the committed operations leave one after the other; with the
  // lock free they are those themselves.
  lemma {:induction false} Serializable(n: nat, evs: seq<Event>)
    ensures Effective(Effect, Legal, QMemSpec.Init(), CommittedIn(Start(n), evs))
    ensures var s := Exec(EXACT, Start(n), evs);
            Settled(s) == InOrder(n, evs) && (s.lock.None? ==> Abs(s) == InOrder(n, evs))
  {
    var s := Exec(EXACT, Start(n), evs);
    if evs == [] {
      NothingToDo(s);
    } else {
      var before, e := evs[..|evs| - 1], evs[|evs| - 1];
      var s0 := Exec(EXACT, Start(n), before);
      Serializable(n, before);
      ExecInv(n, before);
      NextSerial(s0, e);
      EffectiveConcat(Effect, Legal, QMemSpec.Init(), CommittedIn(Start(n), before), CommittedBy(s0, e));
      FoldConcat(Effect, QMemSpec.Init(), CommittedIn(Start(n), before), CommittedBy(s0, e));
      if s.lock.None? { NothingToDo(s); }
    }
  }

  // The same of the machine, with the maxima within range and no block at 2^31 references
  // in the end or at more than 2^32 on the way.
  lemma {:induction false} MachineSerializable(n: nat, evs: seq<Event>, m: int)
    requires MaximaAtMost(n, evs, m) && AlwaysRefsAtMost(MACHINE, n, evs, MAX_REFS)
    requires RefsAtMost(Exec(MACHINE, Start(n), evs), INT_MAX)
    ensures var s := Exec(MACHINE, Start(n), evs);
            s.lock.None? ==> Abs(s) == InOrder(n, evs)
  {
    MachineIsExact(n, evs, m);
    Serializable(n, evs);
  }
}
