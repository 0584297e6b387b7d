// The quantum-classical interface and error correction under any number of threads: two
// spinlocks, of which the second is taken with the first held, the buffer, the gate logs
// and the counters they protect, and the statistics, which take no lock. Each step of a
// thread is one lock operation, one gate or measurement call, one copy, or one counter access.
module NestedLocks {
  import opened CInt
  import opened ErrorCorrection
  import opened GateTrace
  import opened Runs
  import opened Sequences
  import opened Sums
  import QcInterface

  // A call, with what the gate and measurement calls it makes will return.
  datatype Call =
    | Convert(c: QcInterface.Call)
    | Measure(dataNull: bool, size: nat, results: nat -> int)
    | Control(gate: Kind, qubit: int, controlNull: bool, result: int, r: Round)
    | Apply(stateNull: bool, r: Round)

  // The argument tests before any lock is taken.
  predicate Rejects(call: Call) {
    match call
    case Convert(c) => !QcInterface.Valid(c)
    case Measure(dataNull, size, _) => dataNull || size > QcInterface.BUFFER_SIZE
    case Control(_, _, controlNull, _, _) => controlNull
    case Apply(stateNull, _) => stateNull
  }

  // What a call returns when nobody else is there.
  function Ret(call: Call): int {
    if Rejects(call) then -EINVAL
    else match call
      case Convert(c) => QcInterface.ConvertRet(c)
      case Measure(_, size, results) => RetOf(results, size)
      case Control(_, _, _, result, r) => if result < 0 then result else RoundRet(r)
      case Apply(_, r) => RoundRet(r)
  }

  datatype Pc =
    | Idle
    // under qc_interface.lock: wants it, is about to copy, has made k calls, is about to release it
    | QcWait(call: Call)
    | QcCopy(call: Call)
    | QcIn(call: Call, k: nat)
    | QcLeave(call: Call, ret: int)
    // under qec.lock: wants it, has made k syndrome calls, has incremented error_count, has
    // corrected, is about to release it; a controlled operation holds the other lock meanwhile
    | QecWait(call: Call)
    | QecIn(call: Call, k: nat)
    | QecCounted(call: Call)
    | QecFixed(call: Call)
    | QecLeave(call: Call, ret: int)
    // ctrlxt_qec_get_stats: error_count has been read; correction_count had that value then
    | Stats(errors: int, before: int)

  // One result of the statistics: the two values read, and what correction_count was
  // when error_count was read.
  datatype Reading = Reading(errors: int, before: int, after: int)

  // What the gate and measurement calls have seen, and the 32-bit counters: the first four
  // parts are protected by the outer lock, the others by the inner one. The last two count
  // the increments of `errors` and `corrections` without bound.
  datatype Shared = Shared(
    gates: seq<Gate>,
    conversions: int,
    measurements: int,
    controlled: seq<(Kind, int)>,
    calls: seq<QCall>,
    errors: int,
    corrections: int,
    measured: nat,
    corrected: nat)

  // `begun` lists all calls in the order they began, and `history` those whose effect is
  // complete, in the order it became so.
  datatype State = State(
    pcs: seq<Pc>,
    qcLock: Option<nat>,
    qecLock: Option<nat>,
    buffer: seq<Byte>,
    mem: Shared,
    begun: seq<Call>,
    history: seq<Call>,
    readings: seq<Reading>)
  {
    function Goto(t: nat, pc: Pc): State
      requires t < |pcs|
    {
      this.(pcs := pcs[t := pc])
    }
  }

  datatype Act = Begin(call: Call) | ReadStats | Tick

  datatype Event = Event(t: nat, act: Act)

  const NOTHING := Shared([], 0, 0, [], [], 0, 0, 0, 0)

  function Start(n: nat): State {
    State(seq(n, _ => Idle), None, None, seq(QcInterface.BUFFER_SIZE, _ => 0), NOTHING, [], [], [])
  }

  // The memcpy, and the gates the conversion loop reads off the buffer.
  function Copied(buffer: seq<Byte>, call: Call): seq<Byte> {
    if call.Convert? && call.c.data.Some? && |call.c.data.value| <= |buffer|
    then call.c.data.value + buffer[|call.c.data.value|..] else buffer
  }

  function Read(buffer: seq<Byte>, c: QcInterface.Call): seq<Gate> {
    if c.data.Some? && |c.data.value| <= |buffer| then TraceOf(LowBits(buffer[..|c.data.value|])) else []
  }

  // Steps that use what the locks protect, their control part: where the thread goes ...
  predicate Works(pc: Pc) {
    pc.QcIn? || pc.QecIn? || pc.QecCounted? || pc.QecFixed?
  }

  function ConvertPc(buffer: seq<Byte>, c: QcInterface.Call, k: nat): Pc {
    if k >= |Read(buffer, c)| then QcLeave(Convert(c), 0)
    else if c.results(k) < 0 then QcLeave(Convert(c), c.results(k))
    else QcIn(Convert(c), k + 1)
  }

  function QcPc(buffer: seq<Byte>, call: Call, k: nat): Pc {
    match call
    case Convert(c) => ConvertPc(buffer, c, k)
    case Measure(_, size, results) =>
      if k >= size then QcLeave(call, 0)
      else if results(k) < 0 then QcLeave(call, results(k))
      else QcIn(call, k + 1)
    case Control(_, _, _, result, _) => if result < 0 then QcLeave(call, result) else QecWait(call)
    case Apply(_, _) => QcIn(call, k)
  }

  function RoundOf(call: Call): Round {
    if call.Control? || call.Apply? then call.r else Round(_ => 0, 0)
  }

  function WorkPc(buffer: seq<Byte>, pc: Pc): Pc
    requires Works(pc)
  {
    match pc
    case QcIn(call, k) => QcPc(buffer, call, k)
    case QecIn(call, k) =>
      var results := RoundOf(call).results;
      if k >= SYNDROME_CALLS then QecCounted(call)
      else if results(k) < 0 then QecLeave(call, results(k))
      else QecIn(call, k + 1)
    case QecCounted(call) =>
      var results := RoundOf(call).results;
      if CorrectionFor(RoundOf(call).syndrome) != [] && results(SYNDROME_CALLS) < 0
      then QecLeave(call, results(SYNDROME_CALLS))
      else QecFixed(call)
    case QecFixed(call) => QecLeave(call, 0)
  }

  // ... and their effect: the call made, if it succeeds, or the counter incremented.
  function QcWork(buffer: seq<Byte>, call: Call, k: nat, m: Shared): Shared {
    match call
    case Convert(c) =>
      if k >= |Read(buffer, c)| then m.(conversions := Wrap32(m.conversions + 1))
      else if c.results(k) < 0 then m
      else m.(gates := m.gates + [Read(buffer, c)[k]])
    case Measure(_, size, _) => if k >= size then m.(measurements := Wrap32(m.measurements + 1)) else m
    case Control(gate, qubit, _, result, _) =>
      if result < 0 then m else m.(controlled := m.controlled + [(gate, qubit)])
    case Apply(_, _) => m
  }

  function Work(buffer: seq<Byte>, pc: Pc, m: Shared): Shared
    requires Works(pc)
  {
    match pc
    case QcIn(call, k) => QcWork(buffer, call, k, m)
    case QecIn(call, k) =>
      if k >= SYNDROME_CALLS then m.(errors := Wrap32(m.errors + 1), measured := m.measured + 1)
      else if RoundOf(call).results(k) < 0 then m
      else m.(calls := m.calls + [SyndromeCalls()[k]])
    case QecCounted(call) =>
      var fix := CorrectionFor(RoundOf(call).syndrome);
      if fix != [] && RoundOf(call).results(SYNDROME_CALLS) < 0 then m else m.(calls := m.calls + fix)
    case QecFixed(_) => m.(corrections := Wrap32(m.corrections + 1), corrected := m.corrected + 1)
  }

  // Begun, and its effect not yet complete.
  predicate Open(pc: Pc) {
    !pc.Idle? && !pc.QcLeave? && !pc.QecLeave? && !pc.Stats?
  }

  function WorkStep(s: State, t: nat): State
    requires t < |s.pcs| && Works(s.pcs[t])
  {
    var pc' := WorkPc(s.buffer, s.pcs[t]);
    s.Goto(t, pc').(mem := Work(s.buffer, s.pcs[t], s.mem),
                    history := if Open(pc') then s.history else s.history + [s.pcs[t].call])
  }

  // A thread's next step.
  function Step(s: State, t: nat): State
    requires t < |s.pcs|
  {
    if Works(s.pcs[t]) then WorkStep(s, t)
    else match s.pcs[t]
      case QcWait(call) =>
        if s.qcLock.Some? then s
        else s.Goto(t, if call.Convert? then QcCopy(call) else QcIn(call, 0)).(qcLock := Some(t))
      case QcCopy(call) => s.Goto(t, QcIn(call, 0)).(buffer := Copied(s.buffer, call))
      case QcLeave(_, _) => s.Goto(t, Idle).(qcLock := None)
      case QecWait(call) => if s.qecLock.None? then s.Goto(t, QecIn(call, 0)).(qecLock := Some(t)) else s
      case QecLeave(call, ret) => s.Goto(t, if call.Control? then QcLeave(call, ret) else Idle).(qecLock := None)
      case Stats(e, b) => s.Goto(t, Idle).(readings := s.readings + [Reading(e, b, s.mem.corrections)])
      case _ => s
  }

  // A call with a bad argument returns at once.
  function BeginCall(s: State, t: nat, call: Call): State
    requires t < |s.pcs|
  {
    if Rejects(call) then s.(begun := s.begun + [call], history := s.history + [call])
    else s.Goto(t, if call.Apply? then QecWait(call) else QcWait(call)).(begun := s.begun + [call])
  }

  function Next(s: State, e: Event): State {
    if e.t >= |s.pcs| then s
    else if e.act.Tick? then Step(s, e.t)
    else if !s.pcs[e.t].Idle? then s
    else if e.act.ReadStats? then s.Goto(e.t, Stats(s.mem.errors, s.mem.corrections))
    else BeginCall(s, e.t, e.act.call)
  }

  function Exec(s: State, evs: seq<Event>): State {
    Fold(Next, s, evs)
  }

  // ---- locks ---------------------------------------------------------------------------

  predicate HasQc(pc: Pc) {
    pc.QcCopy? || pc.QcIn? || pc.QcLeave? ||
    ((pc.QecWait? || pc.QecIn? || pc.QecCounted? || pc.QecFixed? || pc.QecLeave?) && pc.call.Control?)
  }

  predicate HasQec(pc: Pc) {
    pc.QecIn? || pc.QecCounted? || pc.QecFixed? || pc.QecLeave?
  }

  predicate Waits(pc: Pc) {
    pc.QcWait? || pc.QecWait?
  }

  ghost predicate HeldRight(pcs: seq<Pc>, lock: Option<nat>, has: Pc -> bool) {
    && (lock.Some? ==> lock.value < |pcs|)
    && (forall t :: 0 <= t < |pcs| ==> (has(pcs[t]) <==> lock == Some(t)))
  }

  ghost predicate LockInv(s: State) {
    HeldRight(s.pcs, s.qcLock, HasQc) && HeldRight(s.pcs, s.qecLock, HasQec)
  }

  // A thread can step unless the lock it waits for is held, or it is not in a call.
  predicate CanStep(s: State, e: Event) {
    e.act.Tick? && e.t < |s.pcs| && !s.pcs[e.t].Idle?
    && (s.pcs[e.t].QcWait? ==> s.qcLock.None?) && (s.pcs[e.t].QecWait? ==> s.qecLock.None?)
  }

  // What a step of thread t may do to a lock: keep it, take it when it is free, give it back.
  predicate Moves(pc: Pc, pc': Pc, lock: Option<nat>, lock': Option<nat>, t: nat, has: Pc -> bool) {
    if has(pc) == has(pc') then lock' == lock
    else if has(pc') then lock == None && lock' == Some(t)
    else lock' == None
  }

  lemma {:induction false} MoveKeepsHeld(pcs: seq<Pc>, t: nat, pc': Pc,
                                         lock: Option<nat>, lock': Option<nat>, has: Pc -> bool)
    requires HeldRight(pcs, lock, has) && t < |pcs| && Moves(pcs[t], pc', lock, lock', t, has)
    ensures HeldRight(pcs[t := pc'], lock', has)
  {
  }

  ghost predicate IsMove(s: State, s': State, t: nat)
    requires t < |s.pcs| == |s'.pcs|
  {
    && s'.pcs == s.pcs[t := s'.pcs[t]]
    && Moves(s.pcs[t], s'.pcs[t], s.qcLock, s'.qcLock, t, HasQc)
    && Moves(s.pcs[t], s'.pcs[t], s.qecLock, s'.qecLock, t, HasQec)
  }

  // Work goes on with the same call and neither takes nor gives back a lock.
  lemma {:induction false} WorkHolds(buffer: seq<Byte>, pc: Pc)
    requires Works(pc)
    ensures var pc' := WorkPc(buffer, pc);
            !pc'.Idle? && !pc'.Stats? && pc'.call == pc.call && HasQc(pc') == HasQc(pc) && HasQec(pc') == HasQec(pc)
  {
  }

  lemma {:induction false} StepMoves(s: State, t: nat)
    requires t < |s.pcs|
    ensures |Step(s, t).pcs| == |s.pcs| && IsMove(s, Step(s, t), t)
  {
    if Works(s.pcs[t]) { WorkHolds(s.buffer, s.pcs[t]); }
  }

  lemma {:induction false} NextMoves(s: State, e: Event)
    requires e.t < |s.pcs|
    ensures |Next(s, e).pcs| == |s.pcs| && IsMove(s, Next(s, e), e.t)
  {
    if e.act.Tick? { StepMoves(s, e.t); }
  }

  lemma {:induction false} NextLock(s: State, e: Event)
    requires LockInv(s)
    ensures LockInv(Next(s, e)) && |Next(s, e).pcs| == |s.pcs|
  {
    if e.t < |s.pcs| {
      var s' := Next(s, e);
      NextMoves(s, e);
      MoveKeepsHeld(s.pcs, e.t, s'.pcs[e.t], s.qcLock, s'.qcLock, HasQc);
      MoveKeepsHeld(s.pcs, e.t, s'.pcs[e.t], s.qecLock, s'.qecLock, HasQec);
    }
  }

  // ---- what each thread knows --------------------------------------------------------------

  // The calls made so far are among those the call may make, and a call about to return
  // returns what it would return alone.
  predicate PcOk(pc: Pc) {
    match pc
    case Idle => true
    case QcWait(call) => !Rejects(call) && !call.Apply?
    case QcCopy(call) => !Rejects(call) && call.Convert?
    case QcIn(call, k) => !Rejects(call) && QcInOk(call, k)
    case QcLeave(call, ret) => !Rejects(call) && !call.Apply? && ret == Ret(call)
    case QecWait(call) => Corrects(call)
    case QecIn(call, k) => Corrects(call) && k <= SYNDROME_CALLS && k <= Done(RoundOf(call))
    case QecCounted(call) => Corrects(call) && Measured(RoundOf(call))
    case QecFixed(call) => Corrects(call) && Corrected(RoundOf(call))
    case QecLeave(call, ret) => Corrects(call) && ret == Ret(call)
    case Stats(_, _) => true
  }

  // A call that reaches error correction.
  predicate Corrects(call: Call) {
    !Rejects(call) && (call.Apply? || (call.Control? && call.result >= 0))
  }

  predicate QcInOk(call: Call, k: nat) {
    match call
    case Convert(c) => k <= Accepted(c.results, |QcInterface.Wanted(c)|)
    case Measure(_, size, results) => k <= Accepted(results, size)
    case Control(_, _, _, _, _) => true
    case Apply(_, _) => false
  }

  ghost predicate PcInv(s: State) {
    forall t :: 0 <= t < |s.pcs| ==> PcOk(s.pcs[t])
  }

  // The buffer holds the data of the conversion that is reading it.
  ghost predicate BufferInv(s: State) {
    && |s.buffer| == QcInterface.BUFFER_SIZE
    && forall t :: 0 <= t < |s.pcs| ==> BufferOk(s.buffer, s.pcs[t])
  }

  predicate BufferOk(buffer: seq<Byte>, pc: Pc) {
    pc.QcIn? && pc.call.Convert? && QcInterface.Valid(pc.call.c) && |buffer| == QcInterface.BUFFER_SIZE ==>
      buffer[..|pc.call.c.data.value|] == pc.call.c.data.value
  }

  lemma {:induction false} ReadIsWanted(buffer: seq<Byte>, c: QcInterface.Call, k: nat)
    requires |buffer| == QcInterface.BUFFER_SIZE && QcInterface.Valid(c) && BufferOk(buffer, QcIn(Convert(c), k))
    ensures Read(buffer, c) == QcInterface.Wanted(c)
  {
  }

  ghost predicate Inv(s: State) {
    LockInv(s) && PcInv(s) && BufferInv(s)
  }

  lemma {:induction false} ConvertKeepsPc(buffer: seq<Byte>, c: QcInterface.Call, k: nat)
    requires PcOk(QcIn(Convert(c), k)) && Read(buffer, c) == QcInterface.Wanted(c)
    ensures PcOk(ConvertPc(buffer, c, k))
  {
  }

  lemma {:induction false} QcKeepsPc(buffer: seq<Byte>, call: Call, k: nat)
    requires PcOk(QcIn(call, k)) && |buffer| == QcInterface.BUFFER_SIZE && BufferOk(buffer, QcIn(call, k))
    ensures PcOk(QcPc(buffer, call, k))
  {
    if call.Convert? {
      ReadIsWanted(buffer, call.c, k);
      ConvertKeepsPc(buffer, call.c, k);
    }
  }

  // Where a round stands after k calls have gone through.
  lemma {:induction false} RoundPc(r: Round, k: nat)
    requires k <= SYNDROME_CALLS && k <= Done(r)
    ensures k < SYNDROME_CALLS ==>
              if r.results(k) < 0 then RoundRet(r) == r.results(k) && Done(r) == k else k + 1 <= Done(r)
    ensures k == SYNDROME_CALLS ==>
              if CorrectionFor(r.syndrome) != [] && r.results(k) < 0 then RoundRet(r) == r.results(k) && Done(r) == k
              else Corrected(r)
    ensures Corrected(r) ==> RoundRet(r) == 0
  {
  }

  lemma {:induction false} WorkKeepsPc(buffer: seq<Byte>, pc: Pc)
    requires Works(pc) && PcOk(pc) && |buffer| == QcInterface.BUFFER_SIZE && BufferOk(buffer, pc)
    ensures PcOk(WorkPc(buffer, pc))
  {
    if pc.QcIn? {
      QcKeepsPc(buffer, pc.call, pc.k);
    } else {
      RoundPc(RoundOf(pc.call), if pc.QecIn? then pc.k else SYNDROME_CALLS);
    }
  }

  lemma {:induction false} StepKeepsPc(s: State, t: nat)
    requires t < |s.pcs| && PcInv(s) && BufferInv(s)
    ensures PcOk(Step(s, t).pcs[t])
    ensures Step(s, t).buffer == if s.pcs[t].QcCopy? then Copied(s.buffer, s.pcs[t].call) else s.buffer
  {
    assert PcOk(s.pcs[t]) && BufferOk(s.buffer, s.pcs[t]);
    if Works(s.pcs[t]) { WorkKeepsPc(s.buffer, s.pcs[t]); }
  }

  lemma {:induction false} NextPc(s: State, e: Event)
    requires PcInv(s) && BufferInv(s)
    ensures PcInv(Next(s, e))
  {
    if e.t < |s.pcs| {
      NextMoves(s, e);
      if e.act.Tick? { StepKeepsPc(s, e.t); }
      assert PcOk(Next(s, e).pcs[e.t]);
    }
  }

  // Only the holder of the outer lock writes the buffer, and nobody else is reading it then.
  lemma {:induction false} NextBuffer(s: State, e: Event)
    requires Inv(s)
    ensures BufferInv(Next(s, e))
  {
    if e.t < |s.pcs| {
      var s' := Next(s, e);
      NextMoves(s, e);
      if e.act.Tick? { StepKeepsPc(s, e.t); StepReads(s, e.t); }
      forall t | 0 <= t < |s'.pcs| ensures BufferOk(s'.buffer, s'.pcs[t]) {
        assert BufferOk(s.buffer, s.pcs[t]);
        if t != e.t && s.pcs[t].QcIn? { assert HasQc(s.pcs[t]); }
      }
    }
  }

  lemma {:induction false} StepReads(s: State, t: nat)
    requires t < |s.pcs| && Inv(s)
    ensures BufferOk(Step(s, t).buffer, Step(s, t).pcs[t]) && |Step(s, t).buffer| == QcInterface.BUFFER_SIZE
  {
    var pc := s.pcs[t];
    assert PcOk(pc) && BufferOk(s.buffer, pc);
    StepKeepsPc(s, t);
    EntersReading(s, t);
  }

  lemma {:induction false} EntersReading(s: State, t: nat)
    requires t < |s.pcs|
    ensures var pc, pc' := s.pcs[t], Step(s, t).pcs[t];
            pc'.QcIn? && pc'.call.Convert? ==> (pc.QcCopy? || pc.QcIn?) && pc.call == pc'.call
  {
  }

  lemma {:induction false} NextInv(s: State, e: Event)
    requires Inv(s)
    ensures Inv(Next(s, e)) && |Next(s, e).pcs| == |s.pcs|
  {
    NextLock(s, e);
    NextPc(s, e);
    NextBuffer(s, e);
  }

  lemma {:induction false} StartInv(n: nat)
    ensures Inv(Start(n)) && |Start(n).pcs| == n
  {
  }

  lemma {:induction false} ExecInv(n: nat, evs: seq<Event>)
    ensures Inv(Exec(Start(n), evs)) && |Exec(Start(n), evs).pcs| == n
  {
    if evs == [] {
      StartInv(n);
    } else {
      ExecInv(n, evs[..|evs| - 1]);
      NextInv(Exec(Start(n), evs[..|evs| - 1]), evs[|evs| - 1]);
    }
  }

  // ---- no deadlock ---------------------------------------------------------------------------

  // Whatever the interleaving: each lock has the holder the program counters say, a
  // thread that is not in a call holds none, and if any call is unfinished then some
  // thread in a call can step. With the inner lock held its holder can; otherwise the
  // outer lock's holder can; otherwise everybody can.
  lemma {:induction false} DeadlockFree(n: nat, evs: seq<Event>)
    ensures var s := Exec(Start(n), evs);
            && (forall t :: 0 <= t < |s.pcs| && s.pcs[t].Idle? ==> s.qcLock != Some(t) && s.qecLock != Some(t))
            && (forall t :: 0 <= t < |s.pcs| && s.qecLock == Some(t) ==> !Waits(s.pcs[t]))
            && (forall t :: 0 <= t < |s.pcs| && s.pcs[t].QcWait? ==> s.qcLock != Some(t) && s.qecLock != Some(t))
    ensures var s := Exec(Start(n), evs);
            (exists t :: 0 <= t < |s.pcs| && !s.pcs[t].Idle?) ==> exists t: nat :: CanStep(s, Event(t, Tick))
  {
    ExecInv(n, evs);
    var s := Exec(Start(n), evs);
    if t :| 0 <= t < |s.pcs| && !s.pcs[t].Idle? {
      var u := if s.qecLock.Some? then s.qecLock.value else if s.qcLock.Some? then s.qcLock.value else t;
      assert CanStep(s, Event(u, Tick));
    }
  }

  // ---- every call comes to its end --------------------------------------------------------

  // Steps a call has left at most.
  function Left(pc: Pc): nat {
    match pc
    case Idle => 0
    case QcWait(call) => 2 + JobLeft(call, 0)
    case QcCopy(call) => 1 + JobLeft(call, 0)
    case QcIn(call, k) => JobLeft(call, k)
    case QcLeave(_, _) => 1
    case QecWait(_) => SYNDROME_CALLS + 6
    case QecIn(_, k) => if k <= SYNDROME_CALLS then SYNDROME_CALLS - k + 5 else 5
    case QecCounted(_) => 4
    case QecFixed(_) => 3
    case QecLeave(_, _) => 2
    case Stats(_, _) => 1
  }

  function JobLeft(call: Call, k: nat): nat {
    match call
    case Convert(c) => if k <= |QcInterface.Wanted(c)| then |QcInterface.Wanted(c)| - k + 2 else 2
    case Measure(_, size, _) => if k <= size then size - k + 2 else 2
    case Control(_, _, _, _, _) => SYNDROME_CALLS + 7
    case Apply(_, _) => 0
  }

  ghost function LeftW(): Pc -> int {
    (pc: Pc) => Left(pc)
  }

  ghost function TotalLeft(s: State): int {
    Sum(s.pcs, LeftW())
  }

  lemma {:induction false} StepLeft(s: State, t: nat)
    requires Inv(s) && CanStep(s, Event(t, Tick))
    ensures Left(Step(s, t).pcs[t]) < Left(s.pcs[t])
  {
    assert PcOk(s.pcs[t]) && BufferOk(s.buffer, s.pcs[t]);
    if Works(s.pcs[t]) { WorkLeft(s.buffer, s.pcs[t]); }
  }

  lemma {:induction false} QcLeft(buffer: seq<Byte>, call: Call, k: nat)
    requires PcOk(QcIn(call, k)) && BufferOk(buffer, QcIn(call, k)) && |buffer| == QcInterface.BUFFER_SIZE
    ensures Left(QcPc(buffer, call, k)) < JobLeft(call, k)
  {
    if call.Convert? { ReadIsWanted(buffer, call.c, k); }
  }

  lemma {:induction false} WorkLeft(buffer: seq<Byte>, pc: Pc)
    requires Works(pc) && PcOk(pc) && BufferOk(buffer, pc) && |buffer| == QcInterface.BUFFER_SIZE
    ensures Left(WorkPc(buffer, pc)) < Left(pc)
  {
    if pc.QcIn? { QcLeft(buffer, pc.call, pc.k); }
  }

  lemma {:induction false} StepProgress(s: State, t: nat)
    requires Inv(s) && CanStep(s, Event(t, Tick))
    ensures TotalLeft(Step(s, t)) < TotalLeft(s)
  {
    var s' := Step(s, t);
    SumUpdate(s.pcs, t, s'.pcs[t], LeftW());
    StepLeft(s, t);
    StepMoves(s, t);
  }

  // From any reachable state, whatever thread is picked each time, at most so many steps
  // can be taken; and where nobody can step any more, every call has returned and both
  // locks are free. So under every schedule all calls return.
  lemma {:induction false} CallsReturn(n: nat, evs: seq<Event>, more: seq<Event>)
    requires Effective(Next, CanStep, Exec(Start(n), evs), more)
    ensures var s := Exec(Start(n), evs);
            |more| + TotalLeft(Exec(s, more)) <= TotalLeft(s)
    ensures var s' := Exec(Exec(Start(n), evs), more);
            (forall t: nat :: !CanStep(s', Event(t, Tick))) ==>
              && s'.qcLock.None? && s'.qecLock.None?
              && (forall t :: 0 <= t < |s'.pcs| ==> s'.pcs[t].Idle?)
  {
    StepsBounded(n, evs, more);
    FoldConcat(Next, Start(n), evs, more);
    StuckIsIdle(n, evs + more);
  }

  lemma {:induction false} StepsBounded(n: nat, evs: seq<Event>, more: seq<Event>)
    requires Effective(Next, CanStep, Exec(Start(n), evs), more)
    ensures var s := Exec(Start(n), evs);
            |more| + TotalLeft(Exec(s, more)) <= TotalLeft(s)
  {
    ExecInv(n, evs);
    forall x, e | Inv(x) && CanStep(x, e) ensures Inv(Next(x, e)) && TotalLeft(Next(x, e)) < TotalLeft(x) {
      NextProgress(x, e);
    }
    RunsEnd(Next, CanStep, Inv, TotalLeft, Exec(Start(n), evs), more);
  }

  lemma {:induction false} NextProgress(s: State, e: Event)
    requires Inv(s) && CanStep(s, e)
    ensures Inv(Next(s, e)) && TotalLeft(Next(s, e)) < TotalLeft(s)
  {
    NextInv(s, e);
    StepProgress(s, e.t);
  }

  lemma {:induction false} StuckIsIdle(n: nat, evs: seq<Event>)
    ensures var s := Exec(Start(n), evs);
            (forall t: nat :: !CanStep(s, Event(t, Tick))) ==>
              && s.qcLock.None? && s.qecLock.None?
              && (forall t :: 0 <= t < |s.pcs| ==> s.pcs[t].Idle?)
  {
    DeadlockFree(n, evs);
    ExecInv(n, evs);
    var s := Exec(Start(n), evs);
    if s.qcLock.Some? { assert HasQc(s.pcs[s.qcLock.value]); }
    if s.qecLock.Some? { assert HasQec(s.pcs[s.qecLock.value]); }
  }
}
