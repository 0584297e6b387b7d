// Every interleaving of the interface and error correction is a sequential run: what the
// locks protect is at all times what the completed calls, one after the other, and the
// steps so far of the two lock holders make of it.
module NestedSerial {
  import opened CInt
  import opened ErrorCorrection
  import opened GateTrace
  import opened NestedLocks
  import opened Runs
  import opened Sequences
  import opened Sums
  import QcInterface

  function One(b: bool): int {
    if b then 1 else 0
  }

  // ---- the sequential effect of a call, and of a history of calls -----------------------

  function RoundEffect(m: Shared, r: Round): Shared {
    m.(calls := m.calls + Made(r),
       errors := if Measured(r) then Wrap32(m.errors + 1) else m.errors,
       corrections := if Corrected(r) then Wrap32(m.corrections + 1) else m.corrections,
       measured := m.measured + if Measured(r) then 1 else 0,
       corrected := m.corrected + if Corrected(r) then 1 else 0)
  }

  function Effect(m: Shared, call: Call): Shared {
    if Rejects(call) then m
    else match call
      case Convert(c) =>
        m.(gates := m.gates + QcInterface.Emitted(c),
           conversions := if QcInterface.Completes(c) then Wrap32(m.conversions + 1) else m.conversions)
      case Measure(_, size, results) =>
        m.(measurements := if Accepted(results, size) == size then Wrap32(m.measurements + 1) else m.measurements)
      case Control(gate, qubit, _, result, r) =>
        if result < 0 then m else RoundEffect(m.(controlled := m.controlled + [(gate, qubit)]), r)
      case Apply(_, r) => RoundEffect(m, r)
  }

  function After(h: seq<Call>): Shared {
    Fold(Effect, NOTHING, h)
  }

  // ---- what an unfinished call has done so far -------------------------------------------

  function GatesSoFar(pc: Pc): seq<Gate> {
    if pc.QcIn? && pc.call.Convert? && pc.k <= |QcInterface.Wanted(pc.call.c)|
    then QcInterface.Wanted(pc.call.c)[..pc.k] else []
  }

  function ControlledSoFar(pc: Pc): seq<(Kind, int)> {
    if (pc.QecWait? || pc.QecIn? || pc.QecCounted? || pc.QecFixed?) && pc.call.Control?
    then [(pc.call.gate, pc.call.qubit)] else []
  }

  function CallsSoFar(pc: Pc): seq<QCall> {
    match pc
    case QecIn(_, k) => if k <= SYNDROME_CALLS then SyndromeCalls()[..k] else []
    case QecCounted(_) => SyndromeCalls()
    case QecFixed(call) => ApplyCalls(RoundOf(call).syndrome)
    case _ => []
  }

  // Between the two increments of an apply.
  predicate Between(pc: Pc) {
    pc.QecCounted? || pc.QecFixed?
  }

  function Plus<T(==)>(a: seq<T>, b: seq<T>): (c: seq<T>)
    ensures c == a + b
  {
    if b == [] then a else a + b
  }

  // What the holders of the outer and of the inner lock have added to m.
  function WithOuter(m: Shared, outer: Pc): Shared {
    m.(gates := Plus(m.gates, GatesSoFar(outer)), controlled := Plus(m.controlled, ControlledSoFar(outer)))
  }

  function WithInner(m: Shared, inner: Pc): Shared {
    m.(calls := Plus(m.calls, CallsSoFar(inner)),
       errors := if Between(inner) then Wrap32(m.errors + 1) else m.errors,
       measured := m.measured + if Between(inner) then 1 else 0)
  }

  function With(m: Shared, outer: Pc, inner: Pc): Shared {
    WithInner(WithOuter(m, outer), inner)
  }

  // The holder of a lock.
  function HolderOf(pcs: seq<Pc>, lock: Option<nat>): Pc {
    if lock.Some? && lock.value < |pcs| then pcs[lock.value] else Idle
  }

  // The shared memory is m with what the lock holders have added.
  ghost predicate Serial(s: State, m: Shared) {
    s.mem == With(m, HolderOf(s.pcs, s.qcLock), HolderOf(s.pcs, s.qecLock))
  }

  // ---- one step of work ---------------------------------------------------------------------

  lemma {:induction false} Plain<T>(s: seq<T>)
    ensures s + [] == s
  {
  }

  lemma {:induction false} Joined<T>(a: seq<T>, b: seq<T>, c: seq<T>)
    ensures (a + b) + c == a + (b + c)
  {
  }

  lemma {:induction false} OneMore<T>(a: seq<T>, b: seq<T>, k: nat)
    requires k < |b|
    ensures (a + b[..k]) + [b[k]] == a + b[..k + 1]
  {
  }

  // The history grows when the work completes the call.
  function Grown(m: Shared, pc': Pc, call: Call): Shared {
    if Open(pc') then m else Effect(m, call)
  }

  lemma {:induction false} ConvertWork(buffer: seq<Byte>, c: QcInterface.Call, k: nat, m: Shared)
    requires PcOk(QcIn(Convert(c), k)) && Read(buffer, c) == QcInterface.Wanted(c)
    ensures var pc, pc' := QcIn(Convert(c), k), ConvertPc(buffer, c, k);
            QcWork(buffer, Convert(c), k, WithOuter(m, pc)) == WithOuter(Grown(m, pc', Convert(c)), pc')
  {
    var want := QcInterface.Wanted(c);
    if k < |want| && c.results(k) >= 0 {
      OneMore(m.gates, want, k);
    } else {
      ConvertEnds(buffer, c, k, m);
    }
  }

  lemma {:induction false} ConvertEnds(buffer: seq<Byte>, c: QcInterface.Call, k: nat, m: Shared)
    requires QcInterface.Valid(c) && Read(buffer, c) == QcInterface.Wanted(c)
    requires k == Accepted(c.results, |QcInterface.Wanted(c)|)
    ensures QcWork(buffer, Convert(c), k, WithOuter(m, QcIn(Convert(c), k))) == Effect(m, Convert(c))
  {
    QcInterface.CompletesIff(c);
  }

  lemma {:induction false} MeasureWork(buffer: seq<Byte>, call: Call, k: nat, m: Shared)
    requires call.Measure? && PcOk(QcIn(call, k))
    ensures var pc, pc' := QcIn(call, k), QcPc(buffer, call, k);
            QcWork(buffer, call, k, WithOuter(m, pc)) == WithOuter(Grown(m, pc', call), pc')
  {
  }

  // A controlled gate that fails completes its call.
  lemma {:induction false} ControlWork(buffer: seq<Byte>, call: Call, k: nat, m: Shared)
    requires call.Control? && PcOk(QcIn(call, k))
    ensures var pc, pc' := QcIn(call, k), QcPc(buffer, call, k);
            QcWork(buffer, call, k, WithOuter(m, pc)) == WithOuter(Grown(m, pc', call), pc')
  {
    Plain(m.gates);
    Plain(m.controlled);
  }

  lemma {:induction false} QcInWork(buffer: seq<Byte>, call: Call, k: nat, m: Shared)
    requires PcOk(QcIn(call, k)) && |buffer| == QcInterface.BUFFER_SIZE && BufferOk(buffer, QcIn(call, k))
    ensures var pc, pc' := QcIn(call, k), QcPc(buffer, call, k);
            QcWork(buffer, call, k, WithOuter(m, pc)) == WithOuter(Grown(m, pc', call), pc')
  {
    match call
    case Convert(c) =>
      ReadIsWanted(buffer, c, k);
      ConvertWork(buffer, c, k, m);
    case Measure(_, _, _) => MeasureWork(buffer, call, k, m);
    case Control(_, _, _, _, _) => ControlWork(buffer, call, k, m);
  }

  // The other holder's part does not get in the way.
  lemma {:induction false} QcInSerial(buffer: seq<Byte>, call: Call, k: nat, m: Shared, inner: Pc)
    requires PcOk(QcIn(call, k)) && |buffer| == QcInterface.BUFFER_SIZE && BufferOk(buffer, QcIn(call, k))
    ensures var pc, pc' := QcIn(call, k), QcPc(buffer, call, k);
            QcWork(buffer, call, k, With(m, pc, inner)) == With(Grown(m, pc', call), pc', inner)
  {
    var pc, pc' := QcIn(call, k), QcPc(buffer, call, k);
    QcInWork(buffer, call, k, m);
    QcAside(buffer, call, k, WithOuter(m, pc), inner);
  }

  lemma {:induction false} QcAside(buffer: seq<Byte>, call: Call, k: nat, m: Shared, inner: Pc)
    ensures QcWork(buffer, call, k, WithInner(m, inner)) == WithInner(QcWork(buffer, call, k, m), inner)
  {
  }

  // Error correction: what the round adds when it completes.
  function RoundGrown(m: Shared, pc': Pc, r: Round): Shared {
    if Open(pc') then m else RoundEffect(m, r)
  }

  lemma {:induction false} SyndromeWork(buffer: seq<Byte>, call: Call, k: nat, m: Shared)
    requires PcOk(QecIn(call, k))
    ensures var pc, pc' := QecIn(call, k), WorkPc(buffer, QecIn(call, k));
            Work(buffer, pc, WithInner(m, pc)) == WithInner(RoundGrown(m, pc', call.r), pc')
  {
    RoundPc(call.r, k);
    if k == SYNDROME_CALLS {
      assert SyndromeCalls()[..k] == SyndromeCalls();
    } else if call.r.results(k) < 0 {
      assert Made(call.r) == SyndromeCalls()[..k];
      Plain(m.calls + Made(call.r));
    } else {
      OneMore(m.calls, SyndromeCalls(), k);
    }
  }

  lemma {:induction false} CountedWork(buffer: seq<Byte>, call: Call, m: Shared)
    requires PcOk(QecCounted(call))
    ensures var pc, pc' := QecCounted(call), WorkPc(buffer, QecCounted(call));
            Work(buffer, pc, WithInner(m, pc)) == WithInner(RoundGrown(m, pc', call.r), pc')
  {
    RoundPc(call.r, SYNDROME_CALLS);
    if CorrectionFor(call.r.syndrome) != [] && call.r.results(SYNDROME_CALLS) < 0 {
      assert Made(call.r) == SyndromeCalls()[..SYNDROME_CALLS] == SyndromeCalls();
      Plain(m.calls + Made(call.r));
    } else {
      Joined(m.calls, SyndromeCalls(), CorrectionFor(call.r.syndrome));
    }
  }

  lemma {:induction false} FixedWork(buffer: seq<Byte>, call: Call, m: Shared)
    requires PcOk(QecFixed(call))
    ensures var pc, pc' := QecFixed(call), WorkPc(buffer, QecFixed(call));
            Work(buffer, pc, WithInner(m, pc)) == WithInner(RoundGrown(m, pc', call.r), pc')
  {
    assert Made(call.r) == ApplyCalls(call.r.syndrome);
    Plain(m.calls + Made(call.r));
  }

  lemma {:induction false} RoundWork(buffer: seq<Byte>, pc: Pc, m: Shared)
    requires Works(pc) && HasQec(pc) && PcOk(pc)
    ensures var pc' := WorkPc(buffer, pc);
            Work(buffer, pc, WithInner(m, pc)) == WithInner(RoundGrown(m, pc', pc.call.r), pc')
  {
    match pc
    case QecIn(call, k) => SyndromeWork(buffer, call, k, m);
    case QecCounted(call) => CountedWork(buffer, call, m);
    case QecFixed(call) => FixedWork(buffer, call, m);
  }

  // A direct apply leaves the outer part to its holder; a controlled operation's gate is
  // in the history as soon as its round is complete.
  lemma {:induction false} OuterAside(m: Shared, outer: Pc, r: Round)
    ensures RoundEffect(WithOuter(m, outer), r) == WithOuter(RoundEffect(m, r), outer)
  {
  }

  lemma {:induction false} ControlRound(m: Shared, pc: Pc, pc': Pc)
    requires HasQec(pc) && !pc.QecLeave? && PcOk(pc) && pc.call.Control? && HasQec(pc') && pc'.call == pc.call
    ensures RoundGrown(WithOuter(m, pc), pc', pc.call.r) == WithOuter(Grown(m, pc', pc.call), pc')
  {
    Plain(m.gates);
    if !Open(pc') { Plain(m.controlled + [(pc.call.gate, pc.call.qubit)]); }
  }

  lemma {:induction false} ApplySerial(buffer: seq<Byte>, pc: Pc, m: Shared, outer: Pc)
    requires Works(pc) && HasQec(pc) && PcOk(pc) && pc.call.Apply?
    ensures Work(buffer, pc, With(m, outer, pc)) ==
            With(Grown(m, WorkPc(buffer, pc), pc.call), outer, WorkPc(buffer, pc))
  {
    RoundWork(buffer, pc, WithOuter(m, outer));
    OuterAside(m, outer, pc.call.r);
  }

  lemma {:induction false} ControlSerial(buffer: seq<Byte>, pc: Pc, m: Shared)
    requires Works(pc) && HasQec(pc) && PcOk(pc) && pc.call.Control?
    ensures Work(buffer, pc, With(m, pc, pc)) ==
            With(Grown(m, WorkPc(buffer, pc), pc.call), WorkPc(buffer, pc), WorkPc(buffer, pc))
  {
    RoundWork(buffer, pc, WithOuter(m, pc));
    WorkHolds(buffer, pc);
    ControlRound(m, pc, WorkPc(buffer, pc));
  }

  // ---- the invariant over runs -----------------------------------------------------------------

  // A thread's own program counter, if it holds the lock.
  function Held(pc: Pc, has: Pc -> bool): Pc {
    if has(pc) then pc else Idle
  }

  lemma {:induction false} HolderMoves(pcs: seq<Pc>, t: nat, pc': Pc,
                                       lock: Option<nat>, lock': Option<nat>, has: Pc -> bool)
    requires HeldRight(pcs, lock, has) && t < |pcs| && Moves(pcs[t], pc', lock, lock', t, has)
    ensures if has(pcs[t]) || has(pc') then
              HolderOf(pcs, lock) == Held(pcs[t], has) && HolderOf(pcs[t := pc'], lock') == Held(pc', has)
            else HolderOf(pcs[t := pc'], lock') == HolderOf(pcs, lock)
  {
  }

  // The call whose effect an event completes, if it does.
  function CompletedBy(s: State, e: Event): seq<Call> {
    if e.t >= |s.pcs| then []
    else if e.act.Tick? && Works(s.pcs[e.t]) && !Open(WorkPc(s.buffer, s.pcs[e.t])) then [s.pcs[e.t].call]
    else if e.act.Begin? && s.pcs[e.t].Idle? && Rejects(e.act.call) then [e.act.call]
    else []
  }

  lemma {:induction false} NextHistory(s: State, e: Event)
    ensures Next(s, e).history == s.history + CompletedBy(s, e)
  {
    Plain(s.history);
  }

  lemma {:induction false} WorkSerial(s: State, t: nat, m: Shared)
    requires Inv(s) && Serial(s, m) && t < |s.pcs| && Works(s.pcs[t])
    ensures Serial(Step(s, t), Grown(m, WorkPc(s.buffer, s.pcs[t]), s.pcs[t].call))
  {
    var pc, s' := s.pcs[t], Step(s, t);
    assert PcOk(pc) && BufferOk(s.buffer, pc);
    StepMoves(s, t);
    WorkHolds(s.buffer, pc);
    HolderMoves(s.pcs, t, s'.pcs[t], s.qcLock, s'.qcLock, HasQc);
    HolderMoves(s.pcs, t, s'.pcs[t], s.qecLock, s'.qecLock, HasQec);
    if pc.QcIn? {
      QcInSerial(s.buffer, pc.call, pc.k, m, HolderOf(s.pcs, s.qecLock));
    } else if pc.call.Apply? {
      ApplySerial(s.buffer, pc, m, HolderOf(s.pcs, s.qcLock));
    } else {
      ControlSerial(s.buffer, pc, m);
    }
  }

  // Taking and releasing locks, copying, and the statistics: nothing is gained or lost.
  lemma {:induction false} QuietStep(s: State, t: nat)
    requires t < |s.pcs| && PcOk(s.pcs[t]) && !Works(s.pcs[t])
    ensures Step(s, t).mem == s.mem && Step(s, t).history == s.history
    ensures var pc, pc' := s.pcs[t], Step(s, t).pcs[t];
            && GatesSoFar(Held(pc', HasQc)) == GatesSoFar(Held(pc, HasQc))
            && ControlledSoFar(Held(pc', HasQc)) == ControlledSoFar(Held(pc, HasQc))
            && CallsSoFar(Held(pc', HasQec)) == CallsSoFar(Held(pc, HasQec))
            && !Between(pc) && !Between(pc')
  {
  }

  lemma {:induction false} QuietSerial(s: State, t: nat, m: Shared)
    requires Inv(s) && Serial(s, m) && t < |s.pcs| && !Works(s.pcs[t])
    ensures Serial(Step(s, t), m)
  {
    var s' := Step(s, t);
    assert PcOk(s.pcs[t]);
    StepMoves(s, t);
    QuietStep(s, t);
    HolderMoves(s.pcs, t, s'.pcs[t], s.qcLock, s'.qcLock, HasQc);
    HolderMoves(s.pcs, t, s'.pcs[t], s.qecLock, s'.qecLock, HasQec);
  }

  lemma {:induction false} BeginSerial(s: State, t: nat, act: Act, m: Shared)
    requires Inv(s) && Serial(s, m) && t < |s.pcs| && s.pcs[t].Idle? && !act.Tick?
    ensures Serial(Next(s, Event(t, act)), m)
  {
    var s' := Next(s, Event(t, act));
    NextMoves(s, Event(t, act));
    HolderMoves(s.pcs, t, s'.pcs[t], s.qcLock, s'.qcLock, HasQc);
    HolderMoves(s.pcs, t, s'.pcs[t], s.qecLock, s'.qecLock, HasQec);
  }

  // The completed calls move on with the memory.
  lemma {:induction false} NextSerial(s: State, e: Event, m: Shared)
    requires Inv(s) && Serial(s, m)
    ensures Serial(Next(s, e), Fold(Effect, m, CompletedBy(s, e)))
  {
    if e.t < |s.pcs| && e.act.Tick? {
      if Works(s.pcs[e.t]) {
        WorkSerial(s, e.t, m);
        FoldOne(Effect, m, s.pcs[e.t].call);
      } else {
        QuietSerial(s, e.t, m);
      }
    } else if e.t < |s.pcs| && s.pcs[e.t].Idle? {
      BeginSerial(s, e.t, e.act, m);
      if e.act.Begin? && Rejects(e.act.call) { FoldOne(Effect, m, e.act.call); }
    }
  }

  // The calls completed during a run.
  ghost function CompletedIn(s: State, evs: seq<Event>): seq<Call> {
    if evs == [] then []
    else CompletedIn(s, evs[..|evs| - 1]) + CompletedBy(Exec(s, evs[..|evs| - 1]), evs[|evs| - 1])
  }

  lemma {:induction false} RunSerial(s: State, evs: seq<Event>, m: Shared)
    requires Inv(s) && Serial(s, m)
    ensures Inv(Exec(s, evs)) && Serial(Exec(s, evs), Fold(Effect, m, CompletedIn(s, evs)))
    ensures Exec(s, evs).history == s.history + CompletedIn(s, evs)
  {
    if evs == [] {
      Plain(s.history);
    } else {
      var before, e := evs[..|evs| - 1], evs[|evs| - 1];
      RunSerial(s, before, m);
      OneMoreEvent(Exec(s, before), e, CompletedIn(s, before), m);
      Joined(s.history, CompletedIn(s, before), CompletedBy(Exec(s, before), e));
    }
  }

  lemma {:induction false} OneMoreEvent(s: State, e: Event, done: seq<Call>, m: Shared)
    requires Inv(s) && Serial(s, Fold(Effect, m, done))
    ensures Inv(Next(s, e)) && Serial(Next(s, e), Fold(Effect, m, done + CompletedBy(s, e)))
    ensures Next(s, e).history == s.history + CompletedBy(s, e)
  {
    NextInv(s, e);
    NextHistory(s, e);
    NextSerial(s, e, Fold(Effect, m, done));
    FoldConcat(Effect, m, done, CompletedBy(s, e));
  }

  // With both locks free nothing has been added.
  lemma {:induction false} AtRest(s: State, m: Shared)
    requires s.qcLock.None? && s.qecLock.None?
    ensures Serial(s, m) <==> s.mem == m
  {
  }

  lemma {:induction false} ExecSerial(n: nat, evs: seq<Event>)
    ensures Serial(Exec(Start(n), evs), After(Exec(Start(n), evs).history))
  {
    StartSerial(n);
    RunSerial(Start(n), evs, NOTHING);
    FromNothing(Exec(Start(n), evs), CompletedIn(Start(n), evs));
  }

  lemma {:induction false} StartSerial(n: nat)
    ensures Inv(Start(n)) && Serial(Start(n), NOTHING)
  {
    AtRest(Start(n), NOTHING);
    StartInv(n);
  }

  lemma {:induction false} FromNothing(s: State, done: seq<Call>)
    requires s.history == [] + done && Serial(s, Fold(Effect, NOTHING, done))
    ensures Serial(s, After(s.history))
  {
    assert s.history == done;
  }

  // ---- the history, as the sequential objects count it -------------------------------------------

  function ConversionOf(call: Call): seq<QcInterface.Call> {
    if call.Convert? then [call.c] else []
  }

  function RoundsOf(call: Call): seq<Round> {
    if Corrects(call) then [call.r] else []
  }

  function Conversions(h: seq<Call>): seq<QcInterface.Call> {
    Collect(h, ConversionOf)
  }

  function Rounds(h: seq<Call>): seq<Round> {
    Collect(h, RoundsOf)
  }

  lemma {:induction false} HistorySnoc(h: seq<Call>, call: Call)
    ensures Conversions(h + [call]) == if call.Convert? then Conversions(h) + [call.c] else Conversions(h)
    ensures Rounds(h + [call]) == if Corrects(call) then Rounds(h) + [call.r] else Rounds(h)
  {
    CollectSnoc(h, call, ConversionOf);
    CollectSnoc(h, call, RoundsOf);
    Plain(Conversions(h));
    Plain(Rounds(h));
  }

  // What the conversions of a history have made of the gates and their counter, and its
  // rounds of the calls and the two counters.
  ghost predicate MatchesGates(m: Shared, cs: seq<QcInterface.Call>) {
    QcInterface.Reflects(m.gates, m.conversions, cs)
  }

  ghost predicate MatchesRounds(m: Shared, rs: seq<Round>) {
    && Tallies(m.calls, m.errors, m.corrections, rs)
    && m.measured == MeasuredIn(rs) && m.corrected == CorrectedIn(rs)
  }

  lemma {:induction false} EffectGates(m: Shared, cs: seq<QcInterface.Call>, call: Call)
    requires MatchesGates(m, cs)
    ensures MatchesGates(Effect(m, call), if call.Convert? then cs + [call.c] else cs)
  {
    if call.Convert? { ConvertGates(m, cs, call.c); } else { GatesStay(m, call); }
  }

  lemma {:induction false} ConvertGates(m: Shared, cs: seq<QcInterface.Call>, c: QcInterface.Call)
    requires MatchesGates(m, cs)
    ensures MatchesGates(Effect(m, Convert(c)), cs + [c])
  {
    QcInterface.ReflectsSnoc(m.gates, m.conversions, cs, c);
    Plain(m.gates);
  }

  lemma {:induction false} GatesStay(m: Shared, call: Call)
    requires !call.Convert?
    ensures Effect(m, call).gates == m.gates && Effect(m, call).conversions == m.conversions
  {
  }

  lemma {:induction false} RoundMatches(m: Shared, rs: seq<Round>, r: Round)
    requires MatchesRounds(m, rs)
    ensures MatchesRounds(RoundEffect(m, r), rs + [r])
  {
    var m' := RoundEffect(m, r);
    TalliesSnoc(m.calls, m.errors, m.corrections, rs, r, m'.errors, m'.corrections);
    RoundCounts(rs, r);
  }

  lemma {:induction false} RoundCounts(rs: seq<Round>, r: Round)
    ensures MeasuredIn(rs + [r]) == MeasuredIn(rs) + One(Measured(r))
    ensures CorrectedIn(rs + [r]) == CorrectedIn(rs) + One(Corrected(r))
  {
    CountSnoc(rs, r, Measured);
    CountSnoc(rs, r, Corrected);
  }

  lemma {:induction false} EffectRounds(m: Shared, rs: seq<Round>, call: Call)
    requires MatchesRounds(m, rs)
    ensures MatchesRounds(Effect(m, call), if Corrects(call) then rs + [call.r] else rs)
  {
    if Corrects(call) {
      RoundMatches(if call.Control? then m.(controlled := m.controlled + [(call.gate, call.qubit)]) else m, rs, call.r);
    }
  }

  lemma {:induction false} AfterMatches(h: seq<Call>)
    ensures MatchesGates(After(h), Conversions(h)) && MatchesRounds(After(h), Rounds(h))
  {
    if h != [] {
      var before, call := h[..|h| - 1], h[|h| - 1];
      AfterMatches(before);
      assert before + [call] == h;
      AfterLast(before, call);
      OneMoreCall(After(before), After(h), before, h, call);
    }
  }

  lemma {:induction false} AfterLast(h: seq<Call>, call: Call)
    ensures After(h + [call]) == Effect(After(h), call)
  {
    FoldSnoc(Effect, NOTHING, h, call);
  }

  lemma {:induction false} OneMoreCall(m: Shared, m': Shared, h: seq<Call>, h': seq<Call>, call: Call)
    requires MatchesGates(m, Conversions(h)) && MatchesRounds(m, Rounds(h))
    requires m' == Effect(m, call) && h' == h + [call]
    ensures MatchesGates(m', Conversions(h')) && MatchesRounds(m', Rounds(h'))
  {
    HistorySnoc(h, call);
    EffectGates(m, Conversions(h), call);
    EffectRounds(m, Rounds(h), call);
  }

  predicate Measures(call: Call) {
    call.Measure? && !Rejects(call) && Accepted(call.results, call.size) == call.size
  }

  lemma {:induction false} AfterMeasures(h: seq<Call>)
    ensures After(h).measurements == Wrap32(Count(h, Measures))
  {
    if h != [] {
      var before, call := h[..|h| - 1], h[|h| - 1];
      AfterMeasures(before);
      assert before + [call] == h;
      CounterFollows(before, call, Measures, After(before).measurements);
    }
  }

  // ---- what every reachable state satisfies --------------------------------------------------

  // Over all interleavings: the gates, in the order the device has seen them, are those each
  // completed conversion got through, one conversion after the other, and then a prefix of
  // the one in progress; likewise for the controlled gates and for the calls of error
  // correction. With both locks free everything they protect is what the completed calls
  // make of it one after the other, and what the sequential objects hold after them. A call
  // about to return returns what it would return alone.
  lemma {:induction false} Serializable(n: nat, evs: seq<Event>)
    ensures var s := Exec(Start(n), evs);
            && s.mem.gates == QcInterface.Gates(Conversions(s.history)) + GatesSoFar(HolderOf(s.pcs, s.qcLock))
            && s.mem.controlled == After(s.history).controlled + ControlledSoFar(HolderOf(s.pcs, s.qcLock))
            && s.mem.calls == Collect(Rounds(s.history), Made) + CallsSoFar(HolderOf(s.pcs, s.qecLock))
    ensures var s := Exec(Start(n), evs);
            s.qcLock.None? && s.qecLock.None? ==>
              && s.mem == After(s.history)
              && QcInterface.Reflects(s.mem.gates, s.mem.conversions, Conversions(s.history))
              && Tallies(s.mem.calls, s.mem.errors, s.mem.corrections, Rounds(s.history))
    ensures var s := Exec(Start(n), evs);
            forall t :: 0 <= t < |s.pcs| && (s.pcs[t].QcLeave? || s.pcs[t].QecLeave?) ==>
              s.pcs[t].ret == Ret(s.pcs[t].call)
  {
    ExecSerial(n, evs);
    SerialParts(Exec(Start(n), evs), After(Exec(Start(n), evs).history));
    AfterMatches(Exec(Start(n), evs).history);
    Returns(n, evs);
  }

  lemma {:induction false} SerialParts(s: State, m: Shared)
    requires Serial(s, m)
    ensures s.mem.gates == m.gates + GatesSoFar(HolderOf(s.pcs, s.qcLock))
    ensures s.mem.controlled == m.controlled + ControlledSoFar(HolderOf(s.pcs, s.qcLock))
    ensures s.mem.calls == m.calls + CallsSoFar(HolderOf(s.pcs, s.qecLock))
    ensures var between := Between(HolderOf(s.pcs, s.qecLock));
            && s.mem.errors == (if between then Wrap32(m.errors + 1) else m.errors)
            && s.mem.measured == m.measured + One(between) && s.mem.corrected == m.corrected
    ensures s.mem.conversions == m.conversions && s.mem.measurements == m.measurements
       && s.mem.corrections == m.corrections
    ensures s.qcLock.None? && s.qecLock.None? ==> s.mem == m
  {
  }

  lemma {:induction false} Returns(n: nat, evs: seq<Event>)
    ensures var s := Exec(Start(n), evs);
            forall t :: 0 <= t < |s.pcs| && (s.pcs[t].QcLeave? || s.pcs[t].QecLeave?) ==>
              s.pcs[t].ret == Ret(s.pcs[t].call)
  {
    var s := Exec(Start(n), evs);
    ExecInv(n, evs);
    forall t | 0 <= t < |s.pcs| && (s.pcs[t].QcLeave? || s.pcs[t].QecLeave?)
      ensures s.pcs[t].ret == Ret(s.pcs[t].call) {
      assert PcOk(s.pcs[t]);
    }
  }

  // Over all interleavings: the rounds measured less those corrected are the rounds that
  // failed after their measurement, plus one if a thread is between the two increments; only
  // the lock holder can be there. Each 32-bit counter holds, at all times, the number of
  // increments modulo 2^32, so their difference is that number as long as it fits an int,
  // and is that number outright while the rounds measured fit one.
  lemma {:induction false} CorrectionAccounting(n: nat, evs: seq<Event>)
    ensures var s := Exec(Start(n), evs);
            && s.mem.measured - s.mem.corrected ==
               FailedLateIn(Rounds(s.history)) + One(Between(HolderOf(s.pcs, s.qecLock)))
            && (forall t :: 0 <= t < |s.pcs| && Between(s.pcs[t]) ==> s.qecLock == Some(t))
            && s.mem.corrected == CorrectedIn(Rounds(s.history)) <= s.mem.measured
            && s.mem.errors == Wrap32(s.mem.measured) && s.mem.corrections == Wrap32(s.mem.corrected)
            && Wrap32(s.mem.errors - s.mem.corrections) == Wrap32(s.mem.measured - s.mem.corrected)
            && (s.mem.measured <= INT_MAX ==> s.mem.errors == s.mem.measured && s.mem.corrections == s.mem.corrected)
    ensures var s := Exec(Start(n), evs);
            && s.mem.conversions == Wrap32(QcInterface.Completed(Conversions(s.history)))
            && s.mem.measurements == Wrap32(Count(s.history, Measures))
  {
    var s := Exec(Start(n), evs);
    CellsCount(n, evs);
    OuterCounts(n, evs);
    MeasuredSplits(Rounds(s.history));
    OnlyHolderBetween(n, evs);
    WrapMinus(s.mem.measured, s.mem.corrected);
  }

  lemma {:induction false} CellsCount(n: nat, evs: seq<Event>)
    ensures var s := Exec(Start(n), evs);
            && s.mem.measured == MeasuredIn(Rounds(s.history)) + One(Between(HolderOf(s.pcs, s.qecLock)))
            && s.mem.corrected == CorrectedIn(Rounds(s.history))
            && s.mem.errors == Wrap32(s.mem.measured) && s.mem.corrections == Wrap32(s.mem.corrected)
  {
    var s := Exec(Start(n), evs);
    ExecSerial(n, evs);
    AfterMatches(s.history);
    CellsWrap(s, After(s.history), Rounds(s.history));
  }

  lemma {:induction false} OuterCounts(n: nat, evs: seq<Event>)
    ensures var s := Exec(Start(n), evs);
            && s.mem.conversions == Wrap32(QcInterface.Completed(Conversions(s.history)))
            && s.mem.measurements == Wrap32(Count(s.history, Measures))
  {
    var s := Exec(Start(n), evs);
    ExecSerial(n, evs);
    SerialParts(s, After(s.history));
    AfterMatches(s.history);
    AfterMeasures(s.history);
  }

  lemma {:induction false} CellsWrap(s: State, m: Shared, rs: seq<Round>)
    requires Serial(s, m) && MatchesRounds(m, rs)
    ensures s.mem.measured == MeasuredIn(rs) + One(Between(HolderOf(s.pcs, s.qecLock)))
    ensures s.mem.corrected == CorrectedIn(rs)
    ensures s.mem.errors == Wrap32(s.mem.measured) && s.mem.corrections == Wrap32(s.mem.corrected)
  {
    SerialParts(s, m);
    WrapStep(MeasuredIn(rs), 1);
  }

  lemma {:induction false} OnlyHolderBetween(n: nat, evs: seq<Event>)
    ensures var s := Exec(Start(n), evs);
            forall t :: 0 <= t < |s.pcs| && Between(s.pcs[t]) ==> s.qecLock == Some(t)
  {
    var s := Exec(Start(n), evs);
    ExecInv(n, evs);
    forall t | 0 <= t < |s.pcs| && Between(s.pcs[t]) ensures s.qecLock == Some(t) {
      assert HasQec(s.pcs[t]);
    }
  }

  // ---- every call is in the history once -----------------------------------------------------

  // The calls of the threads whose effect is not yet complete.
  ghost function OpenCalls(pcs: seq<Pc>): multiset<Call> {
    if pcs == [] then multiset{} else OpenCall(pcs[0]) + OpenCalls(pcs[1..])
  }

  ghost function OpenCall(pc: Pc): multiset<Call> {
    if Open(pc) then multiset{pc.call} else multiset{}
  }

  lemma {:induction false} OpenUpdate(pcs: seq<Pc>, t: nat, pc: Pc)
    requires t < |pcs|
    ensures OpenCalls(pcs[t := pc]) + OpenCall(pcs[t]) == OpenCalls(pcs) + OpenCall(pc)
  {
    var now := pcs[t := pc];
    assert OpenCalls(now) == OpenCall(now[0]) + OpenCalls(now[1..]);
    assert OpenCalls(pcs) == OpenCall(pcs[0]) + OpenCalls(pcs[1..]);
    if t == 0 {
      assert now[1..] == pcs[1..];
      Exchanged(OpenCall(pc), OpenCalls(pcs[1..]), OpenCall(pcs[0]));
    } else {
      assert now[1..] == pcs[1..][t - 1 := pc];
      OpenUpdate(pcs[1..], t - 1, pc);
      Alongside(OpenCall(pcs[0]), OpenCalls(now[1..]), OpenCall(pcs[t]), OpenCalls(pcs[1..]), OpenCall(pc));
    }
  }

  lemma {:induction false} Exchanged<T>(a: multiset<T>, r: multiset<T>, b: multiset<T>)
    ensures (a + r) + b == (b + r) + a
  {
  }

  lemma {:induction false} Alongside<T>(a: multiset<T>, o': multiset<T>,
                                    x: multiset<T>, o: multiset<T>, x': multiset<T>)
    requires o' + x == o + x'
    ensures (a + o') + x == (a + o) + x'
  {
    assert (a + o') + x == a + (o' + x) && (a + o) + x' == a + (o + x');
  }

  predicate HasCall(pc: Pc) {
    !pc.Idle? && !pc.Stats?
  }

  // A step of a call completes it at most once, and goes on with no other call.
  lemma {:induction false} StepCompletes(s: State, t: nat)
    requires t < |s.pcs| && HasCall(s.pcs[t])
    ensures var s', call := Step(s, t), s.pcs[t].call;
            && s'.history == (if Open(s.pcs[t]) && !Open(s'.pcs[t]) then s.history + [call] else s.history)
            && (Open(s'.pcs[t]) ==> Open(s.pcs[t]))
            && !s'.pcs[t].Stats? && (HasCall(s'.pcs[t]) ==> s'.pcs[t].call == call)
            && (Open(s.pcs[t]) ==> HasCall(s'.pcs[t]))
            && s'.readings == s.readings && s'.begun == s.begun
  {
    if Works(s.pcs[t]) { WorkHolds(s.buffer, s.pcs[t]); }
  }

  ghost predicate OnceInv(s: State) {
    multiset(s.begun) == multiset(s.history) + OpenCalls(s.pcs)
  }

  lemma {:induction false} NextOnce(s: State, e: Event)
    requires OnceInv(s)
    ensures OnceInv(Next(s, e))
  {
    if e.t < |s.pcs| && e.act.Tick? {
      TickOnce(s, e.t);
      Shifted(s, Step(s, e.t), e.t, multiset{});
    } else if e.t < |s.pcs| && s.pcs[e.t].Idle? {
      if e.act.Begin? {
        BeginOnce(s, e.t, e.act.call);
        Shifted(s, BeginCall(s, e.t, e.act.call), e.t, multiset{e.act.call});
      } else {
        Shifted(s, s.Goto(e.t, Stats(s.mem.errors, s.mem.corrections)), e.t, multiset{});
      }
    }
  }

  lemma {:induction false} Shifted(s: State, s': State, t: nat, added: multiset<Call>)
    requires OnceInv(s) && t < |s.pcs| == |s'.pcs| && s'.pcs == s.pcs[t := s'.pcs[t]]
    requires multiset(s'.begun) == multiset(s.begun) + added
    requires multiset(s'.history) + OpenCall(s'.pcs[t]) == multiset(s.history) + OpenCall(s.pcs[t]) + added
    ensures OnceInv(s')
  {
    OpenUpdate(s.pcs, t, s'.pcs[t]);
    Balance(multiset(s.history), OpenCalls(s.pcs), multiset(s'.history), OpenCalls(s'.pcs),
            OpenCall(s.pcs[t]), OpenCall(s'.pcs[t]), added);
  }

  // What moves between the parts of a sum does not change it.
  lemma {:induction false} Balance<T>(h: multiset<T>, o: multiset<T>, h': multiset<T>, o': multiset<T>,
                                      x: multiset<T>, x': multiset<T>, added: multiset<T>)
    requires h' + x' == h + x + added && o' + x == o + x'
    ensures h' + o' == h + o + added
  {
    forall e: T ensures (h' + o')[e] == (h + o + added)[e] {
      assert (h' + x')[e] == (h + x + added)[e] && (o' + x)[e] == (o + x')[e];
    }
  }

  // A step moves a call from the open ones to the history, or neither.
  lemma {:induction false} TickOnce(s: State, t: nat)
    requires t < |s.pcs|
    ensures var s' := Step(s, t);
            && |s'.pcs| == |s.pcs| && s'.pcs == s.pcs[t := s'.pcs[t]] && s'.begun == s.begun
            && multiset(s'.history) + OpenCall(s'.pcs[t]) == multiset(s.history) + OpenCall(s.pcs[t])
  {
    StepMoves(s, t);
    if HasCall(s.pcs[t]) { StepCompletes(s, t); }
  }

  lemma {:induction false} BeginOnce(s: State, t: nat, call: Call)
    requires t < |s.pcs| && s.pcs[t].Idle?
    ensures var s' := BeginCall(s, t, call);
            && |s'.pcs| == |s.pcs| && s'.pcs == s.pcs[t := s'.pcs[t]]
            && multiset(s'.begun) == multiset(s.begun) + multiset{call}
            && multiset(s'.history) + OpenCall(s'.pcs[t]) == multiset(s.history) + multiset{call}
  {
    assert s.pcs[t := s.pcs[t]] == s.pcs;
  }

  // No call is lost, invented or takes effect twice: the calls begun are those in the
  // history and those of the threads whose call is still open.
  lemma {:induction false} EveryCallOnce(n: nat, evs: seq<Event>)
    ensures var s := Exec(Start(n), evs);
            multiset(s.begun) == multiset(s.history) + OpenCalls(s.pcs)
  {
    if evs == [] {
      NoneOpen(Start(n).pcs);
    } else {
      EveryCallOnce(n, evs[..|evs| - 1]);
      NextOnce(Exec(Start(n), evs[..|evs| - 1]), evs[|evs| - 1]);
    }
  }

  lemma {:induction false} NoneOpen(pcs: seq<Pc>)
    requires forall t :: 0 <= t < |pcs| ==> pcs[t].Idle?
    ensures OpenCalls(pcs) == multiset{}
  {
    if pcs != [] { NoneOpen(pcs[1..]); }
  }

  // ---- a call nobody interrupts ----------------------------------------------------------------

  function SoloCallEvents(t: nat, call: Call): seq<Event> {
    [Event(t, Begin(call))] + Repeat(Event(t, Tick), if call.Apply? then Left(QecWait(call)) else Left(QcWait(call)))
  }

  predicate FreeFor(lock: Option<nat>, t: nat) {
    lock.None? || lock == Some(t)
  }

  lemma {:induction false} IdleTicks(s: State, t: nat, k: nat)
    requires t < |s.pcs| && s.pcs[t].Idle?
    ensures Exec(s, Repeat(Event(t, Tick), k)) == s
    decreases k
  {
    FoldRepeat(Next, s, Event(t, Tick), k);
    if k > 0 { IdleTicks(s, t, k - 1); }
  }

  // Steps of one thread, with no lock in its way, bring its call to its end.
  lemma {:induction false} SoloTicks(s: State, t: nat, k: nat)
    requires Inv(s) && t < |s.pcs| && HasCall(s.pcs[t]) && k >= Left(s.pcs[t])
    requires FreeFor(s.qcLock, t) && FreeFor(s.qecLock, t)
    ensures var s' := Exec(s, Repeat(Event(t, Tick), k));
            && s'.pcs == s.pcs[t := Idle] && s'.qcLock.None? && s'.qecLock.None?
            && s'.history == (if Open(s.pcs[t]) then s.history + [s.pcs[t].call] else s.history)
            && s'.readings == s.readings
    decreases k
  {
    var e := Event(t, Tick);
    var s1 := Step(s, t);
    FoldRepeat(Next, s, e, k);
    NextInv(s, e);
    SoloStep(s, t);
    if s1.pcs[t].Idle? {
      IdleTicks(s1, t, k - 1);
      NoLocks(s1, t);
    } else {
      SoloTicks(s1, t, k - 1);
    }
  }

  lemma {:induction false} SoloStep(s: State, t: nat)
    requires Inv(s) && t < |s.pcs| && HasCall(s.pcs[t]) && FreeFor(s.qcLock, t) && FreeFor(s.qecLock, t)
    ensures var s1, call := Step(s, t), s.pcs[t].call;
            && |s1.pcs| == |s.pcs| && s1.pcs[t := Idle] == s.pcs[t := Idle]
            && FreeFor(s1.qcLock, t) && FreeFor(s1.qecLock, t) && s1.readings == s.readings
            && Left(s1.pcs[t]) < Left(s.pcs[t])
            && s1.history == (if Open(s.pcs[t]) && !Open(s1.pcs[t]) then s.history + [call] else s.history)
            && (Open(s1.pcs[t]) ==> Open(s.pcs[t])) && (Open(s.pcs[t]) ==> !s1.pcs[t].Idle?)
            && (s1.pcs[t].Idle? || (HasCall(s1.pcs[t]) && s1.pcs[t].call == call))
  {
    assert PcOk(s.pcs[t]);
    StepLeft(s, t);
    StepCompletes(s, t);
    StepMoves(s, t);
  }

  lemma {:induction false} NoLocks(s: State, t: nat)
    requires LockInv(s) && t < |s.pcs| && s.pcs[t].Idle? && FreeFor(s.qcLock, t) && FreeFor(s.qecLock, t)
    ensures s.qcLock.None? && s.qecLock.None? && s.pcs[t := Idle] == s.pcs
  {
  }

  // A call that finds both locks free and is not interrupted has, whatever the gates return,
  // the effect of the sequential call, and the thread is idle again.
  lemma {:induction false} SoloCall(s: State, t: nat, call: Call)
    requires Inv(s) && t < |s.pcs| && s.pcs[t].Idle? && s.qcLock.None? && s.qecLock.None?
    ensures var s' := Exec(s, SoloCallEvents(t, call));
            && s'.pcs == s.pcs && s'.qcLock.None? && s'.qecLock.None? && s'.readings == s.readings
            && s'.history == s.history + [call] && s'.mem == Effect(s.mem, call) && Inv(s')
  {
    SoloRun(s, t, call);
    AtRest(s, s.mem);
    RunSerial(s, SoloCallEvents(t, call), s.mem);
    SoloEffect(s, Exec(s, SoloCallEvents(t, call)), call, CompletedIn(s, SoloCallEvents(t, call)));
  }

  lemma {:induction false} SoloRun(s: State, t: nat, call: Call)
    requires Inv(s) && t < |s.pcs| && s.pcs[t].Idle? && s.qcLock.None? && s.qecLock.None?
    ensures var s' := Exec(s, SoloCallEvents(t, call));
            && s'.pcs == s.pcs && s'.qcLock.None? && s'.qecLock.None? && s'.readings == s.readings
            && s'.history == s.history + [call]
  {
    var e, k := Event(t, Begin(call)), if call.Apply? then Left(QecWait(call)) else Left(QcWait(call));
    var s1 := Next(s, e);
    FoldFirst(Next, s, e, Repeat(Event(t, Tick), k));
    if Rejects(call) {
      IdleTicks(s1, t, k);
    } else {
      NextInv(s, e);
      SoloTicks(s1, t, k);
      assert s1.pcs[t := Idle] == s.pcs;
    }
  }

  lemma {:induction false} SoloEffect(s: State, s': State, call: Call, done: seq<Call>)
    requires s'.qcLock.None? && s'.qecLock.None? && Serial(s', Fold(Effect, s.mem, done))
    requires s'.history == s.history + [call] == s.history + done
    ensures s'.mem == Effect(s.mem, call)
  {
    AtRest(s', Fold(Effect, s.mem, done));
    assert done == (s.history + done)[|s.history|..] == [call];
    FoldOne(Effect, s.mem, call);
  }
}
