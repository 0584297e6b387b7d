// What one uninterrupted call of each kind does to the shared state and returns, in terms of
// its arguments and of what the gate and measurement calls it makes return.
module NestedSolo {
  import opened CInt
  import opened ErrorCorrection
  import opened GateTrace
  import opened NestedLocks
  import opened NestedSerial
  import QcInterface

  // An idle thread that can make a call, with nobody in its way.
  ghost predicate Alone(s: State, t: nat) {
    Inv(s) && t < |s.pcs| && s.pcs[t].Idle? && s.qcLock.None? && s.qecLock.None?
  }

  function AfterCall(s: State, t: nat, call: Call): State {
    Exec(s, SoloCallEvents(t, call))
  }

  // The calls of a round that go through: the three CNOTs, the measurement, and the gate for
  // the syndrome.
  function RoundCalls(r: Round): seq<QCall> {
    [Cnot(0), Cnot(1), Cnot(2), MeasureAncilla] +
    if 1 <= r.syndrome <= 3 then [Correct(GateX, r.syndrome - 1)]
    else if 4 <= r.syndrome <= 6 then [Correct(GateZ, r.syndrome - 4)]
    else if r.syndrome == 7 then [Correct(GateY, 0)]
    else []
  }

  // What a round adds: its calls up to the first that fails, one error if it has measured,
  // one correction if it has gone all the way.
  ghost predicate RoundDone(m: Shared, m': Shared, r: Round) {
    var all := RoundCalls(r);
    var f := Accepted(r.results, |all|);
    m' == m.(calls := m.calls + all[..f],
             errors := if f >= 4 then Wrap32(m.errors + 1) else m.errors,
             measured := if f >= 4 then m.measured + 1 else m.measured,
             corrections := if f == |all| then Wrap32(m.corrections + 1) else m.corrections,
             corrected := if f == |all| then m.corrected + 1 else m.corrected)
  }

  lemma {:induction false} RoundCallsAre(r: Round)
    ensures ApplyCalls(r.syndrome) == RoundCalls(r)
  {
    CorrectionIs(r.syndrome);
  }

  lemma {:induction false} RoundEffectIs(m: Shared, r: Round)
    ensures RoundDone(m, RoundEffect(m, r), r)
  {
    RoundCallsAre(r);
  }

  // Convert: the trace of the data goes out up to the first gate call that fails, and the
  // conversion is counted exactly if none does; without data, or with more than 1024 bytes,
  // nothing happens.
  lemma {:induction false} SoloConvert(s: State, t: nat, c: QcInterface.Call)
    requires Alone(s, t)
    ensures var m := AfterCall(s, t, Convert(c)).mem;
            if c.data.None? || |c.data.value| > 1024 then m == s.mem
            else
              var want := TraceOf(LowBits(c.data.value));
              var f := Accepted(c.results, |want|);
              m == s.mem.(gates := s.mem.gates + want[..f],
                          conversions := if f == |want| then Wrap32(s.mem.conversions + 1) else s.mem.conversions)
  {
    SoloCall(s, t, Convert(c));
    QcInterface.CallIs(c);
  }

  // Measure: counted exactly if there is somewhere to store, at most 1024 bytes are asked
  // for, and no measurement fails; nothing else is touched.
  lemma {:induction false} SoloMeasure(s: State, t: nat, dataNull: bool, size: nat, results: nat -> int)
    requires Alone(s, t)
    ensures var all := !dataNull && size <= 1024 && forall k :: 0 <= k < size ==> results(k) >= 0;
            AfterCall(s, t, Measure(dataNull, size, results)).mem ==
            if all then s.mem.(measurements := Wrap32(s.mem.measurements + 1)) else s.mem
  {
    SoloCall(s, t, Measure(dataNull, size, results));
  }

  // Control: without control data nothing happens; nor if the gate fails. Otherwise the gate
  // has been applied and one round of error correction follows, under both locks.
  lemma {:induction false} SoloControl(s: State, t: nat, gate: Kind, qubit: int, controlNull: bool, result: int,
                                      r: Round)
    requires Alone(s, t)
    ensures var m := AfterCall(s, t, Control(gate, qubit, controlNull, result, r)).mem;
            if controlNull || result < 0 then m == s.mem
            else RoundDone(s.mem.(controlled := s.mem.controlled + [(gate, qubit)]), m, r)
  {
    SoloCall(s, t, Control(gate, qubit, controlNull, result, r));
    RoundEffectIs(s.mem.(controlled := s.mem.controlled + [(gate, qubit)]), r);
  }

  // Apply: one round, or nothing without a state.
  lemma {:induction false} SoloApply(s: State, t: nat, stateNull: bool, r: Round)
    requires Alone(s, t)
    ensures var m := AfterCall(s, t, Apply(stateNull, r)).mem;
            if stateNull then m == s.mem else RoundDone(s.mem, m, r)
  {
    SoloCall(s, t, Apply(stateNull, r));
    RoundEffectIs(s.mem, r);
  }

  // The arguments that are turned down before any lock is taken.
  predicate BadArguments(call: Call) {
    match call
    case Convert(c) => c.data.None? || |c.data.value| > 1024
    case Measure(dataNull, size, _) => dataNull || size > 1024
    case Control(_, _, controlNull, _, _) => controlNull
    case Apply(stateNull, _) => stateNull
  }

  // Whoever else is doing what: an idle thread's call enters, waiting for the lock of its
  // kind, exactly if its arguments are good; otherwise it is over at once, having touched
  // no lock, no buffer and none of the shared state.
  lemma {:induction false} CallEnters(s: State, t: nat, call: Call)
    requires t < |s.pcs| && s.pcs[t].Idle?
    ensures var s' := Next(s, Event(t, Begin(call)));
            && s'.qcLock == s.qcLock && s'.qecLock == s.qecLock && s'.buffer == s.buffer && s'.mem == s.mem
            && s'.pcs == (if BadArguments(call) then s.pcs
                          else s.pcs[t := if call.Apply? then QecWait(call) else QcWait(call)])
            && s'.history == if BadArguments(call) then s.history + [call] else s.history
  {
  }

  // What one of n calls made one after the other returns if it is the first to fail.
  function FirstFailure(results: nat -> int, n: nat): int {
    var f := Accepted(results, n);
    if f == n then 0 else results(f)
  }

  // What a call returns when nobody else is there: -EINVAL for bad arguments, otherwise the result
  // of the first of its gate and measurement calls that fails, and 0 if none does. A
  // controlled operation whose gate succeeds returns what its round does.
  lemma {:induction false} ReturnCodes(call: Call)
    ensures Ret(call) ==
            if BadArguments(call) then -22
            else match call
              case Convert(c) => FirstFailure(c.results, |TraceOf(LowBits(c.data.value))|)
              case Measure(_, size, results) => FirstFailure(results, size)
              case Control(_, _, _, result, r) =>
                if result < 0 then result else FirstFailure(r.results, |RoundCalls(r)|)
              case Apply(_, r) => FirstFailure(r.results, |RoundCalls(r)|)
  {
    if call.Convert? { QcInterface.CallIs(call.c); }
    if call.Control? || call.Apply? { RoundCallsAre(call.r); }
  }

  // So does every thread about to give back a lock, in every run; its arguments were good.
  lemma {:induction false} CallsReturnCodes(n: nat, evs: seq<Event>, t: nat)
    requires var s := Exec(Start(n), evs); t < |s.pcs| && (s.pcs[t].QcLeave? || s.pcs[t].QecLeave?)
    ensures var pc := Exec(Start(n), evs).pcs[t];
            && !BadArguments(pc.call)
            && pc.ret == match pc.call
               case Convert(c) => FirstFailure(c.results, |TraceOf(LowBits(c.data.value))|)
               case Measure(_, size, results) => FirstFailure(results, size)
               case Control(_, _, _, result, r) =>
                 if result < 0 then result else FirstFailure(r.results, |RoundCalls(r)|)
               case Apply(_, r) => FirstFailure(r.results, |RoundCalls(r)|)
  {
    NestedSerial.Serializable(n, evs);
    NestedLocks.ExecInv(n, evs);
    var pc := Exec(Start(n), evs).pcs[t];
    assert PcOk(pc);
    ReturnCodes(pc.call);
  }
}
