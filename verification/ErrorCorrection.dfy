// Quantum error correction: three CNOTs, a measurement, a correction chosen by the
// syndrome, and two counters. Gates are opaque calls that succeed or fail.
module ErrorCorrection {
  import opened CInt
  import opened Sequences

  datatype Kind = GateH | GatePhase | GateX | GateY | GateZ | GateCnot

  datatype QCall = Cnot(qubit: nat) | MeasureAncilla | Correct(kind: Kind, qubit: nat)

  // Of n calls, made one after the other until one returns a negative number, how many are accepted.
  function Accepted(results: nat -> int, n: nat): (f: nat)
    ensures f <= n
    ensures forall k :: 0 <= k < f ==> results(k) >= 0
    ensures f < n ==> results(f) < 0
  {
    if n == 0 then 0
    else
      var f := Accepted(results, n - 1);
      if f == n - 1 && results(n - 1) >= 0 then n else f
  }

  // These two facts determine it.
  lemma {:induction false} AcceptedIs(results: nat -> int, n: nat, f: nat)
    requires f <= n && (forall k :: 0 <= k < f ==> results(k) >= 0) && (f < n ==> results(f) < 0)
    ensures Accepted(results, n) == f
  {
  }

  function CorrectionFor(syndrome: int): seq<QCall> {
    match syndrome
    case 1 => [Correct(GateX, 0)]
    case 2 => [Correct(GateX, 1)]
    case 3 => [Correct(GateX, 2)]
    case 4 => [Correct(GateZ, 0)]
    case 5 => [Correct(GateZ, 1)]
    case 6 => [Correct(GateZ, 2)]
    case 7 => [Correct(GateY, 0)]
    case _ => []
  }

  const SYNDROME_CALLS := 4

  function SyndromeCalls(): (calls: seq<QCall>)
    ensures |calls| == SYNDROME_CALLS
  {
    [Cnot(0), Cnot(1), Cnot(2), MeasureAncilla]
  }

  function ApplyCalls(syndrome: int): (calls: seq<QCall>)
    ensures |calls| == SYNDROME_CALLS + |CorrectionFor(syndrome)| <= SYNDROME_CALLS + 1
    ensures forall f: nat :: f <= SYNDROME_CALLS ==> calls[..f] == SyndromeCalls()[..f]
  {
    SyndromeCalls() + CorrectionFor(syndrome)
  }

  function RetOf(results: nat -> int, n: nat): int {
    if Accepted(results, n) == n then 0 else results(Accepted(results, n))
  }

  // One call with a state: results(k) is what its k-th gate or measurement call returns.
  datatype Round = Round(results: nat -> int, syndrome: int)

  function Done(r: Round): (f: nat)
    ensures f <= |ApplyCalls(r.syndrome)|
  {
    Accepted(r.results, |ApplyCalls(r.syndrome)|)
  }

  // The calls that go through.
  function Made(r: Round): seq<QCall> {
    ApplyCalls(r.syndrome)[..Done(r)]
  }

  predicate Measured(r: Round) {
    Done(r) >= SYNDROME_CALLS
  }

  predicate Corrected(r: Round) {
    Done(r) == |ApplyCalls(r.syndrome)|
  }

  function RoundRet(r: Round): int {
    RetOf(r.results, |ApplyCalls(r.syndrome)|)
  }

  // How far a call gets follows from the syndrome calls and then from the correction, if there is one.
  lemma {:induction false} DoneIs(r: Round)
    ensures var f := Accepted(r.results, SYNDROME_CALLS);
            if f < SYNDROME_CALLS then
              Done(r) == f && Made(r) == SyndromeCalls()[..f] && RoundRet(r) == r.results(f) < 0
            else if CorrectionFor(r.syndrome) != [] && r.results(SYNDROME_CALLS) < 0 then
              Done(r) == SYNDROME_CALLS && Made(r) == SyndromeCalls()[..f] && RoundRet(r) == r.results(f)
            else
              Corrected(r) && Measured(r) && RoundRet(r) == 0
              && Made(r) == SyndromeCalls()[..f] + CorrectionFor(r.syndrome)
  {
    var all, f := ApplyCalls(r.syndrome), Accepted(r.results, SYNDROME_CALLS);
    if f < SYNDROME_CALLS {
      AcceptedIs(r.results, |all|, f);
    } else if CorrectionFor(r.syndrome) != [] && r.results(SYNDROME_CALLS) < 0 {
      AcceptedIs(r.results, |all|, SYNDROME_CALLS);
    } else {
      AcceptedIs(r.results, |all|, |all|);
      assert all[..|all|] == SyndromeCalls()[..SYNDROME_CALLS] + CorrectionFor(r.syndrome);
    }
  }

  // The switch: 1 to 3 name the qubit whose bit was flipped, 4 to 6 the one whose phase was,
  // 7 is both on qubit 0; of anything else nothing is made.
  lemma {:induction false} CorrectionIs(s: int)
    ensures CorrectionFor(s) ==
            if 1 <= s <= 3 then [Correct(GateX, s - 1)]
            else if 4 <= s <= 6 then [Correct(GateZ, s - 4)]
            else if s == 7 then [Correct(GateY, 0)]
            else []
  {
  }

  // No two of the seven syndromes are corrected by the same gate.
  lemma {:induction false} CorrectionsDiffer(s: int, s': int)
    requires 1 <= s <= 7
    ensures CorrectionFor(s) == CorrectionFor(s') <==> s == s'
  {
    CorrectionIs(s);
    CorrectionIs(s');
  }

  // One round: the three CNOTs in order and the measurement, then the gate for the syndrome,
  // up to the first call that fails, whose result is returned; error_count moves exactly if
  // the first four succeed, correction_count exactly if all do.
  lemma {:induction false} RoundIs(r: Round)
    ensures var f := Accepted(r.results, 4);
            var first := [Cnot(0), Cnot(1), Cnot(2), MeasureAncilla];
            if f < 4 then
              Made(r) == first[..f] && RoundRet(r) == r.results(f) < 0 && !Measured(r) && !Corrected(r)
            else if 1 <= r.syndrome <= 7 && r.results(4) < 0 then
              Made(r) == first && RoundRet(r) == r.results(4) && Measured(r) && !Corrected(r)
            else
              && RoundRet(r) == 0 && Measured(r) && Corrected(r)
              && Made(r) == first + (if 1 <= r.syndrome <= 3 then [Correct(GateX, r.syndrome - 1)]
                                     else if 4 <= r.syndrome <= 6 then [Correct(GateZ, r.syndrome - 4)]
                                     else if r.syndrome == 7 then [Correct(GateY, 0)] else [])
  {
    DoneIs(r);
    CorrectionIs(r.syndrome);
    var all := SyndromeCalls();
    assert all[..SYNDROME_CALLS] == all;
  }

  // What error_count, correction_count and their difference are after a history of calls.
  function MeasuredIn(h: seq<Round>): nat {
    Count(h, Measured)
  }

  function CorrectedIn(h: seq<Round>): nat {
    Count(h, Corrected)
  }

  function FailedLateIn(h: seq<Round>): nat {
    Count(h, (r: Round) => Measured(r) && !Corrected(r))
  }

  // Every measured call either goes all the way or fails after its measurement.
  lemma {:induction false} MeasuredSplits(h: seq<Round>)
    ensures MeasuredIn(h) == CorrectedIn(h) + FailedLateIn(h)
  {
    if h != [] {
      MeasuredSplits(h[..|h| - 1]);
    }
  }

  // What the qubits and the two counters have seen after a history of calls.
  ghost predicate Tallies(calls: seq<QCall>, errors: int, corrections: int, h: seq<Round>) {
    calls == Collect(h, Made) && errors == Wrap32(MeasuredIn(h)) && corrections == Wrap32(CorrectedIn(h))
  }

  lemma {:induction false} TalliesSnoc(calls: seq<QCall>, errors: int, corrections: int, h: seq<Round>, r: Round,
                                       errors': int, corrections': int)
    requires Tallies(calls, errors, corrections, h)
    requires errors' == if Measured(r) then Wrap32(errors + 1) else errors
    requires corrections' == if Corrected(r) then Wrap32(corrections + 1) else corrections
    ensures Tallies(calls + Made(r), errors', corrections', h + [r])
  {
    CollectSnoc(h, r, Made);
    CounterFollows(h, r, Measured, errors);
    CounterFollows(h, r, Corrected, corrections);
  }

  // A 32-bit counter incremented at the calls with p holds their number.
  lemma {:induction false} CounterFollows<T>(h: seq<T>, x: T, p: T -> bool, c: int)
    requires c == Wrap32(Count(h, p))
    ensures Wrap32(Count(h + [x], p)) == if p(x) then Wrap32(c + 1) else c
  {
    CountSnoc(h, x, p);
    WrapStep(Count(h, p), 1);
  }

  // The rate that the statistics mean ...
  function SuccessRate(errors: int, corrections: int): int
    requires errors != 0
  {
    corrections * 100 / errors
  }

  // ... and the one they store: an int product, an int division, an unsigned int.
  function StoredRate(errors: int, corrections: int): int
    requires errors != 0
  {
    Unsigned32(TruncDiv(Wrap32(corrections * 100), errors))
  }

  class Qec {
    var locked: bool
    var errorCount: int
    var correctionCount: int
    // gate and measurement calls accepted so far
    var calls: seq<QCall>
    // the history of calls with a state
    ghost var history: seq<Round>

    // Over any run: the lock is free between calls, and the calls made and both counters
    // are those of the history.
    ghost predicate Consistent()
      reads this
    {
      !locked && Tallies(calls, errorCount, correctionCount, history)
    }

    constructor ()
      ensures Consistent() && history == []
    {
      locked, errorCount, correctionCount, calls, history := false, 0, 0, [], [];
    }

    // ctrlxt_qec_apply; results(k) is what the k-th gate or measurement call returns.
    method Apply(stateNull: bool, results: nat -> int, syndrome: int) returns (ret: int)
      requires Consistent()
      modifies this
      ensures Consistent()
      ensures stateNull ==>
                && ret == -22 && history == old(history) && calls == old(calls)
                && errorCount == old(errorCount) && correctionCount == old(correctionCount)
      ensures !stateNull ==>
                ret == RoundRet(Round(results, syndrome)) && history == old(history) + [Round(results, syndrome)]
    {
      if stateNull {
        return -EINVAL;
      }
      var r := Round(results, syndrome);
      ret := ApplyLocked(r);
      TalliesSnoc(old(calls), old(errorCount), old(correctionCount), history, r, errorCount, correctionCount);
      history := history + [r];
    }

    // Everything after the argument check, from taking the lock to releasing it.
    method ApplyLocked(r: Round) returns (ret: int)
      requires !locked
      modifies this`locked, this`errorCount, this`correctionCount, this`calls
      ensures !locked && ret == RoundRet(r) && calls == old(calls) + Made(r)
      ensures errorCount == if Measured(r) then Wrap32(old(errorCount) + 1) else old(errorCount)
      ensures correctionCount == if Corrected(r) then Wrap32(old(correctionCount) + 1) else old(correctionCount)
    {
      locked := true;
      ret := MeasureSyndrome(r.results);
      DoneIs(r);
      if ret < 0 {
        locked := false;
        return ret;
      }
      ret := ApplyCorrection(r.results(SYNDROME_CALLS), r.syndrome);
      if ret < 0 {
        locked := false;
        return ret;
      }
      correctionCount := Wrap32(correctionCount + 1);
      locked := false;
      return 0;
    }

    // measure_syndrome
    method MeasureSyndrome(results: nat -> int) returns (ret: int)
      modifies this`errorCount, this`calls
      ensures var f := Accepted(results, SYNDROME_CALLS);
              && ret == RetOf(results, SYNDROME_CALLS)
              && calls == old(calls) + SyndromeCalls()[..f]
              && errorCount == if f == SYNDROME_CALLS then Wrap32(old(errorCount) + 1) else old(errorCount)
      ensures var f := Accepted(results, 4);
              && calls == old(calls) + [Cnot(0), Cnot(1), Cnot(2), MeasureAncilla][..f]
              && ret == if f == 4 then 0 else results(f)
    {
      ret := CnotApply(0, results);
      if ret < 0 {
        AcceptedIs(results, SYNDROME_CALLS, 0);
        return ret;
      }
      ret := CnotApply(1, results);
      if ret < 0 {
        AcceptedIs(results, SYNDROME_CALLS, 1);
        return ret;
      }
      ret := CnotApply(2, results);
      if ret < 0 {
        AcceptedIs(results, SYNDROME_CALLS, 2);
        return ret;
      }
      if results(3) < 0 {
        AcceptedIs(results, SYNDROME_CALLS, 3);
        return results(3);
      }
      calls := calls + [MeasureAncilla];
      AcceptedIs(results, SYNDROME_CALLS, 4);
      errorCount := Wrap32(errorCount + 1);
      return 0;
    }

    method CnotApply(qubit: nat, results: nat -> int) returns (ret: int)
      modifies this`calls
      ensures ret == results(qubit) && calls == old(calls) + if ret < 0 then [] else [Cnot(qubit)]
    {
      if results(qubit) >= 0 {
        calls := calls + [Cnot(qubit)];
      }
      return results(qubit);
    }

    // apply_correction; result is what the gate call returns, if one is made.
    method ApplyCorrection(result: int, syndrome: int) returns (ret: int)
      modifies this`calls
      ensures ret == if CorrectionFor(syndrome) == [] then 0 else result
      ensures calls == old(calls) + if ret < 0 then [] else CorrectionFor(syndrome)
      ensures !(1 <= syndrome <= 7) ==> ret == 0 && calls == old(calls)
      ensures 1 <= syndrome <= 7 ==> ret == result && (result < 0 ==> calls == old(calls))
      ensures 1 <= syndrome <= 3 && result >= 0 ==> calls == old(calls) + [Correct(GateX, syndrome - 1)]
      ensures 4 <= syndrome <= 6 && result >= 0 ==> calls == old(calls) + [Correct(GateZ, syndrome - 4)]
      ensures syndrome == 7 && result >= 0 ==> calls == old(calls) + [Correct(GateY, 0)]
    {
      match syndrome {
        case 1 => ret := GateApply(GateX, 0, result);
        case 2 => ret := GateApply(GateX, 1, result);
        case 3 => ret := GateApply(GateX, 2, result);
        case 4 => ret := GateApply(GateZ, 0, result);
        case 5 => ret := GateApply(GateZ, 1, result);
        case 6 => ret := GateApply(GateZ, 2, result);
        case 7 => ret := GateApply(GateY, 0, result);
        case _ => ret := 0;
      }
    }

    method GateApply(kind: Kind, qubit: nat, result: int) returns (ret: int)
      modifies this`calls
      ensures ret == result && calls == old(calls) + if result < 0 then [] else [Correct(kind, qubit)]
    {
      if result >= 0 {
        calls := calls + [Correct(kind, qubit)];
      }
      return result;
    }
  }
}
