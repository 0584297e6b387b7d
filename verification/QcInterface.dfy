// The quantum-classical interface: the encoder and measurement loops, and the
// controlled operation that calls error correction with its own lock held.
module QcInterface {
  import opened CInt
  import opened GateTrace
  import opened ErrorCorrection
  import opened Sequences

  const BUFFER_SIZE := 1024

  // ---- what a conversion does, on values ------------------------------------------

  // One call: data is None for a NULL pointer, results(k) is what its k-th gate call returns.
  datatype Call = Call(data: Option<seq<Byte>>, results: nat -> int)

  predicate Valid(c: Call) {
    c.data.Some? && |c.data.value| <= BUFFER_SIZE
  }

  function Wanted(c: Call): seq<Gate> {
    if Valid(c) then TraceOf(LowBits(c.data.value)) else []
  }

  // The gates that go through: all of them, or those before the first failing call.
  function Emitted(c: Call): (t: seq<Gate>)
    ensures t <= Wanted(c)
  {
    Wanted(c)[..Accepted(c.results, |Wanted(c)|)]
  }

  predicate Completes(c: Call) {
    Valid(c) && Emitted(c) == Wanted(c)
  }

  function ConvertRet(c: Call): int {
    if !Valid(c) then -EINVAL else RetOf(c.results, |Wanted(c)|)
  }

  function Gates(calls: seq<Call>): seq<Gate> {
    Collect(calls, Emitted)
  }

  function Completed(calls: seq<Call>): nat {
    Count(calls, Completes)
  }

  // A call returns 0 exactly if its whole trace went through; otherwise the gates that
  // did are a proper prefix of it, and they decode, but to other data.
  lemma {:induction false} FailureLeavesPrefix(c: Call)
    requires Valid(c)
    ensures ConvertRet(c) == 0 <==> Completes(c)
    ensures ConvertRet(c) < 0 <==> Emitted(c) < Wanted(c)
    ensures Decode(Emitted(c)).Some?
    ensures Decode(Emitted(c)).value == LowBits(c.data.value) <==> ConvertRet(c) == 0
  {
    var bits, f := LowBits(c.data.value), Accepted(c.results, |Wanted(c)|);
    PrefixDecodes(bits, 0, f);
    DecodeTrace(bits, 0);
    assert f == |Wanted(c)| ==> Wanted(c)[..f] == Wanted(c);
  }

  // What the gates seen by the device and the conversion count are, after a history of calls.
  ghost predicate Reflects(gates: seq<Gate>, count: int, history: seq<Call>) {
    gates == Gates(history) && count == Wrap32(Completed(history))
  }

  lemma {:induction false} ReflectsSnoc(gates: seq<Gate>, count: int, history: seq<Call>, c: Call)
    requires Reflects(gates, count, history)
    ensures Reflects(gates + Emitted(c), if Completes(c) then Wrap32(count + 1) else count, history + [c])
    ensures !Valid(c) ==> Emitted(c) == [] && !Completes(c)
  {
    CollectSnoc(history, c, Emitted);
    CounterFollows(history, c, Completes, count);
  }

  lemma {:induction false} CompletesIff(c: Call)
    requires Valid(c)
    ensures var f := Accepted(c.results, |Wanted(c)|);
            && Emitted(c) == Wanted(c)[..f]
            && (Completes(c) <==> f == |Wanted(c)|) && (Completes(c) <==> ConvertRet(c) >= 0)
  {
    var f := Accepted(c.results, |Wanted(c)|);
    assert f == |Wanted(c)| ==> Wanted(c)[..f] == Wanted(c);
  }

  // A call with no data or with more than 1024 bytes does nothing and returns -EINVAL; any
  // other emits its trace up to the first gate call that fails, returns what that one did,
  // and is counted exactly if none fails.
  lemma {:induction false} CallIs(c: Call)
    ensures c.data.None? || |c.data.value| > 1024 ==> Emitted(c) == [] && !Completes(c) && ConvertRet(c) == -22
    ensures c.data.Some? && |c.data.value| <= 1024 ==>
              var want := TraceOf(LowBits(c.data.value));
              var f := Accepted(c.results, |want|);
              && Emitted(c) == want[..f] && (Completes(c) <==> f == |want|)
              && ConvertRet(c) == if f == |want| then 0 else c.results(f)
  {
    if Valid(c) { CompletesIff(c); }
  }

  class Interface {
    var buffer: array<Byte>
    var locked: bool
    var conversionCount: int
    var measurementCount: int
    // gate calls accepted so far
    var gates: seq<Gate>
    // controlled gates accepted so far
    var controlled: seq<(Kind, int)>
    // the history of conversion calls
    ghost var history: seq<Call>

    // Over any run: the lock is free between calls, the device has seen the gates of
    // every call in order, and the count is the number of complete traces.
    ghost predicate Consistent()
      reads this
    {
      && !locked && buffer.Length == BUFFER_SIZE
      && Reflects(gates, conversionCount, history)
    }

    constructor ()
      ensures Consistent() && history == [] && measurementCount == 0 && fresh(buffer)
    {
      buffer := new Byte[BUFFER_SIZE](_ => 0);
      locked, conversionCount, measurementCount := false, 0, 0;
      gates, controlled, history := [], [], [];
    }

    method GateApply(gate: Gate, result: int) returns (ret: int)
      modifies this`gates
      ensures ret == result && gates == if result < 0 then old(gates) else old(gates) + [gate]
    {
      if result >= 0 {
        gates := gates + [gate];
      }
      return result;
    }

    // ctrlxt_qc_classical_to_quantum
    method ClassicalToQuantum(data: Option<seq<Byte>>, results: nat -> int) returns (ret: int)
      requires Consistent()
      modifies this`locked, this`gates, this`conversionCount, this`history, buffer
      ensures Consistent() && history == old(history) + [Call(data, results)]
      ensures ret == ConvertRet(Call(data, results))
      ensures data.None? || |data.value| > 1024 ==>
                && ret == -22 && gates == old(gates) && conversionCount == old(conversionCount)
                && buffer[..] == old(buffer[..])
      ensures data.Some? && |data.value| <= 1024 ==>
                var want := TraceOf(LowBits(data.value));
                var f := Accepted(results, |want|);
                && gates == old(gates) + want[..f] && ret == (if f == |want| then 0 else results(f))
                && conversionCount == (if f == |want| then Wrap32(old(conversionCount) + 1) else old(conversionCount))
                && buffer[..|data.value|] == data.value && buffer[|data.value|..] == old(buffer[|data.value|..])
    {
      ghost var call := Call(data, results);
      ReflectsSnoc(gates, conversionCount, history, call);
      CallIs(call);
      history := history + [call];
      if data.None? || |data.value| > buffer.Length {
        assert gates + Emitted(call) == gates;
        return -EINVAL;
      }
      ret := ConvertLocked(data.value, results);
      assert Reflects(gates, conversionCount, history);
    }

    // Everything after the argument check, from taking the lock to releasing it.
    method ConvertLocked(data: seq<Byte>, results: nat -> int) returns (ret: int)
      requires !locked && |data| <= buffer.Length == BUFFER_SIZE
      modifies this`locked, this`gates, this`conversionCount, buffer
      ensures !locked && ret == ConvertRet(Call(Some(data), results))
      ensures gates == old(gates) + Emitted(Call(Some(data), results))
      ensures conversionCount ==
              if Completes(Call(Some(data), results)) then Wrap32(old(conversionCount) + 1) else old(conversionCount)
      ensures buffer[..|data|] == data && buffer[|data|..] == old(buffer[|data|..])
    {
      locked := true;
      CopyIn(data);
      CompletesIff(Call(Some(data), results));
      ret := Convert(|data|, data, results);
      if ret < 0 {
        locked := false;
        return ret;
      }
      conversionCount := Wrap32(conversionCount + 1);
      locked := false;
      return 0;
    }

    // The memcpy.
    method CopyIn(data: seq<Byte>)
      requires |data| <= buffer.Length
      modifies buffer
      ensures buffer[..|data|] == data && buffer[|data|..] == old(buffer[|data|..])
    {
      forall i | 0 <= i < |data| {
        buffer[i] := data[i];
      }
    }

    // The conversion loop: it stops at the first gate call that fails.
    method Convert(size: nat, ghost data: seq<Byte>, results: nat -> int) returns (ret: int)
      requires size == |data| <= buffer.Length && buffer[..size] == data
      modifies this`gates
      ensures var want := TraceOf(LowBits(data));
              var f := Accepted(results, |want|);
              ret == RetOf(results, |want|) && gates == old(gates) + want[..f]
    {
      ghost var want := TraceOf(LowBits(data));
      var calls := 0;
      var i := 0;
      assert data[..0] == [];
      while i < size
        invariant i <= size && calls == |TraceOf(LowBits(data[..i]))| <= |want|
        invariant TraceOf(LowBits(data[..i])) == want[..calls] && gates == old(gates) + want[..calls]
        invariant forall k :: 0 <= k < calls ==> results(k) >= 0
      {
        assert buffer[i] == data[i];
        ghost var before := calls;
        StepPrefix(data, i);
        ret, calls := ConvertByte(i, buffer[i], calls, results);
        assert want[..calls] == want[..before] + Emit(i, data[i] % 2 == 1)[..calls - before];
        if ret < 0 {
          AcceptedIs(results, |want|, calls);
          return ret;
        }
        i := i + 1;
      }
      assert data[..size] == data;
      AcceptedIs(results, |want|, |want|);
      return 0;
    }

    // One byte: its gates in order, up to the first call that fails.
    method ConvertByte(i: nat, byte: Byte, first: nat, results: nat -> int) returns (ret: int, next: nat)
      modifies this`gates
      ensures var e := Emit(i, byte % 2 == 1);
              && first <= next <= first + |e| && gates == old(gates) + e[..next - first]
              && (forall k :: first <= k < next ==> results(k) >= 0)
              && (if ret < 0 then next < first + |e| && ret == results(next) else next == first + |e|)
    {
      next := first;
      ret := GateApply(H(i), results(next));
      if ret < 0 {
        return;
      }
      next := next + 1;
      if byte % 2 == 1 {
        ret := GateApply(PHASE(i), results(next));
        if ret < 0 {
          return;
        }
        next := next + 1;
      }
    }

    // ctrlxt_qc_quantum_to_classical; results(k) is what the k-th measurement returns and stores.
    method QuantumToClassical(data: array?<Byte>, size: nat, results: nat -> int, values: nat -> Byte)
      returns (ret: int)
      requires Consistent() && data != buffer && (data != null ==> size <= data.Length || size > BUFFER_SIZE)
      modifies this`locked, this`measurementCount, data
      ensures Consistent() && history == old(history)
      ensures data == null || size > 1024 ==>
                ret == -22 && measurementCount == old(measurementCount)
                && (data != null ==> data[..] == old(data[..]))
      ensures data != null && size <= 1024 ==>
                var f := Accepted(results, size);
                && ret == (if f == size then 0 else results(f))
                && (forall k :: 0 <= k < f ==> data[k] == values(k))
                && (forall k :: f <= k < data.Length ==> data[k] == old(data[k]))
                && measurementCount == if f == size then Wrap32(old(measurementCount) + 1) else old(measurementCount)
    {
      if data == null || size > buffer.Length {
        return -EINVAL;
      }
      locked := true;
      ret := MeasureAll(data, size, results, values);
      if ret < 0 {
        locked := false;
        return ret;
      }
      measurementCount := Wrap32(measurementCount + 1);
      locked := false;
      return 0;
    }

    // The measurement loop: it stops at the first measurement that fails.
    method MeasureAll(data: array<Byte>, size: nat, results: nat -> int, values: nat -> Byte) returns (ret: int)
      requires size <= data.Length
      modifies data
      ensures var f := Accepted(results, size);
              && ret == (if f == size then 0 else results(f)) && (ret < 0 <==> f < size)
              && (forall k :: 0 <= k < f ==> data[k] == values(k))
              && (forall k :: f <= k < data.Length ==> data[k] == old(data[k]))
    {
      var i := 0;
      while i < size
        invariant i <= size
        invariant forall k :: 0 <= k < i ==> results(k) >= 0 && data[k] == values(k)
        invariant forall k :: i <= k < data.Length ==> data[k] == old(data[k])
      {
        ret := results(i);
        if ret < 0 {
          AcceptedIs(results, size, i);
          return ret;
        }
        data[i] := values(i);
        i := i + 1;
      }
      AcceptedIs(results, size, size);
      return 0;
    }

    // ctrlxt_qc_controlled_operation: result is what the gate call returns; error
    // correction runs with this lock held and takes its own.
    method ControlledOperation(gate: Kind, qubit: int, controlNull: bool, result: int,
                               qec: Qec, results: nat -> int, syndrome: int) returns (ret: int)
      requires !locked && qec.Consistent()
      modifies this`locked, this`controlled, qec
      ensures !locked && qec.Consistent()
      ensures controlled == old(controlled) + if controlNull || result < 0 then [] else [(gate, qubit)]
      ensures controlNull ==> ret == -22 && unchanged(qec)
      ensures !controlNull && result < 0 ==> ret == result && unchanged(qec)
      ensures !controlNull && result >= 0 ==>
                ret == RoundRet(Round(results, syndrome))
                && qec.history == old(qec.history) + [Round(results, syndrome)]
    {
      if controlNull {
        return -EINVAL;
      }
      locked := true;
      ret := result;
      if ret < 0 {
        locked := false;
        return ret;
      }
      controlled := controlled + [(gate, qubit)];
      ret := qec.Apply(false, results, syndrome);
      if ret < 0 {
        locked := false;
        return ret;
      }
      locked := false;
      return 0;
    }
  }
}
