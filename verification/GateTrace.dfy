// The gate trace the classical-to-quantum encoder emits, and its decoder.
module GateTrace {
  import opened CInt
  import opened Sequences

  type Byte = b: int | 0 <= b < 256

  datatype Gate = H(qubit: nat) | PHASE(qubit: nat)

  // The gates for one byte: always a Hadamard, and a phase gate iff its low bit is set.
  function Emit(i: nat, bit: bool): seq<Gate> {
    [H(i)] + if bit then [PHASE(i)] else []
  }

  function TraceFrom(bits: seq<bool>, i: nat): seq<Gate> {
    if bits == [] then [] else Emit(i, bits[0]) + TraceFrom(bits[1..], i + 1)
  }

  function TraceOf(bits: seq<bool>): seq<Gate> {
    TraceFrom(bits, 0)
  }

  function LowBits(data: seq<Byte>): (bits: seq<bool>)
    ensures |bits| == |data|
  {
    seq(|data|, i requires 0 <= i < |data| => data[i] % 2 == 1)
  }

  // Reads a trace back: a phase gate right after the Hadamard of its qubit means a set bit.
  function DecodeFrom(t: seq<Gate>, i: nat): Option<seq<bool>> {
    if t == [] then Some([])
    else if t[0] != H(i) then None
    else
      var bit := |t| > 1 && t[1] == PHASE(i);
      match DecodeFrom(t[if bit then 2 else 1..], i + 1)
      case None => None
      case Some(bits) => Some([bit] + bits)
  }

  function Decode(t: seq<Gate>): Option<seq<bool>> {
    DecodeFrom(t, 0)
  }

  lemma {:induction false} TraceSnoc(bits: seq<bool>, bit: bool, i: nat)
    ensures TraceFrom(bits + [bit], i) == TraceFrom(bits, i) + Emit(i + |bits|, bit)
  {
    if bits == [] {
      assert ([] + [bit])[1..] == [];
    } else {
      assert (bits + [bit])[1..] == bits[1..] + [bit];
      TraceSnoc(bits[1..], bit, i + 1);
    }
  }

  // A trace for later qubits does not begin with a gate on an earlier one.
  lemma {:induction false} TraceStart(bits: seq<bool>, i: nat)
    ensures TraceFrom(bits, i) == [] <==> bits == []
    ensures bits != [] ==> TraceFrom(bits, i)[0] == H(i)
  {
  }

  lemma {:induction false} DecodeTrace(bits: seq<bool>, i: nat)
    ensures DecodeFrom(TraceFrom(bits, i), i) == Some(bits)
  {
    if bits != [] {
      var t, rest := TraceFrom(bits, i), TraceFrom(bits[1..], i + 1);
      TraceStart(bits[1..], i + 1);
      assert t[if bits[0] then 2 else 1..] == rest;
      assert (|t| > 1 && t[1] == PHASE(i)) == bits[0];
      DecodeTrace(bits[1..], i + 1);
      assert [bits[0]] + bits[1..] == bits;
    }
  }

  // Reading off one byte's gates.
  lemma {:induction false} DecodeStep(t: seq<Gate>, i: nat, bit: bool)
    requires Emit(i, bit) <= t && (!bit && |t| > 1 ==> t[1] != PHASE(i))
    ensures var rest := DecodeFrom(t[|Emit(i, bit)|..], i + 1);
            DecodeFrom(t, i) == if rest.None? then None else Some([bit] + rest.value)
  {
    assert t[0] == H(i) && (bit ==> t[1] == Emit(i, bit)[1]);
  }

  lemma {:induction false} TraceDecode(t: seq<Gate>, i: nat)
    ensures DecodeFrom(t, i).Some? ==> TraceFrom(DecodeFrom(t, i).value, i) == t
  {
    if t != [] && t[0] == H(i) {
      var bit := |t| > 1 && t[1] == PHASE(i);
      var rest := t[|Emit(i, bit)|..];
      assert t == Emit(i, bit) + rest;
      DecodeStep(t, i, bit);
      TraceDecode(rest, i + 1);
      if DecodeFrom(rest, i + 1).Some? {
        var bits := DecodeFrom(rest, i + 1).value;
        assert DecodeFrom(t, i).value == [bit] + bits && ([bit] + bits)[1..] == bits;
        assert TraceFrom([bit] + bits, i) == Emit(i, bit) + TraceFrom(bits, i + 1);
      }
    }
  }

  // The decoder inverts the encoder on every vector of low bits, and accepts nothing
  // but traces of the encoder.
  lemma {:induction false} RoundTrip(data: seq<Byte>, t: seq<Gate>)
    ensures Decode(TraceOf(LowBits(data))) == Some(LowBits(data))
    ensures Decode(t).Some? <==> exists bits :: TraceOf(bits) == t
    ensures Decode(t).Some? ==> TraceOf(Decode(t).value) == t
  {
    DecodeTrace(LowBits(data), 0);
    TraceDecode(t, 0);
    if Decode(t).Some? {
      assert TraceOf(Decode(t).value) == t;
    }
    if bits :| TraceOf(bits) == t {
      DecodeTrace(bits, 0);
    }
  }

  // The trace of i bytes, extended by the gates of the next one, is still a prefix of the whole.
  lemma {:induction false} StepPrefix(data: seq<Byte>, i: nat)
    requires i < |data|
    ensures var t, e, want := TraceOf(LowBits(data[..i])), Emit(i, data[i] % 2 == 1), TraceOf(LowBits(data));
            && TraceOf(LowBits(data[..i + 1])) == t + e
            && |t| + |e| <= |want| && want[..|t| + |e|] == t + e
  {
    assert LowBits(data[..i + 1]) == LowBits(data[..i]) + [data[i] % 2 == 1];
    TraceSnoc(LowBits(data[..i]), data[i] % 2 == 1, 0);
    TakePrefix(LowBits(data), i + 1, 0);
    assert LowBits(data)[..i + 1] == LowBits(data[..i + 1]);
  }

  lemma {:induction false} TakePrefix(bits: seq<bool>, n: nat, i: nat)
    requires n <= |bits|
    ensures TraceFrom(bits[..n], i) <= TraceFrom(bits, i)
  {
    if n > 0 {
      assert bits[..n][1..] == bits[1..][..n - 1];
      TakePrefix(bits[1..], n - 1, i + 1);
    }
  }

  predicate Odd(b: Byte) {
    b % 2 == 1
  }

  // Where the gates of byte i begin: after a Hadamard for each byte before it and a phase
  // gate for each odd one.
  function Place(data: seq<Byte>, i: nat): nat
    requires i <= |data|
  {
    i + Count(data[..i], Odd)
  }

  // The trace entry by entry: a Hadamard for every byte, in order, and right after it a
  // phase gate exactly if the byte is odd; nothing else.
  lemma {:induction false} TraceAt(data: seq<Byte>, i: nat)
    requires i < |data|
    ensures var t := TraceOf(LowBits(data));
            && |t| == Place(data, |data|) && Place(data, i) < |t| && t[Place(data, i)] == H(i)
            && (data[i] % 2 == 1 ==>
                  Place(data, i + 1) == Place(data, i) + 2 <= |t| && t[Place(data, i) + 1] == PHASE(i))
            && (data[i] % 2 == 0 ==> Place(data, i + 1) == Place(data, i) + 1 <= |t|)
  {
    TraceLength(data, |data|);
    TraceLength(data, i);
    TraceLength(data, i + 1);
    StepPrefix(data, i);
    assert data[..|data|] == data;
    EntriesOf(TraceOf(LowBits(data)), TraceOf(LowBits(data[..i])), i, data[i] % 2 == 1);
  }

  lemma {:induction false} EntriesOf(want: seq<Gate>, t: seq<Gate>, i: nat, bit: bool)
    requires |t| + |Emit(i, bit)| <= |want| && want[..|t| + |Emit(i, bit)|] == t + Emit(i, bit)
    ensures want[|t|] == H(i) && (bit ==> want[|t| + 1] == PHASE(i))
  {
    var n := |t| + |Emit(i, bit)|;
    assert want[..n][|t|] == (t + Emit(i, bit))[|t|];
    if bit { assert want[..n][|t| + 1] == (t + Emit(i, bit))[|t| + 1]; }
  }

  lemma {:induction false} TraceLength(data: seq<Byte>, i: nat)
    requires i <= |data|
    ensures |TraceOf(LowBits(data[..i]))| == Place(data, i)
  {
    if i > 0 {
      TraceLength(data, i - 1);
      assert data[..i] == data[..i - 1] + [data[i - 1]];
      CountSnoc(data[..i - 1], data[i - 1], Odd);
      StepPrefix(data, i - 1);
    }
  }

  // Two inputs emit the same gates exactly if they have the same length and low bits.
  lemma {:induction false} SameTraceIff(a: seq<Byte>, b: seq<Byte>)
    ensures TraceOf(LowBits(a)) == TraceOf(LowBits(b)) <==>
            |a| == |b| && forall i :: 0 <= i < |a| ==> a[i] % 2 == b[i] % 2
  {
    DecodeTrace(LowBits(a), 0);
    DecodeTrace(LowBits(b), 0);
    if |a| == |b| && forall i :: 0 <= i < |a| ==> a[i] % 2 == b[i] % 2 {
      assert LowBits(a) == LowBits(b);
    } else if |a| == |b| {
      var i :| 0 <= i < |a| && a[i] % 2 != b[i] % 2;
      assert LowBits(a)[i] != LowBits(b)[i];
    }
  }

  // What a vector looks like when its encoding is cut off: cut short, and its last
  // remaining bit possibly cleared.
  ghost predicate CutOff(cut: seq<bool>, bits: seq<bool>) {
    && |cut| <= |bits|
    && (forall i :: 0 <= i < |cut| - 1 ==> cut[i] == bits[i])
    && (cut != [] && cut[|cut| - 1] ==> bits[|cut| - 1])
  }

  // Every prefix of a trace is again a trace, of a cut-off vector: the gates alone do
  // not tell a failed conversion from a finished one.
  lemma {:induction false} PrefixDecodes(bits: seq<bool>, i: nat, f: nat)
    requires f <= |TraceFrom(bits, i)|
    ensures var cut := DecodeFrom(TraceFrom(bits, i)[..f], i);
            cut.Some? && CutOff(cut.value, bits) && (f < |TraceFrom(bits, i)| ==> cut.value != bits)
  {
    var t := TraceFrom(bits, i);
    if f < |t| {
      TraceDecode(t[..f], i);
      if f > 0 {
        var n := |Emit(i, bits[0])|;
        if f >= n {
          PrefixDecodes(bits[1..], i + 1, f - n);
          var rest := TraceFrom(bits[1..], i + 1);
          TraceStart(bits[1..], i + 1);
          CutAfter(Emit(i, bits[0]), rest, f);
          var cut := DecodeFrom(rest[..f - n], i + 1).value;
          DecodeStep(t[..f], i, bits[0]);
          CutOffCons(cut, bits);
        } else {
          assert t[..f] == [H(i)] && [H(i)][1..] == [];
          DecodeStep([H(i)], i, false);
        }
      }
    } else {
      assert t[..f] == t;
      DecodeTrace(bits, i);
    }
  }

  lemma {:induction false} CutAfter(a: seq<Gate>, b: seq<Gate>, f: nat)
    requires |a| <= f <= |a + b|
    ensures (a + b)[..f][|a|..] == b[..f - |a|]
  {
  }

  lemma {:induction false} CutOffCons(cut: seq<bool>, bits: seq<bool>)
    requires bits != [] && CutOff(cut, bits[1..])
    ensures CutOff([bits[0]] + cut, bits)
    ensures cut != bits[1..] ==> [bits[0]] + cut != bits
  {
    var c := [bits[0]] + cut;
    assert forall i :: 1 <= i < |c| ==> c[i] == cut[i - 1] && bits[i] == bits[1..][i - 1];
    assert c[1..] == cut;
  }
}
