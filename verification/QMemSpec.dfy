// What one call of the quantum memory manager does when no other call overlaps
// it, on values: the used list newest first, and the three counters.
module QMemSpec {
  import opened CInt
  import opened Runs
  import opened Sequences
  import opened Sums

  const QMEM_MAX_QUBITS := 1024
  const QMEM_MAX_QUBITS_PER_BLOCK := 64

  // A used block; `id` is the serial number of the allocation that made it.
  datatype Blk = Blk(id: nat, size: nat, flags: int, refs: int)

  datatype QState = QState(blocks: seq<Blk>, nextId: nat, totalQubits: int, allocatedQubits: int, maxQubits: int)

  datatype AllocResult = Got(id: nat) | Refused(errno: int)

  datatype Stats = Stats(totalQubits: int, allocatedQubits: int, maxQubits: int, free: int)

  function Init(): QState {
    QState([], 0, 0, 0, QMEM_MAX_QUBITS)
  }

  // The quota test: an int converted to size_t, plus a size_t, against another converted int.
  predicate Exceeds(ar: Arith, allocatedQubits: int, n: int, maxQubits: int) {
    Size(ar, Size(ar, allocatedQubits) + n) > Size(ar, maxQubits)
  }

  predicate BadRequest(n: nat) {
    n == 0 || n > QMEM_MAX_QUBITS_PER_BLOCK
  }

  // `ok` says whether both kernel allocations behind the call succeed.
  function AllocRet(ar: Arith, q: QState, n: nat, ok: bool): AllocResult {
    if BadRequest(n) then Refused(-EINVAL)
    else if Exceeds(ar, q.allocatedQubits, n, q.maxQubits) then Refused(-ENOMEM)
    else if !ok then Refused(-ENOMEM)
    else Got(q.nextId)
  }

  function Alloc(ar: Arith, q: QState, n: nat, flags: int, ok: bool): QState {
    if AllocRet(ar, q, n, ok).Refused? then q else Insert(ar, q, n, flags)
  }

  // An allocation past its tests.
  function Insert(ar: Arith, q: QState, n: nat, flags: int): QState {
    q.(blocks := [Blk(q.nextId, n, flags, 1)] + q.blocks,
       nextId := q.nextId + 1,
       totalQubits := Int(ar, q.totalQubits + n),
       allocatedQubits := Int(ar, q.allocatedQubits + n))
  }

  function Find(blocks: seq<Blk>, id: nat): nat {
    First(blocks, (b: Blk) => b.id == id)
  }

  // A hit bounds the search, and a hit on distinct serial numbers is what it finds.
  lemma {:induction false} FindAt(blocks: seq<Blk>, k: nat)
    requires k < |blocks|
    ensures Find(blocks, blocks[k].id) <= k
    ensures (forall i, j :: 0 <= i < j < |blocks| ==> blocks[i].id != blocks[j].id) ==> Find(blocks, blocks[k].id) == k
  {
    FirstBy(blocks, (b: Blk) => b.id == blocks[k].id, k);
  }

  predicate Listed(q: QState, id: nat) {
    Find(q.blocks, id) < |q.blocks|
  }

  function Get(ar: Arith, q: QState, id: nat): QState
    requires Listed(q, id)
  {
    var k := Find(q.blocks, id);
    q.(blocks := q.blocks[k := q.blocks[k].(refs := Int(ar, q.blocks[k].refs + 1))])
  }

  function Free(ar: Arith, q: QState, id: nat): QState
    requires Listed(q, id)
  {
    FreeAt(ar, q, Find(q.blocks, id))
  }

  function FreeAt(ar: Arith, q: QState, k: nat): QState
    requires k < |q.blocks|
  {
    var refs := Int(ar, q.blocks[k].refs - 1);
    if refs != 0 then q.(blocks := q.blocks[k := q.blocks[k].(refs := refs)])
    else q.(blocks := q.blocks[..k] + q.blocks[k + 1..],
            totalQubits := Int(ar, q.totalQubits - q.blocks[k].size),
            allocatedQubits := Int(ar, q.allocatedQubits - q.blocks[k].size))
  }

  // An unsigned long compared with a converted int, then stored in an int.
  function SetMax(ar: Arith, q: QState, v: nat): QState {
    if v < Size(ar, q.allocatedQubits) then q else q.(maxQubits := Int(ar, v))
  }

  function SetMaxRet(ar: Arith, q: QState, v: nat): int {
    if v < Size(ar, q.allocatedQubits) then -EINVAL else 0
  }

  function GetStats(ar: Arith, q: QState): Stats {
    Stats(q.totalQubits, q.allocatedQubits, q.maxQubits, Int(ar, q.maxQubits - q.allocatedQubits))
  }

  // ---- the mixed int/size_t quota test -------------------------------------

  // The machine's test is the integer comparison exactly when the sum and the
  // maximum have the same sign: a negative maximum lets every request through.
  lemma {:induction false} MachineTestExact(allocatedQubits: int, n: int, maxQubits: int)
    requires -0x8000_0000 <= allocatedQubits <= INT_MAX && -0x8000_0000 <= maxQubits <= INT_MAX
    requires 1 <= n <= QMEM_MAX_QUBITS_PER_BLOCK
    ensures Exceeds(MACHINE, allocatedQubits, n, maxQubits) == Exceeds(EXACT, allocatedQubits, n, maxQubits)
       <==> (allocatedQubits + n >= 0 <==> maxQubits >= 0)
  {
    assert Wrap64(Wrap64(allocatedQubits) + n) == Wrap64(allocatedQubits + n);
    assert allocatedQubits + n < 0 ==> Wrap64(allocatedQubits + n) == allocatedQubits + n + 0x1_0000_0000_0000_0000;
    assert maxQubits < 0 ==> Wrap64(maxQubits) == maxQubits + 0x1_0000_0000_0000_0000;
  }

  // No request is refused while the maximum is x, whatever the counter holds.
  ghost predicate NoQuota(x: int) {
    forall a, n | 0 <= a <= INT_MAX && 1 <= n <= QMEM_MAX_QUBITS_PER_BLOCK :: !Exceeds(MACHINE, a, n, x)
  }

  // An accepted maximum is installed as given iff it fits an int, and it switches the
  // quota off for every request iff the int it is stored in becomes negative.
  lemma {:induction false} SetMaxTruncates(q: QState, v: nat)
    requires SetMaxRet(MACHINE, q, v) == 0
    ensures SetMax(MACHINE, q, v).maxQubits == v <==> v <= INT_MAX
    ensures NoQuota(SetMax(MACHINE, q, v).maxQubits) <==> v % 0x1_0000_0000 >= 0x8000_0000
  {
    var x := SetMax(MACHINE, q, v).maxQubits;
    assert x < 0 <==> v % 0x1_0000_0000 >= 0x8000_0000;
    if x < 0 {
      forall a, n | 0 <= a <= INT_MAX && 1 <= n <= QMEM_MAX_QUBITS_PER_BLOCK ensures !Exceeds(MACHINE, a, n, x) {
        MachineTestExact(a, n, x);
      }
    } else {
      MachineTestExact(INT_MAX, QMEM_MAX_QUBITS_PER_BLOCK, x);
    }
  }

  // ---- whole sequential runs -----------------------------------------------

  datatype Op = OpAlloc(n: nat, flags: int, ok: bool) | OpGet(id: nat) | OpFree(id: nat) | OpSetMax(v: nat)

  // A get or free of a block that is not in the list is not a legal call and is skipped.
  function Apply(ar: Arith, q: QState, op: Op): QState {
    match op
    case OpAlloc(n, flags, ok) => Alloc(ar, q, n, flags, ok)
    case OpGet(id) => if Listed(q, id) then Get(ar, q, id) else q
    case OpFree(id) => if Listed(q, id) then Free(ar, q, id) else q
    case OpSetMax(v) => SetMax(ar, q, v)
  }

  function Run(ar: Arith, q: QState, ops: seq<Op>): QState {
    Fold((s, op) => Apply(ar, s, op), q, ops)
  }

  ghost function SizeOf(): Blk -> int {
    (b: Blk) => b.size
  }

  // Both counters are the qubits in use, within the quota.
  ghost predicate Balanced(q: QState) {
    q.totalQubits == q.allocatedQubits == Sum(q.blocks, SizeOf()) && 0 <= q.allocatedQubits <= q.maxQubits <= INT_MAX
  }

  lemma {:induction false} AllocBalanced(q: QState, n: nat, flags: int, ok: bool)
    requires Balanced(q)
    ensures Balanced(Alloc(MACHINE, q, n, flags, ok))
  {
    if !BadRequest(n) {
      MachineTestExact(q.allocatedQubits, n, q.maxQubits);
      var b := Blk(q.nextId, n, flags, 1);
      assert ([b] + q.blocks)[1..] == q.blocks;
    }
  }

  lemma {:induction false} GetBalanced(q: QState, id: nat)
    requires Balanced(q) && Listed(q, id)
    ensures Balanced(Get(MACHINE, q, id))
  {
    var k := Find(q.blocks, id);
    SumUpdate(q.blocks, k, q.blocks[k].(refs := Wrap32(q.blocks[k].refs + 1)), SizeOf());
  }

  lemma {:induction false} FreeBalanced(q: QState, id: nat)
    requires Balanced(q) && Listed(q, id)
    ensures Balanced(Free(MACHINE, q, id))
  {
    var k := Find(q.blocks, id);
    if Wrap32(q.blocks[k].refs - 1) != 0 { DropBalanced(q, k); } else { RemoveBalanced(q, k); }
  }

  lemma {:induction false} DropBalanced(q: QState, k: nat)
    requires Balanced(q) && k < |q.blocks| && Wrap32(q.blocks[k].refs - 1) != 0
    ensures Balanced(FreeAt(MACHINE, q, k))
  {
    SumUpdate(q.blocks, k, q.blocks[k].(refs := Wrap32(q.blocks[k].refs - 1)), SizeOf());
  }

  lemma {:induction false} RemoveBalanced(q: QState, k: nat)
    requires Balanced(q) && k < |q.blocks| && Wrap32(q.blocks[k].refs - 1) == 0
    ensures Balanced(FreeAt(MACHINE, q, k))
  {
    SumRemove(q.blocks, k, SizeOf());
    SumNonNegative(q.blocks[..k] + q.blocks[k + 1..], SizeOf());
  }

  lemma {:induction false} ApplyBalanced(q: QState, op: Op)
    requires Balanced(q)
    requires op.OpSetMax? ==> op.v <= INT_MAX
    ensures Balanced(Apply(MACHINE, q, op))
  {
    match op
    case OpAlloc(n, flags, ok) => AllocBalanced(q, n, flags, ok);
    case OpGet(id) => if Listed(q, id) { GetBalanced(q, id); }
    case OpFree(id) => if Listed(q, id) { FreeBalanced(q, id); }
    case OpSetMax(v) =>
  }

  // In every sequential run whose maxima fit an int, the 32-bit counters both
  // equal the qubits in use, never pass the quota, and the statistics add up.
  lemma {:induction false} SequentialQuota(ops: seq<Op>)
    requires forall i :: 0 <= i < |ops| && ops[i].OpSetMax? ==> ops[i].v <= INT_MAX
    ensures Balanced(Run(MACHINE, Init(), ops))
    ensures var q := Run(MACHINE, Init(), ops);
            var st := GetStats(MACHINE, q);
            st.free >= 0 && st.free + st.allocatedQubits == st.maxQubits && st.totalQubits == st.allocatedQubits
  {
    if ops != [] {
      SequentialQuota(ops[..|ops| - 1]);
      ApplyBalanced(Run(MACHINE, Init(), ops[..|ops| - 1]), ops[|ops| - 1]);
    }
  }

  // ---- what callers are told ------------------------------------------------

  ghost predicate MaximaFitInt(ops: seq<Op>) {
    forall i :: 0 <= i < |ops| && ops[i].OpSetMax? ==> ops[i].v <= INT_MAX
  }

  // The qubits of the blocks in the list.
  ghost function InBlocks(q: QState): int {
    Sum(q.blocks, SizeOf())
  }

  // A request the manager can grant: of 1 to 64 qubits that fit under the maximum, with
  // memory to be had.
  ghost predicate Grantable(q: QState, n: nat, ok: bool) {
    1 <= n <= 64 && InBlocks(q) + n <= q.maxQubits && ok
  }

  lemma {:induction false} BalancedAnswer(q: QState, n: nat, ok: bool)
    requires Balanced(q)
    ensures AllocRet(MACHINE, q, n, ok) ==
            if Grantable(q, n, ok) then Got(q.nextId) else Refused(if n == 0 || n > 64 then -22 else -12)
  {
    if !BadRequest(n) { MachineTestExact(q.allocatedQubits, n, q.maxQubits); }
  }

  // After every sequential run whose maxima fit an int: a request is granted exactly if it
  // is for 1 to 64 qubits that fit under the maximum beside the blocks in the list and both
  // kernel allocations succeed. The new block is first, holds what was asked for and one
  // reference, and both counters take its size; a refusal changes nothing and says -EINVAL
  // of a bad size, -ENOMEM of everything else.
  lemma {:induction false} AllocAnswers(ops: seq<Op>, n: nat, flags: int, ok: bool)
    requires MaximaFitInt(ops)
    ensures var q := Run(MACHINE, Init(), ops);
            var q', r := Alloc(MACHINE, q, n, flags, ok), AllocRet(MACHINE, q, n, ok);
            if 1 <= n <= 64 && InBlocks(q) + n <= q.maxQubits && ok then
              && r == Got(q.nextId) && q'.blocks == [Blk(q.nextId, n, flags, 1)] + q.blocks
              && q'.totalQubits == q'.allocatedQubits == InBlocks(q) + n
              && q'.nextId == q.nextId + 1 && q'.maxQubits == q.maxQubits
            else r == Refused(if n == 0 || n > 64 then -22 else -12) && q' == q
  {
    SequentialQuota(ops);
    GrantedIs(Run(MACHINE, Init(), ops), n, flags, ok);
  }

  lemma {:induction false} GrantedIs(q: QState, n: nat, flags: int, ok: bool)
    requires Balanced(q)
    ensures var q', r := Alloc(MACHINE, q, n, flags, ok), AllocRet(MACHINE, q, n, ok);
            if Grantable(q, n, ok) then
              && r == Got(q.nextId) && q'.blocks == [Blk(q.nextId, n, flags, 1)] + q.blocks
              && q'.totalQubits == q'.allocatedQubits == InBlocks(q) + n
              && q'.nextId == q.nextId + 1 && q'.maxQubits == q.maxQubits
            else r == Refused(if n == 0 || n > 64 then -22 else -12) && q' == q
  {
    BalancedAnswer(q, n, ok);
    assert Grantable(q, n, ok) ==> InInt(InBlocks(q) + n);
  }

  // After every such run a new maximum is refused, with -EINVAL and without effect, exactly
  // if it is below the qubits of the blocks in the list; otherwise it is in force.
  lemma {:induction false} SetMaxAnswers(ops: seq<Op>, v: nat)
    requires MaximaFitInt(ops)
    ensures var q := Run(MACHINE, Init(), ops);
            && SetMaxRet(MACHINE, q, v) == (if v < InBlocks(q) then -22 else 0)
            && (v < InBlocks(q) ==> SetMax(MACHINE, q, v) == q)
            && (InBlocks(q) <= v <= INT_MAX ==> SetMax(MACHINE, q, v) == q.(maxQubits := v))
  {
    SequentialQuota(ops);
  }

  // The maximum in force: the last one accepted, 1024 before that.
  ghost function LastAccepted(ops: seq<Op>): int {
    if ops == [] then 1024
    else
      var before, op := ops[..|ops| - 1], ops[|ops| - 1];
      if op.OpSetMax? && op.v >= InBlocks(Run(MACHINE, Init(), before)) then op.v else LastAccepted(before)
  }

  // After every such run the statistics are the qubits of the blocks in the list, twice,
  // the last maximum accepted, and the difference.
  lemma {:induction false} StatsAnswers(ops: seq<Op>)
    requires MaximaFitInt(ops)
    ensures var q := Run(MACHINE, Init(), ops);
            GetStats(MACHINE, q) ==
            Stats(InBlocks(q), InBlocks(q), LastAccepted(ops), LastAccepted(ops) - InBlocks(q))
  {
    SequentialQuota(ops);
    MaximumIsLast(ops);
  }

  lemma {:induction false} MaximumIsLast(ops: seq<Op>)
    requires MaximaFitInt(ops)
    ensures Run(MACHINE, Init(), ops).maxQubits == LastAccepted(ops)
  {
    if ops != [] {
      var before, op := ops[..|ops| - 1], ops[|ops| - 1];
      MaximumIsLast(before);
      if op.OpSetMax? { SetMaxAnswers(before, op.v); } else { KeepsMaximum(Run(MACHINE, Init(), before), op); }
    }
  }

  lemma {:induction false} KeepsMaximum(q: QState, op: Op)
    requires !op.OpSetMax?
    ensures Apply(MACHINE, q, op).maxQubits == q.maxQubits
  {
  }
}
