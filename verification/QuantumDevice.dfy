// The ioctl interface of the quantum device on top of the quantum memory manager:
// one memory pointer, overwritten by every allocation, used by every free.
module QuantumDevice {
  import opened CInt
  import opened Runs
  import opened Sequences
  import opened Sums
  import opened QMemSpec

  // What `dev->memory` can hold: nothing, an error code cast to a pointer, a block.
  datatype Mem = Null | ErrPtr(errno: int) | Ptr(id: nat)

  // The outcomes of calls into code that is not modelled are part of the command:
  // ret is what the state or gate call returns, copied says whether copy_from_user succeeds,
  // blockOk and stateOk whether the two kernel allocations behind an ALLOC do.
  datatype Cmd =
    | CmdInit(ret: int)
    | CmdMeasure(ret: int)
    | CmdGate(copied: bool, ret: int)
    | CmdAlloc(copied: bool, n: nat, flags: int, blockOk: bool, stateOk: bool)
    | CmdFree
    | CmdOther

  // `fault` records the use of an error pointer, or of a block that is gone, as a block;
  // nothing happens after that.
  datatype Dev = Dev(q: QState, mem: Mem, operations: int, fault: bool)

  function Start(): Dev {
    Dev(QMemSpec.Init(), Null, 0, false)
  }

  function ToMem(r: AllocResult): Mem {
    match r
    case Got(id) => Ptr(id)
    case Refused(e) => ErrPtr(e)
  }

  // ctrlxt_qmem_free(dev->memory) where the pointer is not NULL.
  function FreeMem(d: Dev): Dev
    requires !d.mem.Null?
  {
    if d.mem.Ptr? && Listed(d.q, d.mem.id) then d.(q := QMemSpec.Free(MACHINE, d.q, d.mem.id))
    else d.(fault := true)
  }

  function IoctlRet(d: Dev, cmd: Cmd): int {
    match cmd
    case CmdInit(ret) => ret
    case CmdMeasure(ret) => ret
    case CmdGate(copied, ret) => if copied then ret else -EFAULT
    case CmdAlloc(copied, n, _, blockOk, stateOk) =>
      if !copied then -EFAULT else
        (match AllocRet(MACHINE, d.q, n, blockOk && stateOk)
         case Got(_) => 0
         case Refused(e) => e)
    case CmdFree => 0
    case CmdOther => -ENOTTY
  }

  // The effect on the memory manager and the pointer.
  function IoctlMem(d: Dev, cmd: Cmd): Dev {
    match cmd
    case CmdAlloc(copied, n, flags, blockOk, stateOk) =>
      if copied then d.(q := QMemSpec.Alloc(MACHINE, d.q, n, flags, blockOk && stateOk),
                        mem := ToMem(AllocRet(MACHINE, d.q, n, blockOk && stateOk)))
      else d
    case CmdFree => if d.mem.Null? then d else if FreeMem(d).fault then FreeMem(d) else FreeMem(d).(mem := Null)
    case _ => d
  }

  function Ioctl(d: Dev, cmd: Cmd): Dev {
    if d.fault || IoctlMem(d, cmd).fault then d.(fault := true)
    else IoctlMem(d, cmd).(operations := if IoctlRet(d, cmd) == 0 then Wrap32(d.operations + 1) else d.operations)
  }

  // quantum_exit
  function Exit(d: Dev): Dev {
    if d.fault || d.mem.Null? then d else FreeMem(d)
  }

  function Run(cmds: seq<Cmd>): Dev {
    Fold(Ioctl, Start(), cmds)
  }

  // ---- the commands that matter for ownership -----------------------------------------

  predicate IsMem(cmd: Cmd) {
    cmd.CmdFree? || (cmd.CmdAlloc? && cmd.copied)
  }

  // The result of the allocation that command i asks for.
  function Result(cmds: seq<Cmd>, i: nat): AllocResult
    requires i < |cmds| && cmds[i].CmdAlloc?
  {
    AllocRet(MACHINE, Run(cmds[..i]).q, cmds[i].n, cmds[i].blockOk && cmds[i].stateOk)
  }

  predicate Succeeds(cmds: seq<Cmd>, i: nat) {
    i < |cmds| && cmds[i].CmdAlloc? && cmds[i].copied && Result(cmds, i).Got?
  }

  // The first command from i on that touches the pointer.
  function NextMem(cmds: seq<Cmd>, i: nat): Option<Cmd>
    decreases |cmds| - i
  {
    if i >= |cmds| then None else if IsMem(cmds[i]) then Some(cmds[i]) else NextMem(cmds, i + 1)
  }

  // The last one.
  function LastMem(cmds: seq<Cmd>): (r: Option<nat>)
    ensures r.Some? ==> r.value < |cmds| && IsMem(cmds[r.value]) && NextMem(cmds, r.value + 1) == None
    ensures r.None? ==> forall i :: 0 <= i < |cmds| ==> !IsMem(cmds[i])
  {
    if cmds == [] then None
    else if IsMem(cmds[|cmds| - 1]) then Some(|cmds| - 1)
    else
      var r := LastMem(cmds[..|cmds| - 1]);
      NextMemSnoc(cmds[..|cmds| - 1], cmds[|cmds| - 1], if r.Some? then r.value + 1 else 0);
      assert cmds[..|cmds| - 1] + [cmds[|cmds| - 1]] == cmds;
      r
  }

  lemma {:induction false} NextMemSnoc(cmds: seq<Cmd>, c: Cmd, i: nat)
    requires i <= |cmds|
    ensures NextMem(cmds + [c], i) ==
            if NextMem(cmds, i).Some? then NextMem(cmds, i) else if IsMem(c) then Some(c) else None
    decreases |cmds| - i
  {
    if i < |cmds| { NextMemSnoc(cmds, c, i + 1); }
  }

  // ---- invariant ------------------------------------------------------------------------

  ghost predicate Inv(d: Dev) {
    && Balanced(d.q)
    && (forall i :: 0 <= i < |d.q.blocks| ==> d.q.blocks[i].refs == 1 && d.q.blocks[i].id < d.q.nextId)
    && (forall i, j :: 0 <= i < j < |d.q.blocks| ==> d.q.blocks[i].id != d.q.blocks[j].id)
    && (d.mem.Ptr? && !d.fault ==> Listed(d.q, d.mem.id))
  }

  lemma {:induction false} AllocEffect(q: QState, n: nat, flags: int, ok: bool, id: nat)
    requires Balanced(q)
    ensures var q' := QMemSpec.Alloc(MACHINE, q, n, flags, ok);
            && Balanced(q')
            && (AllocRet(MACHINE, q, n, ok).Got? ==>
                  q'.blocks == [Blk(q.nextId, n, flags, 1)] + q.blocks && q'.nextId == q.nextId + 1 && n > 0)
            && (Listed(q', id) <==> Listed(q, id) || (AllocRet(MACHINE, q, n, ok) == Got(id)))
  {
    AllocBalanced(q, n, flags, ok);
    if AllocRet(MACHINE, q, n, ok).Got? {
      assert ([Blk(q.nextId, n, flags, 1)] + q.blocks)[1..] == q.blocks;
    }
  }

  lemma {:induction false} FreeEffect(q: QState, mine: nat, id: nat)
    requires Balanced(q) && Listed(q, mine) && q.blocks[Find(q.blocks, mine)].refs == 1
    requires forall i, j :: 0 <= i < j < |q.blocks| ==> q.blocks[i].id != q.blocks[j].id
    ensures var q' := QMemSpec.Free(MACHINE, q, mine);
            var k := Find(q.blocks, mine);
            && Balanced(q') && q'.nextId == q.nextId
            && q'.blocks == q.blocks[..k] + q.blocks[k + 1..]
            && (Listed(q', id) <==> Listed(q, id) && id != mine)
  {
    FreeBalanced(q, mine);
    RemovedFind(q.blocks, Find(q.blocks, mine), id);
  }

  lemma {:induction false} RemovedFind(blocks: seq<Blk>, k: nat, id: nat)
    requires k < |blocks| && forall i, j :: 0 <= i < j < |blocks| ==> blocks[i].id != blocks[j].id
    ensures var rest := blocks[..k] + blocks[k + 1..];
            Find(rest, id) < |rest| <==> Find(blocks, id) < |blocks| && id != blocks[k].id
  {
    var rest := blocks[..k] + blocks[k + 1..];
    assert forall i :: 0 <= i < |rest| ==> rest[i] == blocks[if i < k then i else i + 1];
    if Find(blocks, id) < |blocks| && id != blocks[k].id {
      var j := Find(blocks, id);
      FindAt(rest, if j < k then j else j - 1);
    }
    if Find(rest, id) < |rest| {
      var i := Find(rest, id);
      FindAt(blocks, if i < k then i else i + 1);
    }
  }

  lemma {:induction false} IoctlInv(d: Dev, cmd: Cmd)
    requires Inv(d)
    ensures Inv(Ioctl(d, cmd))
  {
    if cmd.CmdAlloc? && cmd.copied {
      AllocInv(d, cmd);
    } else if cmd.CmdFree? && d.mem.Ptr? && !d.fault {
      FreeInv(d);
    }
  }

  lemma {:induction false} AllocInv(d: Dev, cmd: Cmd)
    requires Inv(d) && cmd.CmdAlloc?
    ensures Inv(d.(q := QMemSpec.Alloc(MACHINE, d.q, cmd.n, cmd.flags, cmd.blockOk && cmd.stateOk),
                   mem := ToMem(AllocRet(MACHINE, d.q, cmd.n, cmd.blockOk && cmd.stateOk))))
  {
    AllocEffect(d.q, cmd.n, cmd.flags, cmd.blockOk && cmd.stateOk, d.q.nextId);
  }

  lemma {:induction false} FreeInv(d: Dev)
    requires Inv(d) && d.mem.Ptr? && Listed(d.q, d.mem.id)
    ensures Inv(d.(q := QMemSpec.Free(MACHINE, d.q, d.mem.id), mem := Null))
  {
    FreeEffect(d.q, d.mem.id, 0);
    RestInv(d.q.blocks, Find(d.q.blocks, d.mem.id), d.q.nextId);
  }

  lemma {:induction false} RestInv(blocks: seq<Blk>, k: nat, next: nat)
    requires k < |blocks|
    requires forall i :: 0 <= i < |blocks| ==> blocks[i].refs == 1 && blocks[i].id < next
    requires forall i, j :: 0 <= i < j < |blocks| ==> blocks[i].id != blocks[j].id
    ensures var rest := blocks[..k] + blocks[k + 1..];
            && (forall i :: 0 <= i < |rest| ==> rest[i].refs == 1 && rest[i].id < next)
            && (forall i, j :: 0 <= i < j < |rest| ==> rest[i].id != rest[j].id)
  {
    var rest := blocks[..k] + blocks[k + 1..];
    assert forall i :: 0 <= i < |rest| ==> rest[i] == blocks[if i < k then i else i + 1];
  }

  lemma {:induction false} RunInv(cmds: seq<Cmd>)
    ensures Inv(Run(cmds))
  {
    if cmds != [] {
      RunInv(cmds[..|cmds| - 1]);
      IoctlInv(Run(cmds[..|cmds| - 1]), cmds[|cmds| - 1]);
    }
  }

  // ---- the pointer ------------------------------------------------------------------------

  lemma {:induction false} PointerFollows(cmds: seq<Cmd>)
    requires !Run(cmds).fault
    ensures Run(cmds).mem ==
            match LastMem(cmds)
            case None => Null
            case Some(i) => if cmds[i].CmdFree? then Null else ToMem(Result(cmds, i))
  {
    if cmds != [] {
      var before := cmds[..|cmds| - 1];
      PointerFollows(before);
      match LastMem(before)
      case None =>
      case Some(i) => assert before[..i] == cmds[..i];
    }
  }

  // The last ALLOC or FREE command was an ALLOC that failed.
  predicate LastAllocFailed(cmds: seq<Cmd>) {
    var l := LastMem(cmds);
    l.Some? && cmds[l.value].CmdAlloc? && Result(cmds, l.value).Refused?
  }

  // No FREE follows an ALLOC that failed without another ALLOC in between.
  predicate Careful(cmds: seq<Cmd>) {
    forall i :: 0 <= i < |cmds| && cmds[i].CmdFree? ==> !LastAllocFailed(cmds[..i])
  }

  lemma {:induction false} CarefulBefore(cmds: seq<Cmd>, k: nat)
    requires Careful(cmds) && k <= |cmds|
    ensures Careful(cmds[..k])
  {
    forall i | 0 <= i < k && cmds[..k][i].CmdFree? ensures !LastAllocFailed(cmds[..k][..i]) {
      assert cmds[..k][..i] == cmds[..i];
    }
  }

  lemma {:induction false} NextFault(cmds: seq<Cmd>)
    requires !Run(cmds).fault
    ensures Ioctl(Run(cmds), CmdFree).fault <==> LastAllocFailed(cmds)
    ensures Exit(Run(cmds)).fault <==> LastAllocFailed(cmds)
    ensures forall cmd :: cmd != CmdFree ==> !Ioctl(Run(cmds), cmd).fault
  {
    PointerFollows(cmds);
    RunInv(cmds);
  }

  // A run goes wrong exactly if some FREE follows a failed ALLOC: the error code is then
  // freed as if it were a block. The first such FREE is the one that does it.
  lemma {:induction false} FaultIffCareless(cmds: seq<Cmd>)
    ensures Run(cmds).fault <==> !Careful(cmds)
    ensures Run(cmds).fault <==>
            exists i :: 0 <= i < |cmds| && cmds[i].CmdFree? && !Run(cmds[..i]).fault && LastAllocFailed(cmds[..i])
  {
    if cmds != [] {
      var k := |cmds| - 1;
      var before := cmds[..k];
      FaultIffCareless(before);
      CarefulSnoc(cmds);
      if Run(before).fault {
        var i :| 0 <= i < k && before[i].CmdFree? && !Run(before[..i]).fault && LastAllocFailed(before[..i]);
        assert before[..i] == cmds[..i] && before[i] == cmds[i];
      } else {
        NextFault(before);
      }
    }
  }

  lemma {:induction false} CarefulSnoc(cmds: seq<Cmd>)
    requires cmds != []
    ensures var k := |cmds| - 1;
            Careful(cmds) <==> Careful(cmds[..k]) && (cmds[k].CmdFree? ==> !LastAllocFailed(cmds[..k]))
  {
    var k := |cmds| - 1;
    var before := cmds[..k];
    if Careful(cmds) {
      CarefulBefore(cmds, k);
    } else {
      var i :| 0 <= i < |cmds| && cmds[i].CmdFree? && LastAllocFailed(cmds[..i]);
      if i < k { assert before[i] == cmds[i] && before[..i] == cmds[..i]; }
    }
  }

  // Where no FREE has followed a failed ALLOC, the pointer is what the last ALLOC or FREE
  // command left.
  lemma {:induction false} PointerIsLastCommand(cmds: seq<Cmd>)
    requires Careful(cmds)
    ensures Run(cmds).mem ==
            match LastMem(cmds)
            case None => Null
            case Some(i) => if cmds[i].CmdFree? then Null else ToMem(Result(cmds, i))
  {
    FaultIffCareless(cmds);
    PointerFollows(cmds);
  }

  // The next FREE, or unloading the module, goes wrong exactly when the last ALLOC or FREE
  // command was an ALLOC that failed; no other command does.
  lemma {:induction false} FaultIffAllocFailed(cmds: seq<Cmd>)
    requires Careful(cmds)
    ensures Ioctl(Run(cmds), CmdFree).fault <==> LastAllocFailed(cmds)
    ensures Exit(Run(cmds)).fault <==> LastAllocFailed(cmds)
    ensures forall cmd :: cmd != CmdFree ==> !Ioctl(Run(cmds), cmd).fault
  {
    FaultIffCareless(cmds);
    NextFault(cmds);
  }

  // It can be brought about after every run: an ALLOC of no qubits, or of too many for one
  // block, is refused, and the FREE or exit that follows it faults.
  lemma {:induction false} BadAllocThenFree(cmds: seq<Cmd>, alloc: Cmd)
    requires Careful(cmds) && alloc.CmdAlloc? && alloc.copied && BadRequest(alloc.n)
    ensures LastAllocFailed(cmds + [alloc]) && Careful(cmds + [alloc])
    ensures Run(cmds + [alloc, CmdFree]).fault && Exit(Run(cmds + [alloc])).fault
  {
    var now := cmds + [alloc];
    assert now[..|cmds|] == cmds;
    assert LastMem(now) == Some(|cmds|);
    forall i | 0 <= i < |now| && now[i].CmdFree? ensures !LastAllocFailed(now[..i]) {
      assert now[..i] == cmds[..i];
    }
    FaultIffAllocFailed(now);
    assert cmds + [alloc, CmdFree] == now + [CmdFree];
    FoldSnoc(Ioctl, Start(), now, CmdFree);
  }

  // ---- what the caller is told ------------------------------------------------------------------

  // The device never changes the maximum.
  lemma {:induction false} RunMaximum(cmds: seq<Cmd>)
    ensures Run(cmds).q.maxQubits == 1024
  {
    if cmds != [] {
      RunMaximum(cmds[..|cmds| - 1]);
      IoctlMaximum(Run(cmds[..|cmds| - 1]), cmds[|cmds| - 1]);
    }
  }

  lemma {:induction false} IoctlMaximum(d: Dev, cmd: Cmd)
    ensures Ioctl(d, cmd).q.maxQubits == d.q.maxQubits
  {
  }

  // Commands on the state say what the call they make says, -EFAULT if the parameters cannot
  // be copied, -ENOTTY if there is no such command; they leave the memory as it is.
  lemma {:induction false} StateAnswers(d: Dev, cmd: Cmd)
    requires !d.fault && !cmd.CmdFree? && (cmd.CmdAlloc? ==> !cmd.copied)
    ensures IoctlRet(d, cmd) ==
            match cmd
            case CmdInit(ret) => ret
            case CmdMeasure(ret) => ret
            case CmdGate(copied, ret) => if copied then ret else -14
            case CmdAlloc(_, _, _, _, _) => -14
            case _ => -25
    ensures Ioctl(d, cmd) ==
            if IoctlRet(d, cmd) == 0 then d.(operations := Wrap32(d.operations + 1)) else d
  {
  }

  // After every run without a fault: an ALLOC whose parameters are copied returns 0 exactly
  // if the pointer is then a block, which is exactly if it is for 1 to 64 qubits that fit
  // under 1024 beside those in use, with memory to be had. Otherwise the code it returns is
  // negative, -EINVAL of a bad size and -ENOMEM of everything else, and is in the pointer,
  // and nothing else has changed.
  lemma {:induction false} AllocAnswers(cmds: seq<Cmd>, cmd: Cmd)
    requires !Run(cmds).fault && cmd.CmdAlloc? && cmd.copied
    ensures var d := Run(cmds);
            var d', ret := Ioctl(d, cmd), IoctlRet(d, cmd);
            && (ret == 0 <==> d'.mem.Ptr?)
            && (ret == 0 <==> 1 <= cmd.n <= 64 && InBlocks(d.q) + cmd.n <= 1024 && cmd.blockOk && cmd.stateOk)
            && (ret == 0 ==>
                  && d'.mem == Ptr(d.q.nextId)
                  && d'.q.blocks == [Blk(d.q.nextId, cmd.n, cmd.flags, 1)] + d.q.blocks
                  && d'.operations == Wrap32(d.operations + 1))
            && (ret != 0 ==>
                  && ret == (if cmd.n == 0 || cmd.n > 64 then -22 else -12)
                  && d' == d.(mem := ErrPtr(ret)))
  {
    var d := Run(cmds);
    RunInv(cmds);
    RunMaximum(cmds);
    GrantedIs(d.q, cmd.n, cmd.flags, cmd.blockOk && cmd.stateOk);
  }

  // A FREE that does not go wrong returns 0, leaves no block in the pointer, and counts.
  lemma {:induction false} FreeAnswers(d: Dev)
    requires !Ioctl(d, CmdFree).fault
    ensures var d' := Ioctl(d, CmdFree);
            IoctlRet(d, CmdFree) == 0 && d'.mem == Null && d'.operations == Wrap32(d.operations + 1)
  {
  }

  // Command i took effect: a state or gate call returned 0, an ALLOC left a block in the
  // pointer, or a FREE did not go wrong.
  predicate TookEffect(cmds: seq<Cmd>, i: nat)
    requires i < |cmds|
  {
    var d' := Run(cmds[..i + 1]);
    && !d'.fault
    && match cmds[i]
       case CmdInit(ret) => ret == 0
       case CmdMeasure(ret) => ret == 0
       case CmdGate(copied, ret) => copied && ret == 0
       case CmdAlloc(copied, _, _, _, _) => copied && d'.mem.Ptr?
       case CmdFree => true
       case CmdOther => false
  }

  function CommandsDone(cmds: seq<Cmd>, k: nat): nat
    requires k <= |cmds|
  {
    if k == 0 then 0 else CommandsDone(cmds, k - 1) + if TookEffect(cmds, k - 1) then 1 else 0
  }

  // Over whole runs the operation count is the number of commands that took effect, as far
  // as 32 bits hold it.
  lemma {:induction false} OperationsCounted(cmds: seq<Cmd>, k: nat)
    requires k <= |cmds|
    ensures Run(cmds[..k]).operations == Wrap32(CommandsDone(cmds, k))
  {
    if k > 0 {
      OperationsCounted(cmds, k - 1);
      assert cmds[..k][..k - 1] == cmds[..k - 1];
      OneOperation(cmds, k - 1);
      WrapStep(CommandsDone(cmds, k - 1), 1);
    }
  }

  lemma {:induction false} OneOperation(cmds: seq<Cmd>, i: nat)
    requires i < |cmds|
    ensures Run(cmds[..i + 1]).operations ==
            var was := Run(cmds[..i]).operations;
            if TookEffect(cmds, i) then Wrap32(was + 1) else was
  {
    var d, cmd := Run(cmds[..i]), cmds[i];
    assert cmds[..i + 1][..i] == cmds[..i];
    assert Run(cmds[..i + 1]) == Ioctl(d, cmd);
    if !d.fault {
      if cmd.CmdFree? {
        if !Ioctl(d, cmd).fault { FreeAnswers(d); }
      } else if cmd.CmdAlloc? && cmd.copied {
        AllocAnswers(cmds[..i], cmd);
      } else {
        StateAnswers(d, cmd);
      }
    }
  }

  // ---- ownership ------------------------------------------------------------------------------

  // Command i allocated a block, and the next ALLOC or FREE command freed it.
  predicate Released(cmds: seq<Cmd>, i: nat) {
    NextMem(cmds, i + 1) == Some(CmdFree)
  }

  lemma {:induction false} NextMemNone(cmds: seq<Cmd>, i: nat)
    requires i <= |cmds|
    ensures NextMem(cmds, i) == None <==> forall j :: i <= j < |cmds| ==> !IsMem(cmds[j])
    decreases |cmds| - i
  {
    if i < |cmds| { NextMemNone(cmds, i + 1); }
  }

  lemma {:induction false} IdsGrow(cmds: seq<Cmd>, i: nat)
    requires i <= |cmds|
    ensures Run(cmds[..i]).q.nextId <= Run(cmds).q.nextId
    ensures i < |cmds| && Succeeds(cmds, i) && !Run(cmds).fault ==> Result(cmds, i).id < Run(cmds).q.nextId
  {
    if i == |cmds| {
      assert cmds[..i] == cmds;
    } else {
      var before := cmds[..|cmds| - 1];
      assert before[..i] == cmds[..i];
      IdsGrow(before, i);
      if i < |before| { assert before[i] == cmds[i]; }
    }
  }

  // The pointer is the block of an ALLOC as long as no other ALLOC or FREE followed it.
  lemma {:induction false} PointerWhileLast(cmds: seq<Cmd>, i: nat)
    requires !Run(cmds).fault && Succeeds(cmds, i)
    ensures Run(cmds).mem == Ptr(Result(cmds, i).id) <==> NextMem(cmds, i + 1) == None
  {
    PointerFollows(cmds);
    NextMemNone(cmds, i + 1);
    var l := LastMem(cmds).value;
    NextMemNone(cmds, l + 1);
    if l > i && cmds[l].CmdAlloc? {
      assert cmds[..l][..i] == cmds[..i] && cmds[..l][i] == cmds[i];
      NoFaultBefore(cmds, l);
      IdsGrow(cmds[..l], i);
    }
  }

  lemma {:induction false} NoFaultBefore(cmds: seq<Cmd>, k: nat)
    requires k <= |cmds| && !Run(cmds).fault
    ensures !Run(cmds[..k]).fault
  {
    if k < |cmds| {
      assert cmds[..|cmds| - 1][..k] == cmds[..k];
      NoFaultBefore(cmds[..|cmds| - 1], k);
    } else {
      assert cmds[..k] == cmds;
    }
  }

  // The block of a successful ALLOC is released exactly if the next ALLOC or FREE command
  // is a FREE; a later ALLOC in between loses it for good.
  lemma {:induction false} ReleasedIffNextIsFree(cmds: seq<Cmd>, i: nat)
    requires Careful(cmds) && Succeeds(cmds, i)
    ensures Listed(Run(cmds).q, Result(cmds, i).id) <==> !Released(cmds, i)
  {
    var before, c := cmds[..|cmds| - 1], cmds[|cmds| - 1];
    var d := Run(before);
    RunInv(before);
    CarefulBefore(cmds, |cmds| - 1);
    FaultIffCareless(cmds);
    FaultIffCareless(before);
    assert before + [c] == cmds;
    if i == |before| {
      AllocEffect(d.q, c.n, c.flags, c.blockOk && c.stateOk, d.q.nextId);
    } else {
      assert before[..i] == cmds[..i] && before[i] == cmds[i];
      ReleasedIffNextIsFree(before, i);
      PointerWhileLast(before, i);
      IdsGrow(before, i);
      NextMemSnoc(before, c, i + 1);
      OneMoreCommand(d, c, Result(cmds, i).id);
    }
  }

  lemma {:induction false} OneMoreCommand(d: Dev, c: Cmd, id: nat)
    requires !d.fault && !Ioctl(d, c).fault && Inv(d) && id < d.q.nextId
    ensures Listed(Ioctl(d, c).q, id) <==> Listed(d.q, id) && !(c.CmdFree? && d.mem == Ptr(id))
  {
    if c.CmdAlloc? && c.copied {
      AllocEffect(d.q, c.n, c.flags, c.blockOk && c.stateOk, id);
    } else if c.CmdFree? && d.mem.Ptr? {
      FreeEffect(d.q, d.mem.id, id);
    }
  }

  // Unloading the module frees the block the pointer still names and no other, so what
  // stays linked are exactly the blocks whose next ALLOC or FREE command was an ALLOC.
  lemma {:induction false} LeakedIffOverwritten(cmds: seq<Cmd>, i: nat)
    requires Careful(cmds) && !LastAllocFailed(cmds) && Succeeds(cmds, i)
    ensures !Exit(Run(cmds)).fault
    ensures Listed(Exit(Run(cmds)).q, Result(cmds, i).id) <==>
            NextMem(cmds, i + 1).Some? && NextMem(cmds, i + 1).value.CmdAlloc?
  {
    RunInv(cmds);
    FaultIffCareless(cmds);
    FaultIffAllocFailed(cmds);
    ReleasedIffNextIsFree(cmds, i);
    PointerWhileLast(cmds, i);
    NextMemIsMem(cmds, i + 1);
    var d := Run(cmds);
    if d.mem.Ptr? { FreeEffect(d.q, d.mem.id, Result(cmds, i).id); }
  }

  lemma {:induction false} NextMemIsMem(cmds: seq<Cmd>, i: nat)
    requires i <= |cmds|
    ensures NextMem(cmds, i).Some? ==> IsMem(NextMem(cmds, i).value)
    decreases |cmds| - i
  {
    if i < |cmds| { NextMemIsMem(cmds, i + 1); }
  }

  // ---- qubits ----------------------------------------------------------------------------------

  // The size of the block in dev->memory.
  function Current(d: Dev): nat {
    if d.mem.Ptr? && Listed(d.q, d.mem.id) then d.q.blocks[Find(d.q.blocks, d.mem.id)].size else 0
  }

  // What ALLOC commands have overwritten so far, whether or not they succeeded.
  function Overwritten(cmds: seq<Cmd>): nat {
    if cmds == [] then 0
    else
      var d, c := Run(cmds[..|cmds| - 1]), cmds[|cmds| - 1];
      Overwritten(cmds[..|cmds| - 1]) + if c.CmdAlloc? && c.copied && !d.fault then Current(d) else 0
  }

  // The qubits in use are those of the current block plus those of every block an ALLOC
  // has overwritten, and together they never exceed the quota.
  lemma {:induction false} QubitsAccounted(cmds: seq<Cmd>)
    requires Careful(cmds)
    ensures var d := Run(cmds);
            d.q.allocatedQubits == d.q.totalQubits == Current(d) + Overwritten(cmds) <= d.q.maxQubits
  {
    RunInv(cmds);
    if cmds != [] {
      CarefulBefore(cmds, |cmds| - 1);
      FaultIffCareless(cmds);
      FaultIffCareless(cmds[..|cmds| - 1]);
      QubitsAccounted(cmds[..|cmds| - 1]);
      RunInv(cmds[..|cmds| - 1]);
      QubitsStep(Run(cmds[..|cmds| - 1]), cmds[|cmds| - 1]);
    }
  }

  lemma {:induction false} QubitsStep(d: Dev, c: Cmd)
    requires Inv(d) && !d.fault && !Ioctl(d, c).fault
    ensures var d' := Ioctl(d, c);
            d'.q.allocatedQubits - Current(d') ==
            d.q.allocatedQubits - Current(d) + if c.CmdAlloc? && c.copied then Current(d) else 0
  {
    if c.CmdAlloc? && c.copied {
      AllocQubits(d.q, c.n, c.flags, c.blockOk && c.stateOk);
    } else if c.CmdFree? && d.mem.Ptr? {
      FreeQubits(d.q, d.mem.id);
    }
  }

  lemma {:induction false} AllocQubits(q: QState, n: nat, flags: int, ok: bool)
    requires Balanced(q)
    ensures var q' := QMemSpec.Alloc(MACHINE, q, n, flags, ok);
            match AllocRet(MACHINE, q, n, ok)
            case Refused(_) => q' == q
            case Got(id) =>
              q'.allocatedQubits == q.allocatedQubits + n && Find(q'.blocks, id) == 0 && q'.blocks[0].size == n
  {
    AllocEffect(q, n, flags, ok, q.nextId);
    if AllocRet(MACHINE, q, n, ok).Got? {
      assert q.allocatedQubits + n <= INT_MAX by { MachineTestExact(q.allocatedQubits, n, q.maxQubits); }
    }
  }

  lemma {:induction false} FreeQubits(q: QState, id: nat)
    requires Balanced(q) && Listed(q, id) && q.blocks[Find(q.blocks, id)].refs == 1
    requires forall i, j :: 0 <= i < j < |q.blocks| ==> q.blocks[i].id != q.blocks[j].id
    ensures QMemSpec.Free(MACHINE, q, id).allocatedQubits == q.allocatedQubits - q.blocks[Find(q.blocks, id)].size
  {
    FreeEffect(q, id, 0);
    SumRemove(q.blocks, Find(q.blocks, id), SizeOf());
  }
}
