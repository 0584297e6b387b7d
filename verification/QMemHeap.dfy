// The quantum memory manager on the heap: blocks linked into a circular doubly
// linked list through the head `used_blocks`, updated in place.
module QMemHeap {
  import opened CInt
  import opened QMemSpec

  // A struct quantum_memory_block with its embedded list links. The list head is a
  // node as well; its other fields are not used.
  class Node {
    var next: Node?
    var prev: Node?
    var size: nat
    var flags: int
    var refCount: int
    // serial number of the allocation
    ghost const id: nat
    // false before kzalloc and after kfree
    ghost var live: bool
    // how often the block's quantum state has been freed
    ghost var stateFrees: nat

    constructor (ghost serial: nat)
      ensures live && stateFrees == 0 && id == serial
    {
      next, prev := null, null;
      size, flags, refCount := 0, 0, 0;
      id, live, stateFrees := serial, true, 0;
    }
  }

  // Position i of the ring: the head at 0 and again after the last block.
  ghost function At(head: Node, used: seq<Node>, i: int): Node {
    if 1 <= i <= |used| then used[i - 1] else head
  }

  // The links between positions i and i + 1 agree.
  ghost predicate Linked(head: Node, used: seq<Node>, i: int)
    reads head`next, head`prev, used`next, used`prev
  {
    At(head, used, i).next == At(head, used, i + 1) && At(head, used, i + 1).prev == At(head, used, i)
  }

  // Every one of these blocks has been freed, and its state once.
  ghost predicate Freed(ns: seq<Node>)
    reads ns`live, ns`stateFrees
  {
    forall i :: 0 <= i < |ns| ==> !ns[i].live && ns[i].stateFrees == 1
  }

  // `next` and `prev` are mutually inverse around the ring, the blocks are distinct,
  // and every node is live.
  ghost predicate Ring(head: Node, used: seq<Node>)
    reads head`next, head`prev, head`live, used`next, used`prev, used`live, used`stateFrees
  {
    && head.live && head !in used
    && (forall i, j :: 0 <= i < j < |used| ==> used[i] != used[j])
    && (forall n :: n in used ==> n.live && n.stateFrees == 0)
    && (forall i :: 0 <= i <= |used| ==> Linked(head, used, i))
  }

  // list_add: link a node in directly after the head.
  method ListAdd(node: Node, head: Node, ghost used: seq<Node>)
    requires Ring(head, used) && node.live && node.stateFrees == 0 && node != head && node !in used
    modifies node`next, node`prev, head`next, head`prev, used
    ensures Ring(head, [node] + used)
    ensures forall n :: n in used ==>
              n.size == old(n.size) && n.flags == old(n.flags) && n.refCount == old(n.refCount)
  {
    var first := head.next;
    assert Linked(head, used, 0);
    first.prev := node;
    node.next := first;
    node.prev := head;
    head.next := node;
    ghost var now := [node] + used;
    forall i | 0 <= i <= |now| ensures Linked(head, now, i) {
      if i >= 2 { assert old(Linked(head, used, i - 1)); }
    }
  }

  // list_del: a node's neighbours are joined and its own links poisoned.
  method ListDel(node: Node, head: Node, ghost used: seq<Node>, ghost k: nat)
    requires Ring(head, used) && k < |used| && node == used[k]
    modifies head`next, head`prev, used
    ensures Ring(head, used[..k] + used[k + 1..])
    ensures node.next == null && node.prev == null && node.live && node.stateFrees == 0
    ensures forall n :: n in used ==>
              n.size == old(n.size) && n.flags == old(n.flags) && n.refCount == old(n.refCount)
  {
    assert Linked(head, used, k) && Linked(head, used, k + 1);
    node.next.prev := node.prev;
    node.prev.next := node.next;
    node.next, node.prev := null, null;
    ghost var now := used[..k] + used[k + 1..];
    forall i | 0 <= i <= |now| ensures Linked(head, now, i) {
      if i < k { assert old(Linked(head, used, i)); }
      if i > k { assert old(Linked(head, used, i + 1)); }
    }
  }

  lemma {:induction false} RemovedMembers(used: seq<Node>, k: nat)
    requires k < |used| && forall i, j :: 0 <= i < j < |used| ==> used[i] != used[j]
    ensures forall n :: n in used[..k] + used[k + 1..] <==> n in used && n != used[k]
  {
    forall n | n in used && n != used[k] ensures n in used[..k] + used[k + 1..] {
      var i :| 0 <= i < |used| && used[i] == n;
      if i < k { assert used[..k][i] == n; } else { assert used[k + 1..][i - k - 1] == n; }
    }
  }

  // Serial numbers are below next and fall along the list.
  ghost predicate NewestFirst(used: seq<Node>, next: nat) {
    && (forall i :: 0 <= i < |used| ==> used[i].id < next)
    && (forall i, j :: 0 <= i < j < |used| ==> used[i].id > used[j].id)
  }

  lemma {:induction false} StillNewestFirst(used: seq<Node>, k: nat, next: nat)
    requires NewestFirst(used, next) && k < |used|
    ensures NewestFirst(used[..k] + used[k + 1..], next)
  {
    var rest := used[..k] + used[k + 1..];
    assert forall i :: 0 <= i < |rest| ==> rest[i] == used[if i < k then i else i + 1];
  }

  lemma {:induction false} AddedNewestFirst(b: Node, used: seq<Node>, next: nat)
    requires NewestFirst(used, next) && b.id == next
    ensures NewestFirst([b] + used, next + 1)
  {
  }

  class QMem {
    const head: Node
    var totalQubits: int
    var allocatedQubits: int
    var maxQubits: int
    // the pool pointer is not NULL; the pool is allocated and has not been freed
    var memoryPool: bool
    ghost var poolLive: bool
    ghost var Used: seq<Node>
    ghost var nextId: nat
    // links read from a node that is not allocated
    ghost var deadReads: nat

    ghost predicate Valid()
      reads this`Used, this`nextId
      reads head`next, head`prev, head`live, Used`next, Used`prev, Used`live, Used`stateFrees
    {
      && Ring(head, Used)
      && NewestFirst(Used, nextId)
    }

    ghost function Blocks(): (r: seq<Blk>)
      reads this, Used
      ensures |r| == |Used|
    {
      seq(|Used|, i requires 0 <= i < |Used| reads this, Used =>
        Blk(Used[i].id, Used[i].size, Used[i].flags, Used[i].refCount))
    }

    ghost function Model(): QState
      reads this, Used
    {
      QState(Blocks(), nextId, totalQubits, allocatedQubits, maxQubits)
    }

    // The static object before initialization.
    constructor ()
      ensures fresh(head) && head.live && Used == [] && !memoryPool && !poolLive
    {
      head := new Node(0);
      totalQubits, allocatedQubits, maxQubits := 0, 0, 0;
      memoryPool, poolLive := false, false;
      Used, nextId, deadReads := [], 0, 0;
    }

    // ctrlxt_qmem_init; poolOk is the outcome of kzalloc.
    method Init(poolOk: bool) returns (ret: int)
      requires head.live && Used == []
      modifies this, head
      ensures Valid() && Used == [] && Model() == QMemSpec.Init()
      ensures ret == (if poolOk then 0 else -ENOMEM) && memoryPool == poolLive == poolOk
    {
      head.next, head.prev := head, head;
      nextId := 0;
      totalQubits, allocatedQubits, maxQubits := 0, 0, QMEM_MAX_QUBITS;
      memoryPool, poolLive := poolOk, poolOk;
      if !memoryPool {
        return -ENOMEM;
      }
      return 0;
    }

    // ctrlxt_qmem_alloc; blockOk and stateOk are the outcomes of the two kernel allocations.
    method Alloc(n: nat, flags: int, blockOk: bool, stateOk: bool) returns (block: Node?, err: int)
      requires Valid()
      modifies this`totalQubits, this`allocatedQubits, this`Used, this`nextId, head, Used
      ensures Valid()
      ensures Model() == QMemSpec.Alloc(MACHINE, old(Model()), n, flags, blockOk && stateOk)
      ensures match AllocRet(MACHINE, old(Model()), n, blockOk && stateOk)
              case Got(id) => block != null && fresh(block) && block.id == id && err == 0 && Used == [block] + old(Used)
              case Refused(e) => block == null && err == e && Used == old(Used)
      // with the counters as every run whose maxima fit an int leaves them
      ensures Balanced(old(Model())) ==>
                && (block != null <==>
                      1 <= n <= 64 && InBlocks(old(Model())) + n <= old(maxQubits) && blockOk && stateOk)
                && err == (if block != null then 0 else if n == 0 || n > 64 then -22 else -12)
      ensures block != null <==> err == 0
      ensures err <= 0
    {
      if Balanced(Model()) {
        BalancedAnswer(Model(), n, blockOk && stateOk);
      }
      if n == 0 || n > QMEM_MAX_QUBITS_PER_BLOCK {
        return null, -EINVAL;
      }
      if Wrap64(Wrap64(allocatedQubits) + n) > Wrap64(maxQubits) {
        return null, -ENOMEM;
      }
      block, err := AllocLocked(n, flags, blockOk, stateOk);
    }

    // Past the two tests, from taking the lock to releasing it.
    method AllocLocked(n: nat, flags: int, blockOk: bool, stateOk: bool) returns (block: Node?, err: int)
      requires Valid()
      modifies this`totalQubits, this`allocatedQubits, this`Used, this`nextId, head, Used
      ensures Valid()
      ensures if blockOk && stateOk then
                && block != null && fresh(block) && block.id == old(nextId) && err == 0 && Used == [block] + old(Used)
                && nextId == old(nextId) + 1 && Blocks() == [Blk(old(nextId), n, flags, 1)] + old(Blocks())
                && totalQubits == Wrap32(old(totalQubits) + n) && allocatedQubits == Wrap32(old(allocatedQubits) + n)
              else block == null && err == -ENOMEM && Used == old(Used) && Model() == old(Model())
    {
      if !blockOk {
        return null, -ENOMEM;
      }
      var b := new Node(nextId);
      if !stateOk {
        b.live := false;
        return null, -ENOMEM;
      }
      b.size, b.flags, b.refCount := n, flags, 1;
      Insert(b);
      return b, 0;
    }

    // Link a filled-in block and count it.
    method Insert(b: Node)
      requires Valid() && b.live && b.stateFrees == 0 && b != head && b !in Used && b.id == nextId
      modifies this`totalQubits, this`allocatedQubits, this`Used, this`nextId,
               head`next, head`prev, b`next, b`prev, Used
      ensures Valid() && Used == [b] + old(Used) && nextId == old(nextId) + 1
      ensures Blocks() == [Blk(b.id, b.size, b.flags, b.refCount)] + old(Blocks())
      ensures totalQubits == Wrap32(old(totalQubits) + b.size)
      ensures allocatedQubits == Wrap32(old(allocatedQubits) + b.size) && maxQubits == old(maxQubits)
    {
      Attach(b);
      totalQubits := Wrap32(totalQubits + b.size);
      allocatedQubits := Wrap32(allocatedQubits + b.size);
      ghost var now := [Blk(b.id, b.size, b.flags, b.refCount)] + old(Blocks());
      assert Blocks() == now by {
        forall i | 0 <= i < |Used| ensures Blocks()[i] == now[i] {
          if i > 0 { assert Used[i] == old(Used)[i - 1] && Used[i] in old(Used); }
        }
      }
    }

    method Attach(b: Node)
      requires Valid() && b.live && b.stateFrees == 0 && b != head && b !in Used && b.id == nextId
      modifies this`Used, this`nextId, head`next, head`prev, b`next, b`prev, Used
      ensures Valid() && Used == [b] + old(Used) && nextId == old(nextId) + 1
      ensures forall n :: n in old(Used) ==>
                n.size == old(n.size) && n.flags == old(n.flags) && n.refCount == old(n.refCount)
    {
      AddedNewestFirst(b, Used, nextId);
      ListAdd(b, head, Used);
      Used, nextId := [b] + Used, nextId + 1;
    }

    // ctrlxt_qmem_free, and ctrlxt_qmem_put, which only calls it
    method Free(block: Node?)
      requires Valid() && (block != null ==> block in Used)
      modifies this`totalQubits, this`allocatedQubits, this`Used, head, Used
      ensures Valid()
      ensures block == null ==> Model() == old(Model()) && Used == old(Used)
      ensures block != null ==>
                && Listed(old(Model()), block.id)
                && Model() == QMemSpec.Free(MACHINE, old(Model()), block.id)
                && if Wrap32(old(block.refCount) - 1) != 0 then Used == old(Used)
                   else (forall n :: n in Used <==> n in old(Used) && n != block)
                        && !block.live && block.stateFrees == 1
    {
      if block != null {
        FreeBlock(block);
      }
    }

    method FreeBlock(block: Node)
      requires Valid() && block in Used
      modifies this`totalQubits, this`allocatedQubits, this`Used, head, Used
      ensures Valid() && Listed(old(Model()), block.id)
      ensures Model() == QMemSpec.Free(MACHINE, old(Model()), block.id)
      ensures if Wrap32(old(block.refCount) - 1) != 0 then Used == old(Used)
              else (forall n :: n in Used <==> n in old(Used) && n != block) && !block.live && block.stateFrees == 1
    {
      ghost var k :| 0 <= k < |Used| && Used[k] == block;
      FindAt(Blocks(), k);
      DropReference(block, k);
    }

    method DropReference(block: Node, ghost k: nat)
      requires Valid() && k < |Used| && Used[k] == block
      modifies this`totalQubits, this`allocatedQubits, this`Used, head, Used
      ensures Valid() && Model() == FreeAt(MACHINE, old(Model()), k)
      ensures if Wrap32(old(block.refCount) - 1) != 0 then Used == old(Used)
              else (forall n :: n in Used <==> n in old(Used) && n != block) && !block.live && block.stateFrees == 1
    {
      ghost var was := Blocks();
      block.refCount := Wrap32(block.refCount - 1);
      assert Blocks() == was[k := was[k].(refs := block.refCount)];
      if block.refCount == 0 {
        Discard(block, k);
        RemovedIsRemoved(was, k, was[k].(refs := 0));
      }
    }

    static lemma {:induction false} RemovedIsRemoved(blocks: seq<Blk>, k: nat, b: Blk)
      requires k < |blocks|
      ensures blocks[k := b][..k] + blocks[k := b][k + 1..] == blocks[..k] + blocks[k + 1..]
    {
    }

    // list_del and quantum_state_free, which the free and the teardown share.
    method Unlink(block: Node, ghost k: nat)
      requires Valid() && k < |Used| && Used[k] == block
      modifies this`Used, head`next, head`prev, Used
      ensures Valid() && Used == old(Used)[..k] + old(Used)[k + 1..]
      ensures forall n :: n in Used <==> n in old(Used) && n != block
      ensures Blocks() == old(Blocks())[..k] + old(Blocks())[k + 1..]
      ensures block.size == old(block.size) && block.live && block.stateFrees == 1
    {
      ghost var was := Blocks();
      RemovedMembers(Used, k);
      Detach(block, k);
      assert Blocks() == was[..k] + was[k + 1..] by {
        forall i | 0 <= i < |Used| ensures Blocks()[i] == (was[..k] + was[k + 1..])[i] {
          assert Used[i] == old(Used)[if i < k then i else i + 1] && Used[i] in old(Used);
        }
      }
      block.stateFrees := block.stateFrees + 1;
    }

    method Detach(block: Node, ghost k: nat)
      requires Valid() && k < |Used| && Used[k] == block
      modifies this`Used, head`next, head`prev, Used
      ensures Valid() && Used == old(Used)[..k] + old(Used)[k + 1..]
      ensures forall n :: n in old(Used) ==>
                n.size == old(n.size) && n.flags == old(n.flags) && n.refCount == old(n.refCount)
      ensures block.live && block.stateFrees == 0 && block !in Used
    {
      StillNewestFirst(Used, k, nextId);
      RemovedMembers(Used, k);
      ListDel(block, head, Used, k);
      Used := Used[..k] + Used[k + 1..];
    }

    // The last reference is gone: unlink, free the state, uncount, free the block.
    method Discard(block: Node, ghost k: nat)
      requires Valid() && k < |Used| && Used[k] == block
      modifies this`totalQubits, this`allocatedQubits, this`Used, head, Used
      ensures Valid() && nextId == old(nextId)
      ensures forall n :: n in Used <==> n in old(Used) && n != block
      ensures Blocks() == old(Blocks())[..k] + old(Blocks())[k + 1..]
      ensures totalQubits == Wrap32(old(totalQubits) - old(block.size))
      ensures allocatedQubits == Wrap32(old(allocatedQubits) - old(block.size))
      ensures maxQubits == old(maxQubits) && !block.live && block.stateFrees == 1
    {
      Unlink(block, k);
      totalQubits := Wrap32(totalQubits - block.size);
      allocatedQubits := Wrap32(allocatedQubits - block.size);
      block.live := false;
    }

    // ctrlxt_qmem_get
    method Get(block: Node?) returns (r: Node?)
      requires Valid() && (block != null ==> block in Used)
      modifies Used`refCount
      ensures Valid() && r == block && Used == old(Used)
      ensures block == null ==> Model() == old(Model())
      ensures block != null ==>
                && Listed(old(Model()), block.id)
                && Model() == QMemSpec.Get(MACHINE, old(Model()), block.id)
    {
      if block == null {
        return null;
      }
      ghost var k :| 0 <= k < |Used| && Used[k] == block;
      FindAt(Blocks(), k);
      block.refCount := Wrap32(block.refCount + 1);
      assert Blocks() == old(Blocks())[k := old(Blocks())[k].(refs := block.refCount)];
      return block;
    }

    // ctrlxt_qmem_set_max_qubits; v is an unsigned long
    method SetMaxQubits(v: nat) returns (ret: int)
      modifies this`maxQubits
      ensures Model() == SetMax(MACHINE, old(Model()), v) && ret == SetMaxRet(MACHINE, old(Model()), v)
      ensures Balanced(old(Model())) ==> ret == if v < InBlocks(old(Model())) then -22 else 0
    {
      if v < Wrap64(allocatedQubits) {
        return -EINVAL;
      }
      maxQubits := Wrap32(v);
      return 0;
    }

    // ctrlxt_qmem_get_stats
    method Stats() returns (st: Stats)
      ensures st == GetStats(MACHINE, Model())
      ensures Balanced(Model()) ==>
                && st.totalQubits == st.allocatedQubits == InBlocks(Model()) && st.maxQubits == maxQubits
                && st.free == maxQubits - InBlocks(Model())
    {
      st := QMemSpec.Stats.Stats(totalQubits, allocatedQubits, maxQubits, Wrap32(maxQubits - allocatedQubits));
    }

    // A read of a link.
    method ReadNext(n: Node) returns (r: Node?)
      modifies this`deadReads
      ensures r == n.next && deadReads == old(deadReads) + if n.live then 0 else 1
    {
      r := n.next;
      deadReads := deadReads + if n.live then 0 else 1;
    }

    // qmem_exit: the blocks, then the pool.
    method Exit() returns (freed: seq<Node>)
      requires Valid() && memoryPool == poolLive
      modifies this`Used, this`deadReads, this`poolLive, head, Used
      ensures freed == old(Used) && Used == [] && Valid()
      ensures head.next == head && head.prev == head
      ensures Freed(freed)
      ensures deadReads == old(deadReads) && !poolLive
    {
      freed := FreeAll();
      if memoryPool {
        poolLive := false;
      }
    }

    // The deleting walk with a saved next pointer. It visits every linked block once,
    // whatever its reference count, in list order, and reads no freed node.
    method FreeAll() returns (freed: seq<Node>)
      requires Valid()
      modifies this`Used, this`deadReads, head, Used
      ensures freed == old(Used) && Used == [] && Valid()
      ensures head.next == head && head.prev == head
      ensures Freed(freed)
      ensures deadReads == old(deadReads)
    {
      freed := [];
      ghost var all := Used;
      NextOf(0);
      var block := ReadNext(head);
      if |Used| > 0 { NextOf(1); }
      var tmp := ReadNext(block);
      while block != head
        invariant |freed| <= |all| && Used == all[|freed|..] && freed == all[..|freed|]
        invariant Valid() && deadReads == old(deadReads)
        invariant block == At(head, Used, 1) && (|Used| > 0 ==> tmp == At(head, Used, 2))
        invariant Freed(freed)
        decreases |all| - |freed|
      {
        ghost var i := |freed|;
        OneFurther(all, i);
        var first := block;
        block, tmp := DeleteFirst(first, tmp, freed);
        freed := freed + [first];
      }
      NextOf(0);
    }

    static lemma {:induction false} OneFurther(all: seq<Node>, i: nat)
      requires i < |all| && forall j, k :: 0 <= j < k < |all| ==> all[j] != all[k]
      ensures all[i..][0] == all[i] && all[i..][1..] == all[i + 1..] && all[..i + 1] == all[..i] + [all[i]]
      ensures forall j :: 0 <= j < i ==> all[..i][j] !in all[i..]
    {
    }

    // The body of the walk: unlink the first block, free its state and itself, and go on.
    method DeleteFirst(block: Node, tmp: Node, ghost freed: seq<Node>) returns (next: Node, tmp': Node?)
      requires Valid() && |Used| > 0 && block == Used[0] && tmp == At(head, Used, 2)
      requires Freed(freed) && forall i :: 0 <= i < |freed| ==> freed[i] !in Used
      modifies this`Used, this`deadReads, head`next, head`prev, Used
      ensures Valid() && Used == old(Used)[1..] && deadReads == old(deadReads)
      ensures Freed(freed + [block])
      ensures next == At(head, Used, 1) && (|Used| > 0 ==> tmp' == At(head, Used, 2))
    {
      FreeFirst(block, freed);
      next := tmp;
      if |Used| > 0 { NextOf(1); }
      tmp' := ReadNext(next);
    }

    method FreeFirst(block: Node, ghost freed: seq<Node>)
      requires Valid() && |Used| > 0 && block == Used[0]
      requires Freed(freed) && forall i :: 0 <= i < |freed| ==> freed[i] !in Used
      modifies this`Used, head`next, head`prev, Used
      ensures Valid() && Used == old(Used)[1..]
      ensures Freed(freed + [block])
    {
      assert Used[..0] + Used[0 + 1..] == Used[1..];
      Detach(block, 0);
      block.stateFrees := block.stateFrees + 1;
      block.live := false;
      ghost var now := freed + [block];
      forall i | 0 <= i < |now| ensures !now[i].live && now[i].stateFrees == 1 {
        if i < |freed| { assert freed[i] !in old(Used); }
      }
    }

    lemma {:induction false} NextOf(i: nat)
      requires Valid() && i <= |Used|
      ensures At(head, Used, i).next == At(head, Used, i + 1) && At(head, Used, i + 1).prev == At(head, Used, i)
    {
      assert Linked(head, Used, i);
    }
  }
}
