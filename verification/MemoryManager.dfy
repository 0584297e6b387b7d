// The memory manager of kernel/mm: the region list, its page counters, and the
// allocator entry points that walk the list.
module MemoryManager {
  import opened CInt
  import opened Region
  import opened Sequences

  const PAGE_SIZE := 4096

  // ---- page arithmetic -------------------------------------------------------------

  function RamBytes(ramPages: nat): int {
    Wrap64(ramPages * PAGE_SIZE)
  }

  function QuantumBytes(ramPages: nat): int {
    RamBytes(ramPages) / 100
  }

  // What one registration adds to total_pages, and one quantum region to quantum_pages,
  // and the counters the two initialization steps leave.
  function AddedPages(pageOffset: nat, ramPages: nat): int {
    Wrap64(Wrap64(pageOffset + RamBytes(ramPages)) - pageOffset) / PAGE_SIZE
  }

  function AddedQuantumPages(ramPages: nat): int {
    QuantumBytes(ramPages) / PAGE_SIZE
  }

  function NormalPages(pageOffset: nat, ramPages: nat): int {
    Wrap32(AddedPages(pageOffset, ramPages))
  }

  function QuantumPages(ramPages: nat): int {
    Wrap32(AddedQuantumPages(ramPages))
  }

  // Without wrap-around in the byte count, total_pages is the RAM size exactly if that
  // fits an int, wherever the kernel maps it, and quantum_pages is one hundredth of it
  // rounded down although the division happens between two shifts.
  lemma {:induction false} PageCounts(pageOffset: nat, ramPages: nat)
    requires ramPages * PAGE_SIZE < 0x1_0000_0000_0000_0000 && pageOffset < 0x1_0000_0000_0000_0000
    ensures NormalPages(pageOffset, ramPages) == ramPages <==> ramPages <= INT_MAX
    ensures ramPages <= INT_MAX ==>
              var q := QuantumPages(ramPages);
              q == ramPages / 100 && 100 * q <= NormalPages(pageOffset, ramPages) < 100 * (q + 1)
  {
    assert Wrap64(Wrap64(pageOffset + RamBytes(ramPages)) - pageOffset) == ramPages * PAGE_SIZE;
  }

  // get_order: the bits of the last page number, as the kernel computes it.
  function GetOrder(size: nat): nat {
    if size == 0 then 52 else Bits((size - 1) / PAGE_SIZE)
  }

  function Bits(n: nat): nat {
    if n == 0 then 0 else 1 + Bits(n / 2)
  }

  function Power2(k: nat): nat {
    if k == 0 then 1 else 2 * Power2(k - 1)
  }

  // It is the least order whose pages cover the size.
  lemma {:induction false} GetOrderCovers(size: nat)
    requires size > 0
    ensures size <= PAGE_SIZE * Power2(GetOrder(size))
    ensures forall k: nat :: k < GetOrder(size) ==> PAGE_SIZE * Power2(k) < size
  {
    var last := (size - 1) / PAGE_SIZE;
    BitsBound(last);
    forall k: nat | k < GetOrder(size) ensures PAGE_SIZE * Power2(k) < size {
      Power2Monotone(k, Bits(last) - 1);
    }
  }

  lemma {:induction false} BitsBound(n: nat)
    ensures n < Power2(Bits(n))
    ensures n > 0 ==> Power2(Bits(n) - 1) <= n
  {
    if n > 0 { BitsBound(n / 2); }
  }

  lemma {:induction false} Power2Monotone(j: nat, k: nat)
    requires j <= k
    ensures Power2(j) <= Power2(k)
  {
    if j < k { Power2Monotone(j, k - 1); }
  }

  // ---- the region list on values -----------------------------------------------------

  function FirstQuantum(regs: seq<Reg>): nat {
    First(regs, (r: Reg) => Quantum(r.flags))
  }

  function FirstAccepting(regs: seq<Reg>, addr: int, size: nat): nat {
    First(regs, (r: Reg) => Accepts(r, addr, size))
  }

  function AllocRegs(regs: seq<Reg>, size: nat): seq<Reg> {
    var k := FirstQuantum(regs);
    if k == |regs| then regs else regs[k := Advance(regs[k], size)]
  }

  function AllocAddr(regs: seq<Reg>): int {
    var k := FirstQuantum(regs);
    if k == |regs| then 0 else regs[k].start
  }

  function FreeRegs(regs: seq<Reg>, addr: int, size: nat): seq<Reg> {
    var k := FirstAccepting(regs, addr, size);
    if k == |regs| then regs else regs[k := Retract(regs[k], addr, size)]
  }

  // The (address, order) pairs mm_exit hands back to the page allocator.
  function ExitPages(regs: seq<Reg>): seq<(int, nat)> {
    Collect(regs, FreedPages)
  }

  function FreedPages(r: Reg): seq<(int, nat)> {
    if Quantum(r.flags) then [(r.start, GetOrder(Wrap64(r.end - r.start)))] else []
  }

  // The quantum region of the list a successful initialization leaves is a hundredth of the
  // bytes of RAM, rounded down to a byte, and the normal region is all of them; what exit
  // then gives back is the start and the least order whose pages cover the region.
  lemma {:induction false} RegionSizes(pageOffset: nat, ramPages: nat, page: nat)
    requires ramPages * 4096 < WORD
    ensures var regs := InitRegs(pageOffset, ramPages, page);
            var size := Wrap64(regs[0].end - regs[0].start);
            && regs[0].start == page && 100 * size <= ramPages * 4096 < 100 * (size + 1)
            && (page + size < WORD ==> regs[0].end == page + size)
            && regs[1].start == pageOffset && Wrap64(regs[1].end - pageOffset) == ramPages * 4096
            && var freed := ExitPages(regs);
               && |freed| == 1 && freed[0].0 == page
               && (ramPages == 0 ==> freed[0].1 == 52)
               && (ramPages > 0 ==> IsLeastOrder(freed[0].1, size))
  {
    var regs := InitRegs(pageOffset, ramPages, page);
    HundredthOf(ramPages);
    WrapBack(page, QuantumBytes(ramPages));
    WrapBack(pageOffset, RamBytes(ramPages));
    OneQuantumRegion(regs[0], regs[1], 0, 0);
    OrderOf(ramPages);
  }

  lemma {:induction false} HundredthOf(ramPages: nat)
    requires ramPages * 4096 < WORD
    ensures RamBytes(ramPages) == ramPages * 4096 && 0 <= QuantumBytes(ramPages) < WORD
    ensures 100 * QuantumBytes(ramPages) <= ramPages * 4096 < 100 * (QuantumBytes(ramPages) + 1)
    ensures ramPages > 0 ==> QuantumBytes(ramPages) > 0
  {
  }

  lemma {:induction false} WrapBack(start: nat, size: int)
    requires 0 <= size < WORD
    ensures Wrap64(Wrap64(start + size) - start) == size
    ensures start + size < WORD ==> Wrap64(start + size) == start + size
  {
  }

  lemma {:induction false} OrderOf(ramPages: nat)
    requires ramPages * 4096 < WORD
    ensures ramPages == 0 ==> GetOrder(QuantumBytes(ramPages)) == 52
    ensures ramPages > 0 ==> IsLeastOrder(GetOrder(QuantumBytes(ramPages)), QuantumBytes(ramPages))
  {
    HundredthOf(ramPages);
    if ramPages > 0 { GetOrderCovers(QuantumBytes(ramPages)); }
  }

  // 4096 * 2^order bytes hold the size, and no smaller order does.
  ghost predicate IsLeastOrder(order: nat, size: nat) {
    && size <= 4096 * Power2(order)
    && forall k: nat :: k < order ==> 4096 * Power2(k) < size
  }

  // The list a successful initialization leaves: the quantum region was added last, so it comes first.
  function InitRegs(pageOffset: nat, ramPages: nat, page: nat): seq<Reg> {
    [Reg(page, Wrap64(page + QuantumBytes(ramPages)), MEMORY_REGION_QUANTUM),
     Reg(pageOffset, Wrap64(pageOffset + RamBytes(ramPages)), MEMORY_REGION_NORMAL)]
  }

  // On that list the walks reduce to the one quantum region.
  lemma {:induction false} OneQuantumRegion(r: Reg, normal: Reg, addr: int, size: nat)
    requires Quantum(r.flags) && normal.flags == MEMORY_REGION_NORMAL
    ensures AllocRegs([r, normal], size) == [Advance(r, size), normal] && AllocAddr([r, normal]) == r.start
    ensures FreeRegs([r, normal], addr, size) == [Retract(r, addr, size), normal]
    ensures ExitPages([r, normal]) == [(r.start, GetOrder(Wrap64(r.end - r.start)))]
  {
    var regs := [r, normal];
    assert regs == [r] + [normal] && [r] == [] + [r];
    CollectSnoc([], r, FreedPages);
    CollectSnoc([r], normal, FreedPages);
  }

  // So the calls of a client on that list are the steps of the one-region runs.
  lemma {:induction false} WalksFollowRuns(s: Sys, normal: Reg, op: Op)
    requires Quantum(s.r.flags) && normal.flags == MEMORY_REGION_NORMAL
    ensures var s' := Do(s, op);
            match op
            case Alloc(size) =>
              && AllocRegs([s.r, normal], size) == [s'.r, normal]
              && (size > 0 ==> s'.live == s.live[s.next := Span(AllocAddr([s.r, normal]), size)])
            case Free(id) =>
              id in s.live ==> FreeRegs([s.r, normal], s.live[id].addr, s.live[id].size) == [s'.r, normal]
  {
    match op
    case Alloc(size) => OneQuantumRegion(s.r, normal, 0, size);
    case Free(id) => if id in s.live { OneQuantumRegion(s.r, normal, s.live[id].addr, s.live[id].size); }
  }

  // After any clients' run that fits, mm_exit returns the address __get_free_pages gave
  // out exactly if the stack is empty, and then with the order it was asked for.
  lemma {:induction false} ExitReturnsPages(pageOffset: nat, ramPages: nat, page: nat, ops: seq<Op>)
    requires page + QuantumBytes(ramPages) < 0x1_0000_0000_0000_0000
    requires Fits(page, page + QuantumBytes(ramPages), ops)
    ensures var regs := InitRegs(pageOffset, ramPages, page);
            var s := Run(Fresh(page, page + QuantumBytes(ramPages)), ops);
            var freed := ExitPages([s.r, regs[1]]);
            && regs[0] == Fresh(page, page + QuantumBytes(ramPages)).r
            && |freed| == 1
            && (freed[0].0 == page <==> StackRun(page, page + QuantumBytes(ramPages), ops) == [])
            && (freed[0] == (page, GetOrder(QuantumBytes(ramPages)))
                <==> StackRun(page, page + QuantumBytes(ramPages), ops) == [])
  {
    var end := page + QuantumBytes(ramPages);
    RefinesStack(page, end, ops);
    BytesAccounted(page, end, ops);
    var s := Run(Fresh(page, end), ops);
    OneQuantumRegion(s.r, InitRegs(pageOffset, ramPages, page)[1], 0, 0);
  }

  // ---- the manager -------------------------------------------------------------------

  class MemoryRegion {
    var start: int
    var end: int
    var flags: int
    var quantumFlags: int

    constructor (start: int, end: int, flags: int, quantumFlags: int)
      ensures this.start == start && this.end == end && this.flags == flags && this.quantumFlags == quantumFlags
    {
      this.start, this.end, this.flags, this.quantumFlags := start, end, flags, quantumFlags;
    }
  }

  class Manager {
    var regions: seq<MemoryRegion>
    var totalPages: int
    var freePages: int
    var quantumPages: int

    ghost predicate Valid()
      reads this
    {
      forall i, j :: 0 <= i < j < |regions| ==> regions[i] != regions[j]
    }

    ghost function Regs(): (r: seq<Reg>)
      reads this, regions
      ensures |r| == |regions|
    {
      seq(|regions|, i requires 0 <= i < |regions| reads this, regions =>
        Reg(regions[i].start, regions[i].end, regions[i].flags))
    }

    constructor ()
      ensures Valid() && Regs() == [] && totalPages == freePages == quantumPages == 0
    {
      regions := [];
      totalPages, freePages, quantumPages := 0, 0, 0;
    }

    // register_memory_regions; ok is the outcome of kzalloc.
    method RegisterMemoryRegions(pageOffset: nat, ramPages: nat, ok: bool) returns (ret: int)
      requires Valid()
      modifies this
      ensures Valid() && fresh(set r | r in regions && r !in old(regions))
      ensures !ok ==> ret == -ENOMEM && unchanged(this)
      ensures ok ==>
                && ret == 0 && quantumPages == old(quantumPages)
                && Regs() == [Reg(pageOffset, Wrap64(pageOffset + RamBytes(ramPages)), MEMORY_REGION_NORMAL)]
                          + old(Regs())
                && regions[1..] == old(regions) && regions[0].quantumFlags == 0
                && (ramPages * 4096 < WORD ==> Wrap64(regions[0].end - pageOffset) == ramPages * 4096)
                && totalPages == Wrap32(old(totalPages) + AddedPages(pageOffset, ramPages))
                && freePages == Wrap32(old(freePages) + AddedPages(pageOffset, ramPages))
    {
      var start, end := pageOffset, Wrap64(pageOffset + RamBytes(ramPages));
      if ramPages * 4096 < WORD {
        HundredthOf(ramPages);
        WrapBack(pageOffset, RamBytes(ramPages));
      }
      if !ok {
        return -ENOMEM;
      }
      var region := new MemoryRegion(start, end, MEMORY_REGION_NORMAL, 0);
      regions := [region] + regions;
      var pages := Wrap64(end - start) / PAGE_SIZE;
      assert pages == AddedPages(pageOffset, ramPages);
      totalPages := Wrap32(totalPages + pages);
      freePages := Wrap32(freePages + pages);
      return 0;
    }

    // init_quantum_memory; page is what __get_free_pages returns, 0 if it fails, and order
    // what it is asked for, if it is.
    method InitQuantumMemory(ramPages: nat, ok: bool, page: nat) returns (ret: int, order: Option<nat>)
      requires Valid()
      modifies this
      ensures Valid() && fresh(set r | r in regions && r !in old(regions))
      ensures !ok || page == 0 ==> ret == -ENOMEM && unchanged(this)
      ensures ok && page != 0 ==>
                && ret == 0 && totalPages == old(totalPages) && freePages == old(freePages)
                && Regs() == [Reg(page, Wrap64(page + QuantumBytes(ramPages)), MEMORY_REGION_QUANTUM)] + old(Regs())
                && regions[1..] == old(regions) && regions[0].quantumFlags == QUANTUM_MEMORY_COHERENT
                && quantumPages == Wrap32(old(quantumPages) + AddedQuantumPages(ramPages))
      ensures order.Some? <==> ok
      // a hundredth of the bytes of RAM, rounded down to a byte
      ensures ok && page != 0 && ramPages * 4096 < WORD ==>
                var size := Wrap64(regions[0].end - page);
                && 100 * size <= ramPages * 4096 < 100 * (size + 1)
                && (ramPages > 0 ==> IsLeastOrder(order.value, size))
    {
      var size := QuantumBytes(ramPages);
      if !ok {
        return -ENOMEM, None;
      }
      order := Some(GetOrder(size));
      if page == 0 {
        return -ENOMEM, order;
      }
      if ramPages * 4096 < WORD {
        HundredthOf(ramPages);
        WrapBack(page, size);
        OrderOf(ramPages);
      }
      var region := new MemoryRegion(page, Wrap64(page + size), MEMORY_REGION_QUANTUM, QUANTUM_MEMORY_COHERENT);
      regions := [region] + regions;
      quantumPages := Wrap32(quantumPages + size / PAGE_SIZE);
      return 0, order;
    }

    // ctrlxt_mm_init
    method Init(pageOffset: nat, ramPages: nat, ok1: bool, ok2: bool, page: nat) returns (ret: int)
      modifies this
      ensures Valid()
      ensures ret == if ok1 && ok2 && page != 0 then 0 else -ENOMEM
      ensures ret == 0 ==>
                && Regs() == InitRegs(pageOffset, ramPages, page)
                && totalPages == freePages == NormalPages(pageOffset, ramPages)
                && quantumPages == QuantumPages(ramPages)
      // what the first step has registered stays if the second one fails
      ensures !ok1 ==> Regs() == [] && totalPages == freePages == quantumPages == 0
      ensures ok1 && ret != 0 ==>
                && Regs() == InitRegs(pageOffset, ramPages, page)[1..]
                && totalPages == freePages == NormalPages(pageOffset, ramPages) && quantumPages == 0
    {
      regions := [];
      totalPages, freePages, quantumPages := 0, 0, 0;
      ret := RegisterMemoryRegions(pageOffset, ramPages, ok1);
      if ret < 0 {
        return -ENOMEM;
      }
      var order: Option<nat>;
      ret, order := InitQuantumMemory(ramPages, ok2, page);
      if ret < 0 {
        return -ENOMEM;
      }
      return 0;
    }

    // quantum_memory_alloc
    method Alloc(size: nat) returns (addr: int)
      requires Valid()
      modifies regions`start
      ensures regions == old(regions) && Regs() == AllocRegs(old(Regs()), size) && addr == AllocAddr(old(Regs()))
      // NULL if there is no quantum region
      ensures (forall r :: r in old(Regs()) ==> (r.flags / 2) % 2 == 0) ==> addr == 0 && Regs() == old(Regs())
    {
      addr := 0;
      var i := 0;
      while i < |regions|
        invariant i <= |regions| && Regs() == old(Regs()) && addr == 0
        invariant forall j :: 0 <= j < i ==> !Quantum(Regs()[j].flags)
      {
        var region := regions[i];
        if (region.flags / MEMORY_REGION_QUANTUM) % 2 == 1 {
          FirstBy(Regs(), (r: Reg) => Quantum(r.flags), i);
          addr := region.start;
          region.start := Wrap64(region.start + size);
          assert Regs() == old(Regs())[i := Advance(old(Regs())[i], size)];
          break;
        }
        i := i + 1;
      }
    }

    // quantum_memory_free
    method Free(addr: int, size: nat)
      requires Valid()
      modifies regions`start
      ensures regions == old(regions) && Regs() == FreeRegs(old(Regs()), addr, size)
    {
      var i := 0;
      while i < |regions|
        invariant i <= |regions| && Regs() == old(Regs())
        invariant forall j :: 0 <= j < i ==> !Accepts(Regs()[j], addr, size)
      {
        var region := regions[i];
        if (region.flags / MEMORY_REGION_QUANTUM) % 2 == 1 {
          if addr >= Wrap64(region.start - size) && addr <= region.end {
            FirstBy(Regs(), (r: Reg) => Accepts(r, addr, size), i);
            region.start := Wrap64(region.start - size);
            assert Regs() == old(Regs())[i := Retract(old(Regs())[i], addr, size)];
            break;
          }
        }
        i := i + 1;
      }
    }

    // mm_exit: returns the calls it makes to free_pages, in order.
    method Exit() returns (freed: seq<(int, nat)>)
      modifies this`regions
      ensures freed == ExitPages(old(Regs())) && regions == []
    {
      freed := [];
      ghost var all := Regs();
      ghost var k := 0;
      while regions != []
        invariant k <= |all| && regions == old(regions)[k..]
        invariant freed == ExitPages(all[..k])
        decreases |regions|
      {
        var region := regions[0];
        assert all[k] == Reg(region.start, region.end, region.flags);
        assert all[..k + 1] == all[..k] + [all[k]];
        CollectSnoc(all[..k], all[k], FreedPages);
        if (region.flags / MEMORY_REGION_QUANTUM) % 2 == 1 {
          freed := freed + [(region.start, GetOrder(Wrap64(region.end - region.start)))];
        }
        regions := regions[1..];
        k := k + 1;
      }
      assert all[..k] == all;
    }
  }
}
