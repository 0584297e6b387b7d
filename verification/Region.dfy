// The quantum memory region: an allocation returns `start` and advances it, a free
// retracts it if a range test on the address passes. Nothing records which blocks
// are live. On values: one region, its clients, and the stack it turns out to be.
module Region {
  import opened CInt
  import opened Runs
  import opened Sequences
  import opened Sums

  const MEMORY_REGION_NORMAL := 1
  const MEMORY_REGION_QUANTUM := 2
  const QUANTUM_MEMORY_COHERENT := 1
  // one more than the largest unsigned long
  const WORD: int := 0x1_0000_0000_0000_0000

  // start and end are unsigned longs.
  datatype Reg = Reg(start: int, end: int, flags: int)

  predicate Quantum(flags: int) {
    (flags / MEMORY_REGION_QUANTUM) % 2 == 1
  }

  function Advance(r: Reg, size: nat): Reg {
    r.(start := Wrap64(r.start + size))
  }

  // The test of `quantum_memory_free`, in 64-bit arithmetic.
  predicate Accepts(r: Reg, addr: int, size: nat) {
    Quantum(r.flags) && Wrap64(r.start - size) <= addr <= r.end
  }

  function Retract(r: Reg, addr: int, size: nat): Reg {
    if Accepts(r, addr, size) then r.(start := Wrap64(r.start - size)) else r
  }

  // For a block that ends at or below start, the test passes exactly if it is the
  // topmost one (and does not begin beyond the region).
  lemma {:induction false} GuardExact(r: Reg, addr: int, size: nat)
    requires Quantum(r.flags) && 0 <= addr && addr + size <= r.start < WORD
    ensures Accepts(r, addr, size) <==> addr + size == r.start && addr <= r.end
    ensures Accepts(r, addr, size) ==> Retract(r, addr, size).start == addr
  {
  }

  // ---- clients -------------------------------------------------------------------

  datatype Span = Span(addr: int, size: nat)

  predicate Overlaps(a: Span, b: Span) {
    a.addr < b.addr + b.size && b.addr < a.addr + a.size
  }

  // `live` maps the serial number of an allocation to its block until it is freed;
  // `ignored` adds up the sizes of frees that did not move start.
  datatype Sys = Sys(r: Reg, live: map<nat, Span>, next: nat, ignored: nat)

  // A client may free any live block, in any order, with the size it asked for.
  datatype Op = Alloc(size: nat) | Free(id: nat)

  function Do(s: Sys, op: Op): Sys {
    match op
    case Alloc(size) =>
      Sys(Advance(s.r, size),
          if size > 0 then s.live[s.next := Span(s.r.start, size)] else s.live, s.next + 1, s.ignored)
    case Free(id) =>
      if id !in s.live then s
      else
        var b := s.live[id];
        Sys(Retract(s.r, b.addr, b.size), s.live - {id}, s.next,
            if Accepts(s.r, b.addr, b.size) then s.ignored else s.ignored + b.size)
  }

  function Run(s: Sys, ops: seq<Op>): Sys {
    Fold(Do, s, ops)
  }

  function Fresh(base: int, end: int): Sys {
    Sys(Reg(base, end, MEMORY_REGION_QUANTUM), map[], 0, 0)
  }

  // ---- the stack -----------------------------------------------------------------

  datatype Cell = Cell(id: nat, size: nat, dead: bool)

  function Locate(st: seq<Cell>, id: nat): nat {
    First(st, (c: Cell) => c.id == id)
  }

  ghost function CellSize(): Cell -> int {
    (c: Cell) => c.size
  }

  ghost function Bytes(st: seq<Cell>): int {
    Sum(st, CellSize())
  }

  ghost function AddrOf(st: seq<Cell>, base: int, i: nat): int
    requires i <= |st|
  {
    base + Bytes(st[..i])
  }

  // Freeing the top pops it, unless it begins beyond the region; freeing any other cell
  // only marks it, and its bytes stay.
  ghost function StackDo(base: int, end: int, st: seq<Cell>, next: nat, op: Op): seq<Cell> {
    match op
    case Alloc(size) => if size > 0 then st + [Cell(next, size, false)] else st
    case Free(id) =>
      var k := Locate(st, id);
      if k == |st| then st
      else if k == |st| - 1 && !st[k].dead && AddrOf(st, base, k) <= end then st[..k]
      else st[k := st[k].(dead := true)]
  }

  function Allocs(ops: seq<Op>): nat {
    if ops == [] then 0 else Allocs(ops[..|ops| - 1]) + if ops[|ops| - 1].Alloc? then 1 else 0
  }

  ghost function StackRun(base: int, end: int, ops: seq<Op>): seq<Cell> {
    if ops == [] then []
    else StackDo(base, end, StackRun(base, end, ops[..|ops| - 1]), Allocs(ops[..|ops| - 1]), ops[|ops| - 1])
  }

  ghost predicate Layout(st: seq<Cell>, next: nat) {
    && (forall i :: 0 <= i < |st| ==> st[i].id < next && st[i].size > 0)
    && (forall i, j :: 0 <= i < j < |st| ==> st[i].id < st[j].id)
  }

  ghost predicate Entry(live: map<nat, Span>, c: Cell, addr: int) {
    if c.dead then c.id !in live else c.id in live && live[c.id] == Span(addr, c.size)
  }

  // The live blocks are the cells that are not dead, laid out from base upwards.
  ghost predicate Ledger(live: map<nat, Span>, st: seq<Cell>, base: int) {
    && (forall i :: 0 <= i < |st| ==> Entry(live, st[i], AddrOf(st, base, i)))
    && (forall id :: id in live ==> Locate(st, id) < |st|)
  }

  ghost predicate Matches(s: Sys, st: seq<Cell>, base: int) {
    s.r.start == base + Bytes(st) && Layout(st, s.next) && Ledger(s.live, st, base)
  }

  ghost predicate InMachine(s: Sys, base: int) {
    Quantum(s.r.flags) && 0 <= base <= s.r.start < WORD
  }

  lemma {:induction false} BytesPush(st: seq<Cell>, c: Cell)
    ensures Bytes(st + [c]) == Bytes(st) + c.size
  {
    SumConcat(st, [c], CellSize());
  }

  // Bytes below a cell, the cell, and the bytes above it make up the stack.
  lemma {:induction false} BytesSplit(st: seq<Cell>, i: nat)
    requires i < |st|
    ensures Bytes(st) == Bytes(st[..i]) + st[i].size + Bytes(st[i + 1..])
    ensures 0 <= Bytes(st[..i]) && 0 <= Bytes(st[i + 1..])
  {
    assert st == st[..i] + ([st[i]] + st[i + 1..]);
    SumConcat(st[..i], [st[i]] + st[i + 1..], CellSize());
    SumConcat([st[i]], st[i + 1..], CellSize());
    SumNonNegative(st[..i], CellSize());
    SumNonNegative(st[i + 1..], CellSize());
  }

  lemma {:induction false} BytesPositive(st: seq<Cell>)
    requires forall i :: 0 <= i < |st| ==> st[i].size > 0
    ensures Bytes(st) >= 0 && (Bytes(st) == 0 <==> st == [])
  {
    SumNonNegative(st, CellSize());
    if st != [] { BytesSplit(st, 0); }
  }

  lemma {:induction false} AllocMatches(s: Sys, st: seq<Cell>, base: int, size: nat)
    requires Matches(s, st, base) && InMachine(s, base) && s.r.start + size < WORD
    ensures Matches(Do(s, Alloc(size)), StackDo(base, s.r.end, st, s.next, Alloc(size)), base)
  {
    AdvanceFits(s.r, size);
    if size > 0 { PushMatches(s, st, base, size); } else { SkipMatches(s, st, base); }
  }

  lemma {:induction false} AdvanceFits(r: Reg, size: nat)
    requires 0 <= r.start && r.start + size < WORD
    ensures Advance(r, size) == r.(start := r.start + size)
  {
  }

  lemma {:induction false} SkipMatches(s: Sys, st: seq<Cell>, base: int)
    requires Matches(s, st, base)
    ensures Matches(s.(next := s.next + 1), st, base)
  {
  }

  lemma {:induction false} PushMatches(s: Sys, st: seq<Cell>, base: int, size: nat)
    requires Matches(s, st, base) && size > 0
    ensures Matches(Sys(s.r.(start := s.r.start + size), s.live[s.next := Span(s.r.start, size)],
                    s.next + 1, s.ignored),
                    st + [Cell(s.next, size, false)], base)
  {
    BytesPush(st, Cell(s.next, size, false));
    PushLayout(st, s.next, size);
    PushLedger(s.live, st, base, Cell(s.next, size, false));
  }

  lemma {:induction false} PushLayout(st: seq<Cell>, next: nat, size: nat)
    requires Layout(st, next) && size > 0
    ensures Layout(st + [Cell(next, size, false)], next + 1)
  {
  }

  lemma {:induction false} PushLedger(live: map<nat, Span>, st: seq<Cell>, base: int, c: Cell)
    requires Ledger(live, st, base) && !c.dead && forall i :: 0 <= i < |st| ==> st[i].id != c.id
    ensures Ledger(live[c.id := Span(base + Bytes(st), c.size)], st + [c], base)
  {
    var st' := st + [c];
    assert st'[..|st|] == st;
    forall i | 0 <= i < |st'|
      ensures Entry(live[c.id := Span(base + Bytes(st), c.size)], st'[i], AddrOf(st', base, i)) {
      assert st'[..i] == st[..i];
      if i < |st| { assert Entry(live, st[i], AddrOf(st, base, i)); }
    }
    forall id | id in live || id == c.id ensures Locate(st', id) < |st'| {
      LocateBy(st', if id == c.id then |st| else Locate(st, id));
    }
  }

  lemma {:induction false} LocateBy(st: seq<Cell>, k: nat)
    requires k < |st|
    ensures Locate(st, st[k].id) <= k
  {
    FirstBy(st, (c: Cell) => c.id == st[k].id, k);
  }

  // A live block is topmost exactly if it ends at start.
  lemma {:induction false} TopEndsAtStart(s: Sys, st: seq<Cell>, base: int, id: nat)
    requires Matches(s, st, base) && id in s.live
    ensures var k := Locate(st, id);
            && k < |st| && !st[k].dead && s.live[id] == Span(AddrOf(st, base, k), st[k].size)
            && base <= s.live[id].addr && s.live[id].addr + s.live[id].size <= s.r.start
            && (s.live[id].addr + s.live[id].size == s.r.start <==> k == |st| - 1)
  {
    var k := Locate(st, id);
    assert Entry(s.live, st[k], AddrOf(st, base, k));
    BytesSplit(st, k);
    BytesPositive(st[k + 1..]);
  }

  lemma {:induction false} FreeMatches(s: Sys, st: seq<Cell>, base: int, id: nat)
    requires Matches(s, st, base) && InMachine(s, base) && id in s.live
    ensures Matches(Do(s, Free(id)), StackDo(base, s.r.end, st, s.next, Free(id)), base)
  {
    TopEndsAtStart(s, st, base, id);
    var k, b := Locate(st, id), s.live[id];
    GuardExact(s.r, b.addr, b.size);
    if k == |st| - 1 && b.addr <= s.r.end {
      PopMatches(s, st, base);
    } else {
      MarkMatches(s, st, base, k);
    }
  }

  lemma {:induction false} PopMatches(s: Sys, st: seq<Cell>, base: int)
    requires Matches(s, st, base) && |st| > 0 && !st[|st| - 1].dead
    ensures var id := st[|st| - 1].id;
            Matches(s.(r := s.r.(start := s.live[id].addr), live := s.live - {id}), st[..|st| - 1], base)
  {
    assert AddrOf(st, base, |st| - 1) == base + Bytes(st[..|st| - 1]);
    PopLedger(s.live, st, base);
  }

  lemma {:induction false} PopLedger(live: map<nat, Span>, st: seq<Cell>, base: int)
    requires Ledger(live, st, base) && |st| > 0
    requires forall i :: 0 <= i < |st| - 1 ==> st[i].id != st[|st| - 1].id
    ensures Ledger(live - {st[|st| - 1].id}, st[..|st| - 1], base)
  {
    var rest := st[..|st| - 1];
    PopEntries(live, st, base);
    forall id | id in live && id != st[|st| - 1].id ensures Locate(rest, id) < |rest| {
      LocateBy(rest, Locate(st, id));
    }
  }

  lemma {:induction false} PopEntries(live: map<nat, Span>, st: seq<Cell>, base: int)
    requires Ledger(live, st, base) && |st| > 0
    requires forall i :: 0 <= i < |st| - 1 ==> st[i].id != st[|st| - 1].id
    ensures var rest := st[..|st| - 1];
            forall i :: 0 <= i < |rest| ==> Entry(live - {st[|st| - 1].id}, rest[i], AddrOf(rest, base, i))
  {
    var rest := st[..|st| - 1];
    forall i | 0 <= i < |rest| ensures Entry(live - {st[|st| - 1].id}, rest[i], AddrOf(rest, base, i)) {
      assert rest[..i] == st[..i];
      assert Entry(live, st[i], AddrOf(st, base, i));
    }
  }

  lemma {:induction false} MarkMatches(s: Sys, st: seq<Cell>, base: int, k: nat)
    requires Matches(s, st, base) && k < |st| && !st[k].dead
    ensures Matches(s.(live := s.live - {st[k].id}, ignored := s.ignored + st[k].size),
                    st[k := st[k].(dead := true)], base)
  {
    MarkBytes(st, k, |st|);
    assert st[..|st|] == st && st[k := st[k].(dead := true)][..|st|] == st[k := st[k].(dead := true)];
    MarkLedger(s.live, st, base, k);
  }

  lemma {:induction false} MarkLedger(live: map<nat, Span>, st: seq<Cell>, base: int, k: nat)
    requires Ledger(live, st, base) && k < |st| && !st[k].dead
    requires forall i :: 0 <= i < |st| && i != k ==> st[i].id != st[k].id
    ensures Ledger(live - {st[k].id}, st[k := st[k].(dead := true)], base)
  {
    var st' := st[k := st[k].(dead := true)];
    forall i | 0 <= i < |st'| ensures Entry(live - {st[k].id}, st'[i], AddrOf(st', base, i)) {
      MarkBytes(st, k, i);
      assert Entry(live, st[i], AddrOf(st, base, i));
    }
    forall id | id in live && id != st[k].id ensures Locate(st', id) < |st'| {
      MarkLocate(st, k, id);
    }
  }

  lemma {:induction false} MarkBytes(st: seq<Cell>, k: nat, i: nat)
    requires k < |st| && i <= |st|
    ensures Bytes(st[k := st[k].(dead := true)][..i]) == Bytes(st[..i])
  {
    SumSameCells(st[k := st[k].(dead := true)][..i], st[..i]);
  }

  lemma {:induction false} MarkLocate(st: seq<Cell>, k: nat, id: nat)
    requires k < |st| && Locate(st, id) < |st|
    ensures Locate(st[k := st[k].(dead := true)], id) < |st|
  {
    LocateBy(st[k := st[k].(dead := true)], Locate(st, id));
  }

  lemma {:induction false} SumSameCells(a: seq<Cell>, b: seq<Cell>)
    requires |a| == |b| && forall i :: 0 <= i < |a| ==> a[i].size == b[i].size
    ensures Bytes(a) == Bytes(b)
  {
    if a != [] {
      SumSameCells(a[1..], b[1..]);
    }
  }

  // No allocation of the run wraps around 64 bits; it may pass the end of the region.
  ghost predicate Fits(base: int, end: int, ops: seq<Op>) {
    forall k :: 0 <= k < |ops| && ops[k].Alloc? ==> Run(Fresh(base, end), ops[..k]).r.start + ops[k].size < WORD
  }

  lemma {:induction false} FitsPrefix(base: int, end: int, ops: seq<Op>, n: nat)
    requires Fits(base, end, ops) && n <= |ops|
    ensures Fits(base, end, ops[..n])
  {
    var before := ops[..n];
    forall k | 0 <= k < n && before[k].Alloc?
      ensures Run(Fresh(base, end), before[..k]).r.start + before[k].size < WORD {
      assert before[..k] == ops[..k] && before[k] == ops[k];
    }
  }

  // The allocator, which keeps nothing but `start`, refines the stack, for any order of
  // frees: only a free of a top that begins within the region takes effect.
  lemma {:induction false} RefinesStack(base: int, end: int, ops: seq<Op>)
    requires 0 <= base < WORD && Fits(base, end, ops)
    ensures var s := Run(Fresh(base, end), ops);
            Matches(s, StackRun(base, end, ops), base) && InMachine(s, base) && s.next == Allocs(ops) && s.r.end == end
  {
    if ops != [] {
      var before, op := ops[..|ops| - 1], ops[|ops| - 1];
      FitsPrefix(base, end, ops, |ops| - 1);
      RefinesStack(base, end, before);
      var s, st := Run(Fresh(base, end), before), StackRun(base, end, before);
      match op
      case Alloc(size) => AllocMatches(s, st, base, size);
      case Free(id) =>
        if id in s.live {
          TopEndsAtStart(s, st, base, id);
          GuardExact(s.r, s.live[id].addr, s.live[id].size);
          FreeMatches(s, st, base, id);
        } else {
          var k := Locate(st, id);
          if k < |st| {
            assert st[k].dead;
            assert st[k := st[k].(dead := true)] == st;
          }
        }
    }
  }

  // Live blocks are disjoint and lie between base and start, for any order of frees and
  // whether or not they lie within the region.
  lemma {:induction false} LiveBlocksDisjoint(base: int, end: int, ops: seq<Op>, id1: nat, id2: nat)
    requires 0 <= base < WORD && Fits(base, end, ops)
    requires var s := Run(Fresh(base, end), ops); id1 in s.live && id2 in s.live && id1 != id2
    ensures var s := Run(Fresh(base, end), ops);
            var b1, b2 := s.live[id1], s.live[id2];
            && base <= b1.addr && b1.addr + b1.size <= s.r.start
            && (b1.addr + b1.size <= b2.addr || b2.addr + b2.size <= b1.addr)
  {
    var s, st := Run(Fresh(base, end), ops), StackRun(base, end, ops);
    RefinesStack(base, end, ops);
    TopEndsAtStart(s, st, base, id1);
    TopEndsAtStart(s, st, base, id2);
    var k1, k2 := Locate(st, id1), Locate(st, id2);
    if k1 < k2 {
      assert st[..k2][..k1] == st[..k1];
      BytesSplit(st[..k2], k1);
    } else {
      assert st[..k1][..k2] == st[..k2];
      BytesSplit(st[..k1], k2);
    }
  }

  // In every such run the test of a free passes exactly for the top of the stack, if that
  // begins within the region.
  lemma {:induction false} FreeTakesEffectIffTop(base: int, end: int, ops: seq<Op>, id: nat)
    requires 0 <= base < WORD && Fits(base, end, ops)
    requires id in Run(Fresh(base, end), ops).live
    ensures var s, st := Run(Fresh(base, end), ops), StackRun(base, end, ops);
            && |st| > 0
            && (Accepts(s.r, s.live[id].addr, s.live[id].size) <==> st[|st| - 1].id == id && s.live[id].addr <= end)
  {
    var s, st := Run(Fresh(base, end), ops), StackRun(base, end, ops);
    RefinesStack(base, end, ops);
    TopEndsAtStart(s, st, base, id);
    GuardExact(s.r, s.live[id].addr, s.live[id].size);
    if st[|st| - 1].id == id { assert Locate(st, id) == |st| - 1; }
  }

  // No allocation is refused: in every such run a block of any size is handed out at start,
  // whether or not the region has so many bytes left, and one that begins beyond the end is
  // never taken back, whatever start is by then.
  lemma {:induction false} PastTheEnd(base: int, end: int, ops: seq<Op>, size: nat)
    requires 0 <= base < WORD && Fits(base, end, ops + [Alloc(size)]) && size > 0
    ensures var s, s' := Run(Fresh(base, end), ops), Run(Fresh(base, end), ops + [Alloc(size)]);
            && s.next in s'.live && s'.live[s.next] == Span(s.r.start, size)
            && s'.r.start == s.r.start + size
            && (s.r.start > end ==> forall start :: !Accepts(s'.r.(start := start), s.r.start, size))
  {
    var s := Run(Fresh(base, end), ops);
    assert (ops + [Alloc(size)])[..|ops|] == ops;
    FitsPrefix(base, end, ops + [Alloc(size)], |ops|);
    RefinesStack(base, end, ops);
    FoldSnoc(Do, Fresh(base, end), ops, Alloc(size));
  }

  // Where the sum wraps around, the same bytes are handed out a second time.
  lemma {:induction false} WrapOverlaps(base: int, end: int, m: nat, n: nat)
    requires 0 < m && 0 < n && 0 <= base && base + m < WORD && base + n < WORD
    ensures var s := Run(Fresh(base, end), [Alloc(m), Alloc(WORD - m), Alloc(n)]);
            && 0 in s.live && 2 in s.live && s.live[0] == Span(base, m) && s.live[2] == Span(base, n)
            && Overlaps(s.live[0], s.live[2])
  {
    var s0 := Fresh(base, end);
    FoldFirst(Do, s0, Alloc(m), [Alloc(WORD - m), Alloc(n)]);
    FoldFirst(Do, Do(s0, Alloc(m)), Alloc(WORD - m), [Alloc(n)]);
    FoldOne(Do, Do(Do(s0, Alloc(m)), Alloc(WORD - m)), Alloc(n));
    assert [Alloc(m)] + [Alloc(WORD - m), Alloc(n)] == [Alloc(m), Alloc(WORD - m), Alloc(n)];
    assert [Alloc(WORD - m)] + [Alloc(n)] == [Alloc(WORD - m), Alloc(n)];
    AdvanceFits(s0.r, m);
  }

  // ---- what ignored frees cost -----------------------------------------------------

  // A cell that was freed out of order, and everything under it, never goes away: start
  // stays above it through every continuation of the run.
  lemma {:induction false} IgnoredFreeIsPermanent(base: int, end: int, ops: seq<Op>, more: seq<Op>, i: nat)
    requires i < |StackRun(base, end, ops)| && StackRun(base, end, ops)[i].dead
    ensures var st, st' := StackRun(base, end, ops), StackRun(base, end, ops + more);
            && i < |st'| && st'[i].dead
            && forall j :: 0 <= j <= i ==> st'[j].id == st[j].id && st'[j].size == st[j].size
  {
    if more == [] {
      assert ops + more == ops;
    } else {
      assert (ops + more)[..|ops + more| - 1] == ops + more[..|more| - 1];
      IgnoredFreeIsPermanent(base, end, ops, more[..|more| - 1], i);
    }
  }

  ghost function LiveW(): Cell -> int {
    (c: Cell) => if c.dead then 0 else c.size
  }

  ghost function DeadW(): Cell -> int {
    (c: Cell) => if c.dead then c.size else 0
  }

  lemma {:induction false} BytesByKind(st: seq<Cell>)
    ensures Bytes(st) == Sum(st, LiveW()) + Sum(st, DeadW())
  {
    if st != [] { BytesByKind(st[1..]); }
  }

  // The frees that did not move start are exactly the dead cells.
  lemma {:induction false} IgnoredIsDead(base: int, end: int, ops: seq<Op>)
    requires 0 <= base < WORD && Fits(base, end, ops)
    ensures Run(Fresh(base, end), ops).ignored == Sum(StackRun(base, end, ops), DeadW())
  {
    if ops != [] {
      var before, op := ops[..|ops| - 1], ops[|ops| - 1];
      FitsPrefix(base, end, ops, |ops| - 1);
      IgnoredIsDead(base, end, before);
      RefinesStack(base, end, before);
      IgnoredStep(Run(Fresh(base, end), before), StackRun(base, end, before), base, op);
    }
  }

  lemma {:induction false} IgnoredStep(s: Sys, st: seq<Cell>, base: int, op: Op)
    requires Matches(s, st, base) && InMachine(s, base)
    ensures Do(s, op).ignored - s.ignored == Sum(StackDo(base, s.r.end, st, s.next, op), DeadW()) - Sum(st, DeadW())
  {
    match op
    case Alloc(size) => SumConcat(st, [Cell(s.next, size, false)], DeadW());
    case Free(id) =>
      var k := Locate(st, id);
      if id in s.live {
        TopEndsAtStart(s, st, base, id);
        GuardExact(s.r, s.live[id].addr, s.live[id].size);
        SumUpdate(st, k, st[k].(dead := true), DeadW());
        SumRemove(st, k, DeadW());
        assert k == |st| - 1 ==> st[..k] + st[k + 1..] == st[..k];
      } else if k < |st| {
        assert st[k := st[k].(dead := true)] == st;
      }
  }

  // start - base is the live bytes plus the bytes of every free that was ignored; so the
  // region is back at its base exactly if the stack is empty.
  lemma {:induction false} BytesAccounted(base: int, end: int, ops: seq<Op>)
    requires 0 <= base < WORD && Fits(base, end, ops)
    ensures var s, st := Run(Fresh(base, end), ops), StackRun(base, end, ops);
            && s.r.start - base == Sum(st, LiveW()) + s.ignored
            && (s.r.start == base <==> st == [])
            && (s.r.start == base <==> s.live == map[] && s.ignored == 0)
  {
    var s, st := Run(Fresh(base, end), ops), StackRun(base, end, ops);
    RefinesStack(base, end, ops);
    IgnoredIsDead(base, end, ops);
    BytesByKind(st);
    BytesPositive(st);
    SumNonNegative(st, LiveW());
    SumNonNegative(st, DeadW());
    if st != [] {
      assert st[0].dead || st[0].id in s.live;
      assert DeadW()(st[0]) <= s.ignored;
    }
    if s.live != map[] {
      var id :| id in s.live;
      assert Locate(st, id) < |st|;
    }
  }

  // ---- which frees are harmless ------------------------------------------------------

  // Cells up to the topmost live one, and the address it ends at; 0 if nothing is live.
  function LiveHeight(st: seq<Cell>): (k: nat)
    ensures k <= |st| && (k > 0 ==> !st[k - 1].dead)
    ensures forall i :: k <= i < |st| ==> st[i].dead
  {
    if st == [] then 0 else if !st[|st| - 1].dead then |st| else LiveHeight(st[..|st| - 1])
  }

  ghost function HighestEnd(st: seq<Cell>, base: int): int {
    if LiveHeight(st) == 0 then 0 else AddrOf(st, base, LiveHeight(st))
  }

  lemma {:induction false} AddrMonotone(st: seq<Cell>, base: int, i: nat, j: nat)
    requires i <= j <= |st|
    ensures AddrOf(st, base, i) <= AddrOf(st, base, j)
    ensures i < |st| ==> AddrOf(st, base, i + 1) == AddrOf(st, base, i) + st[i].size
  {
    assert st[..j] == st[..i] + st[i..j];
    SumConcat(st[..i], st[i..j], CellSize());
    SumNonNegative(st[i..j], CellSize());
    if i < |st| {
      assert st[..i + 1] == st[..i] + [st[i]];
      BytesPush(st[..i], st[i]);
    }
  }

  // It is where the highest live block ends.
  lemma {:induction false} HighestEndIsMax(s: Sys, st: seq<Cell>, base: int)
    requires Matches(s, st, base) && base >= 0
    ensures forall id :: id in s.live ==> s.live[id].addr + s.live[id].size <= HighestEnd(st, base) <= s.r.start
    ensures s.live != map[] ==> exists id :: id in s.live && s.live[id].addr + s.live[id].size == HighestEnd(st, base)
    ensures s.live == map[] ==> HighestEnd(st, base) == 0
  {
    forall id | id in s.live ensures s.live[id].addr + s.live[id].size <= HighestEnd(st, base) <= s.r.start {
      BelowHighest(s, st, base, id);
    }
    if LiveHeight(st) > 0 { HighestIsLive(s, st, base); }
    if id :| id in s.live {
      assert Locate(st, id) < |st| && Entry(s.live, st[Locate(st, id)], AddrOf(st, base, Locate(st, id)));
    }
  }

  lemma {:induction false} HighestIsLive(s: Sys, st: seq<Cell>, base: int)
    requires Matches(s, st, base) && LiveHeight(st) > 0
    ensures var id := st[LiveHeight(st) - 1].id;
            id in s.live && s.live[id].addr + s.live[id].size == HighestEnd(st, base)
  {
    var k := LiveHeight(st);
    AddrMonotone(st, base, k - 1, k);
    assert Entry(s.live, st[k - 1], AddrOf(st, base, k - 1));
  }

  lemma {:induction false} BelowHighest(s: Sys, st: seq<Cell>, base: int, id: nat)
    requires Matches(s, st, base) && id in s.live
    ensures s.live[id].addr + s.live[id].size <= HighestEnd(st, base) <= s.r.start
  {
    var i, k := Locate(st, id), LiveHeight(st);
    TopEndsAtStart(s, st, base, id);
    assert i < k;
    AddrMonotone(st, base, i, k);
    AddrMonotone(st, base, i + 1, k);
    AddrMonotone(st, base, k, |st|);
    assert st[..|st|] == st;
  }

  // Every live block still lies below start.
  ghost predicate Protected(live: map<nat, Span>, r: Reg) {
    forall id :: id in live ==> live[id].addr + live[id].size <= r.start
  }

  // In every such run, whatever address and size a free is called with: the live blocks
  // stay protected exactly if the test fails, or the subtraction wraps around (start then
  // moves forward), or the size is at most the bytes above the topmost live block. If not,
  // the next allocation of that size hands out bytes of a live block.
  lemma {:induction false} FreeHarmlessIff(base: int, end: int, ops: seq<Op>, addr: int, size: nat)
    requires 0 <= base < WORD && Fits(base, end, ops)
    requires size < WORD
    ensures var s := Run(Fresh(base, end), ops);
            var r := Retract(s.r, addr, size);
            && (Protected(s.live, r) <==>
                  || !Accepts(s.r, addr, size) || size > s.r.start
                  || size <= s.r.start - HighestEnd(StackRun(base, end, ops), base))
            && (!Protected(s.live, r) ==> exists id :: id in s.live && Overlaps(s.live[id], Span(r.start, size)))
  {
    var s, st := Run(Fresh(base, end), ops), StackRun(base, end, ops);
    RefinesStack(base, end, ops);
    HighestEndIsMax(s, st, base);
    RetractMoves(s.r, addr, size);
    if s.live != map[] {
      var id :| id in s.live && s.live[id].addr + s.live[id].size == HighestEnd(st, base);
      TopEndsAtStart(s, st, base, id);
      assert st[Locate(st, id)].size > 0;
    }
  }

  lemma {:induction false} RetractMoves(r: Reg, addr: int, size: nat)
    requires 0 <= r.start < WORD && size < WORD
    ensures var r' := Retract(r, addr, size);
            if !Accepts(r, addr, size) then r' == r
            else if size <= r.start then r'.start == r.start - size
            else r'.start == r.start - size + WORD > r.start
  {
  }

  // Freeing a second time a block whose first free took effect: the test passes unless the
  // block's size exceeds its address, start drops a second time by that size, and the other
  // live blocks survive exactly if the bytes between them and the freed block are at least
  // as many.
  lemma {:induction false} SecondFree(base: int, end: int, ops: seq<Op>, id: nat)
    requires 0 <= base < WORD && Fits(base, end, ops)
    requires var s := Run(Fresh(base, end), ops);
             id in s.live && Accepts(s.r, s.live[id].addr, s.live[id].size)
    ensures var b, s := Run(Fresh(base, end), ops).live[id], Run(Fresh(base, end), ops + [Free(id)]);
            var r := Retract(s.r, b.addr, b.size);
            && s.r.start == b.addr
            && (Accepts(s.r, b.addr, b.size) <==> b.size <= b.addr)
            && (b.size <= b.addr ==> r.start == b.addr - b.size)
            && (Protected(s.live, r) <==>
                  b.size > b.addr || b.size <= b.addr - HighestEnd(StackRun(base, end, ops + [Free(id)]), base))
  {
    var s0, s := Run(Fresh(base, end), ops), Run(Fresh(base, end), ops + [Free(id)]);
    var b := s0.live[id];
    RefinesStack(base, end, ops);
    TopEndsAtStart(s0, StackRun(base, end, ops), base, id);
    FoldSnoc(Do, Fresh(base, end), ops, Free(id));
    GuardExact(s0.r, b.addr, b.size);
    FitsFree(base, end, ops, id);
    RetractMoves(s.r, b.addr, b.size);
    FreeHarmlessIff(base, end, ops + [Free(id)], b.addr, b.size);
  }

  lemma {:induction false} FitsFree(base: int, end: int, ops: seq<Op>, id: nat)
    requires Fits(base, end, ops)
    ensures Fits(base, end, ops + [Free(id)])
  {
    var all := ops + [Free(id)];
    forall k | 0 <= k < |all| && all[k].Alloc? ensures Run(Fresh(base, end), all[..k]).r.start + all[k].size < WORD {
      assert all[..k] == ops[..k];
    }
  }

  // It happens: two blocks of any sizes straight from the base, the second freed twice and
  // allocated again, and its bytes are those of the first, which is live.
  lemma {:induction false} DoubleFreeOverlaps(base: int, end: int, m: nat, n: nat)
    requires 0 < m && 0 < n <= base + m && 0 <= base && base + m <= end && base + m + n < WORD
    ensures var s := Run(Fresh(base, end), [Alloc(m), Alloc(n), Free(1)]);
            var r := Retract(s.r, base + m, n);
            && s.live == map[0 := Span(base, m)] && s.r.start == base + m
            && r.start == base + m - n && Overlaps(s.live[0], Span(r.start, n))
  {
    var s2 := Run(Fresh(base, end), [Alloc(m), Alloc(n)]);
    TwoBlocks(base, end, m, n);
    assert [Alloc(m), Alloc(n)] + [Free(1)] == [Alloc(m), Alloc(n), Free(1)];
    FoldSnoc(Do, Fresh(base, end), [Alloc(m), Alloc(n)], Free(1));
    GuardExact(s2.r, base + m, n);
    assert s2.live - {1} == map[0 := Span(base, m)];
    RetractMoves(Do(s2, Free(1)).r, base + m, n);
  }

  lemma {:induction false} TwoBlocks(base: int, end: int, m: nat, n: nat)
    requires 0 < m && 0 < n && 0 <= base && base + m + n < WORD
    ensures Run(Fresh(base, end), [Alloc(m), Alloc(n)]) ==
            Sys(Fresh(base, end).r.(start := base + m + n), map[0 := Span(base, m), 1 := Span(base + m, n)], 2, 0)
  {
    var s0 := Fresh(base, end);
    FoldFirst(Do, s0, Alloc(m), [Alloc(n)]);
    FoldOne(Do, Do(s0, Alloc(m)), Alloc(n));
    assert [Alloc(m)] + [Alloc(n)] == [Alloc(m), Alloc(n)];
    AdvanceFits(s0.r, m);
    AdvanceFits(Do(s0, Alloc(m)).r, n);
    assert map[0 := Span(base, m)][1 := Span(base + m, n)] == map[0 := Span(base, m), 1 := Span(base + m, n)];
  }
}
