// How many references to one block the 32-bit count can take: with up to 2^32 of them the
// machine frees a block exactly when the last one goes; one more is too many.
module QMemRefs {
  import opened CInt
  import opened Runs
  import opened Sequences
  import opened Sums
  import opened QMemSpec
  import opened QMemThreads
  import opened QMemSolo
  import opened QMemQuota
  import opened QMemMachine

  // No step has touched freed memory, every block somebody refers to is allocated, its count
  // is the number of references as far as an int can hold it, and every other block has
  // been freed once, with its state, or is being freed.
  ghost predicate RefsSafe(s: State) {
    && !s.fault
    && (forall b: Id :: Outstanding(s, b) > 0 ==> b in s.heap)
    && (forall b: Id :: b in s.heap ==> s.heap[b].refs == Wrap32(Outstanding(s, b)))
    && (forall b: Id :: s.kfreed[b] == if b < s.nextId && b !in s.heap then 1 else 0)
    && (forall b: Id :: s.kfreed[b] <= s.statesFreed[b] <= 1)
    && (forall b: Id :: b < s.nextId && Outstanding(s, b) == 0 ==> s.kfreed[b] == 1 || Dying(Holder(s), b))
  }

  // In every run in which no block ever has more than 2^32 references.
  lemma {:induction false} MachineRefcountSafety(n: nat, evs: seq<Event>, m: int)
    requires MaximaAtMost(n, evs, m) && AlwaysRefsAtMost(MACHINE, n, evs, MAX_REFS)
    ensures RefsSafe(Exec(MACHINE, Start(n), evs))
  {
    MachineIsExact(n, evs, m);
    RefcountSafety(n, evs);
    ExecInv(n, evs);
    StoredRefsSafe(Exec(EXACT, Start(n), evs));
  }

  lemma {:induction false} StoredRefsSafe(s: State)
    requires Inv(s)
    requires forall b: Id :: s.kfreed[b] <= s.statesFreed[b] <= 1
    requires forall b: Id :: b < s.nextId && Outstanding(s, b) == 0 ==> s.kfreed[b] == 1 || Dying(Holder(s), b)
    ensures RefsSafe(Wrapped(s))
  {
    var s' := Wrapped(s);
    forall b: Id ensures Outstanding(s', b) == Outstanding(s, b) == RefsOf(s, b) {}
    forall b: Id ensures b in s'.heap <==> b in s.heap {}
    assert Holder(s') == Holder(s);
  }

  // ---- one reference too many -----------------------------------------------------------------

  // k gets of b, one after the other, by one thread.
  function GetCalls(t: nat, b: Id, k: nat): seq<Event> {
    if k == 0 then [] else GetCalls(t, b, k - 1) + CallEvents(t, CallGet(b), true, 1)
  }

  // The machine's state after k gets of b.
  ghost function Taken(s: State, b: Id, k: nat): State
    requires b in s.heap
  {
    s.(heap := Counted(s.heap, b, s.heap[b].refs + k), pool := s.pool[b := s.pool[b] + k])
  }

  ghost function Counted(heap: map<Id, Block>, b: Id, refs: int): map<Id, Block>
    requires b in heap
  {
    heap[b := heap[b].(refs := Wrap32(refs))]
  }

  lemma {:induction false} GetsTaken(s: State, t: nat, b: Id, k: nat)
    requires t < |s.pcs| && s.pcs[t].Idle? && b in s.pool && b in s.heap && InInt(s.heap[b].refs)
    ensures Exec(MACHINE, s, GetCalls(t, b, k)) == Taken(s, b, k)
  {
    if k == 0 {
      NoneTaken(s, b);
    } else {
      GetsTaken(s, t, b, k - 1);
      FoldConcat(NextOf(MACHINE), s, GetCalls(t, b, k - 1), CallEvents(t, CallGet(b), true, 1));
      OneMoreGet(s, Taken(s, b, k - 1), t, b, k);
    }
  }

  lemma {:induction false} NoneTaken(s: State, b: Id)
    requires b in s.heap && InInt(s.heap[b].refs)
    ensures Taken(s, b, 0) == s
  {
    assert Counted(s.heap, b, s.heap[b].refs) == s.heap;
    assert s.pool[b := s.pool[b]] == s.pool;
  }

  lemma {:induction false} OneMoreGet(s: State, s1: State, t: nat, b: Id, k: nat)
    requires t < |s.pcs| && s.pcs[t].Idle? && b in s.pool && b in s.heap && k > 0 && s1 == Taken(s, b, k - 1)
    ensures Exec(MACHINE, s1, CallEvents(t, CallGet(b), true, 1)) == Taken(s, b, k)
  {
    GetSteps(MACHINE, s1, t, b);
    CountedOnce(s.heap, b, s.heap[b].refs + (k - 1));
    PooledOnce(s.pool, b, k);
  }

  lemma {:induction false} CountedOnce(heap: map<Id, Block>, b: Id, refs: int)
    requires b in heap
    ensures var heap' := Counted(heap, b, refs);
            heap'[b := heap'[b].(refs := Wrap32(heap'[b].refs + 1))] == Counted(heap, b, refs + 1)
  {
    WrapStep(refs, 1);
  }

  lemma {:induction false} PooledOnce(pool: multiset<Id>, b: Id, k: nat)
    requires k > 0
    ensures pool[b := pool[b] + (k - 1)] + multiset{b} == pool[b := pool[b] + k]
  {
  }

  // An idle thread whose reference to a block is the only one: 2^32 legal gets and one put
  // free the block, and 2^32 references to it remain.
  lemma {:induction false} RefcountOverflow(s: State, t: nat, b: Id)
    requires t < |s.pcs| && s.pcs[t].Idle? && s.lock.None?
    requires s.pool[b] == 1 && b in s.heap && s.heap[b].refs == 1 && b in s.used
    ensures var s' := Exec(MACHINE, s, GetCalls(t, b, MAX_REFS) + FreeCallEvents(t, b));
            && s'.pcs == s.pcs && s'.pool[b] == MAX_REFS
            && b !in s'.heap && s'.kfreed[b] == s.kfreed[b] + 1
  {
    GetsTaken(s, t, b, MAX_REFS);
    FullLap(s, Taken(s, b, MAX_REFS), b);
    FoldConcat(NextOf(MACHINE), s, GetCalls(t, b, MAX_REFS), FreeCallEvents(t, b));
    FreeSteps(MACHINE, Taken(s, b, MAX_REFS), t, b);
    LastPut(Taken(s, b, MAX_REFS), b);
  }

  // After 2^32 gets the stored count is where it was.
  lemma {:induction false} FullLap(s: State, s': State, b: Id)
    requires b in s.heap && InInt(s.heap[b].refs) && s' == Taken(s, b, MAX_REFS)
    ensures s' == s.(pool := s.pool[b := s.pool[b] + MAX_REFS])
  {
    assert Counted(s.heap, b, s.heap[b].refs + MAX_REFS) == s.heap;
  }

  lemma {:induction false} LastPut(s: State, b: Id)
    requires b in s.heap && b in s.used && s.heap[b].refs == 1 && s.pool[b] > 0
    ensures var s' := Dropped(MACHINE, s, b);
            s'.pcs == s.pcs && b !in s'.heap && s'.pool[b] == s.pool[b] - 1 && s'.kfreed[b] == s.kfreed[b] + 1
  {
  }

  // ---- exactly 2^32 ---------------------------------------------------------------------------

  // After these events of n threads references are counted safely, provided no maximum is
  // out of range and no block ever has more than k references.
  ghost predicate KeepsRefs(n: nat, evs: seq<Event>, k: int) {
    MaximaFit(evs, INT_MAX - 64 * (n - 1)) && AlwaysRefsAtMost(MACHINE, n, evs, k) ==>
      RefsSafe(Exec(MACHINE, Start(n), evs))
  }

  // The machine's reference counting is safe in every run in which no block ever has more
  // than k references exactly if k is at most 2^32.
  lemma {:induction false} RefcountSafeIff(n: nat, k: int)
    requires n > 0 && QMEM_MAX_QUBITS + 64 * (n - 1) <= INT_MAX
    ensures (forall evs: seq<Event> :: KeepsRefs(n, evs, k)) <==> k <= MAX_REFS
  {
    if k <= MAX_REFS {
      forall evs: seq<Event> ensures KeepsRefs(n, evs, k) {
        FewRefsKept(n, evs, k);
      }
    } else {
      OverflowBreaks(n, k);
    }
  }

  lemma {:induction false} FewRefsKept(n: nat, evs: seq<Event>, k: int)
    requires n > 0 && QMEM_MAX_QUBITS + 64 * (n - 1) <= INT_MAX && k <= MAX_REFS
    ensures KeepsRefs(n, evs, k)
  {
    var m := INT_MAX - 64 * (n - 1);
    if MaximaFit(evs, m) && AlwaysRefsAtMost(MACHINE, n, evs, k) {
      MoreRefs(n, evs, k, MAX_REFS);
      MachineRefcountSafety(n, evs, m);
    }
  }

  lemma {:induction false} MoreRefs(n: nat, evs: seq<Event>, k: int, l: int)
    requires AlwaysRefsAtMost(MACHINE, n, evs, k) && k <= l
    ensures AlwaysRefsAtMost(MACHINE, n, evs, l)
  {
    forall i | 0 <= i <= |evs| ensures RefsAtMost(Exec(MACHINE, Start(n), evs[..i]), l) {
      assert RefsAtMost(Exec(MACHINE, Start(n), evs[..i]), k);
    }
  }

  // From initialization: one block, 2^32 gets of it, one put.
  function OverflowRun(): seq<Event> {
    AllocCall(0, FULL, false, true) + (GetCalls(0, 0, MAX_REFS) + FreeCallEvents(0, 0))
  }

  lemma {:induction false} OverflowBreaks(n: nat, k: int)
    requires n > 0 && k > MAX_REFS
    ensures !KeepsRefs(n, OverflowRun(), k)
  {
    OverflowState(n);
    OverflowGets();
    FewGetsFewRefs(MACHINE, n, OverflowRun(), MAX_REFS + 1);
    MoreRefs(n, OverflowRun(), MAX_REFS + 1, k);
    OverflowMaxima(INT_MAX - 64 * (n - 1));
  }

  lemma {:induction false} OverflowState(n: nat)
    requires n > 0
    ensures !RefsSafe(Exec(MACHINE, Start(n), OverflowRun()))
  {
    var s := Exec(MACHINE, Start(n), AllocCall(0, FULL, false, true));
    AllocSteps(MACHINE, Start(n), 0, FULL, false, true);
    FoldConcat(NextOf(MACHINE), Start(n), AllocCall(0, FULL, false, true),
               GetCalls(0, 0, MAX_REFS) + FreeCallEvents(0, 0));
    RefcountOverflow(s, 0, 0);
    SumNonNegative(Exec(MACHINE, Start(n), OverflowRun()).pcs, HoldW(0));
  }

  // ---- what the run asks for --------------------------------------------------------------------

  lemma {:induction false} GetsConcat(a: seq<Event>, c: seq<Event>, b: Id)
    ensures Gets(a + c, b) == Gets(a, b) + Gets(c, b)
  {
    if c == [] {
      assert a + c == a;
    } else {
      assert (a + c)[..|a + c| - 1] == a + c[..|c| - 1];
      GetsConcat(a, c[..|c| - 1], b);
    }
  }

  lemma {:induction false} GetsOfCall(t: nat, call: Act, k: nat, b: Id)
    ensures Gets(CallEvents(t, call, true, k), b) == if call == CallGet(b) then 1 else 0
  {
    GetsConcat([Event(t, call)], Ticks(t, true, k), b);
    NoGets(Ticks(t, true, k), b);
    CountSnoc([], Event(t, call), (e: Event) => e.act == CallGet(b));
    assert [] + [Event(t, call)] == [Event(t, call)];
  }

  lemma {:induction false} GetsOfCalls(t: nat, b: Id, k: nat, c: Id)
    ensures Gets(GetCalls(t, b, k), c) == if b == c then k else 0
  {
    if k > 0 {
      GetsOfCalls(t, b, k - 1, c);
      GetsConcat(GetCalls(t, b, k - 1), CallEvents(t, CallGet(b), true, 1), c);
      GetsOfCall(t, CallGet(b), 1, c);
    }
  }

  lemma {:induction false} OverflowGets()
    ensures forall b: Id :: Gets(OverflowRun(), b) < MAX_REFS + 1
  {
    forall b: Id ensures Gets(OverflowRun(), b) < MAX_REFS + 1 {
      GetsConcat(AllocCall(0, FULL, false, true), GetCalls(0, 0, MAX_REFS) + FreeCallEvents(0, 0), b);
      GetsConcat(GetCalls(0, 0, MAX_REFS), FreeCallEvents(0, 0), b);
      GetsOfCall(0, CallAlloc(FULL, false), 7, b);
      GetsOfCall(0, CallFree(0), 8, b);
      GetsOfCalls(0, 0, MAX_REFS, b);
    }
  }

  lemma {:induction false} OverflowMaxima(v: int)
    ensures MaximaFit(OverflowRun(), v)
  {
    GetsSetNoMax(0, 0, MAX_REFS);
  }

  lemma {:induction false} GetsSetNoMax(t: nat, b: Id, k: nat)
    ensures SetsNoMax(GetCalls(t, b, k))
  {
    if k > 0 {
      GetsSetNoMax(t, b, k - 1);
      BothSetNoMax(GetCalls(t, b, k - 1), CallEvents(t, CallGet(b), true, 1));
    }
  }
}
