// Every call of the threaded memory manager comes to its end, under every schedule.
module QMemProgress {
  import opened CInt
  import opened Runs
  import opened Sums
  import opened QMemSpec
  import opened QMemThreads
  import opened QMemSolo

  // A thread can step unless it waits for a held lock, or is not in a call.
  predicate CanStep(s: State, e: Event) {
    e.act.Tick? && e.t < |s.pcs| && !s.pcs[e.t].Idle?
    && (s.pcs[e.t].Passed? || s.pcs[e.t].FreeCalled? ==> s.lock.None?)
  }

  // Steps a call has left at most.
  function Left(pc: Pc): nat {
    match pc
    case Idle => 0
    case SawAllocated(_, _) => 7
    case SawMax(_, _) => 7
    case Passed(_) => 6
    case Getting(_) => 1
    case FreeCalled(_) => 8
    case SetMaxSaw(_, _) => 1
    case In(sec) => StepsLeft(sec)
  }

  ghost function LeftW(): Pc -> int {
    (pc: Pc) => Left(pc)
  }

  ghost function TotalLeft(s: State): int {
    Sum(s.pcs, LeftW())
  }

  lemma {:induction false} OutsideLeft(s: State, t: nat)
    requires t < |s.pcs| && !s.pcs[t].In? && !s.pcs[t].Idle?
    requires s.pcs[t].Passed? || s.pcs[t].FreeCalled? ==> s.lock.None?
    requires s.pcs[t].Getting? ==> s.pcs[t].b in s.heap
    ensures Left(NewPc(OutsideStep(EXACT, s, t), t)) < Left(s.pcs[t])
  {
    if s.pcs[t].Getting? { GetResult(s, t, s.pcs[t].b); }
  }

  function NewPc(s: State, t: nat): Pc {
    if t < |s.pcs| then s.pcs[t] else Idle
  }

  lemma {:induction false} StepProgress(s: State, t: nat, ok: bool)
    requires Inv(s) && CanStep(s, Event(t, Tick(ok)))
    ensures TotalLeft(Step(EXACT, s, t, ok)) < TotalLeft(s)
  {
    var s' := Step(EXACT, s, t, ok);
    StepThread(EXACT, s, t, ok);
    SumUpdate(s.pcs, t, s'.pcs[t], LeftW());
    if s.pcs[t].In? {
      SectionEnds(EXACT, s, s.pcs[t].sec, ok);
    } else {
      if s.pcs[t].Getting? { HeldIsAlive(s, t, s.pcs[t].b); }
      OutsideLeft(s, t);
    }
  }

  // Whatever the interleaving: if any call is unfinished, some thread in a call can step.
  // With the lock held its holder can, otherwise everybody can.
  lemma {:induction false} DeadlockFree(n: nat, evs: seq<Event>)
    ensures var s := Exec(EXACT, Start(n), evs);
            (exists t :: 0 <= t < |s.pcs| && !s.pcs[t].Idle?) ==> exists t: nat :: CanStep(s, Event(t, Tick(true)))
  {
    var s := Exec(EXACT, Start(n), evs);
    ExecInv(n, evs);
    if t :| 0 <= t < |s.pcs| && !s.pcs[t].Idle? {
      assert CanStep(s, Event(if s.lock.Some? then s.lock.value else t, Tick(true)));
    }
  }

  // From any reachable state, whatever thread is picked each time and however its kernel
  // allocations turn out, at most so many steps can be taken; and where nobody can step
  // any more, every call has returned and the lock is free.
  lemma {:induction false} CallsReturn(n: nat, evs: seq<Event>, more: seq<Event>)
    requires Effective(NextOf(EXACT), CanStep, Exec(EXACT, Start(n), evs), more)
    ensures var s := Exec(EXACT, Start(n), evs);
            |more| + TotalLeft(Exec(EXACT, s, more)) <= TotalLeft(s) <= 8 * n
    ensures var s' := Exec(EXACT, Exec(EXACT, Start(n), evs), more);
            (forall t: nat :: !CanStep(s', Event(t, Tick(true)))) ==>
              s'.lock.None? && forall t :: 0 <= t < |s'.pcs| ==> s'.pcs[t].Idle?
  {
    StepsBounded(n, evs, more);
    LeftBounded(n, evs);
    FoldConcat(NextOf(EXACT), Start(n), evs, more);
    StuckIsIdle(n, evs + more);
  }

  lemma {:induction false} LeftBounded(n: nat, evs: seq<Event>)
    ensures TotalLeft(Exec(EXACT, Start(n), evs)) <= 8 * n
  {
    ExecThreads(EXACT, Start(n), evs);
    LeftAtMost(Exec(EXACT, Start(n), evs));
  }

  lemma {:induction false} LeftAtMost(s: State)
    ensures TotalLeft(s) <= 8 * |s.pcs|
  {
    SumBounds(s.pcs, LeftW(), 0, 8);
  }

  lemma {:induction false} StepsBounded(n: nat, evs: seq<Event>, more: seq<Event>)
    requires Effective(NextOf(EXACT), CanStep, Exec(EXACT, Start(n), evs), more)
    ensures var s := Exec(EXACT, Start(n), evs);
            |more| + TotalLeft(Exec(EXACT, s, more)) <= TotalLeft(s)
  {
    ExecInv(n, evs);
    forall x, e | Inv(x) && CanStep(x, e)
      ensures Inv(NextOf(EXACT)(x, e)) && TotalLeft(NextOf(EXACT)(x, e)) < TotalLeft(x) {
      NextProgress(x, e);
    }
    RunsEnd(NextOf(EXACT), CanStep, Inv, TotalLeft, Exec(EXACT, Start(n), evs), more);
  }

  lemma {:induction false} NextProgress(s: State, e: Event)
    requires Inv(s) && CanStep(s, e)
    ensures Inv(Next(EXACT, s, e)) && TotalLeft(Next(EXACT, s, e)) < TotalLeft(s)
  {
    NextInv(s, e);
    StepProgress(s, e.t, e.act.ok);
  }

  lemma {:induction false} StuckIsIdle(n: nat, evs: seq<Event>)
    ensures var s := Exec(EXACT, Start(n), evs);
            (forall t: nat :: !CanStep(s, Event(t, Tick(true)))) ==>
              s.lock.None? && forall t :: 0 <= t < |s.pcs| ==> s.pcs[t].Idle?
  {
    DeadlockFree(n, evs);
    ExecInv(n, evs);
    var s := Exec(EXACT, Start(n), evs);
    if s.lock.Some? { assert s.pcs[s.lock.value].In?; }
  }
}
