// Opening the quantum device: increment the count, test what it became, undo the
// increment if somebody else was first. Any number of threads, one atomic per step.
module OpenProtocol {
  import opened CInt
  import opened Runs
  import opened Sums

  datatype Pc =
    | Idle
    | Counted(v: int)   // atomic_inc_return gave v; not yet compared with 1
    | Rejecting         // will decrement and return -EBUSY
    | Holding           // the open succeeded

  datatype State = State(pcs: seq<Pc>, openCount: int)

  datatype Act = Open | Tick | Release

  datatype Event = Event(t: nat, act: Act)

  function Start(n: nat): State {
    State(seq(n, _ => Idle), 0)
  }

  function Next(s: State, e: Event): State {
    if e.t >= |s.pcs| then s
    else match (s.pcs[e.t], e.act)
      case (Idle, Open) =>
        var v := Wrap32(s.openCount + 1);
        State(s.pcs[e.t := Counted(v)], v)
      case (Counted(v), Tick) => State(s.pcs[e.t := if v > 1 then Rejecting else Holding], s.openCount)
      case (Rejecting, Tick) => State(s.pcs[e.t := Idle], Wrap32(s.openCount - 1))
      case (Holding, Release) => State(s.pcs[e.t := Idle], Wrap32(s.openCount - 1))
      case _ => s
  }

  function Exec(s: State, evs: seq<Event>): State {
    Fold(Next, s, evs)
  }

  // Threads that have been counted: holders, and openers not yet done.
  ghost function BusyW(): Pc -> int {
    (pc: Pc) => if pc.Idle? then 0 else 1
  }

  // A thread that holds the device or is bound to.
  predicate Winner(pc: Pc) {
    pc.Holding? || (pc.Counted? && pc.v <= 1)
  }

  // At most one thread holds the device.
  ghost predicate Exclusive(s: State) {
    forall i, j :: 0 <= i < j < |s.pcs| ==> !(s.pcs[i].Holding? && s.pcs[j].Holding?)
  }

  ghost predicate Inv(s: State) {
    && s.openCount == Sum(s.pcs, BusyW())
    && (forall i, j :: 0 <= i < j < |s.pcs| ==> !(Winner(s.pcs[i]) && Winner(s.pcs[j])))
  }

  lemma {:induction false} BusyRange(s: State)
    ensures 0 <= Sum(s.pcs, BusyW()) <= |s.pcs|
    ensures forall t :: 0 <= t < |s.pcs| && Sum(s.pcs, BusyW()) == 0 ==> s.pcs[t].Idle?
    ensures forall t :: 0 <= t < |s.pcs| && Sum(s.pcs, BusyW()) == |s.pcs| ==> !s.pcs[t].Idle?
  {
    SumBounds(s.pcs, BusyW(), 0, 1);
    SumNonNegative(s.pcs, BusyW());
    forall t | 0 <= t < |s.pcs| && Sum(s.pcs, BusyW()) == |s.pcs| ensures !s.pcs[t].Idle? {
      SumOthers(s.pcs, t, BusyW(), 0, 1);
    }
    forall t | 0 <= t < |s.pcs| && Sum(s.pcs, BusyW()) == 0 ensures s.pcs[t].Idle? {
      assert BusyW()(s.pcs[t]) <= 0;
    }
  }

  lemma {:induction false} NextInv(s: State, e: Event)
    requires Inv(s) && |s.pcs| <= INT_MAX
    ensures Inv(Next(s, e)) && |Next(s, e).pcs| == |s.pcs|
  {
    if e.t < |s.pcs| {
      BusyRange(s);
      SumUpdate(s.pcs, e.t, Next(s, e).pcs[e.t], BusyW());
      assert s.pcs[e.t := Next(s, e).pcs[e.t]] == Next(s, e).pcs;
    }
  }

  lemma {:induction false} ExecInv(n: nat, evs: seq<Event>)
    requires n <= INT_MAX
    ensures Inv(Exec(Start(n), evs)) && |Exec(Start(n), evs).pcs| == n
  {
    if evs == [] {
      SumBounds(Start(n).pcs, BusyW(), 0, 0);
    } else {
      ExecInv(n, evs[..|evs| - 1]);
      NextInv(Exec(Start(n), evs[..|evs| - 1]), evs[|evs| - 1]);
    }
  }

  // Over all interleavings the count is the holders plus the openers still on their way,
  // and at most one thread holds the device.
  lemma {:induction false} OpenIsExclusive(n: nat, evs: seq<Event>)
    requires n <= INT_MAX
    ensures var s := Exec(Start(n), evs);
            Exclusive(s) && s.openCount == Sum(s.pcs, BusyW())
  {
    ExecInv(n, evs);
  }

  // An open that is not interrupted succeeds.
  predicate Opens(s: State, t: nat) {
    t < |s.pcs| && Next(Next(s, Event(t, Open)), Event(t, Tick)).pcs[t].Holding?
  }

  // It does exactly if every other thread is idle: an opener on its way to rejection
  // causes another rejection although nobody holds the device, but once all are quiet the
  // next open succeeds.
  lemma {:induction false} OpenSucceedsIffQuiet(n: nat, evs: seq<Event>, t: nat)
    requires n <= INT_MAX
    requires var s := Exec(Start(n), evs); t < |s.pcs| && s.pcs[t].Idle?
    ensures var s := Exec(Start(n), evs);
            Opens(s, t) <==> forall i :: 0 <= i < |s.pcs| ==> s.pcs[i].Idle?
  {
    var s := Exec(Start(n), evs);
    ExecInv(n, evs);
    BusyRange(s);
    if forall i :: 0 <= i < |s.pcs| ==> s.pcs[i].Idle? {
      SumBounds(s.pcs, BusyW(), 0, 0);
    }
  }

  ghost predicate NobodyHolds(s: State) {
    forall i :: 0 <= i < |s.pcs| ==> !s.pcs[i].Holding?
  }

  // The first holder releases the device while a second opener is being rejected.
  function BusyRun(): seq<Event> {
    [Event(0, Open), Event(0, Tick), Event(1, Open), Event(1, Tick), Event(0, Release)]
  }

  // Nobody holds the device then, and the open of any thread but the rejected one fails.
  lemma {:induction false} BusyWithoutHolder(n: nat, t: nat)
    requires 2 <= n && t < n && t != 1
    ensures var s := Exec(Start(n), BusyRun());
            NobodyHolds(s) && |s.pcs| == n && s.pcs[t].Idle? && !Opens(s, t)
  {
    var s0, s := Start(n), Exec(Start(n), BusyRun());
    assert BusyRun() ==
        [] + [Event(0, Open)] + [Event(0, Tick)] + [Event(1, Open)] + [Event(1, Tick)] + [Event(0, Release)];
    FoldSnoc(Next, s0, [], Event(0, Open));
    FoldSnoc(Next, s0, [] + [Event(0, Open)], Event(0, Tick));
    FoldSnoc(Next, s0, [] + [Event(0, Open)] + [Event(0, Tick)], Event(1, Open));
    FoldSnoc(Next, s0, [] + [Event(0, Open)] + [Event(0, Tick)] + [Event(1, Open)], Event(1, Tick));
    FoldSnoc(Next, s0, [] + [Event(0, Open)] + [Event(0, Tick)] + [Event(1, Open)] + [Event(1, Tick)],
             Event(0, Release));
    assert s == State(s0.pcs[1 := Rejecting], 1);
  }

  // A free device can be opened in every reachable state exactly if there is no second thread.
  lemma {:induction false} FreeDeviceOpensIff(n: nat)
    ensures (forall evs: seq<Event>, t: nat ::
               NobodyHolds(Exec(Start(n), evs)) && t < |Exec(Start(n), evs).pcs| && Exec(Start(n), evs).pcs[t].Idle? ==>
                 Opens(Exec(Start(n), evs), t))
            <==> n <= 1
  {
    if n <= 1 {
      forall evs: seq<Event>, t: nat | t < |Exec(Start(n), evs).pcs| && Exec(Start(n), evs).pcs[t].Idle?
        ensures Opens(Exec(Start(n), evs), t)
      {
        ExecInv(n, evs);
        OpenSucceedsIffQuiet(n, evs, t);
      }
    } else {
      BusyWithoutHolder(n, 0);
    }
  }

  // What an uninterrupted open does to the count, whatever the others are doing: the
  // device object's open method does the same.
  lemma {:induction false} OpenAlone(s: State, t: nat)
    requires t < |s.pcs| && s.pcs[t].Idle?
    ensures var v := Wrap32(s.openCount + 1);
            var s' := Next(Next(Next(s, Event(t, Open)), Event(t, Tick)), Event(t, Tick));
            if v > 1 then s'.pcs == s.pcs && s'.openCount == Wrap32(s.openCount)
            else s'.pcs == s.pcs[t := Holding] && s'.openCount == v
  {
    WrapStep(s.openCount + 1, -1);
    assert s.pcs[t := Idle] == s.pcs;
  }

  // ---- how many threads it takes to break it ---------------------------------------

  function OpenAll(k: nat): seq<Event> {
    if k == 0 then [] else OpenAll(k - 1) + [Event(k - 1, Open)]
  }

  // The first k threads have just been counted, one after the other.
  function Opened(n: nat, k: nat): State {
    State(seq(n, t => if t < k then Counted(Wrap32(t + 1)) else Idle), Wrap32(k))
  }

  lemma {:induction false} OpenNext(n: nat, k: nat)
    requires k < n
    ensures Next(Opened(n, k), Event(k, Open)) == Opened(n, k + 1)
  {
    WrapStep(k, 1);
    assert Opened(n, k).pcs[k := Counted(Wrap32(k + 1))] == Opened(n, k + 1).pcs;
  }

  lemma {:induction false} AfterOpenAll(n: nat, k: nat)
    requires k <= n
    ensures Exec(Start(n), OpenAll(k)) == Opened(n, k)
  {
    if k == 0 {
      assert Start(n).pcs == Opened(n, 0).pcs;
    } else {
      AfterOpenAll(n, k - 1);
      FoldSnoc(Next, Start(n), OpenAll(k - 1), Event(k - 1, Open));
      OpenNext(n, k - 1);
    }
  }

  // With 2^31 threads in the open at once the count wraps to a negative number, and the
  // last of them is let in next to the first.
  lemma {:induction false} TwoHolders(n: nat)
    requires n > INT_MAX
    ensures var evs := OpenAll(INT_MAX + 1) + [Event(0, Tick)] + [Event(INT_MAX, Tick)];
            !Exclusive(Exec(Start(n), evs))
  {
    var e1 := OpenAll(INT_MAX + 1);
    AfterOpenAll(n, INT_MAX + 1);
    FoldSnoc(Next, Start(n), e1, Event(0, Tick));
    FoldSnoc(Next, Start(n), e1 + [Event(0, Tick)], Event(INT_MAX, Tick));
    OpenedEnds(n);
    LastTwoWin(Opened(n, INT_MAX + 1), INT_MAX);
  }

  lemma {:induction false} OpenedEnds(n: nat)
    requires n > INT_MAX
    ensures var s := Opened(n, INT_MAX + 1);
            |s.pcs| == n && s.pcs[0] == Counted(1) && s.pcs[INT_MAX] == Counted(-0x8000_0000)
  {
  }

  lemma {:induction false} LastTwoWin(s: State, last: nat)
    requires 0 < last < |s.pcs| && s.pcs[0] == Counted(1) && s.pcs[last].Counted? && s.pcs[last].v <= 1
    ensures !Exclusive(Next(Next(s, Event(0, Tick)), Event(last, Tick)))
  {
    var s2 := Next(Next(s, Event(0, Tick)), Event(last, Tick));
    assert s2.pcs[0].Holding? && s2.pcs[last].Holding?;
  }

  // The open protocol is exclusive in every run exactly for fewer than 2^31 threads.
  lemma {:induction false} ExclusiveIff(n: nat)
    ensures (forall evs: seq<Event> :: Exclusive(Exec(Start(n), evs))) <==> n <= INT_MAX
  {
    if n <= INT_MAX {
      forall evs: seq<Event> ensures Exclusive(Exec(Start(n), evs)) {
        OpenIsExclusive(n, evs);
      }
    } else {
      TwoHolders(n);
    }
  }
}
