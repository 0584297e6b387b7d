// `ctrlxt_qec_get_stats` reads two 32-bit counters without their lock, multiplies, divides
// and stores: what the rate can be, and when the division is by zero, for any number of
// threads and of rounds.
module QecStats {
  import opened CInt
  import opened ErrorCorrection
  import opened NestedLocks
  import opened NestedSerial
  import opened Runs
  import opened Sequences

  // The largest correction_count whose product with 100 fits an int.
  const MAX_CORRECTIONS: int := 21_474_836

  // ---- the arithmetic of one call -----------------------------------------------------------

  predicate IsPercentage(x: int) {
    0 <= x <= 100
  }

  lemma {:induction false} Scale(a: int, b: int, e: int)
    requires a <= b && e > 0
    ensures a * e <= b * e
  {
  }

  // A quotient is at most k exactly if the dividend is below k + 1 times the divisor.
  lemma {:induction false} QuotientAtMost(a: int, e: int, k: int)
    requires e > 0
    ensures a / e <= k <==> a < (k + 1) * e
  {
    var q := a / e;
    assert a == q * e + a % e;
    if q <= k {
      Scale(q + 1, k + 1, e);
      assert (q + 1) * e == q * e + e;
    } else {
      Scale(k + 1, q, e);
    }
  }

  lemma {:induction false} QuotientSmall(a: int, e: int)
    requires a >= 0 && e > 0
    ensures 0 <= a / e <= a
  {
    QuotientAtMost(a, e, -1);
    QuotientAtMost(a, e, a);
    Scale(1, e, a + 1);
  }

  // The quotient rounded toward zero lies in 0..100 exactly within these margins.
  lemma {:induction false} TruncInRange(p: int, e: int)
    requires InInt(p) && e > 0
    ensures IsPercentage(Unsigned32(TruncDiv(p, e))) <==> -e < p < 101 * e
    ensures -e < p < 101 * e ==> Unsigned32(TruncDiv(p, e)) == if p >= 0 then p / e else 0
  {
    if p >= 0 {
      QuotientSmall(p, e);
      QuotientAtMost(p, e, 100);
    } else {
      QuotientSmall(-p, e);
      QuotientAtMost(-p, e, 0);
    }
  }

  lemma {:induction false} TruncNegated(p: int, e: int)
    requires e < 0
    ensures TruncDiv(p, e) == TruncDiv(-p, -e)
  {
  }

  // When the rate stored is a percentage, for any two values the counters can hold.
  predicate InMargin(errors: int, corrections: int) {
    var p := Wrap32(corrections * 100);
    if errors > 0 then -errors < p < 101 * errors else errors < -p < -101 * errors
  }

  lemma {:induction false} StoredInMargin(errors: int, corrections: int)
    requires InInt(errors) && errors != 0
    ensures IsPercentage(StoredRate(errors, corrections)) <==> InMargin(errors, corrections)
  {
    var p := Wrap32(corrections * 100);
    if errors > 0 {
      TruncInRange(p, errors);
    } else {
      TruncNegated(p, errors);
      NegatedInRange(p, -errors);
    }
  }

  // As before; -p may be 2^31.
  lemma {:induction false} NegatedInRange(p: int, e: int)
    requires InInt(p) && e > 0
    ensures IsPercentage(Unsigned32(TruncDiv(-p, e))) <==> -e < -p < 101 * e
  {
    if p <= 0 {
      QuotientSmall(-p, e);
      QuotientAtMost(-p, e, 100);
    } else {
      QuotientSmall(p, e);
      QuotientAtMost(p, e, 0);
    }
  }

  // While the product fits an int the rate stored is the rate meant, if that fits as well.
  lemma {:induction false} StoredIsMeant(errors: int, corrections: int)
    requires 0 <= corrections <= MAX_CORRECTIONS && errors > 0
    ensures StoredRate(errors, corrections) == SuccessRate(errors, corrections) >= 0
    ensures corrections <= errors ==>
              IsPercentage(SuccessRate(errors, corrections))
              && (SuccessRate(errors, corrections) == 100 <==> corrections == errors)
  {
    var p := corrections * 100;
    assert Wrap32(p) == p;
    QuotientSmall(p, errors);
    QuotientAtMost(p, errors, 99);
    QuotientAtMost(p, errors, 100);
  }

  // For two values read at one moment, that is exactly when it is, and the rate stored is
  // a percentage, right or wrong, exactly while the product does not become too negative.
  lemma {:induction false} StoredIsMeantIff(errors: int, corrections: int)
    requires 0 <= corrections <= errors <= INT_MAX && errors > 0
    ensures StoredRate(errors, corrections) == SuccessRate(errors, corrections) <==> corrections <= MAX_CORRECTIONS
    ensures IsPercentage(StoredRate(errors, corrections)) <==> Wrap32(corrections * 100) + errors > 0
  {
    StoredInMargin(errors, corrections);
    if corrections <= MAX_CORRECTIONS {
      StoredIsMeant(errors, corrections);
    } else {
      OverflowDiffers(errors, corrections);
    }
  }

  lemma {:induction false} OverflowDiffers(errors: int, corrections: int)
    requires MAX_CORRECTIONS < corrections <= errors <= INT_MAX
    ensures StoredRate(errors, corrections) != SuccessRate(errors, corrections)
  {
    var p, q := Wrap32(corrections * 100), SuccessRate(errors, corrections);
    QuotientAtMost(corrections * 100, errors, 100);
    QuotientAtMost(corrections * 100, errors, 0);
    TruncInRange(p, errors);
    if p >= 0 && p / errors == q { Apart(p, corrections * 100, errors); }
  }

  // Two dividends with one quotient are less than the divisor apart.
  lemma {:induction false} Apart(a: int, b: int, e: int)
    requires e > 0 && a / e == b / e
    ensures -e < b - a < e
  {
    assert a == (a / e) * e + a % e && b == (b / e) * e + b % e;
  }

  // ---- what readers see ---------------------------------------------------------------------

  // The rate a call of the statistics stores.
  function Rate(r: Reading): int
    requires r.errors != 0
  {
    StoredRate(r.errors, r.after)
  }

  // Both counters hold their number of increments modulo 2^32.
  predicate CellsOk(s: State) {
    s.mem.errors == Wrap32(s.mem.measured) && s.mem.corrections == Wrap32(s.mem.corrected)
  }

  // As long as no counter has wrapped: what a reader carries was true when it read, and
  // corrections have only grown since.
  ghost predicate ReadersOk(s: State) {
    && (forall t :: 0 <= t < |s.pcs| && s.pcs[t].Stats? ==> ReaderOk(s, s.pcs[t]))
    && (forall i :: 0 <= i < |s.readings| ==> ReadingOk(s.readings[i]))
  }

  predicate ReaderOk(s: State, pc: Pc) {
    pc.Stats? ==> 0 <= pc.before <= pc.errors <= s.mem.measured && pc.before <= s.mem.corrected
  }

  predicate ReadingOk(r: Reading) {
    0 <= r.before <= r.errors <= INT_MAX && r.before <= r.after <= INT_MAX
  }

  // No step takes back an increment; only a reader's second read adds to the readings.
  lemma {:induction false} StepReads(s: State, t: nat)
    requires t < |s.pcs|
    ensures var s' := Step(s, t);
            && s.mem.measured <= s'.mem.measured <= s.mem.measured + 1 && s.mem.corrected <= s'.mem.corrected
            && !s'.pcs[t].Stats?
            && s'.readings ==
               if s.pcs[t].Stats? then s.readings + [Reading(s.pcs[t].errors, s.pcs[t].before, s.mem.corrections)]
               else s.readings
  {
    if Works(s.pcs[t]) { WorkHolds(s.buffer, s.pcs[t]); }
  }

  lemma {:induction false} StepCells(s: State, t: nat)
    requires t < |s.pcs| && CellsOk(s)
    ensures CellsOk(Step(s, t))
  {
    WrapStep(s.mem.measured, 1);
    WrapStep(s.mem.corrected, 1);
  }

  lemma {:induction false} BeginReads(s: State, t: nat, act: Act)
    requires t < |s.pcs| && s.pcs[t].Idle? && !act.Tick?
    ensures var s' := Next(s, Event(t, act));
            && s'.mem == s.mem && s'.readings == s.readings
            && (s'.pcs[t].Stats? ==> s'.pcs[t] == Stats(s.mem.errors, s.mem.corrections))
  {
  }

  lemma {:induction false} NextCells(s: State, e: Event)
    requires CellsOk(s)
    ensures CellsOk(Next(s, e)) && s.mem.measured <= Next(s, e).mem.measured <= s.mem.measured + 1
  {
    if e.t < |s.pcs| && e.act.Tick? {
      StepReads(s, e.t);
      StepCells(s, e.t);
    } else if e.t < |s.pcs| && s.pcs[e.t].Idle? {
      BeginReads(s, e.t, e.act);
    }
  }

  // No counter has wrapped yet.
  predicate Unwrapped(s: State) {
    CellsOk(s) && s.mem.corrected <= s.mem.measured <= INT_MAX
  }

  lemma {:induction false} NextReaders(s: State, e: Event)
    requires ReadersOk(s) && Unwrapped(s)
    ensures ReadersOk(Next(s, e))
  {
    if e.t < |s.pcs| {
      var s' := Next(s, e);
      NextMoves(s, e);
      if e.act.Tick? {
        StepReads(s, e.t);
      } else if s.pcs[e.t].Idle? {
        BeginReads(s, e.t, e.act);
      }
      forall t | 0 <= t < |s'.pcs| && s'.pcs[t].Stats? ensures ReaderOk(s', s'.pcs[t]) {
        assert s.pcs[t].Stats? ==> ReaderOk(s, s.pcs[t]);
      }
    }
  }

  lemma {:induction false} ExecReaders(n: nat, evs: seq<Event>)
    requires Exec(Start(n), evs).mem.measured <= INT_MAX
    ensures ReadersOk(Exec(Start(n), evs)) && Unwrapped(Exec(Start(n), evs))
  {
    CorrectionAccounting(n, evs);
    if evs != [] {
      var s := Exec(Start(n), evs[..|evs| - 1]);
      CorrectionAccounting(n, evs[..|evs| - 1]);
      NextCells(s, evs[|evs| - 1]);
      ExecReaders(n, evs[..|evs| - 1]);
      NextReaders(s, evs[|evs| - 1]);
    }
  }

  // ---- the rate ----------------------------------------------------------------------------

  // In every reachable state of any number of threads, after any number of rounds: the rate
  // a pending reader is about to store is a percentage exactly if the 32-bit product lies
  // within the margins of the errors it has read.
  lemma {:induction false} RateIsPercentageIff(n: nat, evs: seq<Event>, t: nat)
    requires var s := Exec(Start(n), evs); t < |s.pcs| && s.pcs[t].Stats? && s.pcs[t].errors != 0
    ensures var s := Exec(Start(n), evs);
            var s' := Next(s, Event(t, Tick));
            && s'.readings == s.readings + [Reading(s.pcs[t].errors, s.pcs[t].before, s.mem.corrections)]
            && (IsPercentage(Rate(s'.readings[|s.readings|])) <==> InMargin(s.pcs[t].errors, s.mem.corrections))
  {
    var s := Exec(Start(n), evs);
    ReadsAreInts(n, evs);
    StoredInMargin(s.pcs[t].errors, s.mem.corrections);
  }

  // What readers carry are values an int can hold.
  ghost predicate IntsRead(s: State) {
    && (forall t :: 0 <= t < |s.pcs| && s.pcs[t].Stats? ==> InInt(s.pcs[t].errors))
    && (forall i :: 0 <= i < |s.readings| ==> InInt(s.readings[i].errors))
  }

  lemma {:induction false} NextInts(s: State, e: Event)
    requires IntsRead(s) && InInt(s.mem.errors)
    ensures IntsRead(Next(s, e))
  {
    if e.t < |s.pcs| {
      NextMoves(s, e);
      if e.act.Tick? {
        StepReads(s, e.t);
      } else if s.pcs[e.t].Idle? {
        BeginReads(s, e.t, e.act);
      }
    }
  }

  lemma {:induction false} ReadsAreInts(n: nat, evs: seq<Event>)
    ensures IntsRead(Exec(Start(n), evs))
  {
    if evs != [] {
      ReadsAreInts(n, evs[..|evs| - 1]);
      CorrectionAccounting(n, evs[..|evs| - 1]);
      NextInts(Exec(Start(n), evs[..|evs| - 1]), evs[|evs| - 1]);
    }
  }

  // Over whole runs that measure at most 2^31 - 1 rounds: a rate stored by a call during
  // which correction_count did not move is the rate meant exactly if that count is at most
  // 21474836, and is then a percentage, 100 exactly if all errors read were corrected; above
  // that it is a percentage exactly if the product does not become too negative. In general
  // it is one exactly within the margins.
  lemma {:induction false} QuietRatesArePercentages(n: nat, evs: seq<Event>, i: nat)
    requires var s := Exec(Start(n), evs);
             s.mem.measured <= INT_MAX && i < |s.readings| && s.readings[i].errors != 0
    ensures var r := Exec(Start(n), evs).readings[i];
            && 0 <= r.before <= r.errors && r.before <= r.after
            && (IsPercentage(Rate(r)) <==> InMargin(r.errors, r.after))
    ensures var r := Exec(Start(n), evs).readings[i];
            r.after == r.before ==>
              && (Rate(r) == SuccessRate(r.errors, r.after) <==> r.after <= MAX_CORRECTIONS)
              && (r.after <= MAX_CORRECTIONS ==> IsPercentage(Rate(r)) && (Rate(r) == 100 <==> r.after == r.errors))
              && (IsPercentage(Rate(r)) <==> Wrap32(r.after * 100) + r.errors > 0)
  {
    var r := Exec(Start(n), evs).readings[i];
    ExecReaders(n, evs);
    assert ReadingOk(r);
    StoredInMargin(r.errors, r.after);
    if r.after == r.before {
      StoredIsMeantIff(r.errors, r.after);
      if r.after <= MAX_CORRECTIONS { StoredIsMeant(r.errors, r.after); }
    }
  }

  // ---- how many threads, and how many rounds, it takes ----------------------------------------

  ghost predicate AllPercentages(s: State) {
    forall i :: 0 <= i < |s.readings| && s.readings[i].errors != 0 ==> IsPercentage(Rate(s.readings[i]))
  }

  // At most so many corrections, and no more rounds measured than an int can count.
  predicate WithinRounds(s: State, corrections: nat) {
    s.mem.measured <= INT_MAX && s.mem.corrected <= corrections
  }

  // With no second thread nothing moves during a call.
  ghost predicate SoleInv(s: State) {
    && |s.pcs| <= 1
    && (forall t :: 0 <= t < |s.pcs| && s.pcs[t].Stats? ==> s.pcs[t].before == s.mem.corrections)
    && (forall i :: 0 <= i < |s.readings| ==> s.readings[i].before == s.readings[i].after)
    && (s.pcs == [] ==> s.readings == [])
  }

  lemma {:induction false} SoleNext(s: State, e: Event)
    requires SoleInv(s)
    ensures SoleInv(Next(s, e))
  {
    if e.t < |s.pcs| {
      NextMoves(s, e);
      if e.act.Tick? {
        StepReads(s, e.t);
      } else if s.pcs[e.t].Idle? {
        BeginReads(s, e.t, e.act);
      }
    }
  }

  lemma {:induction false} SoleExec(n: nat, evs: seq<Event>)
    requires n <= 1
    ensures SoleInv(Exec(Start(n), evs))
  {
    if evs != [] {
      SoleExec(n, evs[..|evs| - 1]);
      SoleNext(Exec(Start(n), evs[..|evs| - 1]), evs[|evs| - 1]);
    }
  }

  // What a reader has read it has read from counters that only grow.
  ghost predicate AfterBelow(s: State) {
    && (forall i :: 0 <= i < |s.readings| ==> s.readings[i].after <= s.mem.corrected)
  }

  lemma {:induction false} ReadingsBelow(n: nat, evs: seq<Event>)
    ensures AfterBelow(Exec(Start(n), evs))
  {
    if evs != [] {
      var s, e := Exec(Start(n), evs[..|evs| - 1]), evs[|evs| - 1];
      ReadingsBelow(n, evs[..|evs| - 1]);
      CorrectionAccounting(n, evs[..|evs| - 1]);
      NextBelow(s, e);
    }
  }

  lemma {:induction false} NextBelow(s: State, e: Event)
    requires AfterBelow(s) && CellsOk(s)
    ensures AfterBelow(Next(s, e))
  {
    if e.t < |s.pcs| && e.act.Tick? {
      StepReads(s, e.t);
    } else if e.t < |s.pcs| && s.pcs[e.t].Idle? {
      BeginReads(s, e.t, e.act);
    }
  }

  // A round in which every call succeeds, and k of them, one after the other.
  function GoodCall(): Call {
    Call.Apply(false, Round(_ => 0, 0))
  }

  function ManyCalls(t: nat, k: nat): seq<Event> {
    if k == 0 then [] else ManyCalls(t, k - 1) + SoloCallEvents(t, GoodCall())
  }

  lemma {:induction false} GoodRound()
    ensures Corrects(GoodCall()) && Measured(GoodCall().r) && Corrected(GoodCall().r)
  {
    var r := GoodCall().r;
    assert Done(r) == |ApplyCalls(r.syndrome)|;
  }

  // Thread t is idle, the locks are free, and the counters hold their increments.
  ghost predicate Ready(s: State, t: nat) {
    Inv(s) && CellsOk(s) && t < |s.pcs| && s.pcs[t].Idle? && s.qcLock.None? && s.qecLock.None?
  }

  lemma {:induction false} OneRound(s: State, t: nat)
    requires Ready(s, t)
    ensures var s' := Exec(s, SoloCallEvents(t, GoodCall()));
            && Ready(s', t) && s'.pcs == s.pcs && s'.readings == s.readings
            && s'.mem.measured == s.mem.measured + 1 && s'.mem.corrected == s.mem.corrected + 1
  {
    GoodRound();
    SoloCall(s, t, GoodCall());
    WrapStep(s.mem.measured, 1);
    WrapStep(s.mem.corrected, 1);
  }

  lemma {:induction false} ManyRounds(s: State, t: nat, k: nat)
    requires Ready(s, t)
    ensures var s' := Exec(s, ManyCalls(t, k));
            && Ready(s', t) && s'.pcs == s.pcs && s'.readings == s.readings
            && s'.mem.measured == s.mem.measured + k && s'.mem.corrected == s.mem.corrected + k
  {
    if k > 0 {
      ManyRounds(s, t, k - 1);
      RoundAfter(s, ManyCalls(t, k - 1), t);
    }
  }

  lemma {:induction false} RoundAfter(s: State, before: seq<Event>, t: nat)
    requires Ready(Exec(s, before), t)
    ensures var s1, s' := Exec(s, before), Exec(s, before + SoloCallEvents(t, GoodCall()));
            && Ready(s', t) && s'.pcs == s1.pcs && s'.readings == s1.readings
            && s'.mem.measured == s1.mem.measured + 1 && s'.mem.corrected == s1.mem.corrected + 1
  {
    OneRound(Exec(s, before), t);
    FoldConcat(Next, s, before, SoloCallEvents(t, GoodCall()));
  }

  lemma {:induction false} StartReady(n: nat, t: nat)
    requires t < n
    ensures Ready(Start(n), t)
  {
    StartInv(n);
  }

  // An uninterrupted call of the statistics.
  function StatsCall(t: nat): seq<Event> {
    [Event(t, ReadStats), Event(t, Tick)]
  }

  lemma {:induction false} StatsAlone(s: State, t: nat)
    requires t < |s.pcs| && s.pcs[t].Idle?
    ensures var s' := Exec(s, StatsCall(t));
            s'.readings == s.readings + [Reading(s.mem.errors, s.mem.corrections, s.mem.corrections)] && s'.mem == s.mem
  {
    var e, f := Event(t, ReadStats), Event(t, Tick);
    FoldFirst(Next, s, e, [f]);
    FoldOne(Next, Next(s, e), f);
    assert [e] + [f] == [e, f];
  }

  // After k good rounds and an uninterrupted call.
  function RoundsThenStats(k: nat): seq<Event> {
    ManyCalls(0, k) + StatsCall(0)
  }

  lemma {:induction false} RoundsRead(n: nat, k: nat)
    requires n >= 1
    ensures var s := Exec(Start(n), RoundsThenStats(k));
            s.readings == [Reading(Wrap32(k), Wrap32(k), Wrap32(k))] && s.mem.measured == s.mem.corrected == k
  {
    RoundsDone(n, k);
    StatsAlone(Exec(Start(n), ManyCalls(0, k)), 0);
    FoldConcat(Next, Start(n), ManyCalls(0, k), StatsCall(0));
  }

  lemma {:induction false} RoundsDone(n: nat, k: nat)
    requires n >= 1
    ensures var s := Exec(Start(n), ManyCalls(0, k));
            && |s.pcs| == n && s.pcs[0].Idle? && s.readings == []
            && s.mem.measured == s.mem.corrected == k && s.mem.errors == s.mem.corrections == Wrap32(k)
  {
    StartReady(n, 0);
    ManyRounds(Start(n), 0, k);
  }

  // One thread is enough: with the first round more than 21474836 the product overflows and
  // the rate stored for a perfect record is 4294967197.
  lemma {:induction false} OverflowAlone(n: nat)
    requires n >= 1
    ensures var s := Exec(Start(n), RoundsThenStats(MAX_CORRECTIONS + 1));
            var k := MAX_CORRECTIONS + 1;
            s.readings == [Reading(k, k, k)] && s.mem.measured == s.mem.corrected == k
    ensures Rate(Reading(MAX_CORRECTIONS + 1, MAX_CORRECTIONS + 1, MAX_CORRECTIONS + 1)) == 4_294_967_197
  {
    RoundsRead(n, MAX_CORRECTIONS + 1);
    var k := MAX_CORRECTIONS + 1;
    assert Wrap32(k) == k && Wrap32(k * 100) == -2_147_483_596;
    assert TruncDiv(-2_147_483_596, k) == -99;
  }

  // One apply, a reader's first read, another apply, the reader's second read.
  function RateRace(): seq<Event> {
    SoloCallEvents(1, GoodCall()) + [Event(0, ReadStats)] + SoloCallEvents(1, GoodCall()) + [Event(0, Tick)]
  }

  lemma {:induction false} FirstApply(n: nat)
    requires n >= 2
    ensures var s := Exec(Start(n), SoloCallEvents(1, GoodCall()));
            Ready(s, 1) && s.pcs == Start(n).pcs && s.mem.measured == s.mem.corrected == 1 && s.readings == []
  {
    StartReady(n, 1);
    OneRound(Start(n), 1);
  }

  lemma {:induction false} SecondApply(s: State)
    requires Ready(s, 1) && s.pcs[0] == Stats(1, 1) && s.mem.measured == s.mem.corrected == 1 && s.readings == []
    ensures var s' := Next(Exec(s, SoloCallEvents(1, GoodCall())), Event(0, Tick));
            s'.readings == [Reading(1, 1, 2)] && s'.mem.measured == s'.mem.corrected == 2
  {
    OneRound(s, 1);
  }

  lemma {:induction false} RateRaceExceeds100(n: nat)
    requires n >= 2
    ensures var s := Exec(Start(n), RateRace());
            s.readings == [Reading(1, 1, 2)] && s.mem.measured == s.mem.corrected == 2
    ensures Rate(Reading(1, 1, 2)) == 200
  {
    var s0, apply, read := Start(n), SoloCallEvents(1, GoodCall()), Event(0, ReadStats);
    FirstApply(n);
    var s1 := Exec(s0, apply);
    NextInv(s1, read);
    SecondApply(Next(s1, read));
    FoldSnoc(Next, s0, apply, read);
    FoldConcat(Next, s0, apply + [read], apply);
    FoldSnoc(Next, s0, apply + [read] + apply, Event(0, Tick));
  }

  lemma {:induction false} SoleRates(n: nat, evs: seq<Event>)
    requires n <= 1 && WithinRounds(Exec(Start(n), evs), MAX_CORRECTIONS)
    ensures AllPercentages(Exec(Start(n), evs))
  {
    var s := Exec(Start(n), evs);
    SoleExec(n, evs);
    ReadingsBelow(n, evs);
    forall i | 0 <= i < |s.readings| && s.readings[i].errors != 0 ensures IsPercentage(Rate(s.readings[i])) {
      QuietRatesArePercentages(n, evs, i);
    }
  }

  // After these events of n threads every rate stored is a percentage, provided at most k
  // rounds were corrected, and at most 2^31 - 1 measured.
  ghost predicate KeepsPercentages(n: nat, evs: seq<Event>, k: nat) {
    WithinRounds(Exec(Start(n), evs), k) ==> AllPercentages(Exec(Start(n), evs))
  }

  // While the product fits an int, every rate in every run is a percentage exactly if there
  // is no second thread.
  lemma {:induction false} PercentagesIff(n: nat)
    ensures (forall evs: seq<Event> :: KeepsPercentages(n, evs, MAX_CORRECTIONS)) <==> n <= 1
  {
    if n <= 1 {
      forall evs: seq<Event> ensures KeepsPercentages(n, evs, MAX_CORRECTIONS) {
        SoleKeeps(n, evs, MAX_CORRECTIONS);
      }
    } else {
      RaceBreaks(n);
    }
  }

  // With one thread every rate is a percentage in all runs of at most k corrections exactly
  // if k is at most 21474836.
  lemma {:induction false} RoundsIff(k: nat)
    ensures (forall evs: seq<Event> :: KeepsPercentages(1, evs, k)) <==> k <= MAX_CORRECTIONS
  {
    if k <= MAX_CORRECTIONS {
      forall evs: seq<Event> ensures KeepsPercentages(1, evs, k) {
        SoleKeeps(1, evs, k);
      }
    } else {
      OverflowBreaks(k);
    }
  }

  lemma {:induction false} SoleKeeps(n: nat, evs: seq<Event>, k: nat)
    requires n <= 1 && k <= MAX_CORRECTIONS
    ensures KeepsPercentages(n, evs, k)
  {
    if WithinRounds(Exec(Start(n), evs), k) { SoleRates(n, evs); }
  }

  lemma {:induction false} RaceBreaks(n: nat)
    requires n >= 2
    ensures !KeepsPercentages(n, RateRace(), MAX_CORRECTIONS)
  {
    RateRaceExceeds100(n);
    assert Exec(Start(n), RateRace()).readings[0] == Reading(1, 1, 2);
  }

  lemma {:induction false} OverflowBreaks(k: nat)
    requires k > MAX_CORRECTIONS
    ensures !KeepsPercentages(1, RoundsThenStats(MAX_CORRECTIONS + 1), k)
  {
    OverflowAlone(1);
    assert Exec(Start(1), RoundsThenStats(MAX_CORRECTIONS + 1)).readings[0].errors == MAX_CORRECTIONS + 1;
  }

  // ---- division by zero ---------------------------------------------------------------------------

  // A call of the statistics during these events divides by zero.
  ghost predicate DividesByZero(s: State, evs: seq<Event>) {
    exists i :: |s.readings| <= i < |Exec(s, evs).readings| && Exec(s, evs).readings[i].errors == 0
  }

  // An uninterrupted call divides by zero exactly if the number of rounds measured so far is
  // a multiple of 2^32.
  lemma {:induction false} UninterruptedDivision(n: nat, evs: seq<Event>, t: nat)
    requires var s := Exec(Start(n), evs); t < |s.pcs| && s.pcs[t].Idle?
    ensures var s := Exec(Start(n), evs);
            DividesByZero(s, StatsCall(t)) <==> s.mem.measured % 0x1_0000_0000 == 0
  {
    CorrectionAccounting(n, evs);
    StatsDivides(Exec(Start(n), evs), t);
    ZeroCell(Exec(Start(n), evs).mem.measured);
  }

  lemma {:induction false} StatsDivides(s: State, t: nat)
    requires t < |s.pcs| && s.pcs[t].Idle?
    ensures DividesByZero(s, StatsCall(t)) <==> s.mem.errors == 0
  {
    StatsAlone(s, t);
    assert Exec(s, StatsCall(t)).readings[|s.readings|].errors == s.mem.errors;
  }

  lemma {:induction false} ZeroCell(x: int)
    ensures Wrap32(x) == 0 <==> x % 0x1_0000_0000 == 0
  {
  }

  // error_count is not zero now, and no reader still carries a zero.
  ghost predicate NoZeroRead(s: State) {
    s.mem.errors != 0 && forall t :: 0 <= t < |s.pcs| && s.pcs[t].Stats? ==> s.pcs[t].errors != 0
  }

  // The rounds measured have not passed a multiple of 2^32 in between.
  predicate SameLap(s: State, s': State) {
    s.mem.measured / 0x1_0000_0000 == s'.mem.measured / 0x1_0000_0000
  }

  lemma {:induction false} LapNotZero(x: nat, y: nat)
    requires x <= y && x / 0x1_0000_0000 == y / 0x1_0000_0000 && Wrap32(x) != 0
    ensures Wrap32(y) != 0
  {
    ZeroCell(x);
    ZeroCell(y);
  }

  lemma {:induction false} NoZeroNext(s: State, e: Event)
    requires NoZeroRead(s) && CellsOk(s) && SameLap(s, Next(s, e))
    ensures NoZeroRead(Next(s, e))
    ensures |s.readings| <= |Next(s, e).readings| && Next(s, e).readings[..|s.readings|] == s.readings
    ensures forall i :: |s.readings| <= i < |Next(s, e).readings| ==> Next(s, e).readings[i].errors != 0
  {
    NextCells(s, e);
    LapNotZero(s.mem.measured, Next(s, e).mem.measured);
    if e.t < |s.pcs| {
      NextMoves(s, e);
      if e.act.Tick? {
        StepReads(s, e.t);
      } else if s.pcs[e.t].Idle? {
        BeginReads(s, e.t, e.act);
      }
    }
  }

  lemma {:induction false} RunCells(s: State, evs: seq<Event>)
    requires CellsOk(s)
    ensures CellsOk(Exec(s, evs)) && s.mem.measured <= Exec(s, evs).mem.measured
  {
    if evs != [] {
      RunCells(s, evs[..|evs| - 1]);
      NextCells(Exec(s, evs[..|evs| - 1]), evs[|evs| - 1]);
    }
  }

  lemma {:induction false} NoZeroRun(s: State, evs: seq<Event>)
    requires NoZeroRead(s) && CellsOk(s) && SameLap(s, Exec(s, evs))
    ensures NoZeroRead(Exec(s, evs)) && !DividesByZero(s, evs)
    ensures |s.readings| <= |Exec(s, evs).readings|
  {
    if evs != [] {
      var before := evs[..|evs| - 1];
      RunCells(s, before);
      NextCells(Exec(s, before), evs[|evs| - 1]);
      NoZeroRun(s, before);
      NoZeroNext(Exec(s, before), evs[|evs| - 1]);
      NoneAdded(s.readings, Exec(s, before).readings, Exec(s, evs).readings);
    }
  }

  lemma {:induction false} NoneAdded(first: seq<Reading>, mid: seq<Reading>, last: seq<Reading>)
    requires |first| <= |mid| <= |last| && last[..|mid|] == mid
    requires forall i :: |first| <= i < |mid| ==> mid[i].errors != 0
    requires forall i :: |mid| <= i < |last| ==> last[i].errors != 0
    ensures forall i :: |first| <= i < |last| ==> last[i].errors != 0
  {
    forall i | |first| <= i < |last| ensures last[i].errors != 0 {
      if i < |mid| { assert last[..|mid|][i] == mid[i]; }
    }
  }

  // From any reachable state with a thread that could call the statistics: until the rounds
  // measured reach the next multiple of 2^32 no continuation of the run divides by zero,
  // exactly if error_count is not zero now and no reader from a time when it was is still on
  // its way.
  lemma {:induction false} StatsSafeIff(n: nat, evs: seq<Event>, t: nat)
    requires var s := Exec(Start(n), evs); t < |s.pcs| && s.pcs[t].Idle?
    ensures var s := Exec(Start(n), evs);
            (forall more: seq<Event> :: SameLap(s, Exec(s, more)) ==> !DividesByZero(s, more)) <==> NoZeroRead(s)
  {
    var s := Exec(Start(n), evs);
    CorrectionAccounting(n, evs);
    if NoZeroRead(s) {
      forall more: seq<Event> | SameLap(s, Exec(s, more)) ensures !DividesByZero(s, more) {
        NoZeroRun(s, more);
      }
    } else if s.mem.errors == 0 {
      UninterruptedDivision(n, evs, t);
      StatsAlone(s, t);
      ZeroCell(s.mem.measured);
      assert SameLap(s, Exec(s, StatsCall(t)));
    } else {
      var u :| 0 <= u < |s.pcs| && s.pcs[u].Stats? && s.pcs[u].errors == 0;
      PendingZero(s, u);
    }
  }

  lemma {:induction false} PendingZero(s: State, u: nat)
    requires u < |s.pcs| && s.pcs[u].Stats? && s.pcs[u].errors == 0
    ensures SameLap(s, Exec(s, [Event(u, Tick)])) && DividesByZero(s, [Event(u, Tick)])
  {
    FoldOne(Next, s, Event(u, Tick));
    assert Exec(s, [Event(u, Tick)]).readings[|s.readings|].errors == 0;
  }

  // No run is safe for good: once a thread is idle and the locks are free, a continuation
  // brings error_count back to zero and divides by it.
  lemma {:induction false} DivisionComesBack(n: nat, evs: seq<Event>, t: nat)
    requires var s := Exec(Start(n), evs);
             t < |s.pcs| && s.pcs[t].Idle? && s.qcLock.None? && s.qecLock.None?
    ensures exists more: seq<Event> :: DividesByZero(Exec(Start(n), evs), more)
  {
    ExecInv(n, evs);
    CorrectionAccounting(n, evs);
    WrapsAround(Exec(Start(n), evs), t);
  }

  lemma {:induction false} WrapsAround(s: State, t: nat)
    requires Ready(s, t)
    ensures exists more: seq<Event> :: DividesByZero(s, more)
  {
    var k := ToMultiple(s.mem.measured);
    ManyRounds(s, t, k);
    var s1 := Exec(s, ManyCalls(t, k));
    ZeroCell(s1.mem.measured);
    ZeroRead(s, s1, t);
    FoldConcat(Next, s, ManyCalls(t, k), StatsCall(t));
    assert Exec(s, ManyCalls(t, k) + StatsCall(t)).readings[|s.readings|].errors == 0;
    assert DividesByZero(s, ManyCalls(t, k) + StatsCall(t));
  }

  lemma {:induction false} ToMultiple(x: nat) returns (k: nat)
    ensures (x + k) % 0x1_0000_0000 == 0
  {
    k := 0x1_0000_0000 - x % 0x1_0000_0000;
  }

  lemma {:induction false} ZeroRead(s: State, s1: State, t: nat)
    requires t < |s1.pcs| && s1.pcs[t].Idle? && s1.mem.errors == 0 && s1.readings == s.readings
    ensures var s2 := Exec(s1, StatsCall(t));
            |s2.readings| == |s.readings| + 1 && s2.readings[|s.readings|].errors == 0
  {
    StatsAlone(s1, t);
  }
}
