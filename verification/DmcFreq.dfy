/**
 DDR frequency and voltage sequencing. A foreign call is an outcome; the rates
 the DDR may be running at are a set, because a rate change that fails leaves
 either the old or the requested rate.
 */
module DmcFreq {
  import opened Bytes

  /** Voltage an operating point needs at a rate. */
  type Need = nat -> nat

  ghost predicate Monotone(need: Need) {
    forall a, b :: a <= b ==> need(a) <= need(b)
  }

  /** The driver's record (rate, volt), the supply last accepted by the regulator, and the rates the DDR may be at. */
  datatype State = State(rate: nat, volt: nat, supply: nat, possible: set<nat>)

  /** The supply suffices for every rate the DDR may be at. */
  predicate Covered(s: State, need: Need) {
    forall r :: r in s.possible ==> need(r) <= s.supply
  }

  // ---- Foreign calls ------------------------------------------------------

  /** Waiting for the completion interrupt of the DDR firmware. */
  datatype Wait = Wait(enabled: bool, startRefused: bool, interrupted: bool, postFailed: bool)

  /** One rate change: the secure call, the wait it may ask for, and the clock read back. */
  datatype RateOutcome = RateOutcome(refused: bool, asksToWait: bool, wait: Wait, clock: nat)

  /** rk3568_dmcfreq_wait_complete: a timeout is a failure even when the forced completion succeeds. */
  predicate WaitOk(w: Wait) { !w.enabled || (!w.startRefused && w.interrupted && !w.postFailed) }

  /** rk3568_dmc_set_rate succeeds only when the clock reads the requested rate. */
  predicate RateOk(o: RateOutcome, target: nat) {
    !o.refused && (o.asksToWait ==> WaitOk(o.wait)) && o.clock == target
  }

  // ---- The two sequences, as the states they pass through -----------------

  datatype Outcome = Outcome(raised: bool, rate: RateOutcome, lowered: bool)

  /** The rate change: while it runs both rates are possible, afterwards only the requested one. */
  function RateChange(s: State, target: nat, o: RateOutcome): seq<State> {
    var during := s.(possible := s.possible + {target});
    if RateOk(o, target) then [during, during.(possible := {target})] else [during]
  }

  /** rk3568_dmcfreq_target to an operating point: the states after each change. */
  function TargetPoints(s: State, target: nat, need: Need, o: Outcome): seq<State> {
    var volt := need(target);
    if s.rate == target then []
    else if target > s.rate then
      if !o.raised then []
      else
        var up := s.(supply := volt);
        var change := RateChange(up, target, o.rate);
        var last := change[|change| - 1];
        if RateOk(o.rate, target) then [up] + change + [last.(rate := target, volt := volt)]
        else [up] + change + [last.(volt := volt)]
    else
      var change := RateChange(s, target, o.rate);
      var last := change[|change| - 1];
      if !RateOk(o.rate, target) then change
      else if !o.lowered then change + [last.(rate := target)]
      else change + [last.(supply := volt), last.(supply := volt, rate := target, volt := volt)]
  }

  /** rk3568_dmcfreq_suspend to the boot rate, whose operating point needs `volt`. */
  function SuspendPoints(s: State, boot: nat, volt: nat, o: Outcome): seq<State> {
    if s.rate == boot then []
    else if volt > s.volt then
      if !o.raised then []
      else
        var up := s.(supply := volt);
        var change := RateChange(up, boot, o.rate);
        var last := change[|change| - 1];
        if RateOk(o.rate, boot) then [up] + change + [last.(rate := boot, volt := volt)]
        else [up] + change + [last.(volt := volt)]
    else
      var change := RateChange(s, boot, o.rate);
      var last := change[|change| - 1];
      if !RateOk(o.rate, boot) then change
      else if volt == s.volt then change + [last.(rate := boot)]
      else if !o.lowered then change + [last.(rate := boot)]
      else change + [last.(supply := volt), last.(supply := volt, rate := boot, volt := volt)]
  }

  function Last(s: State, points: seq<State>): State {
    if points == [] then s else points[|points| - 1]
  }

  predicate AllCovered(points: seq<State>, need: Need) {
    forall i :: 0 <= i < |points| ==> Covered(points[i], need)
  }

  // ---- Safety of one call -------------------------------------------------

  /** An accepted raise that would take the supply below what some possible rate needs. */
  predicate UndercutsOnRaise(s: State, target: nat, need: Need, o: Outcome) {
    target > s.rate && o.raised && exists r :: r in s.possible && need(r) > need(target)
  }

  /** The recorded voltage is the last accepted request, and the recorded rate is one the DDR may be at. */
  predicate Recorded(s: State) { s.supply == s.volt && s.rate in s.possible }

  /** With these outcomes a target call is covered at every point unless it undercuts. */
  lemma OutcomeSafeIff(s: State, target: nat, need: Need, o: Outcome)
    requires Monotone(need) && Covered(s, need) && Recorded(s)
    ensures AllCovered(TargetPoints(s, target, need, o), need) <==> !UndercutsOnRaise(s, target, need, o)
  {
    var points := TargetPoints(s, target, need, o);
    if UndercutsOnRaise(s, target, need, o) {
      assert !Covered(points[0], need);
    } else {
      assert target < s.rate ==> need(target) <= need(s.rate) <= s.supply;
      forall i | 0 <= i < |points| ensures Covered(points[i], need) {}
    }
  }

  /** The call would raise to an operating point that needs less than a rate the DDR may be at. */
  predicate AtRisk(s: State, target: nat, need: Need) {
    target > s.rate && exists r :: r in s.possible && need(r) > need(target)
  }

  /** From a covered state a target call is safe whatever fails in it, exactly when it is not at risk. */
  lemma TargetSafeIff(s: State, target: nat, need: Need)
    requires Monotone(need) && Covered(s, need) && Recorded(s)
    ensures (forall o :: AllCovered(TargetPoints(s, target, need, o), need)) <==> !AtRisk(s, target, need)
  {
    hide AllCovered, TargetPoints, Covered;
    var raised := Outcome(true, RateOutcome(true, false, Wait(false, false, false, false), 0), false);
    OutcomeSafeIff(s, target, need, raised);
    forall o ensures !AtRisk(s, target, need) ==> AllCovered(TargetPoints(s, target, need, o), need) {
      OutcomeSafeIff(s, target, need, o);
    }
  }

  /** What the record alone shows: some rate that the recorded voltage would cover needs more than the target does. */
  ghost predicate RecordAtRisk(rate: nat, volt: nat, target: nat, need: Need) {
    target > rate && exists r :: need(target) < need(r) <= volt
  }

  ghost predicate HasRecord(s: State, rate: nat, volt: nat, need: Need) {
    s.rate == rate && s.volt == volt && Recorded(s) && Covered(s, need)
  }

  /**
   Knowing the record only, a target call is safe in every covered state with
   that record and whatever fails in it, exactly when the record is not at risk.
   */
  lemma RecordSafeIff(rate: nat, volt: nat, target: nat, need: Need)
    requires Monotone(need) && need(rate) <= volt
    ensures (forall s, o :: HasRecord(s, rate, volt, need) ==> AllCovered(TargetPoints(s, target, need, o), need))
            <==> !RecordAtRisk(rate, volt, target, need)
  {
    if RecordAtRisk(rate, volt, target, need) {
      var r :| need(target) < need(r) <= volt;
      var s := State(rate, volt, volt, {rate, r});
      assert HasRecord(s, rate, volt, need) && AtRisk(s, target, need);
      TargetSafeIff(s, target, need);
    } else {
      hide AllCovered, TargetPoints;
      forall s, o | HasRecord(s, rate, volt, need) ensures AllCovered(TargetPoints(s, target, need, o), need) {
        TargetSafeIff(s, target, need);
      }
    }
  }

  /** A suspend call compares with the recorded voltage first, and so is always safe. */
  lemma SuspendSafe(s: State, boot: nat, volt: nat, need: Need, o: Outcome)
    requires Covered(s, need) && Recorded(s) && need(boot) <= volt
    ensures AllCovered(SuspendPoints(s, boot, volt, o), need)
  {
    var points := SuspendPoints(s, boot, volt, o);
    forall i | 0 <= i < |points| ensures Covered(points[i], need) {}
  }

  /** With a true and covered record, every intermediate point and every exit of a target call is safe. */
  lemma TargetSafeFromTruth(s: State, target: nat, need: Need, o: Outcome)
    requires Monotone(need) && Covered(s, need) && Recorded(s) && s.possible == {s.rate}
    ensures AllCovered(TargetPoints(s, target, need, o), need)
  {
    OutcomeSafeIff(s, target, need, o);
    assert forall r :: r in s.possible ==> r == s.rate;
  }

  // ---- Whole runs ---------------------------------------------------------

  /** A call with its foreign outcomes; `volt` of a suspend is that of the operating point found for the boot rate. */
  datatype Call =
    | Target(rate: nat, outcome: Outcome)
    | Suspend(boot: nat, volt: nat, outcome: Outcome)
    | Resume(clock: nat)

  function Points(s: State, c: Call, need: Need): seq<State> {
    match c
    case Target(rate, o) => TargetPoints(s, rate, need, o)
    case Suspend(boot, volt, o) => SuspendPoints(s, boot, volt, o)
    case Resume(clock) => [s.(rate := clock, possible := {clock})]
  }

  /** What the hardware and the operating-point table promise about a call. */
  predicate Allowed(s: State, c: Call, need: Need) {
    match c
    case Target(_, _) => true
    case Suspend(boot, volt, _) => need(boot) <= volt
    case Resume(clock) => clock in s.possible
  }

  function After(s: State, c: Call, need: Need): State { Last(s, Points(s, c, need)) }

  function RunAll(s: State, calls: seq<Call>, need: Need): State {
    if calls == [] then s else After(RunAll(s, calls[..|calls| - 1], need), calls[|calls| - 1], need)
  }

  predicate AllowedRun(s: State, calls: seq<Call>, need: Need) {
    calls == [] ||
    (var n := |calls| - 1; AllowedRun(s, calls[..n], need) && Allowed(RunAll(s, calls[..n], need), calls[n], need))
  }

  lemma CallKeepsRecord(s: State, c: Call, need: Need)
    requires Recorded(s)
    ensures Recorded(After(s, c, need))
  {
  }

  /** Over any run, whatever fails, the recorded voltage is the last one the regulator accepted. */
  lemma {:induction false} RecordIsLastAccepted(s: State, calls: seq<Call>, need: Need)
    requires Recorded(s)
    ensures Recorded(RunAll(s, calls, need))
  {
    if calls != [] {
      RecordIsLastAccepted(s, calls[..|calls| - 1], need);
      CallKeepsRecord(RunAll(s, calls[..|calls| - 1], need), calls[|calls| - 1], need);
    }
  }

  /** A rate change upwards that was started and failed: the DDR may be faster than the record says. */
  predicate FailedRise(s: State, c: Call) {
    match c
    case Target(rate, o) => rate > s.rate && o.raised && !RateOk(o.rate, rate)
    case Suspend(boot, volt, o) => boot > s.rate && (volt > s.volt ==> o.raised) && !RateOk(o.rate, boot)
    case Resume(_) => false
  }

  predicate NoFailedRise(s: State, calls: seq<Call>, need: Need) {
    calls == [] ||
    (var n := |calls| - 1; NoFailedRise(s, calls[..n], need) && !FailedRise(RunAll(s, calls[..n], need), calls[n]))
  }

  /** The DDR is nowhere faster than recorded, and the supply covers the recorded rate. */
  predicate Bounded(s: State, need: Need) {
    Recorded(s) && need(s.rate) <= s.supply && forall r :: r in s.possible ==> r <= s.rate
  }

  lemma BoundedCallSafe(s: State, c: Call, need: Need)
    requires Monotone(need) && Bounded(s, need) && Allowed(s, c, need)
    ensures AllCovered(Points(s, c, need), need)
    ensures !FailedRise(s, c) ==> Bounded(After(s, c, need), need)
  {
    hide RateOk, TargetPoints, SuspendPoints, FailedRise;
    match c
    case Target(rate, o) => BoundedTarget(s, rate, need, o);
    case Suspend(boot, volt, o) => BoundedSuspend(s, boot, volt, need, o);
    case Resume(clock) =>
  }

  lemma BoundedTarget(s: State, rate: nat, need: Need, o: Outcome)
    requires Monotone(need) && Bounded(s, need)
    ensures AllCovered(TargetPoints(s, rate, need, o), need)
    ensures !FailedRise(s, Target(rate, o)) ==> Bounded(After(s, Target(rate, o), need), need)
  {
    hide RateOk;
    OutcomeSafeIff(s, rate, need, o);
  }

  lemma BoundedSuspend(s: State, boot: nat, volt: nat, need: Need, o: Outcome)
    requires Monotone(need) && Bounded(s, need) && need(boot) <= volt
    ensures AllCovered(SuspendPoints(s, boot, volt, o), need)
    ensures !FailedRise(s, Suspend(boot, volt, o)) ==> Bounded(After(s, Suspend(boot, volt, o), need), need)
  {
    hide RateOk;
    SuspendSafe(s, boot, volt, need, o);
  }

  /** Over a run in which no started rise fails, every point of every call is covered. */
  lemma {:induction false} RunSafe(s: State, calls: seq<Call>, next: Call, need: Need)
    requires Monotone(need) && Bounded(s, need)
    requires AllowedRun(s, calls, need) && NoFailedRise(s, calls, need) && Allowed(RunAll(s, calls, need), next, need)
    ensures Bounded(RunAll(s, calls, need), need) && AllCovered(Points(RunAll(s, calls, need), next, need), need)
  {
    hide Points, Bounded, Covered, FailedRise;
    if calls != [] {
      var n := |calls| - 1;
      RunSafe(s, calls[..n], calls[n], need);
      BoundedCallSafe(RunAll(s, calls[..n], need), calls[n], need);
    }
    BoundedCallSafe(RunAll(s, calls, need), next, need);
  }

  /** Every point of every call of the run is covered. */
  predicate RunCovered(s: State, calls: seq<Call>, need: Need) {
    calls == [] ||
    (var n := |calls| - 1;
      RunCovered(s, calls[..n], need) && AllCovered(Points(RunAll(s, calls[..n], need), calls[n], need), need))
  }

  predicate Undercuts(s: State, c: Call, need: Need) { c.Target? && UndercutsOnRaise(s, c.rate, need, c.outcome) }

  predicate NoUndercut(s: State, calls: seq<Call>, need: Need) {
    calls == [] ||
    (var n := |calls| - 1; NoUndercut(s, calls[..n], need) && !Undercuts(RunAll(s, calls[..n], need), calls[n], need))
  }

  /** Before every target call of the run the record is not at risk. */
  ghost predicate RecordsFine(s: State, calls: seq<Call>, need: Need) {
    calls == [] ||
    (var n := |calls| - 1;
     var t := RunAll(s, calls[..n], need);
     RecordsFine(s, calls[..n], need) && (calls[n].Target? ==> !RecordAtRisk(t.rate, t.volt, calls[n].rate, need)))
  }

  /** A caller that looks at the record before every target call has a safe run, whatever fails in it. */
  lemma {:induction false} RunSafeByRecord(s: State, calls: seq<Call>, need: Need)
    requires Monotone(need) && Recorded(s) && Covered(s, need)
    requires AllowedRun(s, calls, need) && RecordsFine(s, calls, need)
    ensures RunCovered(s, calls, need) && Covered(RunAll(s, calls, need), need)
  {
    hide Points;
    if calls != [] {
      var n := |calls| - 1;
      RunSafeByRecord(s, calls[..n], need);
      RecordIsLastAccepted(s, calls[..n], need);
      CallSafeIff(RunAll(s, calls[..n], need), calls[n], need);
    }
  }

  /** Exactly the runs without an undercutting raise are safe at every point, whatever else fails in them. */
  lemma {:induction false} OutcomesSafeIff(s: State, calls: seq<Call>, need: Need)
    requires Monotone(need) && Recorded(s) && Covered(s, need) && AllowedRun(s, calls, need)
    ensures RunCovered(s, calls, need) <==> NoUndercut(s, calls, need)
    ensures RunCovered(s, calls, need) ==> Covered(RunAll(s, calls, need), need)
  {
    hide Covered, UndercutsOnRaise, Points;
    if calls != [] {
      var n := |calls| - 1;
      OutcomesSafeIff(s, calls[..n], need);
      RecordIsLastAccepted(s, calls[..n], need);
      if RunCovered(s, calls[..n], need) {
        CallSafeIff(RunAll(s, calls[..n], need), calls[n], need);
      }
    }
  }

  // ---- Where good outcomes lead -------------------------------------------

  /** The secure call is accepted, a wait that it asks for ends with its interrupt, and the clock reads the rate. */
  predicate RateGood(o: RateOutcome, rate: nat) {
    && !o.refused && o.clock == rate
    && (o.asksToWait && o.wait.enabled ==> !o.wait.startRefused && o.wait.interrupted && !o.wait.postFailed)
  }

  lemma GoodIsOk(o: RateOutcome, rate: nat)
    ensures RateGood(o, rate) <==> RateOk(o, rate)
  {
  }

  predicate Good(o: Outcome, rate: nat) { o.raised && o.lowered && RateGood(o.rate, rate) }

  /** The DDR runs at the recorded rate, on exactly the voltage that rate needs. */
  function At(rate: nat, volt: nat): State { State(rate, volt, volt, {rate}) }

  /** When all goes well, a target call ends at its rate and at the voltage of its operating point. */
  lemma TargetArrives(s: State, target: nat, need: Need, o: Outcome)
    requires Good(o, target) && s.rate != target
    ensures Last(s, TargetPoints(s, target, need, o)) == At(target, need(target))
  {
  }

  /** So does a suspend call, at the boot rate. */
  lemma SuspendArrives(s: State, boot: nat, volt: nat, o: Outcome)
    requires Good(o, boot) && s.rate != boot && Recorded(s)
    ensures Last(s, SuspendPoints(s, boot, volt, o)) == At(boot, volt)
  {
  }

  /** What makes a target call to another rate report an error. */
  predicate TargetFails(rate: nat, target: nat, o: Outcome) {
    (target > rate && !o.raised) || !RateGood(o.rate, target) || (target < rate && !o.lowered)
  }

  /** And a suspend call, which goes by the recorded voltage. */
  predicate SuspendFails(volt: nat, boot: nat, bootVolt: nat, o: Outcome) {
    (bootVolt > volt && !o.raised) || !RateGood(o.rate, boot) || (bootVolt < volt && !o.lowered)
  }

  predicate GoodCall(c: Call, need: Need) {
    match c
    case Target(rate, o) => Good(o, rate)
    case Suspend(boot, volt, o) => Good(o, boot) && volt == need(boot)
    case Resume(_) => true
  }

  /** The rate that was asked for last. */
  function LastAsked(rate: nat, calls: seq<Call>): nat {
    if calls == [] then rate
    else
      match calls[|calls| - 1]
      case Target(r, _) => r
      case Suspend(boot, _, _) => boot
      case Resume(_) => LastAsked(rate, calls[..|calls| - 1])
  }

  /** Over a run of good outcomes the DDR is at the rate asked for last and the supply at what it needs. */
  lemma {:induction false} GoodRun(rate: nat, calls: seq<Call>, need: Need)
    requires forall i :: 0 <= i < |calls| ==> GoodCall(calls[i], need)
    requires AllowedRun(At(rate, need(rate)), calls, need)
    ensures var last := LastAsked(rate, calls); RunAll(At(rate, need(rate)), calls, need) == At(last, need(last))
  {
    hide TargetPoints, SuspendPoints, Good;
    if calls != [] {
      var n, s := |calls| - 1, At(rate, need(rate));
      GoodRun(rate, calls[..n], need);
      GoodCallArrives(RunAll(s, calls[..n], need).rate, calls[n], need);
    }
  }

  lemma GoodCallArrives(rate: nat, c: Call, need: Need)
    requires GoodCall(c, need) && Allowed(At(rate, need(rate)), c, need)
    ensures var last := LastAsked(rate, [c]); After(At(rate, need(rate)), c, need) == At(last, need(last))
  {
    var s := At(rate, need(rate));
    assert s.possible == {rate};
    match c
    case Target(target, o) => if target != rate { TargetArrives(s, target, need, o); }
    case Suspend(boot, volt, o) => if boot != rate { SuspendArrives(s, boot, volt, o); }
    case Resume(clock) =>
  }

  // ---- Requests -----------------------------------------------------------

  /** A call without its outcomes, as its caller knows it. */
  datatype Request = AskTarget(rate: nat) | AskSuspend(boot: nat, volt: nat) | AskResume

  function Asked(c: Call): Request {
    match c
    case Target(rate, _) => AskTarget(rate)
    case Suspend(boot, volt, _) => AskSuspend(boot, volt)
    case Resume(_) => AskResume
  }

  /** The calls carry out the first of the requests, with any outcomes. */
  predicate Executes(s: State, calls: seq<Call>, requests: seq<Request>, need: Need) {
    && |calls| <= |requests| && (forall i :: 0 <= i < |calls| ==> Asked(calls[i]) == requests[i])
    && AllowedRun(s, calls, need)
  }

  /** The next request is for a target, and it is at risk in the state these calls lead to. */
  predicate NextAtRisk(s: State, calls: seq<Call>, requests: seq<Request>, need: Need) {
    |calls| < |requests| && requests[|calls|].AskTarget? && AtRisk(RunAll(s, calls, need), requests[|calls|].rate, need)
  }

  /** A list of requests is safe under all outcomes exactly when no outcomes lead to a target request at risk. */
  lemma RunSafeIff(s: State, requests: seq<Request>, need: Need)
    requires Monotone(need) && Recorded(s) && Covered(s, need)
    ensures (forall calls :: Executes(s, calls, requests, need) ==> RunCovered(s, calls, need))
            <==> (forall calls :: Executes(s, calls, requests, need) ==> !NextAtRisk(s, calls, requests, need))
  {
    hide Executes, RunCovered, NextAtRisk;
    if forall calls :: Executes(s, calls, requests, need) ==> !NextAtRisk(s, calls, requests, need) {
      forall calls | Executes(s, calls, requests, need) ensures RunCovered(s, calls, need) {
        SafeWithoutRisk(s, calls, requests, need);
      }
    } else {
      var calls :| Executes(s, calls, requests, need) && NextAtRisk(s, calls, requests, need);
      var longer := RiskTaken(s, calls, requests, need);
    }
  }

  lemma {:induction false} SafeWithoutRisk(s: State, calls: seq<Call>, requests: seq<Request>, need: Need)
    requires Monotone(need) && Recorded(s) && Covered(s, need) && Executes(s, calls, requests, need)
    requires forall cs :: Executes(s, cs, requests, need) ==> !NextAtRisk(s, cs, requests, need)
    ensures RunCovered(s, calls, need) && Covered(RunAll(s, calls, need), need)
  {
    hide Points, Covered;
    if calls != [] {
      var n := |calls| - 1;
      assert Executes(s, calls[..n], requests, need) && Asked(calls[n]) == requests[n];
      SafeWithoutRisk(s, calls[..n], requests, need);
      RecordIsLastAccepted(s, calls[..n], need);
      CallSafeIff(RunAll(s, calls[..n], need), calls[n], need);
    }
  }

  /** A request at risk goes wrong when its raise succeeds. */
  lemma RiskTaken(s: State, calls: seq<Call>, requests: seq<Request>, need: Need) returns (longer: seq<Call>)
    requires Monotone(need) && Recorded(s) && Covered(s, need)
    requires Executes(s, calls, requests, need) && NextAtRisk(s, calls, requests, need)
    ensures Executes(s, longer, requests, need) && !RunCovered(s, longer, need)
  {
    hide Points, Covered;
    var n := |calls|;
    var o := Outcome(true, RateOutcome(true, false, Wait(false, false, false, false), 0), false);
    longer := calls + [Target(requests[n].rate, o)];
    assert longer[..n] == calls;
    if RunCovered(s, calls, need) {
      OutcomesSafeIff(s, calls, need);
      RecordIsLastAccepted(s, calls, need);
      CallSafeIff(RunAll(s, calls, need), longer[n], need);
    }
  }

  lemma CallSafeIff(s: State, c: Call, need: Need)
    requires Monotone(need) && Recorded(s) && Covered(s, need) && Allowed(s, c, need)
    ensures AllCovered(Points(s, c, need), need) <==> !Undercuts(s, c, need)
    ensures AllCovered(Points(s, c, need), need) ==> Covered(After(s, c, need), need)
  {
    match c
    case Target(rate, o) => OutcomeSafeIff(s, rate, need, o);
    case Suspend(boot, volt, o) => SuspendSafe(s, boot, volt, need, o);
    case Resume(clock) =>
  }

  /** After a failed rise the next smaller rise lowers the supply under a rate the DDR may have reached. */
  lemma FailedRiseThenUnsafe()
    ensures var need := (r: nat) => r;
            var start := State(100, 100, 100, {100});
            var noWait := Wait(false, false, false, false);
            var failed := Target(300, Outcome(true, RateOutcome(true, false, noWait, 0), true));
            var smaller := Target(200, Outcome(true, RateOutcome(false, false, noWait, 200), true));
            && Bounded(start, need)
            && After(start, failed, need) == State(100, 300, 300, {100, 300})
            && !AllCovered(Points(After(start, failed, need), smaller, need), need)
  {
    var need := (r: nat) => r;
    var stale := State(100, 300, 300, {100, 300});
    var noWait := Wait(false, false, false, false);
    var points := TargetPoints(stale, 200, need, Outcome(true, RateOutcome(false, false, noWait, 200), true));
    assert 300 in points[0].possible && points[0].supply == 200;
    assert !Covered(points[0], need);
  }

  // ---- The driver ---------------------------------------------------------

  class Driver {
    var rate: nat
    var volt: nat
    ghost var supply: nat
    ghost var possible: set<nat>
    ghost var points: seq<State>  // every state passed through, oldest first

    ghost function Now(): State
      reads this
    {
      State(rate, volt, supply, possible)
    }

    constructor (rate: nat, volt: nat)
      ensures Now() == State(rate, volt, volt, {rate}) && points == []
    {
      this.rate, this.volt, supply, possible, points := rate, volt, volt, {rate}, [];
    }

    /** regulator_set_voltage */
    method SetVoltage(v: nat, accepted: bool) returns (failed: bool)
      modifies this`supply, this`points
      ensures failed == !accepted
      ensures supply == if accepted then v else old(supply)
      ensures points == old(points) + if accepted then [Now()] else []
    {
      if accepted {
        supply := v;
        points := points + [Now()];
      }
      failed := !accepted;
    }

    /** rk3568_dmcfreq_wait_complete */
    method WaitComplete(w: Wait) returns (failed: bool)
      ensures failed == !WaitOk(w)
    {
      if !w.enabled {
        return false;
      }
      if w.startRefused {
        return true;
      }
      if !w.interrupted {
        return true;
      }
      failed := w.postFailed;
    }

    /** rk3568_dmc_set_rate: once it can fail, the transition counts as started. */
    method SetRate(target: nat, o: RateOutcome) returns (failed: bool, started: bool)
      modifies this`possible, this`points
      ensures failed == !RateOk(o, target) && started
      ensures points == old(points) + RateChange(old(Now()), target, o)
      ensures Now() == points[|points| - 1]
    {
      started := true;
      possible := possible + {target};
      points := points + [Now()];
      if o.refused {
        return true, started;
      }
      if o.asksToWait {
        var err := WaitComplete(o.wait);
        if err {
          return true, started;
        }
      }
      if o.clock != target {
        return true, started;
      }
      possible := {target};
      points := points + [Now()];
      failed := false;
    }

    ghost method Record()
      modifies this`points
      ensures points == old(points) + [Now()]
    {
      points := points + [Now()];
    }

    /** The end of both calls, once the rate is reached: lower the voltage if it is to be lowered, and record. */
    method Settle(newRate: nat, newVolt: nat, lower: bool, accepted: bool) returns (failed: bool)
      modifies this`rate, this`volt, this`supply, this`points
      ensures failed == (lower && !accepted)
      ensures var s := old(Now());
              points == old(points) +
                if !lower then [s.(rate := newRate, volt := newVolt)]
                else if !accepted then [s.(rate := newRate)]
                else [s.(supply := newVolt), s.(supply := newVolt, rate := newRate, volt := newVolt)]
      ensures Now() == points[|points| - 1]
    {
      if lower {
        failed := SetVoltage(newVolt, accepted);
        if failed {
          rate := newRate;
          Record();
          return;
        }
      }
      rate, volt := newRate, newVolt;
      Record();
      failed := false;
    }

    /** rk3568_dmcfreq_target; no operating point is an error that changes nothing. */
    method TargetRate(opp: Option<nat>, need: Need, o: Outcome) returns (failed: bool)
      modifies this
      ensures opp.None? ==> failed && Now() == old(Now()) && points == old(points)
      ensures opp.Some? ==> points == old(points) + TargetPoints(old(Now()), opp.value, need, o)
      ensures opp.Some? ==> Now() == Last(old(Now()), TargetPoints(old(Now()), opp.value, need, o))
      ensures opp.Some? && !failed ==> rate == opp.value
      ensures failed <==> opp.None? || (old(rate) != opp.value && TargetFails(old(rate), opp.value, o))
      ensures opp.Some? && Good(o, opp.value) ==>
        !failed && Now() == if old(rate) == opp.value then old(Now()) else At(opp.value, need(opp.value))
    {
      hide RateOk, RateGood;
      if opp.Some? {
        GoodIsOk(o.rate, opp.value);
        if Good(o, opp.value) && rate != opp.value { TargetArrives(Now(), opp.value, need, o); }
      }
      if opp.None? {
        return true;
      }
      var target := opp.value;
      var targetVolt := need(target);
      if rate == target {
        return false;
      }
      var oldRate := rate;
      if target > oldRate {
        failed := SetVoltage(targetVolt, o.raised);
        if failed {
          return;
        }
      }
      var started;
      failed, started := SetRate(target, o.rate);
      if failed {
        if target > oldRate {
          volt := targetVolt;
          Record();
        }
        return;
      }
      failed := Settle(target, targetVolt, target < oldRate, o.lowered);
    }

    /** rk3568_dmcfreq_suspend */
    method SuspendTo(boot: nat, opp: Option<nat>, o: Outcome) returns (failed: bool)
      modifies this
      ensures opp.None? ==> Now() == old(Now()) && points == old(points)
      ensures opp.Some? ==> points == old(points) + SuspendPoints(old(Now()), boot, opp.value, o)
      ensures opp.Some? ==> Now() == Last(old(Now()), SuspendPoints(old(Now()), boot, opp.value, o))
      ensures !failed ==> rate == boot
      ensures failed <==> old(rate) != boot && (opp.None? || SuspendFails(old(volt), boot, opp.value, o))
      ensures opp.Some? && Good(o, boot) && old(Recorded(Now())) ==>
        !failed && Now() == if old(rate) == boot then old(Now()) else At(boot, opp.value)
    {
      hide RateOk, RateGood;
      GoodIsOk(o.rate, boot);
      if opp.Some? && Good(o, boot) && rate != boot && Recorded(Now()) { SuspendArrives(Now(), boot, opp.value, o); }
      if rate == boot {
        return false;
      }
      if opp.None? {
        return true;
      }
      var targetVolt := opp.value;
      var raised := false;
      if targetVolt > volt {
        failed := SetVoltage(targetVolt, o.raised);
        if failed {
          return;
        }
        raised := true;
      }
      var started;
      failed, started := SetRate(boot, o.rate);
      if failed {
        if raised {
          volt := targetVolt;
          Record();
        }
        return;
      }
      failed := Settle(boot, targetVolt, targetVolt < volt, o.lowered);
    }
  }
}
