/** The lid-suspend policy of the key and lid monitor, and how the monitor drives it. */
module LidPolicy {
  datatype Event = Menu | Pak | Close | Open | Power

  datatype Policy = Policy(
    menuSeen: bool, menuOwns: bool, inPak: bool, pakLatched: bool, lidClosed: bool, asleep: bool, busy: bool,
    memRequests: nat, powerRequests: nat, lidRequests: nat)

  const InitialPolicy: Policy := Policy(false, false, false, false, false, false, false, 0, 0, 0)

  // ---- One event ----------------------------------------------------------

  /** The flags after the event, before a request is recorded. */
  function Noted(p: Policy, ev: Event): Policy {
    match ev
    case Menu => p.(menuSeen := true, menuOwns := true, inPak := false, pakLatched := false)
    case Pak =>
      var p := p.(menuOwns := false);
      if !p.menuSeen || p.inPak then p else p.(inPak := true, pakLatched := true)
    case Close => p.(lidClosed := true)
    case Open => p.(lidClosed := false, asleep := false)
    case Power => p
  }

  /** Whether the event asks for one suspend. */
  predicate Wants(p: Policy, ev: Event, guard: bool) {
    match ev
    case Pak => p.menuSeen && !p.inPak && p.lidClosed && !p.asleep && !guard && !p.busy
    case Close => !p.menuOwns && p.inPak && !p.asleep && !guard && !p.busy
    case Power => !p.menuOwns && !guard && !p.busy
    case _ => false
  }

  /** zlyme_lid_apply */
  function Applied(p: Policy, ev: Event, guard: bool): Policy {
    var q := Noted(p, ev);
    if !Wants(p, ev, guard) then q
    else if ev == Power then q.(busy := true, powerRequests := q.powerRequests + 1)
    else q.(busy := true, lidRequests := q.lidRequests + 1)
  }

  /** zlyme_lid_observe; the sample is negative when the switch could not be read. */
  function Observed(p: Policy, closed: int): Policy {
    if closed < 0 then p else if closed == 0 then Applied(p, Open, false) else p.(lidClosed := true)
  }

  /** zlyme_lid_suspend_done; a failed suspend counts the same. */
  function Done(p: Policy): Policy {
    p.(busy := false, memRequests := p.memRequests + 1, asleep := p.asleep || p.lidClosed)
  }

  // ---- Runs of the policy -------------------------------------------------

  datatype Input = Ev(ev: Event, guard: bool) | Sample(closed: int) | SuspendDone(ok: bool)

  function Next(p: Policy, i: Input): Policy {
    match i
    case Ev(ev, guard) => Applied(p, ev, guard)
    case Sample(closed) => Observed(p, closed)
    case SuspendDone(_) => Done(p)
  }

  function Run(inputs: seq<Input>): Policy {
    if inputs == [] then InitialPolicy else Next(Run(inputs[..|inputs| - 1]), inputs[|inputs| - 1])
  }

  /** A suspend is reported done only while one is running. */
  predicate Proper(inputs: seq<Input>) {
    inputs == [] ||
    (var n := |inputs| - 1; Proper(inputs[..n]) && (inputs[n].SuspendDone? ==> Run(inputs[..n]).busy))
  }

  predicate Grants(p: Policy, i: Input) { i.Ev? && Wants(p, i.ev, i.guard) }

  predicate LidGrant(p: Policy, i: Input) { Grants(p, i) && i.ev != Power }

  predicate Opens(i: Input) { (i.Ev? && i.ev == Open) || (i.Sample? && i.closed == 0) }

  /** Lid-triggered suspends granted since the lid was last seen open. */
  function LidGrantsSinceOpen(inputs: seq<Input>): nat {
    if inputs == [] then 0
    else
      var n := |inputs| - 1;
      if Opens(inputs[n]) then 0
      else LidGrantsSinceOpen(inputs[..n]) + if LidGrant(Run(inputs[..n]), inputs[n]) then 1 else 0
  }

  function B(b: bool): nat { if b then 1 else 0 }

  predicate Inv(p: Policy) {
    (p.asleep ==> p.lidClosed) && p.memRequests + B(p.busy) == p.lidRequests + p.powerRequests
  }

  lemma NotedKeeps(p: Policy, ev: Event)
    requires Inv(p)
    ensures Inv(Noted(p, ev)) && Noted(p, ev).busy == p.busy
    ensures Noted(p, ev).lidRequests == p.lidRequests && Noted(p, ev).powerRequests == p.powerRequests
  {
  }

  lemma AppliedKeeps(p: Policy, ev: Event, guard: bool)
    requires Inv(p)
    ensures Inv(Applied(p, ev, guard))
  {
    hide Noted;
    NotedKeeps(p, ev);
  }

  lemma NextKeeps(p: Policy, i: Input)
    requires Inv(p) && (i.SuspendDone? ==> p.busy)
    ensures Inv(Next(p, i))
  {
    hide Applied;
    if i.Ev? {
      AppliedKeeps(p, i.ev, i.guard);
    } else if i.Sample? {
      AppliedKeeps(p, Open, false);
    }
  }

  /**
   Over every run: asleep only with the lid closed, every granted request is
   either answered or running, and at most one lid-triggered suspend is granted
   between two opens.
   */
  lemma {:induction false} RunIsSound(inputs: seq<Input>)
    requires Proper(inputs)
    ensures Inv(Run(inputs))
    ensures LidGrantsSinceOpen(inputs) <= 1
    ensures LidGrantsSinceOpen(inputs) == 1 ==> Run(inputs).lidClosed && (Run(inputs).busy || Run(inputs).asleep)
  {
    if inputs != [] {
      var n := |inputs| - 1;
      RunIsSound(inputs[..n]);
      NextKeeps(Run(inputs[..n]), inputs[n]);
    }
  }

  /** No suspend is granted under the guard, while one is running, or with the menu owning the screen. */
  lemma GrantIsFree(p: Policy, i: Input)
    ensures Grants(p, i) ==> !i.guard && !p.busy && !Next(p, i).menuOwns && Next(p, i).busy
    ensures LidGrant(p, i) ==> Next(p, i).lidClosed && !p.asleep && Next(p, i).inPak
    ensures !Grants(p, i) ==> Next(p, i).lidRequests == p.lidRequests && Next(p, i).powerRequests == p.powerRequests
  {
    hide Applied, Wants;
    match i
    case Ev(ev, guard) =>
      if Wants(p, ev, guard) { WantedIsFree(p, ev, guard); } else { UnwantedKeepsCounts(p, ev, guard); }
    case Sample(closed) =>
      OpenWantsNothing(p);
      UnwantedKeepsCounts(p, Open, false);
    case SuspendDone(_) =>
  }

  lemma WantedIsFree(p: Policy, ev: Event, guard: bool)
    requires Wants(p, ev, guard)
    ensures !guard && !p.busy && !Applied(p, ev, guard).menuOwns && Applied(p, ev, guard).busy
    ensures ev != Power ==> Applied(p, ev, guard).lidClosed && !p.asleep && Applied(p, ev, guard).inPak
  {
  }

  lemma UnwantedKeepsCounts(p: Policy, ev: Event, guard: bool)
    requires !Wants(p, ev, guard)
    ensures var q := Applied(p, ev, guard);
            q.lidRequests == p.lidRequests && q.powerRequests == p.powerRequests && q.busy == p.busy
  {
    hide Wants, Noted;
    NotedKeepsCounts(p, ev);
  }

  lemma NotedKeepsCounts(p: Policy, ev: Event)
    ensures Noted(p, ev).busy == p.busy
    ensures Noted(p, ev).lidRequests == p.lidRequests && Noted(p, ev).powerRequests == p.powerRequests
  {
    match ev
    case Menu =>
    case Pak =>
    case Close =>
    case Open =>
    case Power =>
  }

  lemma OpenWantsNothing(p: Policy)
    ensures !Wants(p, Open, false)
  {
  }

  // ---- Grants, by the history of inputs -----------------------------------

  /** Who has the screen: nobody is known to before the menu was seen, and leaving the menu means entering a pak. */
  datatype Owner = NoMenuYet | MenuOwner | PakOwner

  function OwnerAfter(h: seq<Input>): Owner {
    if h == [] then NoMenuYet
    else
      var before, i := OwnerAfter(h[..|h| - 1]), h[|h| - 1];
      if i.Ev? && i.ev == Menu then MenuOwner
      else if i.Ev? && i.ev == Pak && before != NoMenuYet then PakOwner
      else before
  }

  /** The lid by the last edge or readable sample. */
  predicate ShutAfter(h: seq<Input>) {
    h != [] &&
    var i := h[|h| - 1];
    if Opens(i) then false
    else (i.Ev? && i.ev == Close) || (i.Sample? && i.closed > 0) || ShutAfter(h[..|h| - 1])
  }

  /** A suspend has ended with the lid shut, and the lid has not been opened since. */
  predicate SleptAfter(h: seq<Input>) {
    h != [] &&
    var front, i := h[..|h| - 1], h[|h| - 1];
    if Opens(i) then false else (i.SuspendDone? && ShutAfter(front)) || SleptAfter(front)
  }

  /** A suspend is due: nothing guards against it or runs already, and the power key, or the lid, calls for it. */
  predicate Due(h: seq<Input>, i: Input)
    decreases |h|, 1
  {
    && i.Ev? && !i.guard && !RunningAfter(h)
    && match i.ev
       case Power => OwnerAfter(h) != MenuOwner
       case Close => OwnerAfter(h) == PakOwner && !SleptAfter(h)
       case Pak => OwnerAfter(h) == MenuOwner && ShutAfter(h) && !SleptAfter(h)
       case _ => false
  }

  /** A suspend that was due has not ended yet. */
  predicate RunningAfter(h: seq<Input>)
    decreases |h|, 0
  {
    h != [] &&
    var front, i := h[..|h| - 1], h[|h| - 1];
    !i.SuspendDone? && (Due(front, i) || RunningAfter(front))
  }

  predicate OwnerTold(p: Policy, owner: Owner) {
    (p.menuSeen <==> owner != NoMenuYet) && (p.menuOwns <==> owner == MenuOwner) && (p.inPak <==> owner == PakOwner)
  }

  /** The flags of the policy are what the history says. */
  predicate Told(p: Policy, h: seq<Input>) {
    && OwnerTold(p, OwnerAfter(h))
    && (p.lidClosed <==> ShutAfter(h)) && (p.asleep <==> SleptAfter(h)) && (p.busy <==> RunningAfter(h))
  }

  lemma OwnerStep(p: Policy, front: seq<Input>, i: Input, h: seq<Input>)
    requires h != [] && front == h[..|h| - 1] && i == h[|h| - 1] && OwnerTold(p, OwnerAfter(front))
    ensures OwnerTold(Next(p, i), OwnerAfter(h))
  {
    hide Wants;
    if i.Ev? && i.ev == Menu {
    } else if i.Ev? && i.ev == Pak {
    } else {
    }
  }

  /** A request touches neither the lid nor the sleep flag. */
  lemma AppliedLid(p: Policy, ev: Event, guard: bool)
    ensures Applied(p, ev, guard).lidClosed <==> ev == Close || (ev != Open && p.lidClosed)
    ensures Applied(p, ev, guard).asleep <==> ev != Open && p.asleep
  {
    hide Wants;
  }

  lemma NextLid(p: Policy, i: Input)
    ensures Next(p, i).lidClosed <==>
            !Opens(i) && ((i.Ev? && i.ev == Close) || (i.Sample? && i.closed > 0) || p.lidClosed)
    ensures Next(p, i).asleep <==> !Opens(i) && ((i.SuspendDone? && p.lidClosed) || p.asleep)
  {
    hide Applied;
    match i
    case Ev(ev, guard) => AppliedLid(p, ev, guard);
    case Sample(closed) => AppliedLid(p, Open, false);
    case SuspendDone(_) =>
  }

  lemma LidStep(p: Policy, front: seq<Input>, i: Input, h: seq<Input>)
    requires h != [] && front == h[..|h| - 1] && i == h[|h| - 1]
    requires (p.lidClosed <==> ShutAfter(front)) && (p.asleep <==> SleptAfter(front))
    ensures (Next(p, i).lidClosed <==> ShutAfter(h)) && (Next(p, i).asleep <==> SleptAfter(h))
  {
    hide Next, Opens;
    NextLid(p, i);
  }

  lemma BusyStep(p: Policy, i: Input)
    ensures Next(p, i).busy <==> !i.SuspendDone? && (Grants(p, i) || p.busy)
  {
    hide Applied, Wants;
    match i
    case Ev(ev, guard) =>
      if Wants(p, ev, guard) { WantedIsFree(p, ev, guard); } else { UnwantedKeepsCounts(p, ev, guard); }
    case Sample(closed) =>
      OpenWantsNothing(p);
      UnwantedKeepsCounts(p, Open, false);
    case SuspendDone(_) =>
  }

  lemma ToldGrant(p: Policy, h: seq<Input>, i: Input)
    requires Told(p, h)
    ensures Grants(p, i) <==> Due(h, i)
  {
    hide OwnerAfter, ShutAfter, SleptAfter, RunningAfter;
  }

  lemma {:induction false} HistoryTells(h: seq<Input>)
    ensures Told(Run(h), h)
  {
    hide Next, Grants, Due;
    if h != [] {
      var front, i := h[..|h| - 1], h[|h| - 1];
      HistoryTells(front);
      ToldGrant(Run(front), front, i);
      OwnerStep(Run(front), front, i, h);
      LidStep(Run(front), front, i, h);
      BusyStep(Run(front), i);
      hide OwnerAfter, ShutAfter, SleptAfter;
    }
  }

  /** A suspend is granted exactly when the history makes one due. */
  lemma GrantedIffDue(h: seq<Input>, i: Input)
    ensures Grants(Run(h), i) <==> Due(h, i)
  {
    hide Run, Told, Grants, Due;
    HistoryTells(h);
    ToldGrant(Run(h), h, i);
  }

  // ---- The monitor --------------------------------------------------------

  const GUARD_MS: nat := 1000

  /** The global state of the monitor between two events; 0 means no guard. */
  datatype Monitor = Monitor(policy: Policy, ignoreUntil: nat)

  /**
   Something to handle at time now (0 when the clock cannot be read); `resumed` is the time after a
   suspend it may start.
   */
  datatype Stimulus =
    | Edge(ev: Event, now: nat, resumed: nat)
    | Sync(closed: int, menu: bool, now: nat, resumed: nat)

  /** guard_active */
  predicate Guarded(m: Monitor, now: nat) { m.ignoreUntil != 0 && now != 0 && now < m.ignoreUntil }

  /** maybe_lid: a granted suspend runs to its end before anything else is handled. */
  function MaybeLid(m: Monitor, ev: Event, now: nat, resumed: nat): Monitor {
    var guard := Guarded(m, now);
    var p := Applied(m.policy, ev, guard);
    if Wants(m.policy, ev, guard) then Monitor(Done(p), if resumed != 0 then resumed + GUARD_MS else 0)
    else m.(policy := p)
  }

  /** The monitor just before the event of a stimulus: a sync takes a switch sample first. */
  function Sampled(m: Monitor, s: Stimulus): Monitor {
    if s.Sync? then m.(policy := Observed(m.policy, s.closed)) else m
  }

  function EventOf(s: Stimulus): Event {
    if s.Edge? then s.ev else if s.menu then Menu else Pak
  }

  function Handle(m: Monitor, s: Stimulus): Monitor {
    MaybeLid(Sampled(m, s), EventOf(s), s.now, s.resumed)
  }

  function HandleAll(ss: seq<Stimulus>): Monitor {
    if ss == [] then Monitor(InitialPolicy, 0) else Handle(HandleAll(ss[..|ss| - 1]), ss[|ss| - 1])
  }

  predicate Suspends(m: Monitor, s: Stimulus) {
    Wants(Sampled(m, s).policy, EventOf(s), Guarded(m, s.now))
  }

  /** The policy inputs a stimulus amounts to. */
  function Amounts(m: Monitor, s: Stimulus): seq<Input> {
    (if s.Sync? then [Sample(s.closed)] else [])
    + [Ev(EventOf(s), Guarded(m, s.now))]
    + (if Suspends(m, s) then [SuspendDone(true)] else [])
  }

  function AmountsAll(ss: seq<Stimulus>): seq<Input> {
    if ss == [] then []
    else var n := |ss| - 1; AmountsAll(ss[..n]) + Amounts(HandleAll(ss[..n]), ss[n])
  }

  lemma RunOne(inputs: seq<Input>, i: Input)
    ensures Run(inputs + [i]) == Next(Run(inputs), i)
    ensures Proper(inputs + [i]) <==> Proper(inputs) && (i.SuspendDone? ==> Run(inputs).busy)
  {
    assert (inputs + [i])[..|inputs|] == inputs;
  }

  lemma HandleIsRun(inputs: seq<Input>, m: Monitor, s: Stimulus)
    requires Proper(inputs) && m.policy == Run(inputs)
    ensures Proper(inputs + Amounts(m, s)) && Run(inputs + Amounts(m, s)) == Handle(m, s).policy
  {
    hide Wants, Noted;
    var ev := Ev(EventOf(s), Guarded(m, s.now));
    var sampled := if s.Sync? then inputs + [Sample(s.closed)] else inputs;
    if s.Sync? { RunOne(inputs, Sample(s.closed)); }
    RunOne(sampled, ev);
    var done := if Suspends(m, s) then sampled + [ev] + [SuspendDone(true)] else sampled + [ev];
    if Suspends(m, s) { RunOne(sampled + [ev], SuspendDone(true)); }
    assert inputs + Amounts(m, s) == done;
  }

  /** Everything proved of policy runs holds of the monitor, and between events no suspend is running. */
  lemma {:induction false} MonitorIsRun(ss: seq<Stimulus>)
    ensures Proper(AmountsAll(ss)) && Run(AmountsAll(ss)) == HandleAll(ss).policy
    ensures !HandleAll(ss).policy.busy
    ensures LidGrantsSinceOpen(AmountsAll(ss)) <= 1
    ensures HandleAll(ss).policy.memRequests == HandleAll(ss).policy.lidRequests + HandleAll(ss).policy.powerRequests
  {
    hide Run, Proper, Handle, Amounts, LidGrantsSinceOpen;
    if ss == [] {
      assert Proper([]) && Run([]) == InitialPolicy by { NothingYet(); }
    } else {
      var n := |ss| - 1;
      MonitorIsRun(ss[..n]);
      HandleIsRun(AmountsAll(ss[..n]), HandleAll(ss[..n]), ss[n]);
      HandleNotBusy(HandleAll(ss[..n]), ss[n]);
    }
    RunIsSound(AmountsAll(ss));
  }

  lemma NothingYet()
    ensures Proper([]) && Run([]) == InitialPolicy
  {
  }

  lemma HandleNotBusy(m: Monitor, s: Stimulus)
    requires !m.policy.busy
    ensures !Handle(m, s).policy.busy
  {
    hide Applied, Wants;
    OpenWantsNothing(m.policy);
    UnwantedKeepsCounts(m.policy, Open, false);
    var n := Sampled(m, s);
    var guard := Guarded(n, s.now);
    if !Wants(n.policy, EventOf(s), guard) { UnwantedKeepsCounts(n.policy, EventOf(s), guard); }
  }

  lemma GuardUntouched(m: Monitor, s: Stimulus)
    ensures !Suspends(m, s) ==> Handle(m, s).ignoreUntil == m.ignoreUntil
  {
    hide Wants, Applied, Observed;
  }

  lemma HandleOneMore(ss: seq<Stimulus>, s: Stimulus)
    ensures HandleAll(ss + [s]) == Handle(HandleAll(ss), s)
  {
    hide Handle;
    assert (ss + [s])[..|ss|] == ss;
  }

  lemma {:induction false} GuardStays(before: seq<Stimulus>, between: seq<Stimulus>)
    requires forall k :: 0 <= k < |between| ==> !Suspends(HandleAll(before + between[..k]), between[k])
    ensures HandleAll(before + between).ignoreUntil == HandleAll(before).ignoreUntil
  {
    hide Suspends, Handle, HandleAll;
    if between == [] {
      assert before + between == before;
    } else {
      var n := |between| - 1;
      var front := between[..n];
      forall k | 0 <= k < n ensures !Suspends(HandleAll(before + front[..k]), front[k]) {
        assert front[..k] == between[..k] && front[k] == between[k];
      }
      GuardStays(before, front);
      assert before + between == (before + front) + [between[n]];
      HandleOneMore(before + front, between[n]);
      GuardUntouched(HandleAll(before + front), between[n]);
    }
  }

  /** Two suspends are at least the guard apart, counted from the end of the first, whatever arrives in between. */
  lemma SuspendsAreApart(before: seq<Stimulus>, s: Stimulus, between: seq<Stimulus>, t: Stimulus)
    requires Suspends(HandleAll(before), s)
    requires forall k :: 0 <= k < |between| ==> !Suspends(HandleAll(before + [s] + between[..k]), between[k])
    requires Suspends(HandleAll(before + [s] + between), t)
    ensures s.resumed == 0 || t.now == 0 || t.now >= s.resumed + GUARD_MS
  {
    hide HandleAll, Handle, Suspends;
    GuardStays(before + [s], between);
    HandleOneMore(before, s);
    SuspendSets(HandleAll(before), s);
    SuspendNeedsTime(HandleAll(before + [s] + between), t);
  }

  lemma SuspendNeedsTime(m: Monitor, s: Stimulus)
    requires Suspends(m, s)
    ensures !Guarded(m, s.now)
  {
    hide Applied, Observed;
  }

  /** When the last suspend of a run ended, 0 before the first and when the clock could not be read. */
  function LastResume(ss: seq<Stimulus>): nat {
    if ss == [] then 0
    else
      var n := |ss| - 1;
      if Suspends(HandleAll(ss[..n]), ss[n]) then ss[n].resumed else LastResume(ss[..n])
  }

  lemma {:induction false} GuardIsLastResume(ss: seq<Stimulus>)
    ensures HandleAll(ss).ignoreUntil == if LastResume(ss) == 0 then 0 else LastResume(ss) + 1000
  {
    hide Suspends, Handle;
    if ss != [] {
      var n := |ss| - 1;
      GuardIsLastResume(ss[..n]);
      GuardUntouched(HandleAll(ss[..n]), ss[n]);
      if Suspends(HandleAll(ss[..n]), ss[n]) { SuspendSets(HandleAll(ss[..n]), ss[n]); }
    }
  }

  lemma SuspendSets(m: Monitor, s: Stimulus)
    requires Suspends(m, s)
    ensures Handle(m, s).ignoreUntil == if s.resumed == 0 then 0 else s.resumed + GUARD_MS
  {
    hide Wants, Applied, Observed;
  }

  /**
   The monitor suspends exactly when its history makes a suspend due and a
   second has passed since the last one ended, as far as the clock can tell.
   */
  lemma SuspendsIff(ss: seq<Stimulus>, s: Stimulus)
    ensures var sample := if s.Sync? then [Sample(s.closed)] else [];
            Suspends(HandleAll(ss), s) <==>
            && Due(AmountsAll(ss) + sample, Ev(EventOf(s), false))
            && (LastResume(ss) == 0 || s.now == 0 || s.now >= LastResume(ss) + 1000)
  {
    hide Handle, HandleAll, Amounts, AmountsAll, Due, Run, LastResume;
    var m, h := HandleAll(ss), AmountsAll(ss);
    var history := h + if s.Sync? then [Sample(s.closed)] else [];
    GuardIsLastResume(ss);
    MonitorIsRun(ss);
    assert Run(history) == Sampled(m, s).policy by {
      if s.Sync? { RunOne(h, Sample(s.closed)); } else { assert history == h; }
    }
    GrantedIffDue(history, Ev(EventOf(s), false));
    GuardStops(Sampled(m, s).policy, EventOf(s), Guarded(m, s.now));
  }

  lemma GuardStops(p: Policy, ev: Event, guard: bool)
    ensures Wants(p, ev, guard) <==> !guard && Wants(p, ev, false)
  {
  }

  // ---- The policy struct --------------------------------------------------

  class LidState {
    var menuSeen: bool
    var menuOwns: bool
    var inPak: bool
    var pakLatched: bool
    var lidClosed: bool
    var asleep: bool
    var busy: bool
    var memRequests: nat
    var powerRequests: nat
    var lidRequests: nat

    ghost function Value(): Policy
      reads this
    {
      Policy(menuSeen, menuOwns, inPak, pakLatched, lidClosed, asleep, busy, memRequests, powerRequests, lidRequests)
    }

    constructor ()
      ensures Value() == InitialPolicy
    {
      menuSeen, menuOwns, inPak, pakLatched, lidClosed, asleep, busy := false, false, false, false, false, false, false;
      memRequests, powerRequests, lidRequests := 0, 0, 0;
    }

    /** zlyme_lid_apply */
    method Apply(ev: Event, guard: bool) returns (want: bool)
      modifies this
      ensures want == Wants(old(Value()), ev, guard) && Value() == Applied(old(Value()), ev, guard)
    {
      want := false;
      match ev {
      case Menu =>
        menuSeen, menuOwns, inPak, pakLatched := true, true, false, false;
      case Pak =>
        menuOwns := false;
        if menuSeen && !inPak {
          inPak, pakLatched := true, true;
          want := lidClosed && !asleep && !guard && !busy;
        }
      case Close =>
        lidClosed := true;
        want := !(menuOwns || !inPak || asleep || guard || busy);
      case Open =>
        lidClosed, asleep := false, false;
      case Power =>
        want := !(menuOwns || guard || busy);
      }
      if want {
        busy := true;
        if ev == Power {
          powerRequests := powerRequests + 1;
        } else {
          lidRequests := lidRequests + 1;
        }
      }
    }

    /** zlyme_lid_observe */
    method Observe(closed: int)
      modifies this
      ensures Value() == Observed(old(Value()), closed)
    {
      if closed < 0 {
        return;
      }
      if closed == 0 {
        var want := Apply(Open, false);
      } else {
        lidClosed := true;
      }
    }

    /** zlyme_lid_suspend_done */
    method Finish(ok: bool)
      modifies this
      ensures Value() == Done(old(Value()))
    {
      busy := false;
      memRequests := memRequests + 1;
      if lidClosed {
        asleep := true;
      }
    }
  }

  /** The event loop: each stimulus in turn, a granted suspend run to its end. */
  method Watch(ss: seq<Stimulus>) returns (suspends: nat, guardUntil: nat)
    ensures guardUntil == HandleAll(ss).ignoreUntil && suspends == HandleAll(ss).policy.memRequests
  {
    hide Wants, Noted, Applied, Observed, Done;
    var lid := new LidState();
    guardUntil := 0;
    var i := 0;
    while i < |ss|
      invariant 0 <= i <= |ss| && Monitor(lid.Value(), guardUntil) == HandleAll(ss[..i])
    {
      var s := ss[i];
      assert ss[..i + 1][..i] == ss[..i];
      if s.Sync? {
        lid.Observe(s.closed);
      }
      var guard := guardUntil != 0 && s.now != 0 && s.now < guardUntil;
      var want := lid.Apply(EventOf(s), guard);
      if want {
        guardUntil := if s.resumed != 0 then s.resumed + GUARD_MS else 0;
        lid.Finish(true);
      }
      i := i + 1;
    }
    assert ss[..|ss|] == ss;
    suspends := lid.memRequests;
  }
}
