/**
 The gamepad state machine: frames drive the timed boot-centre acquisition and
 the reports, calibration writes install new ranges. Time is in milliseconds
 and never decreases.
 */
module Gamepad {
  import opened BootCenter
  import opened Stick

  const SETTLE_MS: nat := 1500
  const BUDGET_MS: nat := 6000
  const AXES: nat := 4
  const XL: nat := 0
  const YL: nat := 1
  const XR: nat := 2
  const YR: nat := 3

  datatype BootState = Wait | Settling | Collect | Confirm | Accepted | TimedOut | Cancelled | RangeRejected

  datatype ZeroSource = FromDefault | FromPersisted | FromBoot | FromApply

  datatype Phase = PhaseWait | PhaseSettle | PhaseRun | PhaseDone

  datatype Axis = Axis(
    min: int, savedZero: int, runtimeZero: int, max: int, latest: int,
    samples: seq<int>, candidate: int, boot: BootState, source: ZeroSource,
    settled: bool, accepted: bool, attempts: nat)

  datatype Pad = Pad(
    axes: seq<Axis>, started: bool, first: nat, collect: nat, phase: Phase,
    deadzoneLeft: int, deadzoneRight: int, reports: seq<int>)

  /** One sample per axis, in axis order. */
  type Raw = r: seq<int> | |r| == AXES && forall i :: 0 <= i < AXES ==> 0 <= r[i] <= 255 witness [0, 0, 0, 0]

  const InitialAxis: Axis := Axis(0, 128, 128, 255, 128, [], -1, Wait, FromDefault, false, false, 0)
  const InitialPad: Pad :=
    Pad([InitialAxis, InitialAxis, InitialAxis, InitialAxis], false, 0, 0, PhaseWait, 0, 0, [0, 0, 0, 0])

  /** mf_boot_finished */
  predicate Finished(b: BootState) { b.Accepted? || b.TimedOut? || b.Cancelled? || b.RangeRejected? }

  predicate AllFinished(axes: seq<Axis>) { forall i :: 0 <= i < |axes| ==> Finished(axes[i].boot) }

  // ---- Boot-centre acquisition --------------------------------------------

  /** A full window for an axis that is still collecting. */
  function WindowDone(ax: Axis, window: seq<int>): Axis
    requires window != []
  {
    var ax := ax.(samples := [], attempts := ax.attempts + 1);
    if !Stable(window) then ax.(candidate := -1, boot := Collect)
    else
      var med := Median(window);
      if ax.boot != Confirm then ax.(candidate := med, boot := Confirm)
      else if !Near(med, ax.candidate, MATCH) then ax.(candidate := -1, boot := Collect)
      else if !CenterInRange(ax.min, med, ax.max) then ax.(settled := true, accepted := false, boot := RangeRejected)
      else ax.(runtimeZero := med, source := FromBoot, accepted := true, settled := true, boot := Accepted)
  }

  /** One turn of the collecting loop of mf_boot_note. */
  function NoteAxis(ax: Axis, sample: int, late: bool): Axis {
    if Finished(ax.boot) then ax
    else if late then ax.(boot := TimedOut, settled := true, accepted := false)
    else if |ax.samples| + 1 < WINDOW then ax.(samples := ax.samples + [sample])
    else WindowDone(ax, ax.samples + [sample])
  }

  function StartAxis(ax: Axis): Axis {
    if ax.source == FromApply then ax else ax.(boot := Settling)
  }

  function CollectAxis(ax: Axis): Axis {
    if ax.boot == Settling then ax.(boot := Collect, samples := []) else ax
  }

  /** The first frame starts the settling phase. */
  function Started(p: Pad, now: nat): (q: Pad)
    requires |p.axes| == AXES
    ensures |q.axes| == AXES
  {
    if p.started then p
    else p.(started := true, first := now, phase := PhaseSettle,
            axes := seq(AXES, i requires 0 <= i < AXES => StartAxis(p.axes[i])))
  }

  /** The end of the settling time opens the collecting phase. */
  function Settled(p: Pad, now: nat): (q: Pad)
    requires |p.axes| == AXES
    ensures |q.axes| == AXES
  {
    if p.phase != PhaseSettle || now < p.first + SETTLE_MS then p
    else p.(collect := now, phase := PhaseRun, axes := seq(AXES, i requires 0 <= i < AXES => CollectAxis(p.axes[i])))
  }

  function NoteAxes(axes: seq<Axis>, raw: Raw, late: bool): seq<Axis>
    requires |axes| == AXES
  {
    seq(AXES, i requires 0 <= i < AXES => NoteAxis(axes[i], raw[i], late))
  }

  function Collected(p: Pad, raw: Raw, now: nat): Pad
    requires |p.axes| == AXES
  {
    if p.phase != PhaseRun then p
    else
      var axes := NoteAxes(p.axes, raw, now > p.collect + BUDGET_MS);
      p.(axes := axes, phase := if AllFinished(axes) then PhaseDone else PhaseRun)
  }

  function Latest(p: Pad, raw: Raw): (q: Pad)
    requires |p.axes| == AXES
    ensures |q.axes| == AXES
  {
    p.(axes := seq(AXES, i requires 0 <= i < AXES => p.axes[i].(latest := raw[i])))
  }

  /** mf_boot_note */
  function BootNote(p: Pad, raw: Raw, now: nat): Pad
    requires |p.axes| == AXES
  {
    Collected(Settled(Started(Latest(p, raw), now), now), raw, now)
  }

  // ---- Reports ------------------------------------------------------------

  /** mf_emit_stick */
  function EmitStick(p: Pad, x: nat, y: nat, pct: int): Pad
    requires |p.axes| == AXES == |p.reports| && x < AXES && y < AXES && pct <= DEADZONE_MAX
  {
    var (ox, oy) := Radial(pct, ScaledLatest(p.axes[x]), ScaledLatest(p.axes[y]));
    p.(reports := p.reports[x := ox][y := oy])
  }

  function ScaledLatest(ax: Axis): int { Scale(ax.latest, Calibration(ax.min, ax.runtimeZero, ax.max)) }

  predicate Shaped(p: Pad) {
    |p.axes| == AXES == |p.reports| && 0 <= p.deadzoneLeft <= DEADZONE_MAX && 0 <= p.deadzoneRight <= DEADZONE_MAX
  }

  /** What mf_feed does with a complete frame. */
  function OnFrame(p: Pad, raw: Raw, now: nat): Pad
    requires Shaped(p)
  {
    var p := BootNote(p, raw, now);
    EmitStick(EmitStick(p, XL, YL, p.deadzoneLeft), XR, YR, p.deadzoneRight)
  }

  // ---- Calibration writes -------------------------------------------------

  datatype Reply = Stored | InvalidValue | OutOfRange

  /** mf_preflight_axis */
  predicate Preflight(ax: Axis, apply: bool, cal: Calibration) {
    !apply && (ax.source == FromBoot || ax.source == FromApply) ==> CenterInRange(cal.min, ax.runtimeZero, cal.max)
  }

  /** mf_install_axis */
  function InstallAxis(ax: Axis, apply: bool, cal: Calibration): Axis {
    var ax := ax.(min := cal.min, savedZero := cal.zero, max := cal.max);
    if apply then
      ax.(runtimeZero := cal.zero, source := FromApply, boot := if Finished(ax.boot) then ax.boot else Cancelled)
    else if ax.source == FromDefault || ax.source == FromPersisted then
      ax.(runtimeZero := cal.zero, source := FromPersisted)
    else ax
  }

  /** mf_cal_store for the stick with axes x and y, its six numbers already read. */
  function CalStore(p: Pad, right: bool, apply: bool, x: Calibration, y: Calibration): (Pad, Reply)
    requires Shaped(p)
  {
    var xi, yi := if right then XR else XL, if right then YR else YL;
    if !CenterInRange(x.min, x.zero, x.max) || !CenterInRange(y.min, y.zero, y.max) then (p, InvalidValue)
    else if !Preflight(p.axes[xi], apply, x) || !Preflight(p.axes[yi], apply, y) then (p, OutOfRange)
    else
      var axes := p.axes[xi := InstallAxis(p.axes[xi], apply, x)][yi := InstallAxis(p.axes[yi], apply, y)];
      var q := p.(axes := axes, phase := if p.started && AllFinished(axes) then PhaseDone else p.phase);
      (EmitStick(q, xi, yi, if right then p.deadzoneRight else p.deadzoneLeft), Stored)
  }

  /** mf_dz_store */
  function SetDeadzone(p: Pad, right: bool, pct: nat): (Pad, Reply)
    requires Shaped(p)
  {
    if pct > DEADZONE_MAX then (p, InvalidValue)
    else if right then (EmitStick(p.(deadzoneRight := pct), XR, YR, pct), Stored)
    else (EmitStick(p.(deadzoneLeft := pct), XL, YL, pct), Stored)
  }

  // ---- Runs ---------------------------------------------------------------

  datatype Event =
    | FrameIn(raw: Raw, now: nat)
    | Write(right: bool, apply: bool, x: Calibration, y: Calibration)
    | Deadzone(right: bool, pct: nat)

  function Step(p: Pad, e: Event): (q: Pad)
    requires Shaped(p)
    ensures Shaped(q)
  {
    match e
    case FrameIn(raw, now) => OnFrame(p, raw, now)
    case Write(right, apply, x, y) => CalStore(p, right, apply, x, y).0
    case Deadzone(right, pct) => SetDeadzone(p, right, pct).0
  }

  function Run(p: Pad, events: seq<Event>): (q: Pad)
    requires Shaped(p)
    ensures Shaped(q)
  {
    if events == [] then p else Step(Run(p, events[..|events| - 1]), events[|events| - 1])
  }

  // ---- What every reachable state keeps -----------------------------------

  /** Both centres are strictly inside the ends with both sides longer than the deadband. */
  predicate Calibrated(ax: Axis) {
    CenterInRange(ax.min, ax.runtimeZero, ax.max) && CenterInRange(ax.min, ax.savedZero, ax.max)
  }

  /** Which boot states an axis can have in each phase. */
  predicate InPhase(ax: Axis, phase: Phase) {
    && (ax.source == FromApply ==> Finished(ax.boot))
    && match phase
       case PhaseWait => ax.boot == Wait || (ax.boot == Cancelled && ax.source == FromApply)
       case PhaseSettle => ax.boot == Settling || Finished(ax.boot)
       case PhaseRun => ax.boot == Collect || ax.boot == Confirm || Finished(ax.boot)
       case PhaseDone => Finished(ax.boot)
  }

  predicate AxisInv(ax: Axis, phase: Phase) {
    Calibrated(ax) && InPhase(ax, phase) && |ax.samples| < WINDOW
  }

  predicate Inv(p: Pad) {
    && Shaped(p) && (p.started <==> p.phase != PhaseWait)
    && forall i :: 0 <= i < AXES ==> AxisInv(p.axes[i], p.phase)
  }

  lemma NoteAxisKeeps(ax: Axis, sample: int, late: bool)
    requires AxisInv(ax, PhaseRun)
    ensures AxisInv(NoteAxis(ax, sample, late), PhaseRun)
    ensures Finished(ax.boot) ==> NoteAxis(ax, sample, late) == ax
    ensures late ==> Finished(NoteAxis(ax, sample, late).boot)
    ensures NoteAxis(ax, sample, late).source == FromApply ==> ax.source == FromApply
  {
    hide Stable, Median, Near;
  }

  lemma LatestKeeps(p: Pad, raw: Raw)
    requires Inv(p)
    ensures Inv(Latest(p, raw))
  {
  }

  lemma StartedKeeps(p: Pad, now: nat)
    requires Inv(p)
    ensures Inv(Started(p, now)) && Started(p, now).started
  {
  }

  lemma SettledKeeps(p: Pad, now: nat)
    requires Inv(p)
    ensures Inv(Settled(p, now)) && Settled(p, now).started == p.started
  {
  }

  lemma CollectedKeeps(p: Pad, raw: Raw, now: nat)
    requires Inv(p) && p.started
    ensures Inv(Collected(p, raw, now))
  {
    hide NoteAxis, Calibrated;
    if p.phase == PhaseRun {
      var late := now > p.collect + BUDGET_MS;
      forall i | 0 <= i < AXES ensures AxisInv(NoteAxis(p.axes[i], raw[i], late), PhaseRun) {
        NoteAxisKeeps(p.axes[i], raw[i], late);
      }
    }
  }

  lemma FrameKeeps(p: Pad, raw: Raw, now: nat)
    requires Inv(p)
    ensures Inv(BootNote(p, raw, now)) && Inv(OnFrame(p, raw, now))
  {
    hide Latest, Started, Settled, Collected, AxisInv, Radial;
    LatestKeeps(p, raw);
    StartedKeeps(Latest(p, raw), now);
    SettledKeeps(Started(Latest(p, raw), now), now);
    CollectedKeeps(Settled(Started(Latest(p, raw), now), now), raw, now);
  }

  lemma InstallKeeps(ax: Axis, apply: bool, cal: Calibration, phase: Phase)
    requires AxisInv(ax, phase) && CenterInRange(cal.min, cal.zero, cal.max) && Preflight(ax, apply, cal)
    ensures AxisInv(InstallAxis(ax, apply, cal), phase)
    ensures Finished(ax.boot) ==> InstallAxis(ax, apply, cal).boot == ax.boot
  {
  }

  lemma StoreKeeps(p: Pad, right: bool, apply: bool, x: Calibration, y: Calibration)
    requires Inv(p)
    ensures Inv(CalStore(p, right, apply, x, y).0)
  {
    hide InstallAxis, Preflight, Radial, Calibrated, CenterInRange;
    var xi, yi := if right then XR else XL, if right then YR else YL;
    if CalStore(p, right, apply, x, y).1 == Stored {
      InstallKeeps(p.axes[xi], apply, x, p.phase);
      InstallKeeps(p.axes[yi], apply, y, p.phase);
      var axes := p.axes[xi := InstallAxis(p.axes[xi], apply, x)][yi := InstallAxis(p.axes[yi], apply, y)];
      assert forall i :: 0 <= i < AXES ==> AxisInv(axes[i], p.phase);
    }
  }

  lemma StepKeeps(p: Pad, e: Event)
    requires Inv(p)
    ensures Inv(Step(p, e))
  {
    hide OnFrame, CalStore, AxisInv, Radial;
    match e
    case FrameIn(raw, now) => FrameKeeps(p, raw, now);
    case Write(right, apply, x, y) => StoreKeeps(p, right, apply, x, y);
    case Deadzone(right, pct) =>
  }

  /** In every reachable state each axis is calibrated, under every interleaving of frames and writes. */
  lemma {:induction false} ReachableIsCalibrated(events: seq<Event>)
    ensures Inv(Run(InitialPad, events))
    ensures forall i :: 0 <= i < AXES ==> Calibrated(Run(InitialPad, events).axes[i])
  {
    if events != [] {
      ReachableIsCalibrated(events[..|events| - 1]);
      StepKeeps(Run(InitialPad, events[..|events| - 1]), events[|events| - 1]);
    }
  }

  /** A rejected write changes nothing at all. */
  lemma RejectedWriteIsNothing(p: Pad, right: bool, apply: bool, x: Calibration, y: Calibration)
    requires Shaped(p)
    ensures CalStore(p, right, apply, x, y).1 != Stored ==> CalStore(p, right, apply, x, y).0 == p
    ensures CalStore(p, right, apply, x, y).1 == Stored <==>
            && CenterInRange(x.min, x.zero, x.max) && CenterInRange(y.min, y.zero, y.max)
            && Preflight(p.axes[if right then XR else XL], apply, x)
            && Preflight(p.axes[if right then YR else YL], apply, y)
  {
  }

  // ---- Reported values ----------------------------------------------------

  predicate ReportsInRange(p: Pad) {
    forall i :: 0 <= i < |p.reports| ==> -ABS_RANGE <= p.reports[i] <= ABS_RANGE
  }

  lemma EmitInRange(p: Pad, x: nat, y: nat, pct: int)
    requires Shaped(p) && x < AXES && y < AXES && pct <= DEADZONE_MAX && ReportsInRange(p)
    requires Calibrated(p.axes[x]) && Calibrated(p.axes[y])
    ensures ReportsInRange(EmitStick(p, x, y, pct))
  {
    hide Radial, Scale;
    ScaleMeans(p.axes[x].latest, 0, Calibration(p.axes[x].min, p.axes[x].runtimeZero, p.axes[x].max));
    ScaleMeans(p.axes[y].latest, 0, Calibration(p.axes[y].min, p.axes[y].runtimeZero, p.axes[y].max));
    RadialShortens(pct, ScaledLatest(p.axes[x]), ScaledLatest(p.axes[y]));
  }

  lemma StepReports(p: Pad, e: Event)
    requires Inv(p) && ReportsInRange(p)
    ensures ReportsInRange(Step(p, e))
  {
    hide Radial, Calibrated, BootNote, InstallAxis, Preflight;
    match e
    case FrameIn(raw, now) =>
      FrameKeeps(p, raw, now);
      var q := BootNote(p, raw, now);
      assert q.reports == p.reports && q.deadzoneLeft == p.deadzoneLeft && q.deadzoneRight == p.deadzoneRight by {
        BootNoteFrame(p, raw, now);
      }
      EmitInRange(q, XL, YL, q.deadzoneLeft);
      EmitInRange(EmitStick(q, XL, YL, q.deadzoneLeft), XR, YR, q.deadzoneRight);
    case Write(right, apply, x, y) =>
      StoreKeeps(p, right, apply, x, y);
      var xi, yi := if right then XR else XL, if right then YR else YL;
      if CalStore(p, right, apply, x, y).1 == Stored {
        InstallKeeps(p.axes[xi], apply, x, p.phase);
        InstallKeeps(p.axes[yi], apply, y, p.phase);
        var axes := p.axes[xi := InstallAxis(p.axes[xi], apply, x)][yi := InstallAxis(p.axes[yi], apply, y)];
        var q := p.(axes := axes, phase := if p.started && AllFinished(axes) then PhaseDone else p.phase);
        EmitInRange(q, xi, yi, if right then p.deadzoneRight else p.deadzoneLeft);
      }
    case Deadzone(right, pct) =>
      if pct <= DEADZONE_MAX {
        if right {
          EmitInRange(p.(deadzoneRight := pct), XR, YR, pct);
        } else {
          EmitInRange(p.(deadzoneLeft := pct), XL, YL, pct);
        }
      }
  }

  lemma BootNoteFrame(p: Pad, raw: Raw, now: nat)
    requires |p.axes| == AXES
    ensures var q := BootNote(p, raw, now);
            q.reports == p.reports && q.deadzoneLeft == p.deadzoneLeft && q.deadzoneRight == p.deadzoneRight
  {
    hide NoteAxes;
  }

  /** No run ever reports a value outside the absolute range. */
  lemma {:induction false} ReportsStayInRange(events: seq<Event>)
    ensures ReportsInRange(Run(InitialPad, events))
  {
    if events != [] {
      var front := events[..|events| - 1];
      ReportsStayInRange(front);
      ReachableIsCalibrated(front);
      StepReports(Run(InitialPad, front), events[|events| - 1]);
    }
  }

  // ---- What is reported ---------------------------------------------------

  /** The last frame of a run, the rest position before the first. */
  function LastRaw(events: seq<Event>): Raw {
    if events == [] then [128, 128, 128, 128]
    else
      var e := events[|events| - 1];
      if e.FrameIn? then e.raw else LastRaw(events[..|events| - 1])
  }

  /** The last deadzone a run has set for a stick; a write of more than 30 percent is refused. */
  function LastDeadzone(events: seq<Event>, right: bool): (pct: nat)
    ensures pct <= 30
  {
    if events == [] then 0
    else
      var e := events[|events| - 1];
      if e.Deadzone? && e.right == right && e.pct <= 30 then e.pct else LastDeadzone(events[..|events| - 1], right)
  }

  /** Where the calibration in force puts a sample. */
  function Scaled(ax: Axis, sample: int): int { Scale(sample, Calibration(ax.min, ax.runtimeZero, ax.max)) }

  /** Each stick reports its two samples, scaled by their own calibrations and cut by the stick's deadzone. */
  predicate Reports(p: Pad, raw: Raw, left: int, right: int) {
    && |p.axes| == AXES == |p.reports| && left <= DEADZONE_MAX && right <= DEADZONE_MAX
    && p.deadzoneLeft == left && p.deadzoneRight == right
    && (forall i :: 0 <= i < AXES ==> p.axes[i].latest == raw[i])
    && (p.reports[0], p.reports[1]) == Radial(left, Scaled(p.axes[0], raw[0]), Scaled(p.axes[1], raw[1]))
    && (p.reports[2], p.reports[3]) == Radial(right, Scaled(p.axes[2], raw[2]), Scaled(p.axes[3], raw[3]))
  }

  lemma FrameReports(p: Pad, raw: Raw, now: nat)
    requires Shaped(p)
    ensures Reports(OnFrame(p, raw, now), raw, p.deadzoneLeft, p.deadzoneRight)
  {
    hide Radial, Scale, BootNote;
    BootNoteFrame(p, raw, now);
    LatestStays(p, raw, now);
  }

  lemma LatestStays(p: Pad, raw: Raw, now: nat)
    requires |p.axes| == AXES
    ensures |BootNote(p, raw, now).axes| == AXES
    ensures forall i :: 0 <= i < AXES ==> BootNote(p, raw, now).axes[i].latest == raw[i]
  {
    hide Stable, Median, Near, CenterInRange;
  }

  lemma WriteReports(p: Pad, right: bool, apply: bool, x: Calibration, y: Calibration, raw: Raw)
    requires Shaped(p) && Reports(p, raw, p.deadzoneLeft, p.deadzoneRight)
    ensures Reports(CalStore(p, right, apply, x, y).0, raw, p.deadzoneLeft, p.deadzoneRight)
  {
    hide Radial, Scale, Preflight, CenterInRange;
  }

  lemma DeadzoneReports(p: Pad, right: bool, pct: nat, raw: Raw)
    requires Shaped(p) && Reports(p, raw, p.deadzoneLeft, p.deadzoneRight)
    ensures var q := SetDeadzone(p, right, pct).0;
            && Reports(q, raw, q.deadzoneLeft, q.deadzoneRight)
            && q.deadzoneRight == (if right && pct <= 30 then pct else p.deadzoneRight)
            && q.deadzoneLeft == (if !right && pct <= 30 then pct else p.deadzoneLeft)
  {
    hide Radial, Scale;
  }

  lemma RestReports()
    ensures Reports(InitialPad, [128, 128, 128, 128], 0, 0)
  {
  }

  /**
   After every run, whatever its order of frames and writes, the reports are
   those of the last frame under the calibration and the deadzones in force:
   no write leaves a stale report behind.
   */
  lemma {:induction false} ReportsAreCurrent(events: seq<Event>)
    ensures Reports(Run(InitialPad, events), LastRaw(events), LastDeadzone(events, false), LastDeadzone(events, true))
  {
    hide Reports, OnFrame, CalStore, SetDeadzone;
    if events == [] {
      RestReports();
    } else {
      var front, e := events[..|events| - 1], events[|events| - 1];
      var p := Run(InitialPad, front);
      ReportsAreCurrent(front);
      DeadzonesAre(p, LastRaw(front), LastDeadzone(front, false), LastDeadzone(front, true));
      match e
      case FrameIn(raw, now) => FrameReports(p, raw, now);
      case Write(right, apply, x, y) => WriteReports(p, right, apply, x, y, LastRaw(front));
      case Deadzone(right, pct) => DeadzoneReports(p, right, pct, LastRaw(front));
    }
  }

  lemma DeadzonesAre(p: Pad, raw: Raw, left: int, right: int)
    requires Reports(p, raw, left, right)
    ensures p.deadzoneLeft == left && p.deadzoneRight == right
  {
    hide Radial;
  }

  // ---- Progress -----------------------------------------------------------

  function Rank(phase: Phase): nat {
    match phase case PhaseWait => 0 case PhaseSettle => 1 case PhaseRun => 2 case PhaseDone => 3
  }

  /** The write that may move the runtime centre of axis i of an applied stick: another apply to that stick. */
  predicate AppliesTo(e: Event, i: nat) { e.Write? && e.apply && (e.right <==> i >= XR) }

  /** What one event may do to the boot state, the phase and an applied centre. */
  predicate Forward(p: Pad, q: Pad, i: nat)
    requires |p.axes| == AXES == |q.axes| && i < AXES
  {
    && Rank(p.phase) <= Rank(q.phase)
    && (Finished(p.axes[i].boot) ==> q.axes[i].boot == p.axes[i].boot)
  }

  predicate CenterKept(p: Pad, q: Pad, i: nat)
    requires |p.axes| == AXES == |q.axes| && i < AXES
  {
    p.axes[i].source == FromApply ==> q.axes[i].source == FromApply && q.axes[i].runtimeZero == p.axes[i].runtimeZero
  }

  lemma BootNoteForward(p: Pad, raw: Raw, now: nat, i: nat)
    requires Inv(p) && i < AXES
    ensures Forward(p, BootNote(p, raw, now), i) && CenterKept(p, BootNote(p, raw, now), i)
  {
    hide NoteAxis, Calibrated;
    LatestKeeps(p, raw);
    var p1 := Started(Latest(p, raw), now);
    StartedKeeps(Latest(p, raw), now);
    SettledKeeps(p1, now);
    var p2 := Settled(p1, now);
    if p2.phase == PhaseRun {
      NoteAxisKeeps(p2.axes[i], raw[i], now > p2.collect + BUDGET_MS);
    }
  }

  lemma StepForward(p: Pad, e: Event, i: nat)
    requires Inv(p) && i < AXES
    ensures Forward(p, Step(p, e), i)
    ensures !AppliesTo(e, i) ==> CenterKept(p, Step(p, e), i)
  {
    hide BootNote, Radial, Calibrated, CenterInRange;
    match e
    case FrameIn(raw, now) => BootNoteForward(p, raw, now, i);
    case Write(right, apply, x, y) => StoreForward(p, right, apply, x, y, i);
    case Deadzone(right, pct) =>
  }

  lemma StoreForward(p: Pad, right: bool, apply: bool, x: Calibration, y: Calibration, i: nat)
    requires Inv(p) && i < AXES
    ensures var q := CalStore(p, right, apply, x, y).0;
            Forward(p, q, i) && (!(apply && (right <==> i >= XR)) ==> CenterKept(p, q, i))
  {
    hide Radial, Calibrated, CenterInRange, ScaledLatest;
  }

  /** Finished boot states are never left and the phase only moves forward, whatever the run. */
  lemma {:induction false} RunForward(p: Pad, events: seq<Event>, i: nat)
    requires Inv(p) && i < AXES
    ensures Inv(Run(p, events)) && Forward(p, Run(p, events), i)
  {
    hide Step, AxisInv;
    if events != [] {
      var front, e := events[..|events| - 1], events[|events| - 1];
      RunForward(p, front, i);
      StepKeeps(Run(p, front), e);
      StepForward(Run(p, front), e, i);
    }
  }

  /** After an apply, no frame, restore or deadzone write moves that axis's runtime centre. */
  lemma {:induction false} ApplyIsAuthoritative(p: Pad, events: seq<Event>, i: nat)
    requires Inv(p) && i < AXES && forall e :: e in events ==> !AppliesTo(e, i)
    ensures CenterKept(p, Run(p, events), i)
  {
    hide Step, AxisInv;
    if events != [] {
      var front, e := events[..|events| - 1], events[|events| - 1];
      assert e in events;
      ApplyIsAuthoritative(p, front, i);
      RunForward(p, front, i);
      StepForward(Run(p, front), e, i);
    }
  }

  predicate Saves(ax: Axis, cal: Calibration) { ax.min == cal.min && ax.savedZero == cal.zero && ax.max == cal.max }

  /**
   An accepted restore saves the calibration of both axes. Their runtime centres
   become the saved ones unless an apply or the boot has set them, and it leaves
   the boot acquisition and the other stick alone.
   */
  lemma RestoreSets(p: Pad, right: bool, x: Calibration, y: Calibration)
    requires Shaped(p) && CalStore(p, right, false, x, y).1 == Stored
    ensures var q := CalStore(p, right, false, x, y).0;
            var xi, yi := if right then XR else XL, if right then YR else YL;
            && Restores(p.axes[xi], q.axes[xi], x) && Restores(p.axes[yi], q.axes[yi], y)
            && forall i :: 0 <= i < AXES && i != xi && i != yi ==> q.axes[i] == p.axes[i]
  {
    hide Radial;
  }

  predicate Restores(before: Axis, after: Axis, cal: Calibration) {
    && Saves(after, cal) && after.boot == before.boot && after.samples == before.samples
    && (before.source == FromApply || before.source == FromBoot ==>
          after.runtimeZero == before.runtimeZero && after.source == before.source)
    && (before.source == FromDefault || before.source == FromPersisted ==>
          after.runtimeZero == cal.zero && after.source == FromPersisted)
  }

  /** The first frame starts the settling phase, which lasts until the first frame 1500 ms after it. */
  lemma SettlingEnds(p: Pad, raw: Raw, now: nat)
    requires Inv(p)
    ensures !p.started ==> OnFrame(p, raw, now).phase == PhaseSettle && OnFrame(p, raw, now).first == now
    ensures p.phase == PhaseSettle ==>
              var q := OnFrame(p, raw, now);
              && (q.phase == PhaseSettle <==> now < p.first + 1500)
              && (q.phase != PhaseSettle ==> q.collect == now)
  {
    hide Radial, NoteAxis, Calibrated, Scale, AxisInv;
  }

  /** An accepted apply sets the centre it was given. */
  lemma ApplySets(p: Pad, right: bool, x: Calibration, y: Calibration)
    requires Shaped(p) && CalStore(p, right, true, x, y).1 == Stored
    ensures var q := CalStore(p, right, true, x, y).0;
            var xi, yi := if right then XR else XL, if right then YR else YL;
            && q.axes[xi].runtimeZero == x.zero && q.axes[xi].source == FromApply && Finished(q.axes[xi].boot)
            && q.axes[yi].runtimeZero == y.zero && q.axes[yi].source == FromApply && Finished(q.axes[yi].boot)
            && Saves(q.axes[xi], x) && Saves(q.axes[yi], y)
            && forall i :: 0 <= i < AXES && i != xi && i != yi ==> q.axes[i] == p.axes[i]
  {
    hide Radial;
  }

  /** A frame in the collecting phase that is past the budget finishes every axis and the phase. */
  lemma BudgetEndsCollection(p: Pad, raw: Raw, now: nat)
    requires Inv(p) && p.phase == PhaseRun && now > p.collect + BUDGET_MS
    ensures OnFrame(p, raw, now).phase == PhaseDone && AllFinished(OnFrame(p, raw, now).axes)
  {
    hide Radial, NoteAxis, Calibrated;
    LatestKeeps(p, raw);
    forall i | 0 <= i < AXES ensures Finished(NoteAxis(Latest(p, raw).axes[i], raw[i], true).boot) {
      NoteAxisKeeps(Latest(p, raw).axes[i], raw[i], true);
    }
  }

  // ---- Why a boot centre is accepted --------------------------------------

  /** The samples of axis i in the frames of a run, oldest first. */
  function Column(events: seq<Event>, i: nat): seq<int>
    requires i < AXES
  {
    if events == [] then []
    else
      var e := events[|events| - 1];
      Column(events[..|events| - 1], i) + if e.FrameIn? then [e.raw[i]] else []
  }

  /** The open window is the end of the column; a candidate is the median of the stable window before it. */
  predicate Tracks(ax: Axis, c: seq<int>) {
    var n := |ax.samples|;
    && n <= |c| && ax.samples == c[|c| - n..]
    && (ax.boot == Confirm ==>
          && n + WINDOW <= |c|
          && Stable(c[|c| - n - WINDOW..|c| - n]) && ax.candidate == Median(c[|c| - n - WINDOW..|c| - n]))
  }

  /**
   The last two windows of frames are stable, their medians agree, the centre is
   the later one, and all their samples are within five counts of it.
   */
  predicate CenterConfirmed(c: seq<int>, zero: int) {
    && 2 * WINDOW <= |c|
    && (var w, v := c[|c| - 2 * WINDOW..|c| - WINDOW], c[|c| - WINDOW..];
        Stable(w) && Stable(v) && zero == Median(v) && Near(zero, Median(w), MATCH))
    && forall k :: |c| - 2 * WINDOW <= k < |c| ==> Near(c[k], zero, SPREAD + MATCH)
  }

  lemma NoteTracks(ax: Axis, c: seq<int>, sample: int, late: bool)
    requires AxisInv(ax, PhaseRun) && !Finished(ax.boot) && Tracks(ax, c)
    ensures var ax' := NoteAxis(ax, sample, late);
            && (!Finished(ax'.boot) ==> Tracks(ax', c + [sample]))
            && (ax'.boot == Accepted ==> CenterConfirmed(c + [sample], ax'.runtimeZero))
  {
    hide Stable, Median, Near;
    var n, c' := |ax.samples|, c + [sample];
    var window := c'[|c'| - n - 1..];
    OpenWindow(c, n, sample);
    if ax.boot == Confirm {
      WindowBefore(c, n, sample);
    }
    if n + 1 == WINDOW && !late {
      WholeWindow(c');
      if NoteAxis(ax, sample, late).boot == Accepted {
        WindowsConfirm(c', ax.candidate, Median(window));
      }
    }
  }

  /** One more sample extends the open window. */
  lemma OpenWindow(c: seq<int>, n: nat, sample: int)
    requires n <= |c|
    ensures (c + [sample])[|c| - n..] == c[|c| - n..] + [sample]
  {
  }

  /** And leaves the window before it as it was. */
  lemma WindowBefore(c: seq<int>, n: nat, sample: int)
    requires n + WINDOW <= |c|
    ensures (c + [sample])[|c| - n - WINDOW..|c| - n] == c[|c| - n - WINDOW..|c| - n]
  {
  }

  lemma WholeWindow(c: seq<int>)
    requires WINDOW <= |c|
    ensures c[|c| - WINDOW..|c|] == c[|c| - WINDOW..] && c[|c|..] == []
  {
  }

  lemma WindowsConfirm(c: seq<int>, candidate: int, med: int)
    requires 2 * WINDOW <= |c| && Near(med, candidate, MATCH)
    requires var w := c[|c| - 2 * WINDOW..|c| - WINDOW]; Stable(w) && candidate == Median(w)
    requires var w := c[|c| - WINDOW..]; Stable(w) && med == Median(w)
    ensures CenterConfirmed(c, med)
  {
    hide Stable, Median;
    var w, v := c[|c| - 2 * WINDOW..|c| - WINDOW], c[|c| - WINDOW..];
    forall k | |c| - 2 * WINDOW <= k < |c| ensures Near(c[k], med, SPREAD + MATCH) {
      if k < |c| - WINDOW {
        StableAroundMedian(w, k - (|c| - 2 * WINDOW));
      } else {
        StableAroundMedian(v, k - (|c| - WINDOW));
      }
    }
  }

  predicate Tracked(p: Pad, i: nat, c: seq<int>)
    requires |p.axes| == AXES && i < AXES
  {
    p.phase == PhaseRun && !Finished(p.axes[i].boot) ==> Tracks(p.axes[i], c)
  }

  /** Latest, start and settling leave an axis that is collecting alone, and start a new one empty. */
  lemma BeforeNoting(p: Pad, raw: Raw, now: nat, i: nat, c: seq<int>)
    requires Inv(p) && i < AXES && Tracked(p, i, c)
    ensures var q := Settled(Started(Latest(p, raw), now), now);
            && Inv(q) && q.started && Tracked(q, i, c)
            && (q.axes[i].boot == Accepted ==> p.axes[i].boot == Accepted)
  {
    hide Calibrated, Stable, Median;
    LatestKeeps(p, raw);
    StartedKeeps(Latest(p, raw), now);
    SettledKeeps(Started(Latest(p, raw), now), now);
  }

  lemma FrameTracks(p: Pad, raw: Raw, now: nat, i: nat, c: seq<int>)
    requires Inv(p) && i < AXES && Tracked(p, i, c)
    ensures var q := OnFrame(p, raw, now);
            && Tracked(q, i, c + [raw[i]])
            && (q.axes[i].boot == Accepted && p.axes[i].boot != Accepted ==>
                CenterConfirmed(c + [raw[i]], q.axes[i].runtimeZero))
  {
    hide Radial, NoteAxis, Tracks, Latest, Started, Settled, CenterConfirmed, Calibrated;
    BeforeNoting(p, raw, now, i, c);
    var q := Settled(Started(Latest(p, raw), now), now);
    if q.phase == PhaseRun {
      var late := now > q.collect + BUDGET_MS;
      if Finished(q.axes[i].boot) {
        NoteAxisKeeps(q.axes[i], raw[i], late);
      } else {
        NoteTracks(q.axes[i], c, raw[i], late);
      }
    }
  }

  lemma OtherTracks(p: Pad, e: Event, i: nat, c: seq<int>)
    requires Inv(p) && i < AXES && Tracked(p, i, c) && !e.FrameIn?
    ensures Tracked(Step(p, e), i, c)
    ensures Step(p, e).axes[i].boot == Accepted <==> p.axes[i].boot == Accepted
  {
    hide Radial, Calibrated, CenterInRange, Stable, Median;
  }

  lemma {:induction false} RunTracks(events: seq<Event>, i: nat)
    requires i < AXES
    ensures Tracked(Run(InitialPad, events), i, Column(events, i))
  {
    hide Step, Tracks;
    if events != [] {
      var front, e := events[..|events| - 1], events[|events| - 1];
      var p := Run(InitialPad, front);
      ReachableIsCalibrated(front);
      RunTracks(front, i);
      StepTracks(p, e, i, Column(front, i));
    }
  }

  lemma StepTracks(p: Pad, e: Event, i: nat, c: seq<int>)
    requires Inv(p) && i < AXES && Tracked(p, i, c)
    ensures var c' := c + if e.FrameIn? then [e.raw[i]] else [];
            && Tracked(Step(p, e), i, c')
            && (Step(p, e).axes[i].boot == Accepted && p.axes[i].boot != Accepted ==>
                CenterConfirmed(c', Step(p, e).axes[i].runtimeZero))
  {
    hide Tracks, OnFrame, CalStore, CenterConfirmed;
    if e.FrameIn? {
      FrameTracks(p, e.raw, e.now, i, c);
    } else {
      OtherTracks(p, e, i, c);
      assert c + [] == c;
    }
  }

  /** The last two windows of the column are stable with agreeing medians, and the later median is a possible centre. */
  predicate CenterFound(ax: Axis, c: seq<int>) {
    && 2 * WINDOW <= |c|
    && (var w, v := c[|c| - 2 * WINDOW..|c| - WINDOW], c[|c| - WINDOW..];
        && Stable(w) && Stable(v) && Near(Median(v), Median(w), MATCH)
        && CenterInRange(ax.min, Median(v), ax.max))
  }

  lemma NoteAccepts(ax: Axis, c: seq<int>, sample: int)
    requires AxisInv(ax, PhaseRun) && !Finished(ax.boot) && Tracks(ax, c)
    ensures NoteAxis(ax, sample, false).boot == Accepted <==>
            ax.boot == Confirm && |ax.samples| + 1 == WINDOW && CenterFound(ax, c + [sample])
  {
    hide Stable, Median, Near, CenterInRange;
    OpenWindow(c, |ax.samples|, sample);
    if ax.boot == Confirm {
      WindowBefore(c, |ax.samples|, sample);
    }
  }

  /**
   In time, a collecting axis accepts exactly on the frame that completes a
   window behind a stable one that waits to be confirmed, when that window is
   stable too, the medians agree and the later one is a possible centre.
   */
  lemma AcceptsIff(events: seq<Event>, raw: Raw, now: nat, i: nat)
    requires i < AXES
    requires var p := Run(InitialPad, events);
             p.phase == PhaseRun && !Finished(p.axes[i].boot) && now <= p.collect + BUDGET_MS
    ensures var p := Run(InitialPad, events);
            var ax := p.axes[i];
            OnFrame(p, raw, now).axes[i].boot == Accepted <==>
            ax.boot == Confirm && |ax.samples| + 1 == WINDOW && CenterFound(ax, Column(events, i) + [raw[i]])
  {
    hide NoteAxis, Tracks, CenterFound, Calibrated, OnFrame, Run, AxisInv;
    var p := Run(InitialPad, events);
    ReachableIsCalibrated(events);
    RunTracks(events, i);
    LatestKeeps(p, raw);
    FrameNotes(p, raw, now, i);
    LatestAlike(p, raw, i, Column(events, i));
    NoteAccepts(Latest(p, raw).axes[i], Column(events, i), raw[i]);
  }

  /** In the collecting phase a frame is one sample for each axis. */
  lemma FrameNotes(p: Pad, raw: Raw, now: nat, i: nat)
    requires Inv(p) && p.phase == PhaseRun && i < AXES
    ensures OnFrame(p, raw, now).axes[i] == NoteAxis(Latest(p, raw).axes[i], raw[i], now > p.collect + BUDGET_MS)
  {
    hide Radial, NoteAxis, Calibrated, Scale;
    LatestKeeps(p, raw);
  }

  lemma LatestAlike(p: Pad, raw: Raw, i: nat, c: seq<int>)
    requires Shaped(p) && i < AXES
    ensures var ax, bx := p.axes[i], Latest(p, raw).axes[i];
            && bx.boot == ax.boot && bx.samples == ax.samples && (Tracks(bx, c) <==> Tracks(ax, c))
            && (CenterFound(bx, c + [raw[i]]) <==> CenterFound(ax, c + [raw[i]]))
  {
    hide Stable, Median, Near, CenterInRange;
  }

  /**
   Whenever an axis accepts a boot centre, the last 62 consecutive frames were
   two stable windows whose medians agree, and all carried a sample for that
   axis within five counts of the centre, whatever writes came in between.
   */
  lemma AcceptanceIsConfirmed(events: seq<Event>, e: Event, i: nat)
    requires i < AXES
    requires Run(InitialPad, events).axes[i].boot != Accepted
    requires Run(InitialPad, events + [e]).axes[i].boot == Accepted
    ensures CenterConfirmed(Column(events + [e], i), Run(InitialPad, events + [e]).axes[i].runtimeZero)
  {
    hide Step, Tracks, CenterConfirmed;
    var p := Run(InitialPad, events);
    assert (events + [e])[..|events|] == events;
    ReachableIsCalibrated(events);
    RunTracks(events, i);
    StepTracks(p, e, i, Column(events, i));
  }
}
