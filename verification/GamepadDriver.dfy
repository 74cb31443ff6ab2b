/** The gamepad driver with its fields and buffers, proved against the state machine. */
module GamepadDriver {
  import opened Bytes
  import opened BootCenter
  import opened Stick
  import opened Framer
  import opened Gamepad

  predicate SamplesOk(axes: seq<Axis>) {
    forall i, k :: 0 <= i < |axes| && 0 <= k < |axes[i].samples| ==> 0 <= axes[i].samples[k] <= 255
  }

  /** The samples of a frame, in axis order. */
  function RawOf(frame: Bytes): Raw
    requires |frame| == FRAME_LEN
  {
    [frame[2] as int, frame[1] as int, frame[4] as int, frame[3] as int]
  }

  /** The body of the collecting loop of mf_boot_note. */
  method NoteSample(ax: Axis, sample: int, late: bool) returns (r: Axis)
    requires 0 <= sample <= 255 && forall k :: 0 <= k < |ax.samples| ==> 0 <= ax.samples[k] <= 255
    ensures r == NoteAxis(ax, sample, late)
    ensures forall k :: 0 <= k < |r.samples| ==> 0 <= r.samples[k] <= 255
  {
    hide Stable, Median;
    r := ax;
    if Finished(r.boot) {
      return;
    }
    if late {
      r := r.(boot := TimedOut, settled := true, accepted := false);
      return;
    }
    var window := r.samples + [sample];
    if |window| < WINDOW {
      r := r.(samples := window);
      return;
    }
    r := r.(samples := [], attempts := r.attempts + 1);
    var stable, med := WindowStable(window);
    if !stable {
      r := r.(candidate := -1, boot := Collect);
    } else if r.boot != Confirm {
      r := r.(candidate := med, boot := Confirm);
    } else if Near(med, r.candidate, MATCH) {
      if !CenterInRange(r.min, med, r.max) {
        r := r.(settled := true, accepted := false, boot := RangeRejected);
      } else {
        r := r.(runtimeZero := med, source := FromBoot, accepted := true, settled := true, boot := Accepted);
      }
    } else {
      r := r.(candidate := -1, boot := Collect);
    }
  }

  class PadDriver {
    const buffer: FrameBuffer
    const axis: array<Axis>
    const reports: array<int>
    var started: bool
    var first: nat
    var collect: nat
    var phase: Phase
    var deadzoneLeft: int
    var deadzoneRight: int

    ghost predicate Valid()
      reads this, axis, reports, buffer, buffer.frame
    {
      && axis.Length == AXES && reports.Length == AXES && buffer.Valid()
      && axis as object != reports && axis as object != buffer.frame && reports as object != buffer.frame
      && SamplesOk(axis[..]) && Shaped(State())
    }

    ghost function State(): Pad
      reads this, axis, reports
    {
      Pad(axis[..], started, first, collect, phase, deadzoneLeft, deadzoneRight, reports[..])
    }

    constructor ()
      ensures Valid() && State() == InitialPad && buffer.Buffered() == [] && !buffer.portOpen
      ensures fresh(axis) && fresh(reports) && fresh(buffer) && fresh(buffer.frame)
    {
      buffer := new FrameBuffer();
      axis := new Axis[AXES](_ => InitialAxis);
      reports := new int[AXES](_ => 0);
      started, first, collect, phase, deadzoneLeft, deadzoneRight := false, 0, 0, PhaseWait, 0, 0;
      new;
      assert axis[..] == InitialPad.axes && reports[..] == InitialPad.reports;
    }

    method NoteLatest(raw: Raw)
      requires Valid()
      modifies axis
      ensures Valid() && State() == Latest(old(State()), raw)
    {
      ghost var p := State();
      for i := 0 to AXES
        invariant forall k :: 0 <= k < i ==> axis[k] == p.axes[k].(latest := raw[k])
        invariant forall k :: i <= k < AXES ==> axis[k] == p.axes[k]
      {
        axis[i] := axis[i].(latest := raw[i]);
      }
      assert axis[..] == Latest(p, raw).axes;
    }

    method StartBoot(now: nat)
      requires Valid()
      modifies this, axis
      ensures Valid() && State() == Started(old(State()), now)
    {
      ghost var p := State();
      if started {
        return;
      }
      started, first, phase := true, now, PhaseSettle;
      for i := 0 to AXES
        invariant forall k :: 0 <= k < i ==> axis[k] == StartAxis(p.axes[k])
        invariant forall k :: i <= k < AXES ==> axis[k] == p.axes[k]
        invariant State() == p.(axes := axis[..], started := true, first := now, phase := PhaseSettle)
      {
        if axis[i].source != FromApply {
          axis[i] := axis[i].(boot := Settling);
        }
      }
      assert axis[..] == Started(p, now).axes;
    }

    method EndSettling(now: nat)
      requires Valid()
      modifies this, axis
      ensures Valid() && State() == Settled(old(State()), now)
    {
      ghost var p := State();
      if phase != PhaseSettle || now < first + SETTLE_MS {
        return;
      }
      collect, phase := now, PhaseRun;
      for i := 0 to AXES
        invariant forall k :: 0 <= k < i ==> axis[k] == CollectAxis(p.axes[k])
        invariant forall k :: i <= k < AXES ==> axis[k] == p.axes[k]
        invariant State() == p.(axes := axis[..], collect := now, phase := PhaseRun)
      {
        if axis[i].boot == Settling {
          axis[i] := axis[i].(boot := Collect, samples := []);
        }
      }
      assert axis[..] == Settled(p, now).axes;
    }

    method CheckFinished() returns (all: bool)
      requires axis.Length == AXES
      ensures all == AllFinished(axis[..])
    {
      for i := 0 to AXES
        invariant forall k :: 0 <= k < i ==> Finished(axis[k].boot)
      {
        if !Finished(axis[i].boot) {
          assert !Finished(axis[..][i].boot);
          return false;
        }
      }
      all := true;
    }

    method CollectSamples(raw: Raw, now: nat)
      requires Valid()
      modifies this, axis
      ensures Valid() && State() == Collected(old(State()), raw, now)
    {
      hide NoteAxis;
      ghost var p := State();
      if phase != PhaseRun {
        return;
      }
      for i := 0 to AXES
        invariant forall k :: 0 <= k < i ==> axis[k] == NoteAxis(p.axes[k], raw[k], now > collect + BUDGET_MS)
        invariant forall k :: i <= k < AXES ==> axis[k] == p.axes[k]
        invariant State() == p.(axes := axis[..]) && SamplesOk(axis[..])
      {
        assert axis[..][i] == axis[i];
        var noted := NoteSample(axis[i], raw[i], now > collect + BUDGET_MS);
        axis[i] := noted;
      }
      assert axis[..] == NoteAxes(p.axes, raw, now > collect + BUDGET_MS);
      var all := CheckFinished();
      if all {
        phase := PhaseDone;
      }
    }

    /** mf_boot_note */
    method NoteBoot(raw: Raw, now: nat)
      requires Valid()
      modifies this, axis
      ensures Valid() && State() == BootNote(old(State()), raw, now)
    {
      hide Latest, Started, Settled, Collected;
      NoteLatest(raw);
      StartBoot(now);
      EndSettling(now);
      CollectSamples(raw, now);
    }

    /** mf_emit_stick */
    method Emit(x: nat, y: nat, pct: int)
      requires Valid() && x < AXES && y < AXES && pct <= DEADZONE_MAX
      modifies reports
      ensures Valid() && State() == EmitStick(old(State()), x, y, pct)
    {
      hide Radial, Scale;
      ghost var p := State();
      var sx := Scale(axis[x].latest, Calibration(axis[x].min, axis[x].runtimeZero, axis[x].max));
      var sy := Scale(axis[y].latest, Calibration(axis[y].min, axis[y].runtimeZero, axis[y].max));
      var (ox, oy) := Radial(pct, sx, sy);
      reports[x] := ox;
      reports[y] := oy;
      assert reports[..] == p.reports[x := ox][y := oy];
    }

    /** mf_feed: a byte that completes a frame drives the state machine, any other leaves it alone. */
    method Feed(b: byte, now: nat)
      requires Valid()
      modifies this, axis, reports, buffer`frameLen, buffer`validFrames, buffer`badFrames, buffer`rxBytes, buffer.frame
      ensures Valid()
      ensures var scan := Scan(old(buffer.Buffered()) + [b]);
        && buffer.Buffered() == scan.rest
        && |Frames(scan.segments)| <= 1
        && (Frames(scan.segments) == [] ==> State() == old(State()))
        && (forall f :: Frames(scan.segments) == [f] ==>
            |f| == FRAME_LEN && State() == OnFrame(old(State()), RawOf(f), now))
    {
      hide Scan, Frames, BootNote, Radial;
      ghost var p := State();
      var out := buffer.Feed(b);
      assert State() == p;
      if out.Some? {
        var raw := RawOf(out.value);
        NoteBoot(raw, now);
        Emit(XL, YL, deadzoneLeft);
        Emit(XR, YR, deadzoneRight);
      }
    }

    /** mf_cal_store: all or nothing. */
    method Store(right: bool, apply: bool, x: Calibration, y: Calibration) returns (reply: Reply)
      requires Valid()
      modifies this, axis, reports
      ensures Valid() && (State(), reply) == CalStore(old(State()), right, apply, x, y)
    {
      hide Radial, CenterInRange, InstallAxis, Preflight, AllFinished;
      ghost var p := State();
      var xi, yi := if right then XR else XL, if right then YR else YL;
      if !CenterInRange(x.min, x.zero, x.max) || !CenterInRange(y.min, y.zero, y.max) {
        return InvalidValue;
      }
      if !Preflight(axis[xi], apply, x) || !Preflight(axis[yi], apply, y) {
        return OutOfRange;
      }
      SamplesStay(axis[xi], apply, x);
      SamplesStay(axis[yi], apply, y);
      axis[xi] := InstallAxis(axis[xi], apply, x);
      axis[yi] := InstallAxis(axis[yi], apply, y);
      assert axis[..] == p.axes[xi := InstallAxis(p.axes[xi], apply, x)][yi := InstallAxis(p.axes[yi], apply, y)];
      if started {
        var all := CheckFinished();
        if all {
          phase := PhaseDone;
        }
      }
      Emit(xi, yi, if right then deadzoneRight else deadzoneLeft);
      reply := Stored;
    }

    /** mf_dz_store */
    method StoreDeadzone(right: bool, pct: nat) returns (reply: Reply)
      requires Valid()
      modifies this, reports
      ensures Valid() && (State(), reply) == SetDeadzone(old(State()), right, pct)
    {
      hide EmitStick;
      if pct > DEADZONE_MAX {
        return InvalidValue;
      }
      if right {
        deadzoneRight := pct;
        Emit(XR, YR, pct);
      } else {
        deadzoneLeft := pct;
        Emit(XL, YL, pct);
      }
      reply := Stored;
    }

    /** mf_receive of one byte: a closed port ignores it. */
    method Receive(b: byte, now: nat)
      requires Valid()
      modifies this, axis, reports, buffer`frameLen, buffer`validFrames, buffer`badFrames, buffer`rxBytes, buffer.frame
      ensures Valid()
      ensures !buffer.portOpen ==> State() == old(State()) && buffer.Buffered() == old(buffer.Buffered())
      ensures buffer.portOpen ==> var scan := Scan(old(buffer.Buffered()) + [b]);
        && buffer.Buffered() == scan.rest
        && |Frames(scan.segments)| <= 1
        && (Frames(scan.segments) == [] ==> State() == old(State()))
        && (forall f :: Frames(scan.segments) == [f] ==>
            |f| == FRAME_LEN && State() == OnFrame(old(State()), RawOf(f), now))
    {
      hide Scan, Frames, OnFrame, SamplesOk;
      if buffer.portOpen {
        Feed(b, now);
      }
    }

    lemma SamplesStay(ax: Axis, apply: bool, cal: Calibration)
      ensures InstallAxis(ax, apply, cal).samples == ax.samples
    {
    }
  }

  // ---- Whole byte streams -------------------------------------------------

  /** A received byte with its time, a write to one of the attributes, or the port being opened or closed. */
  datatype Input =
    | ByteIn(b: byte, now: nat)
    | CalIn(right: bool, apply: bool, x: Calibration, y: Calibration)
    | DeadzoneIn(right: bool, pct: nat)
    | PortIn(open: bool)

  /** The serial line: whether the port is open, and the bytes buffered for a frame. */
  datatype Line = Line(open: bool, buffered: Bytes)

  /** The frame event a byte completes, if any. */
  function FrameEvent(buffered: Bytes, b: byte, now: nat): seq<Event> {
    var frames := Frames(Scan(buffered + [b]).segments);
    if |frames| == 1 && |frames[0]| == FRAME_LEN then [FrameIn(RawOf(frames[0]), now)] else []
  }

  function Amounts(line: Line, input: Input): (events: seq<Event>)
    ensures |events| <= 1
  {
    match input
    case ByteIn(b, now) => if line.open then FrameEvent(line.buffered, b, now) else []
    case CalIn(right, apply, x, y) => [Write(right, apply, x, y)]
    case DeadzoneIn(right, pct) => [Deadzone(right, pct)]
    case PortIn(_) => []
  }

  function LineAfter(line: Line, input: Input): Line {
    match input
    case ByteIn(b, _) => if line.open then line.(buffered := Scan(line.buffered + [b]).rest) else line
    case PortIn(open) => Line(open, [])
    case _ => line
  }

  /** The events a stream of inputs amounts to. */
  function EventsOf(line: Line, inputs: seq<Input>): seq<Event>
    decreases |inputs|
  {
    if inputs == [] then [] else Amounts(line, inputs[0]) + EventsOf(LineAfter(line, inputs[0]), inputs[1..])
  }

  const Closed := Line(false, [])

  /** A byte that leaves a frame open is only buffered. */
  lemma ByteBuffered(s: Bytes, b: byte, now: nat)
    requires |s| < FRAME_LEN - 1 && (s + [b])[0] == FRAME_START
    ensures Amounts(Line(true, s), ByteIn(b, now)) == []
    ensures LineAfter(Line(true, s), ByteIn(b, now)) == Line(true, s + [b])
  {
  }

  lemma ByteCompletes(s: Bytes, now: nat)
    requires |s| == FRAME_LEN - 1 && s[0] == FRAME_START
    ensures Amounts(Line(true, s), ByteIn(FRAME_END, now)) ==
            [FrameIn([s[2] as int, s[1] as int, s[4] as int, s[3] as int], now)]
    ensures LineAfter(Line(true, s), ByteIn(FRAME_END, now)) == Line(true, [])
  {
    var f := s + [FRAME_END];
    assert f[..FRAME_LEN] == f && f[FRAME_LEN..] == [];
    assert Scan(f) == Then(Frame(f), Scan([]));
    HeadOf(Frame(f), []);
    assert [Frame(f)] + [] == [Frame(f)] && Frames([Frame(f)]) == [f];
  }

  /** The inputs of bytes that arrive together. */
  function Arrive(bytes: Bytes, now: nat): seq<Input> {
    if bytes == [] then [] else [ByteIn(bytes[0], now)] + Arrive(bytes[1..], now)
  }

  lemma {:induction false} OpenFrame(s: Bytes, rest: Bytes, now: nat)
    requires |s + rest| == FRAME_LEN && rest != []
    requires (s + rest)[0] == FRAME_START && (s + rest)[FRAME_LEN - 1] == FRAME_END
    ensures var f := s + rest;
            EventsOf(Line(true, s), Arrive(rest, now)) ==
            [FrameIn([f[2] as int, f[1] as int, f[4] as int, f[3] as int], now)]
    decreases |rest|
  {
    hide Amounts, LineAfter;
    var line, all := Line(true, s), Arrive(rest, now);
    assert all[0] == ByteIn(rest[0], now) && all[1..] == Arrive(rest[1..], now);
    if |rest| == 1 {
      ByteCompletes(s, now);
      assert all[1..] == [];
    } else {
      ByteBuffered(s, rest[0], now);
      assert (s + [rest[0]]) + rest[1..] == s + rest;
      OpenFrame(s + [rest[0]], rest[1..], now);
    }
  }

  /** On an open line between frames, a frame of any four samples is one event; each stick sends its y first. */
  lemma FrameIsRead(yl: byte, xl: byte, yr: byte, xr: byte, now: nat)
    ensures EventsOf(Line(true, []), Arrive([0xFF, yl, xl, yr, xr, 0xFE], now)) ==
            [FrameIn([xl as int, yl as int, xr as int, yr as int], now)]
  {
    hide EventsOf, Arrive;
    assert [] + [FRAME_START, yl, xl, yr, xr, FRAME_END] == [FRAME_START, yl, xl, yr, xr, FRAME_END];
    OpenFrame([], [FRAME_START, yl, xl, yr, xr, FRAME_END], now);
  }

  lemma RunOne(p: Pad, events: seq<Event>, e: Event)
    requires Gamepad.Shaped(p)
    ensures Run(p, events + [e]) == Gamepad.Step(Run(p, events), e)
  {
    hide Gamepad.Step;
    assert (events + [e])[..|events|] == events;
  }

  lemma EventsStep(line: Line, inputs: seq<Input>, i: nat, done: seq<Event>)
    requires i < |inputs|
    ensures var more := Amounts(line, inputs[i]);
            done + EventsOf(line, inputs[i..]) == (done + more) + EventsOf(LineAfter(line, inputs[i]), inputs[i + 1..])
  {
    hide Amounts, LineAfter;
    assert inputs[i..][0] == inputs[i] && inputs[i..][1..] == inputs[i + 1..];
  }

  lemma RunMore(p: Pad, done: seq<Event>, more: seq<Event>)
    requires Gamepad.Shaped(p) && |more| <= 1
    ensures Run(p, done + more) == if more == [] then Run(p, done) else Gamepad.Step(Run(p, done), more[0])
  {
    hide Gamepad.Step;
    if more == [] {
      assert done + more == done;
    } else {
      assert more == [more[0]];
      RunOne(p, done, more[0]);
    }
  }

  ghost function LineOf(d: PadDriver): Line
    reads d.buffer, d.buffer.frame
    requires d.buffer.frameLen <= d.buffer.frame.Length
  {
    Line(d.buffer.portOpen, d.buffer.Buffered())
  }

  /** One input to the driver. */
  method Take(d: PadDriver, input: Input)
    requires d.Valid()
    modifies d, d.axis, d.reports, d.buffer, d.buffer.frame
    ensures d.Valid() && d.buffer.frame == old(d.buffer.frame) && LineOf(d) == LineAfter(old(LineOf(d)), input)
    ensures var more := Amounts(old(LineOf(d)), input);
      d.State() == if more == [] then old(d.State()) else Gamepad.Step(old(d.State()), more[0])
  {
    hide Scan, Frames, OnFrame, CalStore, SetDeadzone, SamplesOk;
    match input {
      case ByteIn(b, now) => d.Receive(b, now);
      case CalIn(right, apply, x, y) => var reply := d.Store(right, apply, x, y);
      case DeadzoneIn(right, pct) => var reply := d.StoreDeadzone(right, pct);
      case PortIn(open) => d.buffer.SetPort(open);
    }
  }

  /**
   The driver after any interleaving of bytes, writes and port changes is the state machine after the
   events they amount to.
   */
  method Drive(inputs: seq<Input>) returns (axes: seq<Axis>, reports: seq<int>)
    ensures axes == Run(InitialPad, EventsOf(Closed, inputs)).axes
    ensures reports == Run(InitialPad, EventsOf(Closed, inputs)).reports
    ensures forall i :: 0 <= i < |axes| ==> Calibrated(axes[i])
    ensures |reports| == AXES && forall i :: 0 <= i < AXES ==> -ABS_RANGE <= reports[i] <= ABS_RANGE
  {
    hide Calibrated, AxisInv, SamplesOk, Gamepad.Step, Amounts, EventsOf, LineAfter, Run;
    var d := new PadDriver();
    ghost var done: seq<Event> := [];
    ghost var all := EventsOf(Closed, inputs);
    assert Run(InitialPad, []) == InitialPad by { RunNothing(); }
    assert inputs[0..] == inputs && [] + all == all;
    var i := 0;
    while i < |inputs|
      invariant 0 <= i <= |inputs| && d.Valid()
      invariant fresh(d) && fresh(d.axis) && fresh(d.reports) && fresh(d.buffer) && fresh(d.buffer.frame)
      invariant d.State() == Run(InitialPad, done)
      invariant done + EventsOf(LineOf(d), inputs[i..]) == all
    {
      ghost var more := Amounts(LineOf(d), inputs[i]);
      EventsStep(LineOf(d), inputs, i, done);
      RunMore(InitialPad, done, more);
      Take(d, inputs[i]);
      done := done + more;
      i := i + 1;
    }
    assert EventsOf(LineOf(d), inputs[i..]) == [] by { NoInputs(LineOf(d)); assert inputs[i..] == []; }
    assert done == all;
    ReachableIsCalibrated(all);
    ReportsStayInRange(all);
    axes, reports := d.axis[..], d.reports[..];
  }

  lemma RunNothing()
    ensures Run(InitialPad, []) == InitialPad
  {
  }

  lemma NoInputs(line: Line)
    ensures EventsOf(line, []) == []
  {
  }
}
