/**
 The resynchronising UART framer of the gamepad driver, and the left-to-right
 scan of a whole byte stream that it implements incrementally.
 */
module Framer {
  import opened Slices
  import opened Bytes

  const FRAME_LEN: nat := 6
  const FRAME_START: byte := 0xFF
  const FRAME_END: byte := 0xFE

  // ---- The reference scan -------------------------------------------------

  datatype Segment = Frame(bytes: Bytes) | Discarded(b: byte)

  /** What a scan makes of a stream: frames and discarded bytes in order, and the bytes still open. */
  datatype Scanned = Scanned(segments: seq<Segment>, rest: Bytes)

  function Then(s: Segment, r: Scanned): Scanned { Scanned([s] + r.segments, r.rest) }

  /** Skip until a start byte; accept six bytes if the sixth is the end byte, else advance one. */
  function Scan(s: Bytes): Scanned {
    if s == [] then Scanned([], [])
    else if s[0] != FRAME_START then Then(Discarded(s[0]), Scan(s[1..]))
    else if |s| < FRAME_LEN then Scanned([], s)
    else if s[FRAME_LEN - 1] == FRAME_END then Then(Frame(s[..FRAME_LEN]), Scan(s[FRAME_LEN..]))
    else Then(Discarded(s[0]), Scan(s[1..]))
  }

  function Frames(segments: seq<Segment>): seq<Bytes> {
    if segments == [] then []
    else (if segments[0].Frame? then [segments[0].bytes] else []) + Frames(segments[1..])
  }

  /** Start bytes that turned out to begin no frame. */
  function FalseStarts(segments: seq<Segment>): nat {
    if segments == [] then 0
    else (if segments[0] == Discarded(FRAME_START) then 1 else 0) + FalseStarts(segments[1..])
  }

  function Flatten(segments: seq<Segment>): Bytes {
    if segments == [] then []
    else (if segments[0].Frame? then segments[0].bytes else [segments[0].b]) + Flatten(segments[1..])
  }

  lemma HeadOf(head: Segment, rest: seq<Segment>)
    ensures Flatten([head] + rest) == (if head.Frame? then head.bytes else [head.b]) + Flatten(rest)
    ensures Frames([head] + rest) == (if head.Frame? then [head.bytes] else []) + Frames(rest)
    ensures FalseStarts([head] + rest) == (if head == Discarded(FRAME_START) then 1 else 0) + FalseStarts(rest)
  {
    assert ([head] + rest)[1..] == rest;
  }

  lemma {:induction false} FramesOfSum(a: seq<Segment>, b: seq<Segment>)
    ensures Frames(a + b) == Frames(a) + Frames(b)
    ensures FalseStarts(a + b) == FalseStarts(a) + FalseStarts(b)
  {
    if a == [] {
      assert a + b == b;
    } else {
      FramesOfSum(a[1..], b);
      HeadOf(a[0], a[1..]);
      HeadOf(a[0], a[1..] + b);
      hide Frames, Flatten, FalseStarts;
      assert a == [a[0]] + a[1..] && a + b == [a[0]] + (a[1..] + b);
      Associates(if a[0].Frame? then [a[0].bytes] else [], Frames(a[1..]), Frames(b));
    }
  }

  predicate GoodFrame(f: Bytes) { |f| == FRAME_LEN && f[0] == FRAME_START && f[FRAME_LEN - 1] == FRAME_END }

  /** How many bytes the scan settles first, and as what. */
  function Settles(s: Bytes): nat
    requires s != []
  {
    if s[0] == FRAME_START && |s| < FRAME_LEN then 0
    else if s[0] == FRAME_START && s[FRAME_LEN - 1] == FRAME_END then FRAME_LEN
    else 1
  }

  function HeadSegment(s: Bytes): Segment
    requires s != [] && Settles(s) > 0
  {
    if Settles(s) == FRAME_LEN then Frame(s[..FRAME_LEN]) else Discarded(s[0])
  }

  lemma ScanHead(s: Bytes)
    requires s != []
    ensures Settles(s) <= |s|
    ensures Scan(s) == if Settles(s) == 0 then Scanned([], s) else Then(HeadSegment(s), Scan(s[Settles(s)..]))
  {
  }

  lemma {:induction false} ScanKeepsBytes(s: Bytes)
    ensures Flatten(Scan(s).segments) + Scan(s).rest == s
  {
    if s != [] {
      ScanHead(s);
      hide Scan;
      var n := Settles(s);
      if n == 0 {
        assert Flatten([]) + s == s;
      } else {
        ScanKeepsBytes(s[n..]);
        HeadOf(HeadSegment(s), Scan(s[n..]).segments);
        hide Frames, Flatten, Settles;
        assert s[..n] + (Flatten(Scan(s[n..]).segments) + Scan(s[n..]).rest) == s;
        HeadBytes(s);
      }
    }
  }

  lemma HeadBytes(s: Bytes)
    requires s != [] && Settles(s) > 0
    ensures Settles(s) <= |s|
    ensures (var head := HeadSegment(s); (if head.Frame? then head.bytes else [head.b]) == s[..Settles(s)])
    ensures HeadSegment(s).Frame? ==> GoodFrame(HeadSegment(s).bytes)
  {
  }

  lemma {:induction false} ScanRest(s: Bytes)
    ensures |Scan(s).rest| < FRAME_LEN && (Scan(s).rest != [] ==> Scan(s).rest[0] == FRAME_START)
  {
    if s != [] {
      ScanHead(s);
      hide Scan;
      if Settles(s) > 0 { ScanRest(s[Settles(s)..]); }
    }
  }

  lemma {:induction false} ScannedFramesGood(s: Bytes)
    ensures forall f :: f in Frames(Scan(s).segments) ==> GoodFrame(f)
  {
    if s != [] {
      ScanHead(s);
      hide Scan;
      var n := Settles(s);
      if n > 0 {
        ScannedFramesGood(s[n..]);
        HeadOf(HeadSegment(s), Scan(s[n..]).segments);
        HeadBytes(s);
        hide Frames, Flatten, GoodFrame, HeadSegment, Settles;
      }
    }
  }

  /** Every received byte is in exactly one frame, discarded, or still buffered, in stream order. */
  lemma ScanPartitions(s: Bytes)
    ensures Flatten(Scan(s).segments) + Scan(s).rest == s
    ensures |Scan(s).rest| < FRAME_LEN
    ensures Scan(s).rest != [] ==> Scan(s).rest[0] == FRAME_START
    ensures forall f :: f in Frames(Scan(s).segments) ==> GoodFrame(f)
  {
    hide Scan, Frames, Flatten;
    ScanKeepsBytes(s);
    ScanRest(s);
    ScannedFramesGood(s);
  }

  /** Scanning a stream in two pieces, the open bytes carried over, is scanning it whole. */
  lemma {:induction false} ScanSplits(a: Bytes, b: Bytes)
    ensures var later := Scan(Scan(a).rest + b);
            Scan(a + b) == Scanned(Scan(a).segments + later.segments, later.rest)
  {
    if a == [] || Settles(a) == 0 {
      if a != [] { ScanHead(a); }
      assert Scan(a).rest + b == a + b;
      hide Scan;
      assert [] + Scan(a + b).segments == Scan(a + b).segments;
    } else {
      var n := Settles(a);
      ScanSplits(a[n..], b);
      ScanHead(a);
      ScanHead(a + b);
      hide Scan;
      SameHead(a, b);
      var later := Scan(Scan(a).rest + b);
      Associates([HeadSegment(a)], Scan(a[n..]).segments, later.segments);
    }
  }

  /** Bytes behind what the scan settles first do not change it. */
  lemma SameHead(a: Bytes, b: Bytes)
    requires a != [] && Settles(a) > 0
    ensures Settles(a + b) == Settles(a) <= |a| && HeadSegment(a + b) == HeadSegment(a)
    ensures (a + b)[Settles(a)..] == a[Settles(a)..] + b
  {
    if Settles(a) == FRAME_LEN { assert (a + b)[..FRAME_LEN] == a[..FRAME_LEN]; }
  }

  lemma Carry(seen: Bytes, chunk: Bytes, i: nat)
    requires i < |chunk|
    ensures (seen + [chunk[i]]) + chunk[i + 1..] == seen + chunk[i..]
  {
  }

  lemma ScanAdvances(seen: Bytes, b: Bytes)
    ensures var later := Scan(Scan(seen).rest + b);
            && Frames(Scan(seen + b).segments) == Frames(Scan(seen).segments) + Frames(later.segments)
            && FalseStarts(Scan(seen + b).segments) == FalseStarts(Scan(seen).segments) + FalseStarts(later.segments)
            && Scan(seen + b).rest == later.rest
  {
    hide Scan, Frames, FalseStarts;
    ScanSplits(seen, b);
    FramesOfSum(Scan(seen).segments, Scan(Scan(seen).rest + b).segments);
  }

  // ---- Resynchronisation --------------------------------------------------

  /** A frame whose payload bytes are neither of the two markers. */
  predicate CleanFrame(f: Bytes) {
    && |f| == FRAME_LEN && f[0] == FRAME_START && f[FRAME_LEN - 1] == FRAME_END
    && forall i :: 1 <= i < FRAME_LEN - 1 ==> f[i] != FRAME_START && f[i] != FRAME_END
  }

  function Concat(fs: seq<Bytes>): Bytes {
    if fs == [] then [] else fs[0] + Concat(fs[1..])
  }

  function AsFrames(fs: seq<Bytes>): seq<Segment> {
    if fs == [] then [] else [Frame(fs[0])] + AsFrames(fs[1..])
  }

  lemma {:induction false} ScanFrames(fs: seq<Bytes>)
    requires forall f :: f in fs ==> CleanFrame(f)
    ensures Scan(Concat(fs)) == Scanned(AsFrames(fs), [])
  {
    if fs != [] {
      var s := Concat(fs);
      assert CleanFrame(fs[0]);
      assert s[..FRAME_LEN] == fs[0] && s[FRAME_LEN..] == Concat(fs[1..]);
      ScanFrames(fs[1..]);
    }
  }

  /** A scan step that starts in front of clean frames ends in front of them too. */
  lemma FirstStep(before: Bytes, fs: seq<Bytes>) returns (n: nat, first: Segment)
    requires before != [] && fs != [] && CleanFrame(fs[0])
    ensures 1 <= n <= |before| && Flatten([first]) == before[..n]
    ensures var s := before + Concat(fs); Scan(s) == Then(first, Scan(s[n..]))
  {
    var s := before + Concat(fs);
    assert |before| < FRAME_LEN ==> s[FRAME_LEN - 1] == fs[0][FRAME_LEN - 1 - |before|];
    n := if s[0] == FRAME_START && s[FRAME_LEN - 1] == FRAME_END then FRAME_LEN else 1;
    first := if n == 1 then Discarded(before[0]) else Frame(before[..n]);
    assert s[..n] == before[..n] && [first][1..] == [];
  }

  /** Back-to-back clean frames are all emitted, and nothing of them is lost, whatever came before. */
  lemma {:induction false} Resynchronises(before: Bytes, fs: seq<Bytes>) returns (segments: seq<Segment>)
    requires fs != [] && forall f :: f in fs ==> CleanFrame(f)
    ensures Scan(before + Concat(fs)) == Scanned(segments + AsFrames(fs), []) && Flatten(segments) == before
    decreases |before|
  {
    hide Scan, Concat, AsFrames;
    var s := before + Concat(fs);
    if before == [] {
      assert s == Concat(fs);
      ScanFrames(fs);
      segments := [];
    } else {
      var n, first := FirstStep(before, fs);
      var later := Resynchronises(before[n..], fs);
      assert s[n..] == before[n..] + Concat(fs);
      segments := [first] + later;
      assert segments + AsFrames(fs) == [first] + (later + AsFrames(fs));
      assert segments[1..] == later && before == before[..n] + before[n..];
    }
  }

  // ---- The framer ---------------------------------------------------------

  /** A stretch shorter than a frame is open from its first start byte on. */
  lemma {:induction false} ScanShort(t: Bytes, start: nat)
    requires |t| < FRAME_LEN && start <= |t| && (forall i :: 0 <= i < start ==> t[i] != FRAME_START)
    requires start < |t| ==> t[start] == FRAME_START
    ensures Scan(t).rest == t[start..] && Frames(Scan(t).segments) == [] && |Scan(t).segments| == start
    ensures FalseStarts(Scan(t).segments) == 0
  {
    if start > 0 {
      ScanShort(t[1..], start - 1);
      assert t[1..][start - 1..] == t[start..];
      assert Scan(t).segments[1..] == Scan(t[1..]).segments;
    }
  }

  lemma FirstByte(b: byte)
    ensures Scan([b]).rest == if b == FRAME_START then [b] else []
    ensures Frames(Scan([b]).segments) == [] && FalseStarts(Scan([b]).segments) == 0
  {
    ScanShort([b], if b == FRAME_START then 0 else 1);
  }

  lemma OpenBytes(s: Bytes)
    requires 0 < |s| < FRAME_LEN && s[0] == FRAME_START
    ensures Scan(s).rest == s && Frames(Scan(s).segments) == [] && FalseStarts(Scan(s).segments) == 0
  {
    ScanShort(s, 0);
  }

  lemma WholeFrame(s: Bytes)
    requires |s| == FRAME_LEN && s[0] == FRAME_START && s[FRAME_LEN - 1] == FRAME_END
    ensures Scan(s).rest == [] && Frames(Scan(s).segments) == [s] && FalseStarts(Scan(s).segments) == 0
  {
    assert s[FRAME_LEN..] == [] && s[..FRAME_LEN] == s;
    assert Scan(s).segments == [Frame(s)];
  }

  lemma BadFrame(s: Bytes, start: nat)
    requires |s| == FRAME_LEN && s[0] == FRAME_START && s[FRAME_LEN - 1] != FRAME_END && 1 <= start <= FRAME_LEN
    requires (forall i :: 1 <= i < start ==> s[i] != FRAME_START) && (start < FRAME_LEN ==> s[start] == FRAME_START)
    ensures Scan(s).rest == s[start..] && Frames(Scan(s).segments) == [] && FalseStarts(Scan(s).segments) == 1
  {
    ScanShort(s[1..], start - 1);
    assert s[1..][start - 1..] == s[start..];
    assert Scan(s).segments[1..] == Scan(s[1..]).segments;
  }

  class FrameBuffer {
    var frame: array<byte>
    var frameLen: nat
    var portOpen: bool
    var validFrames: nat
    var badFrames: nat
    var rxBytes: nat

    ghost predicate Valid()
      reads this, frame
    {
      frame.Length == FRAME_LEN && frameLen < FRAME_LEN && (frameLen > 0 ==> frame[0] == FRAME_START)
    }

    ghost function Buffered(): Bytes
      reads this, frame
      requires frameLen <= frame.Length
    {
      frame[..frameLen]
    }

    constructor ()
      ensures Valid() && fresh(frame) && Buffered() == [] && !portOpen
      ensures rxBytes == 0 && validFrames == 0 && badFrames == 0
    {
      frame := new byte[FRAME_LEN];
      frameLen, portOpen := 0, false;
      validFrames, badFrames, rxBytes := 0, 0, 0;
    }

    /** The framing part of mf_feed: the frame this byte completes, if any. */
    method Feed(b: byte) returns (out: Option<Bytes>)
      requires Valid()
      modifies this`frameLen, this`validFrames, this`badFrames, this`rxBytes, frame
      ensures Valid() && rxBytes == old(rxBytes) + 1
      ensures var scan := Scan(old(Buffered()) + [b]);
        && Buffered() == scan.rest
        && Frames(scan.segments) == (if out.Some? then [out.value] else [])
        && badFrames == old(badFrames) + FalseStarts(scan.segments)
      ensures validFrames == old(validFrames) + if out.Some? then 1 else 0
      ensures out.Some? ==> |out.value| == FRAME_LEN && out.value[0] == FRAME_START
      ensures out.Some? ==> out.value[FRAME_LEN - 1] == FRAME_END
    {
      hide Scan, Frames, FalseStarts;
      ghost var s := Buffered() + [b];
      rxBytes := rxBytes + 1;
      if frameLen == 0 {
        if b == FRAME_START {
          frame[0] := b;
          frameLen := 1;
        }
        FirstByte(b);
        assert s == [b];
        return None;
      }
      frame[frameLen] := b;
      frameLen := frameLen + 1;
      assert frame[..frameLen] == s;
      if frameLen < FRAME_LEN {
        OpenBytes(s);
        return None;
      }
      if frame[FRAME_LEN - 1] == FRAME_END {
        validFrames := validFrames + 1;
        frameLen := 0;
        WholeFrame(s);
        assert frame[..] == s;
        return Some(frame[..]);
      }
      badFrames := badFrames + 1;
      out := None;
      Restart(s);
    }

    /** The tail of mf_feed after a bad frame: keep the bytes from the next start byte on. */
    method Restart(ghost s: Bytes)
      requires frame.Length == FRAME_LEN == frameLen == |s| && frame[..] == s
      requires s[0] == FRAME_START && s[FRAME_LEN - 1] != FRAME_END
      modifies this`frameLen, frame
      ensures Valid() && Buffered() == Scan(s).rest && Frames(Scan(s).segments) == []
      ensures FalseStarts(Scan(s).segments) == 1
    {
      hide Scan, Frames, FalseStarts;
      var start := FRAME_LEN;
      var i := 1;
      while i < FRAME_LEN
        invariant 1 <= i <= FRAME_LEN && start == FRAME_LEN
        invariant forall k :: 1 <= k < i ==> frame[k] != FRAME_START
      {
        if frame[i] == FRAME_START {
          start := i;
          break;
        }
        i := i + 1;
      }
      BadFrame(s, start);
      if start == FRAME_LEN {
        frameLen := 0;
        return;
      }
      var kept := frame[start..];
      var k := 0;
      while k < |kept|
        invariant 0 <= k <= |kept| && frame[..k] == kept[..k]
      {
        frame[k] := kept[k];
        k := k + 1;
      }
      frameLen := FRAME_LEN - start;
      assert kept[0] == FRAME_START;
    }

    /** mf_receive: a closed port ignores the bytes. */
    method Receive(chunk: Bytes) returns (frames: seq<Bytes>)
      requires Valid()
      modifies this`frameLen, this`validFrames, this`badFrames, this`rxBytes, frame
      ensures Valid()
      ensures !portOpen ==> frames == [] && Buffered() == old(Buffered()) && rxBytes == old(rxBytes)
      ensures portOpen ==> var scan := Scan(old(Buffered()) + chunk);
        && frames == Frames(scan.segments) && Buffered() == scan.rest && rxBytes == old(rxBytes) + |chunk|
        && badFrames == old(badFrames) + FalseStarts(scan.segments)
      ensures validFrames == old(validFrames) + |frames|
    {
      frames := [];
      if !portOpen {
        return;
      }
      ScanOpen(Buffered());
      assert Frames([]) == [] && FalseStarts([]) == 0;
      hide Scan, Frames, FalseStarts;
      ghost var seen := Buffered();
      ghost var all := Buffered() + chunk;
      var i := 0;
      while i < |chunk|
        invariant 0 <= i <= |chunk| && Valid() && rxBytes == old(rxBytes) + i
        invariant seen + chunk[i..] == all
        invariant frames == Frames(Scan(seen).segments) && Buffered() == Scan(seen).rest
        invariant validFrames == old(validFrames) + |frames|
        invariant badFrames == old(badFrames) + FalseStarts(Scan(seen).segments)
      {
        ScanAdvances(seen, [chunk[i]]);
        var out := Feed(chunk[i]);
        if out.Some? {
          frames := frames + [out.value];
        }
        Carry(seen, chunk, i);
        seen := seen + [chunk[i]];
        i := i + 1;
      }
      assert seen == all;
    }

    lemma ScanOpen(r: Bytes)
      requires |r| < FRAME_LEN && (r != [] ==> r[0] == FRAME_START)
      ensures Scan(r) == Scanned([], r)
    {
    }

    /** mf_port_open and mf_port_close drop what is buffered. */
    method SetPort(open: bool)
      requires Valid()
      modifies this`frameLen, this`portOpen
      ensures Valid() && portOpen == open && Buffered() == []
    {
      frameLen, portOpen := 0, open;
    }
  }

  lemma ConcatFrom(chunks: seq<Bytes>, i: nat)
    requires i <= |chunks|
    ensures Concat(chunks[i..]) == if i == |chunks| then [] else chunks[i] + Concat(chunks[i + 1..])
  {
    if i < |chunks| { assert chunks[i..][1..] == chunks[i + 1..]; }
  }

  /** However the stream is cut into chunks, the frames are those of one scan of the whole stream. */
  method ReceiveAll(chunks: seq<Bytes>) returns (frames: seq<Bytes>, rest: Bytes)
    ensures frames == Frames(Scan(Concat(chunks)).segments) && rest == Scan(Concat(chunks)).rest
  {
    assert Scan([]) == Scanned([], []) && Frames([]) == [];
    hide Scan, Frames, Concat;
    assert chunks[0..] == chunks && [] + Concat(chunks) == Concat(chunks);
    var buffer := new FrameBuffer();
    buffer.SetPort(true);
    frames := [];
    var i := 0;
    ghost var done: Bytes := [];
    while i < |chunks|
      invariant 0 <= i <= |chunks| && buffer.Valid() && buffer.portOpen && fresh(buffer) && fresh(buffer.frame)
      invariant done + Concat(chunks[i..]) == Concat(chunks)
      invariant frames == Frames(Scan(done).segments) && buffer.Buffered() == Scan(done).rest
    {
      ScanAdvances(done, chunks[i]);
      ConcatFrom(chunks, i);
      Associates(done, chunks[i], Concat(chunks[i + 1..]));
      var more := buffer.Receive(chunks[i]);
      frames := frames + more;
      done := done + chunks[i];
      i := i + 1;
    }
    assert done == Concat(chunks) by { ConcatFrom(chunks, i); }
    rest := buffer.frame[..buffer.frameLen];
  }
}
