/**
 JSON values and their printed form, compact or pretty, and the serializer that
 is run twice: once without a buffer to learn the size, once to write.
 */
module JsonText {
  import opened Slices
  import opened Bytes
  import opened JsonString

  /** A number is the bit pattern of its double; printing and reading it are left to the C library. */
  datatype Value =
    | Null
    | Bool(b: bool)
    | Num(bits: nat)
    | Str(s: Bytes)
    | Arr(items: seq<Value>)
    | Obj(members: seq<Member>)

  datatype Member = Member(key: Bytes, value: Value)

  /** The output settings, with the number format as a function. */
  datatype Style = Style(pretty: bool, escapeSlashes: bool, format: nat -> Bytes)

  const SPACE: byte := 0x20
  const NEWLINE: byte := 0x0A
  const COMMA: byte := 0x2C
  const COLON: byte := 0x3A
  const OPEN_BRACKET: byte := 0x5B
  const CLOSE_BRACKET: byte := 0x5D
  const OPEN_BRACE: byte := 0x7B
  const CLOSE_BRACE: byte := 0x7D
  const NULL_TOKEN: Bytes := [0x6E, 0x75, 0x6C, 0x6C]
  const TRUE_TOKEN: Bytes := [0x74, 0x72, 0x75, 0x65]
  const FALSE_TOKEN: Bytes := [0x66, 0x61, 0x6C, 0x73, 0x65]

  // ---- The printed form ---------------------------------------------------

  function Indent(level: nat, pretty: bool): Bytes {
    if pretty then seq(4 * level, _ => SPACE) else []
  }

  function LineBreak(pretty: bool): Bytes {
    if pretty then [NEWLINE] else []
  }

  function Gap(level: nat, pretty: bool): Bytes {
    LineBreak(pretty) + Indent(level, pretty)
  }

  function Join(parts: seq<Bytes>, gap: Bytes): Bytes
    requires parts != []
    decreases |parts|
  {
    if |parts| == 1 then parts[0] else parts[0] + [COMMA] + gap + Join(parts[1..], gap)
  }

  /** Bracketed, comma separated parts; the parts sit one level deeper than the brackets. */
  function Container(open: byte, close: byte, parts: seq<Bytes>, level: nat, pretty: bool): Bytes {
    if parts == [] then [open, close]
    else [open] + Gap(level + 1, pretty) + Join(parts, Gap(level + 1, pretty)) + Gap(level, pretty) + [close]
  }

  function MemberPrefix(key: Bytes, st: Style): Bytes {
    Quote(key, st.escapeSlashes) + [COLON] + (if st.pretty then [SPACE] else [])
  }

  function Text(v: Value, level: nat, st: Style): Bytes
    decreases v, 1
  {
    match v
    case Null => NULL_TOKEN
    case Bool(b) => if b then TRUE_TOKEN else FALSE_TOKEN
    case Num(bits) => st.format(bits)
    case Str(s) => Quote(s, st.escapeSlashes)
    case Arr(items) => Container(OPEN_BRACKET, CLOSE_BRACKET, Parts(v, level, st), level, st.pretty)
    case Obj(members) => Container(OPEN_BRACE, CLOSE_BRACE, Parts(v, level, st), level, st.pretty)
  }

  function Count(v: Value): nat {
    if v.Arr? then |v.items| else if v.Obj? then |v.members| else 0
  }

  function Parts(v: Value, level: nat, st: Style): (parts: seq<Bytes>)
    ensures |parts| == Count(v)
    decreases v, 0
  {
    match v
    case Arr(items) => seq(|items|, i requires 0 <= i < |items| => Text(items[i], level + 1, st))
    case Obj(members) =>
      seq(|members|, i requires 0 <= i < |members| =>
        MemberPrefix(members[i].key, st) + Text(members[i].value, level + 1, st))
    case _ => []
  }

  // ---- The serializer -----------------------------------------------------

  /**
   The buffer starts with `done`; without a buffer there is nothing to hold.
   Every writer below takes the position as `pos` and what is written so far as
   the ghost `done`, so that one contract covers both passes.
   */
  predicate Holds(buf: array?<byte>, done: Bytes)
    reads buf
  {
    buf != null ==> |done| <= buf.Length && buf[..|done|] == done
  }

  predicate Terminated(buf: array?<byte>, pos: nat)
    reads buf
  {
    buf != null ==> pos < buf.Length && buf[pos] == 0
  }

  /** There is room for n bytes and the terminator. */
  predicate Room(buf: array?<byte>, n: nat) {
    buf != null ==> n < buf.Length
  }

  /** Copies when there is a buffer, and counts either way. */
  method Copy(buf: array?<byte>, pos: nat, w: Bytes, ghost done: Bytes) returns (next: nat)
    requires pos == |done| && Holds(buf, done) && Room(buf, pos + |w|)
    modifies if buf == null then {} else {buf}
    ensures next == |done + w| && Holds(buf, done + w)
  {
    if buf != null {
      var k := 0;
      while k < |w|
        invariant 0 <= k <= |w|
        invariant buf[..pos + k] == done + w[..k]
      {
        buf[pos + k] := w[k];
        k := k + 1;
      }
      assert w[..|w|] == w;
    }
    next := pos + |w|;
  }

  /** APPEND_STRING: also writes the terminator. */
  method Append(buf: array?<byte>, pos: nat, w: Bytes, ghost done: Bytes) returns (next: nat)
    requires pos == |done| && Holds(buf, done) && Room(buf, pos + |w|)
    modifies if buf == null then {} else {buf}
    ensures next == |done + w| && Holds(buf, done + w) && Terminated(buf, next)
  {
    next := Copy(buf, pos, w, done);
    if buf != null {
      buf[next] := 0;
      assert buf[..next] == done + w;
    }
  }

  /** APPEND_INDENT: four spaces, level times. */
  method AppendIndent(buf: array?<byte>, pos: nat, level: nat, ghost done: Bytes) returns (next: nat)
    requires pos == |done| && Holds(buf, done) && Room(buf, pos + 4 * level)
    modifies if buf == null then {} else {buf}
    ensures next == |done + Indent(level, true)| && Holds(buf, done + Indent(level, true))
  {
    next := pos;
    var k := 0;
    assert done + Indent(0, true) == done;
    while k < level
      invariant 0 <= k <= level && next == |done + Indent(k, true)|
      invariant Holds(buf, done + Indent(k, true))
    {
      next := Append(buf, next, [SPACE, SPACE, SPACE, SPACE], done + Indent(k, true));
      k := k + 1;
      assert done + Indent(k, true) == (done + Indent(k - 1, true)) + [SPACE, SPACE, SPACE, SPACE];
    }
  }

  /** json_serialize_string: escapes go through APPEND_STRING, plain bytes are stored directly. */
  method SerializeString(s: Bytes, escapeSlashes: bool, buf: array?<byte>, pos: nat, ghost done: Bytes)
    returns (next: nat)
    requires pos == |done| && Holds(buf, done) && Room(buf, pos + |Quote(s, escapeSlashes)|)
    modifies if buf == null then {} else {buf}
    ensures next == |done + Quote(s, escapeSlashes)|
    ensures Holds(buf, done + Quote(s, escapeSlashes)) && Terminated(buf, next)
  {
    hide EscapeByte;
    ghost var all := done + Quote(s, escapeSlashes);
    ghost var sofar := done + [QUOTE];
    next := Append(buf, pos, [QUOTE], done);
    var i := 0;
    while i < |s|
      invariant 0 <= i <= |s| && next == |sofar| && Holds(buf, sofar)
      invariant sofar + EscapeBytes(s[i..], escapeSlashes) + [QUOTE] == all
    {
      var w := EscapeByte(s[i], escapeSlashes);
      EscapeBytesStep(sofar, s[i..], escapeSlashes);
      if |w| == 1 {
        next := Copy(buf, next, w, sofar);
      } else {
        next := Append(buf, next, w, sofar);
      }
      sofar := sofar + w;
      i := i + 1;
    }
    next := Append(buf, next, [QUOTE], sofar);
    assert sofar + EscapeBytes([], escapeSlashes) == sofar;
  }

  lemma EscapeBytesStep(sofar: Bytes, s: Bytes, escapeSlashes: bool)
    requires s != []
    ensures sofar + EscapeBytes(s, escapeSlashes) ==
            (sofar + EscapeByte(s[0], escapeSlashes)) + EscapeBytes(s[1..], escapeSlashes)
  {
    hide EscapeByte;
  }

  // The text that is left when the loop over the parts is about to print part i.
  function Remaining(parts: seq<Bytes>, i: nat, close: byte, level: nat, pretty: bool): Bytes
    requires i <= |parts|
  {
    if i < |parts| then
      Indent(level + 1, pretty) + Join(parts[i..], Gap(level + 1, pretty))
      + LineBreak(pretty) + Indent(level, pretty) + [close]
    else Indent(level, pretty) + [close]
  }

  /** What one turn of the loop over the parts prints. */
  function Entry(parts: seq<Bytes>, i: nat, level: nat, pretty: bool): Bytes
    requires i < |parts|
  {
    Indent(level + 1, pretty) + parts[i] + (if i < |parts| - 1 then [COMMA] else []) + LineBreak(pretty)
  }

  lemma RemainingStep(done: Bytes, parts: seq<Bytes>, i: nat, close: byte, level: nat, pretty: bool)
    requires i < |parts|
    ensures done + Remaining(parts, i, close, level, pretty) ==
            (done + Entry(parts, i, level, pretty)) + Remaining(parts, i + 1, close, level, pretty)
  {
    hide Indent, LineBreak;
    var gap := Gap(level + 1, pretty);
    var inner, outer, brk := Indent(level + 1, pretty), Indent(level, pretty), LineBreak(pretty);
    if i < |parts| - 1 {
      assert parts[i..][1..] == parts[i + 1..];
      assert Join(parts[i..], gap) == parts[i] + [COMMA] + (brk + inner) + Join(parts[i + 1..], gap);
      var rest := Join(parts[i + 1..], gap);
      assert Entry(parts, i, level, pretty) == inner + (parts[i] + [COMMA]) + brk;
      assert Remaining(parts, i, close, level, pretty)
          == inner + (parts[i] + [COMMA] + (brk + inner) + rest) + (brk + outer + [close]);
      assert Remaining(parts, i + 1, close, level, pretty) == inner + rest + (brk + outer + [close]);
      hide Remaining, Entry, Join;
      Regroup(done, inner, parts[i] + [COMMA], brk, rest, brk + outer + [close]);
    } else {
      assert Join(parts[i..], gap) == parts[i];
    }
  }

  lemma Regroup(done: Bytes, inner: Bytes, head: Bytes, brk: Bytes, rest: Bytes, end: Bytes)
    ensures done + (inner + (head + (brk + inner) + rest) + end) == (done + (inner + head + brk)) + (inner + rest + end)
  {
  }

  lemma ContainerStart(open: byte, close: byte, parts: seq<Bytes>, level: nat, pretty: bool)
    ensures Container(open, close, parts, level, pretty) ==
            if parts == [] then [open] + [close]
            else [open] + LineBreak(pretty) + Remaining(parts, 0, close, level, pretty)
  {
    hide Indent, LineBreak;
    assert parts[0..] == parts;
  }

  /** json_serialize_to_buffer_r: with a buffer it writes exactly the printed form, without one it only counts it. */
  method Serialize(v: Value, buf: array?<byte>, pos: nat, level: nat, st: Style, ghost done: Bytes) returns (next: nat)
    requires pos == |done| && Holds(buf, done) && Room(buf, pos + |Text(v, level, st)|)
    modifies if buf == null then {} else {buf}
    ensures next == |done + Text(v, level, st)| && Holds(buf, done + Text(v, level, st)) && Terminated(buf, next)
    decreases v, 2
  {
    match v
    case Null => next := Append(buf, pos, NULL_TOKEN, done);
    case Bool(b) => next := Append(buf, pos, if b then TRUE_TOKEN else FALSE_TOKEN, done);
    case Num(bits) => next := Append(buf, pos, st.format(bits), done);
    case Str(s) => next := SerializeString(s, st.escapeSlashes, buf, pos, done);
    case Arr(_) => next := SerializeContainer(v, OPEN_BRACKET, CLOSE_BRACKET, buf, pos, level, st, done);
    case Obj(_) => next := SerializeContainer(v, OPEN_BRACE, CLOSE_BRACE, buf, pos, level, st, done);
  }

  /** The array and object cases, which differ only in the brackets and in what one part is. */
  method SerializeContainer(v: Value, open: byte, close: byte, buf: array?<byte>, pos: nat, level: nat, st: Style,
                            ghost done: Bytes)
    returns (next: nat)
    requires v.Arr? || v.Obj?
    requires var text := Container(open, close, Parts(v, level, st), level, st.pretty);
             pos == |done| && Holds(buf, done) && Room(buf, pos + |text|)
    modifies if buf == null then {} else {buf}
    ensures var text := Container(open, close, Parts(v, level, st), level, st.pretty);
            next == |done + text| && Holds(buf, done + text) && Terminated(buf, next)
    decreases v, 1
  {
    hide Container, Remaining, Indent, LineBreak, Parts, Entry, Holds;
    ghost var parts := Parts(v, level, st);
    ghost var all := done + Container(open, close, parts, level, st.pretty);
    var count := Count(v);
    ContainerStart(open, close, parts, level, st.pretty);
    ghost var sofar := done + [open];
    next := Append(buf, pos, [open], done);
    if count > 0 {
      OpenedContainer(done, open, LineBreak(st.pretty), Remaining(parts, 0, close, level, st.pretty));
      next, sofar := SerializeLineBreak(buf, next, st.pretty, sofar);
      next, sofar := SerializeEntries(v, close, buf, next, level, st, sofar, all);
      RemainingEnd(sofar, parts, close, level, st.pretty);
      next, sofar := SerializeIndent(buf, next, level, st.pretty, sofar);
    }
    if count == 0 { EmptyContainer(open, close, done); }
    next := Append(buf, next, [close], sofar);
  }

  lemma EmptyContainer(open: byte, close: byte, done: Bytes)
    ensures (done + [open]) + [close] == done + ([open] + [close])
  {
  }

  lemma OpenedContainer(done: Bytes, open: byte, brk: Bytes, rest: Bytes)
    ensures done + ([open] + brk + rest) == ((done + [open]) + brk) + rest
  {
    Associates(done, [open] + brk, rest);
    Associates(done, [open], brk);
  }

  /** The loop over the items or members. */
  method SerializeEntries(v: Value, close: byte, buf: array?<byte>, pos: nat, level: nat, st: Style,
                          ghost done: Bytes, ghost all: Bytes)
    returns (next: nat, ghost sofar: Bytes)
    requires (v.Arr? || v.Obj?) && pos == |done| && Holds(buf, done) && Room(buf, |all|)
    requires done + Remaining(Parts(v, level, st), 0, close, level, st.pretty) == all
    modifies if buf == null then {} else {buf}
    ensures next == |sofar| && Holds(buf, sofar)
    ensures sofar + Remaining(Parts(v, level, st), Count(v), close, level, st.pretty) == all
    decreases v, 0, 2
  {
    hide Remaining, Indent, LineBreak, Parts, Entry, Holds;
    next, sofar := pos, done;
    var i := 0;
    while i < Count(v)
      invariant 0 <= i <= Count(v) && next == |sofar| && Holds(buf, sofar)
      invariant sofar + Remaining(Parts(v, level, st), i, close, level, st.pretty) == all
    {
      RemainingStep(sofar, Parts(v, level, st), i, close, level, st.pretty);
      next, sofar := SerializeEntry(v, i, buf, next, level, st, sofar);
      i := i + 1;
    }
  }

  lemma RemainingEnd(done: Bytes, parts: seq<Bytes>, close: byte, level: nat, pretty: bool)
    ensures done + Remaining(parts, |parts|, close, level, pretty) == (done + Indent(level, pretty)) + [close]
  {
    hide Indent;
  }

  method SerializeLineBreak(buf: array?<byte>, pos: nat, pretty: bool, ghost done: Bytes)
    returns (next: nat, ghost sofar: Bytes)
    requires pos == |done| && Holds(buf, done) && Room(buf, pos + |LineBreak(pretty)|)
    modifies if buf == null then {} else {buf}
    ensures sofar == done + LineBreak(pretty) && next == |sofar| && Holds(buf, sofar)
  {
    sofar := done + LineBreak(pretty);
    if pretty {
      next := Append(buf, pos, [NEWLINE], done);
    } else {
      next := pos;
    }
  }

  method SerializeIndent(buf: array?<byte>, pos: nat, level: nat, pretty: bool, ghost done: Bytes)
    returns (next: nat, ghost sofar: Bytes)
    requires pos == |done| && Holds(buf, done) && Room(buf, pos + |Indent(level, pretty)|)
    modifies if buf == null then {} else {buf}
    ensures sofar == done + Indent(level, pretty) && next == |sofar| && Holds(buf, sofar)
  {
    sofar := done + Indent(level, pretty);
    if pretty {
      next := AppendIndent(buf, pos, level, done);
    } else {
      next := pos;
    }
  }

  /** One turn of the loop over the parts. */
  method SerializeEntry(v: Value, i: nat, buf: array?<byte>, pos: nat, level: nat, st: Style, ghost done: Bytes)
    returns (next: nat, ghost sofar: Bytes)
    requires i < Count(v)
    requires pos == |done| && Holds(buf, done) && Room(buf, pos + |Entry(Parts(v, level, st), i, level, st.pretty)|)
    modifies if buf == null then {} else {buf}
    ensures sofar == done + Entry(Parts(v, level, st), i, level, st.pretty) && next == |sofar| && Holds(buf, sofar)
    decreases v, 0, 1
  {
    hide Parts, Indent, LineBreak, Holds;
    ghost var part := Parts(v, level, st)[i];
    next, sofar := SerializeIndent(buf, pos, level + 1, st.pretty, done);
    next := SerializePart(v, i, buf, next, level, st, sofar);
    sofar := sofar + part;
    if i < Count(v) - 1 {
      next := Append(buf, next, [COMMA], sofar);
      sofar := sofar + [COMMA];
    }
    next, sofar := SerializeLineBreak(buf, next, st.pretty, sofar);
    assert sofar == done + Entry(Parts(v, level, st), i, level, st.pretty);
  }

  lemma PartOf(v: Value, i: nat, level: nat, st: Style)
    requires i < Count(v)
    ensures v.Arr? ==> Parts(v, level, st)[i] == Text(v.items[i], level + 1, st)
    ensures v.Obj? ==> var m := v.members[i];
                       Parts(v, level, st)[i] == MemberPrefix(m.key, st) + Text(m.value, level + 1, st)
  {
    hide MemberPrefix, Text;
  }

  method SerializePrefix(key: Bytes, buf: array?<byte>, pos: nat, st: Style, ghost done: Bytes) returns (next: nat)
    requires pos == |done| && Holds(buf, done) && Room(buf, pos + |MemberPrefix(key, st)|)
    modifies if buf == null then {} else {buf}
    ensures next == |done + MemberPrefix(key, st)| && Holds(buf, done + MemberPrefix(key, st))
  {
    hide Quote, Holds;
    ghost var q := Quote(key, st.escapeSlashes);
    next := SerializeString(key, st.escapeSlashes, buf, pos, done);
    next := Append(buf, next, [COLON], done + q);
    if st.pretty {
      next := Append(buf, next, [SPACE], done + q + [COLON]);
      assert done + q + [COLON] + [SPACE] == done + MemberPrefix(key, st);
    } else {
      assert done + q + [COLON] == done + MemberPrefix(key, st);
    }
  }

  method SerializePart(v: Value, i: nat, buf: array?<byte>, pos: nat, level: nat, st: Style, ghost done: Bytes)
    returns (next: nat)
    requires i < Count(v)
    requires pos == |done| && Holds(buf, done) && Room(buf, pos + |Parts(v, level, st)[i]|)
    modifies if buf == null then {} else {buf}
    ensures next == |done + Parts(v, level, st)[i]| && Holds(buf, done + Parts(v, level, st)[i])
    decreases v, 0, 0
  {
    hide Parts, Text, MemberPrefix, Holds;
    PartOf(v, i, level, st);
    if v.Arr? {
      next := Serialize(v.items[i], buf, pos, level + 1, st, done);
    } else {
      var m := v.members[i];
      ghost var prefix := MemberPrefix(m.key, st);
      next := SerializePrefix(m.key, buf, pos, st, done);
      next := Serialize(m.value, buf, next, level + 1, st, done + prefix);
      assert done + prefix + Text(m.value, level + 1, st) == done + Parts(v, level, st)[i];
    }
  }

  /** json_serialization_size: one more than the length of the printed form. */
  method SerializationSize(v: Value, st: Style) returns (size: nat)
    ensures size == |Text(v, 0, st)| + 1
  {
    var written := Serialize(v, null, 0, 0, st, []);
    size := written + 1;
  }

  /**
   json_serialize_to_string: the second pass fills a buffer of exactly that size, with the terminator
   as its last byte.
   */
  method SerializeToString(v: Value, st: Style) returns (buffer: Bytes)
    ensures buffer == Text(v, 0, st) + [0]
  {
    var size := SerializationSize(v, st);
    var buf := new byte[size];
    var written := Serialize(v, buf, 0, 0, st, []);
    assert [] + Text(v, 0, st) == Text(v, 0, st);
    buffer := buf[..];
    assert buffer == buf[..written] + [buf[written]];
  }
}
