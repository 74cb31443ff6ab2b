/**
 The flattened device tree inside the SPL: the structure walk of the preloader
 tool, and the edit that shortens the boot-order property.
 */
module Fdt {
  import opened Bytes
  import opened Binary
  import opened Utf8

  const MAGIC: Bytes := [0xD0, 0x0D, 0xFE, 0xED]
  const SEPARATOR: byte := 0x2F

  datatype Prop = Prop(path: Bytes, name: Bytes, data: Bytes, at: nat)

  /** One token: on to the next position, the end of the tree, or a failure. */
  datatype Step = Next(p: nat, stack: seq<Bytes>, prop: Option<Prop>) | End | Fail(crash: bool)

  /** "/" followed by the nonempty node names joined by "/". */
  function PathOf(stack: seq<Bytes>): Bytes { [SEPARATOR] + JoinNames(stack) }

  function JoinNames(stack: seq<Bytes>): Bytes {
    if stack == [] then []
    else
      var n := |stack| - 1;
      var front, last := JoinNames(stack[..n]), stack[n];
      if last == [] then front
      else if forall i :: 0 <= i < n ==> stack[i] == [] then last
      else front + [SEPARATOR] + last
  }

  /** One turn of the loop of _walk. */
  function TokenStep(blob: Bytes, strings: Bytes, p: nat, stack: seq<Bytes>): (s: Step)
    ensures s.Next? ==> s.p >= p + 4 && (p % 4 == 0 ==> s.p % 4 == 0)
  {
    if p + 4 > |blob| then Fail(true)
    else
      var token := U32be(blob, p);
      if token == 1 then
        match IndexOf(blob, 0, p + 4)
        case None => Fail(true)
        case Some(z) =>
          if ValidUtf8(blob[p + 4..z]) then Next(Align4(z + 1), stack + [blob[p + 4..z]], None) else Fail(true)
      else if token == 2 then
        if stack == [] then Fail(false) else Next(p + 4, stack[..|stack| - 1], None)
      else if token == 3 then PropertyStep(blob, strings, p, stack)
      else if token == 4 then Next(p + 4, stack, None)
      else if token == 9 then End
      else Fail(false)
  }

  function PropertyStep(blob: Bytes, strings: Bytes, p: nat, stack: seq<Bytes>): (s: Step)
    ensures s.Next? ==> s.p >= p + 12 && s.p % 4 == 0
  {
    if p + 12 > |blob| then Fail(true)
    else
      var length, nameoff := U32be(blob, p + 4), U32be(blob, p + 8);
      if nameoff >= |strings| then Fail(false)
      else
        match IndexOf(strings, 0, nameoff)
        case None => Fail(true)
        case Some(z) =>
          var name := strings[nameoff..z];
          if !ValidUtf8(name) then Fail(true)
          else
            var end := p + 12 + length;
            var data := blob[p + 12..if end <= |blob| then end else |blob|];
            Next(Align4(end), stack, Some(Prop(PathOf(stack), name, data, p)))
  }

  function Listed(prop: Option<Prop>): seq<Prop> {
    if prop.Some? then [prop.value] else []
  }

  /** The properties the walk lists from position p on. */
  function WalkFrom(blob: Bytes, strings: Bytes, p: nat, end: nat, stack: seq<Bytes>): Result<seq<Prop>>
    decreases if p < end then end - p else 0
  {
    if p >= end then Exit
    else match TokenStep(blob, strings, p, stack)
      case Fail(crash) => if crash then Crash else Exit
      case End => Ok([])
      case Next(q, stack', prop) =>
        match WalkFrom(blob, strings, q, end, stack')
        case Ok(rest) => Ok(Listed(prop) + rest)
        case Exit => Exit
        case Crash => Crash
  }

  /** A header field, by its index. */
  function Field(blob: Bytes, i: nat): nat
    requires i < 10 && |blob| >= 40
  {
    U32be(blob, 4 * i)
  }

  const TOTAL_SIZE: nat := 1
  const OFF_STRUCT: nat := 2
  const OFF_STRINGS: nat := 3
  const SIZE_STRINGS: nat := 8
  const SIZE_STRUCT: nat := 9

  predicate HasHeader(blob: Bytes) {
    && |blob| >= 40 && blob[..4] == MAGIC
    && Field(blob, TOTAL_SIZE) == |blob|
    && Field(blob, OFF_STRUCT) + Field(blob, SIZE_STRUCT) <= |blob|
    && Field(blob, OFF_STRINGS) + Field(blob, SIZE_STRINGS) <= |blob|
  }

  function Strings(blob: Bytes): Bytes
    requires HasHeader(blob)
  {
    blob[Field(blob, OFF_STRINGS)..Field(blob, OFF_STRINGS) + Field(blob, SIZE_STRINGS)]
  }

  /** _walk: the listed properties. */
  function Walk(blob: Bytes): Result<seq<Prop>> {
    if !HasHeader(blob) then Exit
    else
      var start := Field(blob, OFF_STRUCT);
      WalkFrom(blob, Strings(blob), start, start + Field(blob, SIZE_STRUCT), [])
  }

  /** _walk as its loop. */
  method WalkBlob(blob: Bytes) returns (r: Result<seq<Prop>>)
    ensures r == Walk(blob)
  {
    hide TokenStep;
    if !HasHeader(blob) {
      return Exit;
    }
    var strings := Strings(blob);
    var p := Field(blob, OFF_STRUCT);
    var end := p + Field(blob, SIZE_STRUCT);
    var stack, props: seq<Prop> := [], [];
    ghost var start := p;
    assert AddProps([], WalkFrom(blob, strings, p, end, [])) == WalkFrom(blob, strings, p, end, []) by {
      AddNothing(WalkFrom(blob, strings, p, end, []));
    }
    while p < end
      invariant AddProps(props, WalkFrom(blob, strings, p, end, stack)) == WalkFrom(blob, strings, start, end, [])
      decreases end - p
    {
      var s := TokenStep(blob, strings, p, stack);
      match s
      case Fail(crash) =>
        return if crash then Crash else Exit;
      case End =>
        assert props + [] == props;
        return Ok(props);
      case Next(q, stack', prop) =>
        AddTwice(props, Listed(prop), WalkFrom(blob, strings, q, end, stack'));
        props := props + Listed(prop);
        p, stack := q, stack';
    }
    r := Exit;
  }

  function AddProps(front: seq<Prop>, r: Result<seq<Prop>>): Result<seq<Prop>> {
    if r.Ok? then Ok(front + r.value) else r
  }

  lemma AddNothing(r: Result<seq<Prop>>)
    ensures AddProps([], r) == r
  {
    if r.Ok? { assert [] + r.value == r.value; }
  }

  lemma AddTwice(a: seq<Prop>, b: seq<Prop>, r: Result<seq<Prop>>)
    ensures AddProps(a, AddProps(b, r)) == AddProps(a + b, r)
  {
    if r.Ok? { assert a + (b + r.value) == (a + b) + r.value; }
  }

  // ---- Moving a stretch of the structure block ----------------------------

  function MovedTo(prop: Option<Prop>, at: nat): Option<Prop> {
    if prop.None? then None else Some(prop.value.(at := at))
  }

  lemma NodeStepMoves(a: Bytes, p: nat, b: Bytes, q: nat, strings: Bytes, stack: seq<Bytes>)
    requires p % 4 == 0 && q % 4 == 0
    requires p + 4 <= |a| && U32be(a, p) == 1
    requires var s := TokenStep(a, strings, p, stack); s.Next? && Same(a, p, b, q, s.p - p)
    ensures var s := TokenStep(a, strings, p, stack);
            TokenStep(b, strings, q, stack) == Next(q + (s.p - p), s.stack, MovedTo(s.prop, q))
  {
    hide ValidUtf8, IndexOf, Align4, Same, U32be;
    var s := TokenStep(a, strings, p, stack);
    var n := s.p - p;
    var z := IndexOf(a, 0, p + 4).value;
    SameIndexOf(a, p, b, q, n, 0, 4);
    SameWord(a, p, b, q, n, 0);
    SameSlice(a, p, b, q, n, 4, z - p - 4);
    AlignMoves(z + 1, p, q);
  }

  lemma SameWord(a: Bytes, i: nat, b: Bytes, j: nat, n: nat, from: nat)
    requires Same(a, i, b, j, n) && from + 4 <= n
    ensures i + from + 4 <= |a| && j + from + 4 <= |b| && U32be(a, i + from) == U32be(b, j + from)
  {
    hide U32be;
    SamePart(a, i, b, j, n, from, 4);
    SameField(a, i + from, b, j + from);
  }

  lemma SameSlice(a: Bytes, i: nat, b: Bytes, j: nat, n: nat, from: nat, m: nat)
    requires Same(a, i, b, j, n) && from + m <= n
    ensures i + from + m <= |a| && j + from + m <= |b| && a[i + from..i + from + m] == b[j + from..j + from + m]
  {
    SamePart(a, i, b, j, n, from, m);
  }

  lemma PropertyStepMoves(a: Bytes, p: nat, b: Bytes, q: nat, strings: Bytes, stack: seq<Bytes>)
    requires p % 4 == 0 && q % 4 == 0
    requires var s := PropertyStep(a, strings, p, stack); s.Next? && Same(a, p, b, q, s.p - p)
    ensures var s := PropertyStep(a, strings, p, stack);
            PropertyStep(b, strings, q, stack) == Next(q + (s.p - p), s.stack, MovedTo(s.prop, q))
  {
    hide ValidUtf8, IndexOf, Align4, Same, U32be, PathOf;
    var s := PropertyStep(a, strings, p, stack);
    var n := s.p - p;
    var length := U32be(a, p + 4);
    SameWord(a, p, b, q, n, 4);
    SameWord(a, p, b, q, n, 8);
    AlignMoves(p + 12 + length, p, q);
    SameSlice(a, p, b, q, n, 12, length);
  }

  /** A token that moves together with its bytes means the same at its new position. */
  lemma TokenStepMoves(a: Bytes, p: nat, b: Bytes, q: nat, strings: Bytes, stack: seq<Bytes>)
    requires p % 4 == 0 && q % 4 == 0
    requires var s := TokenStep(a, strings, p, stack); s.Next? && Same(a, p, b, q, s.p - p)
    ensures var s := TokenStep(a, strings, p, stack);
            TokenStep(b, strings, q, stack) == Next(q + (s.p - p), s.stack, MovedTo(s.prop, q))
  {
    hide PropertyStep, Same, U32be;
    var s := TokenStep(a, strings, p, stack);
    SameWord(a, p, b, q, s.p - p, 0);
    if U32be(a, p) == 1 {
      NodeStepMoves(a, p, b, q, strings, stack);
    } else if U32be(a, p) == 3 {
      PropertyStepMoves(a, p, b, q, strings, stack);
    }
  }

  /** A listed property without its position. */
  datatype Listing = Listing(path: Bytes, name: Bytes, data: Bytes)

  function Content(props: seq<Prop>): (entries: seq<Listing>)
    ensures |entries| == |props|
  {
    seq(|props|, i requires 0 <= i < |props| => Listing(props[i].path, props[i].name, props[i].data))
  }

  lemma ContentOfSum(a: seq<Prop>, b: seq<Prop>)
    ensures Content(a + b) == Content(a) + Content(b)
  {
  }

  /** A tail of the blob that moves as a whole lists the same properties. */
  lemma {:induction false} WalkMoves(a: Bytes, p: nat, b: Bytes, q: nat, strings: Bytes, end: nat, stack: seq<Bytes>)
    requires p % 4 == 0 && q % 4 == 0 && p <= end <= |a| && Same(a, p, b, q, |a| - p)
    requires WalkFrom(a, strings, p, end, stack).Ok?
    ensures var r := WalkFrom(b, strings, q, q + (end - p), stack);
            r.Ok? && Content(r.value) == Content(WalkFrom(a, strings, p, end, stack).value)
    decreases end - p
  {
    hide TokenStep, Same, U32be;
    var s := TokenStep(a, strings, p, stack);
    if s.End? {
      EndMoves(a, p, b, q, strings, stack);
    } else {
      SamePart(a, p, b, q, |a| - p, 0, s.p - p);
      TokenStepMoves(a, p, b, q, strings, stack);
      SamePart(a, p, b, q, |a| - p, s.p - p, |a| - s.p);
      WalkMoves(a, s.p, b, q + (s.p - p), strings, end, s.stack);
      ContentOfSum(Listed(s.prop), WalkFrom(a, strings, s.p, end, s.stack).value);
      ContentOfSum(Listed(MovedTo(s.prop, q)), WalkFrom(b, strings, q + (s.p - p), q + (end - p), s.stack).value);
      assert Content(Listed(MovedTo(s.prop, q))) == Content(Listed(s.prop));
    }
  }

  lemma EndMoves(a: Bytes, p: nat, b: Bytes, q: nat, strings: Bytes, stack: seq<Bytes>)
    requires p <= |a| && Same(a, p, b, q, |a| - p) && TokenStep(a, strings, p, stack).End?
    ensures TokenStep(b, strings, q, stack).End?
  {
    SameWord(a, p, b, q, |a| - p, 0);
  }

  lemma {:induction false} PropsAhead(blob: Bytes, strings: Bytes, p: nat, end: nat, stack: seq<Bytes>, k: nat)
    requires WalkFrom(blob, strings, p, end, stack).Ok? && k < |WalkFrom(blob, strings, p, end, stack).value|
    ensures p <= WalkFrom(blob, strings, p, end, stack).value[k].at < end
    decreases if p < end then end - p else 0
  {
    hide TokenStep;
    var s := TokenStep(blob, strings, p, stack);
    if s.Next? {
      StepListsHere(blob, strings, p, stack);
      if k >= |Listed(s.prop)| {
        PropsAhead(blob, strings, s.p, end, s.stack, k - |Listed(s.prop)|);
      }
    }
  }

  lemma StepListsHere(blob: Bytes, strings: Bytes, p: nat, stack: seq<Bytes>)
    requires TokenStep(blob, strings, p, stack).Next?
    ensures var prop := TokenStep(blob, strings, p, stack).prop;
            prop.Some? ==> prop.value.at == p && p + 4 <= |blob| && U32be(blob, p) == 3
  {
    hide ValidUtf8, U32be;
  }

  // ---- Replacing the data of one property ---------------------------------

  function DataEnd(blob: Bytes, at: nat): nat
    requires at + 8 <= |blob|
  {
    Align4(at + 12 + U32be(blob, at + 4))
  }

  /** b is a with the data of the property at `at` replaced by data and everything behind it moved along. */
  predicate DataReplaced(a: Bytes, b: Bytes, at: nat, data: Bytes) {
    && at % 4 == 0 && at + 12 <= |a| && at + 12 + |data| <= |b|
    && U32be(b, at) == 3 && U32be(b, at + 4) == |data| && U32be(b, at + 8) == U32be(a, at + 8)
    && b[at + 12..at + 12 + |data|] == data
    && DataEnd(a, at) <= |a|
    && Same(a, DataEnd(a, at), b, Align4(at + 12 + |data|), |a| - DataEnd(a, at))
  }

  lemma ReplacedStep(a: Bytes, b: Bytes, strings: Bytes, at: nat, stack: seq<Bytes>, data: Bytes)
    requires DataReplaced(a, b, at, data) && U32be(a, at) == 3
    requires TokenStep(a, strings, at, stack).Next?
    ensures var s := TokenStep(a, strings, at, stack);
            && s.p == DataEnd(a, at) && s.prop.Some?
            && TokenStep(b, strings, at, stack) ==
               Next(Align4(at + 12 + |data|), s.stack, Some(s.prop.value.(data := data)))
  {
    hide U32be, ValidUtf8, PathOf, Same, IndexOf;
  }

  /** Where the walk of the edited blob ends, when the walk of the original ends at `end`. */
  function NewEnd(a: Bytes, at: nat, data: Bytes, end: nat): nat
    requires at + 8 <= |a| && DataEnd(a, at) <= end
  {
    Align4(at + 12 + |data|) + (end - DataEnd(a, at))
  }

  /** The k-th property of the walk from p is the one replaced. */
  predicate ReplacedAhead(a: Bytes, b: Bytes, strings: Bytes, p: nat, end: nat, stack: seq<Bytes>, k: nat,
                          data: Bytes) {
    && p % 4 == 0 && end <= |a|
    && WalkFrom(a, strings, p, end, stack).Ok? && k < |WalkFrom(a, strings, p, end, stack).value|
    && var at := WalkFrom(a, strings, p, end, stack).value[k].at;
       p <= at && at + 12 <= |a| && Same(a, p, b, p, at - p) && DataReplaced(a, b, at, data) && DataEnd(a, at) <= end
  }

  function Edited(props: seq<Prop>, k: nat, data: Bytes): seq<Listing>
    requires k < |props|
  {
    Content(props)[k := Content(props)[k].(data := data)]
  }

  lemma EditedHead(prop: Prop, rest: seq<Prop>, data: Bytes)
    ensures Edited([prop] + rest, 0, data) == Content([prop.(data := data)]) + Content(rest)
  {
  }

  lemma EditedTail(front: seq<Prop>, rest: seq<Prop>, k: nat, data: Bytes)
    requires |front| <= k < |front| + |rest|
    ensures Edited(front + rest, k, data) == Content(front) + Edited(rest, k - |front|, data)
  {
  }

  /** Walking the edited blob lists the same properties in the same order, with only that one's data changed. */
  lemma {:induction false} ReplacedWalk(a: Bytes, b: Bytes, strings: Bytes, p: nat, end: nat, stack: seq<Bytes>,
                                        k: nat, data: Bytes)
    requires ReplacedAhead(a, b, strings, p, end, stack, k, data)
    ensures var props := WalkFrom(a, strings, p, end, stack).value;
            var r := WalkFrom(b, strings, p, NewEnd(a, props[k].at, data, end), stack);
            r.Ok? && Content(r.value) == Edited(props, k, data)
    decreases if p < end then end - p else 0
  {
    hide TokenStep, Same, U32be, DataEnd, DataReplaced, Content, Edited, Align4;
    var props := WalkFrom(a, strings, p, end, stack).value;
    var s := TokenStep(a, strings, p, stack);
    var rest := WalkFrom(a, strings, s.p, end, s.stack).value;
    StepListsHere(a, strings, p, stack);
    if k < |Listed(s.prop)| {
      ReplacedHere(a, b, strings, p, end, stack, data);
      EditedHead(s.prop.value, rest, data);
    } else {
      ReplacedLater(a, b, strings, p, end, stack, k, data);
      var k' := k - |Listed(s.prop)|;
      ReplacedWalk(a, b, strings, s.p, end, s.stack, k', data);
      EditedTail(Listed(s.prop), rest, k, data);
      ContentOfSum(Listed(s.prop), WalkFrom(b, strings, s.p, NewEnd(a, props[k].at, data, end), s.stack).value);
    }
  }

  lemma ReplacedHere(a: Bytes, b: Bytes, strings: Bytes, p: nat, end: nat, stack: seq<Bytes>, data: Bytes)
    requires ReplacedAhead(a, b, strings, p, end, stack, 0, data)
    requires TokenStep(a, strings, p, stack).Next? && TokenStep(a, strings, p, stack).prop.Some?
    ensures var s := TokenStep(a, strings, p, stack);
            var r := WalkFrom(b, strings, p, NewEnd(a, p, data, end), stack);
            r.Ok? && Content(r.value) ==
            Content([s.prop.value.(data := data)]) + Content(WalkFrom(a, strings, s.p, end, s.stack).value)
  {
    hide TokenStep, Same, U32be, Content, Align4;
    StepListsHere(a, strings, p, stack);
    TailMoves(a, b, strings, p, end, stack, data);
    var s := TokenStep(a, strings, p, stack);
    var rest' := WalkFrom(b, strings, Align4(p + 12 + |data|), NewEnd(a, p, data, end), s.stack).value;
    ContentOfSum([s.prop.value.(data := data)], rest');
  }

  lemma ReplacedLater(a: Bytes, b: Bytes, strings: Bytes, p: nat, end: nat, stack: seq<Bytes>, k: nat, data: Bytes)
    requires ReplacedAhead(a, b, strings, p, end, stack, k, data)
    requires TokenStep(a, strings, p, stack).Next? && |Listed(TokenStep(a, strings, p, stack).prop)| <= k
    ensures var s := TokenStep(a, strings, p, stack);
            && TokenStep(b, strings, p, stack) == s
            && ReplacedAhead(a, b, strings, s.p, end, s.stack, k - |Listed(s.prop)|, data)
            && p < NewEnd(a, WalkFrom(a, strings, p, end, stack).value[k].at, data, end)
  {
    hide TokenStep, Same, U32be, DataReplaced;
    var s := TokenStep(a, strings, p, stack);
    var at := WalkFrom(a, strings, p, end, stack).value[k].at;
    PropsAhead(a, strings, s.p, end, s.stack, k - |Listed(s.prop)|);
    SamePart(a, p, b, p, at - p, 0, s.p - p);
    StepListsHere(a, strings, p, stack);
    TokenStepMoves(a, p, b, p, strings, stack);
    SamePart(a, p, b, p, at - p, s.p - p, at - s.p);
  }

  predicate SameListing(r: Result<seq<Prop>>, s: Result<seq<Prop>>) {
    r.Ok? && s.Ok? && Content(r.value) == Content(s.value)
  }

  lemma TailMoves(a: Bytes, b: Bytes, strings: Bytes, at: nat, end: nat, stack: seq<Bytes>, data: Bytes)
    requires DataReplaced(a, b, at, data) && U32be(a, at) == 3 && DataEnd(a, at) <= end <= |a|
    requires var s := TokenStep(a, strings, at, stack);
             s.Next? && s.prop.Some? && WalkFrom(a, strings, s.p, end, s.stack).Ok?
    ensures var s := TokenStep(a, strings, at, stack);
            var q := Align4(at + 12 + |data|);
            var r := WalkFrom(b, strings, q, q + (end - DataEnd(a, at)), s.stack);
            && TokenStep(b, strings, at, stack) == Next(q, s.stack, Some(s.prop.value.(data := data)))
            && s.p == DataEnd(a, at) && q < q + (end - DataEnd(a, at))
            && SameListing(r, WalkFrom(a, strings, s.p, end, s.stack))
  {
    hide U32be, TokenStep, Same;
    ReplacedStep(a, b, strings, at, stack, data);
    var s := TokenStep(a, strings, at, stack);
    WalkMoves(a, s.p, b, Align4(at + 12 + |data|), strings, end, s.stack);
  }

  /** Where the bytes of a listed property are. */
  predicate PropertyAt(blob: Bytes, prop: Prop, end: nat) {
    var at := prop.at;
    && at % 4 == 0 && at + 12 <= |blob| && U32be(blob, at) == 3
    && |prop.data| == U32be(blob, at + 4) && DataEnd(blob, at) < end
  }

  lemma PropertyStepAt(blob: Bytes, strings: Bytes, p: nat, end: nat, stack: seq<Bytes>)
    requires p % 4 == 0 && end <= |blob|
    requires var s := TokenStep(blob, strings, p, stack); s.Next? && s.prop.Some? && s.p < end
    ensures PropertyAt(blob, TokenStep(blob, strings, p, stack).prop.value, end)
  {
    hide ValidUtf8, U32be, IndexOf, PathOf;
  }

  lemma {:induction false} ListedAt(blob: Bytes, strings: Bytes, p: nat, end: nat, stack: seq<Bytes>, k: nat)
    requires p % 4 == 0 && end <= |blob|
    requires WalkFrom(blob, strings, p, end, stack).Ok? && k < |WalkFrom(blob, strings, p, end, stack).value|
    ensures PropertyAt(blob, WalkFrom(blob, strings, p, end, stack).value[k], end)
    decreases if p < end then end - p else 0
  {
    hide TokenStep, PropertyAt;
    var s := TokenStep(blob, strings, p, stack);
    if k < |Listed(s.prop)| {
      PropertyStepAt(blob, strings, p, end, stack);
    } else {
      ListedAt(blob, strings, s.p, end, s.stack, k - |Listed(s.prop)|);
    }
  }
}
