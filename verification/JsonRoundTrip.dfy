/** Parsing the printed form of a value returns the value, exactly up to the nesting limit. */
module JsonRoundTrip {
  import opened Bytes
  import opened JsonString
  import opened JsonText
  import opened JsonParser

  // ---- Which values are meant ---------------------------------------------

  function Depth(v: Value): nat
    decreases v, 0
  {
    match v
    case Arr(items) => DepthOfItems(items)
    case Obj(members) => DepthOfMembers(members)
    case _ => 0
  }

  function DepthOfItems(items: seq<Value>): nat
    decreases items, |items|
  {
    if items == [] then 0
    else var n := |items| - 1; var a, b := Depth(items[n]) + 1, DepthOfItems(items[..n]); if a > b then a else b
  }

  function DepthOfMembers(members: seq<Member>): nat
    decreases members, |members|
  {
    if members == [] then 0
    else
      var n := |members| - 1;
      var a, b := Depth(members[n].value) + 1, DepthOfMembers(members[..n]);
      if a > b then a else b
  }

  /** No part of a value parsed at this nesting goes past the limit. */
  predicate Fits(v: Value, nesting: nat)
    decreases v
  {
    && nesting <= MAX_NESTING
    && (v.Arr? ==> forall i :: 0 <= i < |v.items| ==> Fits(v.items[i], nesting + 1))
    && (v.Obj? ==> forall i :: 0 <= i < |v.members| ==> Fits(v.members[i].value, nesting + 1))
  }

  /** The bytes that can follow a number in printed text. */
  predicate Delimiter(c: byte) {
    c == 0 || c == COMMA || c == CLOSE_BRACKET || c == CLOSE_BRACE || c == NEWLINE
  }

  /** Printing and reading this number undo each other. */
  ghost predicate NumberRoundTrips(bits: nat, st: Style, read: NumberReader) {
    var w := st.format(bits);
    && w != [] && StartsNumber(w[0]) && IsDecimal(w)
    && forall rest: Bytes :: Delimiter(At(rest, 0)) ==> read(w + rest) == Strtod(bits, |w|, false, false, true)
  }

  predicate DistinctKeys(members: seq<Member>) {
    forall i, j :: 0 <= i < j < |members| ==> members[i].key != members[j].key
  }

  /** Object keys are distinct and free of NUL, and every number survives its text. */
  ghost predicate Printable(v: Value, st: Style, read: NumberReader)
    decreases v
  {
    match v
    case Num(bits) => NumberRoundTrips(bits, st, read)
    case Arr(items) => forall i :: 0 <= i < |items| ==> Printable(items[i], st, read)
    case Obj(members) =>
      && DistinctKeys(members)
      && forall i :: 0 <= i < |members| ==> 0 !in members[i].key && Printable(members[i].value, st, read)
    case _ => true
  }

  // ---- Spaces and separators ----------------------------------------------

  lemma {:induction false} SpacesSkipped(t: Bytes, p: nat, w: Bytes)
    requires HasAt(t, p, w) && (forall i :: 0 <= i < |w| ==> IsSpace(w[i])) && !IsSpace(At(t, p + |w|))
    ensures SkipSpaces(t, p) == p + |w|
    decreases |w|
  {
    if w != [] {
      HasAtIndex(t, p, w, 0);
      assert w == [w[0]] + w[1..];
      HasAtSplit(t, p, [w[0]], w[1..]);
      SpacesSkipped(t, p + 1, w[1..]);
    }
  }

  lemma GapIsSpace(level: nat, pretty: bool)
    ensures forall i :: 0 <= i < |Gap(level, pretty)| ==> IsSpace(Gap(level, pretty)[i])
  {
  }

  lemma AfterLast(t: Bytes, q: nat, close: byte, level: nat, pretty: bool)
    requires close == CLOSE_BRACKET || close == CLOSE_BRACE
    requires HasAt(t, q, Gap(level, pretty) + [close])
    ensures AfterElement(t, q, close) == Closed(q + |Gap(level, pretty)| + 1)
  {
    var gap := Gap(level, pretty);
    HasAtSplit(t, q, gap, [close]);
    HasAtIndex(t, q + |gap|, [close], 0);
    GapIsSpace(level, pretty);
    SpacesSkipped(t, q, gap);
  }

  lemma AfterComma(t: Bytes, q: nat, close: byte, level: nat, pretty: bool, w: Bytes)
    requires close == CLOSE_BRACKET || close == CLOSE_BRACE
    requires HasAt(t, q, [COMMA] + Gap(level, pretty) + w) && w != [] && StartsValue(w[0])
    ensures AfterElement(t, q, close) == More(q + 1 + |Gap(level, pretty)|)
    ensures HasAt(t, q + 1 + |Gap(level, pretty)|, w)
  {
    hide Gap, HasAt;
    var gap := Gap(level, pretty);
    HasAtSplit(t, q, [COMMA] + gap, w);
    HasAtSplit(t, q, [COMMA], gap);
    HasAtIndex(t, q, [COMMA], 0);
    HasAtIndex(t, q + 1 + |gap|, w, 0);
    GapIsSpace(level, pretty);
    assert SkipSpaces(t, q) == q;
    SpacesSkipped(t, q + 1, gap);
  }

  /** A byte no separator, space, bracket end or terminator can be mistaken for. */
  predicate StartsValue(c: byte) {
    c != 0 && !IsSpace(c) && c != CLOSE_BRACKET && c != CLOSE_BRACE && c != COMMA
  }

  lemma TextStarts(v: Value, level: nat, st: Style, read: NumberReader)
    requires Printable(v, st, read)
    ensures Text(v, level, st) != [] && StartsValue(Text(v, level, st)[0])
  {
    hide Parts, Join, EscapeBytes;
  }

  lemma JoinStarts(parts: seq<Bytes>, gap: Bytes)
    requires parts != [] && parts[0] != []
    ensures Join(parts, gap) != [] && Join(parts, gap)[0] == parts[0][0]
  {
  }

  // ---- Scalars ------------------------------------------------------------

  lemma LiteralParses(t: Bytes, p: nat, v: Value)
    requires v.Null? || v.Bool?
    requires HasAt(t, p, if v.Null? then NULL_TOKEN else if v.b then TRUE_TOKEN else FALSE_TOKEN)
    ensures ParseLiteral(t, p) == Some((v, p + if v.Bool? && !v.b then 5 else 4))
  {
    var w := if v.Null? then NULL_TOKEN else if v.b then TRUE_TOKEN else FALSE_TOKEN;
    HasAtIndex(t, p, w, 0);
    assert t[p..][..|w|] == w;
  }

  lemma NumberParses(t: Bytes, p: nat, bits: nat, st: Style, read: NumberReader)
    requires NumberRoundTrips(bits, st, read)
    requires HasAt(t, p, st.format(bits)) && Delimiter(At(t, p + |st.format(bits)|))
    ensures ParseNumber(t, p, read) == Some((Num(bits), p + |st.format(bits)|))
  {
    var w := st.format(bits);
    var rest := t[p + |w|..];
    assert t[p..] == w + rest;
    assert Delimiter(At(rest, 0));
  }

  lemma ScalarParses(t: Bytes, p: nat, v: Value, level: nat, nesting: nat, st: Style, read: NumberReader)
    requires !v.Arr? && !v.Obj? && nesting <= MAX_NESTING
    requires Printable(v, st, read) && HasAt(t, p, Text(v, level, st)) && Delimiter(At(t, p + |Text(v, level, st)|))
    ensures ParseValue(t, p, nesting, read) == Some((v, p + |Text(v, level, st)|))
  {
    hide QuotedString, ParseNumber, ParseLiteral, NumberRoundTrips, EscapeBytes;
    TextStarts(v, level, st, read);
    var w := Text(v, level, st);
    HasAtIndex(t, p, w, 0);
    assert SkipSpaces(t, p) == p;
    match v
    case Num(bits) =>
      assert StartsNumber(w[0]) by { NumberStarts(bits, st, read); }
      NumberParses(t, p, bits, st, read);
    case Str(s) => QuoteDecodes(t, p, s, st.escapeSlashes);
    case _ => LiteralParses(t, p, v);
  }

  lemma NumberStarts(bits: nat, st: Style, read: NumberReader)
    requires NumberRoundTrips(bits, st, read)
    ensures st.format(bits) != [] && StartsNumber(st.format(bits)[0])
  {
  }

  // ---- Containers ---------------------------------------------------------

  /** The text of a container from part i on, closing bracket included. */
  function FromPart(parts: seq<Bytes>, i: nat, close: byte, level: nat, pretty: bool): Bytes
    requires i < |parts|
  {
    Join(parts[i..], Gap(level + 1, pretty)) + (Gap(level, pretty) + [close])
  }

  lemma FromPartStep(parts: seq<Bytes>, i: nat, close: byte, level: nat, pretty: bool)
    requires i < |parts|
    ensures FromPart(parts, i, close, level, pretty) == parts[i] +
            if i == |parts| - 1 then Gap(level, pretty) + [close]
            else [COMMA] + Gap(level + 1, pretty) + FromPart(parts, i + 1, close, level, pretty)
  {
    hide Gap;
    var gap := Gap(level + 1, pretty);
    if i < |parts| - 1 {
      assert parts[i..][1..] == parts[i + 1..];
      assert Join(parts[i..], gap) == parts[i] + [COMMA] + gap + Join(parts[i + 1..], gap);
    }
  }

  lemma EndDelimits(t: Bytes, q: nat, close: byte, level: nat, pretty: bool)
    requires close == CLOSE_BRACKET || close == CLOSE_BRACE
    requires HasAt(t, q, Gap(level, pretty) + [close])
    ensures Delimiter(At(t, q))
  {
    HasAtIndex(t, q, Gap(level, pretty) + [close], 0);
  }

  /** Where part i + 1 starts when part i starts at p. */
  function NextPart(p: nat, parts: seq<Bytes>, i: nat, level: nat, pretty: bool): nat
    requires i < |parts|
  {
    p + |parts[i]| + 1 + |Gap(level + 1, pretty)|
  }

  /** Behind the last part, the separator leads to the end of the container. */
  lemma AfterLastPart(t: Bytes, p: nat, parts: seq<Bytes>, close: byte, level: nat, pretty: bool)
    requires close == CLOSE_BRACKET || close == CLOSE_BRACE
    requires parts != [] && HasAt(t, p, FromPart(parts, |parts| - 1, close, level, pretty))
    ensures var part := parts[|parts| - 1];
            && HasAt(t, p, part) && Delimiter(At(t, p + |part|))
            && AfterElement(t, p + |part|, close) == Closed(p + |FromPart(parts, |parts| - 1, close, level, pretty)|)
  {
    hide FromPart, AfterElement, Gap, HasAt;
    var i := |parts| - 1;
    FromPartStep(parts, i, close, level, pretty);
    HasAtSplit(t, p, parts[i], Gap(level, pretty) + [close]);
    EndDelimits(t, p + |parts[i]|, close, level, pretty);
    AfterLast(t, p + |parts[i]|, close, level, pretty);
  }

  /** Behind any other part, the separator leads to the next part. */
  lemma AfterInnerPart(t: Bytes, p: nat, parts: seq<Bytes>, i: nat, close: byte, level: nat, pretty: bool)
    requires close == CLOSE_BRACKET || close == CLOSE_BRACE
    requires i < |parts| - 1 && parts[i + 1] != [] && StartsValue(parts[i + 1][0])
    requires HasAt(t, p, FromPart(parts, i, close, level, pretty))
    ensures HasAt(t, p, parts[i]) && Delimiter(At(t, p + |parts[i]|))
    ensures var next := NextPart(p, parts, i, level, pretty);
            && AfterElement(t, p + |parts[i]|, close) == More(next)
            && HasAt(t, next, FromPart(parts, i + 1, close, level, pretty))
            && p + |FromPart(parts, i, close, level, pretty)| == next + |FromPart(parts, i + 1, close, level, pretty)|
  {
    hide FromPart, AfterElement, Gap, HasAt, StartsValue;
    FromPartStep(parts, i, close, level, pretty);
    var w := FromPart(parts, i + 1, close, level, pretty);
    FromPartStarts(parts, i + 1, close, level, pretty);
    HasAtSplit(t, p, parts[i], [COMMA] + Gap(level + 1, pretty) + w);
    HasAtIndex(t, p + |parts[i]|, [COMMA] + Gap(level + 1, pretty) + w, 0);
    AfterComma(t, p + |parts[i]|, close, level + 1, pretty, w);
  }

  lemma FromPartStarts(parts: seq<Bytes>, i: nat, close: byte, level: nat, pretty: bool)
    requires i < |parts| && parts[i] != []
    ensures FromPart(parts, i, close, level, pretty) != [] && FromPart(parts, i, close, level, pretty)[0] == parts[i][0]
  {
    hide Gap;
    JoinStarts(parts[i..], Gap(level + 1, pretty));
  }

  lemma PartsStart(v: Value, level: nat, st: Style, read: NumberReader)
    requires Printable(v, st, read)
    ensures forall j :: 0 <= j < Count(v) ==> Parts(v, level, st)[j] != [] && StartsValue(Parts(v, level, st)[j][0])
  {
    hide Parts, Text, EscapeBytes;
    forall j | 0 <= j < Count(v) ensures Parts(v, level, st)[j] != [] && StartsValue(Parts(v, level, st)[j][0]) {
      PartOf(v, j, level, st);
      if v.Arr? { TextStarts(v.items[j], level + 1, st, read); }
    }
  }

  predicate ItemsFit(items: seq<Value>, nesting: nat) {
    forall i :: 0 <= i < |items| ==> Fits(items[i], nesting)
  }

  predicate MembersFit(members: seq<Member>, nesting: nat) {
    forall i :: 0 <= i < |members| ==> Fits(members[i].value, nesting)
  }

  lemma {:induction false} ItemsParse(t: Bytes, p: nat, v: Value, i: nat, level: nat, nesting: nat, st: Style,
                                      read: NumberReader)
    requires v.Arr? && i < |v.items| && Printable(v, st, read)
    requires HasAt(t, p, FromPart(Parts(v, level, st), i, CLOSE_BRACKET, level, st.pretty))
    ensures ParseItems(t, p, nesting, read) ==
            if ItemsFit(v.items[i..], nesting)
            then Some((v.items[i..], p + |FromPart(Parts(v, level, st), i, CLOSE_BRACKET, level, st.pretty)|))
            else None
    decreases v, |v.items| - i
  {
    hide Parts, FromPart, ParseValue, AfterElement, Text, Fits, Gap, StartsValue, Delimiter;
    var parts := Parts(v, level, st);
    PartsStart(v, level, st, read);
    PartOf(v, i, level, st);
    var rest := v.items[i + 1..];
    assert v.items[i..] == [v.items[i]] + rest;
    assert ItemsFit(v.items[i..], nesting) <==> Fits(v.items[i], nesting) && ItemsFit(rest, nesting);
    PartPresent(t, p, parts, i, CLOSE_BRACKET, level, st.pretty);
    if i == |v.items| - 1 {
      AfterLastPart(t, p, parts, CLOSE_BRACKET, level, st.pretty);
      assert rest == [] && v.items[i..] == [v.items[i]];
      TextParses(t, p, v.items[i], level + 1, nesting, st, read);
    } else {
      AfterInnerPart(t, p, parts, i, CLOSE_BRACKET, level, st.pretty);
      TextParses(t, p, v.items[i], level + 1, nesting, st, read);
      ItemsParse(t, NextPart(p, parts, i, level, st.pretty), v, i + 1, level, nesting, st, read);
    }
  }

  /** A part that starts a value leaves the cursor on a byte that is not the terminator. */
  lemma PartPresent(t: Bytes, p: nat, parts: seq<Bytes>, i: nat, close: byte, level: nat, pretty: bool)
    requires i < |parts| && parts[i] != [] && StartsValue(parts[i][0])
    requires HasAt(t, p, FromPart(parts, i, close, level, pretty))
    ensures At(t, p) == parts[i][0] && At(t, p) != 0 && !IsSpace(At(t, p))
    ensures At(t, p) != CLOSE_BRACKET && At(t, p) != CLOSE_BRACE
  {
    hide FromPart;
    FromPartStarts(parts, i, close, level, pretty);
    HasAtIndex(t, p, FromPart(parts, i, close, level, pretty), 0);
  }

  /** An empty printed container opens and closes at once. */
  lemma EmptyOpens(t: Bytes, p: nat, open: byte, close: byte, level: nat, pretty: bool)
    requires HasAt(t, p, Container(open, close, [], level, pretty)) && (open == OPEN_BRACE || open == OPEN_BRACKET)
    requires close == CLOSE_BRACKET || close == CLOSE_BRACE
    ensures SkipSpaces(t, p) == p && At(t, p) == open && SkipSpaces(t, p + 1) == p + 1 && At(t, p + 1) == close
    ensures |Container(open, close, [], level, pretty)| == 2
  {
    HasAtIndex(t, p, [open, close], 0);
    HasAtIndex(t, p, [open, close], 1);
  }

  /** Any other printed container opens onto its first part. */
  lemma FirstPartOpens(t: Bytes, p: nat, open: byte, close: byte, parts: seq<Bytes>, level: nat, pretty: bool)
    requires HasAt(t, p, Container(open, close, parts, level, pretty)) && (open == OPEN_BRACE || open == OPEN_BRACKET)
    requires parts != [] && parts[0] != [] && StartsValue(parts[0][0])
    ensures SkipSpaces(t, p) == p && At(t, p) == open
    ensures var first := p + 1 + |Gap(level + 1, pretty)|;
      && SkipSpaces(t, p + 1) == first && HasAt(t, first, FromPart(parts, 0, close, level, pretty))
      && At(t, first) != CLOSE_BRACKET && At(t, first) != CLOSE_BRACE
      && first + |FromPart(parts, 0, close, level, pretty)| == p + |Container(open, close, parts, level, pretty)|
  {
    hide Gap, FromPart, HasAt, StartsValue, Container;
    var gap, w := Gap(level + 1, pretty), FromPart(parts, 0, close, level, pretty);
    ContainerFromPart(open, close, parts, level, pretty);
    HasAtSplit(t, p, [open] + gap, w);
    HasAtSplit(t, p, [open], gap);
    HasAtIndex(t, p, [open], 0);
    PartPresent(t, p + 1 + |gap|, parts, 0, close, level, pretty);
    GapIsSpace(level + 1, pretty);
    SpacesSkipped(t, p + 1, gap);
  }

  lemma ContainerFromPart(open: byte, close: byte, parts: seq<Bytes>, level: nat, pretty: bool)
    requires parts != []
    ensures Container(open, close, parts, level, pretty) ==
            ([open] + Gap(level + 1, pretty)) + FromPart(parts, 0, close, level, pretty)
  {
    hide Gap;
    assert parts[0..] == parts;
  }

  lemma {:induction false} ArrayParses(t: Bytes, p: nat, v: Value, level: nat, nesting: nat, st: Style,
                                       read: NumberReader)
    requires v.Arr? && nesting <= MAX_NESTING && Printable(v, st, read) && HasAt(t, p, Text(v, level, st))
    ensures ParseValue(t, p, nesting, read) ==
            if Fits(v, nesting) then Some((v, p + |Text(v, level, st)|)) else None
    decreases v, |v.items| + 1
  {
    hide Parts, FromPart, Container, Gap, ParseItems, ParseMembers, StartsValue, HasAt;
    var parts := Parts(v, level, st);
    PartsStart(v, level, st, read);
    if v.items == [] {
      EmptyOpens(t, p, OPEN_BRACKET, CLOSE_BRACKET, level, st.pretty);
    } else {
      FirstPartOpens(t, p, OPEN_BRACKET, CLOSE_BRACKET, parts, level, st.pretty);
      ItemsParse(t, p + 1 + |Gap(level + 1, st.pretty)|, v, 0, level, nesting + 1, st, read);
      assert v.items[0..] == v.items;
    }
  }

  // ---- Objects ------------------------------------------------------------

  /** Spaces in front of a value do not matter. */
  lemma SpacesBeforeValue(t: Bytes, p: nat, q: nat, nesting: nat, read: NumberReader)
    requires p <= |t| && q <= |t| && SkipSpaces(t, p) == SkipSpaces(t, q)
    ensures ParseValue(t, p, nesting, read) == ParseValue(t, q, nesting, read)
  {
    hide ParseItems, ParseMembers, ParseString, ParseNumber, ParseLiteral;
  }

  /** The key and colon of a printed member are read, and the value text follows. */
  lemma PrefixParses(t: Bytes, p: nat, key: Bytes, st: Style, w: Bytes, nesting: nat, read: NumberReader)
    requires HasAt(t, p, MemberPrefix(key, st) + w) && w != [] && StartsValue(w[0])
    ensures QuotedString(t, p) == Some((key, p + |Quote(key, st.escapeSlashes)|))
    ensures var q := p + |Quote(key, st.escapeSlashes)|;
            && SkipSpaces(t, q) == q && At(t, q) == COLON && q + 1 <= |t|
            && HasAt(t, p + |MemberPrefix(key, st)|, w)
            && ParseValue(t, q + 1, nesting, read) == ParseValue(t, p + |MemberPrefix(key, st)|, nesting, read)
  {
    hide Quote, QuotedString, ParseValue, HasAt;
    var quoted := Quote(key, st.escapeSlashes);
    var space: Bytes := if st.pretty then [SPACE] else [];
    HasAtSplit(t, p, MemberPrefix(key, st), w);
    assert MemberPrefix(key, st) == quoted + ([COLON] + space);
    HasAtSplit(t, p, quoted, [COLON] + space);
    QuoteDecodes(t, p, key, st.escapeSlashes);
    var q := p + |quoted|;
    ColonPasses(t, q, space, w);
    SpacesBeforeValue(t, q + 1, q + 1 + |space|, nesting, read);
  }

  lemma ColonPasses(t: Bytes, q: nat, space: Bytes, w: Bytes)
    requires HasAt(t, q, [COLON] + space) && HasAt(t, q + 1 + |space|, w) && w != [] && StartsValue(w[0])
    requires space == [] || space == [SPACE]
    ensures SkipSpaces(t, q) == q && At(t, q) == COLON && q + 1 + |space| <= |t|
    ensures SkipSpaces(t, q + 1) == SkipSpaces(t, q + 1 + |space|)
  {
    hide HasAt;
    HasAtIndex(t, q, [COLON] + space, 0);
    HasAtSplit(t, q, [COLON], space);
    HasAtIndex(t, q + 1 + |space|, w, 0);
    SpacesSkipped(t, q + 1, space);
  }

  lemma KeyIsNew(members: seq<Member>, i: nat)
    requires i < |members| && DistinctKeys(members)
    ensures members[i].key !in KeysOf(members[..i])
  {
  }

  /** A printed member is read back whenever its value is. */
  lemma MemberParses(t: Bytes, p: nat, m: Member, st: Style, w: Bytes, nesting: nat, read: NumberReader)
    requires HasAt(t, p, MemberPrefix(m.key, st) + w) && w != [] && StartsValue(w[0]) && 0 !in m.key
    requires ParseValue(t, p + |MemberPrefix(m.key, st)|, nesting, read) ==
             if Fits(m.value, nesting) then Some((m.value, p + |MemberPrefix(m.key, st) + w|)) else None
    ensures ParseMember(t, p, nesting, read) ==
            if Fits(m.value, nesting) then Some((m, p + |MemberPrefix(m.key, st) + w|)) else None
  {
    hide MemberPrefix, ParseValue, Fits, QuotedString, Quote, StartsValue;
    PrefixParses(t, p, m.key, st, w, nesting, read);
  }

  lemma {:induction false} PartParses(t: Bytes, p: nat, v: Value, i: nat, level: nat, nesting: nat, st: Style,
                                      read: NumberReader)
    requires v.Obj? && i < |v.members| && Printable(v, st, read)
    requires HasAt(t, p, Parts(v, level, st)[i]) && Delimiter(At(t, p + |Parts(v, level, st)[i]|))
    ensures ParseMember(t, p, nesting, read) ==
            if Fits(v.members[i].value, nesting) then Some((v.members[i], p + |Parts(v, level, st)[i]|)) else None
    decreases v, 0
  {
    hide Parts, ParseMember, Text, Fits, StartsValue, Delimiter, MemberPrefix, HasAt;
    var m := v.members[i];
    PartOf(v, i, level, st);
    TextStarts(m.value, level + 1, st, read);
    HasAtSplit(t, p, MemberPrefix(m.key, st), Text(m.value, level + 1, st));
    TextParses(t, p + |MemberPrefix(m.key, st)|, m.value, level + 1, nesting, st, read);
    MemberParses(t, p, m, st, Text(m.value, level + 1, st), nesting, read);
  }

  lemma {:induction false} MembersParse(t: Bytes, p: nat, v: Value, i: nat, level: nat, nesting: nat, st: Style,
                                        read: NumberReader)
    requires v.Obj? && i < |v.members| && Printable(v, st, read)
    requires HasAt(t, p, FromPart(Parts(v, level, st), i, CLOSE_BRACE, level, st.pretty))
    ensures ParseMembers(t, p, nesting, read, v.members[..i]) ==
            if MembersFit(v.members[i..], nesting)
            then Some((v.members, p + |FromPart(Parts(v, level, st), i, CLOSE_BRACE, level, st.pretty)|))
            else None
    decreases v, |v.members| - i
  {
    hide Parts, FromPart, ParseMember, AfterElement, Text, Fits, Gap;
    hide StartsValue, Delimiter, MemberPrefix, HasAt, KeysOf;
    var parts, m := Parts(v, level, st), v.members[i];
    PartsStart(v, level, st, read);
    PartOf(v, i, level, st);
    var rest := v.members[i + 1..];
    assert v.members[i..] == [m] + rest;
    assert MembersFit(v.members[i..], nesting) <==> Fits(m.value, nesting) && MembersFit(rest, nesting);
    assert v.members[..i] + [Member(m.key, m.value)] == v.members[..i + 1];
    KeyIsNew(v.members, i);
    PartPresent(t, p, parts, i, CLOSE_BRACE, level, st.pretty);
    if i == |v.members| - 1 {
      AfterLastPart(t, p, parts, CLOSE_BRACE, level, st.pretty);
    } else {
      AfterInnerPart(t, p, parts, i, CLOSE_BRACE, level, st.pretty);
    }
    PartParses(t, p, v, i, level, nesting, st, read);
    if i == |v.members| - 1 {
      assert rest == [] && v.members[..i + 1] == v.members;
    } else {
      MembersParse(t, NextPart(p, parts, i, level, st.pretty), v, i + 1, level, nesting, st, read);
    }
  }

  lemma {:induction false} ObjectParses(t: Bytes, p: nat, v: Value, level: nat, nesting: nat, st: Style,
                                        read: NumberReader)
    requires v.Obj? && nesting <= MAX_NESTING && Printable(v, st, read) && HasAt(t, p, Text(v, level, st))
    ensures ParseValue(t, p, nesting, read) ==
            if Fits(v, nesting) then Some((v, p + |Text(v, level, st)|)) else None
    decreases v, |v.members| + 1
  {
    hide Parts, FromPart, Container, Gap, ParseItems, ParseMembers, StartsValue, HasAt;
    var parts := Parts(v, level, st);
    PartsStart(v, level, st, read);
    if v.members == [] {
      EmptyOpens(t, p, OPEN_BRACE, CLOSE_BRACE, level, st.pretty);
    } else {
      FirstPartOpens(t, p, OPEN_BRACE, CLOSE_BRACE, parts, level, st.pretty);
      MembersParse(t, p + 1 + |Gap(level + 1, st.pretty)|, v, 0, level, nesting + 1, st, read);
      assert v.members[0..] == v.members && v.members[..0] == [];
    }
  }

  /** The printed form of a value is read back as that value, and refused when it is nested too deep. */
  lemma {:induction false} TextParses(t: Bytes, p: nat, v: Value, level: nat, nesting: nat, st: Style,
                                      read: NumberReader)
    requires Printable(v, st, read) && HasAt(t, p, Text(v, level, st)) && Delimiter(At(t, p + |Text(v, level, st)|))
    ensures ParseValue(t, p, nesting, read) ==
            if Fits(v, nesting) then Some((v, p + |Text(v, level, st)|)) else None
    decreases v, Count(v) + 2
  {
    hide Text, Printable;
    if nesting > MAX_NESTING {
    } else if v.Arr? {
      ArrayParses(t, p, v, level, nesting, st, read);
    } else if v.Obj? {
      ObjectParses(t, p, v, level, nesting, st, read);
    } else {
      ScalarParses(t, p, v, level, nesting, st, read);
    }
  }

  // ---- Whole texts --------------------------------------------------------

  lemma {:induction false} FitsIffDepth(v: Value, nesting: nat)
    requires nesting <= MAX_NESTING
    ensures Fits(v, nesting) <==> nesting + Depth(v) <= MAX_NESTING
    decreases v, 0
  {
    if v.Arr? {
      ItemsFitIffDepth(v.items, nesting);
    } else if v.Obj? {
      MembersFitIffDepth(v.members, nesting);
    }
  }

  lemma {:induction false} ItemsFitIffDepth(items: seq<Value>, nesting: nat)
    requires nesting <= MAX_NESTING
    ensures ItemsFit(items, nesting + 1) <==> nesting + DepthOfItems(items) <= MAX_NESTING
    decreases items, |items|
  {
    if items != [] {
      var n := |items| - 1;
      ItemsFitIffDepth(items[..n], nesting);
      if nesting < MAX_NESTING { FitsIffDepth(items[n], nesting + 1); }
      assert ItemsFit(items, nesting + 1) <==> ItemsFit(items[..n], nesting + 1) && Fits(items[n], nesting + 1);
    }
  }

  lemma {:induction false} MembersFitIffDepth(members: seq<Member>, nesting: nat)
    requires nesting <= MAX_NESTING
    ensures MembersFit(members, nesting + 1) <==> nesting + DepthOfMembers(members) <= MAX_NESTING
    decreases members, |members|
  {
    if members != [] {
      var n := |members| - 1;
      MembersFitIffDepth(members[..n], nesting);
      if nesting < MAX_NESTING { FitsIffDepth(members[n].value, nesting + 1); }
      assert MembersFit(members, nesting + 1) <==>
        MembersFit(members[..n], nesting + 1) && Fits(members[n].value, nesting + 1);
    }
  }

  /**
   Parsing what was printed, compact or pretty, returns the value with its
   member order, exactly when the value is nested no deeper than the limit.
   */
  lemma RoundTrip(v: Value, st: Style, read: NumberReader)
    requires Printable(v, st, read)
    ensures ParseText(Text(v, 0, st), read) == if Depth(v) <= MAX_NESTING then Some(v) else None
  {
    hide Text, Printable, ParseValue, Depth;
    var t := Text(v, 0, st);
    TextStarts(v, 0, st, read);
    FirstByteIsAscii(v, 0, st, read);
    TextParses(t, 0, v, 0, 0, st, read);
    FitsIffDepth(v, 0);
  }

  lemma FirstByteIsAscii(v: Value, level: nat, st: Style, read: NumberReader)
    requires Printable(v, st, read)
    ensures Text(v, level, st) != [] && Text(v, level, st)[0] < 0x80
  {
    hide Parts, Join, EscapeBytes;
  }

  // ---- Texts the parser accepts -------------------------------------------

  /** Object keys are distinct and free of NUL throughout. */
  predicate Keyed(v: Value)
    decreases v
  {
    match v
    case Arr(items) => forall i :: 0 <= i < |items| ==> Keyed(items[i])
    case Obj(members) =>
      DistinctKeys(members) && forall i :: 0 <= i < |members| ==> 0 !in members[i].key && Keyed(members[i].value)
    case _ => true
  }

  /** Every number in the value survives its text. */
  ghost predicate NumbersSurvive(v: Value, st: Style, read: NumberReader)
    decreases v
  {
    match v
    case Num(bits) => NumberRoundTrips(bits, st, read)
    case Arr(items) => forall i :: 0 <= i < |items| ==> NumbersSurvive(items[i], st, read)
    case Obj(members) => forall i :: 0 <= i < |members| ==> NumbersSurvive(members[i].value, st, read)
    case _ => true
  }

  lemma {:induction false} PrintableIff(v: Value, st: Style, read: NumberReader)
    ensures Printable(v, st, read) <==> Keyed(v) && NumbersSurvive(v, st, read)
    decreases v
  {
    hide NumberRoundTrips, DistinctKeys;
    match v
    case Arr(items) =>
      forall i | 0 <= i < |items|
        ensures Printable(items[i], st, read) <==> Keyed(items[i]) && NumbersSurvive(items[i], st, read) {
        PrintableIff(items[i], st, read);
      }
    case Obj(members) =>
      forall i | 0 <= i < |members|
        ensures Printable(members[i].value, st, read) <==>
                Keyed(members[i].value) && NumbersSurvive(members[i].value, st, read) {
        PrintableIff(members[i].value, st, read);
      }
    case _ =>
  }

  /** Every parsed value has distinct NUL-free keys and keeps the nesting limit. */
  lemma {:induction false} ParsedIsKeyed(t: Bytes, p: nat, nesting: nat, read: NumberReader)
    requires p <= |t| && ParseValue(t, p, nesting, read).Some?
    ensures var v := ParseValue(t, p, nesting, read).value.0; Keyed(v) && Fits(v, nesting)
    decreases |t| - p, 1
  {
    hide ParseItems, ParseMembers, QuotedString, AfterElement, Text, IsDecimal;
    var q := SkipSpaces(t, p);
    if At(t, q) == OPEN_BRACE {
      var r := SkipSpaces(t, q + 1);
      if At(t, r) != CLOSE_BRACE { MembersAreKeyed(t, r, nesting + 1, read, []); }
    } else if At(t, q) == OPEN_BRACKET {
      var r := SkipSpaces(t, q + 1);
      if At(t, r) != CLOSE_BRACKET { ItemsAreKeyed(t, r, nesting + 1, read); }
    }
  }

  lemma {:induction false} ItemsAreKeyed(t: Bytes, p: nat, nesting: nat, read: NumberReader)
    requires p <= |t| && ParseItems(t, p, nesting, read).Some?
    ensures var vs := ParseItems(t, p, nesting, read).value.0; Keyed(Arr(vs)) && ItemsFit(vs, nesting)
    decreases |t| - p, 2
  {
    hide AfterElement;
    ParsedIsKeyed(t, p, nesting, read);
    var (v, q) := ParseValue(t, p, nesting, read).value;
    var a := AfterElement(t, q, CLOSE_BRACKET);
    if a.More? { ItemsAreKeyed(t, a.next, nesting, read); }
  }

  lemma {:induction false} MemberIsKeyed(t: Bytes, p: nat, nesting: nat, read: NumberReader)
    requires p <= |t| && ParseMember(t, p, nesting, read).Some?
    ensures var m := ParseMember(t, p, nesting, read).value.0; 0 !in m.key && Keyed(m.value) && Fits(m.value, nesting)
    decreases |t| - p, 1
  {
    hide QuotedString, ParseValue, Fits, Keyed;
    var (key, q) := QuotedString(t, p).value;
    ParsedIsKeyed(t, SkipSpaces(t, q) + 1, nesting, read);
  }

  lemma {:induction false} MembersAreKeyed(t: Bytes, p: nat, nesting: nat, read: NumberReader, before: seq<Member>)
    requires p <= |t| && ParseMembers(t, p, nesting, read, before).Some?
    requires Keyed(Obj(before)) && MembersFit(before, nesting)
    ensures var ms := ParseMembers(t, p, nesting, read, before).value.0; Keyed(Obj(ms)) && MembersFit(ms, nesting)
    decreases |t| - p, 2
  {
    hide AfterElement, ParseMember, Fits;
    MemberIsKeyed(t, p, nesting, read);
    var (m, e) := ParseMember(t, p, nesting, read).value;
    var a := AfterElement(t, e, CLOSE_BRACE);
    var members := before + [m];
    assert forall i :: 0 <= i < |before| ==> before[i].key == KeysOf(before)[i];
    if a.More? { MembersAreKeyed(t, a.next, nesting, read, members); }
  }

  /**
   Whatever text is accepted, if the numbers in its value survive their text, printing and parsing
   again gives that value.
   */
  lemma ParseIsStable(t: Bytes, st: Style, read: NumberReader)
    requires ParseText(t, read).Some? && NumbersSurvive(ParseText(t, read).value, st, read)
    ensures ParseText(Text(ParseText(t, read).value, 0, st), read) == ParseText(t, read)
  {
    hide Text, ParseValue, Printable, Keyed, NumbersSurvive;
    var start := if At(t, 0) == 0xEF && At(t, 1) == 0xBB && At(t, 2) == 0xBF then 3 else 0;
    ParsedIsKeyed(t, start, 0, read);
    PrintableIff(ParseText(t, read).value, st, read);
    FitsIffDepth(ParseText(t, read).value, 0);
    RoundTrip(ParseText(t, read).value, st, read);
  }

  /** The two passes of the serializer followed by the parser. */
  method PrintThenParse(v: Value, st: Style, read: NumberReader) returns (r: Option<Value>)
    requires Printable(v, st, read)
    ensures r == if Depth(v) <= MAX_NESTING then Some(v) else None
  {
    hide Text, Printable, ParseText, Depth;
    var buffer := SerializeToString(v, st);
    RoundTrip(v, st, read);
    r := ParseJson(buffer[..|buffer| - 1], read);
  }
}
