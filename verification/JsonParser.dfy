/**
 The recursive-descent parser of the JSON library: as functions of the text and
 a position, and as methods that advance a shared cursor and fill member tables.
 */
module JsonParser {
  import opened Bytes
  import opened JsonString
  import opened JsonText
  import JsonTable

  const MAX_NESTING: nat := 2048

  /** What strtod reports for the text at the cursor. */
  datatype Strtod = Strtod(bits: nat, length: nat, overflow: bool, failed: bool, finite: bool)

  type NumberReader = Bytes -> Strtod

  type Parsed<T> = Option<(T, nat)>

  /** isspace in the C locale */
  predicate IsSpace(c: byte) { c == 0x20 || 0x09 <= c <= 0x0D }

  function SkipSpaces(t: Bytes, p: nat): (q: nat)
    ensures p <= q && (p <= |t| ==> q <= |t|) && !IsSpace(At(t, q))
    decreases |t| - p
  {
    if IsSpace(At(t, p)) then SkipSpaces(t, p + 1) else p
  }

  /** is_decimal */
  predicate IsDecimal(s: Bytes) {
    && !(|s| > 1 && s[0] == 0x30 && s[1] != 0x2E)
    && !(|s| > 2 && s[0] == 0x2D && s[1] == 0x30 && s[2] != 0x2E)
    && (forall i :: 0 <= i < |s| ==> s[i] != 0x78 && s[i] != 0x58)
  }

  predicate StartsNumber(c: byte) { c == 0x2D || 0x30 <= c <= 0x39 }

  predicate TokenAt(t: Bytes, p: nat, token: Bytes) {
    p <= |t| && token <= t[p..]
  }

  function ParseNumber(t: Bytes, p: nat, read: NumberReader): (r: Parsed<Value>)
    requires p <= |t|
    ensures r.Some? ==> p <= r.value.1 <= |t|
  {
    var n := read(t[p..]);
    if n.length > |t| - p then None  // strtod does not leave the text
    else if n.overflow || n.failed || !IsDecimal(t[p..p + n.length]) || !n.finite then None
    else Some((Num(n.bits), p + n.length))
  }

  function ParseLiteral(t: Bytes, p: nat): (r: Parsed<Value>)
    requires p <= |t|
    ensures r.Some? ==> p <= r.value.1 <= |t|
  {
    if TokenAt(t, p, TRUE_TOKEN) then Some((Bool(true), p + 4))
    else if TokenAt(t, p, FALSE_TOKEN) then Some((Bool(false), p + 5))
    else if TokenAt(t, p, NULL_TOKEN) then Some((Null, p + 4))
    else None
  }

  function ParseString(t: Bytes, p: nat): (r: Parsed<Value>)
    ensures r.Some? ==> p <= r.value.1 <= |t|
  {
    match QuotedString(t, p)
    case None => None
    case Some((s, q)) => Some((Str(s), q))
  }

  /** parse_value */
  function ParseValue(t: Bytes, p: nat, nesting: nat, read: NumberReader): (r: Parsed<Value>)
    requires p <= |t|
    ensures r.Some? ==> p <= r.value.1 <= |t|
    decreases |t| - p, 1
  {
    if nesting > MAX_NESTING then None
    else
      var q := SkipSpaces(t, p);
      var c := At(t, q);
      if c == OPEN_BRACE then
        var r := SkipSpaces(t, q + 1);
        if At(t, r) == CLOSE_BRACE then Some((Obj([]), r + 1))
        else match ParseMembers(t, r, nesting + 1, read, [])
          case None => None
          case Some((members, e)) => Some((Obj(members), e))
      else if c == OPEN_BRACKET then
        var r := SkipSpaces(t, q + 1);
        if At(t, r) == CLOSE_BRACKET then Some((Arr([]), r + 1))
        else match ParseItems(t, r, nesting + 1, read)
          case None => None
          case Some((items, e)) => Some((Arr(items), e))
      else if c == QUOTE then ParseString(t, q)
      else if StartsNumber(c) then ParseNumber(t, q, read)
      else ParseLiteral(t, q)
  }

  /** Where the separator after an element leads: to the next element, to the end of the container, or nowhere. */
  datatype After = More(next: nat) | Closed(end: nat) | Broken

  function AfterElement(t: Bytes, p: nat, close: byte): (a: After)
    requires p <= |t| && close != 0
    ensures a.More? ==> p < a.next <= |t|
    ensures a.Closed? ==> p < a.end <= |t|
  {
    var q := SkipSpaces(t, p);
    if At(t, q) == close then Closed(q + 1)
    else if At(t, q) != COMMA then Broken
    else
      var r := SkipSpaces(t, q + 1);
      if At(t, r) == close then Closed(r + 1) else if At(t, r) == 0 then Broken else More(r)
  }

  /** The element loop of parse_array_value. */
  function ParseItems(t: Bytes, p: nat, nesting: nat, read: NumberReader): (r: Parsed<seq<Value>>)
    requires p <= |t|
    ensures r.Some? ==> p <= r.value.1 <= |t|
    decreases |t| - p, 2
  {
    if At(t, p) == 0 then None
    else match ParseValue(t, p, nesting, read)
      case None => None
      case Some((v, q)) =>
        match AfterElement(t, q, CLOSE_BRACKET)
        case Broken => None
        case Closed(e) => Some(([v], e))
        case More(next) =>
          match ParseItems(t, next, nesting, read)
          case None => None
          case Some((vs, e)) => Some(([v] + vs, e))
  }

  function KeysOf(members: seq<Member>): (keys: seq<Bytes>)
    ensures |keys| == |members| && forall i :: 0 <= i < |members| ==> keys[i] == members[i].key
  {
    seq(|members|, i requires 0 <= i < |members| => members[i].key)
  }

  /** One key, colon and value of the loop in parse_object_value. */
  function ParseMember(t: Bytes, p: nat, nesting: nat, read: NumberReader): (r: Parsed<Member>)
    requires p <= |t|
    ensures r.Some? ==> p < r.value.1 <= |t|
    decreases |t| - p, 1
  {
    match QuotedString(t, p)
    case None => None
    case Some((key, q)) =>
      var colon := SkipSpaces(t, q);
      if 0 in key || At(t, colon) != COLON then None
      else match ParseValue(t, colon + 1, nesting, read)
        case None => None
        case Some((v, e)) => Some((Member(key, v), e))
  }

  /** The member loop of parse_object_value; `before` are the members already in the table. */
  function ParseMembers(t: Bytes, p: nat, nesting: nat, read: NumberReader,
                        before: seq<Member>): (r: Parsed<seq<Member>>)
    requires p <= |t|
    ensures r.Some? ==> p <= r.value.1 <= |t|
    decreases |t| - p, 2
  {
    if At(t, p) == 0 then None
    else match ParseMember(t, p, nesting, read)
      case None => None
      case Some((m, e)) =>
        if m.key in KeysOf(before) then None
        else match AfterElement(t, e, CLOSE_BRACE)
          case Broken => None
          case Closed(end) => Some((before + [m], end))
          case More(next) => ParseMembers(t, next, nesting, read, before + [m])
  }

  /** json_parse_string: skips a byte order mark, ignores what follows the value. */
  function ParseText(t: Bytes, read: NumberReader): Option<Value> {
    var start := if At(t, 0) == 0xEF && At(t, 1) == 0xBB && At(t, 2) == 0xBF then 3 else 0;
    match ParseValue(t, start, 0, read)
    case None => None
    case Some((v, _)) => Some(v)
  }

  // ---- Numbers that are not there -----------------------------------------

  predicate IsDigit(c: byte) { 0x30 <= c <= 0x39 }

  /** The word, in lower case, stands at p in any mixture of cases. */
  predicate WordAt(s: Bytes, p: nat, word: Bytes) {
    forall i :: 0 <= i < |word| ==> At(s, p + i) == word[i] || At(s, p + i) as int == word[i] as int - 0x20
  }

  /** A digit, or a minus sign and then a digit, a point and a digit, inf or nan. */
  predicate NumberAhead(s: Bytes) {
    || IsDigit(At(s, 0))
    || (At(s, 0) == 0x2D &&
        (|| IsDigit(At(s, 1))
         || (At(s, 1) == 0x2E && IsDigit(At(s, 2)))
         || WordAt(s, 1, [0x69, 0x6E, 0x66])
         || WordAt(s, 1, [0x6E, 0x61, 0x6E])))
  }

  /** Of what may start a number, strtod reads nothing as zero exactly when there is no number. */
  ghost predicate ReadsLikeStrtod(read: NumberReader) {
    forall s: Bytes :: StartsNumber(At(s, 0)) ==>
      if NumberAhead(s) then read(s).length > 0 else read(s) == Strtod(0, 0, false, false, true)
  }

  /** A number is accepted without consuming a byte exactly when there is none: behind a lone minus sign. */
  lemma EmptyNumberIff(t: Bytes, p: nat, read: NumberReader)
    requires p <= |t| && StartsNumber(At(t, p)) && ReadsLikeStrtod(read)
    ensures (ParseNumber(t, p, read).Some? && ParseNumber(t, p, read).value.1 == p) <==> !NumberAhead(t[p..])
    ensures !NumberAhead(t[p..]) ==> At(t, p) == 0x2D && ParseNumber(t, p, read) == Some((Num(0), p))
  {
    hide WordAt;
    assert At(t[p..], 0) == At(t, p);
  }

  /** Text that starts with such a sign is the number zero, whatever follows it. */
  lemma SignAloneIsZero(t: Bytes, read: NumberReader)
    requires ReadsLikeStrtod(read) && At(t, 0) == 0x2D && !NumberAhead(t)
    ensures ParseText(t, read) == Some(Num(0))
  {
    hide WordAt, NumberAhead, ParseNumber, ReadsLikeStrtod;
    assert t[0..] == t;
    EmptyNumberIff(t, 0, read);
    assert SkipSpaces(t, 0) == 0;
  }

  lemma NoWordAtEnd(s: Bytes, p: nat, word: Bytes)
    requires p >= |s| && word != [] && word[0] > 0x20
    ensures !WordAt(s, p, word)
  {
    assert At(s, p + 0) == 0;
  }

  lemma LoneMinusIsZero(read: NumberReader)
    requires ReadsLikeStrtod(read)
    ensures ParseText([0x2D], read) == Some(Num(0))
  {
    NoWordAtEnd([0x2D], 1, [0x69, 0x6E, 0x66]);
    NoWordAtEnd([0x2D], 1, [0x6E, 0x61, 0x6E]);
    SignAloneIsZero([0x2D], read);
  }

  /** The loop of is_decimal, from the last byte to the first. */
  method CheckDecimal(s: Bytes) returns (ok: bool)
    ensures ok == IsDecimal(s)
  {
    if |s| > 1 && s[0] == 0x30 && s[1] != 0x2E {
      return false;
    }
    if |s| > 2 && s[0] == 0x2D && s[1] == 0x30 && s[2] != 0x2E {
      return false;
    }
    var length := |s|;
    while length > 0
      invariant 0 <= length <= |s|
      invariant forall i :: length <= i < |s| ==> s[i] != 0x78 && s[i] != 0x58
    {
      length := length - 1;
      if s[length] == 0x78 || s[length] == 0x58 {
        return false;
      }
    }
    ok := true;
  }

  function Zip(keys: seq<Bytes>, vals: seq<Value>): (members: seq<Member>)
    requires |keys| == |vals|
    ensures |members| == |keys| && KeysOf(members) == keys
  {
    seq(|keys|, i requires 0 <= i < |keys| => Member(keys[i], vals[i]))
  }

  // ---- The parser with its cursor -----------------------------------------

  class Parser {
    const text: Bytes
    const read: NumberReader
    var pos: nat

    constructor (text: Bytes, read: NumberReader, start: nat)
      requires start <= |text|
      ensures this.text == text && this.read == read && pos == start
    {
      this.text, this.read, pos := text, read, start;
    }

    /** The outcome of a parsing function, told through the result and the cursor. */
    ghost predicate Did<T>(result: Option<T>, spec: Parsed<T>)
      reads this
    {
      && pos <= |text|
      && if result.Some? then spec == Some((result.value, pos)) else spec == None
    }

    method SkipWhitespace()
      requires pos <= |text|
      modifies this
      ensures pos == SkipSpaces(text, old(pos)) <= |text|
    {
      while IsSpace(At(text, pos))
        invariant pos <= |text| && SkipSpaces(text, pos) == SkipSpaces(text, old(pos))
        decreases |text| - pos
      {
        pos := pos + 1;
      }
    }

    /** get_quoted_string */
    method GetQuotedString() returns (s: Option<Bytes>)
      requires pos <= |text|
      modifies this
      ensures Did(s, QuotedString(text, old(pos)))
    {
      hide DecodeFrom, ClosingFrom;
      var start := pos;
      var ok, q := SkipQuotes(text, pos);
      pos := q;
      if !ok {
        return None;
      }
      s := ProcessString(text, start + 1, q - 1);
    }

    method ParseNumberValue() returns (v: Option<Value>)
      requires pos <= |text|
      modifies this
      ensures Did(v, ParseNumber(text, old(pos), read))
    {
      var n := read(text[pos..]);
      if n.length > |text| - pos || n.overflow {
        return None;
      }
      var decimal := CheckDecimal(text[pos..pos + n.length]);
      if n.failed || !decimal || !n.finite {
        return None;
      }
      pos := pos + n.length;
      v := Some(Num(n.bits));
    }

    method ParseLiteralValue() returns (v: Option<Value>)
      requires pos <= |text|
      modifies this
      ensures Did(v, ParseLiteral(text, old(pos)))
    {
      var rest := text[pos..];
      if TRUE_TOKEN <= rest {
        pos := pos + 4;
        return Some(Bool(true));
      } else if FALSE_TOKEN <= rest {
        pos := pos + 5;
        return Some(Bool(false));
      } else if NULL_TOKEN <= rest {
        pos := pos + 4;
        return Some(Null);
      }
      v := None;
    }

    /** The separator handling at the end of both element loops. */
    method NextElement(close: byte) returns (a: After)
      requires pos <= |text| && close != 0 && close != COMMA
      modifies this
      ensures a == AfterElement(text, old(pos), close) && pos <= |text|
      ensures a.More? ==> pos == a.next
      ensures a.Closed? ==> pos == a.end
    {
      ghost var p := pos;
      SkipWhitespace();
      if At(text, pos) == COMMA {
        pos := pos + 1;
        SkipWhitespace();
        if At(text, pos) == close {
          pos := pos + 1;
          return Closed(pos);
        } else if At(text, pos) == 0 {
          return Broken;
        }
        return More(pos);
      }
      if At(text, pos) != close {
        return Broken;
      }
      pos := pos + 1;
      a := Closed(pos);
    }

    /** parse_value */
    method ParseValueAt(nesting: nat) returns (v: Option<Value>)
      requires pos <= |text|
      modifies this
      ensures Did(v, ParseValue(text, old(pos), nesting, read))
      decreases |text| - pos, 1
    {
      hide ParseItems, ParseMembers, ParseNumber, ParseLiteral, QuotedString;
      if nesting > MAX_NESTING {
        return None;
      }
      SkipWhitespace();
      var c := At(text, pos);
      if c == OPEN_BRACE {
        v := ParseObjectValue(nesting + 1);
      } else if c == OPEN_BRACKET {
        v := ParseArrayValue(nesting + 1);
      } else if c == QUOTE {
        var s := GetQuotedString();
        v := if s.None? then None else Some(Str(s.value));
      } else if StartsNumber(c) {
        v := ParseNumberValue();
      } else {
        v := ParseLiteralValue();
      }
    }

    /** parse_array_value */
    method ParseArrayValue(nesting: nat) returns (v: Option<Value>)
      requires pos <= |text| && At(text, pos) == OPEN_BRACKET && 1 <= nesting <= MAX_NESTING + 1
      modifies this
      ensures Did(v, ParseValue(text, old(pos), nesting - 1, read))
      decreases |text| - pos, 0
    {
      hide ParseMembers, AfterElement;
      assert SkipSpaces(text, pos) == pos;
      pos := pos + 1;
      SkipWhitespace();
      if At(text, pos) == CLOSE_BRACKET {
        pos := pos + 1;
        return Some(Arr([]));
      }
      ghost var first := pos;
      var items: seq<Value> := [];
      PrependNothing(ParseItems(text, first, nesting, read));
      while At(text, pos) != 0
        invariant old(pos) < pos <= |text|
        invariant ParseItems(text, first, nesting, read) == PrependItems(items, ParseItems(text, pos, nesting, read))
        decreases |text| - pos
      {
        ghost var p := pos;
        var item := ParseValueAt(nesting);
        if item.None? {
          return None;
        }
        var a := NextElement(CLOSE_BRACKET);
        PrependItem(items, item.value, if a.More? then ParseItems(text, pos, nesting, read) else None);
        items := items + [item.value];
        if a.Closed? {
          return Some(Arr(items));
        } else if a.Broken? {
          return None;
        }
      }
      v := None;
    }

    /** One turn of the loop of parse_object_value, up to the table. */
    method ParseMemberAt(nesting: nat) returns (m: Option<Member>)
      requires pos <= |text|
      modifies this
      ensures Did(m, ParseMember(text, old(pos), nesting, read))
      decreases |text| - pos, 1
    {
      hide QuotedString, ParseValue;
      var key := GetQuotedString();
      if key.None? || 0 in key.value {
        return None;
      }
      SkipWhitespace();
      if At(text, pos) != COLON {
        return None;
      }
      pos := pos + 1;
      var value := ParseValueAt(nesting);
      m := if value.None? then None else Some(Member(key.value, value.value));
    }

    /** One turn of the member loop of parse_object_value, with the table. */
    method ParseMemberInto(table: JsonTable.ObjectTable<Value>, nesting: nat) returns (a: After)
      requires pos <= |text| && At(text, pos) != 0 && table.Valid() && this !in table.Repr()
      modifies this, table.Repr()
      ensures table.Valid() && fresh(table.Repr() - old(table.Repr())) && pos <= |text|
      ensures var spec := ParseMembers(text, old(pos), nesting, read, old(MembersIn(table)));
        match a
        case Broken => spec == None
        case Closed(_) => spec == Some((MembersIn(table), pos))
        case More(_) => old(pos) < pos && spec == ParseMembers(text, pos, nesting, read, MembersIn(table))
      decreases |text| - pos, 2
    {
      hide AfterElement, ParseMember, JsonTable.WellFormed, Zip, KeysOf;
      var member := ParseMemberAt(nesting);
      if member.None? {
        return Broken;
      }
      var added := AddMember(table, member.value);
      if !added {
        return Broken;
      }
      a := NextElement(CLOSE_BRACE);
    }

    /** The member loop of parse_object_value, filling the table. */
    method ParseMembersInto(table: JsonTable.ObjectTable<Value>, nesting: nat) returns (ok: bool)
      requires pos <= |text| && table.Valid() && this !in table.Repr() && table.count == 0
      modifies this, table.Repr()
      ensures table.Valid() && fresh(table.Repr() - old(table.Repr()))
      ensures Did(if ok then Some(MembersIn(table)) else None, ParseMembers(text, old(pos), nesting, read, []))
      decreases |text| - pos, 3
    {
      hide JsonTable.WellFormed, Zip, ParseMembers;
      NoMembers(table);
      while At(text, pos) != 0
        invariant old(pos) <= pos <= |text|
        invariant table.Valid() && fresh(table.Repr() - old(table.Repr())) && this !in table.Repr()
        invariant ParseMembers(text, old(pos), nesting, read, []) ==
                  ParseMembers(text, pos, nesting, read, MembersIn(table))
        decreases |text| - pos
      {
        ghost var before := table.Repr();
        var a := ParseMemberInto(table, nesting);
        assert table.Repr() - old(table.Repr()) <= (table.Repr() - before) + (before - old(table.Repr()));
        if a.Closed? {
          return true;
        } else if a.Broken? {
          return false;
        }
      }
      NothingLeft(text, pos, nesting, read, MembersIn(table));
      ok := false;
    }

    /** parse_object_value */
    method ParseObjectValue(nesting: nat) returns (v: Option<Value>)
      requires pos <= |text| && At(text, pos) == OPEN_BRACE && 1 <= nesting <= MAX_NESTING + 1
      modifies this
      ensures Did(v, ParseValue(text, old(pos), nesting - 1, read))
      decreases |text| - pos, 0
    {
      hide ParseItems, ParseMembers, JsonTable.WellFormed, Zip;
      assert SkipSpaces(text, pos) == pos;
      pos := pos + 1;
      SkipWhitespace();
      if At(text, pos) == CLOSE_BRACE {
        pos := pos + 1;
        return Some(Obj([]));
      }
      var table := new JsonTable.ObjectTable<Value>(0);
      var ok := ParseMembersInto(table, nesting);
      v := if ok then Some(Obj(Zip(table.names[..table.count], table.values[..table.count]))) else None;
    }
  }

  /** The members of a table in their printing order. */
  ghost function MembersIn(table: JsonTable.ObjectTable<Value>): seq<Member>
    reads table, table.names, table.values
    requires table.Shaped()
  {
    Zip(table.Keys(), table.Vals())
  }

  lemma NothingLeft(t: Bytes, p: nat, nesting: nat, read: NumberReader, before: seq<Member>)
    requires p <= |t| && At(t, p) == 0
    ensures ParseMembers(t, p, nesting, read, before) == None
  {
  }

  lemma NoMembers(table: JsonTable.ObjectTable<Value>)
    requires table.Shaped() && table.count == 0
    ensures MembersIn(table) == []
  {
  }

  /** json_object_add seen on member lists: appends, unless the key is there. */
  method AddMember(table: JsonTable.ObjectTable<Value>, m: Member) returns (ok: bool)
    requires table.Valid()
    modifies table.Repr()
    ensures table.Valid() && fresh(table.Repr() - old(table.Repr()))
    ensures ok <==> m.key !in KeysOf(old(MembersIn(table)))
    ensures ok ==> MembersIn(table) == old(MembersIn(table)) + [m]
  {
    hide JsonTable.WellFormed;
    ghost var before := MembersIn(table);
    ok := table.Add(m.key, m.value);
    if ok {
      assert MembersIn(table) == before + [m];
    }
  }

  function PrependItems(items: seq<Value>, rest: Parsed<seq<Value>>): Parsed<seq<Value>> {
    match rest
    case None => None
    case Some((vs, e)) => Some((items + vs, e))
  }

  lemma PrependNothing(rest: Parsed<seq<Value>>)
    ensures PrependItems([], rest) == rest
  {
    if rest.Some? { assert [] + rest.value.0 == rest.value.0; }
  }

  lemma PrependItem(items: seq<Value>, v: Value, rest: Parsed<seq<Value>>)
    ensures PrependItems(items, PrependItems([v], rest)) == PrependItems(items + [v], rest)
  {
    if rest.Some? { assert items + ([v] + rest.value.0) == (items + [v]) + rest.value.0; }
  }

  /** json_parse_string */
  method ParseJson(t: Bytes, read: NumberReader) returns (v: Option<Value>)
    ensures v == ParseText(t, read)
  {
    hide ParseValue;
    var start := if At(t, 0) == 0xEF && At(t, 1) == 0xBB && At(t, 2) == 0xBF then 3 else 0;
    var parser := new Parser(t, read, start);
    v := parser.ParseValueAt(0);
  }
}
