/**
 Quoted strings of the JSON library: finding the closing quote, decoding the
 escapes into a buffer, and escaping on output.

 A text is a byte string followed by its NUL terminator; `At` reads it the way
 the C code does. Each decoding step also records the highest index it reads.
 */
module JsonString {
  import opened Slices
  import opened Bytes
  import opened Utf8

  const QUOTE: byte := 0x22
  const SLASH: byte := 0x2F
  const BACKSLASH: byte := 0x5C
  const LETTER_U: byte := 0x75

  function At(t: Bytes, i: nat): byte { if i < |t| then t[i] else 0 }

  // ---- Finding the closing quote ------------------------------------------

  /** The position behind the quote that closes a string whose next content byte is at q. */
  function ClosingFrom(t: Bytes, q: nat): (r: Option<nat>)
    ensures r.Some? ==> q < r.value <= |t| && t[r.value - 1] == QUOTE
    decreases |t| - q
  {
    var c := At(t, q);
    if c == QUOTE then Some(q + 1)
    else if c == 0 then None
    else if c == BACKSLASH then (if At(t, q + 1) == 0 then None else ClosingFrom(t, q + 2))
    else ClosingFrom(t, q + 1)
  }

  function Closing(t: Bytes, p: nat): Option<nat> {
    if At(t, p) != QUOTE then None else ClosingFrom(t, p + 1)
  }

  /** skip_quotes */
  method SkipQuotes(t: Bytes, p: nat) returns (ok: bool, q: nat)
    requires p <= |t|
    ensures Closing(t, p) == if ok then Some(q) else None
    ensures q <= |t|
  {
    q := p;
    if At(t, q) != QUOTE {
      return false, q;
    }
    q := q + 1;
    while At(t, q) != QUOTE
      invariant q <= |t| && ClosingFrom(t, q) == Closing(t, p)
      decreases |t| - q
    {
      if At(t, q) == 0 {
        return false, q;
      } else if At(t, q) == BACKSLASH {
        q := q + 1;
        if At(t, q) == 0 {
          return false, q;
        }
      }
      q := q + 1;
    }
    q := q + 1;
    ok := true;
  }

  // ---- Decoding one unit --------------------------------------------------

  /** hex_char_to_int */
  function HexDigit(c: byte): (d: int)
    ensures -1 <= d < 16
  {
    if 0x30 <= c <= 0x39 then c as int - 0x30
    else if 0x61 <= c <= 0x66 then c as int - 0x61 + 10
    else if 0x41 <= c <= 0x46 then c as int - 0x41 + 10
    else -1
  }

  /** parse_utf16_hex: the value of four hex digits at i, or -1. */
  function Hex4(t: Bytes, i: nat): (v: int)
    ensures v >= 0 ==> v < 0x10000 && HexDigit(At(t, i)) >= 0 && HexDigit(At(t, i + 1)) >= 0
    ensures v >= 0 ==> HexDigit(At(t, i + 2)) >= 0 && HexDigit(At(t, i + 3)) >= 0
  {
    if At(t, i) == 0 || At(t, i + 1) == 0 || At(t, i + 2) == 0 || At(t, i + 3) == 0 then -1
    else
      var a, b, c, d := HexDigit(At(t, i)), HexDigit(At(t, i + 1)), HexDigit(At(t, i + 2)), HexDigit(At(t, i + 3));
      if a == -1 || b == -1 || c == -1 || d == -1 then -1 else a * 0x1000 + b * 0x100 + c * 0x10 + d
  }

  /** The last index parse_utf16_hex reads: it stops at the first NUL. */
  function Hex4Reach(t: Bytes, i: nat): nat {
    if At(t, i) == 0 then i else if At(t, i + 1) == 0 then i + 1 else if At(t, i + 2) == 0 then i + 2 else i + 3
  }

  /** Emit: bytes written and the next read position. Bad: decoding fails; `hex` is the failing hex group, if any. */
  datatype Step =
    | Emit(out: Bytes, next: nat, reach: nat)
    | Bad(reach: nat, hex: Option<nat>)

  /** parse_utf16, with the position at the letter u. */
  function UnicodeStep(t: Bytes, u: nat): Step {
    var cp := Hex4(t, u + 1);
    if cp < 0 then Bad(Hex4Reach(t, u + 1), Some(u + 1))
    else if Scalar(cp) then Emit(Encode(cp), u + 5, u + 4)
    else if cp > 0xDBFF then Bad(u + 4, None)
    else if At(t, u + 5) != BACKSLASH then Bad(u + 5, None)
    else if At(t, u + 6) != LETTER_U then Bad(u + 6, None)
    else
      var trail := Hex4(t, u + 7);
      if trail < 0 then Bad(Hex4Reach(t, u + 7), Some(u + 7))
      else if trail < 0xDC00 || trail > 0xDFFF then Bad(u + 10, None)
      else Emit(Encode((cp - 0xD800) * 0x400 + (trail - 0xDC00) + 0x10000), u + 11, u + 10)
  }

  /** The byte a one-letter escape stands for. */
  function SimpleEscape(c: byte): Option<byte> {
    match c
    case 0x22 => Some(0x22)
    case 0x5C => Some(0x5C)
    case 0x2F => Some(0x2F)
    case 0x62 => Some(0x08)
    case 0x66 => Some(0x0C)
    case 0x6E => Some(0x0A)
    case 0x72 => Some(0x0D)
    case 0x74 => Some(0x09)
    case _ => None
  }

  /** One turn of the loop of process_string. */
  function DecodeStep(t: Bytes, p: nat): (s: Step)
    ensures s.Emit? ==> s.next > p
  {
    var c := At(t, p);
    if c == BACKSLASH then
      var e := At(t, p + 1);
      if e == LETTER_U then UnicodeStep(t, p + 1)
      else match SimpleEscape(e)
        case Some(b) => Emit([b], p + 2, p + 1)
        case None => Bad(p + 1, None)
    else if c < 0x20 then Bad(p, None)
    else Emit([c], p + 1, p)
  }

  lemma HexDigitsSkip(t: Bytes, q: nat, k: nat)
    requires forall i :: q <= i < q + k ==> HexDigit(At(t, i)) >= 0
    ensures ClosingFrom(t, q) == ClosingFrom(t, q + k)
    decreases k
  {
    if k > 0 {
      HexDigitsSkip(t, q + 1, k - 1);
      assert HexDigit(At(t, q)) >= 0;
    }
  }

  /** The code point a successful unicode escape stands for. */
  function EscapedCodePoint(t: Bytes, u: nat): (cp: nat)
    requires UnicodeStep(t, u).Emit?
    ensures Scalar(cp) && UnicodeStep(t, u).out == Encode(cp)
  {
    var lead := Hex4(t, u + 1);
    if Scalar(lead) then lead else (lead - 0xD800) * 0x400 + (Hex4(t, u + 7) - 0xDC00) + 0x10000
  }

  lemma UnicodeStaysInside(t: Bytes, u: nat, end: nat)
    requires ClosingFrom(t, u + 1) == Some(end + 1) && At(t, u) == LETTER_U && UnicodeStep(t, u).Emit?
    ensures var s := UnicodeStep(t, u);
            && (s.next == u + 5 || s.next == u + 11) && s.reach == s.next - 1
            && s.next <= end && ClosingFrom(t, s.next) == Some(end + 1)
            && forall i :: u <= i < s.next ==> At(t, i) < 0x80
  {
    hide Encode, Hex4, UnicodeStep, ClosingFrom, HexDigit;
    UnicodeShape(t, u);
    HexGroupSkip(t, u + 1);
    if UnicodeStep(t, u).next == u + 11 {
      PlainEscapeSkip(t, u + 5);
      HexGroupSkip(t, u + 7);
    }
  }

  lemma HexGroupSkip(t: Bytes, h: nat)
    requires HexGroup(t, h)
    ensures ClosingFrom(t, h) == ClosingFrom(t, h + 4)
    ensures forall i :: h <= i < h + 4 ==> At(t, i) < 0x80
  {
    HexDigitsSkip(t, h, 4);
  }

  lemma PlainEscapeSkip(t: Bytes, q: nat)
    requires At(t, q) == BACKSLASH && At(t, q + 1) != 0
    ensures ClosingFrom(t, q) == ClosingFrom(t, q + 2)
  {
  }

  predicate HexGroup(t: Bytes, h: nat) {
    forall i :: h <= i < h + 4 ==> HexDigit(At(t, i)) >= 0
  }

  /** What the bytes of a successful unicode escape look like. */
  lemma UnicodeShape(t: Bytes, u: nat)
    requires UnicodeStep(t, u).Emit?
    ensures var s := UnicodeStep(t, u);
            && (s.next == u + 5 || s.next == u + 11) && s.reach == s.next - 1
            && HexGroup(t, u + 1)
            && (s.next == u + 11 ==> At(t, u + 5) == BACKSLASH && At(t, u + 6) == LETTER_U && HexGroup(t, u + 7))
  {
    hide Encode, HexDigit;
  }

  /** One whole character, or one byte copied unchanged. */
  ghost predicate WritesCharacter(t: Bytes, p: nat, s: Step)
    requires s.Emit?
  {
    (s.next == p + 1 && s.out == [At(t, p)]) || exists cp :: Scalar(cp) && s.out == Encode(cp)
  }

  /** A successful step stays inside the content and writes no more than it reads. */
  lemma StepStaysInside(t: Bytes, p: nat, end: nat)
    requires p < end && ClosingFrom(t, p) == Some(end + 1) && DecodeStep(t, p).Emit?
    ensures var s := DecodeStep(t, p);
            && p < s.next <= end && s.reach < s.next && ClosingFrom(t, s.next) == Some(end + 1)
            && 1 <= |s.out| <= s.next - p
            && WritesCharacter(t, p, s)
            && forall i :: p < i < s.next ==> At(t, i) < 0x80
  {
    var s := DecodeStep(t, p);
    if At(t, p) == BACKSLASH {
      assert ClosingFrom(t, p + 2) == Some(end + 1);
      if At(t, p + 1) == LETTER_U {
        UnicodeStaysInside(t, p + 1, end);
        var cp := EscapedCodePoint(t, p + 1);
      } else {
        assert s.out == Encode(s.out[0] as nat);
      }
    }
  }

  // ---- Decoding a whole string --------------------------------------------

  function Prepend(out: Bytes, rest: Option<Bytes>): Option<Bytes> {
    if rest.None? then None else Some(out + rest.value)
  }

  lemma PrependTwice(a: Bytes, b: Bytes, rest: Option<Bytes>)
    ensures Prepend(a, Prepend(b, rest)) == Prepend(a + b, rest)
    ensures Prepend([], rest) == rest
  {
    if rest.Some? {
      assert a + (b + rest.value) == (a + b) + rest.value && [] + rest.value == rest.value;
    }
  }

  /** process_string on the bytes from p up to end. */
  function DecodeFrom(t: Bytes, p: nat, end: nat): Option<Bytes>
    decreases if p < end then end - p else 0
  {
    if p >= end || At(t, p) == 0 then Some([])
    else match DecodeStep(t, p)
      case Bad(_, _) => None
      case Emit(out, next, _) =>
        Prepend(out, DecodeFrom(t, next, end))
  }

  /** get_quoted_string: the decoded content and the position behind the closing quote. */
  function QuotedString(t: Bytes, p: nat): (r: Option<(Bytes, nat)>)
    ensures r.Some? ==> p < r.value.1 <= |t|
  {
    match Closing(t, p)
    case None => None
    case Some(after) =>
      match DecodeFrom(t, p + 1, after - 1)
      case None => None
      case Some(s) => Some((s, after))
  }

  /** Decoded content is never longer than the text it comes from. */
  lemma {:induction false} DecodeShrinks(t: Bytes, p: nat, end: nat)
    requires p <= end && ClosingFrom(t, p) == Some(end + 1) && DecodeFrom(t, p, end).Some?
    ensures |DecodeFrom(t, p, end).value| <= end - p
    decreases end - p
  {
    if p < end && At(t, p) != 0 {
      StepStaysInside(t, p, end);
      DecodeShrinks(t, DecodeStep(t, p).next, end);
    }
  }

  /**
   process_string with its output buffer of one byte more than the content. The
   index checks are the proof that no write leaves the buffer.
   */
  method ProcessString(t: Bytes, p: nat, end: nat) returns (r: Option<Bytes>)
    requires p <= end && ClosingFrom(t, p) == Some(end + 1)
    ensures r == DecodeFrom(t, p, end)
    ensures r.Some? ==> |r.value| <= end - p
  {
    hide DecodeStep, ClosingFrom;
    var output := new byte[end - p + 1];
    var i, o := p, 0;
    PrependTwice([], [], DecodeFrom(t, p, end));
    assert output[..0] == [];
    while At(t, i) != 0 && i < end
      invariant p <= i <= end && 0 <= o <= i - p
      invariant ClosingFrom(t, i) == Some(end + 1)
      invariant DecodeFrom(t, p, end) == Prepend(output[..o], DecodeFrom(t, i, end))
      decreases end - i
    {
      ghost var written := output[..o];
      var step := DecodeStep(t, i);
      if step.Bad? {
        return None;
      }
      StepStaysInside(t, i, end);
      var k := 0;
      while k < |step.out|
        invariant 0 <= k <= |step.out|
        invariant output[..o + k] == written + step.out[..k]
      {
        output[o + k] := step.out[k];
        k := k + 1;
      }
      assert step.out[..k] == step.out;
      PrependTwice(written, step.out, DecodeFrom(t, step.next, end));
      o := o + k;
      i := step.next;
    }
    output[o] := 0;
    r := Some(output[..o]);
    assert DecodeFrom(t, i, end) == Some([]) && output[..o] + [] == output[..o];
  }

  // ---- What a decoder reads -----------------------------------------------

  /** The highest index process_string reads on the content from p up to end. */
  function Reach(t: Bytes, p: nat, end: nat): nat
    decreases if p < end then end - p else 0
  {
    if p >= end || At(t, p) == 0 then p
    else match DecodeStep(t, p)
      case Bad(reach, _) => reach
      case Emit(_, next, reach) => var rest := Reach(t, next, end); if reach > rest then reach else rest
  }

  /** Position b is reached by stepping over whole escapes, so a backslash there starts one. */
  predicate Active(t: Bytes, p: nat, b: nat)
    decreases if p < b then b - p else 0
  {
    if p >= b then p == b else Active(t, if At(t, p) == BACKSLASH then p + 2 else p + 1, b)
  }

  predicate UnicodeAt(t: Bytes, b: nat) { At(t, b) == BACKSLASH && At(t, b + 1) == LETTER_U }

  predicate LeadAt(t: Bytes, b: nat) { UnicodeAt(t, b) && 0xD800 <= Hex4(t, b + 2) <= 0xDBFF }

  /** A unicode escape starts at b and what stands in front of it decodes, but for a lead surrogate right before it. */
  predicate FirstCut(t: Bytes, p: nat, b: nat) {
    && p <= b && Active(t, p, b) && UnicodeAt(t, b)
    && (|| DecodeFrom(t, p, b).Some?
        || (p + 6 <= b && Active(t, p, b - 6) && LeadAt(t, b - 6) && DecodeFrom(t, p, b - 6).Some?))
  }

  /** Such an escape starts within the last four bytes in front of the closing quote, too late for its four digits. */
  predicate CutShort(t: Bytes, p: nat, end: nat) {
    exists b :: end - 4 <= b < end && p <= b && FirstCut(t, p, b)
  }

  /** Every byte from p up to the closing quote is there and is not the terminator. */
  lemma {:induction false} ContentHasNoNul(t: Bytes, p: nat, end: nat, k: nat)
    requires ClosingFrom(t, p) == Some(end + 1) && p <= k <= end
    ensures At(t, k) != 0
    decreases end + 1 - p
  {
    if At(t, p) == QUOTE {
    } else if At(t, p) == BACKSLASH {
      if k >= p + 2 { ContentHasNoNul(t, p + 2, end, k); }
    } else if k > p {
      ContentHasNoNul(t, p + 1, end, k);
    }
  }

  lemma BadStepReach(t: Bytes, p: nat, end: nat)
    requires p < end && ClosingFrom(t, p) == Some(end + 1) && DecodeStep(t, p).Bad?
    ensures var s := DecodeStep(t, p);
            && s.reach <= |t| && s.reach <= end + 3
            && (s.reach > end <==> s.hex.Some? && s.hex.value + 3 > end)
  {
    if At(t, p) == BACKSLASH {
      assert ClosingFrom(t, p + 2) == Some(end + 1);
      hide ClosingFrom, UnicodeStep;
      if At(t, p + 1) == LETTER_U { BadUnicodeReach(t, p + 1, end); }
    }
  }

  lemma BadUnicodeReach(t: Bytes, u: nat, end: nat)
    requires ClosingFrom(t, u + 1) == Some(end + 1) && At(t, u) == LETTER_U && UnicodeStep(t, u).Bad?
    ensures var s := UnicodeStep(t, u);
            && s.reach <= |t| && s.reach <= end + 3
            && (s.reach > end <==> s.hex.Some? && s.hex.value + 3 > end)
  {
    hide Hex4, Hex4Reach, ClosingFrom, Encode;
    if Hex4(t, u + 1) < 0 {
      HexGroupReach(t, u + 1, end);
    } else {
      Hex4Skip(t, u + 1);
      ClosingIsAhead(t, u + 5, end);
      if At(t, u + 5) == BACKSLASH && At(t, u + 6) == LETTER_U {
        PlainEscapeSkip(t, u + 5);
        if Hex4(t, u + 7) < 0 {
          HexGroupReach(t, u + 7, end);
        } else {
          Hex4Skip(t, u + 7);
          ClosingIsAhead(t, u + 11, end);
        }
      }
    }
  }

  lemma Hex4Skip(t: Bytes, h: nat)
    requires Hex4(t, h) >= 0
    ensures ClosingFrom(t, h) == ClosingFrom(t, h + 4)
  {
    hide ClosingFrom;
    HexDigitsSkip(t, h, 4);
  }

  /** The closing quote is at or behind the position it is looked for from, and an escape in between is whole. */
  lemma ClosingIsAhead(t: Bytes, q: nat, end: nat)
    requires ClosingFrom(t, q) == Some(end + 1)
    ensures q <= end < |t| && (At(t, q) == BACKSLASH ==> q + 2 <= end)
  {
  }

  lemma HexGroupReach(t: Bytes, h: nat, end: nat)
    requires ClosingFrom(t, h) == Some(end + 1)
    ensures Hex4Reach(t, h) <= |t| && Hex4Reach(t, h) <= end + 3 && (Hex4Reach(t, h) > end <==> h + 3 > end)
  {
    forall k | h <= k <= end ensures At(t, k) != 0 { ContentHasNoNul(t, h, end, k); }
  }

  /**
   A failing step stops at a hex group exactly when it stands on an escape without its digits, or on
   a lead before one.
   */
  lemma BadStepHex(t: Bytes, p: nat)
    requires DecodeStep(t, p).Bad?
    ensures var s := DecodeStep(t, p);
            && (s.hex.Some? ==> s.hex.value == p + 2 || s.hex.value == p + 8)
            && (s.hex == Some(p + 2) <==> UnicodeAt(t, p) && Hex4(t, p + 2) < 0)
            && (s.hex == Some(p + 8) <==> LeadAt(t, p) && UnicodeAt(t, p + 6) && Hex4(t, p + 8) < 0)
  {
    hide Hex4, Encode;
  }

  /** An escape whose four digits would run into the closing quote has none. */
  lemma QuoteIsNoDigit(t: Bytes, h: nat, end: nat)
    requires h <= end < h + 4 && At(t, end) == QUOTE
    ensures Hex4(t, h) < 0
  {
    assert HexDigit(QUOTE) == -1;
  }

  lemma HexDigitsActive(t: Bytes, q: nat, k: nat, b: nat)
    requires (forall i :: q <= i < q + k ==> HexDigit(At(t, i)) >= 0) && q + k <= b
    ensures Active(t, q, b) <==> Active(t, q + k, b)
    decreases k
  {
    if k > 0 {
      HexDigitsActive(t, q + 1, k - 1, b);
      assert HexDigit(At(t, q)) >= 0;
    }
  }

  /** Stepping over a decoded character does not change what is active behind it. */
  lemma ActiveMoves(t: Bytes, p: nat, b: nat)
    requires DecodeStep(t, p).Emit? && DecodeStep(t, p).next <= b
    ensures Active(t, p, b) <==> Active(t, DecodeStep(t, p).next, b)
  {
    hide Hex4, Encode, HexDigit;
    if UnicodeAt(t, p) {
      UnicodeShape(t, p + 1);
      HexDigitsActive(t, p + 2, 4, b);
      if DecodeStep(t, p).next == p + 12 { HexDigitsActive(t, p + 8, 4, b); }
    }
  }

  /** Inside a decoded character only its trail surrogate looks like the start of an escape. */
  lemma InnerEscape(t: Bytes, p: nat, b: nat)
    requires DecodeStep(t, p).Emit? && p < b < DecodeStep(t, p).next && Active(t, p, b) && UnicodeAt(t, b)
    ensures b == p + 6 && DecodeStep(t, p).next == p + 12 && !LeadAt(t, b)
  {
    hide Encode, HexDigit;
    if UnicodeAt(t, p) {
      UnicodeShape(t, p + 1);
      assert forall i :: p + 2 <= i < p + 6 ==> HexDigit(At(t, i)) >= 0;
      assert HexDigit(BACKSLASH) == -1 by { BackslashIsNoDigit(); }
    }
  }

  lemma BackslashIsNoDigit()
    ensures HexDigit(BACKSLASH) == -1
  {
  }

  /** The first cut escape is behind the characters that decode. */
  lemma CutMoves(t: Bytes, p: nat, end: nat, b: nat)
    requires p < end && ClosingFrom(t, p) == Some(end + 1) && DecodeStep(t, p).Emit? && At(t, p) != 0
    requires end - 4 <= b < end && p <= b
    ensures FirstCut(t, p, b) <==> DecodeStep(t, p).next <= b && FirstCut(t, DecodeStep(t, p).next, b)
  {
    hide Encode, Hex4, ClosingFrom, DecodeStep, LeadAt;
    StepStaysInside(t, p, end);
    var n := DecodeStep(t, p).next;
    if n <= b {
      ActiveMoves(t, p, b);
      if n <= b - 6 { ActiveMoves(t, p, b - 6); }
      if p < b - 6 < n && Active(t, p, b - 6) && LeadAt(t, b - 6) {
        assert UnicodeAt(t, b - 6) by { LeadIsUnicode(t, b - 6); }
        InnerEscape(t, p, b - 6);
      }
      if p == b - 6 && LeadAt(t, p) { LeadTakesTwo(t, p); }
    } else if FirstCut(t, p, b) {
      if b == p { UnicodeTakesSix(t, p); } else { InnerEscape(t, p, b); }
      assert false;
    }
  }

  lemma LeadIsUnicode(t: Bytes, b: nat)
    requires LeadAt(t, b)
    ensures UnicodeAt(t, b)
  {
  }

  lemma UnicodeTakesSix(t: Bytes, p: nat)
    requires UnicodeAt(t, p) && DecodeStep(t, p).Emit?
    ensures DecodeStep(t, p).next >= p + 6
  {
    UnicodeShape(t, p + 1);
  }

  lemma LeadTakesTwo(t: Bytes, p: nat)
    requires LeadAt(t, p) && DecodeStep(t, p).Emit?
    ensures DecodeStep(t, p).next == p + 12
  {
    hide Encode, Hex4;
  }

  /**
   The decoder never reads past the terminator nor more than three bytes past
   the closing quote, and reads past that quote exactly when the first escape
   that does not decode is a unicode escape cut short by it. A successful decode
   never does.
   */
  lemma {:induction false} ReachStaysInside(t: Bytes, p: nat, end: nat)
    requires p <= end && ClosingFrom(t, p) == Some(end + 1)
    ensures Reach(t, p, end) <= |t| && Reach(t, p, end) <= end + 3
    ensures Reach(t, p, end) > end <==> CutShort(t, p, end)
    ensures DecodeFrom(t, p, end).Some? ==> Reach(t, p, end) == end
    decreases end - p
  {
    hide DecodeStep, FirstCut, ClosingFrom;
    ContentHasNoNul(t, p, end, p);
    if p < end {
      if DecodeStep(t, p).Bad? {
        BadStepReach(t, p, end);
        BadStepCut(t, p, end);
      } else {
        StepStaysInside(t, p, end);
        var next := DecodeStep(t, p).next;
        ReachStaysInside(t, next, end);
        forall b | end - 4 <= b < end && p <= b ensures FirstCut(t, p, b) <==> next <= b && FirstCut(t, next, b) {
          CutMoves(t, p, end, b);
        }
      }
    }
  }

  /** Where decoding fails at once, it fails on a cut escape or there is none. */
  lemma BadStepCut(t: Bytes, p: nat, end: nat)
    requires p < end && ClosingFrom(t, p) == Some(end + 1) && DecodeStep(t, p).Bad? && At(t, p) != 0
    ensures CutShort(t, p, end) <==> DecodeStep(t, p).hex.Some? && DecodeStep(t, p).hex.value + 3 > end
  {
    hide DecodeStep, Hex4, ClosingFrom;
    BadStepHex(t, p);
    HexInside(t, p, end);
    var s := DecodeStep(t, p);
    forall b | end - 4 <= b < end && p <= b && FirstCut(t, p, b) ensures s.hex == Some(b + 2) {
      assert b == p || b - 6 == p;
      assert At(t, end) == QUOTE;
      QuoteIsNoDigit(t, b + 2, end);
    }
    if s.hex.Some? && s.hex.value + 3 > end {
      var b := s.hex.value - 2;
      assert FirstCut(t, p, b) by { CutHere(t, p, b); }
    }
  }

  /** The hex group of a failing step starts at or in front of the closing quote, which is there. */
  lemma HexInside(t: Bytes, p: nat, end: nat)
    requires p < end && ClosingFrom(t, p) == Some(end + 1) && DecodeStep(t, p).Bad?
    ensures At(t, end) == QUOTE && (DecodeStep(t, p).hex.Some? ==> DecodeStep(t, p).hex.value <= end)
    ensures UnicodeAt(t, p) ==> p + 2 <= end
    ensures LeadAt(t, p) && UnicodeAt(t, p + 6) ==> p + 8 <= end
  {
    hide Encode;
    if UnicodeAt(t, p) {
      assert ClosingFrom(t, p + 2) == Some(end + 1);
      if LeadAt(t, p) && UnicodeAt(t, p + 6) {
        HexDigitsSkip(t, p + 2, 4);
        assert ClosingFrom(t, p + 6) == ClosingFrom(t, p + 8);
      }
    }
  }

  lemma CutHere(t: Bytes, p: nat, b: nat)
    requires (b == p && UnicodeAt(t, p)) || (b == p + 6 && LeadAt(t, p) && UnicodeAt(t, b))
    ensures FirstCut(t, p, b)
  {
    hide Hex4;
    if b == p + 6 {
      assert Hex4(t, p + 2) >= 0;
      HexDigitsActive(t, p + 2, 4, b);
    }
  }

  /** The text "\u",ab is read three bytes past its closing quote. */
  lemma OverReadExample()
    ensures var t: Bytes := [QUOTE, BACKSLASH, LETTER_U, QUOTE, 0x2C, 0x61, 0x62];
            Closing(t, 0) == Some(4) && Reach(t, 1, 3) == 6 == 3 + 3
  {
    var t: Bytes := [QUOTE, BACKSLASH, LETTER_U, QUOTE, 0x2C, 0x61, 0x62];
    assert ClosingFrom(t, 3) == Some(4);
    QuoteIsNoDigit(t, 3, 3);
  }

  // ---- Valid UTF-8 in, valid UTF-8 out ------------------------------------

  lemma HighByteStep(t: Bytes, p: nat)
    requires p < |t| && t[p] >= 0x80
    ensures DecodeStep(t, p) == Emit([t[p]], p + 1, p)
  {
    hide UnicodeStep, SimpleEscape;
  }

  lemma HighByteDecodes(t: Bytes, p: nat, end: nat)
    requires p < end <= |t| && t[p] >= 0x80
    ensures DecodeFrom(t, p, end) == Prepend([t[p]], DecodeFrom(t, p + 1, end))
  {
    hide DecodeStep;
    HighByteStep(t, p);
  }

  /** Bytes above ASCII are copied one by one. */
  lemma {:induction false} HighBytesCopied(t: Bytes, p: nat, k: nat, end: nat)
    requires p + k <= end <= |t| && forall i :: p <= i < p + k ==> t[i] >= 0x80
    requires DecodeFrom(t, p, end).Some?
    ensures DecodeFrom(t, p + k, end).Some?
    ensures DecodeFrom(t, p, end).value == t[p..p + k] + DecodeFrom(t, p + k, end).value
    decreases k
  {
    hide DecodeFrom;
    if k > 0 {
      HighByteDecodes(t, p, end);
      HighBytesCopied(t, p + 1, k - 1, end);
      assert t[p..p + k] == [t[p]] + t[p + 1..p + k];
    } else {
      assert t[p..p + k] == [];
    }
  }

  lemma {:induction false} HighBytesSkipped(t: Bytes, p: nat, k: nat)
    requires p + k <= |t| && forall i :: p <= i < p + k ==> t[i] >= 0x80
    ensures ClosingFrom(t, p) == ClosingFrom(t, p + k)
    decreases k
  {
    if k > 0 {
      HighBytesSkipped(t, p + 1, k - 1);
    }
  }

  lemma CharacterThenValid(out: Bytes, rest: Bytes, cp: nat)
    requires Scalar(cp) && out == Encode(cp) && ValidUtf8(rest)
    ensures ValidUtf8(out + rest)
  {
    EncodedVerifies(cp, rest);
    ValidAppend(out, rest);
  }

  lemma AfterAscii(t: Bytes, p: nat, k: nat, end: nat)
    requires p + k <= end <= |t| && ValidUtf8(t[p..end])
    requires forall i :: p <= i < p + k ==> At(t, i) < 0x80
    ensures ValidUtf8(t[p + k..end])
  {
    hide ValidUtf8;
    var s := t[p..end];
    forall i | 0 <= i < k ensures s[i] < 0x80 {
      assert s[i] == At(t, p + i);
    }
    DropAscii(s, k);
    assert s[k..] == t[p + k..end];
  }

  lemma AfterHighBytes(t: Bytes, p: nat, end: nat) returns (n: nat, cp: nat)
    requires p < end <= |t| && t[p] >= 0x80 && ValidUtf8(t[p..end])
    ensures 0 < n <= end - p && Scalar(cp) && t[p..p + n] == Encode(cp)
    ensures (forall i :: p <= i < p + n ==> t[i] >= 0x80) && ValidUtf8(t[p + n..end])
  {
    hide CodePoint;
    var s := t[p..end];
    n := VerifiedLength(s);
    cp := VerifiedIsEncoded(s);
    assert forall i :: p <= i < p + n ==> t[i] == s[i - p];
    SliceOfSlice(t, p, end, 0, n);
    SliceOfSlice(t, p, end, n, end - p);
  }

  /** A decoded string is valid UTF-8 whenever the text between its quotes is. */
  lemma {:induction false} DecodeKeepsUtf8(t: Bytes, p: nat, end: nat)
    requires p <= end && ClosingFrom(t, p) == Some(end + 1) && ValidUtf8(t[p..end])
    requires DecodeFrom(t, p, end).Some?
    ensures ValidUtf8(DecodeFrom(t, p, end).value)
    decreases end - p
  {
    hide DecodeStep, Encode, ClosingFrom, VerifiedLength, WritesCharacter;
    ContentHasNoNul(t, p, end, p);
    if p < end {
      if t[p] < 0x80 {
        var step := DecodeStep(t, p);
        StepStaysInside(t, p, end);
        AfterAscii(t, p, step.next - p, end);
        DecodeKeepsUtf8(t, step.next, end);
        var cp := WrittenCodePoint(t, p, step);
        CharacterThenValid(step.out, DecodeFrom(t, step.next, end).value, cp);
      } else {
        var n, cp := AfterHighBytes(t, p, end);
        HighBytesCopied(t, p, n, end);
        HighBytesSkipped(t, p, n);
        DecodeKeepsUtf8(t, p + n, end);
        CharacterThenValid(t[p..p + n], DecodeFrom(t, p + n, end).value, cp);
      }
    }
  }

  lemma WrittenCodePoint(t: Bytes, p: nat, s: Step) returns (cp: nat)
    requires s.Emit? && WritesCharacter(t, p, s) && At(t, p) < 0x80
    ensures Scalar(cp) && s.out == Encode(cp)
  {
    if s.next == p + 1 && s.out == [At(t, p)] {
      cp := At(t, p) as nat;
    } else {
      cp :| Scalar(cp) && s.out == Encode(cp);
    }
  }

  // ---- Escaping on output -------------------------------------------------

  function LowerHex(n: nat): byte
    requires n < 16
  {
    if n < 10 then (0x30 + n) as byte else (0x61 + n - 10) as byte
  }

  /** What json_serialize_string writes for one byte. */
  function EscapeByte(c: byte, escapeSlashes: bool): Bytes {
    match c
    case 0x22 => [BACKSLASH, 0x22]
    case 0x5C => [BACKSLASH, 0x5C]
    case 0x08 => [BACKSLASH, 0x62]
    case 0x0C => [BACKSLASH, 0x66]
    case 0x0A => [BACKSLASH, 0x6E]
    case 0x0D => [BACKSLASH, 0x72]
    case 0x09 => [BACKSLASH, 0x74]
    case 0x2F => if escapeSlashes then [BACKSLASH, 0x2F] else [0x2F]
    case _ =>
      if c < 0x20 then [BACKSLASH, LETTER_U, 0x30, 0x30, LowerHex(c as nat / 16), LowerHex(c as nat % 16)] else [c]
  }

  function EscapeBytes(s: Bytes, escapeSlashes: bool): Bytes {
    if s == [] then [] else EscapeByte(s[0], escapeSlashes) + EscapeBytes(s[1..], escapeSlashes)
  }

  function Quote(s: Bytes, escapeSlashes: bool): Bytes {
    [QUOTE] + EscapeBytes(s, escapeSlashes) + [QUOTE]
  }

  /** The text has w at position p. */
  predicate HasAt(t: Bytes, p: nat, w: Bytes) {
    p + |w| <= |t| && t[p..p + |w|] == w
  }

  lemma HasAtIndex(t: Bytes, p: nat, w: Bytes, i: nat)
    requires HasAt(t, p, w) && i < |w|
    ensures At(t, p + i) == w[i]
  {
    assert t[p..p + |w|][i] == t[p + i];
  }

  lemma HasAtSplit(t: Bytes, p: nat, v: Bytes, w: Bytes)
    requires HasAt(t, p, v + w)
    ensures HasAt(t, p, v) && HasAt(t, p + |v|, w)
  {
    assert t[p..p + |v|] == t[p..p + |v + w|][..|v|];
    assert t[p + |v|..p + |v| + |w|] == t[p..p + |v + w|][|v|..];
  }

  lemma ControlHex(t: Bytes, h: nat, c: byte)
    requires c < 0x20 && At(t, h) == 0x30 && At(t, h + 1) == 0x30
    requires At(t, h + 2) == LowerHex(c as nat / 16) && At(t, h + 3) == LowerHex(c as nat % 16)
    ensures Hex4(t, h) == c as int && HexGroup(t, h)
  {
    assert HexDigit(At(t, h)) == 0 && HexDigit(At(t, h + 1)) == 0;
    assert HexDigit(At(t, h + 2)) == c as int / 16 && HexDigit(At(t, h + 3)) == c as int % 16;
  }

  lemma ControlDecodes(t: Bytes, p: nat, c: byte)
    requires c < 0x20
    requires HasAt(t, p, [BACKSLASH, LETTER_U, 0x30, 0x30, LowerHex(c as nat / 16), LowerHex(c as nat % 16)])
    ensures DecodeStep(t, p).Emit? && DecodeStep(t, p).out == [c] && DecodeStep(t, p).next == p + 6
    ensures ClosingFrom(t, p) == ClosingFrom(t, p + 6) && At(t, p) != 0
  {
    hide Hex4, HexDigit, LowerHex, HexGroup;
    var w: Bytes := [BACKSLASH, LETTER_U, 0x30, 0x30, LowerHex(c as nat / 16), LowerHex(c as nat % 16)];
    HasAtIndex(t, p, w, 0);
    HasAtIndex(t, p, w, 1);
    HasAtIndex(t, p, w, 2);
    HasAtIndex(t, p, w, 3);
    HasAtIndex(t, p, w, 4);
    HasAtIndex(t, p, w, 5);
    ControlHex(t, p + 2, c);
    HexGroupSkip(t, p + 2);
    PlainEscapeSkip(t, p);
    assert Encode(c as nat) == [c];
  }

  /** One escaped byte is passed by the quote search and decoded back to itself. */
  lemma EscapeByteDecodes(t: Bytes, p: nat, c: byte, escapeSlashes: bool)
    requires HasAt(t, p, EscapeByte(c, escapeSlashes))
    ensures var w := EscapeByte(c, escapeSlashes);
            && DecodeStep(t, p).Emit? && DecodeStep(t, p).out == [c] && DecodeStep(t, p).next == p + |w|
            && ClosingFrom(t, p) == ClosingFrom(t, p + |w|) && At(t, p) != 0
  {
    hide UnicodeStep;
    var w := EscapeByte(c, escapeSlashes);
    if |w| == 6 {
      ControlDecodes(t, p, c);
    } else {
      HasAtIndex(t, p, w, 0);
      if |w| == 2 {
        HasAtIndex(t, p, w, 1);
        PlainEscapeSkip(t, p);
      }
    }
  }

  lemma QuoteCloses(t: Bytes, p: nat)
    requires At(t, p) == QUOTE
    ensures ClosingFrom(t, p) == Some(p + 1)
  {
  }

  /** Decoding undoes escaping, for every byte string and both slash settings. */
  lemma {:induction false} EscapeBytesDecode(t: Bytes, p: nat, s: Bytes, escapeSlashes: bool)
    requires HasAt(t, p, EscapeBytes(s, escapeSlashes) + [QUOTE])
    ensures var end := p + |EscapeBytes(s, escapeSlashes)|;
            ClosingFrom(t, p) == Some(end + 1) && DecodeFrom(t, p, end) == Some(s)
    decreases |s|
  {
    hide DecodeStep, EscapeByte, HasAt, ClosingFrom;
    if s == [] {
      HasAtIndex(t, p, EscapeBytes(s, escapeSlashes) + [QUOTE], 0);
      assert ClosingFrom(t, p) == Some(p + 1) by { QuoteCloses(t, p); }
    } else {
      var w, rest := EscapeByte(s[0], escapeSlashes), EscapeBytes(s[1..], escapeSlashes);
      assert EscapeBytes(s, escapeSlashes) + [QUOTE] == w + (rest + [QUOTE]);
      HasAtSplit(t, p, w, rest + [QUOTE]);
      EscapeByteDecodes(t, p, s[0], escapeSlashes);
      EscapeBytesDecode(t, p + |w|, s[1..], escapeSlashes);
      assert s == [s[0]] + s[1..];
    }
  }

  lemma QuoteDecodes(t: Bytes, p: nat, s: Bytes, escapeSlashes: bool)
    requires HasAt(t, p, Quote(s, escapeSlashes))
    ensures QuotedString(t, p) == Some((s, p + |Quote(s, escapeSlashes)|))
  {
    hide DecodeFrom, EscapeBytes, ClosingFrom;
    var e := EscapeBytes(s, escapeSlashes);
    HasAtIndex(t, p, Quote(s, escapeSlashes), 0);
    assert Quote(s, escapeSlashes) == [QUOTE] + (e + [QUOTE]);
    HasAtSplit(t, p, [QUOTE], e + [QUOTE]);
    EscapeBytesDecode(t, p + 1, s, escapeSlashes);
  }
}
