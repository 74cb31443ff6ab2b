/** How what the parser accepts as white space, numbers and strings compares with the grammar of RFC 8259. */
module JsonGrammar {
  import opened Bytes
  import opened JsonString
  import opened JsonText
  import opened JsonParser
  import opened Utf8

  // ---- White space and separators -----------------------------------------

  /** Section 2 of RFC 8259: space, tab, line feed and carriage return. */
  predicate StandardSpace(c: byte) { c == 0x20 || c == 0x09 || c == 0x0A || c == 0x0D }

  /** The parser also skips vertical tabs and form feeds, and nothing else. */
  lemma SpacesIff(c: byte)
    ensures IsSpace(c) <==> StandardSpace(c) || c == 0x0B || c == 0x0C
  {
  }

  /** A comma in front of the closing bracket is accepted, although the grammar has none there: [true,] */
  lemma TrailingCommaAccepted(read: NumberReader)
    ensures ParseText([OPEN_BRACKET, 0x74, 0x72, 0x75, 0x65, COMMA, CLOSE_BRACKET], read) == Some(Arr([Bool(true)]))
  {
    var t: Bytes := [OPEN_BRACKET, 0x74, 0x72, 0x75, 0x65, COMMA, CLOSE_BRACKET];
    assert t[1..] == TRUE_TOKEN + [COMMA, CLOSE_BRACKET];
    assert TokenAt(t, 1, TRUE_TOKEN);
    assert SkipSpaces(t, 0) == 0 && SkipSpaces(t, 1) == 1 && SkipSpaces(t, 5) == 5 && SkipSpaces(t, 6) == 6;
    assert ParseValue(t, 1, 1, read) == Some((Bool(true), 5));
    assert AfterElement(t, 5, CLOSE_BRACKET) == Closed(7);
    assert ParseItems(t, 1, 1, read) == Some(([Bool(true)], 7));
    assert ParseValue(t, 0, 0, read) == Some((Arr([Bool(true)]), 7));
  }

  // ---- Numbers ------------------------------------------------------------

  predicate DigitsFrom(w: Bytes, a: nat, b: nat) { a < b <= |w| && forall k :: a <= k < b ==> IsDigit(w[k]) }

  predicate Exponent(c: byte) { c == 0x65 || c == 0x45 }

  predicate IntegerPart(w: Bytes, a: nat, b: nat) { DigitsFrom(w, a, b) && (w[a] == 0x30 ==> b == a + 1) }

  predicate FractionPart(w: Bytes, a: nat, b: nat) { a == b || (a < |w| && w[a] == 0x2E && DigitsFrom(w, a + 1, b)) }

  predicate ExponentPart(w: Bytes, a: nat, b: nat) {
    || a == b
    || (a + 1 < |w| && Exponent(w[a]) &&
        (DigitsFrom(w, a + 1, b) || ((w[a + 1] == 0x2B || w[a + 1] == 0x2D) && DigitsFrom(w, a + 2, b))))
  }

  /** The integer, fraction and exponent parts end at b, c and the end of the word. */
  predicate NumberParts(w: Bytes, b: nat, c: nat) {
    var a := Sign(w);
    a <= b <= c <= |w| && IntegerPart(w, a, b) && FractionPart(w, b, c) && ExponentPart(w, c, |w|)
  }

  function Sign(w: Bytes): nat { if w != [] && w[0] == 0x2D then 1 else 0 }

  /** Section 6 of RFC 8259. */
  ghost predicate StandardNumber(w: Bytes) { exists b: nat, c: nat :: NumberParts(w, b, c) }

  /** A zero with an exponent right behind it. */
  predicate ZeroExponent(w: Bytes) {
    var a := Sign(w); a + 1 < |w| && w[a] == 0x30 && Exponent(w[a + 1])
  }

  /** Of the numbers of the grammar the spelling rule refuses exactly those like 0e1 and -0E2. */
  lemma RefusedNumbersIff(w: Bytes)
    requires StandardNumber(w)
    ensures IsDecimal(w) <==> !ZeroExponent(w)
  {
    var b: nat, c: nat :| NumberParts(w, b, c);
    forall i | 0 <= i < |w| ensures w[i] != 0x78 && w[i] != 0x58 {
      if Sign(w) <= i < b {
        assert IsDigit(w[i]);
      } else if b < i < c {
        assert IsDigit(w[i]);
      }
    }
  }

  /** The spelling rule lets through 1. and -.5, which are no numbers of the grammar. */
  lemma AcceptedBeyondGrammar()
    ensures var w: Bytes := [0x31, 0x2E]; IsDecimal(w) && !StandardNumber(w)
    ensures var w: Bytes := [0x2D, 0x2E, 0x35]; IsDecimal(w) && !StandardNumber(w)
  {
  }

  // ---- Strings ------------------------------------------------------------

  /** Section 7 of RFC 8259: the length of the character at p, zero when there is none. */
  function CharLength(t: Bytes, p: nat): nat {
    var c := At(t, p);
    if c == BACKSLASH then
      if At(t, p + 1) == LETTER_U then (if Hex4(t, p + 2) >= 0 then 6 else 0)
      else if SimpleEscape(At(t, p + 1)).Some? then 2
      else 0
    else if c < 0x20 || c == QUOTE then 0
    else 1
  }

  /** The content from p up to end is made of characters of the grammar. */
  predicate StandardChars(t: Bytes, p: nat, end: nat)
    decreases if p < end then end - p else 0
  {
    p == end || (p < end && CharLength(t, p) > 0 && StandardChars(t, p + CharLength(t, p), end))
  }

  predicate LeadSurrogate(t: Bytes, p: nat) { UnicodeAt(t, p) && 0xD800 <= Hex4(t, p + 2) <= 0xDBFF }
  predicate TrailSurrogate(t: Bytes, p: nat) { UnicodeAt(t, p) && 0xDC00 <= Hex4(t, p + 2) <= 0xDFFF }

  /** Escaped surrogates come in pairs only: each lead right before its trail. */
  predicate SurrogatesPaired(t: Bytes, p: nat, end: nat)
    decreases if p < end then end - p else 0
  {
    if p >= end || CharLength(t, p) == 0 then true
    else if LeadSurrogate(t, p) then TrailSurrogate(t, p + 6) && SurrogatesPaired(t, p + 12, end)
    else !TrailSurrogate(t, p) && SurrogatesPaired(t, p + CharLength(t, p), end)
  }

  /**
   Of the strings of the grammar the decoder refuses exactly those with an unpaired surrogate, and it
   accepts no other.
   */
  lemma {:induction false} DecodesIff(t: Bytes, p: nat, end: nat)
    requires p <= end && ClosingFrom(t, p) == Some(end + 1)
    ensures DecodeFrom(t, p, end).Some? <==> StandardChars(t, p, end) && SurrogatesPaired(t, p, end)
    decreases end - p
  {
    hide ClosingFrom, DecodeStep, CharLength, Hex4, UnicodeAt;
    ContentHasNoNul(t, p, end, p);
    if p < end {
      StepIsChar(t, p, end);
      if DecodeStep(t, p).Emit? {
        StepStaysInside(t, p, end);
        var next := DecodeStep(t, p).next;
        DecodesIff(t, next, end);
        assert DecodeFrom(t, p, end).Some? <==> DecodeFrom(t, next, end).Some?;
        hide DecodeFrom, LeadSurrogate, TrailSurrogate;
        if LeadSurrogate(t, p) { PairIsTwoChars(t, p, end); }
      }
    }
  }

  lemma PairIsTwoChars(t: Bytes, p: nat, end: nat)
    requires CharLength(t, p) == 6 == CharLength(t, p + 6) && p + 12 <= end
    ensures StandardChars(t, p, end) <==> StandardChars(t, p + 12, end)
  {
    hide CharLength;
    assert StandardChars(t, p, end) <==> StandardChars(t, p + 6, end);
    assert StandardChars(t, p + 6, end) <==> StandardChars(t, p + 12, end);
  }

  /** One step of the decoder is one character, or a pair of surrogates. */
  lemma StepIsChar(t: Bytes, p: nat, end: nat)
    requires p < end && ClosingFrom(t, p) == Some(end + 1)
    ensures var s := DecodeStep(t, p);
            && (s.Emit? && !LeadSurrogate(t, p) ==>
                  CharLength(t, p) > 0 && s.next == p + CharLength(t, p) && !TrailSurrogate(t, p))
            && (s.Emit? && LeadSurrogate(t, p) ==>
                  CharLength(t, p) == 6 == CharLength(t, p + 6) && s.next == p + 12 && TrailSurrogate(t, p + 6))
            && (s.Bad? && CharLength(t, p) > 0 ==>
                  TrailSurrogate(t, p) || (LeadSurrogate(t, p) && !TrailSurrogate(t, p + 6)))
  {
    hide Hex4, Encode;
    assert ClosingFrom(t, p).Some? ==> At(t, p) != QUOTE || end == p;
  }
}
