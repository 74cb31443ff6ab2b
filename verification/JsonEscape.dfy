/** The escapes of a string, written out digit by digit, decode to the characters they stand for. */
module JsonEscape {
  import opened Arithmetic
  import opened Bytes
  import opened Utf8
  import opened JsonString

  /** The hexadecimal digit of a value below sixteen, in capitals or not. */
  function DigitChar(d: nat, capital: bool): byte
    requires d < 16
  {
    if d < 10 then (0x30 + d) as byte else if capital then (0x41 + d - 10) as byte else (0x61 + d - 10) as byte
  }

  /** Four hexadecimal digits, each in either case. */
  function HexText(n: nat, capitals: seq<bool>): Bytes
    requires n < 0x10000 && |capitals| == 4
  {
    [DigitChar(n / 0x1000, capitals[0]), DigitChar(n / 0x100 % 16, capitals[1]),
     DigitChar(n / 0x10 % 16, capitals[2]), DigitChar(n % 16, capitals[3])]
  }

  /** Section 7 of RFC 8259: a reverse solidus, the letter u and four hexadecimal digits. */
  function EscapeText(n: nat, capitals: seq<bool>): Bytes
    requires n < 0x10000 && |capitals| == 4
  {
    [BACKSLASH, LETTER_U] + HexText(n, capitals)
  }

  /** The two UTF-16 code units of a character outside the basic plane. */
  function Lead(cp: nat): nat
    requires 0x10000 <= cp <= 0x10FFFF
  {
    0xD800 + (cp - 0x10000) / 0x400
  }

  function Trail(cp: nat): nat
    requires 0x10000 <= cp <= 0x10FFFF
  {
    0xDC00 + (cp - 0x10000) % 0x400
  }

  lemma DigitReads(d: nat, capital: bool)
    requires d < 16
    ensures HexDigit(DigitChar(d, capital)) == d && DigitChar(d, capital) != 0
  {
  }

  lemma FourDigitsAdd(n: nat)
    requires n < 0x10000
    ensures n / 0x1000 < 16
    ensures n / 0x1000 * 0x1000 + n / 0x100 % 16 * 0x100 + n / 0x10 % 16 * 0x10 + n % 16 == n
  {
    var a, r := n / 0x10, n % 16;
    var b, s := a / 0x10, a % 16;
    var c, t := b / 0x10, b % 16;
    assert n == 0x10 * a + r && a == 0x10 * b + s && b == 0x10 * c + t;
    DivisionIsUnique(n, 0x100, b, 0x10 * s + r);
    DivisionIsUnique(n, 0x1000, c, 0x100 * t + 0x10 * s + r);
  }

  lemma HexReads(t: Bytes, i: nat, n: nat, capitals: seq<bool>)
    requires n < 0x10000 && |capitals| == 4 && HasAt(t, i, HexText(n, capitals))
    ensures Hex4(t, i) == n
  {
    var w := HexText(n, capitals);
    HasAtIndex(t, i, w, 0);
    HasAtIndex(t, i, w, 1);
    HasAtIndex(t, i, w, 2);
    HasAtIndex(t, i, w, 3);
    DigitReads(n / 0x1000, capitals[0]);
    DigitReads(n / 0x100 % 16, capitals[1]);
    DigitReads(n / 0x10 % 16, capitals[2]);
    DigitReads(n % 16, capitals[3]);
    FourDigitsAdd(n);
    hide HexDigit, DigitChar, HasAt;
  }

  lemma EscapeReads(t: Bytes, p: nat, n: nat, capitals: seq<bool>)
    requires n < 0x10000 && |capitals| == 4 && HasAt(t, p, EscapeText(n, capitals))
    ensures At(t, p) == BACKSLASH && At(t, p + 1) == LETTER_U && Hex4(t, p + 2) == n
  {
    hide HasAt, Hex4, HexText;
    HasAtIndex(t, p, EscapeText(n, capitals), 0);
    HasAtIndex(t, p, EscapeText(n, capitals), 1);
    HasAtSplit(t, p, [BACKSLASH, LETTER_U], HexText(n, capitals));
    HexReads(t, p + 2, n, capitals);
  }

  /** An escaped character of the basic plane decodes to its standard encoding, whatever the case of its digits. */
  lemma EscapeDecodes(t: Bytes, p: nat, end: nat, cp: nat, capitals: seq<bool>)
    requires cp < 0x10000 && Scalar(cp) && |capitals| == 4 && HasAt(t, p, EscapeText(cp, capitals)) && p < end
    ensures DecodeFrom(t, p, end) == Prepend(StandardEncoding(cp), DecodeFrom(t, p + 6, end))
  {
    hide HasAt, Hex4, EscapeText, Encode, StandardEncoding;
    EscapeReads(t, p, cp, capitals);
    EncodeIsStandard(cp);
  }

  /** Two escapes that are the UTF-16 form of any other character decode to that character's standard encoding. */
  lemma PairDecodes(t: Bytes, p: nat, end: nat, cp: nat, capitals: seq<bool>, more: seq<bool>)
    requires 0x10000 <= cp <= 0x10FFFF && |capitals| == |more| == 4 && p < end
    requires HasAt(t, p, EscapeText(Lead(cp), capitals)) && HasAt(t, p + 6, EscapeText(Trail(cp), more))
    ensures DecodeFrom(t, p, end) == Prepend(StandardEncoding(cp), DecodeFrom(t, p + 12, end))
  {
    hide HasAt, Hex4, EscapeText, Encode, StandardEncoding;
    EscapeReads(t, p, Lead(cp), capitals);
    EscapeReads(t, p + 6, Trail(cp), more);
    assert (Lead(cp) - 0xD800) * 0x400 + (Trail(cp) - 0xDC00) + 0x10000 == cp;
    EncodeIsStandard(cp);
  }

  /** Alone between its quotes the escape is that character and nothing else. */
  lemma EscapeIsCharacter(cp: nat, capitals: seq<bool>, more: seq<bool>)
    requires Scalar(cp) && |capitals| == |more| == 4
    ensures var w := if cp < 0x10000 then EscapeText(cp, capitals)
                     else EscapeText(Lead(cp), capitals) + EscapeText(Trail(cp), more);
            DecodeFrom(w, 0, |w|) == Some(StandardEncoding(cp))
  {
    hide EscapeText, StandardEncoding;
    if cp < 0x10000 {
      var w := EscapeText(cp, capitals);
      EscapeLength(cp, capitals);
      EscapeDecodes(w, 0, 6, cp, capitals);
      assert DecodeFrom(w, 6, 6) == Some([]) && StandardEncoding(cp) + [] == StandardEncoding(cp);
    } else {
      var a, b := EscapeText(Lead(cp), capitals), EscapeText(Trail(cp), more);
      EscapeLength(Lead(cp), capitals);
      EscapeLength(Trail(cp), more);
      HasAtSplit(a + b, 0, a, b);
      PairDecodes(a + b, 0, 12, cp, capitals, more);
      assert DecodeFrom(a + b, 12, 12) == Some([]) && StandardEncoding(cp) + [] == StandardEncoding(cp);
    }
  }

  /** The two-character escapes of section 7 of RFC 8259 and what they stand for: " \\ / b f n r t */
  const Table: seq<(byte, byte)> := [(0x22, 0x22), (0x5C, 0x5C), (0x2F, 0x2F), (0x62, 0x08),
                                     (0x66, 0x0C), (0x6E, 0x0A), (0x72, 0x0D), (0x74, 0x09)]

  lemma ShortEscapeDecodes(t: Bytes, p: nat, end: nat, k: nat)
    requires k < |Table| && HasAt(t, p, [BACKSLASH, Table[k].0]) && p < end
    ensures DecodeFrom(t, p, end) == Prepend([Table[k].1], DecodeFrom(t, p + 2, end))
  {
    HasAtIndex(t, p, [BACKSLASH, Table[k].0], 0);
    HasAtIndex(t, p, [BACKSLASH, Table[k].0], 1);
    hide HasAt, UnicodeStep;
  }

  lemma EscapeLength(n: nat, capitals: seq<bool>)
    requires n < 0x10000 && |capitals| == 4
    ensures |EscapeText(n, capitals)| == 6
  {
  }
}
