/**
 UTF-8 as the JSON library checks and produces it: byte-sequence verification,
 the whole-string check, and the encoder of the escape decoder.
 */
module Utf8 {
  import opened Bytes

  predicate Continuation(b: byte) { 0x80 <= b < 0xC0 }

  /** num_bytes_in_utf8_sequence: the length a lead byte announces, 0 for a byte that cannot lead. */
  function AnnouncedLength(c: byte): nat {
    if c == 0xC0 || c == 0xC1 || c > 0xF4 || Continuation(c) then 0
    else if c < 0x80 then 1
    else if c < 0xE0 then 2
    else if c < 0xF0 then 3
    else 4
  }

  /** The code point of a sequence whose announced bytes are all there. */
  function CodePoint(s: Bytes, n: nat): nat
    requires 1 <= n <= 4 && n <= |s|
  {
    match n
    case 1 => s[0] as nat
    case 2 => (s[0] as nat % 0x20) * 0x40 + s[1] as nat % 0x40
    case 3 => ((s[0] as nat % 0x10) * 0x40 + s[1] as nat % 0x40) * 0x40 + s[2] as nat % 0x40
    case 4 => (((s[0] as nat % 8) * 0x40 + s[1] as nat % 0x40) * 0x40 + s[2] as nat % 0x40) * 0x40 + s[3] as nat % 0x40
  }

  /** verify_utf8_sequence: the length of a correct sequence at the front, 0 for a failure. */
  function VerifiedLength(s: Bytes): (n: nat)
    requires |s| > 0
    ensures n <= |s|
  {
    var n := AnnouncedLength(s[0]);
    if n == 0 || n > |s| || !(forall i :: 1 <= i < n ==> Continuation(s[i])) then 0
    else
      var cp := CodePoint(s, n);
      if (cp < 0x80 && n > 1) || (cp < 0x800 && n > 2) || (cp < 0x10000 && n > 3) then 0
      else if cp > 0x10FFFF || 0xD800 <= cp <= 0xDFFF then 0
      else n
  }

  predicate ValidUtf8(s: Bytes) {
    s == [] || (var n := VerifiedLength(s); n > 0 && ValidUtf8(s[n..]))
  }

  /** is_valid_utf8 */
  method IsValidUtf8(s: Bytes) returns (ok: bool)
    ensures ok == ValidUtf8(s)
  {
    hide VerifiedLength;
    var p := 0;
    while p < |s|
      invariant 0 <= p <= |s|
      invariant ValidUtf8(s[p..]) == ValidUtf8(s)
    {
      var n := VerifiedLength(s[p..]);
      if n == 0 {
        return false;
      }
      assert s[p..][n..] == s[p + n..];
      p := p + n;
    }
    ok := true;
  }

  /** A Unicode scalar value (section 3 of RFC 3629). */
  predicate Scalar(cp: nat) { cp <= 0x10FFFF && !(0xD800 <= cp <= 0xDFFF) }

  /** The byte arithmetic of parse_utf16. */
  function Encode(cp: nat): Bytes
    requires Scalar(cp)
  {
    if cp < 0x80 then [cp as byte]
    else if cp < 0x800 then [(cp / 0x40 % 0x20 + 0xC0) as byte, (cp % 0x40 + 0x80) as byte]
    else if cp < 0x10000 then
      [(cp / 0x1000 % 0x10 + 0xE0) as byte, (cp / 0x40 % 0x40 + 0x80) as byte, (cp % 0x40 + 0x80) as byte]
    else
      [(cp / 0x40000 % 8 + 0xF0) as byte, (cp / 0x1000 % 0x40 + 0x80) as byte, (cp / 0x40 % 0x40 + 0x80) as byte,
        (cp % 0x40 + 0x80) as byte]
  }

  /** The last n six-bit digits of a number, each in a continuation byte. */
  function Continuations(cp: nat, n: nat): Bytes {
    if n == 0 then [] else Continuations(cp / 0x40, n - 1) + [(0x80 + cp % 0x40) as byte]
  }

  /**
   Section 3 of RFC 3629: a lead byte for the number of bytes, with the leading bits, and six bits in
   each byte behind it.
   */
  function StandardEncoding(cp: nat): Bytes
    requires Scalar(cp)
  {
    if cp < 0x80 then [cp as byte]
    else if cp < 0x800 then [(0xC0 + cp / 0x40) as byte] + Continuations(cp, 1)
    else if cp < 0x10000 then [(0xE0 + cp / 0x1000) as byte] + Continuations(cp, 2)
    else [(0xF0 + cp / 0x40000) as byte] + Continuations(cp, 3)
  }

  /** The masks and shifts of the source write the standard encoding. */
  lemma EncodeIsStandard(cp: nat)
    requires Scalar(cp)
    ensures Encode(cp) == StandardEncoding(cp)
  {
    Digits(cp);
    QuotientsCompose(cp);
    Continued(cp);
  }

  lemma Continued(cp: nat)
    ensures Continuations(cp, 1) == [(0x80 + cp % 0x40) as byte]
    ensures Continuations(cp, 2) == [(0x80 + cp / 0x40 % 0x40) as byte, (0x80 + cp % 0x40) as byte]
    ensures Continuations(cp, 3) ==
            [(0x80 + cp / 0x40 / 0x40 % 0x40) as byte, (0x80 + cp / 0x40 % 0x40) as byte, (0x80 + cp % 0x40) as byte]
  {
    var a, b := cp / 0x40, cp / 0x40 / 0x40;
    assert Continuations(b, 1) == Continuations(b / 0x40, 0) + [(0x80 + b % 0x40) as byte];
    assert Continuations(a, 1) == Continuations(b, 0) + [(0x80 + a % 0x40) as byte];
    assert Continuations(a, 2) == Continuations(b, 1) + [(0x80 + a % 0x40) as byte];
    assert Continuations(cp, 1) == Continuations(a, 0) + [(0x80 + cp % 0x40) as byte];
  }

  lemma QuotientsCompose(cp: nat)
    ensures cp / 0x40 / 0x40 == cp / 0x1000 && cp / 0x1000 / 0x40 == cp / 0x40000
  {
  }

  function EncodeAll(cps: seq<nat>): Bytes
    requires forall cp :: cp in cps ==> Scalar(cp)
  {
    if cps == [] then [] else Encode(cps[0]) + EncodeAll(cps[1..])
  }

  /** The base-64 digits of a code point add up to it again. */
  lemma Digits(cp: nat)
    requires cp <= 0x10FFFF
    ensures cp == (cp / 0x40) * 0x40 + cp % 0x40
    ensures cp / 0x40 == (cp / 0x1000) * 0x40 + cp / 0x40 % 0x40
    ensures cp / 0x1000 == (cp / 0x40000) * 0x40 + cp / 0x1000 % 0x40
    ensures cp / 0x40000 <= 4
    ensures cp < 0x10000 ==> cp / 0x1000 <= 0xF
    ensures cp < 0x800 ==> cp / 0x40 <= 0x1F
  {
  }

  lemma EncodedLength2(cp: nat, s: Bytes)
    requires 0x80 <= cp < 0x800 && |s| >= 2 && s[..2] == Encode(cp)
    ensures VerifiedLength(s) == 2
  {
    Digits(cp);
    assert s[0] == s[..2][0] && s[1] == s[..2][1];
    TwoDigits(s, cp / 0x40, cp % 0x40);
    hide Encode, CodePoint;
  }

  lemma TwoDigits(s: Bytes, a: nat, b: nat)
    requires |s| >= 2 && 2 <= a < 0x20 && b < 0x40 && s[0] as nat == 0xC0 + a && s[1] as nat == 0x80 + b
    ensures CodePoint(s, 2) == a * 0x40 + b && AnnouncedLength(s[0]) == 2 && Continuation(s[1])
  {
  }

  lemma EncodedLength3(cp: nat, s: Bytes)
    requires 0x800 <= cp < 0x10000 && Scalar(cp) && |s| >= 3 && s[..3] == Encode(cp)
    ensures VerifiedLength(s) == 3
  {
    Digits(cp);
    assert s[0] == s[..3][0] && s[1] == s[..3][1] && s[2] == s[..3][2];
    ThreeDigits(s, cp / 0x1000, cp / 0x40 % 0x40, cp % 0x40);
    hide Encode, CodePoint;
  }

  lemma ThreeDigits(s: Bytes, a: nat, b: nat, c: nat)
    requires |s| >= 3 && a < 0x10 && b < 0x40 && c < 0x40
    requires s[0] as nat == 0xE0 + a && s[1] as nat == 0x80 + b && s[2] as nat == 0x80 + c
    ensures CodePoint(s, 3) == (a * 0x40 + b) * 0x40 + c
    ensures AnnouncedLength(s[0]) == 3 && Continuation(s[1]) && Continuation(s[2])
  {
  }

  lemma FourDigits(s: Bytes, a: nat, b: nat, c: nat, d: nat)
    requires |s| >= 4 && a <= 4 && b < 0x40 && c < 0x40 && d < 0x40
    requires s[0] as nat == 0xF0 + a && s[1] as nat == 0x80 + b && s[2] as nat == 0x80 + c && s[3] as nat == 0x80 + d
    ensures CodePoint(s, 4) == ((a * 0x40 + b) * 0x40 + c) * 0x40 + d
    ensures AnnouncedLength(s[0]) == 4 && Continuation(s[1]) && Continuation(s[2]) && Continuation(s[3])
  {
  }

  lemma EncodedLength4(cp: nat, s: Bytes)
    requires 0x10000 <= cp <= 0x10FFFF && |s| >= 4 && s[..4] == Encode(cp)
    ensures VerifiedLength(s) == 4
  {
    hide CodePoint, AnnouncedLength, Continuation;
    Digits(cp);
    var e := Encode(cp);
    assert s[0] == e[0] && s[1] == e[1] && s[2] == e[2] && s[3] == e[3] by {
      assert s[0] == s[..4][0] && s[1] == s[..4][1] && s[2] == s[..4][2] && s[3] == s[..4][3];
    }
    FourDigits(s, cp / 0x40000, cp / 0x1000 % 0x40, cp / 0x40 % 0x40, cp % 0x40);
  }

  lemma EncodedVerifies(cp: nat, rest: Bytes)
    requires Scalar(cp)
    ensures VerifiedLength(Encode(cp) + rest) == |Encode(cp)|
  {
    var s := Encode(cp) + rest;
    assert s[..|Encode(cp)|] == Encode(cp);
    if cp < 0x80 {
    } else if cp < 0x800 {
      EncodedLength2(cp, s);
    } else if cp < 0x10000 {
      EncodedLength3(cp, s);
    } else {
      EncodedLength4(cp, s);
    }
  }

  /** The base-64 digits of a sum of digits are those digits. */
  lemma DigitsOf(a: nat, b: nat, c: nat, d: nat)
    requires a < 8 && b < 0x40 && c < 0x40 && d < 0x40
    ensures var cp := ((a * 0x40 + b) * 0x40 + c) * 0x40 + d;
            cp % 0x40 == d && cp / 0x40 % 0x40 == c && cp / 0x1000 % 0x40 == b && cp / 0x40000 == a
  {
  }

  lemma Verified2(s: Bytes)
    requires |s| > 0 && VerifiedLength(s) == 2
    ensures Scalar(CodePoint(s, 2)) && s[..2] == Encode(CodePoint(s, 2))
  {
    var a, b := s[0] as nat % 0x20, s[1] as nat % 0x40;
    DigitsOf(0, 0, a, b);
    assert s[0] as nat == a + 0xC0 && s[1] as nat == b + 0x80;
  }

  lemma Verified3(s: Bytes)
    requires |s| > 0 && VerifiedLength(s) == 3
    ensures Scalar(CodePoint(s, 3)) && s[..3] == Encode(CodePoint(s, 3))
  {
    var a, b, c := s[0] as nat % 0x10, s[1] as nat % 0x40, s[2] as nat % 0x40;
    DigitsOf(0, a, b, c);
    assert s[0] as nat == a + 0xE0 && s[1] as nat == b + 0x80 && s[2] as nat == c + 0x80;
  }

  lemma Verified4(s: Bytes)
    requires |s| > 0 && VerifiedLength(s) == 4
    ensures Scalar(CodePoint(s, 4)) && s[..4] == Encode(CodePoint(s, 4))
  {
    var a, b, c, d := s[0] as nat % 8, s[1] as nat % 0x40, s[2] as nat % 0x40, s[3] as nat % 0x40;
    DigitsOf(a, b, c, d);
    assert s[0] as nat == a + 0xF0 && s[1] as nat == b + 0x80 && s[2] as nat == c + 0x80 && s[3] as nat == d + 0x80;
  }

  lemma VerifiedIsEncoded(s: Bytes) returns (cp: nat)
    requires |s| > 0 && VerifiedLength(s) > 0
    ensures Scalar(cp) && s[..VerifiedLength(s)] == Encode(cp)
  {
    var n := VerifiedLength(s);
    cp := CodePoint(s, n);
    if n == 2 { Verified2(s); } else if n == 3 { Verified3(s); } else if n == 4 { Verified4(s); }
  }

  lemma EncodeAllCons(cp: nat, cps: seq<nat>)
    requires Scalar(cp) && forall c :: c in cps ==> Scalar(c)
    ensures EncodeAll([cp] + cps) == Encode(cp) + EncodeAll(cps)
  {
    assert ([cp] + cps)[1..] == cps;
  }

  lemma ValidAppend(e: Bytes, rest: Bytes)
    requires e != [] && VerifiedLength(e + rest) == |e| && ValidUtf8(rest)
    ensures ValidUtf8(e + rest)
  {
    assert (e + rest)[|e|..] == rest;
  }

  /** The check accepts exactly the encodings of sequences of scalar values. */
  lemma {:induction false} ValidIffEncoded(s: Bytes)
    ensures ValidUtf8(s) <==> exists cps: seq<nat> :: (forall cp :: cp in cps ==> Scalar(cp)) && s == EncodeAll(cps)
  {
    if ValidUtf8(s) {
      var cps := CodePoints(s);
    }
    if cps: seq<nat> :| (forall cp :: cp in cps ==> Scalar(cp)) && s == EncodeAll(cps) {
      EncodedIsValid(cps);
    }
  }

  lemma {:induction false} CodePoints(s: Bytes) returns (cps: seq<nat>)
    requires ValidUtf8(s)
    ensures (forall cp :: cp in cps ==> Scalar(cp)) && s == EncodeAll(cps)
  {
    if s == [] {
      cps := [];
    } else {
      var n := VerifiedLength(s);
      var cp := VerifiedIsEncoded(s);
      var tail := CodePoints(s[n..]);
      cps := [cp] + tail;
      EncodeAllCons(cp, tail);
      assert s == s[..n] + s[n..];
    }
  }

  lemma {:induction false} EncodedIsValid(cps: seq<nat>)
    requires forall cp :: cp in cps ==> Scalar(cp)
    ensures ValidUtf8(EncodeAll(cps))
  {
    if cps != [] {
      EncodedVerifies(cps[0], EncodeAll(cps[1..]));
      EncodedIsValid(cps[1..]);
      ValidAppend(Encode(cps[0]), EncodeAll(cps[1..]));
    }
  }

  /** Leading ASCII bytes can be dropped from a valid string. */
  lemma {:induction false} DropAscii(s: Bytes, k: nat)
    requires ValidUtf8(s) && k <= |s| && forall i :: 0 <= i < k ==> s[i] < 0x80
    ensures ValidUtf8(s[k..])
  {
    if k > 0 {
      DropAscii(s[1..], k - 1);
      assert s[1..][k - 1..] == s[k..];
    }
  }

  lemma {:induction false} AsciiIsValid(s: Bytes)
    requires forall i :: 0 <= i < |s| ==> s[i] < 0x80
    ensures ValidUtf8(s)
  {
    if s != [] {
      AsciiIsValid(s[1..]);
    }
  }
}
