/** Reading, packing and patching fixed-width fields of binary images. */
module Binary {
  import opened Arithmetic
  import opened Bytes

  /** SystemExit and any other exception are told apart, because callers catch only the first. */
  datatype Result<+T> = Ok(value: T) | Exit | Crash {
    predicate IsFailure() { !Ok? }

    function PropagateFailure<U>(): Result<U>
      requires IsFailure()
    {
      if Exit? then Exit else Crash
    }

    function Extract(): T
      requires !IsFailure()
    {
      value
    }
  }

  function Ascii(s: string): (b: Bytes)
    requires forall i :: 0 <= i < |s| ==> s[i] < 128 as char
    ensures |b| == |s| && forall i :: 0 <= i < |s| ==> b[i] as int == s[i] as int
  {
    seq(|s|, i requires 0 <= i < |s| => s[i] as int as byte)
  }

  function U16le(b: Bytes, i: nat): nat
    requires i + 2 <= |b|
  {
    b[i] as nat + 256 * b[i + 1] as nat
  }

  function U32le(b: Bytes, i: nat): nat
    requires i + 4 <= |b|
  {
    U16le(b, i) + 0x10000 * U16le(b, i + 2)
  }

  function U32be(b: Bytes, i: nat): (n: nat)
    requires i + 4 <= |b|
    ensures n < 0x1_0000_0000
  {
    ((b[i] as nat * 256 + b[i + 1] as nat) * 256 + b[i + 2] as nat) * 256 + b[i + 3] as nat
  }

  /** The number that digits in base 256 stand for, the most significant first. */
  function FromDigits(digits: Bytes): nat {
    if digits == [] then 0 else FromDigits(digits[..|digits| - 1]) * 256 + digits[|digits| - 1] as nat
  }

  /** Big-endian fields are read first digit first, little-endian ones last digit first. */
  lemma FieldsAreDigits(b: Bytes, i: nat)
    requires i + 4 <= |b|
    ensures U32be(b, i) == FromDigits(b[i..i + 4])
    ensures U32le(b, i) == FromDigits([b[i + 3], b[i + 2], b[i + 1], b[i]])
    ensures U16le(b, i) == FromDigits([b[i + 1], b[i]])
  {
    assert b[i..i + 4] == [b[i], b[i + 1], b[i + 2], b[i + 3]];
    FourDigits(b[i], b[i + 1], b[i + 2], b[i + 3]);
    FourDigits(b[i + 3], b[i + 2], b[i + 1], b[i]);
    TwoDigits(b[i + 1], b[i]);
  }

  lemma TwoDigits(a: byte, b: byte)
    ensures FromDigits([a, b]) == a as nat * 256 + b as nat
  {
    assert [a, b][..1] == [a] && [a][..0] == [];
    assert FromDigits([a]) == a as nat;
  }

  lemma FourDigits(a: byte, b: byte, c: byte, d: byte)
    ensures FromDigits([a, b, c, d]) == ((a as nat * 256 + b as nat) * 256 + c as nat) * 256 + d as nat
  {
    TwoDigits(a, b);
    assert [a, b, c][..2] == [a, b] && [a, b, c, d][..3] == [a, b, c];
    assert FromDigits([a, b, c]) == FromDigits([a, b]) * 256 + c as nat;
  }

  function Pack32be(n: nat): (b: Bytes)
    requires n < 0x1_0000_0000
    ensures |b| == 4
  {
    [(n / 0x100_0000) as byte, (n / 0x1_0000 % 256) as byte, (n / 0x100 % 256) as byte, (n % 256) as byte]
  }

  lemma PackReads(b: Bytes, i: nat, n: nat)
    requires n < 0x1_0000_0000 && i + 4 <= |b| && b[i..i + 4] == Pack32be(n)
    ensures U32be(b, i) == n
  {
    var w := b[i..i + 4];
    assert b[i] == w[0] && b[i + 1] == w[1] && b[i + 2] == w[2] && b[i + 3] == w[3];
    assert w[0] as nat == n / 0x100_0000 && w[1] as nat == n / 0x1_0000 % 256;
    assert w[2] as nat == n / 0x100 % 256 && w[3] as nat == n % 256;
    hide Pack32be;
    BytesAdd(n);
  }

  lemma BytesAdd(n: nat)
    ensures ((n / 0x100_0000 * 256 + n / 0x1_0000 % 256) * 256 + n / 0x100 % 256) * 256 + n % 256 == n
  {
    var a, r := n / 0x100, n % 256;
    var b, s := a / 0x100, a % 256;
    var c, t := b / 0x100, b % 256;
    assert n == 0x100 * a + r && a == 0x100 * b + s && b == 0x100 * c + t;
    DivisionIsUnique(n, 0x1_0000, b, 0x100 * s + r);
    DivisionIsUnique(n, 0x100_0000, c, 0x1_0000 * t + 0x100 * s + r);
  }

  /** Fields in equal stretches read the same. */
  lemma SameField(a: Bytes, i: nat, b: Bytes, j: nat)
    requires i + 4 <= |a| && j + 4 <= |b| && a[i..i + 4] == b[j..j + 4]
    ensures U32be(a, i) == U32be(b, j)
  {
    var u, v := a[i..i + 4], b[j..j + 4];
    assert a[i] == u[0] == v[0] == b[j] && a[i + 1] == u[1] == v[1] == b[j + 1];
    assert a[i + 2] == u[2] == v[2] == b[j + 2] && a[i + 3] == u[3] == v[3] == b[j + 3];
  }

  /** s with the bytes from off on overwritten by w. */
  function Patch(s: Bytes, off: nat, w: Bytes): (r: Bytes)
    requires off + |w| <= |s|
    ensures |r| == |s|
    ensures r[off..off + |w|] == w
    ensures forall i :: 0 <= i < |s| && !(off <= i < off + |w|) ==> r[i] == s[i]
  {
    s[..off] + w + s[off + |w|..]
  }

  /** The position of the first byte c at or after i. */
  function IndexOf(s: Bytes, c: byte, i: nat): (r: Option<nat>)
    ensures r.Some? ==> i <= r.value < |s| && s[r.value] == c && forall k :: i <= k < r.value ==> s[k] != c
    ensures r.None? ==> forall k :: i <= k < |s| ==> s[k] != c
    decreases |s| - i
  {
    if i >= |s| then None else if s[i] == c then Some(i) else IndexOf(s, c, i + 1)
  }

  /** Rounding up to a multiple of four, as (x + 3) & ~3. */
  function Align4(x: nat): (r: nat)
    ensures x <= r < x + 4 && r % 4 == 0
  {
    (x + 3) / 4 * 4
  }

  lemma AlignMoves(x: nat, p: nat, q: nat)
    requires p % 4 == 0 && q % 4 == 0 && p <= x
    ensures Align4(q + (x - p)) == q + (Align4(x) - p)
  {
    var a, b, n := p / 4, q / 4, (x + 3) / 4;
    assert p == 4 * a && q == 4 * b && n >= a;
    DivisionIsUnique(q + (x - p) + 3, 4, n + b - a, (x + 3) % 4);
  }

  /** n bytes of a at i equal n bytes of b at j. */
  predicate Same(a: Bytes, i: nat, b: Bytes, j: nat, n: nat) {
    i + n <= |a| && j + n <= |b| && a[i..i + n] == b[j..j + n]
  }

  lemma SamePart(a: Bytes, i: nat, b: Bytes, j: nat, n: nat, from: nat, m: nat)
    requires Same(a, i, b, j, n) && from + m <= n
    ensures Same(a, i + from, b, j + from, m)
  {
    var u, v := a[i + from..i + from + m], b[j + from..j + from + m];
    forall k | 0 <= k < m ensures u[k] == v[k] {
      SameAt(a, i, b, j, n, from + k);
    }
  }

  lemma SameAt(a: Bytes, i: nat, b: Bytes, j: nat, n: nat, k: nat)
    requires Same(a, i, b, j, n) && k < n
    ensures a[i + k] == b[j + k]
  {
    assert a[i..i + n][k] == b[j..j + n][k];
  }

  /** A search that succeeds inside equal stretches succeeds at the same place. */
  lemma SameIndexOf(a: Bytes, i: nat, b: Bytes, j: nat, n: nat, c: byte, from: nat)
    requires Same(a, i, b, j, n) && from <= n
    requires IndexOf(a, c, i + from).Some? && IndexOf(a, c, i + from).value < i + n
    ensures IndexOf(b, c, j + from) == Some(j + (IndexOf(a, c, i + from).value - i))
  {
    var z := IndexOf(a, c, i + from).value;
    SameAt(a, i, b, j, n, z - i);
    var r := IndexOf(b, c, j + from);
    if r.Some? && r.value < j + (z - i) {
      SameAt(a, i, b, j, n, r.value - j);
    }
  }
}
