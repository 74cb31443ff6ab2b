/**
 The 2 MiB preloader image: two sealed IDB copies, the SPL payload with its
 device tree, and the recovery transform that rewrites and reseals both copies.
 SHA-256 is any function to 32 bytes.
 */
module Preloader {
  import opened Arithmetic
  import opened Slices
  import opened Bytes
  import opened Binary
  import opened Fdt
  import opened BootOrder

  const SIZE: nat := 2097152
  const COPY0: nat := 131072
  const COPY1: nat := 524288
  const DDR: nat := 0
  const SPL: nat := 1
  const DTB_OFF: nat := 0x3A5C0
  const BOOT_CALL: nat := 0x27D4
  const BOOT_CALL_INSN: Bytes := [0x50, 0xF8, 0xFF, 0x97]
  const SPL_BANNER: string := "U-Boot SPL 2017.09 (Nov 02 2024 - 15:59:04)"
  const RKNS: Bytes := [0x52, 0x4B, 0x4E, 0x53]

  type Digest = d: Bytes | |d| == 32 witness seq(32, _ => 0 as byte)

  type Sha = Bytes -> Digest

  // ---- IDB copies ---------------------------------------------------------

  /** An IDB entry, by copy base and index. */
  datatype Entry = Entry(base: nat, index: nat) {
    function At(): nat { base + 0x78 + index * 0x58 }
    function HashAt(): nat { At() + 0x18 }
  }

  const DDR0: Entry := Entry(COPY0, DDR)
  const SPL0: Entry := Entry(COPY0, SPL)
  const DDR1: Entry := Entry(COPY1, DDR)
  const SPL1: Entry := Entry(COPY1, SPL)
  const ENTRIES: seq<Entry> := [DDR0, SPL0, DDR1, SPL1]

  predicate IsEntry(e: Entry) { (e.base == COPY0 || e.base == COPY1) && e.index <= SPL }

  function Start(data: Bytes, e: Entry): nat
    requires |data| == SIZE && IsEntry(e)
  {
    e.base + U16le(data, e.At()) * 512
  }

  function Length(data: Bytes, e: Entry): nat
    requires |data| == SIZE && IsEntry(e)
  {
    U16le(data, e.At() + 2) * 512
  }

  predicate InRange(data: Bytes, e: Entry)
    requires |data| == SIZE && IsEntry(e)
  {
    Length(data, e) > 0 && Start(data, e) + Length(data, e) <= SIZE
  }

  function Payload(data: Bytes, e: Entry): Bytes
    requires |data| == SIZE && IsEntry(e) && InRange(data, e)
  {
    data[Start(data, e)..Start(data, e) + Length(data, e)]
  }

  /** The stored digest is the digest of the payload. */
  predicate Verifies(data: Bytes, e: Entry, sha: Sha)
    requires |data| == SIZE && IsEntry(e)
  {
    InRange(data, e) && sha(Payload(data, e)) == data[e.HashAt()..e.HashAt() + 32]
  }

  predicate Sealed(data: Bytes, sha: Sha) {
    && |data| == SIZE
    && data[COPY0..COPY0 + 4] == RKNS && data[COPY1..COPY1 + 4] == RKNS
    && forall e :: e in ENTRIES ==> Verifies(data, e, sha)
  }

  /** _parse: checks the entries in order; the list of entries when all are good. */
  method ParseImage(data: Bytes, sha: Sha) returns (r: Result<seq<Entry>>)
    ensures r == if Sealed(data, sha) then Ok(ENTRIES) else Exit
  {
    if |data| != SIZE {
      return Exit;
    }
    var found: seq<Entry> := [];
    var copies := [COPY0, COPY1];
    var c := 0;
    while c < 2
      invariant 0 <= c <= 2 && found == ENTRIES[..2 * c]
      invariant forall k :: 0 <= k < c ==> data[copies[k]..copies[k] + 4] == RKNS
      invariant forall e :: e in found ==> Verifies(data, e, sha)
    {
      var base := copies[c];
      if data[base..base + 4] != RKNS {
        return Exit;
      }
      var i := 0;
      while i < 2
        invariant 0 <= i <= 2 && found == ENTRIES[..2 * c + i]
        invariant forall e :: e in found ==> Verifies(data, e, sha)
      {
        var e := Entry(base, i);
        assert e == ENTRIES[2 * c + i];
        if !Verifies(data, e, sha) {
          return Exit;
        }
        found := found + [e];
        i := i + 1;
      }
      c := c + 1;
    }
    assert copies[0] == COPY0 && copies[1] == COPY1;
    assert found == ENTRIES;
    r := Ok(found);
  }

  datatype Pair = Pair(ddr: Bytes, spl: Bytes)

  predicate CopiesAgree(data: Bytes)
    requires |data| == SIZE && forall e :: e in ENTRIES ==> InRange(data, e)
  {
    && Payload(data, DDR0) == Payload(data, DDR1)
    && Payload(data, SPL0) == Payload(data, SPL1)
  }

  /** _paired: the payloads both copies agree on. */
  function Paired(data: Bytes, sha: Sha): (r: Result<Pair>)
    ensures r.Ok? <==> Sealed(data, sha) && CopiesAgree(data)
    ensures !r.Crash?
    ensures r.Ok? ==> InRange(data, SPL0) && InRange(data, SPL1)
    ensures r.Ok? ==> |r.value.spl| == Length(data, SPL0) == Length(data, SPL1)
  {
    if !Sealed(data, sha) || !CopiesAgree(data) then Exit
    else Ok(Pair(Payload(data, DDR0), Payload(data, SPL0)))
  }

  // ---- The SPL payload ----------------------------------------------------

  predicate Contains(s: Bytes, w: Bytes) {
    exists i :: 0 <= i <= |s| && Same(s, i, w, 0, |w|)
  }

  predicate HasBanner(code: Bytes) { Contains(code, Ascii(SPL_BANNER)) }

  predicate AllZero(s: Bytes) { forall i :: 0 <= i < |s| ==> s[i] == 0 }

  /** The part of the payload in front of the device tree is the known build. */
  predicate KnownExecutable(prefix: Bytes)
    requires |prefix| == DTB_OFF
  {
    && U32le(prefix, 0x10) == DTB_OFF
    && prefix[BOOT_CALL..BOOT_CALL + 4] == BOOT_CALL_INSN
    && HasBanner(prefix)
  }

  /** _fdt: the device tree at the end of the payload. */
  function TreeOf(payload: Bytes): (r: Result<Bytes>)
    ensures r.Ok? ==> DTB_OFF + |r.value| <= |payload|
  {
    if |payload| < DTB_OFF + 40 || !KnownExecutable(payload[..DTB_OFF]) then Exit
    else if payload[DTB_OFF..DTB_OFF + 4] != MAGIC then Exit
    else
      var total := U32be(payload, DTB_OFF + 4);
      if DTB_OFF + total > |payload| || !AllZero(payload[DTB_OFF + total..]) then Exit
      else Ok(payload[DTB_OFF..DTB_OFF + total])
  }

  function Zeros(n: nat): (z: Bytes)
    ensures |z| == n && AllZero(z)
  {
    seq(n, _ => 0 as byte)
  }

  /** The payload with its device tree replaced by a shorter one. */
  function WithTree(payload: Bytes, tree: Bytes): (r: Bytes)
    requires DTB_OFF + |tree| <= |payload|
    ensures |r| == |payload| && r[..DTB_OFF] == payload[..DTB_OFF]
  {
    payload[..DTB_OFF] + tree + Zeros(|payload| - DTB_OFF - |tree|)
  }

  /** A well-headed tree put into the payload is the tree read from it. */
  lemma TreeReadsBack(payload: Bytes, tree: Bytes)
    requires TreeOf(payload).Ok? && HasHeader(tree) && DTB_OFF + |tree| <= |payload|
    ensures TreeOf(WithTree(payload, tree)) == Ok(tree)
  {
    hide KnownExecutable, U32be;
    var r := WithTree(payload, tree);
    assert r[DTB_OFF..DTB_OFF + |tree|] == tree;
    assert r[DTB_OFF..DTB_OFF + 4] == tree[..4];
    assert r[DTB_OFF + 4..DTB_OFF + 8] == tree[4..8];
    SameField(r, DTB_OFF + 4, tree, 4);
    assert r[DTB_OFF + |tree|..] == Zeros(|payload| - DTB_OFF - |tree|);
  }

  // ---- The image, spelled out ---------------------------------------------

  /** The entry at `at` puts the payload `sector` sectors behind the base, `count` sectors long, under its digest. */
  predicate EntryHolds(data: Bytes, base: nat, at: nat, payload: Bytes, sha: Sha, sector: nat, count: nat) {
    && sector < 0x10000 && 0 < count < 0x10000 && |payload| == count * 512
    && Holds(data, at, [(sector % 256) as byte, (sector / 256) as byte, (count % 256) as byte, (count / 256) as byte])
    && Holds(data, at + 24, sha(payload))
    && Holds(data, base + sector * 512, payload)
  }

  predicate Holds(data: Bytes, at: nat, part: Bytes) { at + |part| <= |data| && data[at..at + |part|] == part }

  ghost predicate EntryAt(data: Bytes, base: nat, at: nat, payload: Bytes, sha: Sha) {
    exists sector: nat, count: nat :: EntryHolds(data, base, at, payload, sha, sector, count)
  }

  /** A copy at `base`: the magic, the DDR entry and, 88 bytes on, the SPL entry. */
  ghost predicate CopyHolds(data: Bytes, base: nat, pair: Pair, sha: Sha) {
    && Holds(data, base, Ascii("RKNS"))
    && EntryAt(data, base, base + 120, pair.ddr, sha)
    && EntryAt(data, base, base + 208, pair.spl, sha)
  }

  lemma LittleEndian(data: Bytes, at: nat, n: nat)
    requires at + 2 <= |data| && n < 0x10000
    ensures U16le(data, at) == n <==> data[at] as nat == n % 256 && data[at + 1] as nat == n / 256
  {
    DivisionIsUnique(U16le(data, at), 256, data[at + 1] as nat, data[at] as nat);
  }

  lemma EntryRead(data: Bytes, e: Entry, payload: Bytes, sha: Sha)
    requires |data| == SIZE && IsEntry(e) && EntryAt(data, e.base, e.At(), payload, sha)
    ensures Verifies(data, e, sha) && Payload(data, e) == payload
  {
    hide U16le;
    var at := e.At();
    var sector: nat, count: nat :| EntryHolds(data, e.base, at, payload, sha, sector, count);
    var four := data[at..at + 4];
    assert data[at] == four[0] && data[at + 1] == four[1] && data[at + 2] == four[2] && data[at + 3] == four[3];
    LittleEndian(data, at, sector);
    LittleEndian(data, at + 2, count);
  }

  lemma EntryFound(data: Bytes, e: Entry, sha: Sha)
    requires |data| == SIZE && IsEntry(e) && Verifies(data, e, sha)
    ensures EntryAt(data, e.base, e.At(), Payload(data, e), sha)
  {
    hide U16le;
    var at := e.At();
    var sector, count := U16le(data, at), U16le(data, at + 2);
    assert sector < 0x10000 && count < 0x10000 by { U16leFits(data, at); U16leFits(data, at + 2); }
    LittleEndian(data, at, sector);
    LittleEndian(data, at + 2, count);
    assert data[at..at + 4] == [data[at], data[at + 1], data[at + 2], data[at + 3]];
    assert EntryHolds(data, e.base, at, Payload(data, e), sha, sector, count);
  }

  lemma U16leFits(data: Bytes, at: nat)
    requires at + 2 <= |data|
    ensures U16le(data, at) < 0x10000
  {
  }

  lemma MagicIsText()
    ensures RKNS == Ascii("RKNS")
  {
    assert "RKNS"[0] == 'R' && "RKNS"[1] == 'K' && "RKNS"[2] == 'N' && "RKNS"[3] == 'S';
  }

  lemma CopyRead(data: Bytes, base: nat, pair: Pair, sha: Sha)
    requires |data| == SIZE && IsEntry(Entry(base, DDR)) && CopyHolds(data, base, pair, sha)
    ensures data[base..base + 4] == RKNS
    ensures Verifies(data, Entry(base, DDR), sha) && Payload(data, Entry(base, DDR)) == pair.ddr
    ensures Verifies(data, Entry(base, SPL), sha) && Payload(data, Entry(base, SPL)) == pair.spl
  {
    hide EntryAt, Verifies, Payload, Ascii;
    MagicIsText();
    EntryRead(data, Entry(base, DDR), pair.ddr, sha);
    EntryRead(data, Entry(base, SPL), pair.spl, sha);
  }

  lemma CopyFound(data: Bytes, base: nat, pair: Pair, sha: Sha)
    requires |data| == SIZE && IsEntry(Entry(base, DDR)) && data[base..base + 4] == RKNS
    requires Verifies(data, Entry(base, DDR), sha) && Payload(data, Entry(base, DDR)) == pair.ddr
    requires Verifies(data, Entry(base, SPL), sha) && Payload(data, Entry(base, SPL)) == pair.spl
    ensures CopyHolds(data, base, pair, sha)
  {
    hide EntryAt, Payload, Ascii;
    MagicIsText();
    EntryFound(data, Entry(base, DDR), sha);
    EntryFound(data, Entry(base, SPL), sha);
  }

  /** An image is accepted with a pair of payloads exactly when both its copies hold them. */
  lemma PairedIff(data: Bytes, sha: Sha, pair: Pair)
    ensures Paired(data, sha) == Ok(pair) <==>
            |data| == 0x20_0000 && CopyHolds(data, 0x2_0000, pair, sha) && CopyHolds(data, 0x8_0000, pair, sha)
  {
    hide CopyHolds, Verifies, Payload;
    assert DDR0 in ENTRIES && SPL0 in ENTRIES && DDR1 in ENTRIES && SPL1 in ENTRIES;
    if Paired(data, sha) == Ok(pair) {
      CopyFound(data, COPY0, pair, sha);
      CopyFound(data, COPY1, pair, sha);
    }
    if |data| == SIZE && CopyHolds(data, COPY0, pair, sha) && CopyHolds(data, COPY1, pair, sha) {
      CopyRead(data, COPY0, pair, sha);
      CopyRead(data, COPY1, pair, sha);
      assert forall e :: e in ENTRIES ==> Verifies(data, e, sha);
      assert Sealed(data, sha);
      SealedInRange(data, sha);
    }
  }

  /** The executable in front of the tree, by the literal bytes the transform insists on. */
  predicate ExecutableHolds(code: Bytes) {
    && |code| == 0x3A5C0
    && Holds(code, 0x10, [0xC0, 0xA5, 0x03, 0x00]) && Holds(code, 0x27D4, [0x50, 0xF8, 0xFF, 0x97])
    && Contains(code, Ascii(SPL_BANNER))
  }

  lemma ExecutableIff(code: Bytes)
    requires |code| == DTB_OFF
    ensures KnownExecutable(code) <==> ExecutableHolds(code)
  {
    hide Contains, Ascii;
    var w := code[0x10..0x14];
    assert w == [code[0x10], code[0x11], code[0x12], code[0x13]];
    LittleEndian(code, 0x10, 0xA5C0);
    LittleEndian(code, 0x12, 0x3);
    U16leFits(code, 0x10);
    U16leFits(code, 0x12);
  }

  /** A tree says its own size behind the magic. */
  predicate SaysItsSize(tree: Bytes) {
    |tree| >= 8 && tree[..4] == [0xD0, 0x0D, 0xFE, 0xED] && FromDigits(tree[4..8]) == |tree|
  }

  /** The size word cannot lie in the zeros behind the tree. */
  lemma SizeIsInside(payload: Bytes)
    requires TreeOf(payload).Ok?
    ensures |TreeOf(payload).value| == U32be(payload, DTB_OFF + 4) >= 8
  {
    hide KnownExecutable;
    var total := U32be(payload, DTB_OFF + 4);
    assert payload[DTB_OFF + 3] == payload[DTB_OFF..DTB_OFF + 4][3] == 0xED;
    forall i | DTB_OFF + total <= i < |payload| ensures payload[i] == 0 {
      assert payload[i] == payload[DTB_OFF + total..][i - DTB_OFF - total];
    }
  }

  /** The payload is the known executable, a tree that says its size, and zeros. */
  lemma TreeIff(payload: Bytes, tree: Bytes)
    ensures TreeOf(payload) == Ok(tree) <==>
            exists code: Bytes, n: nat ::
              && payload == code + tree + Zeros(n) && |tree| + n >= 40
              && ExecutableHolds(code) && SaysItsSize(tree)
  {
    if TreeOf(payload) == Ok(tree) {
      TreeFound(payload, tree);
    }
    if code: Bytes, n: nat :|
      payload == code + tree + Zeros(n) && |tree| + n >= 40 && ExecutableHolds(code) && SaysItsSize(tree)
    {
      TreeRead(code, tree, n);
    }
  }

  lemma TreeFound(payload: Bytes, tree: Bytes)
    requires TreeOf(payload) == Ok(tree)
    ensures var n := |payload| - DTB_OFF - |tree|;
            && n >= 0 && payload == payload[..DTB_OFF] + tree + Zeros(n) && |tree| + n >= 40
            && ExecutableHolds(payload[..DTB_OFF]) && SaysItsSize(tree)
  {
    hide U32be, KnownExecutable, ExecutableHolds, FromDigits;
    ExecutableIff(payload[..DTB_OFF]);
    SizeIsInside(payload);
    FieldsAreDigits(payload, DTB_OFF + 4);
    SliceOfTail(payload, DTB_OFF, 4, 8);
    assert tree[4..8] == payload[DTB_OFF + 4..DTB_OFF + 8];
    assert tree[..4] == payload[DTB_OFF..DTB_OFF + 4];
  }

  lemma TreeRead(code: Bytes, tree: Bytes, n: nat)
    requires |tree| + n >= 40 && ExecutableHolds(code) && SaysItsSize(tree)
    ensures TreeOf(code + tree + Zeros(n)) == Ok(tree)
  {
    hide U32be, KnownExecutable, FromDigits;
    ExecutableIff(code);
    hide ExecutableHolds;
    var payload := code + tree + Zeros(n);
    assert payload[..DTB_OFF] == code && payload[DTB_OFF..DTB_OFF + |tree|] == tree;
    assert payload[DTB_OFF..DTB_OFF + 4] == tree[..4];
    assert payload[DTB_OFF + 4..DTB_OFF + 8] == tree[4..8];
    FieldsAreDigits(payload, DTB_OFF + 4);
    assert payload[DTB_OFF + |tree|..] == Zeros(n);
  }

  // ---- The recovery transform ---------------------------------------------

  /** One copy with a new SPL payload and its digest stored. */
  function Reseal(data: Bytes, at: nat, hashAt: nat, payload: Bytes, digest: Digest): (r: Bytes)
    requires at + |payload| <= |data| && hashAt + 32 <= |data|
    ensures |r| == |data|
  {
    Patch(Patch(data, at, payload), hashAt, digest)
  }

  /** Both copies resealed, the first one first. */
  function ResealBoth(data: Bytes, payload: Bytes, digest: Digest): (r: Bytes)
    requires |data| == SIZE && InRange(data, SPL0) && InRange(data, SPL1)
    requires |payload| == Length(data, SPL0) == Length(data, SPL1)
    ensures |r| == SIZE
  {
    var first := Reseal(data, Start(data, SPL0), SPL0.HashAt(), payload, digest);
    Reseal(first, Start(data, SPL1), SPL1.HashAt(), payload, digest)
  }

  /** The tail of derive_bytes: write the rebuilt payload into both copies, then check the whole image again. */
  function Install(data: Bytes, pair: Pair, rebuilt: Bytes, sha: Sha): Result<Bytes>
    requires Paired(data, sha) == Ok(pair) && |rebuilt| == |pair.spl| && DTB_OFF <= |pair.spl|
  {
    var produced := ResealBoth(data, rebuilt, sha(rebuilt));
    var newPair :- Paired(produced, sha);
    var start := Start(data, SPL0);
    if newPair.ddr != pair.ddr then Exit
    else if produced[start..start + DTB_OFF] != pair.spl[..DTB_OFF] then Exit
    else Ok(produced)
  }

  /** derive_bytes */
  function Derive(data: Bytes, sha: Sha): Result<Bytes> {
    var pair :- Paired(data, sha);
    var tree :- TreeOf(pair.spl);
    var edited :- ReplaceBootOrder(tree);
    if |edited| >= |tree| then Exit
    else
      var rebuilt := WithTree(pair.spl, edited);
      if rebuilt[..DTB_OFF] != pair.spl[..DTB_OFF] || rebuilt[BOOT_CALL..BOOT_CALL + 4] != BOOT_CALL_INSN then Exit
      else Install(data, pair, rebuilt, sha)
  }

  // ---- Non-overlapping images ---------------------------------------------

  const HEADER_SIZE: nat := 0x128

  predicate Apart(a: nat, n: nat, b: nat, m: nat) { a + n <= b || b + m <= a }

  predicate ApartFromHeaders(data: Bytes, e: Entry)
    requires |data| == SIZE && IsEntry(e)
  {
    && Apart(Start(data, e), Length(data, e), COPY0, HEADER_SIZE)
    && Apart(Start(data, e), Length(data, e), COPY1, HEADER_SIZE)
  }

  predicate PayloadsApart(data: Bytes, e: Entry, f: Entry)
    requires |data| == SIZE && IsEntry(e) && IsEntry(f)
  {
    Apart(Start(data, e), Length(data, e), Start(data, f), Length(data, f))
  }

  /** No payload covers a header, and no SPL payload covers another payload. */
  predicate NonOverlapping(data: Bytes)
    requires |data| == SIZE
  {
    && ApartFromHeaders(data, DDR0) && ApartFromHeaders(data, SPL0) && ApartFromHeaders(data, DDR1)
    && ApartFromHeaders(data, SPL1)
    && PayloadsApart(data, SPL0, DDR0) && PayloadsApart(data, SPL0, DDR1)
    && PayloadsApart(data, SPL1, DDR0) && PayloadsApart(data, SPL1, DDR1)
    && PayloadsApart(data, SPL0, SPL1)
  }

  lemma PatchKeeps(s: Bytes, off: nat, w: Bytes, i: nat, n: nat)
    requires off + |w| <= |s| && i + n <= |s| && Apart(off, |w|, i, n)
    ensures Patch(s, off, w)[i..i + n] == s[i..i + n]
  {
    hide Patch;
  }

  /** The ranges the transform writes. */
  predicate Untouched(data: Bytes, i: nat, n: nat)
    requires |data| == SIZE
  {
    && Apart(Start(data, SPL0), Length(data, SPL0), i, n) && Apart(SPL0.HashAt(), 32, i, n)
    && Apart(Start(data, SPL1), Length(data, SPL1), i, n) && Apart(SPL1.HashAt(), 32, i, n)
  }

  /** No byte outside the two SPL payloads and their two digests moves. */
  lemma ResealKeeps(data: Bytes, payload: Bytes, digest: Digest, i: nat, n: nat)
    requires |data| == SIZE && InRange(data, SPL0) && InRange(data, SPL1)
    requires |payload| == Length(data, SPL0) == Length(data, SPL1) && i + n <= SIZE && Untouched(data, i, n)
    ensures ResealBoth(data, payload, digest)[i..i + n] == data[i..i + n]
  {
    hide Patch, Start, Length;
    var a := Patch(data, Start(data, SPL0), payload);
    var b := Patch(a, SPL0.HashAt(), digest);
    var c := Patch(b, Start(data, SPL1), payload);
    PatchKeeps(data, Start(data, SPL0), payload, i, n);
    PatchKeeps(a, SPL0.HashAt(), digest, i, n);
    PatchKeeps(b, Start(data, SPL1), payload, i, n);
    PatchKeeps(c, SPL1.HashAt(), digest, i, n);
  }

  /** Both SPL payloads and both digests are the new ones. */
  lemma ResealWrites(data: Bytes, payload: Bytes, digest: Digest)
    requires |data| == SIZE && InRange(data, SPL0) && InRange(data, SPL1) && NonOverlapping(data)
    requires |payload| == Length(data, SPL0) == Length(data, SPL1)
    ensures var out := ResealBoth(data, payload, digest);
            && out[Start(data, SPL0)..Start(data, SPL0) + |payload|] == payload
            && out[Start(data, SPL1)..Start(data, SPL1) + |payload|] == payload
            && out[SPL0.HashAt()..SPL0.HashAt() + 32] == digest
            && out[SPL1.HashAt()..SPL1.HashAt() + 32] == digest
  {
    hide Patch, Start, Length;
    var n := |payload|;
    var s0, s1 := Start(data, SPL0), Start(data, SPL1);
    var a := Patch(data, s0, payload);
    var b := Patch(a, SPL0.HashAt(), digest);
    var c := Patch(b, s1, payload);
    PatchKeeps(a, SPL0.HashAt(), digest, s0, n);
    PatchKeeps(b, s1, payload, s0, n);
    PatchKeeps(c, SPL1.HashAt(), digest, s0, n);
    PatchKeeps(b, s1, payload, SPL0.HashAt(), 32);
    PatchKeeps(c, SPL1.HashAt(), digest, SPL0.HashAt(), 32);
    PatchKeeps(c, SPL1.HashAt(), digest, s1, n);
  }

  lemma SameU16(a: Bytes, b: Bytes, i: nat)
    requires i + 2 <= |a| && i + 2 <= |b| && a[i..i + 2] == b[i..i + 2]
    ensures U16le(a, i) == U16le(b, i)
  {
    assert a[i] == a[i..i + 2][0] && a[i + 1] == a[i..i + 2][1] && b[i] == b[i..i + 2][0] && b[i + 1] == b[i..i + 2][1];
  }

  /** The entries of the resealed image are where they were. */
  lemma EntryStays(data: Bytes, payload: Bytes, digest: Digest, e: Entry)
    requires |data| == SIZE && IsEntry(e) && InRange(data, SPL0) && InRange(data, SPL1) && NonOverlapping(data)
    requires |payload| == Length(data, SPL0) == Length(data, SPL1)
    ensures var out := ResealBoth(data, payload, digest);
            Start(out, e) == Start(data, e) && Length(out, e) == Length(data, e)
  {
    hide ResealBoth, U16le;
    var out := ResealBoth(data, payload, digest);
    ResealKeeps(data, payload, digest, e.At(), 2);
    ResealKeeps(data, payload, digest, e.At() + 2, 2);
    SameU16(out, data, e.At());
    SameU16(out, data, e.At() + 2);
  }

  lemma ResealedEntry(data: Bytes, payload: Bytes, sha: Sha, e: Entry)
    requires Sealed(data, sha) && NonOverlapping(data) && e in ENTRIES && InRange(data, SPL0) && InRange(data, SPL1)
    requires |payload| == Length(data, SPL0) == Length(data, SPL1)
    ensures var out := ResealBoth(data, payload, sha(payload));
            && Verifies(out, e, sha)
            && Payload(out, e) == if e.index == SPL then payload else Payload(data, e)
  {
    hide ResealBoth, Start, Length;
    assert IsEntry(e) && Verifies(data, SPL0, sha) && Verifies(data, SPL1, sha) && Verifies(data, e, sha);
    var out := ResealBoth(data, payload, sha(payload));
    EntryStays(data, payload, sha(payload), e);
    if e.index == SPL {
      ResealWrites(data, payload, sha(payload));
    } else {
      ResealKeeps(data, payload, sha(payload), Start(data, e), Length(data, e));
      ResealKeeps(data, payload, sha(payload), e.HashAt(), 32);
    }
  }

  /** The resealed image passes every check, with the old DDR and the new SPL payload. */
  lemma ResealedPairs(data: Bytes, payload: Bytes, sha: Sha)
    requires Sealed(data, sha) && CopiesAgree(data) && NonOverlapping(data)
    requires |payload| == Length(data, SPL0) == Length(data, SPL1)
    ensures Paired(ResealBoth(data, payload, sha(payload)), sha) == Ok(Pair(Payload(data, DDR0), payload))
  {
    hide ResealBoth, Start, Length, Verifies, Payload;
    SealedInRange(data, sha);
    var out := ResealBoth(data, payload, sha(payload));
    ResealKeeps(data, payload, sha(payload), COPY0, 4);
    ResealKeeps(data, payload, sha(payload), COPY1, 4);
    ResealedEntry(data, payload, sha, DDR0);
    ResealedEntry(data, payload, sha, SPL0);
    ResealedEntry(data, payload, sha, DDR1);
    ResealedEntry(data, payload, sha, SPL1);
    SealedInRange(out, sha);
  }

  lemma SealedInRange(data: Bytes, sha: Sha)
    requires Sealed(data, sha)
    ensures forall e :: e in ENTRIES ==> InRange(data, e)
    ensures InRange(data, DDR0) && InRange(data, SPL0) && InRange(data, DDR1) && InRange(data, SPL1)
  {
    assert DDR0 in ENTRIES && SPL0 in ENTRIES && DDR1 in ENTRIES && SPL1 in ENTRIES;
  }

  /** What the first half of derive_bytes accepts. */
  predicate Editable(data: Bytes, sha: Sha) {
    && Paired(data, sha).Ok?
    && var tree := TreeOf(Paired(data, sha).value.spl);
    && tree.Ok? && ReplaceBootOrder(tree.value).Ok? && |ReplaceBootOrder(tree.value).value| < |tree.value|
  }

  /** The tree in the image and its edited form. */
  function TreeIn(data: Bytes, sha: Sha): Bytes
    requires Editable(data, sha)
  {
    TreeOf(Paired(data, sha).value.spl).value
  }

  function NewPayload(data: Bytes, sha: Sha): (payload: Bytes)
    requires Editable(data, sha)
    ensures |payload| == |Paired(data, sha).value.spl| && DTB_OFF <= |payload|
    ensures payload[..DTB_OFF] == Paired(data, sha).value.spl[..DTB_OFF]
  {
    WithTree(Paired(data, sha).value.spl, ReplaceBootOrder(TreeIn(data, sha)).value)
  }

  /** On a non-overlapping image the closing checks of the transform never fail. */
  lemma DeriveInstalls(data: Bytes, sha: Sha)
    requires |data| == SIZE && NonOverlapping(data) && Editable(data, sha)
    ensures var payload := NewPayload(data, sha);
            && Derive(data, sha) == Ok(ResealBoth(data, payload, sha(payload)))
            && Paired(Derive(data, sha).value, sha) == Ok(Pair(Paired(data, sha).value.ddr, payload))
  {
    hide ResealBoth, WithTree, ReplaceBootOrder, TreeOf, Start, Length, Verifies, Payload;
    var pair, payload := Paired(data, sha).value, NewPayload(data, sha);
    var out := ResealBoth(data, payload, sha(payload));
    assert pair.ddr == Payload(data, DDR0) && pair.spl == Payload(data, SPL0) by { SealedInRange(data, sha); }
    ResealedPairs(data, payload, sha);
    SealedInRange(data, sha);
    ResealWrites(data, payload, sha(payload));
    var start := Start(data, SPL0);
    assert out[start..start + DTB_OFF] == out[start..start + |payload|][..DTB_OFF];
    CallKept(pair.spl, payload);
  }

  lemma CallKept(before: Bytes, payload: Bytes)
    requires TreeOf(before).Ok? && |payload| >= DTB_OFF && payload[..DTB_OFF] == before[..DTB_OFF]
    ensures payload[BOOT_CALL..BOOT_CALL + 4] == BOOT_CALL_INSN
  {
    hide U32be, U32le, HasBanner;
    SliceOfHead(payload, DTB_OFF, BOOT_CALL, BOOT_CALL + 4);
    SliceOfHead(before, DTB_OFF, BOOT_CALL, BOOT_CALL + 4);
  }

  /** Deriving succeeds exactly on the images the first half accepts. */
  lemma DeriveSucceedsIff(data: Bytes, sha: Sha)
    requires |data| == SIZE && NonOverlapping(data)
    ensures Derive(data, sha).Ok? <==> Editable(data, sha)
  {
    hide ResealBoth, WithTree, ReplaceBootOrder, TreeOf, Paired, Install;
    if Editable(data, sha) {
      DeriveInstalls(data, sha);
    }
  }

  /** On a normally laid out tree that comes down to the checks made before the edit. */
  lemma EditableIff(data: Bytes, sha: Sha)
    requires Paired(data, sha).Ok? && TreeOf(Paired(data, sha).value.spl).Ok?
    requires NormalLayout(TreeOf(Paired(data, sha).value.spl).value)
    ensures Editable(data, sha) <==> Convertible(TreeOf(Paired(data, sha).value.spl).value)
  {
    hide ReplaceBootOrder, Convertible, TreeOf, Paired, NormalLayout, Walk;
    var tree := TreeOf(Paired(data, sha).value.spl).value;
    ReplaceSucceedsIff(tree);
    if Convertible(tree) {
      var k := ReplaceKeepsTree(tree);
    }
  }

  /** The SPL executable in front of the tree. */
  function Executable(data: Bytes, sha: Sha): Bytes
    requires Paired(data, sha).Ok? && |Paired(data, sha).value.spl| >= DTB_OFF
  {
    Paired(data, sha).value.spl[..DTB_OFF]
  }

  /**
   A derived image: all four entries verify, both copies still agree, the DDR
   payload and the SPL executable are the old ones, the tree is the edited one,
   no other byte moved, and deriving again is refused.
   */
  lemma DeriveKeeps(data: Bytes, sha: Sha)
    requires |data| == SIZE && NonOverlapping(data) && Derive(data, sha).Ok?
    ensures Editable(data, sha)
    ensures var out := Derive(data, sha).value;
            && Paired(out, sha).Ok? && Sealed(out, sha)
            && Paired(out, sha).value.ddr == Paired(data, sha).value.ddr
            && |Paired(out, sha).value.spl| >= DTB_OFF && Executable(out, sha) == Executable(data, sha)
            && TreeOf(Paired(out, sha).value.spl) == ReplaceBootOrder(TreeIn(data, sha))
            && (forall i :: 0 <= i < SIZE && Untouched(data, i, 1) ==> out[i] == data[i])
            && Derive(out, sha) == Exit
  {
    hide ResealBoth, WithTree, ReplaceBootOrder, TreeOf, Sealed, CopiesAgree, Untouched, Paired, Start, Length, Install;
    DeriveSucceedsIff(data, sha);
    DeriveInstalls(data, sha);
    var out, payload := Derive(data, sha).value, NewPayload(data, sha);
    assert InRange(data, SPL0) && InRange(data, SPL1);
    forall i | 0 <= i < SIZE && Untouched(data, i, 1) ensures out[i] == data[i] {
      ResealKeeps(data, payload, sha(payload), i, 1);
      assert out[i..i + 1][0] == data[i..i + 1][0];
    }
    ReplaceTwice(TreeIn(data, sha));
    TreeReadsBack(Paired(data, sha).value.spl, ReplaceBootOrder(TreeIn(data, sha)).value);
  }

  // ---- The transform on a mutable buffer ----------------------------------

  method CopyInto(out: array<byte>, off: nat, w: Bytes)
    requires off + |w| <= out.Length
    modifies out
    ensures out[..] == Patch(old(out[..]), off, w)
  {
    var k := 0;
    while k < |w|
      invariant 0 <= k <= |w|
      invariant out[..] == Patch(old(out[..]), off, w[..k])
    {
      out[off + k] := w[k];
      k := k + 1;
      assert w[..k] == w[..k - 1] + [w[k - 1]];
    }
    assert w[..|w|] == w;
  }

  /** The loop of derive_bytes over the two SPL entries. */
  method ResealInPlace(out: array<byte>, data: Bytes, rebuilt: Bytes, digest: Digest)
    requires |data| == SIZE && out[..] == data && InRange(data, SPL0) && InRange(data, SPL1)
    requires |rebuilt| == Length(data, SPL0) == Length(data, SPL1)
    modifies out
    ensures out[..] == ResealBoth(data, rebuilt, digest)
  {
    hide Patch, Start, Length;
    var spl := [SPL0, SPL1];
    var k := 0;
    while k < 2
      invariant 0 <= k <= 2
      invariant k == 0 ==> out[..] == data
      invariant k == 1 ==> out[..] == Reseal(data, Start(data, SPL0), SPL0.HashAt(), rebuilt, digest)
      invariant k == 2 ==> out[..] == ResealBoth(data, rebuilt, digest)
    {
      CopyInto(out, Start(data, spl[k]), rebuilt);
      CopyInto(out, spl[k].HashAt(), digest);
      k := k + 1;
    }
  }

  /** derive_bytes */
  method DeriveBytes(data: Bytes, sha: Sha) returns (r: Result<Bytes>)
    ensures r == Derive(data, sha)
  {
    hide Sealed, CopiesAgree, TreeOf, ReplaceBootOrder, WithTree, ResealBoth, Start, Length;
    var pair :- Paired(data, sha);
    var tree :- TreeOf(pair.spl);
    var edited :- RewriteBootOrder(tree);
    if |edited| >= |tree| {
      return Exit;
    }
    var rebuilt := WithTree(pair.spl, edited);
    if rebuilt[..DTB_OFF] != pair.spl[..DTB_OFF] || rebuilt[BOOT_CALL..BOOT_CALL + 4] != BOOT_CALL_INSN {
      return Exit;
    }
    assert |data| == SIZE by { PairedSize(data, sha); }
    var out := new byte[SIZE](i requires 0 <= i < SIZE => data[i]);
    assert out[..] == data;
    ResealInPlace(out, data, rebuilt, sha(rebuilt));
    var produced := out[..];
    var newPair :- Paired(produced, sha);
    var start := Start(data, SPL0);
    if newPair.ddr != pair.ddr || produced[start..start + DTB_OFF] != pair.spl[..DTB_OFF] {
      return Exit;
    }
    r := Ok(produced);
  }

  lemma PairedSize(data: Bytes, sha: Sha)
    requires Paired(data, sha).Ok?
    ensures |data| == SIZE
  {
  }
}
