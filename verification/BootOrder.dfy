/** The SPL boot-order property: reading it, and the edit that leaves only the right-hand slot. */
module BootOrder {
  import opened Slices
  import opened Bytes
  import opened Binary
  import opened Utf8
  import opened Fdt

  const RIGHT_SLOT: Bytes := Ascii("/dwmmc@fe2b0000")
  const SOURCE_ORDER: seq<Bytes> := [
    Ascii("/dwmmc@fe2b0000"),
    Ascii("/sdhci@fe310000"),
    Ascii("/nandc@fe330000"),
    Ascii("/sfc@fe300000/flash@0"),
    Ascii("/sfc@fe300000/flash@1")
  ]
  const CHOSEN: Bytes := Ascii("/chosen")
  const BOOT_ORDER: Bytes := Ascii("u-boot,spl-boot-order")
  const ALIASES: Bytes := Ascii("/aliases")
  const MMC1: Bytes := Ascii("mmc1")
  const STATUS: Bytes := Ascii("status")
  const OKAY: Bytes := Ascii("okay")
  const DM_SPL: Bytes := Ascii("u-boot,dm-spl")

  /** The data of a boot-order property that names only the right-hand slot. */
  const RIGHT_DATA: Bytes := RIGHT_SLOT + [0]

  // ---- Finding properties -------------------------------------------------

  predicate Matches(prop: Prop, path: Bytes, name: Bytes) { prop.path == path && prop.name == name }

  function FindAll(props: seq<Prop>, path: Bytes, name: Bytes): seq<Prop> {
    if props == [] then []
    else
      var n := |props| - 1;
      FindAll(props[..n], path, name) + if Matches(props[n], path, name) then [props[n]] else []
  }

  lemma {:induction false} NoMatch(props: seq<Prop>, path: Bytes, name: Bytes)
    ensures FindAll(props, path, name) == [] <==> forall i :: 0 <= i < |props| ==> !Matches(props[i], path, name)
  {
    if props != [] {
      NoMatch(props[..|props| - 1], path, name);
      assert forall i :: 0 <= i < |props| - 1 ==> props[i] == props[..|props| - 1][i];
    }
  }

  predicate OnlyMatch(props: seq<Prop>, path: Bytes, name: Bytes, k: nat) {
    && k < |props| && Matches(props[k], path, name)
    && forall i :: 0 <= i < |props| && Matches(props[i], path, name) ==> i == k
  }

  lemma {:induction false} SoleMatch(props: seq<Prop>, path: Bytes, name: Bytes) returns (k: nat)
    requires |FindAll(props, path, name)| == 1
    ensures OnlyMatch(props, path, name, k) && FindAll(props, path, name) == [props[k]]
  {
    var n := |props| - 1;
    if Matches(props[n], path, name) {
      NoMatch(props[..n], path, name);
      k := n;
    } else {
      k := SoleMatch(props[..n], path, name);
    }
  }

  lemma {:induction false} OnlyMatchFound(props: seq<Prop>, path: Bytes, name: Bytes, k: nat)
    requires OnlyMatch(props, path, name, k)
    ensures FindAll(props, path, name) == [props[k]]
  {
    var n := |props| - 1;
    if k == n {
      NoMatch(props[..n], path, name);
    } else {
      OnlyMatchFound(props[..n], path, name, k);
    }
  }

  // ---- String lists -------------------------------------------------------

  /** The parts of NUL-terminated data, split at every NUL. */
  function Split(data: Bytes): (parts: seq<Bytes>)
    requires data != [] ==> data[|data| - 1] == 0
  {
    if data == [] then []
    else
      var z := IndexOf(data, 0, 0).value;
      [data[..z]] + Split(data[z + 1..])
  }

  predicate NulFree(part: Bytes) { 0 !in part }

  function Terminated(parts: seq<Bytes>): Bytes {
    if parts == [] then [] else parts[0] + [0] + Terminated(parts[1..])
  }

  lemma TerminatedFirst(part: Bytes, parts: seq<Bytes>)
    ensures Terminated([part] + parts) == part + [0] + Terminated(parts)
  {
    assert ([part] + parts)[1..] == parts;
  }

  lemma RejoinedAt(data: Bytes, z: nat)
    requires z < |data| && data[z] == 0
    ensures data == data[..z] + [0] + data[z + 1..]
  {
  }

  lemma {:induction false} SplitInverts(data: Bytes)
    requires data != [] ==> data[|data| - 1] == 0
    ensures Terminated(Split(data)) == data && forall part :: part in Split(data) ==> NulFree(part)
  {
    if data != [] {
      var z := IndexOf(data, 0, 0).value;
      var rest := data[z + 1..];
      SplitInverts(rest);
      assert Split(data) == [data[..z]] + Split(rest);
      hide Split;
      TerminatedFirst(data[..z], Split(rest));
      RejoinedAt(data, z);
    }
  }

  /** _stringlist */
  function StringList(data: Bytes): Result<seq<Bytes>> {
    if data == [] || data[|data| - 1] != 0 then Exit
    else if forall part :: part in Split(data) ==> ValidUtf8(part) then Ok(Split(data))
    else Crash
  }

  lemma FirstTerminated(parts: seq<Bytes>)
    requires parts != [] && NulFree(parts[0])
    ensures var data := Terminated(parts); |parts[0]| < |data| && IndexOf(data, 0, 0) == Some(|parts[0]|)
    ensures Terminated(parts)[..|parts[0]|] == parts[0]
    ensures Terminated(parts)[|parts[0]| + 1..] == Terminated(parts[1..])
  {
    var data, n := Terminated(parts), |parts[0]|;
    assert forall i :: 0 <= i < n ==> data[i] == parts[0][i] && parts[0][i] in parts[0];
    assert data[n] == 0;
  }

  lemma {:induction false} EndsInNul(parts: seq<Bytes>)
    ensures var data := Terminated(parts); data != [] ==> data[|data| - 1] == 0
  {
    if parts != [] { EndsInNul(parts[1..]); }
  }

  /** A list of NUL-free texts, each with a NUL behind it, splits into those texts. */
  lemma {:induction false} TerminatedSplits(parts: seq<Bytes>)
    requires forall part :: part in parts ==> NulFree(part)
    ensures var data := Terminated(parts);
            (data != [] ==> data[|data| - 1] == 0) && Split(data) == parts
  {
    EndsInNul(parts);
    if parts != [] {
      FirstTerminated(parts);
      TerminatedSplits(parts[1..]);
      assert parts == [parts[0]] + parts[1..];
    }
  }

  /** The list that is read from its own encoding, for every list of valid texts but the empty one. */
  lemma ListReadsBack(parts: seq<Bytes>)
    requires forall part :: part in parts ==> NulFree(part) && ValidUtf8(part)
    ensures StringList(Terminated(parts)) == if parts == [] then Exit else Ok(parts)
  {
    hide ValidUtf8;
    TerminatedSplits(parts);
    hide Split;
    if parts != [] { assert Terminated(parts) != []; }
  }

  lemma SourceDataLength(data: Bytes)
    requires StringList(data) == Ok(SOURCE_ORDER)
    ensures |data| == 92
  {
    SplitInverts(data);
    var s := SOURCE_ORDER;
    assert s[1..] == [s[1], s[2], s[3], s[4]] && s[1..][1..] == [s[2], s[3], s[4]];
    assert |Terminated([s[4]])| == 22;
    assert |Terminated([s[3], s[4]])| == 44 by { assert [s[3], s[4]][1..] == [s[4]]; }
    assert |Terminated([s[2], s[3], s[4]])| == 60 by { assert [s[2], s[3], s[4]][1..] == [s[3], s[4]]; }
    assert |Terminated([s[1], s[2], s[3], s[4]])| == 76 by {
      assert [s[1], s[2], s[3], s[4]][1..] == [s[2], s[3], s[4]];
    }
  }

  lemma OneString(s: Bytes)
    requires 0 !in s && ValidUtf8(s)
    ensures StringList(s + [0]) == Ok([s])
  {
    hide ValidUtf8;
    var data := s + [0];
    assert forall i :: 0 <= i < |s| ==> data[i] == s[i] && s[i] in s;
    assert data[|s|] == 0;
    assert IndexOf(data, 0, 0) == Some(|s|);
    assert data[..|s|] == s && data[|s| + 1..] == [];
    assert Split(data) == [s] + Split([]) == [s];
  }

  lemma SlotIsText()
    ensures |RIGHT_SLOT| == 15 && forall i :: 0 <= i < |RIGHT_SLOT| ==> 0 < RIGHT_SLOT[i] < 0x80
  {
    var s := "/dwmmc@fe2b0000";
    assert forall i :: 0 <= i < |s| ==> 0 < s[i] as int < 0x80;
  }

  lemma RightDataReads()
    ensures |RIGHT_DATA| == 16 && StringList(RIGHT_DATA) == Ok([RIGHT_SLOT])
  {
    hide StringList, ValidUtf8;
    SlotIsText();
    AsciiIsValid(RIGHT_SLOT);
    OneString(RIGHT_SLOT);
  }

  // ---- Reading and replacing the boot order -------------------------------

  /** _boot_order, on the listed properties: the one boot-order property and its list. */
  function OrderIn(props: seq<Prop>): Result<(Prop, seq<Bytes>)> {
    var found := FindAll(props, CHOSEN, BOOT_ORDER);
    if |found| != 1 then Exit
    else
      var order :- StringList(found[0].data);
      Ok((found[0], order))
  }

  function OrderOf(blob: Bytes): Result<(Prop, seq<Bytes>)> {
    var props :- Walk(blob);
    OrderIn(props)
  }

  /** The last value wins, as in a dictionary built from the list. */
  function LastData(props: seq<Prop>, path: Bytes, name: Bytes): Option<Bytes> {
    var found := FindAll(props, path, name);
    if found == [] then None else Some(found[|found| - 1].data)
  }

  /** _require_right_slot */
  predicate HasRightSlot(props: seq<Prop>) {
    var alias := FindAll(props, ALIASES, MMC1);
    var status := LastData(props, RIGHT_SLOT, STATUS);
    && |alias| == 1 && alias[0].data == RIGHT_DATA
    && status.Some? && IndexOf(status.value, 0, 0).Some? && status.value[..IndexOf(status.value, 0, 0).value] == OKAY
    && LastData(props, RIGHT_SLOT, DM_SPL).Some?
  }

  /** The k-th property is the last of its path and name. */
  predicate LastMatch(props: seq<Prop>, path: Bytes, name: Bytes, k: nat) {
    && k < |props| && Matches(props[k], path, name)
    && forall i :: k < i < |props| ==> !Matches(props[i], path, name)
  }

  lemma {:induction false} LastDataIs(props: seq<Prop>, path: Bytes, name: Bytes, k: nat)
    requires LastMatch(props, path, name, k)
    ensures LastData(props, path, name) == Some(props[k].data)
  {
    var n := |props| - 1;
    if k < n {
      assert props[..n][k] == props[k] && forall i :: k < i < n ==> props[..n][i] == props[i];
      LastDataIs(props[..n], path, name, k);
    }
  }

  lemma {:induction false} LastDataOf(props: seq<Prop>, path: Bytes, name: Bytes) returns (k: nat)
    requires LastData(props, path, name).Some?
    ensures LastMatch(props, path, name, k) && LastData(props, path, name) == Some(props[k].data)
  {
    var n := |props| - 1;
    if Matches(props[n], path, name) {
      k := n;
    } else {
      k := LastDataOf(props[..n], path, name);
      assert props[..n][k] == props[k] && forall i :: k < i < n ==> props[..n][i] == props[i];
    }
  }

  /**
   The slot as the tree must describe it: one mmc1 alias that names it, a
   status that reads okay, and the mark of a device for the SPL.
   */
  ghost predicate SlotDescribed(props: seq<Prop>) {
    && (exists k: nat :: OnlyMatch(props, ALIASES, MMC1, k) && props[k].data == RIGHT_DATA)
    && (exists k: nat :: LastMatch(props, RIGHT_SLOT, STATUS, k) && OKAY + [0] <= props[k].data)
    && (exists k :: 0 <= k < |props| && Matches(props[k], RIGHT_SLOT, DM_SPL))
  }

  lemma AliasIff(props: seq<Prop>)
    ensures (|FindAll(props, ALIASES, MMC1)| == 1 && FindAll(props, ALIASES, MMC1)[0].data == RIGHT_DATA)
            <==> exists k: nat :: OnlyMatch(props, ALIASES, MMC1, k) && props[k].data == RIGHT_DATA
  {
    hide Ascii;
    if |FindAll(props, ALIASES, MMC1)| == 1 {
      var k := SoleMatch(props, ALIASES, MMC1);
    }
    if k: nat :| OnlyMatch(props, ALIASES, MMC1, k) && props[k].data == RIGHT_DATA {
      OnlyMatchFound(props, ALIASES, MMC1, k);
    }
  }

  /** Data whose first NUL-terminated part is `word`. */
  lemma FirstPartIff(data: Bytes, word: Bytes)
    requires 0 !in word
    ensures (IndexOf(data, 0, 0).Some? && data[..IndexOf(data, 0, 0).value] == word) <==> word + [0] <= data
  {
    if IndexOf(data, 0, 0).Some? && data[..IndexOf(data, 0, 0).value] == word {
      assert data[..|word| + 1] == word + [0];
    }
    if word + [0] <= data {
      assert data[|word|] == 0 && data[..|word|] == word;
      assert forall i :: 0 <= i < |word| ==> data[i] == word[i] && word[i] in word;
      assert IndexOf(data, 0, 0) == Some(|word|);
    }
  }

  lemma OkayIsText()
    ensures 0 !in OKAY
  {
    assert forall c :: c in "okay" ==> c as int != 0;
  }

  lemma StatusIff(props: seq<Prop>)
    ensures var status := LastData(props, RIGHT_SLOT, STATUS);
            (&& status.Some? && IndexOf(status.value, 0, 0).Some?
             && status.value[..IndexOf(status.value, 0, 0).value] == OKAY)
            <==> exists k: nat :: LastMatch(props, RIGHT_SLOT, STATUS, k) && OKAY + [0] <= props[k].data
  {
    hide Ascii, LastData;
    OkayIsText();
    var status := LastData(props, RIGHT_SLOT, STATUS);
    if status.Some? {
      FirstPartIff(status.value, OKAY);
      var k := LastDataOf(props, RIGHT_SLOT, STATUS);
    }
    if k: nat :| LastMatch(props, RIGHT_SLOT, STATUS, k) && OKAY + [0] <= props[k].data {
      LastDataIs(props, RIGHT_SLOT, STATUS, k);
    }
  }

  /** _require_right_slot passes exactly the trees that describe the slot. */
  lemma RightSlotIff(props: seq<Prop>)
    ensures HasRightSlot(props) <==> SlotDescribed(props)
  {
    hide Ascii, OnlyMatch, LastMatch;
    AliasIff(props);
    StatusIff(props);
    NoMatch(props, RIGHT_SLOT, DM_SPL);
    hide FindAll;
  }

  /** Whether every check _replace_boot_order makes before editing passes. */
  predicate Convertible(blob: Bytes) {
    && Walk(blob).Ok?
    && OrderIn(Walk(blob).value).Ok?
    && OrderIn(Walk(blob).value).value.1 == SOURCE_ORDER
    && HasRightSlot(Walk(blob).value)
  }

  /** The new size, string offset and structure size written into the header. */
  function PatchHeader(body: Bytes, total: nat, offStrings: nat, sizeStruct: nat): Bytes
    requires |body| >= 40 && total < 0x1_0000_0000 && offStrings < 0x1_0000_0000 && sizeStruct < 0x1_0000_0000
  {
    Patch(Patch(Patch(body, 4, Pack32be(total)), 12, Pack32be(offStrings)), 36, Pack32be(sizeStruct))
  }

  /** blob with the data of the property at `at` replaced, before the header is corrected. */
  function Rebuild(blob: Bytes, at: nat, oldEnd: nat, structEnd: nat, strings: Bytes, data: Bytes): Bytes
    requires at + 12 <= |blob| && structEnd <= |blob| && |data| < 0x1_0000_0000
  {
    var head := Patch(blob[at..at + 12], 4, Pack32be(|data|));
    var pad := seq((4 - |data| % 4) % 4, _ => 0 as byte);
    blob[..at] + head + data + pad + (if oldEnd <= structEnd then blob[oldEnd..structEnd] else []) + strings
  }

  /** _replace_boot_order */
  function ReplaceBootOrder(blob: Bytes): Result<Bytes> {
    var props :- Walk(blob);
    var (prop, order) :- OrderIn(props);
    if order == [RIGHT_SLOT] then Exit
    else if order != SOURCE_ORDER then Exit
    else if !HasRightSlot(props) then Exit
    else if prop.at + 12 > |blob| then Crash  // the walk has read these bytes
    else
      var oldEnd := Align4(prop.at + 12 + |prop.data|);
      var newEnd := Align4(prop.at + 12 + |RIGHT_DATA|);
      var structEnd := Field(blob, OFF_STRUCT) + Field(blob, SIZE_STRUCT);
      var body := Rebuild(blob, prop.at, oldEnd, structEnd, Strings(blob), RIGHT_DATA);
      var total := Field(blob, TOTAL_SIZE) + newEnd - oldEnd;
      var offStrings := Field(blob, OFF_STRINGS) + newEnd - oldEnd;
      var sizeStruct := Field(blob, SIZE_STRUCT) + newEnd - oldEnd;
      if |body| < 40 || !Word(total) || !Word(offStrings) || !Word(sizeStruct) then Crash
      else
        var out := PatchHeader(body, total, offStrings, sizeStruct);
        if |out| != total then Exit
        else
          var (_, rebuilt) :- OrderOf(out);
          if rebuilt != [RIGHT_SLOT] then Exit else Ok(out)
  }

  predicate Word(n: int) { 0 <= n < 0x1_0000_0000 }

  // ---- The normal layout --------------------------------------------------

  /** An aligned structure block behind the header, the strings block directly behind it and ending the blob. */
  predicate NormalLayout(blob: Bytes) {
    && HasHeader(blob)
    && 40 <= Field(blob, OFF_STRUCT) && Field(blob, OFF_STRUCT) % 4 == 0
    && Field(blob, OFF_STRINGS) == Field(blob, OFF_STRUCT) + Field(blob, SIZE_STRUCT)
    && Field(blob, OFF_STRINGS) + Field(blob, SIZE_STRINGS) == |blob|
  }

  lemma PatchedHeader(body: Bytes, total: nat, offStrings: nat, sizeStruct: nat)
    requires |body| >= 40 && Word(total) && Word(offStrings) && Word(sizeStruct)
    ensures var out := PatchHeader(body, total, offStrings, sizeStruct);
            && |out| == |body| && out[40..] == body[40..] && out[..4] == body[..4]
            && Field(out, TOTAL_SIZE) == total && Field(out, OFF_STRINGS) == offStrings
            && Field(out, SIZE_STRUCT) == sizeStruct
            && forall i :: 0 <= i < 10 && i != TOTAL_SIZE && i != OFF_STRINGS && i != SIZE_STRUCT ==>
                Field(out, i) == Field(body, i)
  {
    hide U32be, Pack32be, Patch;
    var a := Patch(body, 4, Pack32be(total));
    var b := Patch(a, 12, Pack32be(offStrings));
    var out := PatchHeader(body, total, offStrings, sizeStruct);
    assert out[4..8] == Pack32be(total) by { assert out[4..8] == a[4..8]; }
    assert out[12..16] == Pack32be(offStrings) by { assert out[12..16] == b[12..16]; }
    PackReads(out, 4, total);
    PackReads(out, 12, offStrings);
    PackReads(out, 36, sizeStruct);
    forall i | 0 <= i < 10 && i != TOTAL_SIZE && i != OFF_STRINGS && i != SIZE_STRUCT
      ensures Field(out, i) == Field(body, i)
    {
      assert out[4 * i..4 * i + 4] == body[4 * i..4 * i + 4];
      SameField(out, 4 * i, body, 4 * i);
    }
  }

  // ---- What the edit preserves --------------------------------------------

  /** The edited blob, as the parts it is made of, when the layout is normal. */
  lemma RebuiltParts(blob: Bytes, at: nat, oldEnd: nat)
    requires NormalLayout(blob) && at + 12 <= oldEnd <= Field(blob, OFF_STRINGS)
    ensures var structEnd := Field(blob, OFF_STRUCT) + Field(blob, SIZE_STRUCT);
            var body := Rebuild(blob, at, oldEnd, structEnd, Strings(blob), RIGHT_DATA);
            && |body| == |blob| - oldEnd + at + 28
            && body[..at] == blob[..at]
            && Same(blob, at, body, at, 4) && body[at + 4..at + 8] == Pack32be(16)
            && Same(blob, at + 8, body, at + 8, 4)
            && body[at + 12..at + 28] == RIGHT_DATA
            && Same(blob, oldEnd, body, at + 28, |blob| - oldEnd)
  {
    hide Pack32be, Patch, Field, StringList;
    RightDataReads();
    var structEnd := Field(blob, OFF_STRUCT) + Field(blob, SIZE_STRUCT);
    var words := blob[at..at + 12];
    var head := Patch(words, 4, Pack32be(16));
    var tail := blob[oldEnd..structEnd] + Strings(blob);
    assert tail == blob[oldEnd..];
    var body := Rebuild(blob, at, oldEnd, structEnd, Strings(blob), RIGHT_DATA);
    assert body == blob[..at] + head + RIGHT_DATA + tail;
    assert body[at..at + 12] == head;
    assert body[at..at + 4] == head[..4] == words[..4] == blob[at..at + 4];
    assert body[at + 4..at + 8] == head[4..8];
    assert body[at + 8..at + 12] == head[8..12] == words[8..12] == blob[at + 8..at + 12];
    assert body[at + 12..at + 28] == RIGHT_DATA && body[at + 28..] == tail;
    assert |body| == |blob| - oldEnd + at + 28;
    assert body[at + 28..at + 28 + (|blob| - oldEnd)] == tail == blob[oldEnd..oldEnd + (|blob| - oldEnd)];
  }

  lemma BodyReplaces(blob: Bytes, out: Bytes, at: nat)
    requires at % 4 == 0 && 40 <= at && at + 12 <= |blob| && U32be(blob, at) == 3 && DataEnd(blob, at) <= |blob|
    requires |out| == |blob| - DataEnd(blob, at) + at + 28
    requires Same(blob, at, out, at, 4) && out[at + 4..at + 8] == Pack32be(16) && Same(blob, at + 8, out, at + 8, 4)
    requires out[at + 12..at + 28] == RIGHT_DATA
    requires Same(blob, DataEnd(blob, at), out, at + 28, |blob| - DataEnd(blob, at))
    ensures DataReplaced(blob, out, at, RIGHT_DATA)
  {
    hide U32be, Pack32be, StringList;
    RightDataReads();
    SameField(blob, at, out, at);
    SameField(blob, at + 8, out, at + 8);
    PackReads(out, at + 4, 16);
  }

  /** The result of the edit, before the closing checks. */
  function EditedBlob(blob: Bytes, prop: Prop): (out: Bytes)
    requires NormalLayout(blob) && PropertyAt(blob, prop, Field(blob, OFF_STRINGS)) && |prop.data| == 92
    requires Field(blob, OFF_STRUCT) <= prop.at
  {
    RightDataReads();
    var structEnd := Field(blob, OFF_STRUCT) + Field(blob, SIZE_STRUCT);
    var body := Rebuild(blob, prop.at, prop.at + 104, structEnd, Strings(blob), RIGHT_DATA);
    RebuiltParts(blob, prop.at, prop.at + 104);
    PatchHeader(body, Field(blob, TOTAL_SIZE) - 76, Field(blob, OFF_STRINGS) - 76, Field(blob, SIZE_STRUCT) - 76)
  }

  lemma SameAfterHeader(blob: Bytes, i: nat, body: Bytes, out: Bytes, j: nat, n: nat)
    requires Same(blob, i, body, j, n) && 40 <= j && |out| == |body| && out[40..] == body[40..]
    ensures Same(blob, i, out, j, n)
  {
    SliceOfTail(out, 40, j - 40, j - 40 + n);
    SliceOfTail(body, 40, j - 40, j - 40 + n);
  }

  lemma SliceAfterHeader(body: Bytes, out: Bytes, j: nat, n: nat)
    requires 40 <= j && j + n <= |body| == |out| && out[40..] == body[40..]
    ensures out[j..j + n] == body[j..j + n]
  {
    SameAfterHeader(body, j, body, out, j, n);
  }

  /** The header of the edited blob, and the bytes around the replaced data. */
  lemma EditedShape(blob: Bytes, prop: Prop)
    requires NormalLayout(blob) && PropertyAt(blob, prop, Field(blob, OFF_STRINGS)) && |prop.data| == 92
    requires Field(blob, OFF_STRUCT) <= prop.at
    ensures var out := EditedBlob(blob, prop);
            && |out| == |blob| - 76 && out[..4] == MAGIC
            && Field(out, TOTAL_SIZE) == |out|
            && Field(out, OFF_STRINGS) == Field(blob, OFF_STRINGS) - 76
            && Field(out, SIZE_STRUCT) == Field(blob, SIZE_STRUCT) - 76
            && (forall i :: 0 <= i < 10 && i != TOTAL_SIZE && i != OFF_STRINGS && i != SIZE_STRUCT ==>
                Field(out, i) == Field(blob, i))
            && Same(blob, 40, out, 40, prop.at - 40)
            && DataReplaced(blob, out, prop.at, RIGHT_DATA)
            && Same(blob, prop.at + 104, out, prop.at + 28, |blob| - (prop.at + 104))
  {
    hide U32be, Pack32be, Patch, PatchHeader, Rebuild, StringList, DataReplaced, Strings, Same, DataEnd;
    var at := prop.at;
    var structEnd := Field(blob, OFF_STRUCT) + Field(blob, SIZE_STRUCT);
    var body := Rebuild(blob, at, at + 104, structEnd, Strings(blob), RIGHT_DATA);
    assert DataEnd(blob, at) == at + 104 by { Aligned(blob, prop, Field(blob, OFF_STRINGS)); }
    RebuiltParts(blob, at, at + 104);
    PatchedHeader(body, Field(blob, TOTAL_SIZE) - 76, Field(blob, OFF_STRINGS) - 76, Field(blob, SIZE_STRUCT) - 76);
    PrefixFields(blob, body, at);
    OutReplaces(blob, body, EditedBlob(blob, prop), at);
  }

  lemma Aligned(blob: Bytes, prop: Prop, end: nat)
    requires PropertyAt(blob, prop, end) && |prop.data| == 92
    ensures DataEnd(blob, prop.at) == prop.at + 104
  {
    hide U32be;
  }

  lemma PrefixFields(blob: Bytes, body: Bytes, at: nat)
    requires 40 <= at <= |blob| && at <= |body| && body[..at] == blob[..at]
    ensures body[..4] == blob[..4] && Same(blob, 40, body, 40, at - 40)
    ensures forall i :: 0 <= i < 10 ==> Field(body, i) == Field(blob, i)
  {
    hide U32be;
    assert forall j :: 0 <= j < at ==> body[j] == body[..at][j] == blob[..at][j] == blob[j];
    forall i | 0 <= i < 10 ensures Field(body, i) == Field(blob, i) {
      assert body[4 * i..4 * i + 4] == blob[4 * i..4 * i + 4];
      SameField(body, 4 * i, blob, 4 * i);
    }
  }

  lemma OutReplaces(blob: Bytes, body: Bytes, out: Bytes, at: nat)
    requires at % 4 == 0 && 40 <= at && at + 104 <= |blob| && U32be(blob, at) == 3 && DataEnd(blob, at) == at + 104
    requires |out| == |body| == |blob| - 76 && out[40..] == body[40..] && Same(blob, 40, body, 40, at - 40)
    requires Same(blob, at, body, at, 4) && body[at + 4..at + 8] == Pack32be(16) && Same(blob, at + 8, body, at + 8, 4)
    requires body[at + 12..at + 28] == RIGHT_DATA && Same(blob, at + 104, body, at + 28, |blob| - (at + 104))
    ensures Same(blob, 40, out, 40, at - 40) && DataReplaced(blob, out, at, RIGHT_DATA)
    ensures Same(blob, at + 104, out, at + 28, |blob| - (at + 104))
  {
    hide U32be, Pack32be, StringList, DataReplaced, Same, DataEnd;
    SameAfterHeader(blob, 40, body, out, 40, at - 40);
    SameAfterHeader(blob, at, body, out, at, 4);
    SliceAfterHeader(body, out, at + 4, 4);
    SameAfterHeader(blob, at + 8, body, out, at + 8, 4);
    SliceAfterHeader(body, out, at + 12, 16);
    SameAfterHeader(blob, at + 104, body, out, at + 28, |blob| - (at + 104));
    BodyReplaces(blob, out, at);
  }

  /** The edit keeps the layout, the strings and every listed property but the one it shortens. */
  lemma EditKeepsTree(blob: Bytes, k: nat)
    requires NormalLayout(blob) && Walk(blob).Ok? && k < |Walk(blob).value| && |Walk(blob).value[k].data| == 92
    ensures var prop := Walk(blob).value[k];
            && Field(blob, OFF_STRUCT) <= prop.at && PropertyAt(blob, prop, Field(blob, OFF_STRINGS))
            && var out := EditedBlob(blob, prop);
            && NormalLayout(out) && Strings(out) == Strings(blob)
            && Walk(out).Ok? && Content(Walk(out).value) == Edited(Walk(blob).value, k, RIGHT_DATA)
  {
    hide U32be, DataReplaced, EditedBlob, Content, Edited, PropertyAt, Same, WalkFrom, Field;
    var start, end := Field(blob, OFF_STRUCT), Field(blob, OFF_STRINGS);
    var prop := Walk(blob).value[k];
    PropsAhead(blob, Strings(blob), start, end, [], k);
    ListedAt(blob, Strings(blob), start, end, [], k);
    EditedShape(blob, prop);
    var out := EditedBlob(blob, prop);
    StringsMove(blob, out, prop);
    TreeMoves(blob, out, k);
  }

  lemma StringsMove(blob: Bytes, out: Bytes, prop: Prop)
    requires NormalLayout(blob) && PropertyAt(blob, prop, Field(blob, OFF_STRINGS)) && |prop.data| == 92
    requires Field(blob, OFF_STRUCT) <= prop.at && |out| == |blob| - 76
    requires Field(out, OFF_STRINGS) == Field(blob, OFF_STRINGS) - 76
    requires Field(out, SIZE_STRINGS) == Field(blob, SIZE_STRINGS)
    requires Same(blob, prop.at + 104, out, prop.at + 28, |blob| - (prop.at + 104)) && HasHeader(out)
    ensures Strings(out) == Strings(blob)
  {
    hide U32be, Same;
    var n := Field(blob, OFF_STRINGS) - (prop.at + 104);
    SameSlice(blob, prop.at + 104, out, prop.at + 28, |blob| - (prop.at + 104), n, Field(blob, SIZE_STRINGS));
  }

  lemma TreeMoves(blob: Bytes, out: Bytes, k: nat)
    requires NormalLayout(blob) && Walk(blob).Ok? && k < |Walk(blob).value| && |Walk(blob).value[k].data| == 92
    requires PropertyAt(blob, Walk(blob).value[k], Field(blob, OFF_STRINGS))
    requires Field(blob, OFF_STRUCT) <= Walk(blob).value[k].at
    requires HasHeader(out) && Strings(out) == Strings(blob)
    requires Field(out, OFF_STRUCT) == Field(blob, OFF_STRUCT)
    requires Field(out, SIZE_STRUCT) == Field(blob, SIZE_STRUCT) - 76
    requires var at := Walk(blob).value[k].at;
             Same(blob, 40, out, 40, at - 40) && DataReplaced(blob, out, at, RIGHT_DATA)
    ensures Walk(out).Ok? && Content(Walk(out).value) == Edited(Walk(blob).value, k, RIGHT_DATA)
  {
    hide U32be, DataReplaced, Content, Edited, Same, WalkFrom, StringList;
    RightDataReads();
    var start, end := Field(blob, OFF_STRUCT), Field(blob, OFF_STRINGS);
    var at := Walk(blob).value[k].at;
    SamePart(blob, 40, out, 40, at - 40, start - 40, at - start);
    assert Align4(at + 28) == at + 28 && DataEnd(blob, at) == at + 104;
    ReplacedWalk(blob, out, Strings(blob), start, end, [], k, RIGHT_DATA);
  }

  lemma OnlyMatchStays(props: seq<Prop>, props': seq<Prop>, k: nat, data: Bytes)
    requires OnlyMatch(props, CHOSEN, BOOT_ORDER, k) && Content(props') == Edited(props, k, data)
    ensures OnlyMatch(props', CHOSEN, BOOT_ORDER, k) && props'[k].data == data
  {
    hide Ascii;
    var a, b := Content(props), Content(props');
    assert |props'| == |b| == |a| == |props|;
    forall i | 0 <= i < |props| ensures props'[i].path == props[i].path && props'[i].name == props[i].name {
      assert b[i].path == a[i].path && b[i].name == a[i].name;
    }
    assert b[k].data == data;
  }

  lemma RightOrder(props: seq<Prop>, k: nat)
    requires OnlyMatch(props, CHOSEN, BOOT_ORDER, k) && props[k].data == RIGHT_DATA
    ensures OrderIn(props) == Ok((props[k], [RIGHT_SLOT]))
  {
    hide StringList, Ascii;
    OnlyMatchFound(props, CHOSEN, BOOT_ORDER, k);
    RightDataReads();
  }

  lemma SlotIsNotSource()
    ensures SOURCE_ORDER != [RIGHT_SLOT]
  {
    assert |SOURCE_ORDER| == 5;
  }

  /** On a blob that passes the first checks, none of the later ones can fail. */
  lemma EditIsReached(blob: Bytes, k: nat)
    requires NormalLayout(blob) && Convertible(blob) && k < |Walk(blob).value|
    requires OrderIn(Walk(blob).value).value.0 == Walk(blob).value[k] && |Walk(blob).value[k].data| == 92
    requires PropertyAt(blob, Walk(blob).value[k], Field(blob, OFF_STRINGS))
    requires Field(blob, OFF_STRUCT) <= Walk(blob).value[k].at
    requires var out := EditedBlob(blob, Walk(blob).value[k]);
             |out| == |blob| - 76 && OrderOf(out).Ok? && OrderOf(out).value.1 == [RIGHT_SLOT]
    ensures ReplaceBootOrder(blob) == Ok(EditedBlob(blob, Walk(blob).value[k]))
  {
    hide U32be, PatchHeader, Walk, OrderIn, HasRightSlot, OrderOf, StringList, Strings, Rebuild;
    RightDataReads();
    SlotIsNotSource();
    var at := Walk(blob).value[k].at;
    assert Align4(at + 12 + 92) == at + 104 && Align4(at + 12 + 16) == at + 28;
    RebuiltParts(blob, at, at + 104);
  }

  /**
   Replacing the boot order on a normally laid out tree: the k-th property, the
   only boot order, gets the one-entry list; the walk lists everything else
   unchanged and in order, the strings block is the same, and of the header
   only the total size, the strings offset and the structure size change.
   */
  lemma ReplaceKeepsTree(blob: Bytes) returns (k: nat)
    requires NormalLayout(blob) && Convertible(blob)
    ensures OnlyMatch(Walk(blob).value, CHOSEN, BOOT_ORDER, k)
    ensures ReplaceBootOrder(blob).Ok?
    ensures var out := ReplaceBootOrder(blob).value;
            && NormalLayout(out) && Strings(out) == Strings(blob) && |out| == |blob| - 76
            && Walk(out).Ok? && Content(Walk(out).value) == Edited(Walk(blob).value, k, RIGHT_DATA)
            && OrderOf(out).Ok? && OrderOf(out).value.1 == [RIGHT_SLOT]
            && (forall i :: 0 <= i < 10 && i != TOTAL_SIZE && i != OFF_STRINGS && i != SIZE_STRUCT ==>
                Field(out, i) == Field(blob, i))
            && 40 <= Walk(blob).value[k].at && Same(blob, 40, out, 40, Walk(blob).value[k].at - 40)
  {
    hide U32be, StringList, WalkFrom, Field, PropertyAt, Same, DataReplaced, HasRightSlot, Content;
    hide Edited, EditedBlob, ReplaceBootOrder, Ascii, NormalLayout, OrderIn, OnlyMatch, Strings;
    assert 40 <= Field(blob, OFF_STRUCT) by { LayoutStart(blob); }
    k := SourceProperty(blob);
    var prop := Walk(blob).value[k];
    EditKeepsTree(blob, k);
    EditedShape(blob, prop);
    var out := EditedBlob(blob, prop);
    OnlyMatchStays(Walk(blob).value, Walk(out).value, k, RIGHT_DATA);
    RightOrder(Walk(out).value, k);
    EditIsReached(blob, k);
  }

  lemma LayoutStart(blob: Bytes)
    requires NormalLayout(blob)
    ensures |blob| >= 40 && 40 <= Field(blob, OFF_STRUCT)
  {
    hide U32be;
  }

  lemma SourceProperty(blob: Bytes) returns (k: nat)
    requires Convertible(blob)
    ensures k < |Walk(blob).value| && OnlyMatch(Walk(blob).value, CHOSEN, BOOT_ORDER, k)
    ensures OrderIn(Walk(blob).value).value.0 == Walk(blob).value[k] && |Walk(blob).value[k].data| == 92
  {
    hide Walk, StringList, HasRightSlot, Ascii;
    k := SoleMatch(Walk(blob).value, CHOSEN, BOOT_ORDER);
    SourceDataLength(Walk(blob).value[k].data);
  }

  /** On a normal layout the edit succeeds exactly on the trees its first checks accept. */
  lemma ReplaceSucceedsIff(blob: Bytes)
    requires NormalLayout(blob)
    ensures ReplaceBootOrder(blob).Ok? <==> Convertible(blob)
  {
    if Convertible(blob) {
      var k := ReplaceKeepsTree(blob);
    }
  }

  /** A tree with the expected boot order whose slot is not described is refused, whatever its layout. */
  lemma SlotRefused(blob: Bytes)
    requires Walk(blob).Ok? && OrderIn(Walk(blob).value).Ok? && !SlotDescribed(Walk(blob).value)
    ensures ReplaceBootOrder(blob) == Exit
  {
    hide Walk, OrderIn, HasRightSlot, SlotDescribed;
    RightSlotIff(Walk(blob).value);
  }

  /** An edited blob has a good header, and is refused when it is offered again. */
  lemma ReplaceTwice(blob: Bytes)
    requires ReplaceBootOrder(blob).Ok?
    ensures var out := ReplaceBootOrder(blob).value; HasHeader(out) && ReplaceBootOrder(out) == Exit
  {
    hide WalkFrom, HasRightSlot, U32be, StringList, Ascii, Rebuild, PatchHeader, FindAll;
    assert OrderOf(ReplaceBootOrder(blob).value).value.1 == [RIGHT_SLOT];
  }

  // ---- The edit on a mutable buffer ---------------------------------------

  method PackInto(out: array<byte>, off: nat, n: nat)
    requires n < 0x1_0000_0000 && off + 4 <= out.Length
    modifies out
    ensures out[..] == Patch(old(out[..]), off, Pack32be(n))
  {
    hide Pack32be;
    var w := Pack32be(n);
    out[off], out[off + 1], out[off + 2], out[off + 3] := w[0], w[1], w[2], w[3];
    assert w == [w[0], w[1], w[2], w[3]];
  }

  /** _replace_boot_order with its bytearray, patched three times. */
  method RewriteBootOrder(blob: Bytes) returns (r: Result<Bytes>)
    ensures r == ReplaceBootOrder(blob)
  {
    hide Walk, OrderIn, HasRightSlot, Pack32be, Rebuild, Patch, U32be, StringList, Ascii;
    var props :- WalkBlob(blob);
    var found :- OrderIn(props);
    var prop, order := found.0, found.1;
    if order == [RIGHT_SLOT] || order != SOURCE_ORDER || !HasRightSlot(props) {
      return Exit;
    }
    if prop.at + 12 > |blob| {
      return Crash;
    }
    assert |RIGHT_DATA| == 16 by { RightDataReads(); }
    assert HasHeader(blob) by { WalkNeedsHeader(blob); }
    var delta := Align4(prop.at + 12 + |RIGHT_DATA|) - Align4(prop.at + 12 + |prop.data|);
    var structEnd := Field(blob, OFF_STRUCT) + Field(blob, SIZE_STRUCT);
    var body := Rebuild(blob, prop.at, Align4(prop.at + 12 + |prop.data|), structEnd, Strings(blob), RIGHT_DATA);
    var total, offStrings, sizeStruct :=
      Field(blob, TOTAL_SIZE) + delta, Field(blob, OFF_STRINGS) + delta, Field(blob, SIZE_STRUCT) + delta;
    if |body| < 40 || !Word(total) || !Word(offStrings) || !Word(sizeStruct) {
      return Crash;
    }
    var out := new byte[|body|](i requires 0 <= i < |body| => body[i]);
    assert out[..] == body;
    PackInto(out, 4, total);
    PackInto(out, 12, offStrings);
    PackInto(out, 36, sizeStruct);
    if out.Length != total {
      return Exit;
    }
    var rebuilt :- OrderOf(out[..]);
    r := if rebuilt.1 != [RIGHT_SLOT] then Exit else Ok(out[..]);
  }

  lemma WalkNeedsHeader(blob: Bytes)
    requires Walk(blob).Ok?
    ensures HasHeader(blob)
  {
  }
}
