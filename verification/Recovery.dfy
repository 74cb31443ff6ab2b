/**
 The recovery manifest: binding a derived preloader image to the source it was
 derived from, and classifying the live image. The file system is a map from
 paths to contents; a manifest file is given as the document read from it.
 */
module Recovery {
  import opened Bytes
  import opened Binary
  import opened BootOrder
  import opened Preloader

  const SCHEMA: int := 1
  const DESIGN: string := "right-sd-v1"
  const DEVICE: string := "my355"

  datatype Manifest = Manifest(
    schema: int, design: string, device: string,
    sourceSha: string, recoverySha: string, sourceBackup: string, sourceDdrSha: string,
    splBanner: string, executableSha: string)

  type Files = map<string, Bytes>

  // ---- Hex digests --------------------------------------------------------

  function HexChar(n: nat): char
    requires n < 16
  {
    "0123456789abcdef"[n]
  }

  function Hex(b: Bytes): (s: string)
    ensures |s| == 2 * |b| && forall i :: 0 <= i < |s| ==> s[i] in "0123456789abcdef"
  {
    if b == [] then "" else [HexChar(b[0] as nat / 16), HexChar(b[0] as nat % 16)] + Hex(b[1..])
  }

  function ShaHex(data: Bytes, sha: Sha): (s: string)
    ensures IsHex64(s)
  {
    Hex(sha(data))
  }

  predicate IsHex64(s: string) {
    |s| == 64 && forall i :: 0 <= i < |s| ==> s[i] in "0123456789abcdef"
  }

  function BackupName(sourceSha: string): string { "preloader-current-" + sourceSha + ".img" }

  // ---- Writing and checking a manifest ------------------------------------

  /** manifest_for */
  function ManifestFor(source: Bytes, recovery: Bytes, sha: Sha): Result<Manifest> {
    var pair :- Paired(source, sha);
    var tree :- TreeOf(pair.spl);
    var found :- OrderOf(tree);
    if found.1 != SOURCE_ORDER then Exit
    else
      var derived :- Derive(source, sha);
      if sha(recovery) != sha(derived) then Exit
      else if recovery != derived then Exit
      else Ok(Manifest(SCHEMA, DESIGN, DEVICE, ShaHex(source, sha), ShaHex(recovery, sha),
                       BackupName(ShaHex(source, sha)), ShaHex(pair.ddr, sha), SPL_BANNER,
                       ShaHex(pair.spl[..DTB_OFF], sha)))
  }

  /** _manifest: the checks on a document that was read; None is a file that is not such a document. */
  predicate Accepted(doc: Option<Manifest>) {
    && doc.Some?
    && var d := doc.value;
    && d.schema == SCHEMA && d.design == DESIGN && d.device == DEVICE
    && IsHex64(d.sourceSha) && IsHex64(d.recoverySha) && IsHex64(d.sourceDdrSha) && IsHex64(d.executableSha)
    && d.sourceBackup == BackupName(d.sourceSha)
    && d.splBanner == SPL_BANNER
  }

  function StripSlashes(dir: string): string {
    if dir != "" && dir[|dir| - 1] == '/' then StripSlashes(dir[..|dir| - 1]) else dir
  }

  function InDir(dir: string, name: string): string { StripSlashes(dir) + "/" + name }

  /** bound_source: the path of the source backup, only when that source regenerates the live image. */
  function BoundSource(doc: Option<Manifest>, files: Files, livePath: string, dir: string, sha: Sha): Result<string> {
    if !Accepted(doc) then Exit
    else if livePath !in files then Crash
    else
      var d, live := doc.value, files[livePath];
      var livePair :- Paired(live, sha);
      var sourcePath := InDir(dir, d.sourceBackup);
      if ShaHex(live, sha) != d.recoverySha then Exit
      else if sourcePath !in files then Exit
      else
        var source := files[sourcePath];
        if ShaHex(source, sha) != d.sourceSha then Exit
        else
          var sourcePair :- Paired(source, sha);
          if sourcePair.ddr != livePair.ddr || ShaHex(sourcePair.ddr, sha) != d.sourceDdrSha then Exit
          else if !SameExecutable(sourcePair.spl, livePair.spl, d.executableSha, sha) then Exit
          else match Derive(source, sha)
            case Exit => Exit
            case Crash => Crash
            case Ok(expected) => if expected != live then Exit else Ok(sourcePath)
  }

  function Prefix(s: Bytes, n: nat): Bytes { if n <= |s| then s[..n] else s }

  /** The source is the known build, and both payloads start with the executable the manifest names. */
  predicate SameExecutable(source: Bytes, live: Bytes, executableSha: string, sha: Sha) {
    && HasBanner(Prefix(source, DTB_OFF))
    && Prefix(source, DTB_OFF) == Prefix(live, DTB_OFF)
    && ShaHex(Prefix(source, DTB_OFF), sha) == executableSha
  }

  /** Whatever the manifest says, an accepted source derives to exactly the live bytes. */
  lemma BoundSourceRegenerates(doc: Option<Manifest>, files: Files, livePath: string, dir: string, sha: Sha)
    requires BoundSource(doc, files, livePath, dir, sha).Ok?
    ensures var path := BoundSource(doc, files, livePath, dir, sha).value;
            path in files && livePath in files && Derive(files[path], sha) == Ok(files[livePath])
  {
    hide Derive, Paired, SameExecutable, Hex;
  }

  /** A manifest made for a source and its derivative binds the derivative back to that source. */
  lemma ManifestBinds(source: Bytes, recovery: Bytes, files: Files, livePath: string, dir: string, sha: Sha)
    requires |source| == SIZE && NonOverlapping(source) && ManifestFor(source, recovery, sha).Ok?
    requires livePath in files && files[livePath] == recovery
    requires var path := InDir(dir, ManifestFor(source, recovery, sha).value.sourceBackup);
             path in files && files[path] == source
    ensures var doc := ManifestFor(source, recovery, sha).value;
            BoundSource(Some(doc), files, livePath, dir, sha) == Ok(InDir(dir, doc.sourceBackup))
  {
    hide Derive, Paired, TreeOf, OrderOf, Hex, InDir, HasBanner, Sealed, ReplaceBootOrder;
    DeriveKeeps(source, sha);
    var spl := Paired(source, sha).value.spl;
    assert |spl| >= DTB_OFF && HasBanner(spl[..DTB_OFF]) by { TreeNeedsBanner(spl); }
  }

  lemma TreeNeedsBanner(payload: Bytes)
    requires TreeOf(payload).Ok?
    ensures |payload| >= DTB_OFF && HasBanner(payload[..DTB_OFF])
  {
    hide U32be, U32le, HasBanner;
  }

  // ---- Classifying the live image -----------------------------------------

  datatype Mode = Normal | InRecovery | UnknownMode
  datatype Readiness = NotPrepared | Ready | Armed | Invalid
  datatype State = State(mode: Mode, recovery: Readiness, backupAvailable: bool)

  /** The boot order of an image, when it can be read without an exception other than SystemExit. */
  function LiveOrder(pair: Pair): Result<Option<seq<Bytes>>> {
    match TreeOf(pair.spl)
    case Exit => Ok(None)
    case Crash => Crash
    case Ok(tree) =>
      match OrderOf(tree)
      case Exit => Ok(None)
      case Crash => Crash
      case Ok(found) => Ok(Some(found.1))
  }

  /** The prepared recovery file is the derivative of the source. */
  function PreparedMatches(doc: Manifest, source: Bytes, files: Files, recoveryDir: string, sha: Sha): Result<bool> {
    var path := InDir(recoveryDir, "recovery-" + doc.recoverySha + ".img");
    if path !in files || ShaHex(files[path], sha) != doc.recoverySha then Ok(false)
    else match Derive(source, sha)
      case Exit => Ok(false)
      case Crash => Crash
      case Ok(derived) => Ok(derived == files[path])
  }

  /** recovery_state; `manifest` is None when there is no manifest file. */
  function RecoveryState(manifest: Option<Option<Manifest>>, files: Files, livePath: string, backupDir: string,
                         recoveryDir: string, sha: Sha): Result<State> {
    if livePath !in files then Crash
    else
      var live := files[livePath];
      var pair :- Paired(live, sha);
      var order :- LiveOrder(pair);
      if manifest.None? then Ok(State(if order == Some(SOURCE_ORDER) then Normal else UnknownMode, NotPrepared, false))
      else if !Accepted(manifest.value) then Ok(State(UnknownMode, Invalid, false))
      else
        var doc := manifest.value.value;
        var path := InDir(backupDir, doc.sourceBackup);
        var available := path in files && ShaHex(files[path], sha) == doc.sourceSha;
        match BoundSource(manifest.value, files, livePath, backupDir, sha)
        case Crash => Crash
        case Ok(_) => Ok(State(InRecovery, Armed, true))
        case Exit =>
          if available && ShaHex(live, sha) == doc.sourceSha && files[path] == live then
            var prepared :- PreparedMatches(doc, files[path], files, recoveryDir, sha);
            Ok(if prepared then State(Normal, Ready, available) else State(UnknownMode, Invalid, available))
          else Ok(State(UnknownMode, Invalid, available))
  }

  /**
   Without a manifest nothing is prepared and no backup known. A state is given
   for every sound image whose boot order, if any, does not raise; the mode is
   normal exactly with the boot order of the source.
   */
  lemma UnpreparedState(files: Files, livePath: string, backupDir: string, recoveryDir: string, sha: Sha)
    ensures var r := RecoveryState(None, files, livePath, backupDir, recoveryDir, sha);
            && (r.Ok? <==> livePath in files && Paired(files[livePath], sha).Ok? && !OrderRaises(files[livePath], sha))
            && (r.Ok? ==> r.value.recovery == NotPrepared && !r.value.backupAvailable && r.value.mode != InRecovery)
            && (r.Ok? && r.value.mode == Normal <==>
                  && livePath in files && Paired(files[livePath], sha).Ok?
                  && var tree := TreeOf(Paired(files[livePath], sha).value.spl);
                  && tree.Ok? && OrderOf(tree.value).Ok? && OrderOf(tree.value).value.1 == SOURCE_ORDER)
  {
    hide Paired, TreeOf, OrderOf;
    if livePath in files && Paired(files[livePath], sha).Ok? {
      TreeNeverCrashes(Paired(files[livePath], sha).value.spl);
    }
  }

  /** Reading the boot order ends in an exception other than SystemExit. */
  predicate OrderRaises(image: Bytes, sha: Sha)
    requires Paired(image, sha).Ok?
  {
    var tree := TreeOf(Paired(image, sha).value.spl);
    tree.Ok? && OrderOf(tree.value).Crash?
  }

  lemma TreeNeverCrashes(payload: Bytes)
    ensures !TreeOf(payload).Crash?
  {
    hide U32be, KnownExecutable;
  }

  /** An image is called armed exactly when a source backup regenerates it. */
  lemma ArmedIffBound(manifest: Option<Option<Manifest>>, files: Files, livePath: string, backupDir: string,
                      recoveryDir: string, sha: Sha)
    requires RecoveryState(manifest, files, livePath, backupDir, recoveryDir, sha).Ok?
    ensures RecoveryState(manifest, files, livePath, backupDir, recoveryDir, sha).value.recovery == Armed
            <==> manifest.Some? && BoundSource(manifest.value, files, livePath, backupDir, sha).Ok?
  {
    hide Paired, Derive, SameExecutable, LiveOrder, InDir, Hex;
  }

  /** An image is called ready only when it derives to the prepared recovery file. */
  lemma ReadyDerives(manifest: Option<Option<Manifest>>, files: Files, livePath: string, backupDir: string,
                     recoveryDir: string, sha: Sha)
    requires RecoveryState(manifest, files, livePath, backupDir, recoveryDir, sha).Ok?
    requires RecoveryState(manifest, files, livePath, backupDir, recoveryDir, sha).value.recovery == Ready
    ensures manifest.Some? && manifest.value.Some? && livePath in files
    ensures var path := InDir(recoveryDir, "recovery-" + manifest.value.value.recoverySha + ".img");
            path in files && Derive(files[livePath], sha) == Ok(files[path])
  {
    hide Paired, Derive, BoundSource, LiveOrder, InDir, Hex;
  }

  /** A source image is never its own derivative. */
  lemma DerivativeDiffers(source: Bytes, sha: Sha)
    requires |source| == SIZE && NonOverlapping(source) && Derive(source, sha).Ok?
    ensures Derive(source, sha).value != source
  {
    hide Derive, Paired, TreeOf, Sealed, ReplaceBootOrder, Untouched;
    DeriveKeeps(source, sha);
  }

  /** A live image whose tree and boot order can be read is classified without a crash. */
  lemma OrderReads(data: Bytes, sha: Sha)
    requires Paired(data, sha).Ok? && TreeOf(Paired(data, sha).value.spl).Ok?
    requires OrderOf(TreeOf(Paired(data, sha).value.spl).value).Ok?
    ensures LiveOrder(Paired(data, sha).value).Ok?
  {
    hide Paired, TreeOf, OrderOf;
  }

  /** The derived image has a readable boot order. */
  lemma DerivedOrderReads(source: Bytes, sha: Sha)
    requires |source| == SIZE && NonOverlapping(source) && Derive(source, sha).Ok?
    ensures Paired(Derive(source, sha).value, sha).Ok? && LiveOrder(Paired(Derive(source, sha).value, sha).value).Ok?
  {
    hide Derive, Paired, TreeOf, OrderOf, Sealed, ReplaceBootOrder, Untouched, LiveOrder;
    DeriveKeeps(source, sha);
    var tree := TreeIn(source, sha);
    ReplacedOrderReads(tree);
    OrderReads(Derive(source, sha).value, sha);
  }

  lemma ReplacedOrderReads(tree: Bytes)
    requires ReplaceBootOrder(tree).Ok?
    ensures OrderOf(ReplaceBootOrder(tree).value).Ok?
  {
    hide OrderOf, OrderIn, HasRightSlot, Rebuild, PatchHeader;
  }

  /** With the derivative live the state is armed; with the source live and the derivative prepared it is ready. */
  lemma Lifecycle(source: Bytes, recovery: Bytes, files: Files, livePath: string, backupDir: string,
                  recoveryDir: string, sha: Sha)
    requires |source| == SIZE && NonOverlapping(source) && ManifestFor(source, recovery, sha).Ok?
    requires var path := InDir(backupDir, ManifestFor(source, recovery, sha).value.sourceBackup);
             path in files && files[path] == source
    requires var doc := ManifestFor(source, recovery, sha).value;
             var path := InDir(recoveryDir, "recovery-" + doc.recoverySha + ".img");
             path in files && files[path] == recovery
    requires livePath in files
    ensures var doc := ManifestFor(source, recovery, sha).value;
            var state := RecoveryState(Some(Some(doc)), files, livePath, backupDir, recoveryDir, sha);
            && (files[livePath] == recovery ==> state == Ok(State(InRecovery, Armed, true)))
            && (files[livePath] == source ==> state == Ok(State(Normal, Ready, true)))
  {
    hide Derive, Paired, TreeOf, OrderOf, InDir, Hex, Sealed, ReplaceBootOrder, LiveOrder, SameExecutable, BoundSource;
    var doc := ManifestFor(source, recovery, sha).value;
    if files[livePath] == recovery {
      ManifestBinds(source, recovery, files, livePath, backupDir, sha);
      DerivedOrderReads(source, sha);
    }
    if files[livePath] == source {
      SourceNotBound(doc, source, files, livePath, backupDir, sha);
      OrderReads(source, sha);
    }
  }

  lemma SourceNotBound(doc: Manifest, source: Bytes, files: Files, livePath: string, dir: string, sha: Sha)
    requires |source| == SIZE && NonOverlapping(source) && Derive(source, sha).Ok?
    requires livePath in files && files[livePath] == source
    requires InDir(dir, doc.sourceBackup) in files && files[InDir(dir, doc.sourceBackup)] == source
    ensures BoundSource(Some(doc), files, livePath, dir, sha) == Exit
  {
    hide Derive, InDir, Hex, SameExecutable, Sealed;
    DerivativeDiffers(source, sha);
    assert Paired(source, sha).Ok? by { DeriveSucceedsIff(source, sha); }
  }
}
