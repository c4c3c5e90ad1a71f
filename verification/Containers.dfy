/** Sealing a vault into one file, and opening it again. */
module Containers {
  import opened Wrappers
  import opened ByteSeqs
  import opened VaultTypes
  import opened Stores
  import opened Manifests
  import opened Headers
  import opened VaultRepair
  import opened VaultRepairGuarantees
  import EC = ErrorCorrection

  const MAX_MANIFEST_SIZE: nat := 128 * 1024 * 1024
  const MAX_EXTENSION_DIR_SIZE: nat := 16 * 1024 * 1024
  const SUPPORTED_WRAPPER_VERSION: nat := 1
  const MANIFEST_FORMAT: nat := 3
  const DATA_PARITY_ID: string := "error-correction.reed-solomon"
  const META_PARITY_ID: string := "error-correction-metadata.reed-solomon"
  const PARITY_ALGORITHM: string := "reed-solomon"

  datatype Extension = Extension(id: string, algorithm: string, version: nat, critical: bool, offset: nat, length: nat)

  /** `plaintext` is the lane the manifest records; `supported` that its algorithms are the built-in ones. */
  datatype Manifest = Manifest(format: nat, plaintext: bool, supported: bool, parityPct: nat, entries: seq<Entry>, chunks: Records)

  datatype OpenError =
    | TooShortFile
    | BadHeader(headerError: HeaderError)
    | WrongKey
    | MacMismatch
    | WrapperVersion
    | BadRange
    | TooLarge
    | BadDirectory
    | BadManifest
    | LaneMismatch
    | BadPaths
    | UnusableParity

  /** Keys, MAC, AEAD and JSON, with the password fixed. */
  datatype Library = Library(
    unwrapMac: (Bytes, Bytes) -> Option<Bytes>,
    unwrapMaster: (Bytes, Bytes) -> Option<Bytes>,
    publicMacKey: Bytes,
    publicMaster: Bytes,
    mac: (Bytes, Bytes) -> Bytes,
    sealManifest: (Bytes, Nonce, Manifest) -> Bytes,
    unsealManifest: (Bytes, Bytes) -> Option<Manifest>,
    showManifest: Manifest -> Bytes,
    readManifest: Bytes -> Option<Manifest>,
    showDir: seq<Extension> -> Bytes,
    readDir: Bytes -> Option<seq<Extension>>)

  /** Decoding inverts encoding; the MAC fills its field. */
  ghost predicate LibraryOk(lib: Library) {
    && (forall key, x :: |lib.mac(key, x)| == MAC_SIZE)
    && (forall key, n, m :: lib.unsealManifest(key, lib.sealManifest(key, n, m)) == Some(m))
    && (forall m :: lib.readManifest(lib.showManifest(m)) == Some(m))
    && (forall d :: lib.readDir(lib.showDir(d)) == Some(d))
  }

  datatype Keys = Keys(mac: Bytes, master: Bytes)

  // ---- sealing ------------------------------------------------------------

  function DropMeta(exts: seq<Extension>): seq<Extension> {
    if exts == [] then []
    else DropMeta(exts[..|exts| - 1]) + if exts[|exts| - 1].id == META_PARITY_ID then [] else [exts[|exts| - 1]]
  }

  predicate HasDataParity(exts: seq<Extension>) {
    exists i :: 0 <= i < |exts| && exts[i].id == DATA_PARITY_ID
  }

  function ManifestBlob(lib: Library, keys: Keys, nonce: Nonce, manifest: Manifest): Bytes {
    if manifest.plaintext then lib.showManifest(manifest) else lib.sealManifest(keys.master, nonce, manifest)
  }

  function MetaParity(e: EC.Engine, pct: nat, blob: Bytes): Bytes {
    var (k, p) := EC.GridFor(pct);
    EC.Protect(e, k, p, blob)
  }

  function MetaExtension(offset: nat, length: nat): Extension {
    Extension(META_PARITY_ID, PARITY_ALGORITHM, 1, false, offset, length)
  }

  /** The extensions and payloads as written: manifest parity joins data parity, and nobody else's
      manifest parity is kept. */
  function Injected(e: EC.Engine, pct: nat, exts: seq<Extension>, payloads: Bytes, blob: Bytes): (seq<Extension>, Bytes) {
    var kept := DropMeta(exts);
    if HasDataParity(kept) then
      var meta := MetaParity(e, pct, blob);
      (kept + [MetaExtension(|payloads|, |meta|)], payloads + meta)
    else (kept, payloads)
  }

  /** The header with its ranges laid end to end, before its MAC. */
  function Laid(h: Header, data: Bytes, blob: Bytes, dir: Bytes, payloads: Bytes): Header {
    h.(dataOffset := HEADER_SIZE, dataLen := |data|,
       manifestOffset := HEADER_SIZE + |data|, manifestLen := |blob|,
       dirOffset := HEADER_SIZE + |data| + |blob|, dirLen := |dir|,
       payloadOffset := HEADER_SIZE + |data| + |blob| + |dir|, payloadLen := |payloads|,
       mac := Zeros(MAC_SIZE))
  }

  function Stamped(lib: Library, macKey: Bytes, h: Header): Header { h.(mac := lib.mac(macKey, MacInput(h))) }

  /** A sealed file: its final header, and its bytes. */
  datatype Sealed = Sealed(header: Header, bytes: Bytes)

  function Container(lib: Library, e: EC.Engine, h: Header, keys: Keys, nonce: Nonce, manifest: Manifest,
                     exts: seq<Extension>, payloads: Bytes, data: Bytes): Sealed
  {
    var blob := ManifestBlob(lib, keys, nonce, manifest);
    var (all, pays) := Injected(e, manifest.parityPct, exts, payloads, blob);
    var dir := lib.showDir(all);
    var header := Stamped(lib, keys.mac, Laid(h, data, blob, dir, pays));
    Sealed(header, HeaderImage(header) + data + blob + dir + pays)
  }

  method WriteContainer(lib: Library, e: EC.Engine, h: Header, keys: Keys, nonce: Nonce, manifest: Manifest,
                        exts: seq<Extension>, payloads: Bytes, data: Bytes) returns (out: Bytes)
    requires EC.EngineOk(e) && LibraryOk(lib) && h.Fits()
    requires Container(lib, e, h, keys, nonce, manifest, exts, payloads, data).header.Fits()
    ensures out == Container(lib, e, h, keys, nonce, manifest, exts, payloads, data).bytes
  {
    hide EC.EngineOk, EC.Protect, EC.GridFor, HeaderImage, MacInput, LibraryOk;
    var blob := ManifestBlob(lib, keys, nonce, manifest);
    var kept := KeepExtensions(exts);
    var pays := payloads;
    if HasDataParity(kept) {
      EC.GridBounds(manifest.parityPct);
      var (k, p) := EC.GridFor(manifest.parityPct);
      var meta, shards, protected := EC.ComputeShards(e, [blob], k, p);
      assert Flatten([blob]) == blob by { OneBlob(blob); }
      kept := kept + [MetaExtension(|pays|, |meta|)];
      pays := pays + meta;
    }
    var dir := lib.showDir(kept);
    var laid := h;
    laid := laid.(dataOffset := HEADER_SIZE);
    laid := laid.(dataLen := |data|);
    laid := laid.(manifestOffset := HEADER_SIZE + laid.dataLen);
    laid := laid.(manifestLen := |blob|);
    laid := laid.(dirOffset := laid.manifestOffset + laid.manifestLen);
    laid := laid.(dirLen := |dir|);
    laid := laid.(payloadOffset := laid.dirOffset + laid.dirLen);
    laid := laid.(payloadLen := |pays|);
    laid := laid.(mac := Zeros(MAC_SIZE));
    laid := laid.(mac := lib.mac(keys.mac, MacInput(laid)));
    assert laid == Stamped(lib, keys.mac, Laid(h, data, blob, dir, pays));
    var image := EncodeHeader(laid);
    out := image[..] + data + blob + dir + pays;
  }

  lemma OneBlob(blob: Bytes)
    ensures Flatten([blob]) == blob
  {
  }

  method KeepExtensions(exts: seq<Extension>) returns (kept: seq<Extension>)
    ensures kept == DropMeta(exts)
  {
    kept := [];
    for i := 0 to |exts|
      invariant kept == DropMeta(exts[..i])
    {
      assert exts[..i + 1][..i] == exts[..i];
      if exts[i].id != META_PARITY_ID {
        kept := kept + [exts[i]];
      }
    }
    assert exts[..|exts|] == exts;
  }

  // ---- opening ------------------------------------------------------------

  predicate InFile(offset: nat, len: nat, fileLen: nat) { offset + len <= fileLen }

  predicate ValidRanges(h: Header, fileLen: nat) {
    && h.dataOffset == HEADER_SIZE
    && InFile(h.dataOffset, h.dataLen, fileLen) && InFile(h.manifestOffset, h.manifestLen, fileLen)
    && InFile(h.dirOffset, h.dirLen, fileLen) && InFile(h.payloadOffset, h.payloadLen, fileLen)
  }

  /** No critical extension, no id twice, every payload inside the payload region. */
  predicate ValidExtensions(exts: seq<Extension>, payloadLen: nat) {
    && (forall i :: 0 <= i < |exts| ==> !exts[i].critical && exts[i].offset + exts[i].length <= payloadLen)
    && forall i, j :: 0 <= i < j < |exts| ==> exts[i].id != exts[j].id
  }

  method ValidateRanges(h: Header, fileLen: nat) returns (ok: bool)
    ensures ok == ValidRanges(h, fileLen)
  {
    if h.dataOffset != HEADER_SIZE {
      return false;
    }
    var ranges := [(h.dataOffset, h.dataLen), (h.manifestOffset, h.manifestLen), (h.dirOffset, h.dirLen), (h.payloadOffset, h.payloadLen)];
    for i := 0 to |ranges|
      invariant forall j :: 0 <= j < i ==> InFile(ranges[j].0, ranges[j].1, fileLen)
    {
      if !InFile(ranges[i].0, ranges[i].1, fileLen) {
        assert !ValidRanges(h, fileLen) by {
          assert i == 0 || i == 1 || i == 2 || i == 3;
        }
        return false;
      }
    }
    assert InFile(ranges[0].0, ranges[0].1, fileLen) && InFile(ranges[1].0, ranges[1].1, fileLen)
           && InFile(ranges[2].0, ranges[2].1, fileLen) && InFile(ranges[3].0, ranges[3].1, fileLen);
    ok := true;
  }

  method ValidateExtensions(exts: seq<Extension>, payloadLen: nat) returns (ok: bool)
    ensures ok == ValidExtensions(exts, payloadLen)
  {
    var seen: set<string> := {};
    for i := 0 to |exts|
      invariant seen == set j | 0 <= j < i :: exts[j].id
      invariant ValidExtensions(exts[..i], payloadLen)
    {
      var ext := exts[i];
      if ext.critical || ext.id in seen || ext.offset + ext.length > payloadLen {
        if ext.id in seen {
          var j :| 0 <= j < i && exts[j].id == ext.id;
        }
        return false;
      }
      assert forall j :: 0 <= j < i ==> exts[j].id in seen;
      seen := seen + {ext.id};
    }
    assert exts[..|exts|] == exts;
    ok := true;
  }

  function ReadSection(file: Bytes, offset: nat, len: nat): Bytes
    requires InFile(offset, len, |file|)
  {
    file[offset..offset + len]
  }

  /** Unwraps the MAC key, checks the header's MAC, then unwraps the master key. */
  function UnlockWithPassword(lib: Library, h: Header): Result<Keys, OpenError> {
    var macKey := lib.unwrapMac(h.salt, h.wrappedMac);
    if macKey.None? then Err(WrongKey)
    else if lib.mac(macKey.value, MacInput(h)) != h.mac then Err(MacMismatch)
    else if h.wrapperVersion != SUPPORTED_WRAPPER_VERSION then Err(WrapperVersion)
    else
      var master := lib.unwrapMaster(h.salt, h.wrappedMaster);
      if master.None? then Err(WrongKey) else Ok(Keys(macKey.value, master.value))
  }

  /** On the plaintext lane the keys are public; the MAC is checked all the same. */
  function Unlock(lib: Library, h: Header): Result<Keys, OpenError> {
    if h.flags % 2 == 1 then
      if lib.mac(lib.publicMacKey, MacInput(h)) != h.mac then Err(MacMismatch)
      else if h.wrapperVersion != SUPPORTED_WRAPPER_VERSION then Err(WrapperVersion)
      else Ok(Keys(lib.publicMacKey, lib.publicMaster))
    else UnlockWithPassword(lib, h)
  }

  datatype Opened = Opened(header: Header, manifest: Manifest, exts: seq<Extension>, data: Bytes)

  function DecodeManifest(lib: Library, plain: bool, keys: Keys, blob: Bytes): Option<Manifest> {
    if plain then lib.readManifest(blob) else lib.unsealManifest(keys.master, blob)
  }

  /** The checks on a decoded manifest. */
  ghost function CheckManifest(plain: bool, read: Option<Manifest>): Result<Manifest, OpenError> {
    if read.None? || read.value.format != MANIFEST_FORMAT || !read.value.supported then Err(BadManifest)
    else if plain != read.value.plaintext then Err(LaneMismatch)
    else if !PathsValid(read.value.entries) then Err(BadPaths)
    else Ok(read.value)
  }

  /** Reads the sections of a file whose header is unlocked. */
  ghost function OpenSections(lib: Library, h: Header, keys: Keys, file: Bytes): Result<Opened, OpenError>
    requires ValidRanges(h, |file|)
  {
    if h.manifestLen > MAX_MANIFEST_SIZE || h.dirLen > MAX_EXTENSION_DIR_SIZE then Err(TooLarge)
    else
      var exts := lib.readDir(ReadSection(file, h.dirOffset, h.dirLen));
      if exts.None? || !ValidExtensions(exts.value, h.payloadLen) then Err(BadDirectory)
      else
        var blob := ReadSection(file, h.manifestOffset, h.manifestLen);
        var manifest := CheckManifest(h.flags % 2 == 1, DecodeManifest(lib, h.flags % 2 == 1, keys, blob));
        if manifest.Err? then Err(manifest.error)
        else Ok(Opened(h, manifest.value, DropMeta(exts.value), ReadSection(file, h.dataOffset, h.dataLen)))
  }

  /** Opening a file nothing has happened to. */
  ghost function OpenContainer(lib: Library, file: Bytes): Result<Opened, OpenError> {
    if |file| < HEADER_SIZE then Err(TooShortFile)
    else
      var h := DecodeHeader(file[..HEADER_SIZE]);
      if h.Err? then Err(BadHeader(h.error))
      else
        var keys := Unlock(lib, h.value);
        if keys.Err? then Err(keys.error)
        else if !ValidRanges(h.value, |file|) then Err(BadRange)
        else OpenSections(lib, h.value, keys.value, file)
  }

  // ---- sealing then opening -----------------------------------------------

  lemma {:induction false} DropMetaTwice(exts: seq<Extension>)
    ensures DropMeta(DropMeta(exts)) == DropMeta(exts)
  {
    if exts != [] {
      var front, last := DropMeta(exts[..|exts| - 1]), exts[|exts| - 1];
      DropMetaTwice(exts[..|exts| - 1]);
      if last.id != META_PARITY_ID {
        assert (front + [last])[..|front|] == front;
      } else {
        assert front + [] == front;
      }
    }
  }

  lemma DropMetaInjected(e: EC.Engine, pct: nat, exts: seq<Extension>, payloads: Bytes, blob: Bytes)
    ensures DropMeta(Injected(e, pct, exts, payloads, blob).0) == DropMeta(exts)
  {
    hide MetaParity;
    DropMetaTwice(exts);
    var kept := DropMeta(exts);
    if HasDataParity(kept) {
      var meta := MetaExtension(|payloads|, |MetaParity(e, pct, blob)|);
      assert (kept + [meta])[..|kept|] == kept;
    }
  }

  /** The final header gives the sections in file order, each starting where the last one ended, and
      together with the header they are the whole file. */
  lemma SectionsTile(lib: Library, e: EC.Engine, h: Header, keys: Keys, nonce: Nonce, manifest: Manifest,
                     exts: seq<Extension>, payloads: Bytes, data: Bytes)
    requires Container(lib, e, h, keys, nonce, manifest, exts, payloads, data).header.Fits()
    ensures var c := Container(lib, e, h, keys, nonce, manifest, exts, payloads, data);
            var blob := ManifestBlob(lib, keys, nonce, manifest);
            var (all, pays) := Injected(e, manifest.parityPct, exts, payloads, blob);
            && c.bytes[..HEADER_SIZE] == HeaderImage(c.header)
            && c.header.dataOffset == HEADER_SIZE
            && c.header.manifestOffset == c.header.dataOffset + c.header.dataLen
            && c.header.dirOffset == c.header.manifestOffset + c.header.manifestLen
            && c.header.payloadOffset == c.header.dirOffset + c.header.dirLen
            && |c.bytes| == c.header.payloadOffset + c.header.payloadLen
            && ValidRanges(c.header, |c.bytes|)
            && ReadSection(c.bytes, c.header.dataOffset, c.header.dataLen) == data
            && ReadSection(c.bytes, c.header.manifestOffset, c.header.manifestLen) == blob
            && ReadSection(c.bytes, c.header.dirOffset, c.header.dirLen) == lib.showDir(all)
            && ReadSection(c.bytes, c.header.payloadOffset, c.header.payloadLen) == pays
  {
    hide HeaderImage, Injected, ManifestBlob, MacInput, KeyPart, RangePart;
    var c := Container(lib, e, h, keys, nonce, manifest, exts, payloads, data);
    ImageParts(c.header);
  }

  /** What a caller must have set up for the file to open with the same keys. */
  ghost predicate Consistent(lib: Library, h: Header, keys: Keys, manifest: Manifest) {
    && h.wrapperVersion == SUPPORTED_WRAPPER_VERSION
    && manifest.format == MANIFEST_FORMAT && manifest.supported && PathsValid(manifest.entries)
    && (h.flags % 2 == 1) == manifest.plaintext
    && (if manifest.plaintext then keys == Keys(lib.publicMacKey, lib.publicMaster)
        else lib.unwrapMac(h.salt, h.wrappedMac) == Some(keys.mac) && lib.unwrapMaster(h.salt, h.wrappedMaster) == Some(keys.master))
  }

  lemma StampedUnlocks(lib: Library, h: Header, laid: Header, keys: Keys, manifest: Manifest)
    requires Consistent(lib, h, keys, manifest)
    requires laid.flags == h.flags && laid.salt == h.salt && laid.wrappedMac == h.wrappedMac
    requires laid.wrappedMaster == h.wrappedMaster && laid.wrapperVersion == h.wrapperVersion
    ensures Unlock(lib, Stamped(lib, keys.mac, laid)) == Ok(keys)
  {
  }

  /** Opening a sealed file gives the same manifest, data and extensions. */
  lemma SealThenOpen(lib: Library, e: EC.Engine, h: Header, keys: Keys, nonce: Nonce, manifest: Manifest,
                     exts: seq<Extension>, payloads: Bytes, data: Bytes)
    requires LibraryOk(lib) && Consistent(lib, h, keys, manifest)
    requires var c := Container(lib, e, h, keys, nonce, manifest, exts, payloads, data);
             && c.header.Fits() && c.header.manifestLen <= MAX_MANIFEST_SIZE && c.header.dirLen <= MAX_EXTENSION_DIR_SIZE
    requires var blob := ManifestBlob(lib, keys, nonce, manifest);
             var (all, pays) := Injected(e, manifest.parityPct, exts, payloads, blob);
             ValidExtensions(all, |pays|)
    ensures var c := Container(lib, e, h, keys, nonce, manifest, exts, payloads, data);
            OpenContainer(lib, c.bytes) == Ok(Opened(c.header, manifest, DropMeta(exts), data))
  {
    hide HeaderImage, Injected, MacInput, Unlock, PathsValid, DecodeHeader, ValidExtensions, Zeros;
    var c := Container(lib, e, h, keys, nonce, manifest, exts, payloads, data);
    var blob := ManifestBlob(lib, keys, nonce, manifest);
    var (all, pays) := Injected(e, manifest.parityPct, exts, payloads, blob);
    SectionsTile(lib, e, h, keys, nonce, manifest, exts, payloads, data);
    HeaderReadBack(c.header, []);
    assert HeaderImage(c.header) + [] == HeaderImage(c.header);
    StampedUnlocks(lib, h, Laid(h, data, blob, lib.showDir(all), pays), keys, manifest);
    DropMetaInjected(e, manifest.parityPct, exts, payloads, blob);
  }

  // ---- saving a vault -----------------------------------------------------

  /** The extensions with a fresh data parity recorded in the first data-parity entry. */
  function Refreshed(exts: seq<Extension>, length: nat): seq<Extension> {
    if exts == [] then []
    else if exts[0].id == DATA_PARITY_ID then [exts[0].(offset := 0, length := length)] + exts[1..]
    else [exts[0]] + Refreshed(exts[1..], length)
  }

  function DataParity(e: EC.Engine, pct: nat, stream: Bytes): Bytes {
    var (k, p) := EC.GridFor(pct);
    EC.Protect(e, k, p, stream)
  }

  method RefreshParity(exts: seq<Extension>, length: nat) returns (out: seq<Extension>)
    ensures out == Refreshed(exts, length)
  {
    assert exts[0..] == exts;
    for i := 0 to |exts|
      invariant Refreshed(exts, length) == exts[..i] + Refreshed(exts[i..], length)
    {
      assert exts[i..][0] == exts[i] && exts[i..][1..] == exts[i + 1..];
      if exts[i].id == DATA_PARITY_ID {
        return exts[..i] + [exts[i].(offset := 0, length := length)] + exts[i + 1..];
      }
    }
    assert exts[..|exts|] == exts;
    out := exts;
  }

  /** The payload area and the extension entries a save writes, for a data section `stream`. */
  function SavedPayload(e: EC.Engine, pct: nat, exts: seq<Extension>, stream: Bytes): Bytes {
    if HasDataParity(exts) then DataParity(e, pct, stream) else []
  }

  function SavedExtensions(e: EC.Engine, pct: nat, exts: seq<Extension>, stream: Bytes): seq<Extension> {
    if HasDataParity(exts) then Refreshed(exts, |SavedPayload(e, pct, exts, stream)|) else exts
  }

  /** A save of `data` with parity over `stream`. */
  function SavedOver(lib: Library, e: EC.Engine, h: Header, keys: Keys, nonce: Nonce, manifest: Manifest,
                     exts: seq<Extension>, stream: Bytes, data: Bytes): Sealed
  {
    Container(lib, e, h, keys, nonce, manifest, SavedExtensions(e, manifest.parityPct, exts, stream),
              SavedPayload(e, manifest.parityPct, exts, stream), data)
  }

  /** A save with parity over the whole data section. */
  function Saved(lib: Library, e: EC.Engine, h: Header, keys: Keys, nonce: Nonce, manifest: Manifest,
                 exts: seq<Extension>, data: Bytes): Sealed
  {
    SavedOver(lib, e, h, keys, nonce, manifest, exts, data, data)
  }

  /** What the header can record is within 64 bits, whatever order records of one offset are taken in. */
  ghost predicate SaveFits(lib: Library, e: EC.Engine, h: Header, keys: Keys, nonce: Nonce, manifest: Manifest,
                           exts: seq<Extension>, data: Bytes)
  {
    forall byOffset :: (HasDataParity(exts) ==> ByOffset(byOffset, manifest.chunks)) ==>
      SavedOver(lib, e, h, keys, nonce, manifest, exts, LiveStream(data, manifest.chunks, byOffset), data).header.Fits()
  }

  /** Recomputes the data parity over the live blocks when the vault carries it, then writes the
      container, whether or not the store is sound. */
  method Save(lib: Library, e: EC.Engine, h: Header, keys: Keys, nonce: Nonce, manifest: Manifest,
              exts: seq<Extension>, data: Bytes)
    returns (out: Bytes, ghost byOffset: seq<ChunkId>)
    requires EC.EngineOk(e) && LibraryOk(lib) && h.Fits()
    requires SaveFits(lib, e, h, keys, nonce, manifest, exts, data)
    ensures HasDataParity(exts) ==> ByOffset(byOffset, manifest.chunks)
    ensures out == SavedOver(lib, e, h, keys, nonce, manifest, exts, LiveStream(data, manifest.chunks, byOffset), data).bytes
  {
    hide EC.EngineOk, EC.Protect, EC.GridFor, LibraryOk, Container, LiveCells, ByOffset, Refreshed;
    var pays := [];
    var all := exts;
    byOffset := [];
    if HasDataParity(exts) {
      var blocks, order := CollectLiveBlocks(manifest.chunks, data);
      byOffset := order;
      EC.GridBounds(manifest.parityPct);
      var (k, p) := EC.GridFor(manifest.parityPct);
      var shards, protected;
      pays, shards, protected := EC.ComputeShards(e, blocks, k, p);
      all := RefreshParity(exts, |pays|);
    }
    assert SavedOver(lib, e, h, keys, nonce, manifest, exts, LiveStream(data, manifest.chunks, byOffset), data).header.Fits() by {
      assert HasDataParity(exts) ==> ByOffset(byOffset, manifest.chunks);
    }
    out := WriteContainer(lib, e, h, keys, nonce, manifest, all, pays, data);
  }

  /** For a sound store the parity is that of the whole data section. */
  lemma SoundSave(lib: Library, e: EC.Engine, h: Header, keys: Keys, nonce: Nonce, manifest: Manifest, exts: seq<Extension>,
                  data: Bytes, setup: Setup, order: seq<ChunkId>, ledger: Ledger, byOffset: seq<ChunkId>)
    requires StoreOk(setup, order, ledger, manifest.chunks, data)
    requires HasDataParity(exts) ==> ByOffset(byOffset, manifest.chunks)
    ensures SavedOver(lib, e, h, keys, nonce, manifest, exts, LiveStream(data, manifest.chunks, byOffset), data) ==
            Saved(lib, e, h, keys, nonce, manifest, exts, data)
  {
    hide Container, Refreshed, DataParity, LiveStream, StoreOk, ByOffset;
    if HasDataParity(exts) {
      LiveStreamIsData(setup, order, ledger, manifest.chunks, data, byOffset);
    }
  }

  /** A vault whose extensions are none, or data parity alone, is saved with a directory its reader
      accepts, and the parity entry finds the parity of the data section in the payload area. */
  lemma SavedDirectoryValid(e: EC.Engine, pct: nat, exts: seq<Extension>, stream: Bytes, blob: Bytes)
    requires exts == [] || (|exts| == 1 && exts[0].id == DATA_PARITY_ID && !exts[0].critical)
    ensures var written := SavedExtensions(e, pct, exts, stream);
            var (all, pays) := Injected(e, pct, written, SavedPayload(e, pct, exts, stream), blob);
            && ValidExtensions(all, |pays|)
            && DropMeta(written) == written
            && (exts != [] ==>
                 var parity := DataParity(e, pct, stream);
                 written == [exts[0].(offset := 0, length := |parity|)] && |parity| <= |pays| && pays[..|parity|] == parity)
  {
    hide EC.Protect, EC.GridFor, DataParity, MetaParity;
    if exts != [] {
      var parity := DataParity(e, pct, stream);
      assert exts[0].id == DATA_PARITY_ID;
      var one := [exts[0].(offset := 0, length := |parity|)];
      assert exts[1..] == [] && Refreshed(exts, |parity|) == one;
      assert one[..0] == [] && DropMeta(one) == one;
      assert one[0].id == DATA_PARITY_ID;
    }
  }

  /** Saving a vault and opening the file gives back its manifest, its data, and its extensions with
      fresh parity recorded. */
  lemma SaveThenOpen(lib: Library, e: EC.Engine, h: Header, keys: Keys, nonce: Nonce, manifest: Manifest,
                     exts: seq<Extension>, data: Bytes)
    requires LibraryOk(lib) && Consistent(lib, h, keys, manifest)
    requires exts == [] || (|exts| == 1 && exts[0].id == DATA_PARITY_ID && !exts[0].critical)
    requires var c := Saved(lib, e, h, keys, nonce, manifest, exts, data);
             && c.header.Fits() && c.header.manifestLen <= MAX_MANIFEST_SIZE && c.header.dirLen <= MAX_EXTENSION_DIR_SIZE
    ensures var c := Saved(lib, e, h, keys, nonce, manifest, exts, data);
            OpenContainer(lib, c.bytes) == Ok(Opened(c.header, manifest, SavedExtensions(e, manifest.parityPct, exts, data), data))
  {
    hide Consistent, LibraryOk, SavedExtensions, SavedPayload, OpenContainer, Container, Injected, ManifestBlob;
    SavedDirectoryValid(e, manifest.parityPct, exts, data, ManifestBlob(lib, keys, nonce, manifest));
    SealThenOpen(lib, e, h, keys, nonce, manifest, SavedExtensions(e, manifest.parityPct, exts, data),
                 SavedPayload(e, manifest.parityPct, exts, data), data);
  }
}
