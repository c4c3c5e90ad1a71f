/** Opening a vault file that may be damaged: a header that does not unlock is rebuilt from the recovery
    file, and a manifest that does not decode from the parity embedded with it or from that file. */
module Opening {
  import opened Wrappers
  import opened ByteSeqs
  import opened ParityRepair
  import opened Sidecars
  import opened VaultRepair
  import opened Headers
  import opened Containers
  import opened VaultSidecars
  import VaultTypes
  import ManifestChecks
  import SidecarReaders
  import StreamRepair
  import EC = ErrorCorrection

  const MANIFEST_SEGMENT: nat := 1

  // ---- the header ---------------------------------------------------------

  /** The header as found says the content is not encrypted. */
  predicate PlainLane(image: Bytes) {
    DecodeHeader(image).Ok? && DecodeHeader(image).value.flags % 2 == 1
  }

  function UnlockBytes(lib: Library, image: Bytes): Result<(Header, Keys), OpenError> {
    match DecodeHeader(image)
    case Err(e) => Err(BadHeader(e))
    case Ok(h) =>
      match UnlockWithPassword(lib, h)
      case Err(e) => Err(e)
      case Ok(keys) => Ok((h, keys))
  }

  /** What the recovery file's parity for a region makes of the region as found, if it can be used. */
  ghost predicate SidecarRebuilt(e: EC.Engine, hs: Hashes, sidecar: Option<Bytes>, role: nat, found: Bytes, out: Option<Bytes>) {
    if sidecar.None? || ReadSidecar(hs, sidecar.value).Err? || SidecarParity(ReadSidecar(hs, sidecar.value).value, role) == []
    then out == None
    else ParityRebuilt(e, SidecarParity(ReadSidecar(hs, sidecar.value).value, role), found, out)
  }

  /** The result of a repair, or nothing when the parity is refused. */
  ghost predicate ParityRebuilt(e: EC.Engine, parity: Bytes, found: Bytes, out: Option<Bytes>) {
    exists fixed, n :: RepairOutcome(e, parity, found, fixed, n) && out == if n.Ok? then Some(fixed) else None
  }

  method RebuildFromSidecar(e: EC.Engine, hs: Hashes, sidecar: Option<Bytes>, role: nat, found: Bytes) returns (out: Option<Bytes>)
    requires EC.EngineOk(e)
    ensures SidecarRebuilt(e, hs, sidecar, role, found, out)
  {
    hide EC.EngineOk, RepairOutcome, ReadSidecar;
    if sidecar.None? {
      return None;
    }
    var sc := SidecarReaders.ReadFromMemory(hs, sidecar.value);
    if sc.Err? {
      return None;
    }
    var parity := SidecarParity(sc.value, role);
    if parity == [] {
      return None;
    }
    var n, fixed := StreamRepair.RepairPart(e, found, parity);
    out := if n.Ok? then Some(fixed) else None;
  }

  /** The header that is opened with, its keys, and whether it was rebuilt. */
  ghost predicate HeaderOutcome(lib: Library, e: EC.Engine, hs: Hashes, found: Bytes, sidecar: Option<Bytes>,
                                r: Result<(Header, Keys, bool), OpenError>)
  {
    if PlainLane(found) then
      var h := DecodeHeader(found).value;
      r == match Unlock(lib, h)
           case Ok(keys) => Ok((h, keys, false))
           case Err(x) => Err(x)
    else
      match UnlockBytes(lib, found)
      case Ok((h, keys)) => r == Ok((h, keys, false))
      case Err(first) => exists image :: SidecarRebuilt(e, hs, sidecar, HEADER_SEGMENT, found, image) && r == RebuiltHeader(lib, image, first)
  }

  /** A rebuilt header counts only if it unlocks; otherwise the first failure stands. */
  function RebuiltHeader(lib: Library, image: Option<Bytes>, first: OpenError): Result<(Header, Keys, bool), OpenError> {
    if image.None? then Err(first)
    else
      match UnlockImage(lib, image.value)
      case None => Err(first)
      case Some((h, keys)) => Ok((h, keys, true))
  }

  method OpenHeader(lib: Library, e: EC.Engine, hs: Hashes, found: Bytes, sidecar: Option<Bytes>)
    returns (r: Result<(Header, Keys, bool), OpenError>)
    requires EC.EngineOk(e) && |found| == HEADER_SIZE
    ensures HeaderOutcome(lib, e, hs, found, sidecar, r)
  {
    hide EC.EngineOk, DecodeHeader, UnlockWithPassword, Unlock, UnlockImage, RepairOutcome, ReadSidecar;
    if PlainLane(found) {
      var h := DecodeHeader(found).value;
      var keys := Unlock(lib, h);
      return if keys.Ok? then Ok((h, keys.value, false)) else Err(keys.error);
    }
    var direct := UnlockBytes(lib, found);
    if direct.Ok? {
      return Ok((direct.value.0, direct.value.1, false));
    }
    if sidecar.None? {
      assert SidecarRebuilt(e, hs, sidecar, HEADER_SEGMENT, found, None);
      return Err(direct.error);
    }
    var again, rebuilt, n := RecoverHeader(lib, e, hs, found, sidecar.value);
    ghost var sc := ReadSidecar(hs, sidecar.value);
    ghost var image := if sc.Err? || SidecarParity(sc.value, HEADER_SEGMENT) == [] || n.Err? then None else Some(rebuilt);
    assert SidecarRebuilt(e, hs, sidecar, HEADER_SEGMENT, found, image);
    r := if again.None? then Err(direct.error) else Ok((again.value.0, again.value.1, true));
  }

  // ---- the manifest -------------------------------------------------------

  /** The first manifest-parity entry of the directory. */
  function MetaEntry(exts: seq<Extension>): Option<Extension> {
    if exts == [] then None
    else if exts[0].id == META_PARITY_ID then Some(exts[0])
    else MetaEntry(exts[1..])
  }

  /** What the embedded parity makes of the manifest as found. Parity that is there and cannot be used
      is an error. */
  ghost predicate EmbeddedRebuilt(e: EC.Engine, h: Header, exts: seq<Extension>, file: Bytes, found: Bytes,
                                  out: Result<Option<Bytes>, OpenError>)
  {
    var meta := MetaEntry(exts);
    if meta.None? || meta.value.length == 0 then out == Ok(None)
    else
      var at := h.payloadOffset + meta.value.offset;
      if at + meta.value.length > |file| then out == Err(BadRange)
      else if meta.value.length > 2 * MAX_MANIFEST_SIZE then out == Err(TooLarge)
      else exists image :: ParityRebuilt(e, file[at..at + meta.value.length], found, image)
                           && out == if image.None? then Err(UnusableParity) else Ok(image)
  }

  method FindMeta(exts: seq<Extension>) returns (r: Option<Extension>)
    ensures r == MetaEntry(exts)
  {
    assert exts[0..] == exts;
    for i := 0 to |exts|
      invariant MetaEntry(exts) == MetaEntry(exts[i..])
    {
      assert exts[i..][1..] == exts[i + 1..];
      if exts[i].id == META_PARITY_ID {
        return Some(exts[i]);
      }
    }
    r := None;
  }

  method RebuildEmbedded(e: EC.Engine, h: Header, exts: seq<Extension>, file: Bytes, found: Bytes)
    returns (out: Result<Option<Bytes>, OpenError>)
    requires EC.EngineOk(e)
    ensures EmbeddedRebuilt(e, h, exts, file, found, out)
  {
    hide EC.EngineOk, RepairOutcome, MetaEntry;
    var meta := FindMeta(exts);
    if meta.None? || meta.value.length == 0 {
      return Ok(None);
    }
    var at := h.payloadOffset + meta.value.offset;
    if at + meta.value.length > |file| {
      return Err(BadRange);
    }
    if meta.value.length > 2 * MAX_MANIFEST_SIZE {
      return Err(TooLarge);
    }
    var n, fixed := StreamRepair.RepairPart(e, found, file[at..at + meta.value.length]);
    ghost var image := if n.Ok? then Some(fixed) else None;
    assert ParityRebuilt(e, file[at..at + meta.value.length], found, image);
    out := if n.Ok? then Ok(Some(fixed)) else Err(UnusableParity);
  }

  /** The manifest that is opened with, and whether it was rebuilt: from the embedded parity, or, when that
      is absent or changes nothing, from the recovery file. */
  ghost predicate ManifestOutcome(lib: Library, e: EC.Engine, hs: Hashes, plain: bool, h: Header, keys: Keys,
                                  exts: seq<Extension>, file: Bytes, found: Bytes, sidecar: Option<Bytes>,
                                  r: Result<(Manifest, bool), OpenError>)
  {
    match DecodeManifest(lib, plain, keys, found)
    case Some(m) => r == Ok((m, false))
    case None =>
      exists embedded :: EmbeddedRebuilt(e, h, exts, file, found, embedded) &&
        match embedded
        case Err(x) => r == Err(x)
        case Ok(image) =>
          if image.Some? && image.value != found then r == RebuiltManifest(lib, plain, keys, found, image)
          else exists other :: SidecarRebuilt(e, hs, sidecar, MANIFEST_SEGMENT, found, other)
                               && r == RebuiltManifest(lib, plain, keys, found, other)
  }

  /** A rebuilt manifest counts only if it differs from what was found and decodes. */
  function RebuiltManifest(lib: Library, plain: bool, keys: Keys, found: Bytes, image: Option<Bytes>): Result<(Manifest, bool), OpenError> {
    if image.None? || image.value == found then Err(BadManifest)
    else
      match DecodeManifest(lib, plain, keys, image.value)
      case None => Err(BadManifest)
      case Some(m) => Ok((m, true))
  }

  method OpenManifest(lib: Library, e: EC.Engine, hs: Hashes, plain: bool, h: Header, keys: Keys,
                      exts: seq<Extension>, file: Bytes, found: Bytes, sidecar: Option<Bytes>)
    returns (r: Result<(Manifest, bool), OpenError>)
    requires EC.EngineOk(e)
    ensures ManifestOutcome(lib, e, hs, plain, h, keys, exts, file, found, sidecar, r)
  {
    hide EC.EngineOk, EmbeddedRebuilt, SidecarRebuilt, DecodeManifest;
    var direct := DecodeManifest(lib, plain, keys, found);
    if direct.Some? {
      return Ok((direct.value, false));
    }
    var embedded := RebuildEmbedded(e, h, exts, file, found);
    if embedded.Err? {
      return Err(embedded.error);
    }
    if embedded.value.Some? && embedded.value.value != found {
      return RebuiltManifest(lib, plain, keys, found, embedded.value);
    }
    var other := RebuildFromSidecar(e, hs, sidecar, MANIFEST_SEGMENT, found);
    r := RebuiltManifest(lib, plain, keys, found, other);
  }

  // ---- the file -----------------------------------------------------------

  /** An opened vault, and whether its header and its manifest had to be rebuilt. */
  datatype OpenedFile = OpenedFile(vault: Opened, headerRebuilt: bool, manifestRebuilt: bool)

  ghost predicate SectionsOutcome(lib: Library, e: EC.Engine, hs: Hashes, plain: bool, h: Header, keys: Keys, rebuilt: bool,
                                  file: Bytes, sidecar: Option<Bytes>, r: Result<OpenedFile, OpenError>)
    requires ValidRanges(h, |file|)
  {
    if h.manifestLen > MAX_MANIFEST_SIZE || h.dirLen > MAX_EXTENSION_DIR_SIZE then r == Err(TooLarge)
    else
      var exts := lib.readDir(ReadSection(file, h.dirOffset, h.dirLen));
      if exts.None? || !ValidExtensions(exts.value, h.payloadLen) then r == Err(BadDirectory)
      else
        exists m :: ManifestOutcome(lib, e, hs, plain, h, keys, exts.value, file,
                                    ReadSection(file, h.manifestOffset, h.manifestLen), sidecar, m)
                    && r == Checked(plain, h, rebuilt, m, exts.value, ReadSection(file, h.dataOffset, h.dataLen))
  }

  ghost function Checked(plain: bool, h: Header, rebuilt: bool, m: Result<(Manifest, bool), OpenError>,
                         exts: seq<Extension>, data: Bytes): Result<OpenedFile, OpenError>
  {
    match m
    case Err(x) => Err(x)
    case Ok((manifest, again)) =>
      match CheckManifest(plain, Some(manifest))
      case Err(x) => Err(x)
      case Ok(good) => Ok(OpenedFile(Opened(h, good, DropMeta(exts), data), rebuilt, again))
  }

  ghost predicate OpenOutcome(lib: Library, e: EC.Engine, hs: Hashes, file: Bytes, sidecar: Option<Bytes>,
                              r: Result<OpenedFile, OpenError>)
  {
    if |file| < HEADER_SIZE then r == Err(TooShortFile)
    else
      exists head :: HeaderOutcome(lib, e, hs, file[..HEADER_SIZE], sidecar, head) &&
        match head
        case Err(x) => r == Err(x)
        case Ok((h, keys, rebuilt)) =>
          if !ValidRanges(h, |file|) then r == Err(BadRange)
          else SectionsOutcome(lib, e, hs, PlainLane(file[..HEADER_SIZE]), h, keys, rebuilt, file, sidecar, r)
  }

  method OpenFile(lib: Library, e: EC.Engine, hs: Hashes, file: Bytes, sidecar: Option<Bytes>)
    returns (r: Result<OpenedFile, OpenError>)
    requires EC.EngineOk(e)
    ensures OpenOutcome(lib, e, hs, file, sidecar, r)
  {
    hide EC.EngineOk, HeaderOutcome, ManifestOutcome, PlainLane, DropMeta, ValidExtensions, VaultTypes.Sound;
    if |file| < HEADER_SIZE {
      return Err(TooShortFile);
    }
    var plain := PlainLane(file[..HEADER_SIZE]);
    var head := OpenHeader(lib, e, hs, file[..HEADER_SIZE], sidecar);
    if head.Err? {
      return Err(head.error);
    }
    var (h, keys, rebuilt) := head.value;
    var inside := ValidateRanges(h, |file|);
    if !inside {
      return Err(BadRange);
    }
    if h.manifestLen > MAX_MANIFEST_SIZE {
      return Err(TooLarge);
    }
    var found := ReadSection(file, h.manifestOffset, h.manifestLen);
    if h.dirLen > MAX_EXTENSION_DIR_SIZE {
      return Err(TooLarge);
    }
    var exts := lib.readDir(ReadSection(file, h.dirOffset, h.dirLen));
    if exts.None? {
      return Err(BadDirectory);
    }
    var valid := ValidateExtensions(exts.value, h.payloadLen);
    if !valid {
      return Err(BadDirectory);
    }
    var manifest := OpenManifest(lib, e, hs, plain, h, keys, exts.value, file, found, sidecar);
    r := FinishOpening(plain, h, rebuilt, manifest, exts.value, ReadSection(file, h.dataOffset, h.dataLen));
    assert SectionsOutcome(lib, e, hs, plain, h, keys, rebuilt, file, sidecar, r);
  }

  /** The checks on the manifest, and the extensions without the parity that is made afresh. */
  method FinishOpening(plain: bool, h: Header, rebuilt: bool, m: Result<(Manifest, bool), OpenError>,
                       exts: seq<Extension>, data: Bytes) returns (r: Result<OpenedFile, OpenError>)
    ensures r == Checked(plain, h, rebuilt, m, exts, data)
  {
    hide DropMeta, VaultTypes.Sound;
    if m.Err? {
      return Err(m.error);
    }
    var (manifest, again) := m.value;
    if manifest.format != MANIFEST_FORMAT || !manifest.supported {
      return Err(BadManifest);
    }
    if plain != manifest.plaintext {
      return Err(LaneMismatch);
    }
    var paths := ManifestChecks.ValidateManifestPaths(manifest.entries);
    if paths.Err? {
      return Err(BadPaths);
    }
    var kept := KeepExtensions(exts);
    r := Ok(OpenedFile(Opened(h, manifest, kept, data), rebuilt, again));
  }
}
