/** What opening a damaged vault file gives back, and which damage it does not survive. */
module OpeningGuarantees {
  import opened Wrappers
  import opened ByteSeqs
  import opened ErasureCode
  import EcPayloads
  import opened Reconstruction
  import opened ParityRepair
  import opened EncodeRepair
  import opened AvecLengths
  import opened Sidecars
  import opened VaultRepair
  import opened VaultRepairGuarantees
  import opened Headers
  import opened Containers
  import opened VaultSidecars
  import opened Opening
  import opened Authenticity
  import VaultTypes
  import EC = ErrorCorrection

  // ---- the parts of an outcome --------------------------------------------

  /** The header an outcome goes by. */
  lemma HeadOf(lib: Library, e: EC.Engine, hs: Hashes, file: Bytes, sidecar: Option<Bytes>, r: Result<OpenedFile, OpenError>)
    returns (head: Result<(Header, Keys, bool), OpenError>)
    requires OpenOutcome(lib, e, hs, file, sidecar, r) && |file| >= HEADER_SIZE
    ensures HeaderOutcome(lib, e, hs, file[..HEADER_SIZE], sidecar, head)
    ensures match head
            case Err(x) => r == Err(x)
            case Ok((h, keys, rebuilt)) =>
              if !ValidRanges(h, |file|) then r == Err(BadRange)
              else SectionsOutcome(lib, e, hs, PlainLane(file[..HEADER_SIZE]), h, keys, rebuilt, file, sidecar, r)
  {
    hide HeaderOutcome, SectionsOutcome, PlainLane, ValidRanges;
    head :| HeaderOutcome(lib, e, hs, file[..HEADER_SIZE], sidecar, head) &&
      match head
      case Err(x) => r == Err(x)
      case Ok((h, keys, rebuilt)) =>
        if !ValidRanges(h, |file|) then r == Err(BadRange)
        else SectionsOutcome(lib, e, hs, PlainLane(file[..HEADER_SIZE]), h, keys, rebuilt, file, sidecar, r);
  }

  /** The manifest it goes by, once size limits and directory pass. */
  lemma ManifestOf(lib: Library, e: EC.Engine, hs: Hashes, plain: bool, h: Header, keys: Keys, rebuilt: bool, file: Bytes,
                   sidecar: Option<Bytes>, r: Result<OpenedFile, OpenError>, exts: seq<Extension>)
    returns (m: Result<(Manifest, bool), OpenError>)
    requires ValidRanges(h, |file|) && SectionsOutcome(lib, e, hs, plain, h, keys, rebuilt, file, sidecar, r)
    requires h.manifestLen <= MAX_MANIFEST_SIZE && h.dirLen <= MAX_EXTENSION_DIR_SIZE
    requires lib.readDir(ReadSection(file, h.dirOffset, h.dirLen)) == Some(exts) && ValidExtensions(exts, h.payloadLen)
    ensures ManifestOutcome(lib, e, hs, plain, h, keys, exts, file, ReadSection(file, h.manifestOffset, h.manifestLen), sidecar, m)
    ensures r == Checked(plain, h, rebuilt, m, exts, ReadSection(file, h.dataOffset, h.dataLen))
  {
    hide ManifestOutcome, ValidExtensions, Checked, ReadSection;
    m :| ManifestOutcome(lib, e, hs, plain, h, keys, exts, file, ReadSection(file, h.manifestOffset, h.manifestLen), sidecar, m)
         && r == Checked(plain, h, rebuilt, m, exts, ReadSection(file, h.dataOffset, h.dataLen));
  }

  /** A vault is opened with the header its outcome goes by. */
  lemma OpensWithHead(lib: Library, e: EC.Engine, hs: Hashes, plain: bool, h: Header, keys: Keys, rebuilt: bool, file: Bytes,
                      sidecar: Option<Bytes>, r: Result<OpenedFile, OpenError>)
    requires ValidRanges(h, |file|) && SectionsOutcome(lib, e, hs, plain, h, keys, rebuilt, file, sidecar, r)
    ensures r.Ok? ==> r.value.vault.header == h
  {
    hide ManifestOutcome, ValidExtensions, ReadSection, ValidRanges, CheckManifest, DropMeta;
  }

  /** A header that unlocks as found is the one opened with. */
  lemma HeaderAsFound(lib: Library, e: EC.Engine, hs: Hashes, found: Bytes, sidecar: Option<Bytes>, h: Header, keys: Keys,
                      head: Result<(Header, Keys, bool), OpenError>)
    requires HeaderOutcome(lib, e, hs, found, sidecar, head) && DecodeHeader(found) == Ok(h) && Unlock(lib, h) == Ok(keys)
    ensures head == Ok((h, keys, false))
  {
    hide DecodeHeader, SidecarRebuilt, MacInput;
  }

  // ---- undamaged files ----------------------------------------------------

  /** A file that opens as it is opens that way, with nothing rebuilt. */
  lemma UndamagedOpens(lib: Library, e: EC.Engine, hs: Hashes, file: Bytes, sidecar: Option<Bytes>, r: Result<OpenedFile, OpenError>)
    requires OpenContainer(lib, file).Ok? && OpenOutcome(lib, e, hs, file, sidecar, r)
    ensures r == Ok(OpenedFile(OpenContainer(lib, file).value, false, false))
  {
    hide DecodeHeader, HeaderOutcome, EmbeddedRebuilt, SidecarRebuilt, DropMeta, ValidExtensions, ReadSection, Unlock,
      OpenOutcome, SectionsOutcome;
    var found := file[..HEADER_SIZE];
    var h := DecodeHeader(found).value;
    var keys := Unlock(lib, h).value;
    var head := HeadOf(lib, e, hs, file, sidecar, r);
    HeaderAsFound(lib, e, hs, found, sidecar, h, keys, head);
    var exts := lib.readDir(ReadSection(file, h.dirOffset, h.dirLen)).value;
    var m := ManifestOf(lib, e, hs, PlainLane(found), h, keys, false, file, sidecar, r, exts);
  }

  // ---- damage that parity undoes ------------------------------------------

  /** Damage of a region that its parity undoes. */
  ghost predicate Undone(e: EC.Engine, parity: Bytes, found: Bytes, original: Bytes) {
    && |found| == |original| && parity != [] && Accepted(parity, |original|).Ok?
    && var pl := Accepted(parity, |original|).value;
       && AnyKDetermine(e.code, pl.geo.k, pl.geo.p) && Truthful(e, pl, found, original) && Mendable(e, pl, found, original)
  }

  lemma UndoneIsRebuilt(e: EC.Engine, parity: Bytes, found: Bytes, original: Bytes, out: Option<Bytes>)
    requires EC.EngineOk(e) && Undone(e, parity, found, original) && ParityRebuilt(e, parity, found, out)
    ensures out == Some(original)
  {
    hide EC.EngineOk, AnyKDetermine, Truthful, Mendable, WithinBudget, Accepted, Repaired, Recovered;
    var fixed, n :| RepairOutcome(e, parity, found, fixed, n) && out == if n.Ok? then Some(fixed) else None;
    AcceptedUsable(parity, |original|);
    RepairRestores(e, Accepted(parity, |original|).value, found, original, fixed);
  }

  /** The recovery file's parity for a region undoes its damage. */
  ghost predicate SidecarUndoes(e: EC.Engine, hs: Hashes, sidecar: Option<Bytes>, role: nat, found: Bytes, original: Bytes) {
    sidecar.Some? && ReadSidecar(hs, sidecar.value).Ok?
    && Undone(e, SidecarParity(ReadSidecar(hs, sidecar.value).value, role), found, original)
  }

  lemma SidecarRestores(e: EC.Engine, hs: Hashes, sidecar: Option<Bytes>, role: nat, found: Bytes, original: Bytes, out: Option<Bytes>)
    requires EC.EngineOk(e) && SidecarUndoes(e, hs, sidecar, role, found, original)
    requires SidecarRebuilt(e, hs, sidecar, role, found, out)
    ensures out == Some(original)
  {
    hide EC.EngineOk, ReadSidecar, ParityRebuilt;
    var parity := SidecarParity(ReadSidecar(hs, sidecar.value).value, role);
    assert parity != [] by { NotEmpty(e, parity, found, original); }
    UndoneIsRebuilt(e, parity, found, original, out);
  }

  lemma NotEmpty(e: EC.Engine, parity: Bytes, found: Bytes, original: Bytes)
    requires Undone(e, parity, found, original)
    ensures parity != []
  {
  }

  // ---- the header ---------------------------------------------------------

  /** When the header comes back: it is there as it was written; or the content is encrypted, and the header as
      found does not say otherwise and is not one that the password opens. */
  predicate HeaderBack(lib: Library, found: Bytes, header: Header)
    requires |found| == HEADER_SIZE
  {
    || found == HeaderImage(header)
    || (header.flags % 2 == 0 && !(WellFormed(found) && LaneBit(found)) && !OpensByPassword(lib, found))
  }

  /** Damage to a header that the recovery file undoes: the header is opened with exactly when it comes back in
      that sense. */
  lemma HeaderReturns(lib: Library, e: EC.Engine, hs: Hashes, found: Bytes, header: Header, keys: Keys, sidecar: Option<Bytes>,
                      head: Result<(Header, Keys, bool), OpenError>)
    requires EC.EngineOk(e) && header.Fits() && Unlock(lib, header) == Ok(keys) && |found| == HEADER_SIZE == |HeaderImage(header)|
    requires header.flags % 2 == 1 ==> !OpensByPassword(lib, HeaderImage(header))
    requires found == HeaderImage(header) || SidecarUndoes(e, hs, sidecar, HEADER_SEGMENT, found, HeaderImage(header))
    requires HeaderOutcome(lib, e, hs, found, sidecar, head)
    ensures head.Ok? && head.value.0 == header <==> HeaderBack(lib, found, header)
    ensures HeaderBack(lib, found, header) ==> head == Ok((header, keys, found != HeaderImage(header)))
    ensures HeaderBack(lib, found, header) ==> PlainLane(found) == (header.flags % 2 == 1)
  {
    hide DecodeHeader, SidecarRebuilt, SidecarUndoes, MacInput, HeaderImage, EC.EngineOk, Header.Fits, UnlockWithPassword,
      WellFormed, OpensByPassword;
    HeaderReadBack(header, []);
    assert HeaderImage(header) + [] == HeaderImage(header);
    SameLane(lib, header);
    assert found[..HEADER_SIZE] == found;
    LaneIs(found);
    UnlockIs(lib, found);
    UnlockOf(lib, header);
    if DecodeHeader(found).Ok? { HeaderCanonical(found); }
    if found == HeaderImage(header) {
      HeaderAsFound(lib, e, hs, found, sidecar, header, keys, head);
    } else if !PlainLane(found) && UnlockBytes(lib, found).Err? {
      var first := UnlockBytes(lib, found).error;
      var image :| SidecarRebuilt(e, hs, sidecar, HEADER_SEGMENT, found, image) && head == RebuiltHeader(lib, image, first);
      SidecarRestores(e, hs, sidecar, HEADER_SEGMENT, found, HeaderImage(header), image);
    }
  }

  lemma SameLane(lib: Library, header: Header)
    ensures header.flags % 2 == 0 ==> Unlock(lib, header) == UnlockWithPassword(lib, header)
  {
  }

  /** An encrypted header on whose bytes the MAC fails, and whose damage the recovery file undoes, is rebuilt, unless its
      lane bit is set. */
  lemma FailedMacIsRebuilt(lib: Library, e: EC.Engine, hs: Hashes, found: Bytes, header: Header, keys: Keys, sidecar: Option<Bytes>,
                           head: Result<(Header, Keys, bool), OpenError>)
    requires EC.EngineOk(e) && header.Fits() && Unlock(lib, header) == Ok(keys) && |found| == HEADER_SIZE == |HeaderImage(header)|
    requires header.flags % 2 == 0 && !LaneBit(found) && !PasswordMacHolds(lib, found)
    requires SidecarUndoes(e, hs, sidecar, HEADER_SEGMENT, found, HeaderImage(header))
    requires HeaderOutcome(lib, e, hs, found, sidecar, head)
    ensures head == Ok((header, keys, true))
  {
    hide SidecarUndoes, HeaderOutcome, HeaderImage, EC.EngineOk, Header.Fits, Unlock, PasswordMacHolds, WellFormed;
    HeaderReturns(lib, e, hs, found, header, keys, sidecar, head);
    if found == HeaderImage(header) {
      SameLane(lib, header);
      UnlockOf(lib, header);
    }
  }

  /** A header on the plaintext lane is never rebuilt: one that no longer unlocks is an error, whatever the
      recovery file holds. */
  lemma PlainHeaderStaysLost(lib: Library, e: EC.Engine, hs: Hashes, found: Bytes, header: Header, sidecar: Option<Bytes>,
                             head: Result<(Header, Keys, bool), OpenError>)
    requires EC.EngineOk(e) && header.Fits() && header.flags % 2 == 1 && |found| == HEADER_SIZE == |HeaderImage(header)|
    requires !OpensByPassword(lib, HeaderImage(header))
    requires SidecarUndoes(e, hs, sidecar, HEADER_SEGMENT, found, HeaderImage(header))
    requires if WellFormed(found) && LaneBit(found) then !OpensPublicly(lib, found) else !OpensByPassword(lib, found)
    requires HeaderOutcome(lib, e, hs, found, sidecar, head)
    ensures head.Err?
  {
    hide DecodeHeader, SidecarRebuilt, SidecarUndoes, Unlock, HeaderImage, EC.EngineOk, Header.Fits, UnlockWithPassword,
      WellFormed, OpensByPassword, OpensPublicly;
    LaneIs(found);
    UnlockIs(lib, found);
    UnlockIs(lib, HeaderImage(header));
    if PlainLane(found) {
      PublicIs(lib, found);
    } else {
      var first := UnlockBytes(lib, found).error;
      var image :| SidecarRebuilt(e, hs, sidecar, HEADER_SEGMENT, found, image) && head == RebuiltHeader(lib, image, first);
      SidecarRestores(e, hs, sidecar, HEADER_SEGMENT, found, HeaderImage(header), image);
    }
  }

  // ---- one bit that locks a vault -----------------------------------------

  /** The header of an encrypted vault with the lane bit set. */
  function Flipped(header: Header): Header
    requires header.flags % 2 == 0
  {
    header.(flags := header.flags + 1)
  }

  const FLAGS_AT: nat := 11

  lemma OneByteFlipped(header: Header)
    requires header.Fits() && header.flags % 2 == 0
    ensures Flipped(header).Fits() && |HeaderImage(Flipped(header))| == |HeaderImage(header)| == HEADER_SIZE
    ensures forall i :: 0 <= i < HEADER_SIZE && i != FLAGS_AT ==> HeaderImage(Flipped(header))[i] == HeaderImage(header)[i]
  {
    hide Le, Zeros;
    ImageParts(header);
    ImageParts(Flipped(header));
    var a, b := HeaderImage(header), HeaderImage(Flipped(header));
    var rest := header.salt + header.wrappedMaster + header.wrappedMac + Le(HEADER_SIZE, 4) + RangePart(header)
                + Zeros(MAC_OFFSET - RESERVED_AT) + header.mac;
    assert a == CONTAINER_MAGIC + [CONTAINER_VERSION, header.flags] + rest;
    assert b == CONTAINER_MAGIC + [CONTAINER_VERSION, header.flags + 1] + rest;
  }

  /** The recovery file exported for a vault undoes any damage to one byte of its header, when the checksums tell
      the damaged shard from the original. */
  lemma ExportUndoesOneByte(e: EC.Engine, hs: Hashes, pct: nat, container: Bytes, header: Header, blob: Bytes, data: Bytes,
                            found: Bytes, j: nat)
    requires EC.EngineOk(e) && HashesOk(hs) && header.Fits() && |container| < U64_LIMIT
    requires header.manifestLen == |blob| && header.dataLen == |data|
    requires !TooLongForReader(|blob|, pct) && !TooLongForReader(|data|, pct)
    requires var (k, p) := EC.GridFor(pct);
             && AnyKDetermine(e.code, k, p)
             && k > 0 && ToldApart(e, EC.GeometryFor(k, p, HEADER_SIZE), found, HeaderImage(header))
    requires |found| == HEADER_SIZE == |HeaderImage(header)|
    requires forall i :: 0 <= i < HEADER_SIZE && i != j ==> found[i] == HeaderImage(header)[i]
    ensures SidecarUndoes(e, hs, Some(SidecarBytes(hs, VaultSidecar(e, hs, pct, container, header, blob, data))),
                          HEADER_SEGMENT, found, HeaderImage(header))
  {
    hide EC.EngineOk, HeaderImage, ReadSidecar, SidecarBytes, EC.GridFor, EC.Protect, EC.Protection, Accepted, ToldApart,
      AnyKDetermine, Damaged, Header.Fits, TooLongForReader, Truthful, Mendable, WithinBudget, Usable, EC.GeometryFor;
    EC.GridBounds(pct);
    var (k, p) := EC.GridFor(pct);
    var image := HeaderImage(header);
    ExportReadsBack(e, hs, pct, container, header, blob, data);
    HeaderGeometry(pct);
    var geo := EC.GeometryFor(k, p, HEADER_SIZE);
    forall g: nat | g < geo.Groups()
      ensures Damaged(e, EC.Protection(e, geo, image), found, g) <= p
    {
      OneByteDamage(e, geo, image, found, j, g);
    }
    FreshBudget(e, k, p, image, found);
  }

  /** Damage to at most as many data shards a group as the grid of that overhead has parity shards, with checksums that
      tell a damaged shard from the original. */
  ghost predicate LightDamage(e: EC.Engine, pct: nat, found: Bytes, original: Bytes) {
    var (k, p) := EC.GridFor(pct);
    && |found| == |original| && k > 0 && AnyKDetermine(e.code, k, p)
    && var geo := EC.GeometryFor(k, p, |original|);
       && ToldApart(e, geo, found, original)
       && forall g: nat :: g < geo.Groups() ==> Damaged(e, EC.Protection(e, geo, original), found, g) <= p
  }

  /** Parity made for a region undoes such damage to it. */
  lemma FreshUndoes(e: EC.Engine, pct: nat, found: Bytes, original: Bytes)
    requires EC.EngineOk(e) && 0 < |original| < U64_LIMIT && LightDamage(e, pct, found, original)
    ensures Undone(e, RegionParity(e, pct, original), found, original)
  {
    hide EC.EngineOk, EC.GridFor, EC.Protect, EC.Protection, Accepted, ToldApart, AnyKDetermine, Damaged, Truthful, Mendable, Usable,
      EC.GeometryFor;
    EC.GridBounds(pct);
    AvecLenFits(|original|, pct);
    var (k, p) := EC.GridFor(pct);
    FreshBudget(e, k, p, original, found);
  }

  /** The recovery file exported for a vault undoes it in the header and in the manifest. */
  lemma ExportUndoes(e: EC.Engine, hs: Hashes, pct: nat, container: Bytes, header: Header, blob: Bytes, data: Bytes,
                     head: Bytes, found: Bytes)
    requires EC.EngineOk(e) && HashesOk(hs) && header.Fits() && |container| < U64_LIMIT
    requires header.manifestLen == |blob| && header.dataLen == |data|
    requires !TooLongForReader(|blob|, pct) && !TooLongForReader(|data|, pct)
    ensures var sidecar := Some(SidecarBytes(hs, VaultSidecar(e, hs, pct, container, header, blob, data)));
            && (LightDamage(e, pct, head, HeaderImage(header)) ==>
                  SidecarUndoes(e, hs, sidecar, HEADER_SEGMENT, head, HeaderImage(header)))
            && (blob != [] && LightDamage(e, pct, found, blob) ==>
                  SidecarUndoes(e, hs, sidecar, MANIFEST_SEGMENT, found, blob))
  {
    hide EC.EngineOk, HeaderImage, ReadSidecar, SidecarBytes, LightDamage, TooLongForReader, Undone, RegionParity;
    ExportReadsBack(e, hs, pct, container, header, blob, data);
    ImageParts(header);
    if LightDamage(e, pct, head, HeaderImage(header)) { FreshUndoes(e, pct, head, HeaderImage(header)); }
    if blob != [] && LightDamage(e, pct, found, blob) { FreshUndoes(e, pct, found, blob); }
  }

  lemma HeaderGeometry(pct: nat)
    ensures var (k, p) := EC.GridFor(pct);
            && k > 0 && EC.GeometryFor(k, p, HEADER_SIZE).s > 0
            && EC.GeometryFor(k, p, HEADER_SIZE).PayloadLen() < U64_LIMIT
  {
    hide EC.GridFor;
    EC.GridBounds(pct);
    AvecLenFits(HEADER_SIZE, pct);
  }

  /** One flipped bit in the header of an encrypted vault, which the exported recovery file undoes, and the vault
      cannot be opened: the header as found says the content is not encrypted, and that file is never read. */
  lemma OneBitLocksOut(lib: Library, e: EC.Engine, hs: Hashes, pct: nat, container: Bytes, header: Header, blob: Bytes, data: Bytes,
                       file: Bytes, r: Result<OpenedFile, OpenError>)
    requires EC.EngineOk(e) && HashesOk(hs) && header.Fits() && header.flags % 2 == 0 && |container| < U64_LIMIT
    requires header.manifestLen == |blob| && header.dataLen == |data|
    requires !TooLongForReader(|blob|, pct) && !TooLongForReader(|data|, pct)
    requires var (k, p) := EC.GridFor(pct);
             && AnyKDetermine(e.code, k, p)
             && k > 0 && ToldApart(e, EC.GeometryFor(k, p, HEADER_SIZE), HeaderImage(Flipped(header)), HeaderImage(header))
    requires |file| >= HEADER_SIZE && file[..HEADER_SIZE] == HeaderImage(Flipped(header))
    requires lib.mac(lib.publicMacKey, MacInput(Flipped(header))) != header.mac
    requires OpenOutcome(lib, e, hs, file, Some(SidecarBytes(hs, VaultSidecar(e, hs, pct, container, header, blob, data))), r)
    ensures SidecarUndoes(e, hs, Some(SidecarBytes(hs, VaultSidecar(e, hs, pct, container, header, blob, data))),
                          HEADER_SEGMENT, file[..HEADER_SIZE], HeaderImage(header))
    ensures r == Err(MacMismatch)
  {
    hide EC.EngineOk, HeaderImage, SidecarBytes, VaultSidecar, SidecarUndoes, EC.GridFor, ToldApart, AnyKDetermine, OpenOutcome,
      HeaderOutcome, SectionsOutcome, TooLongForReader, MacInput, EC.GeometryFor, Header.Fits;
    var sidecar := Some(SidecarBytes(hs, VaultSidecar(e, hs, pct, container, header, blob, data)));
    OneByteFlipped(header);
    ExportUndoesOneByte(e, hs, pct, container, header, blob, data, HeaderImage(Flipped(header)), FLAGS_AT);
    var head := HeadOf(lib, e, hs, file, sidecar, r);
    FlippedHead(lib, e, hs, header, sidecar, head);
  }

  lemma FlippedHead(lib: Library, e: EC.Engine, hs: Hashes, header: Header, sidecar: Option<Bytes>,
                    head: Result<(Header, Keys, bool), OpenError>)
    requires header.flags % 2 == 0 && Flipped(header).Fits()
    requires lib.mac(lib.publicMacKey, MacInput(Flipped(header))) != header.mac
    requires HeaderOutcome(lib, e, hs, HeaderImage(Flipped(header)), sidecar, head)
    ensures head == Err(MacMismatch)
  {
    hide DecodeHeader, HeaderImage, MacInput, Header.Fits, SidecarRebuilt;
    HeaderReadBack(Flipped(header), []);
    assert HeaderImage(Flipped(header)) + [] == HeaderImage(Flipped(header));
  }

  // ---- the manifest -------------------------------------------------------

  /** The embedded parity is absent or empty, or leaves the manifest as found. */
  ghost predicate EmbeddedLeaves(e: EC.Engine, h: Header, exts: seq<Extension>, file: Bytes, found: Bytes) {
    forall out :: EmbeddedRebuilt(e, h, exts, file, found, out) ==> out.Ok? && (out.value.None? || out.value.value == found)
  }

  /** The embedded parity makes something else of it that decodes to `manifest`. */
  ghost predicate EmbeddedGives(lib: Library, e: EC.Engine, plain: bool, h: Header, keys: Keys, exts: seq<Extension>, file: Bytes,
                                found: Bytes, manifest: Manifest)
  {
    forall out :: EmbeddedRebuilt(e, h, exts, file, found, out) ==>
      out.Ok? && out.value.Some? && out.value.value != found && DecodeManifest(lib, plain, keys, out.value.value) == Some(manifest)
  }

  lemma RebuiltOnce(e: EC.Engine, parity: Bytes, found: Bytes, a: Option<Bytes>, b: Option<Bytes>)
    requires ParityRebuilt(e, parity, found, a) && ParityRebuilt(e, parity, found, b)
    ensures a == b
  {
    hide RepairOutcome;
    var d1, r1 :| RepairOutcome(e, parity, found, d1, r1) && a == if r1.Ok? then Some(d1) else None;
    var d2, r2 :| RepairOutcome(e, parity, found, d2, r2) && b == if r2.Ok? then Some(d2) else None;
    RepairUnique(e, parity, found, d1, d2, r1, r2);
  }

  lemma EmbeddedOnce(e: EC.Engine, h: Header, exts: seq<Extension>, file: Bytes, found: Bytes,
                     a: Result<Option<Bytes>, OpenError>, b: Result<Option<Bytes>, OpenError>)
    requires EmbeddedRebuilt(e, h, exts, file, found, a) && EmbeddedRebuilt(e, h, exts, file, found, b)
    ensures a == b
  {
    hide MetaEntry, ParityRebuilt;
    var meta := MetaEntry(exts);
    if meta.Some? && meta.value.length > 0 {
      var at := h.payloadOffset + meta.value.offset;
      if at + meta.value.length <= |file| && meta.value.length <= 2 * MAX_MANIFEST_SIZE {
        var parity := file[at..at + meta.value.length];
        var x :| ParityRebuilt(e, parity, found, x) && a == if x.None? then Err(UnusableParity) else Ok(x);
        var y :| ParityRebuilt(e, parity, found, y) && b == if y.None? then Err(UnusableParity) else Ok(y);
        RebuiltOnce(e, parity, found, x, y);
      }
    }
  }

  /** What the embedded parity made of a manifest that does not decode, and what that led to. */
  lemma EmbeddedOf(lib: Library, e: EC.Engine, hs: Hashes, plain: bool, h: Header, keys: Keys, exts: seq<Extension>, file: Bytes,
                   found: Bytes, sidecar: Option<Bytes>, m: Result<(Manifest, bool), OpenError>)
    returns (embedded: Result<Option<Bytes>, OpenError>)
    requires ManifestOutcome(lib, e, hs, plain, h, keys, exts, file, found, sidecar, m)
    requires DecodeManifest(lib, plain, keys, found).None?
    ensures EmbeddedRebuilt(e, h, exts, file, found, embedded)
    ensures match embedded
            case Err(x) => m == Err(x)
            case Ok(image) =>
              if image.Some? && image.value != found then m == RebuiltManifest(lib, plain, keys, found, image)
              else exists other :: SidecarRebuilt(e, hs, sidecar, MANIFEST_SEGMENT, found, other)
                                   && m == RebuiltManifest(lib, plain, keys, found, other)
  {
    hide EmbeddedRebuilt, SidecarRebuilt, DecodeManifest, RebuiltManifest;
    embedded :| EmbeddedRebuilt(e, h, exts, file, found, embedded) &&
      match embedded
      case Err(x) => m == Err(x)
      case Ok(image) =>
        if image.Some? && image.value != found then m == RebuiltManifest(lib, plain, keys, found, image)
        else exists other :: SidecarRebuilt(e, hs, sidecar, MANIFEST_SEGMENT, found, other)
                             && m == RebuiltManifest(lib, plain, keys, found, other);
  }

  /** The recovery file is read for a manifest that does not decode exactly when the embedded parity is absent or empty
      or leaves the manifest as found: then it alone decides, and otherwise the outcome is the same with any
      other recovery file. */
  lemma RecoveryFileUsed(lib: Library, e: EC.Engine, hs: Hashes, plain: bool, h: Header, keys: Keys, exts: seq<Extension>, file: Bytes,
                         found: Bytes, sidecar: Option<Bytes>, other: Option<Bytes>, m: Result<(Manifest, bool), OpenError>)
    requires ManifestOutcome(lib, e, hs, plain, h, keys, exts, file, found, sidecar, m)
    requires DecodeManifest(lib, plain, keys, found).None?
    ensures EmbeddedLeaves(e, h, exts, file, found) ==>
              exists image :: SidecarRebuilt(e, hs, sidecar, MANIFEST_SEGMENT, found, image)
                              && m == RebuiltManifest(lib, plain, keys, found, image)
    ensures !EmbeddedLeaves(e, h, exts, file, found) ==>
              ManifestOutcome(lib, e, hs, plain, h, keys, exts, file, found, other, m)
  {
    hide EmbeddedRebuilt, SidecarRebuilt, DecodeManifest, RebuiltManifest;
    var embedded := EmbeddedOf(lib, e, hs, plain, h, keys, exts, file, found, sidecar, m);
    if !EmbeddedLeaves(e, h, exts, file, found) {
      var out :| EmbeddedRebuilt(e, h, exts, file, found, out) && !(out.Ok? && (out.value.None? || out.value.value == found));
      EmbeddedOnce(e, h, exts, file, found, embedded, out);
    }
  }

  /** A manifest that does not decode, and whose damage the recovery file undoes or the embedded parity does, comes back
      exactly when the embedded parity gives it or is absent, empty or leaves the manifest as found. */
  lemma ManifestReturns(lib: Library, e: EC.Engine, hs: Hashes, plain: bool, h: Header, keys: Keys, exts: seq<Extension>, file: Bytes,
                        found: Bytes, blob: Bytes, manifest: Manifest, sidecar: Option<Bytes>, m: Result<(Manifest, bool), OpenError>)
    requires EC.EngineOk(e) && DecodeManifest(lib, plain, keys, blob) == Some(manifest)
    requires DecodeManifest(lib, plain, keys, found).None?
    requires SidecarUndoes(e, hs, sidecar, MANIFEST_SEGMENT, found, blob)
             || EmbeddedGives(lib, e, plain, h, keys, exts, file, found, manifest)
    requires ManifestOutcome(lib, e, hs, plain, h, keys, exts, file, found, sidecar, m)
    ensures var back := EmbeddedGives(lib, e, plain, h, keys, exts, file, found, manifest)
                        || EmbeddedLeaves(e, h, exts, file, found);
            && (m.Ok? && m.value.0 == manifest <==> back)
            && (back ==> m == Ok((manifest, true)))
  {
    hide EC.EngineOk, EmbeddedRebuilt, SidecarRebuilt, SidecarUndoes, DecodeManifest, ManifestOutcome;
    var embedded := EmbeddedOf(lib, e, hs, plain, h, keys, exts, file, found, sidecar, m);
    forall out | EmbeddedRebuilt(e, h, exts, file, found, out)
      ensures out == embedded
    {
      EmbeddedOnce(e, h, exts, file, found, out, embedded);
    }
    if embedded.Ok? && (embedded.value.None? || embedded.value.value == found) {
      var other :| SidecarRebuilt(e, hs, sidecar, MANIFEST_SEGMENT, found, other)
                   && m == RebuiltManifest(lib, plain, keys, found, other);
      SidecarRestores(e, hs, sidecar, MANIFEST_SEGMENT, found, blob, other);
    }
  }

  /** No parity entry, or an empty one, leaves the manifest as found. */
  lemma AbsentLeaves(e: EC.Engine, h: Header, exts: seq<Extension>, file: Bytes, found: Bytes)
    requires MetaEntry(exts).None? || MetaEntry(exts).value.length == 0
    ensures EmbeddedLeaves(e, h, exts, file, found)
  {
    hide MetaEntry;
  }

  /** Embedded parity that undoes the damage, itself damaged or not, gives the manifest. */
  lemma EmbeddedUndoes(lib: Library, e: EC.Engine, plain: bool, h: Header, keys: Keys, exts: seq<Extension>, file: Bytes,
                       found: Bytes, blob: Bytes, manifest: Manifest)
    requires EC.EngineOk(e) && DecodeManifest(lib, plain, keys, blob) == Some(manifest)
    requires DecodeManifest(lib, plain, keys, found).None? && MetaEntry(exts).Some? && MetaEntry(exts).value.length > 0
    requires var meta := MetaEntry(exts).value;
             var at := h.payloadOffset + meta.offset;
             && at + meta.length <= |file| && meta.length <= 2 * MAX_MANIFEST_SIZE
             && Undone(e, file[at..at + meta.length], found, blob)
    ensures EmbeddedGives(lib, e, plain, h, keys, exts, file, found, manifest)
  {
    hide EC.EngineOk, EmbeddedRebuilt, DecodeManifest, MetaEntry, Undone;
    forall out | EmbeddedRebuilt(e, h, exts, file, found, out)
      ensures out == Ok(Some(blob))
    {
      EmbeddedRestores(e, h, exts, file, found, blob, out);
    }
  }

  lemma EmbeddedRestores(e: EC.Engine, h: Header, exts: seq<Extension>, file: Bytes, found: Bytes, blob: Bytes,
                         embedded: Result<Option<Bytes>, OpenError>)
    requires EC.EngineOk(e) && EmbeddedRebuilt(e, h, exts, file, found, embedded)
    requires var meta := MetaEntry(exts);
             meta.Some? && meta.value.length > 0 ==>
               var at := h.payloadOffset + meta.value.offset;
               && at + meta.value.length <= |file| && meta.value.length <= 2 * MAX_MANIFEST_SIZE
               && Undone(e, file[at..at + meta.value.length], found, blob)
    ensures var meta := MetaEntry(exts);
            embedded == if meta.None? || meta.value.length == 0 then Ok(None) else Ok(Some(blob))
  {
    hide EC.EngineOk, MetaEntry, ParityRebuilt, Undone;
    var meta := MetaEntry(exts);
    if meta.Some? && meta.value.length > 0 {
      var at := h.payloadOffset + meta.value.offset;
      var image :| ParityRebuilt(e, file[at..at + meta.value.length], found, image)
                   && embedded == if image.None? then Err(UnusableParity) else Ok(image);
      UndoneIsRebuilt(e, file[at..at + meta.value.length], found, blob, image);
    }
  }

  // ---- the vault ----------------------------------------------------------

  /** A file that has the sections of a sealed one, except perhaps its header, its manifest and its extension payloads. */
  ghost predicate SealedBut(header: Header, bytes: Bytes, file: Bytes) {
    && |file| == |bytes| && HEADER_SIZE <= header.manifestOffset <= header.dirOffset <= header.payloadOffset <= |bytes|
    && file[HEADER_SIZE..header.manifestOffset] == bytes[HEADER_SIZE..header.manifestOffset]
    && file[header.dirOffset..header.payloadOffset] == bytes[header.dirOffset..header.payloadOffset]
  }

  /** A sealed vault whose header, manifest and extension payloads were damaged. The header is whole or the recovery file
      undoes its damage; the manifest is whole, or the embedded parity or the recovery file undoes its damage. It
      opens as what was sealed exactly when the header comes back and the manifest does; and then it is told
      which of the two was rebuilt. */
  lemma DamagedVaultOpens(lib: Library, e: EC.Engine, hs: Hashes, h: Header, keys: Keys, nonce: VaultTypes.Nonce, manifest: Manifest,
                          exts: seq<Extension>, payloads: Bytes, data: Bytes, file: Bytes, sidecar: Option<Bytes>,
                          r: Result<OpenedFile, OpenError>)
    requires EC.EngineOk(e) && LibraryOk(lib) && Consistent(lib, h, keys, manifest)
    requires var c := Container(lib, e, h, keys, nonce, manifest, exts, payloads, data);
             && c.header.Fits() && c.header.manifestLen <= MAX_MANIFEST_SIZE && c.header.dirLen <= MAX_EXTENSION_DIR_SIZE
             && SealedBut(c.header, c.bytes, file)
             && |HeaderImage(c.header)| == HEADER_SIZE && (manifest.plaintext ==> !OpensByPassword(lib, HeaderImage(c.header)))
             && (file[..HEADER_SIZE] == HeaderImage(c.header)
                 || SidecarUndoes(e, hs, sidecar, HEADER_SEGMENT, file[..HEADER_SIZE], HeaderImage(c.header)))
    requires var blob := ManifestBlob(lib, keys, nonce, manifest);
             var (all, pays) := Injected(e, manifest.parityPct, exts, payloads, blob);
             var c := Container(lib, e, h, keys, nonce, manifest, exts, payloads, data);
             && ValidExtensions(all, |pays|)
             && ManifestMayReturn(lib, e, hs, c.header, keys, all, file, blob, manifest, sidecar)
    requires OpenOutcome(lib, e, hs, file, sidecar, r)
    ensures var c := Container(lib, e, h, keys, nonce, manifest, exts, payloads, data);
            var blob := ManifestBlob(lib, keys, nonce, manifest);
            var (all, pays) := Injected(e, manifest.parityPct, exts, payloads, blob);
            var head, found := file[..HEADER_SIZE], FoundManifest(c.header, file);
            var back := HeaderBack(lib, head, c.header) && ManifestBack(lib, e, c.header, keys, all, file, manifest);
            && (r.Ok? && r.value.vault == Opened(c.header, manifest, DropMeta(exts), data) <==> back)
            && (back ==> r.value.headerRebuilt == (head != HeaderImage(c.header))
                         && r.value.manifestRebuilt == DecodeManifest(lib, manifest.plaintext, keys, found).None?)
  {
    hide HeaderImage, Injected, MacInput, Unlock, DecodeHeader, ValidExtensions, Zeros, HeaderBack, OpenOutcome, HeaderOutcome,
      ManifestOutcome, EC.EngineOk, PlainLane, SectionsOutcome, SidecarUndoes, OpensByPassword, ManifestBack, ManifestMayReturn, Checked, CheckManifest, DropMeta,
      LibraryOk, ManifestBlob, DecodeManifest;
    var c := Container(lib, e, h, keys, nonce, manifest, exts, payloads, data);
    var blob := ManifestBlob(lib, keys, nonce, manifest);
    var (all, pays) := Injected(e, manifest.parityPct, exts, payloads, blob);
    SectionsTile(lib, e, h, keys, nonce, manifest, exts, payloads, data);
    StampedUnlocks(lib, h, Laid(h, data, blob, lib.showDir(all), pays), keys, manifest);
    DropMetaInjected(e, manifest.parityPct, exts, payloads, blob);
    SectionsSame(c.header, file, c.bytes);
    LibraryReads(lib, keys, nonce, manifest, all);
    var head := HeadOf(lib, e, hs, file, sidecar, r);
    HeaderReturns(lib, e, hs, file[..HEADER_SIZE], c.header, keys, sidecar, head);
    if head.Ok? && ValidRanges(head.value.0, |file|) {
      OpensWithHead(lib, e, hs, PlainLane(file[..HEADER_SIZE]), head.value.0, head.value.1, head.value.2, file, sidecar, r);
    }
    if HeaderBack(lib, file[..HEADER_SIZE], c.header) {
      var m := ManifestOf(lib, e, hs, manifest.plaintext, c.header, keys, head.value.2, file, sidecar, r, all);
      ManifestThenVault(lib, e, hs, c.header, keys, all, file, blob, manifest, sidecar, m);
      GoodManifest(lib, h, keys, manifest);
      CheckedIs(c.header, head.value.2, m, all, data, manifest);
    }
  }

  lemma LibraryReads(lib: Library, keys: Keys, nonce: VaultTypes.Nonce, manifest: Manifest, dir: seq<Extension>)
    requires LibraryOk(lib)
    ensures lib.readDir(lib.showDir(dir)) == Some(dir)
    ensures DecodeManifest(lib, manifest.plaintext, keys, ManifestBlob(lib, keys, nonce, manifest)) == Some(manifest)
  {
  }

  lemma GoodManifest(lib: Library, h: Header, keys: Keys, manifest: Manifest)
    requires Consistent(lib, h, keys, manifest)
    ensures CheckManifest(manifest.plaintext, Some(manifest)) == Ok(manifest)
  {
  }

  lemma CheckedIs(h: Header, rebuilt: bool, m: Result<(Manifest, bool), OpenError>, exts: seq<Extension>, data: Bytes,
                  manifest: Manifest)
    requires CheckManifest(manifest.plaintext, Some(manifest)) == Ok(manifest)
    ensures var r := Checked(manifest.plaintext, h, rebuilt, m, exts, data);
            && (r.Ok? && r.value.vault == Opened(h, manifest, DropMeta(exts), data) <==> m.Ok? && m.value.0 == manifest)
            && (r.Ok? ==> m.Ok? && r.value.headerRebuilt == rebuilt && r.value.manifestRebuilt == m.value.1)
  {
    hide DropMeta;
  }

  /** The manifest section of a file. */
  function FoundManifest(h: Header, file: Bytes): Bytes
    requires h.manifestOffset <= h.dirOffset <= |file|
  {
    file[h.manifestOffset..h.dirOffset]
  }

  ghost predicate ManifestMayReturn(lib: Library, e: EC.Engine, hs: Hashes, h: Header, keys: Keys, exts: seq<Extension>, file: Bytes,
                                    blob: Bytes, manifest: Manifest, sidecar: Option<Bytes>)
    requires h.manifestOffset <= h.dirOffset <= |file|
  {
    var found := FoundManifest(h, file);
    || found == blob
    || SidecarUndoes(e, hs, sidecar, MANIFEST_SEGMENT, found, blob)
    || EmbeddedGives(lib, e, manifest.plaintext, h, keys, exts, file, found, manifest)
  }

  /** When the manifest comes back: it decodes, to itself; or it does not decode, and the embedded parity gives it, or is
      absent or empty or leaves it as found. */
  ghost predicate ManifestBack(lib: Library, e: EC.Engine, h: Header, keys: Keys, exts: seq<Extension>, file: Bytes, manifest: Manifest)
    requires h.manifestOffset <= h.dirOffset <= |file|
  {
    var found := FoundManifest(h, file);
    match DecodeManifest(lib, manifest.plaintext, keys, found)
    case Some(m) => m == manifest
    case None =>
      || EmbeddedGives(lib, e, manifest.plaintext, h, keys, exts, file, found, manifest)
      || EmbeddedLeaves(e, h, exts, file, found)
  }

  lemma ManifestThenVault(lib: Library, e: EC.Engine, hs: Hashes, h: Header, keys: Keys, exts: seq<Extension>, file: Bytes,
                          blob: Bytes, manifest: Manifest, sidecar: Option<Bytes>, m: Result<(Manifest, bool), OpenError>)
    requires h.manifestOffset <= h.dirOffset <= |file|
    requires EC.EngineOk(e) && DecodeManifest(lib, manifest.plaintext, keys, blob) == Some(manifest)
    requires ManifestMayReturn(lib, e, hs, h, keys, exts, file, blob, manifest, sidecar)
    requires ManifestOutcome(lib, e, hs, manifest.plaintext, h, keys, exts, file, FoundManifest(h, file), sidecar, m)
    ensures m.Ok? && m.value.0 == manifest <==> ManifestBack(lib, e, h, keys, exts, file, manifest)
    ensures ManifestBack(lib, e, h, keys, exts, file, manifest) ==>
              m == Ok((manifest, DecodeManifest(lib, manifest.plaintext, keys, FoundManifest(h, file)).None?))
  {
    hide EC.EngineOk, DecodeManifest, EmbeddedRebuilt, SidecarUndoes, EmbeddedGives, EmbeddedLeaves;
    var found := FoundManifest(h, file);
    if DecodeManifest(lib, manifest.plaintext, keys, found).None? {
      ManifestReturns(lib, e, hs, manifest.plaintext, h, keys, exts, file, found, blob, manifest, sidecar, m);
    }
  }

  lemma SectionsSame(h: Header, file: Bytes, bytes: Bytes)
    requires ValidRanges(h, |bytes|) && SealedBut(h, bytes, file)
    requires h.manifestOffset == h.dataOffset + h.dataLen && h.dirOffset == h.manifestOffset + h.manifestLen
    requires h.payloadOffset == h.dirOffset + h.dirLen
    ensures ReadSection(file, h.dataOffset, h.dataLen) == ReadSection(bytes, h.dataOffset, h.dataLen)
    ensures ReadSection(file, h.dirOffset, h.dirLen) == ReadSection(bytes, h.dirOffset, h.dirLen)
    ensures ReadSection(file, h.manifestOffset, h.manifestLen) == FoundManifest(h, file)
  {
  }

  // ---- embedded parity that stops the recovery file -----------------------

  /** A payload whose first byte is not the magic number's is refused for any stream. */
  lemma BadMagicRefused(payload: Bytes, total: nat)
    requires payload != [] && payload[0] != EcPayloads.PAYLOAD_MAGIC[0]
    ensures Accepted(payload, total).Err?
  {
    if |payload| >= 4 {
      assert payload[0..4][0] == payload[0];
    }
  }

  /** With parity embedded in the vault, one damaged byte at its start beside a manifest that does not decode, and the vault
      cannot be opened, whatever the recovery file could do: the refused parity ends the opening first. */
  lemma RefusedParityStops(lib: Library, e: EC.Engine, hs: Hashes, h: Header, keys: Keys, nonce: VaultTypes.Nonce, manifest: Manifest,
                           exts: seq<Extension>, payloads: Bytes, data: Bytes, file: Bytes, sidecar: Option<Bytes>,
                           r: Result<OpenedFile, OpenError>)
    requires EC.EngineOk(e) && LibraryOk(lib) && Consistent(lib, h, keys, manifest) && HasDataParity(DropMeta(exts))
    requires var c := Container(lib, e, h, keys, nonce, manifest, exts, payloads, data);
             && c.header.Fits() && c.header.manifestLen <= MAX_MANIFEST_SIZE && c.header.dirLen <= MAX_EXTENSION_DIR_SIZE
             && SealedBut(c.header, c.bytes, file) && file[..HEADER_SIZE] == HeaderImage(c.header)
             && DecodeManifest(lib, manifest.plaintext, keys, FoundManifest(c.header, file)).None?
             && c.header.payloadOffset + |payloads| < |file|
             && file[c.header.payloadOffset + |payloads|] != EcPayloads.PAYLOAD_MAGIC[0]
    requires var blob := ManifestBlob(lib, keys, nonce, manifest);
             var (all, pays) := Injected(e, manifest.parityPct, exts, payloads, blob);
             ValidExtensions(all, |pays|) && 0 < |MetaParity(e, manifest.parityPct, blob)| <= 2 * MAX_MANIFEST_SIZE
    requires OpenOutcome(lib, e, hs, file, sidecar, r)
    ensures r == Err(UnusableParity)
  {
    hide HeaderImage, Injected, MacInput, Unlock, DecodeHeader, ValidExtensions, Zeros, OpenOutcome, HeaderOutcome,
      ManifestOutcome, EC.EngineOk, PlainLane, SectionsOutcome, MetaParity, HasDataParity, EmbeddedRebuilt, SidecarRebuilt;
    var c := Container(lib, e, h, keys, nonce, manifest, exts, payloads, data);
    var blob := ManifestBlob(lib, keys, nonce, manifest);
    var (all, pays) := Injected(e, manifest.parityPct, exts, payloads, blob);
    SectionsTile(lib, e, h, keys, nonce, manifest, exts, payloads, data);
    StampedUnlocks(lib, h, Laid(h, data, blob, lib.showDir(all), pays), keys, manifest);
    SectionsSame(c.header, file, c.bytes);
    HeaderReadBack(c.header, []);
    assert HeaderImage(c.header) + [] == HeaderImage(c.header);
    var head := HeadOf(lib, e, hs, file, sidecar, r);
    HeaderAsFound(lib, e, hs, file[..HEADER_SIZE], sidecar, c.header, keys, head);
    LaneOf(c.header, file[..HEADER_SIZE]);
    var m := ManifestOf(lib, e, hs, manifest.plaintext, c.header, keys, false, file, sidecar, r, all);
    var found := FoundManifest(c.header, file);
    var embedded := EmbeddedOf(lib, e, hs, manifest.plaintext, c.header, keys, all, file, found, sidecar, m);
    EmbeddedIsFound(e, manifest.parityPct, exts, payloads, blob);
    EmbeddedRefused(e, c.header, all, file, found, embedded);
  }

  lemma LaneOf(header: Header, found: Bytes)
    requires DecodeHeader(found) == Ok(header)
    ensures PlainLane(found) == (header.flags % 2 == 1)
  {
  }

  lemma EmbeddedRefused(e: EC.Engine, h: Header, exts: seq<Extension>, file: Bytes, found: Bytes, out: Result<Option<Bytes>, OpenError>)
    requires MetaEntry(exts).Some? && 0 < MetaEntry(exts).value.length <= 2 * MAX_MANIFEST_SIZE
    requires h.payloadOffset + MetaEntry(exts).value.offset + MetaEntry(exts).value.length <= |file|
    requires file[h.payloadOffset + MetaEntry(exts).value.offset] != EcPayloads.PAYLOAD_MAGIC[0]
    requires EmbeddedRebuilt(e, h, exts, file, found, out)
    ensures out == Err(UnusableParity)
  {
    hide MetaEntry, Accepted;
    var meta := MetaEntry(exts).value;
    var at := h.payloadOffset + meta.offset;
    var parity := file[at..at + meta.length];
    assert parity[0] == file[at];
    BadMagicRefused(parity, |found|);
  }

  // ---- the parity a save embeds -------------------------------------------

  /** With data parity in the vault, the manifest's parity is found where the save put it; without it,
      none is found. */
  lemma EmbeddedIsFound(e: EC.Engine, pct: nat, exts: seq<Extension>, payloads: Bytes, blob: Bytes)
    ensures var (all, pays) := Injected(e, pct, exts, payloads, blob);
            var meta := MetaParity(e, pct, blob);
            if HasDataParity(DropMeta(exts)) then
              && MetaEntry(all) == Some(MetaExtension(|payloads|, |meta|))
              && |payloads| + |meta| <= |pays| && pays[|payloads|..|payloads| + |meta|] == meta
            else MetaEntry(all) == None
  {
    hide MetaParity, HasDataParity;
    var meta := MetaParity(e, pct, blob);
    NoMetaKept(exts);
    MetaLast(DropMeta(exts), MetaExtension(|payloads|, |meta|));
    NoMeta(DropMeta(exts));
    PaysTail(payloads, meta);
  }

  /** In a sealed file whose payload region is whole, it is found there. */
  lemma SealedMeta(lib: Library, e: EC.Engine, h: Header, keys: Keys, nonce: VaultTypes.Nonce, manifest: Manifest,
                   exts: seq<Extension>, payloads: Bytes, data: Bytes, file: Bytes)
    requires HasDataParity(DropMeta(exts))
    requires var c := Container(lib, e, h, keys, nonce, manifest, exts, payloads, data);
             && c.header.Fits() && SealedBut(c.header, c.bytes, file)
             && file[c.header.payloadOffset..] == c.bytes[c.header.payloadOffset..]
    ensures var c := Container(lib, e, h, keys, nonce, manifest, exts, payloads, data);
            var blob := ManifestBlob(lib, keys, nonce, manifest);
            var meta := RegionParity(e, manifest.parityPct, blob);
            var at := c.header.payloadOffset + |payloads|;
            && MetaEntry(Injected(e, manifest.parityPct, exts, payloads, blob).0) == Some(MetaExtension(|payloads|, |meta|))
            && at + |meta| <= |file| && file[at..at + |meta|] == meta
  {
    hide HeaderImage, Injected, MacInput, Zeros, MetaParity, RegionParity, HasDataParity, ManifestBlob, MetaEntry, DropMeta;
    var c := Container(lib, e, h, keys, nonce, manifest, exts, payloads, data);
    var blob := ManifestBlob(lib, keys, nonce, manifest);
    var pays := Injected(e, manifest.parityPct, exts, payloads, blob).1;
    SectionsTile(lib, e, h, keys, nonce, manifest, exts, payloads, data);
    EmbeddedIsFound(e, manifest.parityPct, exts, payloads, blob);
    MetaIsRegion(e, manifest.parityPct, blob);
    InPayloads(c.bytes, file, c.header.payloadOffset, pays, |payloads|, |MetaParity(e, manifest.parityPct, blob)|);
  }

  /** And while it is whole, it undoes such damage to the manifest. */
  lemma SealedManifestHeals(lib: Library, e: EC.Engine, h: Header, keys: Keys, nonce: VaultTypes.Nonce, manifest: Manifest,
                            exts: seq<Extension>, payloads: Bytes, data: Bytes, file: Bytes)
    requires EC.EngineOk(e) && LibraryOk(lib) && HasDataParity(DropMeta(exts))
    requires var c := Container(lib, e, h, keys, nonce, manifest, exts, payloads, data);
             && c.header.Fits() && SealedBut(c.header, c.bytes, file)
             && file[c.header.payloadOffset..] == c.bytes[c.header.payloadOffset..]
             && DecodeManifest(lib, manifest.plaintext, keys, FoundManifest(c.header, file)).None?
             && LightDamage(e, manifest.parityPct, FoundManifest(c.header, file), ManifestBlob(lib, keys, nonce, manifest))
    requires var blob := ManifestBlob(lib, keys, nonce, manifest);
             blob != [] && |MetaParity(e, manifest.parityPct, blob)| <= 2 * MAX_MANIFEST_SIZE
    ensures var c := Container(lib, e, h, keys, nonce, manifest, exts, payloads, data);
            var all := Injected(e, manifest.parityPct, exts, payloads, ManifestBlob(lib, keys, nonce, manifest)).0;
            EmbeddedGives(lib, e, manifest.plaintext, c.header, keys, all, file, FoundManifest(c.header, file), manifest)
  {
    hide Container, Injected, EC.EngineOk, MetaParity, RegionParity, HasDataParity, LightDamage, Undone, LibraryOk, ManifestBlob,
      DecodeManifest, EmbeddedGives, MetaEntry, DropMeta, Header.Fits;
    var c := Container(lib, e, h, keys, nonce, manifest, exts, payloads, data);
    var blob := ManifestBlob(lib, keys, nonce, manifest);
    var all := Injected(e, manifest.parityPct, exts, payloads, blob).0;
    var found, meta := FoundManifest(c.header, file), RegionParity(e, manifest.parityPct, blob);
    SealedMeta(lib, e, h, keys, nonce, manifest, exts, payloads, data, file);
    MetaIsRegion(e, manifest.parityPct, blob);
    LibraryReads(lib, keys, nonce, manifest, all);
    BlobWidth(lib, e, h, keys, nonce, manifest, exts, payloads, data);
    FreshUndoes(e, manifest.parityPct, found, blob);
    NotEmpty(e, meta, found, blob);
    EmbeddedUndoes(lib, e, manifest.plaintext, c.header, keys, all, file, found, blob, manifest);
  }

  lemma BlobWidth(lib: Library, e: EC.Engine, h: Header, keys: Keys, nonce: VaultTypes.Nonce, manifest: Manifest,
                  exts: seq<Extension>, payloads: Bytes, data: Bytes)
    requires Container(lib, e, h, keys, nonce, manifest, exts, payloads, data).header.Fits()
    ensures |ManifestBlob(lib, keys, nonce, manifest)| < U64_LIMIT
  {
    hide Injected, ManifestBlob, HeaderImage, MacInput;
  }

  lemma MetaIsRegion(e: EC.Engine, pct: nat, blob: Bytes)
    ensures MetaParity(e, pct, blob) == RegionParity(e, pct, blob)
  {
  }

  lemma InPayloads(bytes: Bytes, file: Bytes, at: nat, pays: Bytes, from: nat, n: nat)
    requires at <= |bytes| == |file| && bytes[at..] == pays == file[at..] && from + n <= |pays|
    ensures at + from + n <= |file| && file[at + from..at + from + n] == pays[from..from + n]
  {
  }

  lemma PaysTail(payloads: Bytes, meta: Bytes)
    ensures (payloads + meta)[|payloads|..|payloads| + |meta|] == meta
  {
  }

  lemma {:induction false} NoMetaKept(exts: seq<Extension>)
    ensures forall x :: x in DropMeta(exts) ==> x.id != META_PARITY_ID
  {
    if exts != [] {
      NoMetaKept(exts[..|exts| - 1]);
    }
  }

  lemma {:induction false} MetaLast(kept: seq<Extension>, meta: Extension)
    requires (forall x :: x in kept ==> x.id != META_PARITY_ID) && meta.id == META_PARITY_ID
    ensures MetaEntry(kept + [meta]) == Some(meta)
  {
    if kept != [] {
      assert (kept + [meta])[1..] == kept[1..] + [meta];
      assert kept[0] in kept;
      MetaLast(kept[1..], meta);
    }
  }

  lemma {:induction false} NoMeta(kept: seq<Extension>)
    requires forall x :: x in kept ==> x.id != META_PARITY_ID
    ensures MetaEntry(kept) == None
  {
    if kept != [] {
      assert kept[0] in kept;
      NoMeta(kept[1..]);
    }
  }
}
