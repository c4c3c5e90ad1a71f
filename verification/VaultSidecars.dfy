/** The recovery file of a vault: parity of its header, its manifest and its data, in that order. */
module VaultSidecars {
  import opened Wrappers
  import opened ByteSeqs
  import opened VaultTypes
  import opened Stores
  import opened ErasureCode
  import opened EcPayloads
  import opened Reconstruction
  import opened ParityRepair
  import opened AvecLengths
  import opened Sidecars
  import opened SidecarHealing
  import opened Headers
  import opened Containers
  import opened VaultRepair
  import opened VaultRepairGuarantees
  import StreamRepair
  import SidecarReaders
  import EC = ErrorCorrection

  const HEADER_SEGMENT: nat := 0

  function RegionParity(e: EC.Engine, pct: nat, region: Bytes): Bytes {
    var (k, p) := EC.GridFor(pct);
    EC.Protect(e, k, p, region)
  }

  function VaultSidecar(e: EC.Engine, h: Hashes, pct: nat, container: Bytes, header: Header, blob: Bytes, data: Bytes): Sidecar {
    var digest := h.sha256(container);
    Sidecar(h.binding(digest), digest, |container|, [
      Segment(0, HEADER_SIZE, RegionParity(e, pct, HeaderImage(header))),
      Segment(header.manifestOffset, header.manifestLen, RegionParity(e, pct, blob)),
      Segment(header.dataOffset, header.dataLen, RegionParity(e, pct, data))])
  }

  /** Writes the recovery file of a vault, sound or not: the data parity is that of the cells its
      records point at, by offset. */
  method ExportParity(e: EC.Engine, h: Hashes, pct: nat, container: Bytes, header: Header, blob: Bytes,
                      chunks: Records, data: Bytes)
    returns (out: Bytes, ghost byOffset: seq<ChunkId>)
    requires EC.EngineOk(e) && header.Fits()
    ensures ByOffset(byOffset, chunks)
    ensures out == SidecarBytes(h, VaultSidecar(e, h, pct, container, header, blob, LiveStream(data, chunks, byOffset)))
  {
    hide EC.EngineOk, EC.Protect, EC.GridFor, ByOffset, LiveCells, HeaderImage, SidecarBytes;
    EC.GridBounds(pct);
    var (k, p) := EC.GridFor(pct);
    var blocks, order := CollectLiveBlocks(chunks, data);
    byOffset := order;
    var dataParity, s0, n0 := EC.ComputeShards(e, blocks, k, p);
    var image := EncodeHeader(header);
    var headerParity, s1, n1 := EC.ComputeShards(e, [image[..]], k, p);
    OneBlob(image[..]);
    var blobParity, s2, n2 := EC.ComputeShards(e, [blob], k, p);
    OneBlob(blob);
    var digest := h.sha256(container);
    out := SidecarReaders.WriteSidecar(h, Sidecar(h.binding(digest), digest, |container|, [
      Segment(0, HEADER_SIZE, headerParity),
      Segment(header.manifestOffset, header.manifestLen, blobParity),
      Segment(header.dataOffset, header.dataLen, dataParity)]));
  }

  lemma RegionParityLength(e: EC.Engine, pct: nat, region: Bytes)
    requires EC.EngineOk(e) && |region| < U64_LIMIT
    ensures |RegionParity(e, pct, region)| == AvecLen(|region|, pct) < U64_LIMIT
  {
    hide EC.EngineOk, EC.Protect, EC.GridFor, LengthFor;
    EC.GridBounds(pct);
    AvecLenFits(|region|, pct);
    var (k, p) := EC.GridFor(pct);
    ProtectLength(e, k, p, region);
  }

  /** The recovery file is read back whole, and the data parity is found in it, unless the manifest or
      the data section has one of the lengths the reader's cap gets wrong. */
  lemma ExportReadsBack(e: EC.Engine, h: Hashes, pct: nat, container: Bytes, header: Header, blob: Bytes, data: Bytes)
    requires EC.EngineOk(e) && HashesOk(h) && header.Fits() && |container| < U64_LIMIT
    requires header.manifestLen == |blob| && header.dataLen == |data|
    ensures var sc := VaultSidecar(e, h, pct, container, header, blob, data);
            var bytes := SidecarBytes(h, sc);
            if TooLongForReader(|blob|, pct) || TooLongForReader(|data|, pct)
            then ReadSidecar(h, bytes) == Err(AvecTooLong)
            else
              && ReadSidecar(h, bytes) == Ok(sc)
              && ResolveParity(h, Some(bytes), None, None) == Ok(Some((RegionParity(e, pct, data), Explicit)))
              && ResolveParity(h, None, Some(bytes), None) == Ok(Some((RegionParity(e, pct, data), Detached)))
  {
    hide EC.EngineOk, RegionParity, ReadSidecar, SidecarBytes, HeaderImage, Cap, AvecLen, TooLongForReader;
    var sc := VaultSidecar(e, h, pct, container, header, blob, data);
    ImageParts(header);
    RegionParityLength(e, pct, HeaderImage(header));
    RegionParityLength(e, pct, blob);
    RegionParityLength(e, pct, data);
    WithinCapExactly(HEADER_SIZE, pct);
    WithinCapExactly(|blob|, pct);
    WithinCapExactly(|data|, pct);
    HeaderNeverTooLong(pct);
    ThreeWithinCap(sc.segments);
    RoundTrip(h, sc);
  }

  lemma HeaderNeverTooLong(pct: nat)
    ensures !TooLongForReader(HEADER_SIZE, pct)
  {
  }

  lemma ThreeWithinCap(segs: seq<Segment>)
    requires |segs| == 3
    ensures WithinCap(segs) <==>
            |segs[0].avec| <= Cap(segs[0].len) && |segs[1].avec| <= Cap(segs[1].len) && |segs[2].avec| <= Cap(segs[2].len)
  {
  }

  // ---- rebuilding a damaged header ----------------------------------------

  function UnlockImage(lib: Library, image: Bytes): Option<(Header, Keys)> {
    var h := DecodeHeader(image);
    if h.Err? then None
    else
      var keys := UnlockWithPassword(lib, h.value);
      if keys.Err? then None else Some((h.value, keys.value))
  }

  /** Rebuilds the header from the recovery file, and accepts it only if it unlocks. */
  method RecoverHeader(lib: Library, e: EC.Engine, h: Hashes, onDisk: Bytes, sidecar: Bytes)
    returns (r: Option<(Header, Keys)>, ghost rebuilt: Bytes, ghost n: Result<nat, EcError>)
    requires EC.EngineOk(e)
    ensures var sc := ReadSidecar(h, sidecar);
            if sc.Err? || SidecarParity(sc.value, HEADER_SEGMENT) == [] || |onDisk| != HEADER_SIZE then r == None
            else
              && RepairOutcome(e, SidecarParity(sc.value, HEADER_SEGMENT), onDisk, rebuilt, n)
              && r == (if n.Err? then None else UnlockImage(lib, rebuilt))
  {
    hide EC.EngineOk, RepairOutcome, DecodeHeader;
    rebuilt, n := [], Ok(0);
    var sc := SidecarReaders.ReadFromMemory(h, sidecar);
    if sc.Err? {
      return None, rebuilt, n;
    }
    var parity := SidecarParity(sc.value, HEADER_SEGMENT);
    if parity == [] || |onDisk| != HEADER_SIZE {
      return None, rebuilt, n;
    }
    var count, fixed := StreamRepair.RepairPart(e, onDisk, parity);
    rebuilt, n := fixed, count;
    if count.Err? {
      return None, rebuilt, n;
    }
    r := UnlockImage(lib, fixed);
  }

  /** A damaged header whose parity survives in the recovery file is rebuilt to what it was: what
      unlocks then is the original header. */
  lemma HeaderRecovered(lib: Library, e: EC.Engine, header: Header, onDisk: Bytes, parity: Bytes, rebuilt: Bytes, n: Result<nat, EcError>)
    requires EC.EngineOk(e) && header.Fits() && |onDisk| == HEADER_SIZE && parity != []
    requires Accepted(parity, HEADER_SIZE).Ok?
    requires var pl := Accepted(parity, HEADER_SIZE).value;
             && AnyKDetermine(e.code, pl.geo.k, pl.geo.p) && Truthful(e, pl, onDisk, HeaderImage(header))
             && Mendable(e, pl, onDisk, HeaderImage(header))
    requires RepairOutcome(e, parity, onDisk, rebuilt, n)
    ensures n.Ok? && rebuilt == HeaderImage(header)
    ensures UnlockImage(lib, rebuilt) ==
            (var keys := UnlockWithPassword(lib, header); if keys.Err? then None else Some((header, keys.value)))
  {
    hide EC.EngineOk, AnyKDetermine, Truthful, Mendable, Accepted, Repaired, Recovered, HeaderImage,
      UnlockWithPassword, DecodeHeader, Header.Fits;
    AcceptedUsable(parity, HEADER_SIZE);
    RepairRestores(e, Accepted(parity, HEADER_SIZE).value, onDisk, HeaderImage(header), rebuilt);
    HeaderReadBack(header, []);
    assert HeaderImage(header) + [] == HeaderImage(header);
  }
}
