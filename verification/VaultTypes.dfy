/** The records of a vault, the primitives it is built on, and how one block is stored and read. */
module VaultTypes {
  import opened Wrappers
  import opened ByteSeqs
  import opened Chunking

  const MAX_BLOCK_SIZE: nat := 64 * 1024 * 1024
  const MAX_PLAINTEXT_BLOCK_SIZE: nat := 256 * 1024 * 1024
  /** Nonce and tag of a sealed block. */
  const SEAL_OVERHEAD: nat := 28

  type ChunkId = string
  type Digest = Bytes
  type Nonce = Bytes

  datatype ChunkRecord = ChunkRecord(
    id: ChunkId,
    blockIndex: nat,
    dataOffset: nat,
    blockLen: nat,
    plaintextLen: nat,
    compressedLen: nat,
    cipherHash: Digest,
    storedRaw: bool)

  datatype Entry = Entry(
    path: string,
    size: nat,
    isDir: bool,
    chunks: seq<ChunkId>,
    packOffset: Option<nat>)

  datatype VaultError =
    | BadPath
    | NotRegular
    | FileInTheWay
    | DirectoryInTheWay
    | NotFound
    | NotEmpty
    | InsideItself
    | AlreadyExists
    | BadBounds
    | Io
    | CompressFailed
    | PackingFailed
    | MissingChunk
    | LengthOutside
    | LengthMismatch
    | PlaintextTooLarge
    | BlockOutside
    | HashMismatch
    | DecryptFailed
    | InflateFailed
    | PlaintextMismatch
    | SliceTooLong

  /** The library functions, with the keys of one vault fixed. `probe` is the test that holds a chunk to be
      incompressible; `seal` is given its random nonce. */
  datatype Primitives = Primitives(
    chunkId: Bytes -> ChunkId,
    blockHash: Bytes -> Digest,
    probe: Bytes -> bool,
    compress: Bytes -> Option<Bytes>,
    inflate: (Bytes, nat) -> Option<Bytes>,
    seal: (Nonce, nat, ChunkId, Bytes) -> Bytes,
    unseal: (nat, ChunkId, Bytes) -> Option<Bytes>)

  /** Decoding inverts encoding; sealing adds a fixed overhead. `inflate(z, cap)` stops after `cap` bytes. */
  ghost predicate Sound(p: Primitives) {
    && (forall x, z, cap: nat :: p.compress(x) == Some(z) ==> p.inflate(z, cap) == Some(x[..Min(cap, |x|)]))
    && (forall n, i: nat, id, x :: p.unseal(i, id, p.seal(n, i, id, x)) == Some(x))
    && (forall n, i: nat, id, x :: |p.seal(n, i, id, x)| == |x| + SEAL_OVERHEAD)
  }

  /** The parts of a vault that no operation of this model changes. */
  datatype Setup = Setup(prims: Primitives, plaintextLane: bool, bounds: Option<CdcBounds>, table: GearTable) {
    /** The largest plaintext one block may declare. */
    function MaxBlockPlaintext(): nat {
      Min(if bounds.Some? then bounds.value.max else CDC_MAX, MAX_PLAINTEXT_BLOCK_SIZE)
    }

    /** What protecting a block adds to it. */
    function Overhead(): nat { if plaintextLane then 0 else SEAL_OVERHEAD }

    /** `manifest_cdc_bounds`: the recorded bounds if valid, the defaults if none are recorded. */
    function EffectiveBounds(): Result<CdcBounds, VaultError> {
      match bounds
      case Some(b) => if ValidBounds(b) then Ok(b) else Err(BadBounds)
      case None => Ok(DEFAULT_BOUNDS)
    }

    function CutterFor(b: CdcBounds): Cutter { Cutter(table, b) }
  }

  lemma EffectiveBoundsFit(setup: Setup)
    requires setup.EffectiveBounds().Ok?
    ensures var b := setup.EffectiveBounds().value;
            && setup.CutterFor(b).Usable() && 1 <= b.max && b.min <= b.max && b.max <= setup.MaxBlockPlaintext()
  {
  }

  // ---- one block ----------------------------------------------------------

  /** What is stored for a chunk: its compressed form, or the chunk itself when compression is
      skipped or does not shrink it. The flag says which. */
  function StoredForm(p: Primitives, chunk: Bytes, skip: bool): Result<(Bytes, bool), VaultError> {
    if skip then Ok((chunk, true))
    else
      match p.compress(chunk)
      case None => Err(CompressFailed)
      case Some(z) => if |z| >= |chunk| then Ok((chunk, true)) else Ok((z, false))
  }

  function Protect(setup: Setup, nonce: Nonce, index: nat, id: ChunkId, payload: Bytes): Bytes {
    if setup.plaintextLane then payload else setup.prims.seal(nonce, index, id, payload)
  }

  /** Checks and decodes a stored block, as extraction does. */
  function DecodeBlock(setup: Setup, rec: ChunkRecord, id: ChunkId, block: Bytes): Result<Bytes, VaultError> {
    if setup.prims.blockHash(block) != rec.cipherHash then Err(HashMismatch)
    else
      var payload := if setup.plaintextLane then Some(block) else setup.prims.unseal(rec.blockIndex, id, block);
      if payload.None? then Err(DecryptFailed)
      else
        var plain := if rec.storedRaw then payload else setup.prims.inflate(payload.value, rec.plaintextLen + 1);
        if plain.None? then Err(InflateFailed)
        else if |plain.value| != rec.plaintextLen then Err(PlaintextMismatch)
        else Ok(plain.value)
  }

  /** A record that describes `block`, which decodes to `plain`. */
  ghost predicate Describes(setup: Setup, id: ChunkId, rec: ChunkRecord, plain: Bytes, block: Bytes) {
    && rec.id == id == setup.prims.chunkId(plain)
    && rec.plaintextLen == |plain| <= setup.MaxBlockPlaintext()
    && rec.blockLen == |block| <= |plain| + setup.Overhead()
    && rec.cipherHash == setup.prims.blockHash(block)
    && DecodeBlock(setup, rec, id, block) == Ok(plain)
  }

  /** What ingest records for a new chunk decodes to that chunk. */
  lemma StoredBlockDecodes(setup: Setup, nonce: Nonce, chunk: Bytes, skip: bool, rec: ChunkRecord, block: Bytes)
    requires Sound(setup.prims) && |chunk| <= setup.MaxBlockPlaintext()
    requires StoredForm(setup.prims, chunk, skip).Ok?
    requires var id := setup.prims.chunkId(chunk);
             var (payload, raw) := StoredForm(setup.prims, chunk, skip).value;
             && block == Protect(setup, nonce, rec.blockIndex, id, payload)
             && rec == ChunkRecord(id, rec.blockIndex, rec.dataOffset, |block|, |chunk|, |payload|,
                                   setup.prims.blockHash(block), raw)
    ensures Describes(setup, rec.id, rec, chunk, block)
  {
    var (payload, raw) := StoredForm(setup.prims, chunk, skip).value;
    var p := setup.prims;
    assert p.unseal(rec.blockIndex, rec.id, p.seal(nonce, rec.blockIndex, rec.id, payload)) == Some(payload);
    if !raw {
      assert p.inflate(payload, |chunk| + 1) == Some(chunk[..|chunk|]);
      assert chunk[..|chunk|] == chunk;
    }
  }

  // ---- the data section ---------------------------------------------------

  /** A block as appended to the data section: its length, then its bytes. */
  function Cell(block: Bytes): Bytes {
    Le(|block|, 8) + block
  }

  lemma CellLength(block: Bytes)
    ensures |Cell(block)| == 8 + |block|
  {
  }

  /** Fetches the block a record points at. */
  function ReadCell(data: Bytes, rec: ChunkRecord): Result<Bytes, VaultError> {
    var start := rec.dataOffset + 8;
    if start > |data| then Err(LengthOutside)
    else
      var len := Val(data[rec.dataOffset..start]);
      if len != rec.blockLen || len > MAX_BLOCK_SIZE then Err(LengthMismatch)
      else if start + len > |data| then Err(BlockOutside)
      else Ok(data[start..start + len])
  }

  /** A cell inside the data section is read back, unless it is over the block limit. */
  lemma ReadCellAt(before: Bytes, block: Bytes, after: Bytes, rec: ChunkRecord)
    requires rec.dataOffset == |before| && rec.blockLen == |block| < U64_LIMIT
    ensures ReadCell(before + Cell(block) + after, rec) ==
            if |block| <= MAX_BLOCK_SIZE then Ok(block) else Err(LengthMismatch)
  {
    Le8(|block|);
    var data := before + Cell(block) + after;
    var start := |before| + 8;
    assert data[|before|..start] == Le(|block|, 8);
    assert data == before + Le(|block|, 8) + block + after;
    assert data[start..start + |block|] == block;
  }
}
