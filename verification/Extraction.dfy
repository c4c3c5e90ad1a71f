/** Reading files and directories back, block by block. */
module Extraction {
  import opened Wrappers
  import opened ByteSeqs
  import opened Ordering
  import opened Paths
  import opened Words
  import opened Chunking
  import opened Packing
  import opened VaultTypes
  import opened Stores
  import opened Trees
  import opened Manifests
  import opened FileSteps

  /** Finds, checks and decodes one chunk, in the order the checks are made. */
  function ReadBlock(setup: Setup, chunks: Records, data: Bytes, id: ChunkId): Result<Bytes, VaultError> {
    if id !in chunks then Err(MissingChunk)
    else
      var rec := chunks[id];
      var lenEnd := rec.dataOffset + 8;
      if lenEnd > |data| then Err(LengthOutside)
      else
        var len := Val(data[rec.dataOffset..lenEnd]);
        if len != rec.blockLen || len > MAX_BLOCK_SIZE then Err(LengthMismatch)
        else if rec.plaintextLen > setup.MaxBlockPlaintext() then Err(PlaintextTooLarge)
        else if lenEnd + len > |data| then Err(BlockOutside)
        else DecodeBlock(setup, rec, id, data[lenEnd..lenEnd + len])
  }

  /** The stream of decoded chunks, cut off once it reaches `end`. */
  function Decoded(setup: Setup, chunks: Records, data: Bytes, ids: seq<ChunkId>, end: nat, stream: Bytes)
    : Result<Bytes, VaultError>
    decreases |ids|
  {
    if ids == [] || |stream| >= end then Ok(stream)
    else
      match ReadBlock(setup, chunks, data, ids[0])
      case Err(e) => Err(e)
      case Ok(plain) => Decoded(setup, chunks, data, ids[1..], end, stream + plain)
  }

  lemma DecodedStep(setup: Setup, chunks: Records, data: Bytes, ids: seq<ChunkId>, i: nat, end: nat, stream: Bytes)
    requires i < |ids| && |stream| < end
    ensures Decoded(setup, chunks, data, ids[i..], end, stream) ==
            match ReadBlock(setup, chunks, data, ids[i])
            case Err(e) => Err(e)
            case Ok(plain) => Decoded(setup, chunks, data, ids[i + 1..], end, stream + plain)
  {
  }

  lemma DecodedDone(setup: Setup, chunks: Records, data: Bytes, rest: seq<ChunkId>, end: nat, stream: Bytes)
    requires rest == [] || |stream| >= end
    ensures Decoded(setup, chunks, data, rest, end, stream) == Ok(stream)
  {
  }

  /** Extraction: the entry's slice of its decoded chunks. */
  function Extracted(setup: Setup, chunks: Records, data: Bytes, e: Entry): Result<Bytes, VaultError> {
    var end := SliceStart(e) + e.size;
    match Decoded(setup, chunks, data, e.chunks, end, [])
    case Err(error) => Err(error)
    case Ok(stream) => if |stream| < end then Err(SliceTooLong) else Ok(stream[SliceStart(e)..end])
  }

  lemma NothingWritten(off: nat, end: nat)
    requires off <= end
    ensures WrittenSoFar([], off, end) == []
  {
  }

  lemma WrittenIsSlice(stream: Bytes, off: nat, end: nat)
    requires off <= end
    ensures end <= |stream| ==> WrittenSoFar(stream, off, end) == stream[off..end]
  {
  }

  /** A stored chunk decodes to its plaintext exactly when its block is within the limit. */
  lemma StoredBlockReads(setup: Setup, order: seq<ChunkId>, ledger: Ledger, chunks: Records, data: Bytes, id: ChunkId)
    requires StoreOk(setup, order, ledger, chunks, data) && id in chunks
    ensures id in ledger
    ensures ReadBlock(setup, chunks, data, id) ==
            if chunks[id].blockLen <= MAX_BLOCK_SIZE then Ok(ledger[id].plain) else Err(LengthMismatch)
  {
    hide IndexOrder, WellPlaced, NoDuplicates, DataOf, DecodeBlock;
    StoreRead(setup, order, ledger, chunks, data, id);
  }

  /** Every chunk the slice needs is within the block limit. */
  ghost predicate SliceReadable(chunks: Records, ledger: Ledger, ids: seq<ChunkId>, end: nat, have: nat)
    decreases |ids|
  {
    ids == [] || have >= end ||
    (ids[0] in chunks && chunks[ids[0]].blockLen <= MAX_BLOCK_SIZE &&
     SliceReadable(chunks, ledger, ids[1..], end, have + |PlainOf(ledger, ids[0])|))
  }

  lemma {:induction false} DecodedIs(setup: Setup, order: seq<ChunkId>, ledger: Ledger, chunks: Records, data: Bytes,
                               ids: seq<ChunkId>, end: nat, stream: Bytes)
    requires StoreOk(setup, order, ledger, chunks, data) && forall id :: id in ids ==> id in chunks
    ensures var d := Decoded(setup, chunks, data, ids, end, stream);
            && (d.Ok? <==> SliceReadable(chunks, ledger, ids, end, |stream|))
            && (d.Ok? ==>
                  var whole := stream + Flatten(Plains(ids, ledger));
                  d.value <= whole && (|d.value| < end ==> d.value == whole))
    decreases |ids|
  {
    hide StoreOk, ReadBlock, PlainOf;
    if ids != [] && |stream| < end {
      StoredBlockReads(setup, order, ledger, chunks, data, ids[0]);
      assert Plains(ids, ledger)[1..] == Plains(ids[1..], ledger);
      assert PlainOf(ledger, ids[0]) == ledger[ids[0]].plain by { PlainIs(ledger, ids[0]); }
      if chunks[ids[0]].blockLen <= MAX_BLOCK_SIZE {
        var plain := ledger[ids[0]].plain;
        DecodedIs(setup, order, ledger, chunks, data, ids[1..], end, stream + plain);
        assert stream + plain + Flatten(Plains(ids[1..], ledger)) == stream + Flatten(Plains(ids, ledger));
      }
    }
  }

  lemma PlainIs(ledger: Ledger, id: ChunkId)
    requires id in ledger
    ensures PlainOf(ledger, id) == ledger[id].plain
  {
  }

  /** Extraction succeeds exactly when every chunk it needs is within the block limit, and then
      yields the entry's content. */
  lemma ExtractionIff(setup: Setup, order: seq<ChunkId>, ledger: Ledger, chunks: Records, data: Bytes, e: Entry)
    requires StoreOk(setup, order, ledger, chunks, data) && EntryOk(e, ledger, false) && !e.isDir
    ensures Extracted(setup, chunks, data, e).Ok? <==>
            SliceReadable(chunks, ledger, e.chunks, SliceStart(e) + e.size, 0)
    ensures Extracted(setup, chunks, data, e).Ok? ==> Extracted(setup, chunks, data, e) == Ok(Content(e, ledger))
  {
    hide StoreOk, Decoded, SliceReadable, PlainOf;
    var end := SliceStart(e) + e.size;
    StoreKeys(setup, order, ledger, chunks, data);
    DecodedIs(setup, order, ledger, chunks, data, e.chunks, end, []);
    var whole := Flatten(Plains(e.chunks, ledger));
    assert [] + whole == whole;
    var d := Decoded(setup, chunks, data, e.chunks, end, []);
    if d.Ok? {
      assert whole[..|d.value|] == d.value;
      assert d.value[SliceStart(e)..end] == whole[SliceStart(e)..end];
    }
  }

  /** The bounds leave room for a protected block under the block limit. */
  predicate BlocksFit(setup: Setup) {
    setup.MaxBlockPlaintext() + setup.Overhead() <= MAX_BLOCK_SIZE
  }

  /** No form in which ingest may store a chunk is over the block limit. */
  ghost predicate AllFormsFit(setup: Setup) {
    forall chunk: Bytes, skip: bool, nonce: Nonce, index: nat ::
      |chunk| <= setup.MaxBlockPlaintext() && StoredForm(setup.prims, chunk, skip).Ok? ==>
        |StoredBlock(setup, chunk, skip, nonce, index)| <= MAX_BLOCK_SIZE
  }

  /** The block ingest stores for a chunk. */
  function StoredBlock(setup: Setup, chunk: Bytes, skip: bool, nonce: Nonce, index: nat): Bytes
    requires StoredForm(setup.prims, chunk, skip).Ok?
  {
    Protect(setup, nonce, index, setup.prims.chunkId(chunk), StoredForm(setup.prims, chunk, skip).value.0)
  }

  /** That is what the bounds leaving room means, for every setup. */
  lemma FitIsExact(setup: Setup)
    requires Sound(setup.prims)
    ensures BlocksFit(setup) <==> AllFormsFit(setup)
  {
    var chunk := Zeros(setup.MaxBlockPlaintext());
    var block := StoredBlock(setup, chunk, true, [], 0);
    assert |block| == setup.MaxBlockPlaintext() + setup.Overhead();
  }

  /** A vault holding one chunk stored raw, and a file made of it. */
  function RawRecord(setup: Setup, chunk: Bytes, block: Bytes): ChunkRecord {
    ChunkRecord(setup.prims.chunkId(chunk), 0, 0, |block|, |chunk|, |chunk|, setup.prims.blockHash(block), true)
  }

  function OneChunkFile(setup: Setup, chunk: Bytes): Entry {
    Entry("a", |chunk|, false, [setup.prims.chunkId(chunk)], None)
  }

  /** Where the bounds leave no room, a largest chunk stored raw makes a sound store from which its
      file cannot be extracted. */
  lemma OversizedIsRefused(setup: Setup, chunk: Bytes, nonce: Nonce)
    requires Sound(setup.prims) && |chunk| == setup.MaxBlockPlaintext() && !BlocksFit(setup)
    ensures var block := StoredBlock(setup, chunk, true, nonce, 0);
            var rec := RawRecord(setup, chunk, block);
            var chunks: Records := map[rec.id := rec];
            && StoreOk(setup, [rec.id], map[rec.id := Deposit(chunk, block)], chunks, Cell(block))
            && Extracted(setup, chunks, Cell(block), OneChunkFile(setup, chunk)) == Err(LengthMismatch)
  {
    var block := StoredBlock(setup, chunk, true, nonce, 0);
    var rec := RawRecord(setup, chunk, block);
    var none: Records := map[];
    hide DecodeBlock, Describes, Cell, ReadBlock;
    StoredBlockDecodes(setup, nonce, chunk, true, rec, block);
    NoStore(setup);
    StoreAppend(setup, [], map[], none, [], rec, Deposit(chunk, block));
    assert [] + [rec.id] == [rec.id] && [] + Cell(block) == Cell(block);
    StoredBlockReads(setup, [rec.id], map[rec.id := Deposit(chunk, block)], none[rec.id := rec], Cell(block), rec.id);
  }

  lemma NoStore(setup: Setup)
    ensures StoreOk(setup, [], map[], map[], [])
  {
  }

  lemma {:induction false} PowersMultiply(a: nat, b: nat)
    requires IsPowerOfTwo(a) && IsPowerOfTwo(b)
    ensures IsPowerOfTwo(a * b)
    decreases b
  {
    if b > 1 {
      PowersMultiply(a, b / 2);
      assert a * b == 2 * (a * (b / 2));
    }
  }

  const WIDE_BOUND: nat := 128 * 1024 * 1024

  /** The same vault with all three chunk bounds at 128 MiB. */
  function Wide(setup: Setup): Setup {
    setup.(bounds := Some(CdcBounds(WIDE_BOUND, WIDE_BOUND, WIDE_BOUND)))
  }

  /** Those bounds pass the check, leave no room, and make one chunk of every file of 128 MiB. */
  lemma WideBoundsAccepted(setup: Setup, content: Bytes)
    requires |content| == WIDE_BOUND
    ensures Wide(setup).EffectiveBounds().Ok? && !BlocksFit(Wide(setup))
    ensures var cutter := Wide(setup).CutterFor(Wide(setup).EffectiveBounds().value);
            cutter.Usable() && Chunks(cutter, content) == [content]
  {
    hide FirstCut;
    PowersMultiply(512, 512);
    PowersMultiply(512, 512 * 512);
    var cutter := Wide(setup).CutterFor(CdcBounds(WIDE_BOUND, WIDE_BOUND, WIDE_BOUND));
    FirstCutLength(cutter, content);
    assert content[..|content|] == content && content[|content|..] == [];
  }

  /** So under them a file of 128 MiB is stored as one chunk and cannot be extracted, if it is stored raw. */
  lemma WideFileIsRefused(setup: Setup, content: Bytes, nonce: Nonce)
    requires Sound(setup.prims) && |content| == WIDE_BOUND
    ensures var wide := Wide(setup);
            var block := StoredBlock(wide, content, true, nonce, 0);
            var rec := RawRecord(wide, content, block);
            var chunks: Records := map[rec.id := rec];
            && wide.EffectiveBounds().Ok?
            && Recorded(Chunks(wide.CutterFor(wide.EffectiveBounds().value), content), [rec.id],
                        map[rec.id := Deposit(content, block)], false)
            && StoreOk(wide, [rec.id], map[rec.id := Deposit(content, block)], chunks, Cell(block))
            && Extracted(wide, chunks, Cell(block), OneChunkFile(wide, content)) == Err(LengthMismatch)
  {
    hide StoreOk, Extracted, Chunks, BlocksFit;
    WideBoundsAccepted(setup, content);
    OversizedIsRefused(Wide(setup), content, nonce);
  }

  /** Then no stored block is over it. */
  lemma FitMeansWithinLimit(setup: Setup, order: seq<ChunkId>, ledger: Ledger, chunks: Records, data: Bytes)
    requires StoreOk(setup, order, ledger, chunks, data)
    ensures BlocksFit(setup) ==> forall id :: id in chunks ==> chunks[id].blockLen <= MAX_BLOCK_SIZE
  {
    hide IndexOrder, WellPlaced, NoDuplicates, DataOf, DecodeBlock;
  }

  lemma {:induction false} FitMeansReadable(setup: Setup, order: seq<ChunkId>, ledger: Ledger, chunks: Records, data: Bytes,
                                      ids: seq<ChunkId>, end: nat, have: nat)
    requires StoreOk(setup, order, ledger, chunks, data) && BlocksFit(setup) && forall id :: id in ids ==> id in chunks
    ensures SliceReadable(chunks, ledger, ids, end, have)
    decreases |ids|
  {
    hide IndexOrder, WellPlaced, NoDuplicates, DataOf, DecodeBlock;
    if ids != [] && have < end {
      assert ids[0] in chunks;
      FitMeansReadable(setup, order, ledger, chunks, data, ids[1..], end, have + |PlainOf(ledger, ids[0])|);
    }
  }

  /** The entry needs only chunks within the block limit. */
  ghost predicate Readable(chunks: Records, ledger: Ledger, e: Entry) {
    SliceReadable(chunks, ledger, e.chunks, SliceStart(e) + e.size, 0)
  }

  lemma ExtractedContent(setup: Setup, order: seq<ChunkId>, ledger: Ledger, chunks: Records, data: Bytes,
                         entries: seq<Entry>, e: Entry)
    requires StoreOk(setup, order, ledger, chunks, data) && EntriesOk(entries, ledger, false)
    requires e in entries && !e.isDir
    ensures Extracted(setup, chunks, data, e).Ok? <==> Readable(chunks, ledger, e)
    ensures Readable(chunks, ledger, e) ==> Extracted(setup, chunks, data, e) == Ok(Content(e, ledger))
    ensures BlocksFit(setup) ==> Readable(chunks, ledger, e)
  {
    hide StoreOk, UniquePaths, Extracted, Content, SliceReadable, BlocksFit;
    StoreKeys(setup, order, ledger, chunks, data);
    ExtractionIff(setup, order, ledger, chunks, data, e);
    if BlocksFit(setup) {
      FitMeansReadable(setup, order, ledger, chunks, data, e.chunks, SliceStart(e) + e.size, 0);
    }
  }

  lemma NotAllAccepted(entries: seq<Entry>, ledger: Ledger, q: string, e: Entry)
    requires UniquePaths(entries) && e in entries && IsDescendant(e.path, q)
    requires Normalize(e.path).Err? || Normalize(RelativeTo(e.path, q)).Err?
    ensures !AllAccepted(TreeOf(entries, ledger), q)
  {
    hide TreeOf, UniquePaths, Normalize, IsDescendant, RelativeTo, Content;
    TreeAt(entries, ledger);
  }

  /** What extraction hands out: a file's bytes, or what is below a directory. */
  datatype Extraction = FileOut(bytes: Bytes) | DirectoryOut(tree: Tree)

  /** The entries below `q`, by path. */
  function EntriesBelow(entries: seq<Entry>, q: string): seq<Entry> {
    SortBy(EntryPath, Retain(entries, p => IsDescendant(p, q)))
  }

  lemma EntriesBelowAre(entries: seq<Entry>, q: string, ledger: Ledger)
    requires UniquePaths(entries)
    ensures UniquePaths(EntriesBelow(entries, q))
    ensures forall e :: e in EntriesBelow(entries, q) <==> e in entries && IsDescendant(e.path, q)
    ensures Below(TreeOf(EntriesBelow(entries, q), ledger), q) == Below(TreeOf(entries, ledger), q)
  {
    hide IsDescendant, SortBy, Retain, TreeOf, UniquePaths, Below;
    var keep := (p: string) => IsDescendant(p, q);
    RetainKeeps(entries, keep);
    TreeRetain(entries, keep, ledger);
    TreeSort(Retain(entries, keep), ledger);
    var t, kept := TreeOf(entries, ledger), TreeOf(Retain(entries, keep), ledger);
    forall rel
      ensures rel in Below(kept, q) <==> rel in Below(t, q)
      ensures rel in Below(t, q) ==> Below(kept, q)[rel] == Below(t, q)[rel]
    {
      BelowAt(t, q, rel);
      BelowAt(kept, q, rel);
      assert IsDescendant(q + "/" + rel, q) by { RightBelow(q, rel); }
    }
  }

  lemma RightBelow(q: string, rel: string)
    ensures IsDescendant(q + "/" + rel, q)
  {
  }

  /** One more entry laid out below `q`. */
  lemma BelowNext(list: seq<Entry>, i: nat, q: string, ledger: Ledger)
    requires UniquePaths(list) && i < |list| && IsDescendant(list[i].path, q)
    ensures Below(TreeOf(list[..i + 1], ledger), q) ==
            Below(TreeOf(list[..i], ledger), q)[RelativeTo(list[i].path, q) := NodeOf(list[i], ledger)]
  {
    hide IsDescendant, TreeOf, Below, NodeOf;
    assert list[..i + 1] == list[..i] + [list[i]];
    assert UniquePaths(list[..i]) && list[i].path !in PathSet(list[..i]);
    TreePush(list[..i], list[i], ledger);
    BelowUpdate(TreeOf(list[..i], ledger), q, list[i].path, NodeOf(list[i], ledger));
  }

  lemma BelowNothing(q: string, ledger: Ledger)
    ensures Below(TreeOf([], ledger), q) == map[]
  {
    hide NodeOf;
    TreeIs([], ledger, map[]);
  }
}
