/** Extracting from a data section that may be damaged, by records that may be anything. */
module DamagedExtraction {
  import opened Wrappers
  import opened ByteSeqs
  import opened VaultTypes
  import opened Stores
  import opened Manifests
  import opened Extraction
  import opened VaultRepair

  /** The plaintext length the records give to all these chunks. */
  function Declared(chunks: Records, ids: seq<ChunkId>): nat {
    if ids == [] then 0
    else
      var last := ids[|ids| - 1];
      Declared(chunks, ids[..|ids| - 1]) + if last in chunks then chunks[last].plaintextLen else 0
  }

  /** The slice of the entry is not complete before its chunk `i`. */
  predicate Needed(chunks: Records, e: Entry, i: nat) {
    i < |e.chunks| && Declared(chunks, e.chunks[..i]) < SliceStart(e) + e.size
  }

  /** At the record's offset the data section holds a block of the recorded length, behind that length. */
  predicate BlockAt(data: Bytes, rec: ChunkRecord) {
    && rec.dataOffset + 8 + rec.blockLen <= |data|
    && Val(data[rec.dataOffset..rec.dataOffset + 8]) == rec.blockLen
  }

  function FoundBlock(data: Bytes, rec: ChunkRecord): Bytes
    requires BlockAt(data, rec)
  {
    data[rec.dataOffset + 8..rec.dataOffset + 8 + rec.blockLen]
  }

  /** There is a record of the chunk, and where it points a block of its length, within the limit, whose hash is the recorded
      one; and it declares no more plaintext than a block may hold. */
  predicate Vouched(setup: Setup, chunks: Records, data: Bytes, id: ChunkId) {
    && id in chunks && BlockAt(data, chunks[id]) && setup.prims.blockHash(FoundBlock(data, chunks[id])) == chunks[id].cipherHash
    && chunks[id].blockLen <= MAX_BLOCK_SIZE && chunks[id].plaintextLen <= setup.MaxBlockPlaintext()
  }

  lemma {:induction false} DeclaredGrows(chunks: Records, ids: seq<ChunkId>, i: nat, j: nat)
    requires i <= j <= |ids|
    ensures Declared(chunks, ids[..i]) <= Declared(chunks, ids[..j])
    decreases j
  {
    if i < j {
      assert ids[..j][..j - 1] == ids[..j - 1];
      DeclaredGrows(chunks, ids, i, j - 1);
    }
  }

  lemma DeclaredNext(chunks: Records, ids: seq<ChunkId>, i: nat)
    requires i < |ids| && ids[i] in chunks
    ensures Declared(chunks, ids[..i + 1]) == Declared(chunks, ids[..i]) + chunks[ids[i]].plaintextLen
  {
    assert ids[..i + 1][..i] == ids[..i];
  }

  lemma BlockVouched(setup: Setup, chunks: Records, data: Bytes, id: ChunkId)
    requires ReadBlock(setup, chunks, data, id).Ok?
    ensures Vouched(setup, chunks, data, id) && |ReadBlock(setup, chunks, data, id).value| == chunks[id].plaintextLen
  {
  }

  lemma {:induction false} DecodedVouched(setup: Setup, chunks: Records, data: Bytes, ids: seq<ChunkId>, from: nat, end: nat, stream: Bytes)
    requires from <= |ids| && Decoded(setup, chunks, data, ids[from..], end, stream).Ok?
    requires |stream| == Declared(chunks, ids[..from])
    ensures forall i :: from <= i < |ids| && Declared(chunks, ids[..i]) < end ==> Vouched(setup, chunks, data, ids[i])
    decreases |ids| - from
  {
    hide ReadBlock, Vouched, Declared;
    if |stream| >= end {
      forall i | from <= i < |ids|
        ensures Declared(chunks, ids[..i]) >= end
      {
        DeclaredGrows(chunks, ids, from, i);
      }
    } else if from < |ids| {
      DecodedStep(setup, chunks, data, ids, from, end, stream);
      BlockVouched(setup, chunks, data, ids[from]);
      VouchedRecorded(setup, chunks, data, ids[from]);
      DeclaredNext(chunks, ids, from);
      var plain := ReadBlock(setup, chunks, data, ids[from]).value;
      DecodedVouched(setup, chunks, data, ids, from + 1, end, stream + plain);
    }
  }

  lemma VouchedRecorded(setup: Setup, chunks: Records, data: Bytes, id: ChunkId)
    requires Vouched(setup, chunks, data, id)
    ensures id in chunks
  {
  }

  /** Nothing is handed out that a recorded hash does not vouch for: when an extraction succeeds, with any records and any
      data section, every chunk the slice needs is there as recorded. */
  lemma NothingUnvouched(setup: Setup, chunks: Records, data: Bytes, e: Entry)
    requires Extracted(setup, chunks, data, e).Ok?
    ensures |Extracted(setup, chunks, data, e).value| == e.size
    ensures forall i: nat :: Needed(chunks, e, i) ==> Vouched(setup, chunks, data, e.chunks[i])
  {
    hide Vouched, Decoded, Declared;
    assert e.chunks[..0] == [] && e.chunks[0..] == e.chunks;
    NoneDeclared(chunks);
    DecodedVouched(setup, chunks, data, e.chunks, 0, SliceStart(e) + e.size, []);
  }

  /** What a block holds once it is opened. */
  function Opened(setup: Setup, rec: ChunkRecord, id: ChunkId, block: Bytes): Option<Bytes> {
    if setup.plaintextLane then Some(block) else setup.prims.unseal(rec.blockIndex, id, block)
  }

  /** The compressed bytes inflate to `whole`, of which a reader gets as much as it asks for. */
  ghost predicate InflatesTo(p: Primitives, z: Bytes, whole: Bytes) {
    forall cap: nat :: p.inflate(z, cap) == Some(whole[..Min(cap, |whole|)])
  }

  /** And none of it is cut short: a chunk the slice needs opens, and holds or inflates to exactly as much as is recorded. */
  lemma NothingCutShort(setup: Setup, chunks: Records, data: Bytes, e: Entry, i: nat, whole: Bytes)
    requires Extracted(setup, chunks, data, e).Ok? && Needed(chunks, e, i)
    ensures e.chunks[i] in chunks && BlockAt(data, chunks[e.chunks[i]])
    ensures var rec := chunks[e.chunks[i]];
            var plain := Opened(setup, rec, e.chunks[i], FoundBlock(data, rec));
            && plain.Some?
            && (rec.storedRaw ==> |plain.value| == rec.plaintextLen)
            && (!rec.storedRaw && InflatesTo(setup.prims, plain.value, whole) ==> |whole| == rec.plaintextLen)
  {
    hide Declared, Decoded;
    NothingUnvouched(setup, chunks, data, e);
    assert e.chunks[..0] == [] && e.chunks[0..] == e.chunks;
    NoneDeclared(chunks);
    BlocksRead(setup, chunks, data, e.chunks, 0, SliceStart(e) + e.size, [], i);
    BlockWhole(setup, chunks, data, e.chunks[i], whole);
  }

  lemma {:induction false} BlocksRead(setup: Setup, chunks: Records, data: Bytes, ids: seq<ChunkId>, from: nat, end: nat, stream: Bytes, i: nat)
    requires from <= i < |ids| && Decoded(setup, chunks, data, ids[from..], end, stream).Ok?
    requires |stream| == Declared(chunks, ids[..from]) && Declared(chunks, ids[..i]) < end
    ensures ReadBlock(setup, chunks, data, ids[i]).Ok?
    decreases |ids| - from
  {
    hide ReadBlock, Vouched, Declared;
    DeclaredGrows(chunks, ids, from, i);
    DecodedStep(setup, chunks, data, ids, from, end, stream);
    if from < i {
      BlockVouched(setup, chunks, data, ids[from]);
      VouchedRecorded(setup, chunks, data, ids[from]);
      DeclaredNext(chunks, ids, from);
      BlocksRead(setup, chunks, data, ids, from + 1, end, stream + ReadBlock(setup, chunks, data, ids[from]).value, i);
    }
  }

  lemma BlockWhole(setup: Setup, chunks: Records, data: Bytes, id: ChunkId, whole: Bytes)
    requires ReadBlock(setup, chunks, data, id).Ok?
    ensures id in chunks && BlockAt(data, chunks[id])
    ensures var rec := chunks[id];
            var plain := Opened(setup, rec, id, FoundBlock(data, rec));
            && plain.Some?
            && (rec.storedRaw ==> |plain.value| == rec.plaintextLen)
            && (!rec.storedRaw && InflatesTo(setup.prims, plain.value, whole) ==> |whole| == rec.plaintextLen)
  {
    var rec := chunks[id];
    var plain := Opened(setup, rec, id, FoundBlock(data, rec));
    if !rec.storedRaw && plain.Some? && InflatesTo(setup.prims, plain.value, whole) {
      assert setup.prims.inflate(plain.value, rec.plaintextLen + 1) == Some(whole[..Min(rec.plaintextLen + 1, |whole|)]);
    }
  }

  lemma NoneDeclared(chunks: Records)
    ensures Declared(chunks, []) == 0
  {
  }

  // ---- a vault that was sound ---------------------------------------------

  /** Where the damaged data section holds a block that hashes as recorded, it is the original block. */
  ghost predicate HashTells(setup: Setup, ledger: Ledger, chunks: Records, data: Bytes) {
    forall id :: id in chunks && BlockAt(data, chunks[id])
                 && setup.prims.blockHash(FoundBlock(data, chunks[id])) == chunks[id].cipherHash ==>
      FoundBlock(data, chunks[id]) == BlockOf(ledger, id)
  }

  /** An intact block is read as its chunk. */
  lemma IntactReads(setup: Setup, order: seq<ChunkId>, ledger: Ledger, chunks: Records, original: Bytes, data: Bytes, id: ChunkId)
    requires StoreOk(setup, order, ledger, chunks, original) && HashTells(setup, ledger, chunks, data)
    requires Vouched(setup, chunks, data, id)
    ensures ReadBlock(setup, chunks, data, id) == ReadBlock(setup, chunks, original, id)
    ensures ReadBlock(setup, chunks, data, id).Ok?
  {
    hide IndexOrder, WellPlaced, NoDuplicates, DataOf, DecodeBlock;
    StoredBlockReads(setup, order, ledger, chunks, original, id);
  }

  lemma {:induction false} DecodedAlike(setup: Setup, order: seq<ChunkId>, ledger: Ledger, chunks: Records, original: Bytes, data: Bytes,
                                  ids: seq<ChunkId>, from: nat, end: nat, stream: Bytes)
    requires StoreOk(setup, order, ledger, chunks, original) && HashTells(setup, ledger, chunks, data)
    requires from <= |ids| && |stream| == Declared(chunks, ids[..from])
    requires forall i :: from <= i < |ids| && Declared(chunks, ids[..i]) < end ==> Vouched(setup, chunks, data, ids[i])
    ensures Decoded(setup, chunks, data, ids[from..], end, stream).Ok?
    ensures Decoded(setup, chunks, data, ids[from..], end, stream) == Decoded(setup, chunks, original, ids[from..], end, stream)
    decreases |ids| - from
  {
    hide StoreOk, HashTells, ReadBlock, Vouched, Declared;
    if from < |ids| && |stream| < end {
      assert Vouched(setup, chunks, data, ids[from]);
      IntactReads(setup, order, ledger, chunks, original, data, ids[from]);
      BlockVouched(setup, chunks, data, ids[from]);
      VouchedRecorded(setup, chunks, data, ids[from]);
      DecodedStep(setup, chunks, data, ids, from, end, stream);
      DecodedStep(setup, chunks, original, ids, from, end, stream);
      DeclaredNext(chunks, ids, from);
      var plain := ReadBlock(setup, chunks, data, ids[from]).value;
      DecodedAlike(setup, order, ledger, chunks, original, data, ids, from + 1, end, stream + plain);
    }
  }

  /** From a vault that was sound and whose data section was then damaged in any way, extraction yields the entry's content or an
      error, never anything else; and an error exactly when a chunk it needs is no longer there as recorded, or is over the block
      limit. */
  lemma DamagedExtractsOrErrs(setup: Setup, order: seq<ChunkId>, ledger: Ledger, chunks: Records, original: Bytes, data: Bytes, e: Entry)
    requires StoreOk(setup, order, ledger, chunks, original) && HashTells(setup, ledger, chunks, data)
    requires EntryOk(e, ledger, false) && !e.isDir
    ensures var r := Extracted(setup, chunks, data, e);
            && (r.Ok? ==> r == Ok(Content(e, ledger)))
            && (r.Ok? <==> forall i: nat :: Needed(chunks, e, i) ==>
                  Intact(setup.prims.blockHash, data, chunks[e.chunks[i]]) && chunks[e.chunks[i]].blockLen <= MAX_BLOCK_SIZE)
  {
    hide Extracted, HashTells, StoreOk, Content, Needed;
    forall id | id in chunks
      ensures Vouched(setup, chunks, data, id) <==> Intact(setup.prims.blockHash, data, chunks[id]) && chunks[id].blockLen <= MAX_BLOCK_SIZE
    {
      DeclaredFit(setup, order, ledger, chunks, original);
    }
    StoreKeys(setup, order, ledger, chunks, original);
    forall i: nat | Needed(chunks, e, i)
      ensures i < |e.chunks| && e.chunks[i] in chunks
    {
      NeededIn(chunks, e, i);
    }
    if Extracted(setup, chunks, data, e).Ok? {
      NothingUnvouched(setup, chunks, data, e);
    }
    if AllVouched(setup, chunks, data, e) {
      ExtractedAlike(setup, order, ledger, chunks, original, data, e);
    }
  }

  lemma NeededIn(chunks: Records, e: Entry, i: nat)
    requires Needed(chunks, e, i)
    ensures i < |e.chunks| && e.chunks[i] in e.chunks
  {
  }

  ghost predicate AllVouched(setup: Setup, chunks: Records, data: Bytes, e: Entry) {
    forall i: nat :: Needed(chunks, e, i) ==> Vouched(setup, chunks, data, e.chunks[i])
  }

  lemma ExtractedAlike(setup: Setup, order: seq<ChunkId>, ledger: Ledger, chunks: Records, original: Bytes, data: Bytes, e: Entry)
    requires StoreOk(setup, order, ledger, chunks, original) && HashTells(setup, ledger, chunks, data)
    requires EntryOk(e, ledger, false) && !e.isDir && AllVouched(setup, chunks, data, e)
    ensures Extracted(setup, chunks, data, e) == Ok(Content(e, ledger))
  {
    hide Decoded, Declared, HashTells, StoreOk, Content, Vouched, SliceReadable;
    var end := SliceStart(e) + e.size;
    StoreKeys(setup, order, ledger, chunks, original);
    assert e.chunks[..0] == [] && e.chunks[0..] == e.chunks;
    NoneDeclared(chunks);
    forall i: nat | i < |e.chunks| && Declared(chunks, e.chunks[..i]) < end
      ensures Vouched(setup, chunks, data, e.chunks[i])
    {
      assert Needed(chunks, e, i);
    }
    DecodedAlike(setup, order, ledger, chunks, original, data, e.chunks, 0, end, []);
    DecodedIs(setup, order, ledger, chunks, original, e.chunks, end, []);
    ExtractionIff(setup, order, ledger, chunks, original, e);
  }

  lemma DeclaredFit(setup: Setup, order: seq<ChunkId>, ledger: Ledger, chunks: Records, data: Bytes)
    requires StoreOk(setup, order, ledger, chunks, data)
    ensures forall id :: id in chunks ==> chunks[id].plaintextLen <= setup.MaxBlockPlaintext()
  {
    hide IndexOrder, WellPlaced, NoDuplicates, DataOf, DecodeBlock;
  }
}
