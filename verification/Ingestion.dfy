/** Which chunks adding files puts in the store, and when one of them cannot be stored. */
module Ingestion {
  import opened ByteSeqs
  import opened Chunking
  import opened Packing
  import opened VaultTypes
  import opened Stores

  /** A chunk can be stored: it is to be stored raw, or compression does not fail on it. */
  predicate CanStore(p: Primitives, chunk: Bytes) {
    p.probe(chunk) || p.compress(chunk).Some?
  }

  ghost predicate AllStorable(p: Primitives, blocks: seq<Bytes>) {
    forall c :: c in blocks ==> CanStore(p, c)
  }

  /** What is recorded of a chunk new to the store: it is kept raw exactly when it is held to be incompressible or its
      compressed form is no shorter, and what is kept is never longer than the chunk. */
  ghost predicate RecordedAs(setup: Setup, chunk: Bytes, rec: ChunkRecord) {
    && CanStore(setup.prims, chunk)
    && rec.plaintextLen == |chunk|
    && (rec.storedRaw <==> setup.prims.probe(chunk) || |setup.prims.compress(chunk).value| >= |chunk|)
    && rec.compressedLen == (if rec.storedRaw then |chunk| else |setup.prims.compress(chunk).value|)
    && rec.compressedLen <= rec.plaintextLen
    && rec.blockLen == rec.compressedLen + setup.Overhead()
  }

  /** The record of a new chunk comes after all others and points at a new cell at the end of the data section. */
  ghost predicate CellAppended(setup: Setup, before: Records, data: Bytes, chunk: Bytes, id: ChunkId, after: Records, grown: Bytes) {
    && id in after && RecordedAs(setup, chunk, after[id])
    && after[id].dataOffset == |data| && data <= grown && |grown| == |data| + 8 + after[id].blockLen
    && forall other :: other in before ==> before[other].blockIndex < after[id].blockIndex
  }

  lemma AppendsCell(setup: Setup, nonce: Nonce, chunk: Bytes, rec: ChunkRecord, block: Bytes, before: Records, data: Bytes)
    requires Sound(setup.prims) && StoredForm(setup.prims, chunk, setup.prims.probe(chunk)).Ok?
    requires var id := setup.prims.chunkId(chunk);
             var (payload, raw) := StoredForm(setup.prims, chunk, setup.prims.probe(chunk)).value;
             && block == Protect(setup, nonce, rec.blockIndex, id, payload)
             && rec == ChunkRecord(id, rec.blockIndex, |data|, |block|, |chunk|, |payload|, setup.prims.blockHash(block), raw)
    requires rec.id !in before && forall other :: other in before ==> before[other].blockIndex < rec.blockIndex
    ensures CellAppended(setup, before, data, chunk, rec.id, before[rec.id := rec], data + Cell(block))
    ensures Ingested(setup.prims, before, [chunk], before[rec.id := rec])
  {
    hide Sound, StoredForm, Protect, RecordedAs, Cell, Ingested;
    StoredIsRecorded(setup, nonce, chunk, rec, block);
    IngestedOne(setup.prims, before, chunk, before[rec.id := rec]);
    CellLength(block);
  }

  lemma StoredIsRecorded(setup: Setup, nonce: Nonce, chunk: Bytes, rec: ChunkRecord, block: Bytes)
    requires Sound(setup.prims) && StoredForm(setup.prims, chunk, setup.prims.probe(chunk)).Ok?
    requires var id := setup.prims.chunkId(chunk);
             var (payload, raw) := StoredForm(setup.prims, chunk, setup.prims.probe(chunk)).value;
             && block == Protect(setup, nonce, rec.blockIndex, id, payload)
             && rec == ChunkRecord(id, rec.blockIndex, rec.dataOffset, |block|, |chunk|, |payload|,
                                   setup.prims.blockHash(block), raw)
    ensures RecordedAs(setup, chunk, rec)
  {
    var p := setup.prims;
    var (payload, raw) := StoredForm(p, chunk, p.probe(chunk)).value;
    assert |p.seal(nonce, rec.blockIndex, rec.id, payload)| == |payload| + SEAL_OVERHEAD;
  }

  ghost function IdsOf(p: Primitives, blocks: seq<Bytes>): set<ChunkId> {
    set c | c in blocks :: p.chunkId(c)
  }

  /** The store has gained exactly these chunks, each once however often it comes, and nothing in it has changed. */
  ghost predicate Ingested(p: Primitives, before: Records, blocks: seq<Bytes>, after: Records) {
    && after.Keys == before.Keys + IdsOf(p, blocks)
    && forall id :: id in before && id in after ==> after[id] == before[id]
  }

  lemma IngestedNone(p: Primitives, chunks: Records)
    ensures Ingested(p, chunks, [], chunks)
  {
  }

  lemma IngestedOne(p: Primitives, before: Records, chunk: Bytes, after: Records)
    requires after.Keys == before.Keys + {p.chunkId(chunk)} && forall id :: id in before && id in after ==> after[id] == before[id]
    ensures Ingested(p, before, [chunk], after)
  {
    assert IdsOf(p, [chunk]) == {p.chunkId(chunk)};
  }

  lemma IngestedThen(p: Primitives, before: Records, a: seq<Bytes>, mid: Records, b: seq<Bytes>, after: Records)
    requires Ingested(p, before, a, mid) && Ingested(p, mid, b, after)
    ensures Ingested(p, before, a + b, after)
  {
    assert IdsOf(p, a + b) == IdsOf(p, a) + IdsOf(p, b);
  }

  lemma StorableParts(p: Primitives, a: seq<Bytes>, b: seq<Bytes>)
    ensures AllStorable(p, a + b) <==> AllStorable(p, a) && AllStorable(p, b)
  {
    assert forall c :: c in a + b <==> c in a || c in b;
  }

  lemma NotStorable(p: Primitives, blocks: seq<Bytes>, chunk: Bytes)
    requires chunk in blocks && !CanStore(p, chunk)
    ensures !AllStorable(p, blocks)
  {
  }

  // ---- whole files --------------------------------------------------------

  /** The chunks of a file under the vault's bounds. */
  function FileBlocks(setup: Setup, content: Bytes): seq<Bytes> {
    if setup.EffectiveBounds().Err? then [] else
      EffectiveBoundsFit(setup);
      Chunks(setup.CutterFor(setup.EffectiveBounds().value), content)
  }

  function LargeBlocks(setup: Setup, files: seq<SmallFile>): seq<Bytes> {
    if files == [] then []
    else LargeBlocks(setup, files[..|files| - 1]) + FileBlocks(setup, files[|files| - 1].bytes)
  }

  lemma LargeBlocksSnoc(setup: Setup, files: seq<SmallFile>, f: SmallFile)
    ensures LargeBlocks(setup, files + [f]) == LargeBlocks(setup, files) + FileBlocks(setup, f.bytes)
  {
    assert (files + [f])[..|files|] == files;
  }

  lemma NoLargeBlocks(setup: Setup)
    ensures LargeBlocks(setup, []) == []
  {
  }

  lemma {:induction false} LargeBlocksOf(setup: Setup, files: seq<SmallFile>, i: nat)
    requires i <= |files|
    ensures !AllStorable(setup.prims, LargeBlocks(setup, files[..i])) ==> !AllStorable(setup.prims, LargeBlocks(setup, files))
    decreases |files| - i
  {
    hide FileBlocks, AllStorable;
    if i < |files| {
      assert files[..i + 1] == files[..i] + [files[i]];
      LargeBlocksSnoc(setup, files[..i], files[i]);
      StorableParts(setup.prims, LargeBlocks(setup, files[..i]), FileBlocks(setup, files[i].bytes));
      LargeBlocksOf(setup, files, i + 1);
    } else {
      assert files[..i] == files;
    }
  }

  lemma NothingToStore(p: Primitives, cutter: Cutter, chunks: Records)
    requires cutter.Usable()
    ensures Chunks(cutter, PackOf([]).data) == [] && Ingested(p, chunks, [], chunks)
  {
    IngestedNone(p, chunks);
  }

  // ---- packs --------------------------------------------------------------

  /** The chunks of packs, pack by pack. */
  function PackBlocks(cutter: Cutter, packs: seq<seq<SmallFile>>): seq<Bytes>
    requires cutter.Usable()
  {
    if packs == [] then []
    else PackBlocks(cutter, packs[..|packs| - 1]) + Chunks(cutter, PackOf(packs[|packs| - 1]).data)
  }

  lemma PackBlocksSnoc(cutter: Cutter, packs: seq<seq<SmallFile>>, pack: seq<SmallFile>)
    requires cutter.Usable()
    ensures PackBlocks(cutter, packs + [pack]) == PackBlocks(cutter, packs) + Chunks(cutter, PackOf(pack).data)
  {
    assert (packs + [pack])[..|packs|] == packs;
  }

  lemma {:induction false} PackInBlocks(p: Primitives, cutter: Cutter, packs: seq<seq<SmallFile>>, i: nat)
    requires cutter.Usable() && i < |packs| && !AllStorable(p, Chunks(cutter, PackOf(packs[i]).data))
    ensures !AllStorable(p, PackBlocks(cutter, packs))
    decreases |packs|
  {
    hide AllStorable, Chunks, PackOf;
    var n := |packs| - 1;
    StorableParts(p, PackBlocks(cutter, packs[..n]), Chunks(cutter, PackOf(packs[n]).data));
    if i < n {
      PackInBlocks(p, cutter, packs[..n], i);
    }
  }

  /** The chunks of sorted files, packed. */
  function SortedBlocks(cutter: Cutter, sorted: seq<SmallFile>): seq<Bytes>
    requires cutter.Usable()
  {
    PackBlocks(cutter, Batches([], sorted))
  }

  /** Where the packing of sorted files stands: the packs closed so far are stored, and the one in progress and the files from
      `i` on make the rest. */
  ghost predicate PackedSoFar(p: Primitives, cutter: Cutter, before: Records, sorted: seq<SmallFile>, i: nat, open: seq<SmallFile>,
                              closed: seq<seq<SmallFile>>, chunks: Records)
    requires cutter.Usable() && i <= |sorted|
  {
    && Batches([], sorted) == closed + Batches(open, sorted[i..])
    && Ingested(p, before, PackBlocks(cutter, closed), chunks)
  }

  lemma PackedNothing(p: Primitives, cutter: Cutter, sorted: seq<SmallFile>, chunks: Records)
    requires cutter.Usable()
    ensures PackedSoFar(p, cutter, chunks, sorted, 0, [], [], chunks)
  {
    hide Ingested;
    IngestedNone(p, chunks);
    assert sorted[0..] == sorted && [] + Batches([], sorted) == Batches([], sorted);
  }

  /** The pack `grown` closes before file `i`. */
  ghost predicate Closes(sorted: seq<SmallFile>, i: nat, grown: seq<SmallFile>, closed: seq<seq<SmallFile>>)
    requires i <= |sorted|
  {
    Batches([], sorted) == closed + [grown] + Batches([], sorted[i..])
  }

  /** One more file joins the pack in progress, which closes if that brings it to the target size. */
  lemma PackedNext(p: Primitives, cutter: Cutter, before: Records, sorted: seq<SmallFile>, i: nat, open: seq<SmallFile>,
                   closed: seq<seq<SmallFile>>, chunks: Records)
    requires cutter.Usable() && i < |sorted| && PackedSoFar(p, cutter, before, sorted, i, open, closed, chunks)
    ensures var grown := open + [sorted[i]];
            if Size(grown) < PACK_TARGET then PackedSoFar(p, cutter, before, sorted, i + 1, grown, closed, chunks)
            else Closes(sorted, i + 1, grown, closed) && Ingested(p, before, PackBlocks(cutter, closed), chunks)
  {
    hide Ingested, Size;
    assert sorted[i..][1..] == sorted[i + 1..];
    var grown := open + [sorted[i]];
    if Size(grown) >= PACK_TARGET {
      assert closed + ([grown] + Batches([], sorted[i + 1..])) == closed + [grown] + Batches([], sorted[i + 1..]);
    }
  }

  /** The last pack closes where the files end. */
  lemma PackedLast(p: Primitives, cutter: Cutter, before: Records, sorted: seq<SmallFile>, open: seq<SmallFile>,
                   closed: seq<seq<SmallFile>>, chunks: Records)
    requires cutter.Usable() && PackedSoFar(p, cutter, before, sorted, |sorted|, open, closed, chunks)
    ensures if open == [] then Ingested(p, before, SortedBlocks(cutter, sorted), chunks)
            else Closes(sorted, |sorted|, open, closed) && Ingested(p, before, PackBlocks(cutter, closed), chunks)
  {
    hide Ingested;
    assert sorted[|sorted|..] == [];
    var none: seq<SmallFile> := [];
    assert Batches(none, none) == [];
    if open == [] {
      assert closed + [] == closed;
    } else {
      assert closed + [open] == closed + [open] + [];
    }
  }

  /** A pack that closes is stored, */
  lemma PackedPack(p: Primitives, cutter: Cutter, before: Records, sorted: seq<SmallFile>, i: nat, grown: seq<SmallFile>,
                   closed: seq<seq<SmallFile>>, mid: Records, chunks: Records)
    requires cutter.Usable() && i <= |sorted| && Closes(sorted, i, grown, closed)
    requires Ingested(p, before, PackBlocks(cutter, closed), mid) && Ingested(p, mid, Chunks(cutter, PackOf(grown).data), chunks)
    ensures PackedSoFar(p, cutter, before, sorted, i, [], closed + [grown], chunks)
  {
    hide Ingested, Chunks, PackOf;
    IngestedThen(p, before, PackBlocks(cutter, closed), mid, Chunks(cutter, PackOf(grown).data), chunks);
    PackBlocksSnoc(cutter, closed, grown);
  }

  /** or cannot be. */
  lemma PackNotStored(p: Primitives, cutter: Cutter, sorted: seq<SmallFile>, i: nat, grown: seq<SmallFile>, closed: seq<seq<SmallFile>>)
    requires cutter.Usable() && i <= |sorted| && Closes(sorted, i, grown, closed)
    requires !AllStorable(p, Chunks(cutter, PackOf(grown).data))
    ensures !AllStorable(p, SortedBlocks(cutter, sorted))
  {
    hide AllStorable, Chunks, PackOf;
    assert (closed + [grown] + Batches([], sorted[i..]))[|closed|] == grown;
    PackInBlocks(p, cutter, Batches([], sorted), |closed|);
  }
}
