/** What scrubbing and repair mean for a vault that was healthy before it was damaged. */
module VaultRepairGuarantees {
  import opened Wrappers
  import opened ByteSeqs
  import opened VaultTypes
  import opened Stores
  import opened ErasureCode
  import opened EcPayloads
  import opened Reconstruction
  import opened ParityRepair
  import opened VaultRepair
  import EC = ErrorCorrection

  lemma InOrder(setup: Setup, order: seq<ChunkId>, ledger: Ledger, chunks: Records, data: Bytes, i: nat)
    requires StoreOk(setup, order, ledger, chunks, data) && i < |order|
    ensures order[i] in chunks && order[i] in ledger
    ensures var rec, block := chunks[order[i]], ledger[order[i]].block;
            && rec.blockLen == |block| < U64_LIMIT && rec.cipherHash == setup.prims.blockHash(block)
            && rec.dataOffset == |Flatten(Cells(order, ledger)[..i])|
            && Cells(order, ledger)[i] == Cell(block)
            && data == Flatten(Cells(order, ledger))
  {
    hide Cell, Flatten, DecodeBlock;
    assert order[i] in order;
    assert Cells(order, ledger)[..i] == Cells(order[..i], ledger);
    assert OffsetIn(chunks, order[i]) == |DataOf(order[..i], ledger)|;
    assert Describes(setup, order[i], chunks[order[i]], ledger[order[i]].plain, ledger[order[i]].block);
  }

  // ---- the protected stream is the data section ---------------------------

  lemma LiveCellIs(setup: Setup, order: seq<ChunkId>, ledger: Ledger, chunks: Records, data: Bytes, i: nat)
    requires StoreOk(setup, order, ledger, chunks, data) && i < |order|
    ensures order[i] in chunks && LiveCell(data, chunks[order[i]]) == Cells(order, ledger)[i]
  {
    hide Flatten, StoreOk, Cells;
    InOrder(setup, order, ledger, chunks, data, i);
    CellsCount(order, ledger);
    FlattenPart(Cells(order, ledger), i);
  }

  lemma CellsCount(order: seq<ChunkId>, ledger: Ledger)
    ensures |Cells(order, ledger)| == |order|
  {
  }

  /** The blocks parity is computed over are, end to end, the whole data section. */
  lemma ProtectedStreamIsData(setup: Setup, order: seq<ChunkId>, ledger: Ledger, chunks: Records, data: Bytes,
                              byOffset: seq<ChunkId>, blocks: seq<Bytes>)
    requires StoreOk(setup, order, ledger, chunks, data) && ByOffset(byOffset, chunks) && |blocks| == |byOffset|
    requires forall i :: 0 <= i < |byOffset| ==>
               byOffset[i] in chunks && blocks[i] == LiveCell(data, chunks[byOffset[i]])
    ensures byOffset == order && Flatten(blocks) == data
  {
    hide Flatten, LiveCell, Cell;
    assert byOffset == order by {
      OffsetsFollowIndices(setup, order, ledger, chunks, data, byOffset);
    }
    forall i: nat | i < |order|
      ensures blocks[i] == Cells(order, ledger)[i]
    {
      LiveCellIs(setup, order, ledger, chunks, data, i);
    }
    assert blocks == Cells(order, ledger);
  }

  /** A healthy vault scrubs clean. */
  lemma HealthyIsIntact(setup: Setup, order: seq<ChunkId>, ledger: Ledger, chunks: Records, data: Bytes)
    requires StoreOk(setup, order, ledger, chunks, data)
    ensures AllIntact(setup.prims.blockHash, data, chunks)
  {
    hide Flatten, Intact, Cells, WellPlaced, IndexOrder, Described;
    forall id | id in chunks
      ensures Intact(setup.prims.blockHash, data, chunks[id])
    {
      var i :| 0 <= i < |order| && order[i] == id;
      InOrder(setup, order, ledger, chunks, data, i);
      CellsCount(order, ledger);
      FlattenPart(Cells(order, ledger), i);
      CellMatches(setup.prims.blockHash, ledger[id].block, chunks[id]);
      BlockInPlace(setup.prims.blockHash, data, Cell(ledger[id].block), chunks[id]);
    }
  }

  lemma CellMatches(hash: Hash, block: Bytes, rec: ChunkRecord)
    requires rec.blockLen == |block| < U64_LIMIT && rec.cipherHash == hash(block)
    ensures Matches(hash, Cell(block), rec) && |Cell(block)| == 8 + rec.blockLen
  {
    hide Le, Val;
    Le8(|block|);
    assert Cell(block)[..8] == Le(|block|, 8) && Cell(block)[8..] == block;
  }

  // ---- damage and repair --------------------------------------------------

  /** The data section cut or zero-padded to `n` bytes. */
  function Resized(data: Bytes, n: nat): (d: Bytes)
    ensures |d| == n
  {
    if |data| >= n then data[..n] else data + Zeros(n - |data|)
  }

  /** In a sound vault the protected stream is the data section. */
  lemma LiveStreamIsData(setup: Setup, order: seq<ChunkId>, ledger: Ledger, chunks: Records, data: Bytes, byOffset: seq<ChunkId>)
    requires StoreOk(setup, order, ledger, chunks, data) && ByOffset(byOffset, chunks)
    ensures LiveStream(data, chunks, byOffset) == data
  {
    hide StoreOk, LiveCell;
    forall i: nat | i < |byOffset|
      ensures byOffset[i] in chunks
    {
      assert byOffset[i] in byOffset;
    }
    ProtectedStreamIsData(setup, order, ledger, chunks, data, byOffset, LiveCells(data, chunks, byOffset));
  }

  /** The padded cells are the damaged data section at its old length. */
  lemma PaddedStream(setup: Setup, order: seq<ChunkId>, ledger: Ledger, chunks: Records, original: Bytes, data: Bytes)
    requires StoreOk(setup, order, ledger, chunks, original)
    ensures forall i :: 0 <= i < |order| ==> order[i] in chunks
    ensures SameLengths(PaddedCells(data, chunks, order), Cells(order, ledger))
    ensures Flatten(PaddedCells(data, chunks, order)) == Resized(data, |original|)
  {
    hide Flatten, Cells, StoreOk, PaddedCell, Resized, Cell;
    CellsCount(order, ledger);
    var cells := Cells(order, ledger);
    forall i: nat | i < |order|
      ensures order[i] in chunks && |PaddedCell(data, chunks[order[i]])| == |cells[i]|
      ensures var o := |Flatten(cells[..i])|;
              && o + |cells[i]| <= |original|
              && PaddedCell(data, chunks[order[i]]) == Resized(data, |original|)[o..o + |cells[i]|]
    {
      InOrder(setup, order, ledger, chunks, original, i);
      FlattenPart(cells, i);
      CellMatches(setup.prims.blockHash, ledger[order[i]].block, chunks[order[i]]);
      PaddedIsSlice(data, |original|, chunks[order[i]]);
    }
    StoreData(setup, order, ledger, chunks, original);
    SlicesFlatten(cells, PaddedCells(data, chunks, order), Resized(data, |original|), |cells|);
    assert cells[..|cells|] == cells && PaddedCells(data, chunks, order)[..|cells|] == PaddedCells(data, chunks, order);
    assert Resized(data, |original|)[..|original|] == Resized(data, |original|);
  }

  lemma StoreData(setup: Setup, order: seq<ChunkId>, ledger: Ledger, chunks: Records, data: Bytes)
    requires StoreOk(setup, order, ledger, chunks, data)
    ensures data == Flatten(Cells(order, ledger))
  {
  }

  lemma PaddedIsSlice(data: Bytes, n: nat, rec: ChunkRecord)
    requires rec.dataOffset + 8 + rec.blockLen <= n
    ensures PaddedCell(data, rec) == Resized(data, n)[rec.dataOffset..rec.dataOffset + 8 + rec.blockLen]
  {
  }

  /** Slices of a stream along the lengths of `cells` flatten to the stream. */
  lemma {:induction false} SlicesFlatten(cells: seq<Bytes>, blocks: seq<Bytes>, x: Bytes, m: nat)
    requires m <= |cells| == |blocks| && |Flatten(cells)| == |x|
    requires forall i :: 0 <= i < |cells| ==>
               var o := |Flatten(cells[..i])|; o + |cells[i]| <= |x| && blocks[i] == x[o..o + |cells[i]|]
    ensures |Flatten(cells[..m])| <= |x| && Flatten(blocks[..m]) == x[..|Flatten(cells[..m])|]
  {
    if m == 0 {
      assert cells[..0] == [] && blocks[..0] == [];
    } else {
      hide Flatten;
      SlicesFlatten(cells, blocks, x, m - 1);
      FlattenSplit(cells, m - 1);
      FlattenSplit(blocks, m - 1);
      FlattenPart(cells, m - 1);
      var o, n := |Flatten(cells[..m - 1])|, |cells[m - 1]|;
      assert Flatten(cells[..m - 1 + 1]) == Flatten(cells[..m]) && Flatten(blocks[..m - 1 + 1]) == Flatten(blocks[..m]);
      assert x[..o] + x[o..o + n] == x[..o + n];
    }
  }

  /** Sequences of blocks with the same lengths and the same concatenation are the same. */
  lemma {:induction false} FlattenDetermines(a: seq<Bytes>, b: seq<Bytes>)
    requires SameLengths(a, b) && Flatten(a) == Flatten(b)
    ensures a == b
  {
    if a != [] {
      assert a[0] == Flatten(a)[..|a[0]|] == Flatten(b)[..|b[0]|] == b[0];
      assert Flatten(a[1..]) == Flatten(a)[|a[0]|..] && Flatten(b[1..]) == Flatten(b)[|b[0]|..];
      FlattenDetermines(a[1..], b[1..]);
      assert a == [a[0]] + a[1..] && b == [b[0]] + b[1..];
    }
  }

  /** The cells of a healthy vault verify, and relocating their records moves nothing. */
  lemma OwnCells(setup: Setup, order: seq<ChunkId>, ledger: Ledger, chunks: Records, data: Bytes)
    requires StoreOk(setup, order, ledger, chunks, data)
    ensures |Cells(order, ledger)| == |order| && forall i :: 0 <= i < |order| ==> order[i] in chunks
    ensures AllVerified(setup.prims.blockHash, Cells(order, ledger), chunks, order)
    ensures Relocated(chunks, order, Cells(order, ledger)) == chunks
  {
    hide Flatten, Cell, Matches, Relocated, Described, WellPlaced;
    var cells := Cells(order, ledger);
    forall i: nat | i < |order|
      ensures order[i] in chunks && Matches(setup.prims.blockHash, cells[i], chunks[order[i]])
      ensures chunks[order[i]].dataOffset == |Flatten(cells[..i])|
    {
      InOrder(setup, order, ledger, chunks, data, i);
      CellMatches(setup.prims.blockHash, ledger[order[i]].block, chunks[order[i]]);
    }
    RelocatedAt(chunks, order, cells);
    var moved := Relocated(chunks, order, cells);
    forall id | id in order
      ensures moved[id] == chunks[id]
    {
      var i :| 0 <= i < |order| && order[i] == id;
      assert chunks[order[i]].(dataOffset := |Flatten(cells[..i])|) == chunks[order[i]];
    }
    assert moved.Keys == chunks.Keys;
  }

  /** A vault that was healthy, and whose data section was then damaged or cut short, is repaired to
      exactly what it was: parity made for the old data section whose matching shards are original,
      with every group that holds a shard no longer original within budget. */
  lemma VaultRestored(e: EC.Engine, setup: Setup, order: seq<ChunkId>, ledger: Ledger, chunks: Records, original: Bytes,
                      data: Bytes, payload: Bytes, chunks1: Records, data1: Bytes, r: Result<nat, EcError>,
                      byOffset: seq<ChunkId>, fixed: seq<Bytes>, n: Result<nat, EcError>)
    requires EC.EngineOk(e) && StoreOk(setup, order, ledger, chunks, original)
    requires payload != [] && Accepted(payload, |original|).Ok?
    requires var pl := Accepted(payload, |original|).value;
             && AnyKDetermine(e.code, pl.geo.k, pl.geo.p)
             && Truthful(e, pl, Resized(data, |original|), original)
             && Mendable(e, pl, Resized(data, |original|), original)
    requires ByOffset(byOffset, chunks)
    requires VaultOutcome(e, setup.prims.blockHash, payload, chunks, data, false, chunks1, data1, r, byOffset, fixed, n)
    ensures r.Ok? && data1 == original && chunks1 == chunks
  {
    hide Flatten, StoreOk, Mendable, AnyKDetermine, EC.EngineOk, Truthful, Resized, Repaired, Recovered,
      AllVerified, Relocated, PaddedCells, Accepted, KnownDamaged, Cells, SameLengths;
    SameOrder(setup, order, ledger, chunks, original, byOffset);
    PaddedStream(setup, order, ledger, chunks, original, data);
    OwnCells(setup, order, ledger, chunks, original);
    StoreData(setup, order, ledger, chunks, original);
    var cells, pl := PaddedCells(data, chunks, order), Accepted(payload, |original|).value;
    AcceptedUsable(payload, |original|);
    RepairRestores(e, pl, Resized(data, |original|), original, Flatten(fixed));
    SameLengthsChain(fixed, cells, Cells(order, ledger));
    FlattenDetermines(fixed, Cells(order, ledger));
  }

  lemma SameOrder(setup: Setup, order: seq<ChunkId>, ledger: Ledger, chunks: Records, data: Bytes, byOffset: seq<ChunkId>)
    requires StoreOk(setup, order, ledger, chunks, data) && ByOffset(byOffset, chunks)
    ensures byOffset == order
  {
    OffsetsFollowIndices(setup, order, ledger, chunks, data, byOffset);
  }

  lemma SameLengthsChain(a: seq<Bytes>, b: seq<Bytes>, c: seq<Bytes>)
    requires SameLengths(a, b) && SameLengths(b, c)
    ensures SameLengths(a, c)
  {
  }

  lemma AcceptedUsable(payload: Bytes, total: nat)
    requires Accepted(payload, total).Ok?
    ensures Usable(Accepted(payload, total).value)
  {
    hide WellFormed;
    ForStreamIsWellFormed(payload, total);
  }
}
