/** Scrubbing a stored vault for damaged blocks, and repairing them from parity. */
module VaultRepair {
  import opened Wrappers
  import opened ByteSeqs
  import opened VaultTypes
  import opened Stores
  import opened EcPayloads
  import opened ParityRepair
  import opened Sidecars
  import EC = ErrorCorrection

  /** A manifest's records and a data section, either of them possibly damaged. */
  class StoredVault {
    var chunks: Records
    var data: Bytes

    constructor (c: Records, d: Bytes)
      ensures chunks == c && data == d
    {
      chunks, data := c, d;
    }
  }

  // ---- where parity comes from --------------------------------------------

  datatype ParitySource = Explicit | Detached | Embedded

  const DATA_SEGMENT: nat := 2

  function SidecarParity(sc: Sidecar, role: nat): Bytes {
    if role < |sc.segments| then sc.segments[role].avec else []
  }

  /** A named recovery file first, then the sidecar beside the vault, then the embedded payload.
      A file that is there but does not parse is an error. */
  function ResolveParity(h: Hashes, named: Option<Bytes>, beside: Option<Bytes>, embedded: Option<Bytes>)
    : Result<Option<(Bytes, ParitySource)>, SidecarError>
  {
    if named.Some? then
      var sc := ReadSidecar(h, named.value);
      if sc.Err? then Err(sc.error) else Ok(Some((SidecarParity(sc.value, DATA_SEGMENT), Explicit)))
    else if beside.Some? then
      var sc := ReadSidecar(h, beside.value);
      if sc.Err? then Err(sc.error) else Ok(Some((SidecarParity(sc.value, DATA_SEGMENT), Detached)))
    else if embedded.Some? && embedded.value != [] then Ok(Some((embedded.value, Embedded)))
    else Ok(None)
  }

  /** What comes first decides alone: a named file whatever else there is, then the sidecar whatever is embedded; and a file that
      does not parse is an error even where something else could serve. */
  lemma ParityPrecedence(h: Hashes, file: Bytes, beside: Option<Bytes>, embedded: Option<Bytes>)
    ensures ReadSidecar(h, file).Err? ==>
              && ResolveParity(h, Some(file), beside, embedded) == Err(ReadSidecar(h, file).error)
              && ResolveParity(h, None, Some(file), embedded) == Err(ReadSidecar(h, file).error)
    ensures ReadSidecar(h, file).Ok? ==>
              var segs := ReadSidecar(h, file).value.segments;
              var parity := if |segs| < 3 then [] else segs[2].avec;
              && ResolveParity(h, Some(file), beside, embedded) == Ok(Some((parity, Explicit)))
              && ResolveParity(h, None, Some(file), embedded) == Ok(Some((parity, Detached)))
    ensures ResolveParity(h, None, None, Some(file)) == Ok(if file == [] then None else Some((file, Embedded)))
    ensures ResolveParity(h, None, None, None) == Ok(None)
  {
    hide ReadSidecar;
  }

  // ---- scrubbing ----------------------------------------------------------

  type Hash = Bytes -> Digest

  /** The record's block is in the data section with the recorded length and hash. */
  predicate Intact(hash: Hash, data: Bytes, rec: ChunkRecord) {
    var start := rec.dataOffset + 8;
    && start <= |data|
    && Val(data[rec.dataOffset..start]) == rec.blockLen
    && start + rec.blockLen <= |data|
    && hash(data[start..start + rec.blockLen]) == rec.cipherHash
  }

  predicate AllIntact(hash: Hash, data: Bytes, chunks: Records) {
    forall id :: id in chunks ==> Intact(hash, data, chunks[id])
  }

  /** A listing of the records by data offset. */
  ghost predicate ByOffset(order: seq<ChunkId>, chunks: Records) {
    && NoDuplicates(order)
    && (forall id :: id in order <==> id in chunks)
    && forall i, j :: 0 <= i < j < |order| ==> OffsetIn(chunks, order[i]) <= OffsetIn(chunks, order[j])
  }

  /** The records of `order` whose blocks are not intact. */
  function DamagedIn(hash: Hash, data: Bytes, chunks: Records, order: seq<ChunkId>): seq<ChunkRecord>
    requires forall id :: id in order ==> id in chunks
  {
    if order == [] then []
    else
      var last := order[|order| - 1];
      var front := DamagedIn(hash, data, chunks, order[..|order| - 1]);
      if Intact(hash, data, chunks[last]) then front else front + [chunks[last]]
  }

  lemma {:induction false} NoneDamaged(hash: Hash, data: Bytes, chunks: Records, order: seq<ChunkId>)
    requires forall id :: id in order ==> id in chunks
    ensures DamagedIn(hash, data, chunks, order) == [] <==> forall id :: id in order ==> Intact(hash, data, chunks[id])
  {
    hide Intact;
    if order != [] {
      NoneDamaged(hash, data, chunks, order[..|order| - 1]);
      assert order == order[..|order| - 1] + [order[|order| - 1]];
    }
  }

  method SortByOffset(chunks: Records) returns (order: seq<ChunkId>)
    ensures ByOffset(order, chunks)
  {
    order := SortIds(chunks.Keys, id => OffsetIn(chunks, id));
  }

  /** The damaged records in data-section order. */
  method Scrub(hash: Hash, vault: StoredVault) returns (damaged: seq<ChunkRecord>, ghost order: seq<ChunkId>)
    ensures ByOffset(order, vault.chunks) && damaged == DamagedIn(hash, vault.data, vault.chunks, order)
    ensures damaged == [] <==> AllIntact(hash, vault.data, vault.chunks)
  {
    hide Intact;
    var sorted := SortByOffset(vault.chunks);
    order := sorted;
    damaged := [];
    for i := 0 to |sorted|
      invariant damaged == DamagedIn(hash, vault.data, vault.chunks, sorted[..i])
    {
      assert sorted[..i + 1][..i] == sorted[..i];
      var rec := vault.chunks[sorted[i]];
      var bad := IsDamaged(hash, vault.data, rec);
      if bad {
        damaged := damaged + [rec];
      }
    }
    assert sorted[..|sorted|] == sorted;
    NoneDamaged(hash, vault.data, vault.chunks, sorted);
  }

  /** Checks the length prefix, the range, the recorded length, and the hash, in that order. */
  method IsDamaged(hash: Hash, data: Bytes, rec: ChunkRecord) returns (bad: bool)
    ensures bad == !Intact(hash, data, rec)
  {
    var lenEnd := rec.dataOffset + 8;
    if lenEnd > |data| {
      return true;
    }
    var stored := Val(data[rec.dataOffset..lenEnd]);
    if lenEnd + stored > |data| {
      return true;
    }
    if stored != rec.blockLen {
      return true;
    }
    bad := hash(data[lenEnd..lenEnd + stored]) != rec.cipherHash;
  }

  // ---- the protected stream -----------------------------------------------

  /** The cell a record points at, or nothing when it is out of range. */
  function LiveCell(data: Bytes, rec: ChunkRecord): Bytes {
    var end := rec.dataOffset + 8 + rec.blockLen;
    if end <= |data| then data[rec.dataOffset..end] else []
  }

  function LiveCells(data: Bytes, chunks: Records, order: seq<ChunkId>): seq<Bytes> {
    seq(|order|, i requires 0 <= i < |order| => if order[i] in chunks then LiveCell(data, chunks[order[i]]) else [])
  }

  /** The stream parity protects: the cells of the records in that order. */
  function LiveStream(data: Bytes, chunks: Records, order: seq<ChunkId>): Bytes {
    Flatten(LiveCells(data, chunks, order))
  }

  /** The blocks parity is computed over, in data-section order. */
  method CollectLiveBlocks(chunks: Records, data: Bytes) returns (blocks: seq<Bytes>, ghost order: seq<ChunkId>)
    ensures ByOffset(order, chunks) && |blocks| == |order|
    ensures forall i :: 0 <= i < |order| ==> order[i] in chunks && blocks[i] == LiveCell(data, chunks[order[i]])
    ensures blocks == LiveCells(data, chunks, order)
  {
    hide LiveCell;
    var sorted := SortByOffset(chunks);
    order := sorted;
    blocks := [];
    for i := 0 to |sorted|
      invariant |blocks| == i
      invariant forall j :: 0 <= j < i ==> sorted[j] in chunks && blocks[j] == LiveCell(data, chunks[sorted[j]])
    {
      assert sorted[i] in sorted;
      blocks := blocks + [LiveCell(data, chunks[sorted[i]])];
    }
  }

  /** The cell a record points at, padded with zeros where the data section has ended. */
  function PaddedCell(data: Bytes, rec: ChunkRecord): (cell: Bytes)
    ensures |cell| == 8 + rec.blockLen
  {
    var start, full := rec.dataOffset, 8 + rec.blockLen;
    var avail := if start < |data| then Min(|data| - start, full) else 0;
    (if start < |data| then data[start..start + avail] else []) + Zeros(full - avail)
  }

  function PaddedCells(data: Bytes, chunks: Records, order: seq<ChunkId>): seq<Bytes>
    requires forall i :: 0 <= i < |order| ==> order[i] in chunks
  {
    seq(|order|, i requires 0 <= i < |order| => PaddedCell(data, chunks[order[i]]))
  }

  // ---- what a repair writes -----------------------------------------------

  /** A block that is its own length prefix and a body with the recorded length and hash. */
  predicate BlockVerified(hash: Hash, block: Bytes, blockLen: nat, cipherHash: Digest) {
    && |block| >= 8
    && |block| == 8 + Val(block[..8])
    && Val(block[..8]) == blockLen
    && hash(block[8..]) == cipherHash
  }

  predicate Matches(hash: Hash, block: Bytes, rec: ChunkRecord) {
    BlockVerified(hash, block, rec.blockLen, rec.cipherHash)
  }

  predicate AllVerified(hash: Hash, blocks: seq<Bytes>, chunks: Records, order: seq<ChunkId>)
    requires |blocks| == |order| && forall i :: 0 <= i < |order| ==> order[i] in chunks
  {
    forall i :: 0 <= i < |order| ==> Matches(hash, blocks[i], chunks[order[i]])
  }

  /** The records of `order`, each moved to where its block lands. */
  function Relocated(chunks: Records, order: seq<ChunkId>, blocks: seq<Bytes>): Records
    requires |blocks| == |order| && forall i :: 0 <= i < |order| ==> order[i] in chunks
  {
    if order == [] then map[]
    else
      var n := |order| - 1;
      Relocated(chunks, order[..n], blocks[..n])[order[n] := chunks[order[n]].(dataOffset := |Flatten(blocks[..n])|)]
  }

  lemma {:induction false} RelocatedAt(chunks: Records, order: seq<ChunkId>, blocks: seq<Bytes>)
    requires |blocks| == |order| && forall i :: 0 <= i < |order| ==> order[i] in chunks
    requires NoDuplicates(order)
    ensures forall id :: id in Relocated(chunks, order, blocks) <==> id in order
    ensures forall i :: 0 <= i < |order| ==>
              Relocated(chunks, order, blocks)[order[i]] == chunks[order[i]].(dataOffset := |Flatten(blocks[..i])|)
  {
    hide Flatten;
    if order != [] {
      var n := |order| - 1;
      var front := order[..n];
      assert order == front + [order[n]];
      RelocatedAt(chunks, front, blocks[..n]);
      forall i | 0 <= i < |order|
        ensures Relocated(chunks, order, blocks)[order[i]] == chunks[order[i]].(dataOffset := |Flatten(blocks[..i])|)
      {
        if i < n {
          assert front[i] == order[i] && blocks[..n][..i] == blocks[..i];
          assert order[i] != order[n];
        }
      }
    }
  }

  /** Records that differ in nothing but where their blocks are. */
  ghost predicate OnlyOffsetsDiffer(a: Records, b: Records) {
    a.Keys == b.Keys && forall id :: id in a ==> a[id].(dataOffset := 0) == b[id].(dataOffset := 0)
  }

  /** Verified blocks, laid end to end with their records relocated, are a vault with no damage. */
  lemma VerifiedIsIntact(hash: Hash, chunks: Records, order: seq<ChunkId>, blocks: seq<Bytes>)
    requires |blocks| == |order| && (forall i :: 0 <= i < |order| ==> order[i] in chunks)
    requires NoDuplicates(order) && (forall id :: id in order <==> id in chunks)
    requires AllVerified(hash, blocks, chunks, order)
    ensures AllIntact(hash, Flatten(blocks), Relocated(chunks, order, blocks))
    ensures OnlyOffsetsDiffer(chunks, Relocated(chunks, order, blocks))
  {
    hide Flatten, BlockVerified, Relocated, Intact;
    RelocatedAt(chunks, order, blocks);
    var moved := Relocated(chunks, order, blocks);
    forall id | id in order
      ensures Intact(hash, Flatten(blocks), moved[id]) && moved[id].(dataOffset := 0) == chunks[id].(dataOffset := 0)
    {
      var i :| 0 <= i < |order| && order[i] == id;
      FlattenPart(blocks, i);
      assert Matches(hash, blocks[i], chunks[order[i]]);
      BlockInPlace(hash, Flatten(blocks), blocks[i], moved[id]);
    }
    assert moved.Keys == chunks.Keys;
  }

  lemma BlockInPlace(hash: Hash, data: Bytes, block: Bytes, rec: ChunkRecord)
    requires Matches(hash, block, rec)
    requires rec.dataOffset + |block| <= |data| && data[rec.dataOffset..rec.dataOffset + |block|] == block
    ensures Intact(hash, data, rec)
  {
    var o := rec.dataOffset;
    assert data[o..o + 8] == block[..8];
    assert data[o + 8..o + |block|] == block[8..];
  }

  // ---- repair -------------------------------------------------------------

  /** What a repair of a vault returns and leaves. `fixed` and `n` are what reconstruction made of the
      padded cells, in the order `order`. */
  ghost predicate VaultOutcome(e: EC.Engine, hash: Hash, payload: Bytes, chunks: Records, data: Bytes, dryRun: bool,
                               chunks1: Records, data1: Bytes, r: Result<nat, EcError>,
                               order: seq<ChunkId>, fixed: seq<Bytes>, n: Result<nat, EcError>)
    requires ByOffset(order, chunks)
  {
    && Reconstructed(e, payload, PaddedCells(data, chunks, order), fixed, n)
    && (if n.Err? then r == Err(n.error) && chunks1 == chunks && data1 == data
        else if |fixed| != |order| || !AllVerified(hash, fixed, chunks, order)
        then r == Ok(0) && chunks1 == chunks && data1 == data
        else
          && r == Ok(|KnownDamaged(hash, data, chunks)|)
          && (if dryRun then chunks1 == chunks && data1 == data
              else chunks1 == Relocated(chunks, order, fixed) && data1 == Flatten(fixed)))
  }

  ghost predicate Reconstructed(e: EC.Engine, payload: Bytes, cells: seq<Bytes>, fixed: seq<Bytes>, n: Result<nat, EcError>) {
    SameLengths(fixed, cells) && RepairOutcome(e, payload, Flatten(cells), Flatten(fixed), n)
  }

  /** The records listed under their own ids. */
  function Known(chunks: Records, recs: seq<ChunkRecord>): nat {
    if recs == [] then 0
    else Known(chunks, recs[..|recs| - 1]) + if recs[|recs| - 1].id in chunks then 1 else 0
  }

  /** The ids of the damaged records that are listed under their own ids. */
  function KnownDamaged(hash: Hash, data: Bytes, chunks: Records): set<ChunkId> {
    set id | id in chunks && Counted(hash, data, chunks, id)
  }

  predicate Counted(hash: Hash, data: Bytes, chunks: Records, id: ChunkId) {
    id in chunks && !Intact(hash, data, chunks[id]) && chunks[id].id in chunks
  }

  lemma KnownStep(hash: Hash, data: Bytes, chunks: Records, front: seq<ChunkId>, last: ChunkId)
    requires (forall id :: id in front ==> id in chunks) && last in chunks
    ensures Known(chunks, DamagedIn(hash, data, chunks, front + [last])) ==
            Known(chunks, DamagedIn(hash, data, chunks, front)) + if Counted(hash, data, chunks, last) then 1 else 0
  {
  }

  lemma {:induction false} KnownIn(hash: Hash, data: Bytes, chunks: Records, order: seq<ChunkId>)
    requires NoDuplicates(order) && forall id :: id in order ==> id in chunks
    ensures Known(chunks, DamagedIn(hash, data, chunks, order)) == |set id | id in order && Counted(hash, data, chunks, id)|
  {
    hide Counted, Known, DamagedIn;
    if order == [] {
      assert (set id | id in order && Counted(hash, data, chunks, id)) == {};
      assert Known(chunks, DamagedIn(hash, data, chunks, order)) == 0 by { KnownNothing(hash, data, chunks, order); }
    } else {
      var front, last := order[..|order| - 1], order[|order| - 1];
      assert order == front + [last] && last !in front;
      KnownIn(hash, data, chunks, front);
      KnownStep(hash, data, chunks, front, last);
      var before := set id | id in front && Counted(hash, data, chunks, id);
      var after := set id | id in order && Counted(hash, data, chunks, id);
      assert after == if Counted(hash, data, chunks, last) then before + {last} else before;
    }
  }

  lemma KnownNothing(hash: Hash, data: Bytes, chunks: Records, order: seq<ChunkId>)
    requires order == []
    ensures Known(chunks, DamagedIn(hash, data, chunks, order)) == 0
  {
  }

  lemma AllKnown(hash: Hash, data: Bytes, chunks: Records, order: seq<ChunkId>)
    requires ByOffset(order, chunks)
    ensures Known(chunks, DamagedIn(hash, data, chunks, order)) == |KnownDamaged(hash, data, chunks)|
  {
    hide Counted, Known, DamagedIn;
    KnownIn(hash, data, chunks, order);
    assert KnownDamaged(hash, data, chunks) == set id | id in order && Counted(hash, data, chunks, id);
  }

  method CountKnown(chunks: Records, recs: seq<ChunkRecord>) returns (n: nat)
    ensures n == Known(chunks, recs)
  {
    n := 0;
    for i := 0 to |recs|
      invariant n == Known(chunks, recs[..i])
    {
      assert recs[..i + 1][..i] == recs[..i];
      if recs[i].id in chunks {
        n := n + 1;
      }
    }
    assert recs[..|recs|] == recs;
  }

  method FetchCells(vault: StoredVault, order: seq<ChunkId>) returns (cells: array<Bytes>)
    requires forall i :: 0 <= i < |order| ==> order[i] in vault.chunks
    ensures fresh(cells) && cells.Length == |order| && cells[..] == PaddedCells(vault.data, vault.chunks, order)
  {
    hide PaddedCell;
    var data, chunks := vault.data, vault.chunks;
    cells := new Bytes[|order|](i requires 0 <= i < |order| && order[i] in chunks => PaddedCell(data, chunks[order[i]]));
  }

  method CheckBlocks(hash: Hash, blocks: seq<Bytes>, chunks: Records, order: seq<ChunkId>) returns (ok: bool)
    requires |blocks| == |order| && forall i :: 0 <= i < |order| ==> order[i] in chunks
    ensures ok == AllVerified(hash, blocks, chunks, order)
  {
    hide BlockVerified;
    for i := 0 to |order|
      invariant forall j :: 0 <= j < i ==> Matches(hash, blocks[j], chunks[order[j]])
    {
      if !Matches(hash, blocks[i], chunks[order[i]]) {
        return false;
      }
    }
    ok := true;
  }

  /** The new data section and records, built up block by block. */
  method Rebuild(hash: Hash, chunks: Records, order: seq<ChunkId>, blocks: seq<Bytes>)
    returns (data1: Bytes, chunks1: Records)
    requires |blocks| == |order| && forall i :: 0 <= i < |order| ==> order[i] in chunks
    requires AllVerified(hash, blocks, chunks, order)
    ensures data1 == Flatten(blocks) && chunks1 == Relocated(chunks, order, blocks)
  {
    hide Flatten;
    data1, chunks1 := [], map[];
    assert Flatten(blocks[..0]) == [] by { FlattenNone(blocks[..0]); }
    for i := 0 to |order|
      invariant data1 == Flatten(blocks[..i])
      invariant chunks1 == Relocated(chunks, order[..i], blocks[..i])
    {
      assert order[..i + 1][..i] == order[..i] && blocks[..i + 1][..i] == blocks[..i];
      assert Matches(hash, blocks[i], chunks[order[i]]);
      var rec := chunks[order[i]].(dataOffset := |data1|, blockLen := Val(blocks[i][..8]));
      FlattenSplit(blocks, i);
      data1 := data1 + blocks[i];
      chunks1 := chunks1[order[i] := rec];
    }
    assert order[..|order|] == order && blocks[..|blocks|] == blocks;
  }

  lemma FlattenNone(blocks: seq<Bytes>)
    requires blocks == []
    ensures Flatten(blocks) == []
  {
  }

  /** Repairs the vault from a parity payload: every block verifies afterwards, or nothing changes. */
  method RepairVault(e: EC.Engine, hash: Hash, vault: StoredVault, dryRun: bool, parity: Option<Bytes>)
    returns (r: Result<nat, EcError>, ghost order: seq<ChunkId>, ghost fixed: seq<Bytes>,
             ghost n: Result<nat, EcError>)
    requires EC.EngineOk(e)
    modifies vault
    ensures ByOffset(order, old(vault.chunks))
    ensures if AllIntact(hash, old(vault.data), old(vault.chunks)) || parity.None?
            then r == Ok(0) && vault.chunks == old(vault.chunks) && vault.data == old(vault.data)
            else VaultOutcome(e, hash, parity.value, old(vault.chunks), old(vault.data), dryRun,
                              vault.chunks, vault.data, r, order, fixed, n)
    ensures (vault.chunks == old(vault.chunks) && vault.data == old(vault.data))
            || (r.Ok? && !dryRun && AllIntact(hash, vault.data, vault.chunks)
                && OnlyOffsetsDiffer(old(vault.chunks), vault.chunks))
  {
    hide EC.EngineOk, Relocated, AllVerified, PaddedCells, Known, DamagedIn, AllIntact, OnlyOffsetsDiffer,
      RepairOutcome, KnownDamaged;
    var damaged, scrubbed := Scrub(hash, vault);
    AllKnown(hash, vault.data, vault.chunks, scrubbed);
    order, fixed, n := scrubbed, [], Ok(0);
    if damaged == [] || parity.None? {
      r := Ok(0);
      return;
    }
    var sorted := SortByOffset(vault.chunks);
    order := sorted;
    var blocks := FetchCells(vault, sorted);
    var count := Reconstruct(e, blocks, parity.value);
    fixed, n := blocks[..], count;
    if count.Err? {
      r := Err(count.error);
      return;
    }
    var ok := CheckBlocks(hash, blocks[..], vault.chunks, sorted);
    if !ok {
      r := Ok(0);
      return;
    }
    var repaired := CountKnown(vault.chunks, damaged);
    if !dryRun {
      VerifiedIsIntact(hash, vault.chunks, sorted, fixed);
      var data1, chunks1 := Rebuild(hash, vault.chunks, sorted, blocks[..]);
      vault.data := data1;
      vault.chunks := chunks1;
    }
    r := Ok(repaired);
  }
}
