/** The chunk store: records, the data section, and the ghost ledger that says what each chunk
    holds. Records in block-index order tile the data section. */
module Stores {
  import opened Wrappers
  import opened ByteSeqs
  import opened VaultTypes

  /** A stored chunk: its plaintext, and the block kept for it. */
  datatype Deposit = Deposit(plain: Bytes, block: Bytes)

  type Ledger = map<ChunkId, Deposit>
  type Records = map<ChunkId, ChunkRecord>

  function BlockOf(ledger: Ledger, id: ChunkId): Bytes {
    if id in ledger then ledger[id].block else []
  }

  function PlainOf(ledger: Ledger, id: ChunkId): Bytes {
    if id in ledger then ledger[id].plain else []
  }

  function Cells(order: seq<ChunkId>, ledger: Ledger): seq<Bytes> {
    seq(|order|, i requires 0 <= i < |order| => Cell(BlockOf(ledger, order[i])))
  }

  function DataOf(order: seq<ChunkId>, ledger: Ledger): Bytes {
    Flatten(Cells(order, ledger))
  }

  predicate NoDuplicates<T(==)>(s: seq<T>) {
    forall i, j :: 0 <= i < j < |s| ==> s[i] != s[j]
  }

  function IndexIn(chunks: Records, id: ChunkId): nat {
    if id in chunks then chunks[id].blockIndex else 0
  }

  function OffsetIn(chunks: Records, id: ChunkId): nat {
    if id in chunks then chunks[id].dataOffset else 0
  }

  /** Block indices grow along `order`. */
  ghost predicate IndexOrder(order: seq<ChunkId>, chunks: Records) {
    forall i, j :: 0 <= i < j < |order| ==> IndexIn(chunks, order[i]) < IndexIn(chunks, order[j])
  }

  /** Each record points right after the cells before it. */
  ghost predicate WellPlaced(order: seq<ChunkId>, ledger: Ledger, chunks: Records) {
    forall i :: 0 <= i < |order| ==> OffsetIn(chunks, order[i]) == |DataOf(order[..i], ledger)|
  }

  ghost predicate Described(setup: Setup, ledger: Ledger, chunks: Records) {
    && ledger.Keys == chunks.Keys
    && forall id :: id in chunks ==> Describes(setup, id, chunks[id], ledger[id].plain, ledger[id].block)
  }

  /** The store invariant: `order` lists exactly the stored chunks by block index, and their cells
      in that order are the data section, with no gap and no overlap. */
  ghost predicate StoreOk(setup: Setup, order: seq<ChunkId>, ledger: Ledger, chunks: Records, data: Bytes) {
    && NoDuplicates(order)
    && (forall id :: id in order <==> id in chunks)
    && IndexOrder(order, chunks)
    && WellPlaced(order, ledger, chunks)
    && Described(setup, ledger, chunks)
    && data == DataOf(order, ledger)
  }

  lemma CellsSnoc(order: seq<ChunkId>, id: ChunkId, ledger: Ledger)
    ensures Cells(order + [id], ledger) == Cells(order, ledger) + [Cell(BlockOf(ledger, id))]
    ensures DataOf(order + [id], ledger) == DataOf(order, ledger) + Cell(BlockOf(ledger, id))
  {
    FlattenSnoc(Cells(order, ledger), Cell(BlockOf(ledger, id)));
  }

  lemma CellsAgree(order: seq<ChunkId>, a: Ledger, b: Ledger)
    requires forall id :: id in order ==> BlockOf(a, id) == BlockOf(b, id)
    ensures DataOf(order, a) == DataOf(order, b)
  {
    assert Cells(order, a) == Cells(order, b);
  }

  /** Every record's cell is where the record says. */
  lemma CellLocation(order: seq<ChunkId>, ledger: Ledger, i: nat)
    requires i < |order|
    ensures DataOf(order, ledger) ==
            DataOf(order[..i], ledger) + Cell(BlockOf(ledger, order[i])) + DataOf(order[i + 1..], ledger)
  {
    hide Flatten, Cell, BlockOf;
    var cells := Cells(order, ledger);
    FlattenSplit(cells, i);
    assert cells[..i] == Cells(order[..i], ledger);
    assert cells[i + 1..] == Cells(order[i + 1..], ledger);
  }

  /** Any stored block is read back whole, unless it is over the block limit. */
  lemma StoreRead(setup: Setup, order: seq<ChunkId>, ledger: Ledger, chunks: Records, data: Bytes, id: ChunkId)
    requires StoreOk(setup, order, ledger, chunks, data) && id in chunks
    ensures ReadCell(data, chunks[id]) ==
            if chunks[id].blockLen <= MAX_BLOCK_SIZE then Ok(ledger[id].block) else Err(LengthMismatch)
  {
    var i :| 0 <= i < |order| && order[i] == id;
    CellLocation(order, ledger, i);
    assert OffsetIn(chunks, order[i]) == |DataOf(order[..i], ledger)|;
    ReadCellAt(DataOf(order[..i], ledger), ledger[id].block, DataOf(order[i + 1..], ledger), chunks[id]);
  }

  // ---- appending ----------------------------------------------------------

  lemma StoreAppend(setup: Setup, order: seq<ChunkId>, ledger: Ledger, chunks: Records, data: Bytes,
                    rec: ChunkRecord, dep: Deposit)
    requires StoreOk(setup, order, ledger, chunks, data)
    requires rec.id !in chunks && Describes(setup, rec.id, rec, dep.plain, dep.block)
    requires rec.dataOffset == |data| && forall id :: id in chunks ==> chunks[id].blockIndex < rec.blockIndex
    ensures StoreOk(setup, order + [rec.id], ledger[rec.id := dep], chunks[rec.id := rec], data + Cell(dep.block))
  {
    hide Describes, Cell, IndexOrder, NoDuplicates, WellPlaced, DataOf;
    var order1, ledger1, chunks1 := order + [rec.id], ledger[rec.id := dep], chunks[rec.id := rec];
    CellsAgree(order, ledger, ledger1);
    CellsSnoc(order, rec.id, ledger1);
    InSnoc(order, rec.id);
    NoDuplicatesSnoc(order, rec.id);
    IndexOrderSame(order, chunks, chunks1);
    IndexOrderSnoc(order, rec.id, chunks1);
    PlacedSnoc(order, ledger, chunks, rec, dep);
  }

  lemma InSnoc<T>(s: seq<T>, x: T)
    ensures forall y :: y in s + [x] <==> y in s || y == x
  {
  }

  lemma NoDuplicatesSnoc<T>(s: seq<T>, x: T)
    requires NoDuplicates(s) && x !in s
    ensures NoDuplicates(s + [x])
  {
  }

  lemma IndexOrderSame(order: seq<ChunkId>, a: Records, b: Records)
    requires IndexOrder(order, a) && forall id :: id in order ==> IndexIn(a, id) == IndexIn(b, id)
    ensures IndexOrder(order, b)
  {
  }

  lemma IndexOrderSnoc(order: seq<ChunkId>, id: ChunkId, chunks: Records)
    requires IndexOrder(order, chunks) && forall o :: o in order ==> IndexIn(chunks, o) < IndexIn(chunks, id)
    ensures IndexOrder(order + [id], chunks)
  {
  }

  lemma PlacedSnoc(order: seq<ChunkId>, ledger: Ledger, chunks: Records, rec: ChunkRecord, dep: Deposit)
    requires WellPlaced(order, ledger, chunks) && rec.id !in order
    requires rec.dataOffset == |DataOf(order, ledger)| && (forall id :: id in order ==> id in ledger)
    ensures WellPlaced(order + [rec.id], ledger[rec.id := dep], chunks[rec.id := rec])
  {
    hide DataOf;
    var order1, ledger1, chunks1 := order + [rec.id], ledger[rec.id := dep], chunks[rec.id := rec];
    forall i | 0 <= i < |order1|
      ensures OffsetIn(chunks1, order1[i]) == |DataOf(order1[..i], ledger1)|
    {
      assert order1[..i] == order[..i];
      CellsAgree(order[..i], ledger, ledger1);
      assert i < |order| ==> OffsetIn(chunks, order[i]) == |DataOf(order[..i], ledger)|;
      assert order[..|order|] == order;
    }
  }

  // ---- sorting ids by a number --------------------------------------------

  lemma {:induction false} LeastExists<T(!new)>(ids: set<T>, key: T -> nat) returns (least: T)
    requires ids != {}
    ensures least in ids && forall j :: j in ids ==> key(least) <= key(j)
    decreases |ids|
  {
    least :| least in ids;
    var rest := ids - {least};
    if rest != {} {
      var other := LeastExists(rest, key);
      if key(other) < key(least) {
        least := other;
      }
    }
  }

  /** The ids by ascending key, ties in any order. */
  method SortIds(ids: set<ChunkId>, key: ChunkId -> nat) returns (sorted: seq<ChunkId>)
    ensures NoDuplicates(sorted) && (forall id :: id in sorted <==> id in ids)
    ensures forall i, j :: 0 <= i < j < |sorted| ==> key(sorted[i]) <= key(sorted[j])
  {
    sorted := [];
    var rest := ids;
    while rest != {}
      invariant rest <= ids && NoDuplicates(sorted)
      invariant forall id :: id in sorted <==> id in ids && id !in rest
      invariant forall i, j :: 0 <= i < j < |sorted| ==> key(sorted[i]) <= key(sorted[j])
      invariant forall i, j :: 0 <= i < |sorted| && j in rest ==> key(sorted[i]) <= key(j)
      decreases |rest|
    {
      ghost var least := LeastExists(rest, key);
      var id :| id in rest && forall j :: j in rest ==> key(id) <= key(j);
      sorted := sorted + [id];
      rest := rest - {id};
    }
  }

  /** A set has only one strictly ascending listing. */
  lemma {:induction false} AscendingUnique(a: seq<ChunkId>, b: seq<ChunkId>, key: ChunkId -> nat)
    requires forall id :: id in a <==> id in b
    requires forall i, j :: 0 <= i < j < |a| ==> key(a[i]) < key(a[j])
    requires forall i, j :: 0 <= i < j < |b| ==> key(b[i]) < key(b[j])
    ensures a == b
    decreases |a|
  {
    assert b != [] ==> b[0] in b;
    if a != [] {
      assert a[0] in b && b != [] && b[0] in a;
      assert a[0] == b[0];
      forall id
        ensures id in a[1..] <==> id in b[1..]
      {
        assert id in a[1..] <==> id in a && id != a[0] by { SplitHead(a, key); }
        assert id in b[1..] <==> id in b && id != b[0] by { SplitHead(b, key); }
      }
      AscendingUnique(a[1..], b[1..], key);
      assert a == [a[0]] + a[1..] && b == [b[0]] + b[1..];
    }
  }

  lemma SplitHead(a: seq<ChunkId>, key: ChunkId -> nat)
    requires a != [] && forall i, j :: 0 <= i < j < |a| ==> key(a[i]) < key(a[j])
    ensures forall id :: id in a[1..] <==> id in a && id != a[0]
  {
  }

  // ---- compaction ---------------------------------------------------------

  /** The ids of `order` that are live. */
  function Survivors(order: seq<ChunkId>, live: set<ChunkId>): seq<ChunkId> {
    if order == [] then []
    else
      var front := Survivors(order[..|order| - 1], live);
      if order[|order| - 1] in live then front + [order[|order| - 1]] else front
  }

  lemma {:induction false} SurvivorsAre(order: seq<ChunkId>, live: set<ChunkId>, chunks: Records)
    requires IndexOrder(order, chunks)
    ensures forall id :: id in Survivors(order, live) <==> id in order && id in live
    ensures IndexOrder(Survivors(order, live), chunks)
  {
    hide IndexOrder;
    if order == [] {
      assert IndexOrder([], chunks) by { IndexOrderEmpty(chunks); }
    } else {
      var front, last := order[..|order| - 1], order[|order| - 1];
      assert order == front + [last];
      IndexOrderFront(front, last, chunks);
      SurvivorsAre(front, live, chunks);
      var kept := Survivors(front, live);
      var now := if last in live then kept + [last] else kept;
      assert Survivors(order, live) == now;
      forall id
        ensures id in now <==> id in order && id in live
      {
        assert id in front + [last] <==> id in front || id == last;
        assert id in kept + [last] <==> id in kept || id == last;
      }
      if last in live {
        IndexOrderSnoc(kept, last, chunks);
      }
    }
  }

  lemma IndexOrderEmpty(chunks: Records)
    ensures IndexOrder([], chunks)
  {
  }

  lemma IndexOrderFront(front: seq<ChunkId>, last: ChunkId, chunks: Records)
    requires IndexOrder(front + [last], chunks)
    ensures IndexOrder(front, chunks) && forall id :: id in front ==> IndexIn(chunks, id) < IndexIn(chunks, last)
  {
    var order := front + [last];
    assert forall i :: 0 <= i < |front| ==> order[i] == front[i];
    forall id | id in front
      ensures IndexIn(chunks, id) < IndexIn(chunks, last)
    {
      var i :| 0 <= i < |front| && front[i] == id;
      assert IndexIn(chunks, order[i]) < IndexIn(chunks, order[|front|]);
    }
    forall i, j | 0 <= i < j < |front|
      ensures IndexIn(chunks, front[i]) < IndexIn(chunks, front[j])
    {
      assert IndexIn(chunks, order[i]) < IndexIn(chunks, order[j]);
    }
  }

  /** The records of `order` moved to where their cells land when only `order` is kept. */
  function Rebased(order: seq<ChunkId>, ledger: Ledger, chunks: Records): Records
    requires forall id :: id in order ==> id in chunks
  {
    if order == [] then map[]
    else
      var front, last := order[..|order| - 1], order[|order| - 1];
      Rebased(front, ledger, chunks)[last := chunks[last].(dataOffset := |DataOf(front, ledger)|)]
  }

  lemma {:induction false} RebasedAt(order: seq<ChunkId>, ledger: Ledger, chunks: Records)
    requires NoDuplicates(order) && forall id :: id in order ==> id in chunks
    ensures forall id :: id in Rebased(order, ledger, chunks) <==> id in order
    ensures forall i :: 0 <= i < |order| ==>
              Rebased(order, ledger, chunks)[order[i]] ==
              chunks[order[i]].(dataOffset := |DataOf(order[..i], ledger)|)
  {
    hide DataOf;
    if order != [] {
      var n := |order| - 1;
      var front, last := order[..n], order[n];
      assert order == front + [last];
      InSnoc(front, last);
      assert NoDuplicates(front) && last !in front by { FrontOfNoDuplicates(order); }
      RebasedAt(front, ledger, chunks);
      forall i | 0 <= i < |order|
        ensures Rebased(order, ledger, chunks)[order[i]] == chunks[order[i]].(dataOffset := |DataOf(order[..i], ledger)|)
      {
        if i < n {
          assert order[..i] == front[..i] && order[i] == front[i] && front[i] in front;
        }
      }
    }
  }

  lemma FrontOfNoDuplicates<T>(s: seq<T>)
    requires NoDuplicates(s) && s != []
    ensures NoDuplicates(s[..|s| - 1]) && s[|s| - 1] !in s[..|s| - 1]
  {
  }

  ghost function Restricted(ledger: Ledger, live: set<ChunkId>): Ledger {
    map id | id in ledger && id in live :: ledger[id]
  }

  /** Garbage collection keeps exactly the live records, changes nothing in them but the offset,
      and leaves a store that tiles again. */
  lemma CompactedStoreOk(setup: Setup, order: seq<ChunkId>, ledger: Ledger, chunks: Records, data: Bytes,
                         live: set<ChunkId>)
    requires StoreOk(setup, order, ledger, chunks, data)
    ensures forall id :: id in Survivors(order, live) <==> id in chunks && id in live
    ensures var kept := Survivors(order, live);
            StoreOk(setup, kept, Restricted(ledger, live), Rebased(kept, ledger, chunks), DataOf(kept, ledger))
  {
    hide Describes, DataOf, IndexOrder, NoDuplicates, WellPlaced;
    var kept := Survivors(order, live);
    SurvivorsAre(order, live, chunks);
    var ledger1, chunks1 := Restricted(ledger, live), Rebased(kept, ledger, chunks);
    IndexOrderNoDuplicates(kept, chunks);
    RebasedAt(kept, ledger, chunks);
    RebasedPlaced(kept, ledger, ledger1, chunks);
    CellsAgree(kept, ledger, ledger1);
    forall id | id in chunks1
      ensures id in ledger1 && IndexIn(chunks1, id) == IndexIn(chunks, id)
      ensures Describes(setup, id, chunks1[id], ledger1[id].plain, ledger1[id].block)
    {
      var i :| 0 <= i < |kept| && kept[i] == id;
      DescribesElsewhere(setup, id, chunks[id], ledger[id].plain, ledger[id].block, chunks1[id].dataOffset);
    }
    IndexOrderSame(kept, chunks, chunks1);
  }

  lemma RebasedPlaced(kept: seq<ChunkId>, ledger: Ledger, ledger1: Ledger, chunks: Records)
    requires NoDuplicates(kept) && forall id :: id in kept ==> id in chunks
    requires forall id :: id in kept ==> BlockOf(ledger, id) == BlockOf(ledger1, id)
    ensures WellPlaced(kept, ledger1, Rebased(kept, ledger, chunks))
  {
    hide DataOf, BlockOf;
    RebasedAt(kept, ledger, chunks);
    forall i | 0 <= i < |kept|
      ensures OffsetIn(Rebased(kept, ledger, chunks), kept[i]) == |DataOf(kept[..i], ledger1)|
    {
      CellsAgree(kept[..i], ledger, ledger1);
    }
  }

  lemma DescribesElsewhere(setup: Setup, id: ChunkId, rec: ChunkRecord, plain: Bytes, block: Bytes, offset: nat)
    requires Describes(setup, id, rec, plain, block)
    ensures Describes(setup, id, rec.(dataOffset := offset), plain, block)
  {
  }

  lemma IndexOrderNoDuplicates(order: seq<ChunkId>, chunks: Records)
    requires IndexOrder(order, chunks)
    ensures NoDuplicates(order)
  {
  }

  // ---- the protected stream -----------------------------------------------

  /** Along the block indices the data offsets grow too, so sorting the records by offset lists
      them in block-index order, and the cells so listed are the whole data section. */
  lemma OffsetsFollowIndices(setup: Setup, order: seq<ChunkId>, ledger: Ledger, chunks: Records, data: Bytes,
                             byOffset: seq<ChunkId>)
    requires StoreOk(setup, order, ledger, chunks, data)
    requires NoDuplicates(byOffset) && forall id :: id in byOffset <==> id in chunks
    requires forall i, j :: 0 <= i < j < |byOffset| ==> OffsetIn(chunks, byOffset[i]) <= OffsetIn(chunks, byOffset[j])
    ensures byOffset == order
  {
    hide Described, DataOf;
    var key := id => OffsetIn(chunks, id);
    forall i, j | 0 <= i < j < |order|
      ensures key(order[i]) < key(order[j])
    {
      OffsetGrows(order, ledger, i, j);
    }
    forall i, j | 0 <= i < j < |byOffset|
      ensures key(byOffset[i]) < key(byOffset[j])
    {
      assert byOffset[i] in order && byOffset[j] in order by {
        assert byOffset[i] in byOffset && byOffset[j] in byOffset;
      }
      var a :| 0 <= a < |order| && order[a] == byOffset[i];
      var b :| 0 <= b < |order| && order[b] == byOffset[j];
      assert a != b;
      assert a < b || b < a;
    }
    AscendingUnique(byOffset, order, key);
  }

  lemma OffsetGrows(order: seq<ChunkId>, ledger: Ledger, i: nat, j: nat)
    requires i < j < |order|
    ensures |DataOf(order[..i], ledger)| + 8 <= |DataOf(order[..j], ledger)|
  {
    assert order[..i + 1] == order[..i] + [order[i]];
    CellsSnoc(order[..i], order[i], ledger);
    var cells := Cells(order, ledger);
    FlattenPrefixLen(cells, i + 1, j);
    assert cells[..i + 1] == Cells(order[..i + 1], ledger) && cells[..j] == Cells(order[..j], ledger);
  }

  lemma StoreKeys(setup: Setup, order: seq<ChunkId>, ledger: Ledger, chunks: Records, data: Bytes)
    requires StoreOk(setup, order, ledger, chunks, data)
    ensures ledger.Keys == chunks.Keys
  {
  }
}
