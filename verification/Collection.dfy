/** Deleting entries, and collecting the chunks nothing refers to any more. */
module Collection {
  import opened Wrappers
  import opened ByteSeqs
  import opened Ordering
  import opened Paths
  import opened VaultTypes
  import opened Stores
  import opened Trees
  import opened Manifests
  import opened FileSteps

  /** The chunks some entry refers to. */
  function LiveIds(entries: seq<Entry>): set<ChunkId> {
    set e, id | e in entries && id in e.chunks :: id
  }

  lemma LiveStored(entries: seq<Entry>, ledger: Ledger, collided: bool,
                   setup: Setup, order: seq<ChunkId>, chunks: Records, data: Bytes)
    requires EntriesOk(entries, ledger, collided) && StoreOk(setup, order, ledger, chunks, data)
    ensures LiveIds(entries) <= chunks.Keys && LiveIds(entries) <= ledger.Keys
  {
  }

  /** Records of `after` are those of `before`, up to where their cells lie. */
  ghost predicate SameButOffsets(before: Records, after: Records) {
    forall id :: id in after ==>
      (id in before && after[id] == before[id].(dataOffset := after[id].dataOffset))
  }

  /** Copies the cells of the live chunks together, by block index. */
  method PackLive(setup: Setup, ghost order: seq<ChunkId>, ghost ledger: Ledger, chunks: Records, data: Bytes,
                  live: set<ChunkId>)
    returns (r: Result<(Records, Bytes), VaultError>)
    requires StoreOk(setup, order, ledger, chunks, data) && live <= chunks.Keys
    ensures r.Err? <==> exists id :: id in live && id in chunks && chunks[id].blockLen > MAX_BLOCK_SIZE
    ensures r.Err? ==> r.error == LengthMismatch
    ensures forall id :: id in Survivors(order, live) ==> id in chunks
    ensures r.Ok? ==>
              var kept := Survivors(order, live);
              r.value == (Rebased(kept, ledger, chunks), DataOf(kept, ledger))
  {
    hide StoreOk, Survivors, Rebased, DataOf, Cell, ReadCell;
    CompactedRecords(setup, order, ledger, chunks, data, live);
    var ordered := SortIds(live, id => IndexIn(chunks, id));
    KeptInOrder(setup, order, ledger, chunks, data, live, ordered);
    var newData: Bytes := [];
    var newChunks: Records := map[];
    NothingKept([], ledger, chunks);
    assert ordered[..0] == [];
    for i := 0 to |ordered|
      invariant newData == DataOf(ordered[..i], ledger)
      invariant forall j :: 0 <= j < i ==> ordered[j] in chunks && chunks[ordered[j]].blockLen <= MAX_BLOCK_SIZE
      invariant forall id :: id in ordered[..i] ==> id in chunks
      invariant newChunks == Rebased(ordered[..i], ledger, chunks)
    {
      var id := ordered[i];
      assert id in ordered;
      StoreRead(setup, order, ledger, chunks, data, id);
      var rec := chunks[id];
      var block := ReadCell(data, rec);
      if block.Err? {
        return Err(block.error);
      }
      assert ordered[..i + 1] == ordered[..i] + [id];
      KeepOne(setup, order, ledger, chunks, data, ordered[..i], id);
      newChunks := newChunks[id := rec.(dataOffset := |newData|)];
      newData := newData + Cell(block.value);
    }
    assert ordered[..|ordered|] == ordered;
    return Ok((newChunks, newData));
  }

  lemma CompactedRecords(setup: Setup, order: seq<ChunkId>, ledger: Ledger, chunks: Records, data: Bytes, live: set<ChunkId>)
    requires StoreOk(setup, order, ledger, chunks, data) && live <= chunks.Keys
    ensures forall id :: id in Survivors(order, live) ==> id in chunks
    ensures var kept := Rebased(Survivors(order, live), ledger, chunks);
            && kept.Keys == live
            && SameButOffsets(chunks, kept)
  {
    hide Described, WellPlaced, DataOf, Rebased, Survivors;
    var kept := Survivors(order, live);
    SurvivorsAre(order, live, chunks);
    IndexOrderNoDuplicates(kept, chunks);
    RebasedAt(kept, ledger, chunks);
    forall id | id in kept
      ensures Rebased(kept, ledger, chunks)[id] ==
              chunks[id].(dataOffset := Rebased(kept, ledger, chunks)[id].dataOffset)
    {
      var i :| 0 <= i < |kept| && kept[i] == id;
    }
  }

  lemma LiveLedger(entries: seq<Entry>, ledger: Ledger, live: set<ChunkId>, collided: bool)
    requires EntriesOk(entries, ledger, collided) && live == LiveIds(entries) && live <= ledger.Keys
    ensures EntriesOk(entries, Restricted(ledger, live), collided)
    ensures TreeOf(entries, Restricted(ledger, live)) == TreeOf(entries, ledger)
  {
    hide UniquePaths, TreeOf, EntriesOk;
    TreeLedger(entries, ledger, Restricted(ledger, live), collided);
  }

  lemma HeadIn<T>(s: seq<T>)
    requires s != []
    ensures s[0] in s
  {
  }

  lemma NothingKept(kept: seq<ChunkId>, ledger: Ledger, chunks: Records)
    requires forall id :: id in kept ==> id in {}
    ensures kept == [] && Rebased([], ledger, chunks) == map[] && DataOf([], ledger) == []
  {
    if kept != [] {
      HeadIn(kept);
    }
  }

  lemma IndicesDiffer(order: seq<ChunkId>, chunks: Records, a: nat, b: nat)
    requires IndexOrder(order, chunks) && a < |order| && b < |order| && a != b
    ensures IndexIn(chunks, order[a]) != IndexIn(chunks, order[b])
  {
  }

  lemma KeptInOrder(setup: Setup, order: seq<ChunkId>, ledger: Ledger, chunks: Records, data: Bytes,
                    live: set<ChunkId>, ordered: seq<ChunkId>)
    requires StoreOk(setup, order, ledger, chunks, data)
    requires NoDuplicates(ordered) && forall id :: id in ordered <==> id in chunks && id in live
    requires forall i, j :: 0 <= i < j < |ordered| ==> IndexIn(chunks, ordered[i]) <= IndexIn(chunks, ordered[j])
    ensures ordered == Survivors(order, live)
  {
    hide Described, WellPlaced, DataOf;
    SurvivorsAre(order, live, chunks);
    var kept := Survivors(order, live);
    forall i, j | 0 <= i < j < |ordered|
      ensures IndexIn(chunks, ordered[i]) < IndexIn(chunks, ordered[j])
    {
      assert ordered[i] in ordered && ordered[j] in ordered;
      var a :| 0 <= a < |order| && order[a] == ordered[i];
      var b :| 0 <= b < |order| && order[b] == ordered[j];
      assert a != b;
      IndicesDiffer(order, chunks, a, b);
    }
    AscendingUnique(ordered, kept, id => IndexIn(chunks, id));
  }

  lemma KeepOne(setup: Setup, order: seq<ChunkId>, ledger: Ledger, chunks: Records, data: Bytes,
                done: seq<ChunkId>, id: ChunkId)
    requires StoreOk(setup, order, ledger, chunks, data) && id in chunks && forall d :: d in done ==> d in chunks
    ensures id in ledger && DataOf(done + [id], ledger) == DataOf(done, ledger) + Cell(ledger[id].block)
    ensures Rebased(done + [id], ledger, chunks) ==
            Rebased(done, ledger, chunks)[id := chunks[id].(dataOffset := |DataOf(done, ledger)|)]
  {
    hide IndexOrder, WellPlaced, NoDuplicates, DataOf, Describes;
    CellsSnoc(done, id, ledger);
    assert (done + [id])[..|done|] == done;
  }

  /** Deleting the named paths one after the other. */
  function DeleteAll(t: Tree, names: seq<string>, recursive: bool): Result<Tree, VaultError> {
    if names == [] then Ok(t)
    else
      match DeleteAll(t, names[..|names| - 1], recursive)
      case Err(e) => Err(e)
      case Ok(t1) =>
        match Normalize(names[|names| - 1])
        case Err(_) => Err(BadPath)
        case Ok(q) => DeleteOne(t1, q, recursive)
  }

  lemma DeleteNone(t: Tree, recursive: bool)
    ensures DeleteAll(t, [], recursive) == Ok(t)
  {
  }

  lemma DeleteStep(t: Tree, names: seq<string>, name: string, recursive: bool)
    ensures DeleteAll(t, names + [name], recursive) ==
            match DeleteAll(t, names, recursive)
            case Err(e) => Err(e)
            case Ok(t1) =>
              match Normalize(name)
              case Err(_) => Err(BadPath)
              case Ok(q) => DeleteOne(t1, q, recursive)
  {
  }

  lemma {:induction false} DeleteStops(t: Tree, prefix: seq<string>, names: seq<string>, recursive: bool)
    requires prefix <= names
    ensures DeleteAll(t, prefix, recursive).Err? ==> DeleteAll(t, names, recursive) == DeleteAll(t, prefix, recursive)
    decreases |names|
  {
    hide Normalize, DeleteOne;
    if |prefix| < |names| {
      var front := names[..|names| - 1];
      assert prefix <= front;
      DeleteStops(t, prefix, front, recursive);
    } else {
      assert prefix == names;
    }
  }

  /** What the deletions before the first that fails leave. */
  function DeletedUpTo(t: Tree, names: seq<string>, recursive: bool): Tree {
    match DeleteAll(t, names, recursive)
    case Ok(after) => after
    case Err(_) => if names == [] then t else DeletedUpTo(t, names[..|names| - 1], recursive)
  }

  lemma DeletedAll(t: Tree, names: seq<string>, recursive: bool)
    ensures DeleteAll(t, names, recursive).Ok? ==> DeletedUpTo(t, names, recursive) == DeleteAll(t, names, recursive).value
  {
  }

  lemma {:induction false} DeletedUpToIs(t: Tree, names: seq<string>, k: nat, recursive: bool)
    requires k < |names| && DeleteAll(t, names[..k], recursive).Ok? && DeleteAll(t, names[..k + 1], recursive).Err?
    ensures DeletedUpTo(t, names, recursive) == DeleteAll(t, names[..k], recursive).value
    decreases |names|
  {
    hide Normalize, DeleteOne, DeleteAll;
    DeleteStops(t, names[..k + 1], names, recursive);
    var front := names[..|names| - 1];
    assert front[..k] == names[..k];
    if k == |front| {
      assert front == names[..k];
    } else {
      assert front[..k + 1] == names[..k + 1];
      DeletedUpToIs(t, front, k, recursive);
    }
  }

  /** What removing `q` does, case by case. */
  lemma DeleteCases(entries: seq<Entry>, ledger: Ledger, collided: bool, q: string, recursive: bool)
    requires EntriesOk(entries, ledger, collided)
    ensures var t := TreeOf(entries, ledger);
            match KindOf(entries, q)
            case None => DeleteOne(t, q, recursive) == Err(NotFound)
            case Some(FileKind) => RemovedTo(entries, ledger, collided, t, q, recursive, p => p != q)
            case Some(DirectoryKind) =>
              if (exists e :: e in entries && IsDescendant(e.path, q)) && !recursive
              then DeleteOne(t, q, recursive) == Err(NotEmpty)
              else RemovedTo(entries, ledger, collided, t, q, recursive, p => p != q && !IsDescendant(p, q))
  {
    hide TreeOf, UniquePaths, KindOf, IsDescendant, EntryOk, Content, Find, Retain;
    var t := TreeOf(entries, ledger);
    KindInAnyTree(entries, ledger, q, collided);
    TreeAt(entries, ledger);
    if q in t && t[q].File? {
      var other := (p: string) => p != q;
      assert (map p | p in t && other(p) :: t[p]) == Without(t, q);
      assert (map p | p in t && (p => p != q)(p) :: t[p]) == Without(t, q);
      RemovedLemma(entries, ledger, collided, q, recursive, p => p != q, Find(entries, q).value);
    } else if (q in t || HasChildren(t, q)) && (recursive || !HasChildren(t, q)) {
      var keep := (p: string) => p != q && !IsDescendant(p, q);
      assert (map p | p in t && keep(p) :: t[p]) == Outside(t, q);
      if q in t {
        RemovedLemma(entries, ledger, collided, q, recursive, keep, Find(entries, q).value);
      } else {
        var e :| e in entries && IsDescendant(e.path, q);
        RemovedLemma(entries, ledger, collided, q, recursive, keep, e);
      }
    }
  }

  ghost predicate RemovedTo(entries: seq<Entry>, ledger: Ledger, collided: bool, t: Tree, q: string, recursive: bool,
                            keep: string -> bool) {
    var kept := Retain(entries, keep);
    && DeleteOne(t, q, recursive) == Ok(TreeOf(kept, ledger))
    && EntriesOk(kept, ledger, collided)
    && |kept| < |entries|
    && (TreeOk(t) ==> TreeOk(TreeOf(kept, ledger)))
  }

  lemma RemovedLemma(entries: seq<Entry>, ledger: Ledger, collided: bool, q: string, recursive: bool,
                     keep: string -> bool, e: Entry)
    requires EntriesOk(entries, ledger, collided) && e in entries && !keep(e.path)
    requires var t := TreeOf(entries, ledger);
             DeleteOne(t, q, recursive) == Ok(map p | p in t && keep(p) :: t[p])
    ensures RemovedTo(entries, ledger, collided, TreeOf(entries, ledger), q, recursive, keep)
  {
    hide TreeOf, UniquePaths, IsDescendant, EntryOk, Find, Content, TreeOk, DeleteOne, AtOrBelow, Retain;
    var t := TreeOf(entries, ledger);
    TreeRetain(entries, keep, ledger);
    RetainKeeps(entries, keep);
    RetainShrinks(entries, keep, e);
    if TreeOk(t) { DeleteKeepsTree(t, q, recursive); }
  }

  lemma {:induction false} RetainShrinks(entries: seq<Entry>, keep: string -> bool, e: Entry)
    requires UniquePaths(entries) && e in entries && !keep(e.path)
    ensures |Retain(entries, keep)| < |entries|
  {
    var front, last := entries[..|entries| - 1], entries[|entries| - 1];
    assert entries == front + [last];
    UniqueFront(front, last);
    if e in front {
      RetainShrinks(front, keep, e);
    } else {
      RetainKeeps(front, keep);
    }
  }

  lemma SameLive(a: seq<Entry>, b: seq<Entry>)
    requires b == SortBy(EntryPath, a)
    ensures LiveIds(a) == LiveIds(b)
  {
    hide SortBy;
    SortBySameElements(EntryPath, a);
  }
}
