/** What adding a file to a vault means, and the steps its proof takes. */
module FileSteps {
  import opened Wrappers
  import opened ByteSeqs
  import opened Ordering
  import opened Paths
  import opened Chunking
  import opened VaultTypes
  import opened Ingestion
  import opened Stores
  import opened Trees
  import opened Manifests
  import opened Directories

  /** A file to add: what the file system says about it, or that it fails to; the bytes a read of it yields, and
      after how many of them reading fails, if it does. */
  datatype Source = Source(regular: bool, statLen: nat, content: Bytes, statFails: bool := false, failsAt: Option<nat> := None) {
    /** Reading all of it fails. */
    predicate Fails() { FailsIn(content, failsAt) }
  }

  /** The tree once the parents of `q` are there and the file at `q` is not. */
  function RoomFor(t: Tree, q: string): Tree {
    map p | p in WithDirs(t, Ancestors(q)) && p != q :: WithDirs(t, Ancestors(q))[p]
  }

  /** Failures that do not come from the tree. */
  const ENVIRONMENT := {BadPath, NotRegular, BadBounds, Io, CompressFailed}

  /** Outside the tree, there is this reason for adding the file to fail. */
  ghost predicate FileFault(setup: Setup, source: Source, e: VaultError) {
    || (e == NotRegular && !source.regular)
    || (e == BadBounds && setup.EffectiveBounds().Err?)
    || (e == Io && source.Fails())
    || (e == CompressFailed && !AllStorable(setup.prims, FileBlocks(setup, source.content)))
  }

  /** Outside the tree there is none. */
  ghost predicate Sane(setup: Setup, source: Source) {
    && source.regular && setup.EffectiveBounds().Ok? && !source.Fails()
    && AllStorable(setup.prims, FileBlocks(setup, source.content))
  }

  /** Adding a file succeeded, with the tree to match unless chunks collided; or it failed for a
      reason the tree gives and left that alone, or for one outside it. */
  predicate AddDone(t: Tree, q: string, bytes: Bytes, r: Result<(), VaultError>, after: Tree, collided: bool) {
    && (r.Ok? ==> AddFile(t, q, bytes).Ok? && (!collided ==> AddFile(t, q, bytes) == Ok(after)))
    && (r.Err? ==> r.error in ENVIRONMENT || (AddFile(t, q, bytes) == Err(r.error) && after == t))
  }

  /** When adding a file succeeded, it could be read to its end and its chunks are in the store. With `good`: it failed for a reason
      the tree gives or one that there is outside it; so with none there, it succeeded exactly when the tree lets it. */
  ghost predicate FileOutcome(setup: Setup, source: Source, t: Tree, q: string, before: Records, after: Records, good: bool,
                              r: Result<(), VaultError>)
  {
    && (r.Ok? ==> source.regular && setup.EffectiveBounds().Ok? && !source.Fails()
                  && Ingested(setup.prims, before, FileBlocks(setup, source.content), after))
    && (good && r.Err? && r.error in ENVIRONMENT ==> FileFault(setup, source, r.error))
    && (good && Sane(setup, source) ==> (r.Ok? <==> AddFile(t, q, source.content).Ok?))
  }

  lemma FileOutcomeMeans(setup: Setup, source: Source, t: Tree, q: string, before: Records, after: Records, good: bool,
                         r: Result<(), VaultError>)
    requires FileOutcome(setup, source, t, q, before, after, good, r)
    ensures r.Ok? ==> source.regular && setup.EffectiveBounds().Ok? && !source.Fails()
                      && Ingested(setup.prims, before, FileBlocks(setup, source.content), after)
    ensures good && r.Err? && r.error in ENVIRONMENT ==> FileFault(setup, source, r.error)
  {
    hide AllStorable, FileBlocks, AddFile, Ingested, FileFault, Sane;
  }

  lemma FileFailed(setup: Setup, source: Source, t: Tree, q: string, before: Records, after: Records, good: bool, e: VaultError)
    requires good ==> FileFault(setup, source, e) || (AddFile(t, q, []) == Err(e) && e !in ENVIRONMENT)
    ensures FileOutcome(setup, source, t, q, before, after, good, Err(e))
  {
    hide AllStorable, FileBlocks, AddFile;
    AddFileAnyBytes(t, q, [], source.content);
  }

  lemma FaultIs(setup: Setup, source: Source, e: VaultError)
    requires (e == NotRegular && !source.regular) || (e == BadBounds && setup.EffectiveBounds().Err?) || (e == Io && source.Fails())
             || (e == CompressFailed && !AllStorable(setup.prims, FileBlocks(setup, source.content)))
    ensures FileFault(setup, source, e)
  {
    hide AllStorable, FileBlocks;
  }

  lemma FileDone(setup: Setup, source: Source, t: Tree, q: string, before: Records, after: Records, good: bool)
    requires source.regular && setup.EffectiveBounds().Ok? && !source.Fails()
    requires Ingested(setup.prims, before, FileBlocks(setup, source.content), after) && (good ==> AddFile(t, q, []).Ok?)
    ensures FileOutcome(setup, source, t, q, before, after, good, Ok(()))
  {
    hide AllStorable, FileBlocks, AddFile, Ingested;
    AddFileAnyBytes(t, q, [], source.content);
  }

  lemma AncestorDirs(t: Tree, q: string)
    requires q !in Ancestors(q)
    ensures q in WithDirs(t, Ancestors(q)) <==> q in t
    ensures q in t ==> WithDirs(t, Ancestors(q))[q] == t[q]
  {
  }

  lemma AddFileAnyBytes(t: Tree, q: string, a: Bytes, b: Bytes)
    ensures AddFile(t, q, a).Ok? == AddFile(t, q, b).Ok?
    ensures AddFile(t, q, a).Err? ==> AddFile(t, q, a) == AddFile(t, q, b)
  {
  }

  lemma AddFileErrors(t: Tree, q: string, bytes: Bytes)
    ensures AddFile(t, q, bytes).Err? ==> AddFile(t, q, bytes).error !in ENVIRONMENT
  {
  }

  /** The kind of a path in any tree: what is there decides, and something below makes it a directory. */
  lemma KindInAnyTree(entries: seq<Entry>, ledger: Ledger, q: string, collided: bool)
    requires EntriesOk(entries, ledger, collided)
    ensures var t := TreeOf(entries, ledger);
            KindOf(entries, q) ==
            if q in t then Some(if t[q].Dir? then DirectoryKind else FileKind)
            else if HasChildren(t, q) then Some(DirectoryKind) else None
    ensures HasChildren(TreeOf(entries, ledger), q) <==> exists e :: e in entries && IsDescendant(e.path, q)
  {
    hide TreeOf, UniquePaths, IsDescendant, Find, Content, EntryOk;
    TreeAt(entries, ledger);
    var t := TreeOf(entries, ledger);
    if HasChildren(t, q) {
      var p :| p in t && IsDescendant(p, q);
      assert Find(entries, p).value in entries;
    }
  }

  lemma KindOfEntries(entries: seq<Entry>, ledger: Ledger, q: string, collided: bool)
    requires EntriesOk(entries, ledger, collided) && TreeOk(TreeOf(entries, ledger))
    ensures var t := TreeOf(entries, ledger);
            KindOf(entries, q) == if q !in t then None else Some(if t[q].Dir? then DirectoryKind else FileKind)
  {
    hide KindOf, TreeOf, UniquePaths;
    KindInTree(entries, ledger, q);
  }

  /** What making room for a file does to the entries, for any path: the parents are made, and a file
      that is there is dropped. */
  function RoomEntries(entries: seq<Entry>, path: string): (Result<(), VaultError>, seq<Entry>) {
    match ParentEntries(entries, path)
    case Err(e) => (Err(e), entries)
    case Ok(made) =>
      match KindOf(made, path)
      case None => (Ok(()), made)
      case Some(DirectoryKind) => (Err(DirectoryInTheWay), made)
      case Some(FileKind) => (Ok(()), Retain(made, p => p != path))
  }

  /** Making room takes away a file at the path at most, and adds directories alone. */
  lemma RoomSpares(entries: seq<Entry>, ledger: Ledger, collided: bool, path: string)
    requires EntriesOk(entries, ledger, collided)
    ensures var (r, after) := RoomEntries(entries, path);
            var t, t1 := TreeOf(entries, ledger), TreeOf(after, ledger);
            && EntriesOk(after, ledger, collided)
            && Spared(t, {path}, t1)
            && (r.Ok? ==> path !in t1 && path !in PathSet(after))
            && (r.Err? ==> Spared(t, {}, t1))
  {
    hide TreeOf, EntriesOk, Retain, ParentEntries, KindOf, Spared;
    UniqueIn(entries, ledger, collided);
    if ParentEntries(entries, path).Ok? {
      var made := ParentEntries(entries, path).value;
      ParentsMade(entries, path);
      GrownSpares(entries, ledger, collided, |path|, made);
      UniqueIn(made, ledger, collided);
      NoKind(made, path, ledger);
      Dropped(made, ledger, collided, path);
      StillSpared(TreeOf(entries, ledger), TreeOf(made, ledger), path);
    } else {
      StillSpared(TreeOf(entries, ledger), TreeOf(entries, ledger), path);
    }
  }

  lemma NoKind(entries: seq<Entry>, path: string, ledger: Ledger)
    requires UniquePaths(entries)
    ensures KindOf(entries, path).None? ==> path !in TreeOf(entries, ledger) && path !in PathSet(entries)
  {
    hide TreeOf, Find, UniquePaths, IsDescendant;
    TreeAt(entries, ledger);
    FindFinds(entries, path);
  }

  lemma StillSpared(t: Tree, t1: Tree, path: string)
    requires Spared(t, {}, t1) || t == t1
    ensures Spared(t, {}, t1) && Spared(t, {path}, t1) && Spared(t, {path}, map p | p in t1 && p != path :: t1[p])
  {
  }

  lemma Dropped(entries: seq<Entry>, ledger: Ledger, collided: bool, path: string)
    requires EntriesOk(entries, ledger, collided)
    ensures var kept := Retain(entries, p => p != path);
            && EntriesOk(kept, ledger, collided) && path !in PathSet(kept)
            && path !in TreeOf(kept, ledger)
            && TreeOf(kept, ledger) == map p | p in TreeOf(entries, ledger) && p != path :: TreeOf(entries, ledger)[p]
  {
    hide TreeOf, UniquePaths, Retain, EntryOk;
    TreeRetain(entries, p => p != path, ledger);
    RetainKeeps(entries, p => p != path);
  }

  /** In a well-formed tree and for a clean path that is the room `AddFile` makes. */
  lemma RoomIsMade(entries: seq<Entry>, ledger: Ledger, collided: bool, q: string)
    requires EntriesOk(entries, ledger, collided) && TreeOk(TreeOf(entries, ledger)) && Clean(q)
    ensures var (r, after) := RoomEntries(entries, q);
            var t := TreeOf(entries, ledger);
            && TreeOk(TreeOf(after, ledger))
            && AddFile(t, q, []).Ok? == r.Ok?
            && (r.Ok? ==> TreeOf(after, ledger) == RoomFor(t, q))
            && (r.Err? ==> AddFile(t, q, []) == Err(r.error) && TreeOf(after, ledger) == t)
  {
    hide TreeOf, EntriesOk, Clean, Ancestors, Retain, TreeOk, KindOf, ParentEntries, FileAbove, AddFile, RoomFor, WithDirs;
    var t := TreeOf(entries, ledger);
    ParentsAreDirs(entries, ledger, collided, q);
    RoomOutcome(t, q);
    if ParentEntries(entries, q).Ok? {
      var made := ParentEntries(entries, q).value;
      KindOfEntries(made, ledger, q, collided);
      Dropped(made, ledger, collided, q);
    }
  }

  lemma RoomOutcome(t: Tree, q: string)
    requires TreeOk(t) && Clean(q)
    ensures var w := WithDirs(t, Ancestors(q));
            && (FileAbove(t, q) ==> AddFile(t, q, []) == Err(FileInTheWay))
            && (!FileAbove(t, q) && q in w && w[q].Dir? ==> AddFile(t, q, []) == Err(DirectoryInTheWay) && w == t)
            && (!FileAbove(t, q) && (q !in w || w[q].File?) ==> AddFile(t, q, []).Ok? && TreeOk(RoomFor(t, q)))
            && (q !in w ==> RoomFor(t, q) == w)
            && RoomFor(t, q) == map p | p in w && p != q :: w[p]
  {
    hide Clean, Ancestors, TreeOk, WithDirs, FileAbove;
    NotItsOwnAncestor(q);
    AncestorDirs(t, q);
    if !FileAbove(t, q) {
      var w := WithDirs(t, Ancestors(q));
      WithDirsOk(t, q);
      DroppedNothing(w, q);
      if q !in w || w[q].File? { FileDropped(w, q); }
    }
  }

  lemma DroppedNothing(t: Tree, q: string)
    ensures q !in t ==> (map p | p in t && p != q :: t[p]) == t
  {
  }

  /** The paths left with the room, and `q` itself, are canonical exactly when `q` is fine. */
  lemma RoomCanonical(entries: seq<Entry>, q: string)
    requires UniquePaths(entries) && Reopens(entries) && RoomEntries(entries, q).0.Ok?
    ensures AllCanonical(RoomEntries(entries, q).1) && Canonical(q) <==> Fine(q)
    ensures Fine(q) ==> Reopens(RoomEntries(entries, q).1)
  {
    hide UniquePaths, Retain, KindOf, ParentEntries, HasBlankPart, Canonical;
    var made := ParentEntries(entries, q).value;
    ParentsMade(entries, q);
    if Canonical(q) {
      ParentsCanonical(entries, q);
      RetainKeeps(made, p => p != q);
    }
  }

  /** From entries that reopen: what is left reopens, or, when not all was fine, cannot be opened. Once it
      cannot, nothing added changes that. */
  ghost predicate KeepsFine(before: seq<Entry>, fine: bool, after: seq<Entry>) {
    && (Reopens(before) ==> if fine then Reopens(after) else !AllCanonical(after))
    && (!AllCanonical(before) ==> !AllCanonical(after))
  }

  lemma FineThen(a: seq<Entry>, f: bool, b: seq<Entry>, g: bool, c: seq<Entry>)
    requires KeepsFine(a, f, b) && KeepsFine(b, g, c)
    ensures KeepsFine(a, f && g, c)
  {
    hide Canonical, HasBlankPart;
  }

  lemma FineSame(a: seq<Entry>, b: seq<Entry>)
    requires forall e :: e in a <==> e in b
    ensures KeepsFine(a, true, b)
  {
    hide Canonical, HasBlankPart;
  }

  lemma SortedIsSame(entries: seq<Entry>)
    ensures KeepsFine(entries, true, SortBy(EntryPath, entries))
  {
    hide SortBy, KeepsFine;
    SortKeepsMembers(entries);
    FineSame(entries, SortBy(EntryPath, entries));
  }

  /** Whether entries that reopen still do, once sorted. */
  lemma FineIsValid(before: seq<Entry>, fine: bool, after: seq<Entry>)
    requires KeepsFine(before, fine, after) && Reopens(before) && UniquePaths(after)
    ensures PathsValid(after) <==> fine
  {
    hide Canonical, HasBlankPart, UniquePaths;
  }

  /** A file added to room made for it. */
  lemma FileKeepsFine(entries: seq<Entry>, e: Entry)
    requires UniquePaths(entries) && RoomEntries(entries, e.path).0.Ok?
    ensures KeepsFine(entries, Fine(e.path), RoomEntries(entries, e.path).1 + [e])
  {
    hide UniquePaths, HasBlankPart, Canonical, RoomEntries;
    var room := RoomEntries(entries, e.path).1;
    InPush(room, e);
    assert e in room + [e];
    if Reopens(entries) {
      RoomCanonical(entries, e.path);
    }
    if !AllCanonical(entries) && Canonical(e.path) {
      var bad :| bad in entries && !Canonical(bad.path);
      RoomKeeps(entries, e.path, bad);
    }
  }

  lemma RoomKeeps(entries: seq<Entry>, path: string, e: Entry)
    requires UniquePaths(entries) && RoomEntries(entries, path).0.Ok? && e in entries && e.path != path
    ensures e in RoomEntries(entries, path).1
  {
    hide UniquePaths, Retain, KindOf, ParentEntries;
    ParentsMade(entries, path);
    RetainKeeps(ParentEntries(entries, path).value, p => p != path);
  }

  lemma FileDropped(t: Tree, q: string)
    requires TreeOk(t) && (q in t ==> t[q].File?)
    ensures TreeOk(map p | p in t && p != q :: t[p])
  {
    hide Canonical, IsDescendant;
  }

  /** Chunk by chunk, the ids recorded so far stand for the chunks read so far. */
  ghost predicate Recorded(done: seq<Bytes>, ids: seq<ChunkId>, ledger: Ledger, collided: bool) {
    && |ids| == |done|
    && forall i :: 0 <= i < |ids| ==> ids[i] in ledger && (!collided ==> PlainOf(ledger, ids[i]) == done[i])
  }

  lemma RecordedNext(done: seq<Bytes>, ids: seq<ChunkId>, before: Ledger, flag: bool,
                     chunk: Bytes, id: ChunkId, ledger: Ledger, collided: bool)
    requires Recorded(done, ids, before, flag) && Grows(before, ledger) && (flag ==> collided)
    requires id in ledger && (!collided ==> ledger[id].plain == chunk)
    ensures Recorded(done + [chunk], ids + [id], ledger, collided)
  {
  }

  /** Where the streaming of `content` stands: what is done, and what is still to come. */
  ghost predicate Progress(cutter: Cutter, content: Bytes, rest: Bytes, done: seq<Bytes>, ids: seq<ChunkId>, size: nat,
                           ledger: Ledger, collided: bool)
    requires cutter.Usable()
  {
    && done + Chunks(cutter, rest) == Chunks(cutter, content)
    && Recorded(done, ids, ledger, collided)
    && size == |Flatten(done)|
  }

  lemma ProgressStart(cutter: Cutter, content: Bytes, rest: Bytes, ledger: Ledger, collided: bool)
    requires cutter.Usable() && rest == [] + content
    ensures Progress(cutter, content, rest, [], [], 0, ledger, collided)
  {
    assert rest == content;
  }

  lemma EmitsShorter(cutter: Cutter, rest: Bytes, chunk: Bytes, after: Bytes)
    requires cutter.Usable() && 1 <= cutter.bounds.max && cutter.bounds.min <= cutter.bounds.max
    requires Emits(cutter, rest, Some(chunk), after)
    ensures |chunk| <= cutter.bounds.max && |after| < |rest|
  {
    hide FirstCut;
    ChunksCover(cutter, rest);
    assert Chunks(cutter, rest)[0] == chunk;
  }

  lemma ProgressStep(cutter: Cutter, content: Bytes, rest: Bytes, chunk: Bytes, after: Bytes,
                     done: seq<Bytes>, ids: seq<ChunkId>, size: nat,
                     before: Ledger, flag: bool, id: ChunkId, ledger: Ledger, collided: bool)
    requires cutter.Usable() && Progress(cutter, content, rest, done, ids, size, before, flag)
    requires Emits(cutter, rest, Some(chunk), after)
    requires Grows(before, ledger) && (flag ==> collided)
    requires id in ledger && (!collided ==> ledger[id].plain == chunk)
    ensures Progress(cutter, content, after, done + [chunk], ids + [id], size + |chunk|, ledger, collided)
  {
    hide FirstCut, Flatten, Recorded, Grows;
    var later := Chunks(cutter, after);
    assert Chunks(cutter, rest) == [chunk] + later;
    assert done + ([chunk] + later) == done + [chunk] + later;
    RecordedNext(done, ids, before, flag, chunk, id, ledger, collided);
    FlattenSnoc(done, chunk);
  }

  lemma ChunkToCome(cutter: Cutter, content: Bytes, rest: Bytes, chunk: Bytes, after: Bytes,
                    done: seq<Bytes>, ids: seq<ChunkId>, size: nat, ledger: Ledger, collided: bool)
    requires cutter.Usable() && Progress(cutter, content, rest, done, ids, size, ledger, collided)
    requires Emits(cutter, rest, Some(chunk), after)
    ensures chunk in Chunks(cutter, content)
    ensures done + [chunk] <= Chunks(cutter, content)
  {
    hide FirstCut, Recorded;
    var later := Chunks(cutter, after);
    assert Chunks(cutter, rest) == [chunk] + later;
    assert Chunks(cutter, content)[|done|] == chunk;
  }

  lemma ProgressEnd(cutter: Cutter, content: Bytes, rest: Bytes, after: Bytes, done: seq<Bytes>, ids: seq<ChunkId>, size: nat,
                    ledger: Ledger, collided: bool)
    requires cutter.Usable() && 1 <= cutter.bounds.max && cutter.bounds.min <= cutter.bounds.max
    requires Progress(cutter, content, rest, done, ids, size, ledger, collided) && Emits(cutter, rest, None, after)
    ensures Recorded(Chunks(cutter, content), ids, ledger, collided) && size == |content| && done == Chunks(cutter, content)
  {
    hide Flatten, Recorded;
    assert Chunks(cutter, []) == [];
    assert done + [] == done;
    ChunksCover(cutter, content);
  }

  lemma RecordedPlains(done: seq<Bytes>, ids: seq<ChunkId>, ledger: Ledger)
    requires Recorded(done, ids, ledger, false)
    ensures Plains(ids, ledger) == done
  {
  }

  lemma StreamedEntry(e: Entry, done: seq<Bytes>, content: Bytes, ledger: Ledger, collided: bool)
    requires Recorded(done, e.chunks, ledger, collided) && Flatten(done) == content
    requires !e.isDir && e.packOffset == None && e.size == |content|
    ensures EntryOk(e, ledger, collided)
    ensures !collided ==> Content(e, ledger) == content
  {
    if !collided {
      RecordedPlains(done, e.chunks, ledger);
    }
    assert forall id :: id in e.chunks ==> id in ledger;
  }

  /** Adding a file at `q` succeeded, and it is there with its bytes unless chunks collided, or
      failed; either way the rest was spared. */
  ghost predicate Landing(t: Tree, q: string, bytes: Bytes, r: Result<(), VaultError>, after: Tree, collided: bool) {
    && Spared(t, {q}, after)
    && (r.Ok? ==> q in after && after[q].File? && (!collided ==> after[q] == File(bytes)))
  }

  lemma NotLanded(t: Tree, q: string, bytes: Bytes, e: VaultError, after: Tree, collided: bool)
    requires Spared(t, {q}, after) || Spared(t, {}, after) || t == after
    ensures Landing(t, q, bytes, Err(e), after, collided)
  {
  }

  /** A file pushed where there is room for it lands there. */
  lemma FileLands(entries: seq<Entry>, e: Entry, bytes: Bytes, ledger: Ledger, collided: bool, t: Tree)
    requires EntriesOk(entries, ledger, collided) && e.path !in PathSet(entries)
    requires Spared(t, {e.path}, TreeOf(entries, ledger))
    requires EntryOk(e, ledger, collided) && !e.isDir && (!collided ==> Content(e, ledger) == bytes)
    ensures EntriesOk(entries + [e], ledger, collided)
    ensures Landing(t, e.path, bytes, Ok(()), TreeOf(entries + [e], ledger), collided)
  {
    hide TreeOf, UniquePaths, EntryOk, Content;
    TreePush(entries, e, ledger);
    InPush(entries, e);
  }

  /** For any path, in a well-formed tree: the manifest with the file in it can be opened again
      exactly when the path is canonical without a blank part, and its tree is well formed exactly
      when the path is clean. */
  lemma FileAnyPath(entries: seq<Entry>, e: Entry, ledger: Ledger, collided: bool)
    requires EntriesOk(entries, ledger, collided) && TreeOk(TreeOf(entries, ledger))
    requires RoomEntries(entries, e.path).0.Ok? && EntryOk(e, ledger, collided) && !e.isDir
    ensures var after := SortBy(EntryPath, RoomEntries(entries, e.path).1 + [e]);
            && (PathsValid(after) <==> Fine(e.path))
            && (TreeOk(TreeOf(after, ledger)) <==> Clean(e.path))
  {
    hide KeepsFine, Reopens, TreeOf, TreeOk, UniquePaths, EntryOk, Content, RoomEntries, HasBlankPart, Canonical,
      SortBy, Clean, NodeOf, RoomFor;
    var room := RoomEntries(entries, e.path).1;
    RoomSpares(entries, ledger, collided, e.path);
    UniqueIn(entries, ledger, collided);
    UniqueIn(room, ledger, collided);
    CanonicalTree(entries, ledger);
    FileKeepsFine(entries, e);
    SortedIsSame(room + [e]);
    FineThen(entries, Fine(e.path), room + [e], true, SortBy(EntryPath, room + [e]));
    TreePush(room, e, ledger);
    InPush(room, e);
    TreeSort(room + [e], ledger);
    FineIsValid(entries, Fine(e.path), SortBy(EntryPath, room + [e]));
    assert e in room + [e];
    if Clean(e.path) {
      RoomIsMade(entries, ledger, collided, e.path);
      FileIsPushed(room, e, ledger, collided, TreeOf(entries, ledger));
    } else if TreeOk(TreeOf(room + [e], ledger)) {
      TreeOkMeaning(TreeOf(room + [e], ledger));
    }
  }

  lemma FileIsPushed(entries: seq<Entry>, e: Entry, ledger: Ledger, collided: bool, t: Tree)
    requires EntriesOk(entries, ledger, collided) && TreeOk(t) && Clean(e.path)
    requires TreeOf(entries, ledger) == RoomFor(t, e.path) && AddFile(t, e.path, []).Ok?
    requires EntryOk(e, ledger, collided) && !e.isDir
    ensures EntriesOk(entries + [e], ledger, collided)
    ensures Ok(TreeOf(entries + [e], ledger)) == AddFile(t, e.path, Content(e, ledger))
    ensures TreeOk(TreeOf(entries + [e], ledger))
  {
    hide TreeOf, TreeOk, Clean, Ancestors, UniquePaths, EntryOk, FileAbove, Content;
    TreeAt(entries, ledger);
    TreePush(entries, e, ledger);
    InPush(entries, e);
    AddFileAnyBytes(t, e.path, [], Content(e, ledger));
    AddFileKeepsTree(t, e.path, Content(e, ledger));
    FillRoom(WithDirs(t, Ancestors(e.path)), e.path, File(Content(e, ledger)));
  }

  lemma FillRoom(t: Tree, q: string, node: Node)
    ensures (map p | p in t && p != q :: t[p])[q := node] == t[q := node]
  {
  }

  lemma UncleanCannot(t: Tree, q: string, bytes: Bytes, after: Tree, collided: bool)
    requires Landing(t, q, bytes, Ok(()), after, collided) && !Clean(q)
    ensures !TreeOk(after)
  {
    hide TreeOk, Clean, Spared;
    if TreeOk(after) { TreeOkMeaning(after); }
  }

  lemma EntriesSort(entries: seq<Entry>, ledger: Ledger, collided: bool)
    requires EntriesOk(entries, ledger, collided)
    ensures var sorted := SortBy(EntryPath, entries);
            && EntriesOk(sorted, ledger, collided) && Sorted(EntryPath, sorted)
            && TreeOf(sorted, ledger) == TreeOf(entries, ledger)
  {
    hide TreeOf, SortBy, Sorted, UniquePaths, EntryOk;
    TreeSort(entries, ledger);
  }
}
