/** An open vault: the entry list, the chunk records and the data section, changed in place by
    every operation. Each operation is proved against its meaning on the plain tree. */
module Vault {
  import opened Wrappers
  import opened ByteSeqs
  import opened Ordering
  import opened Paths
  import opened Chunking
  import opened Packing
  import opened VaultTypes
  import opened Stores
  import opened Ingestion
  import opened Trees
  import opened Manifests
  import opened Directories
  import opened FileSteps
  import opened PackSteps
  import opened Batches
  import opened Collection
  import opened Relocation
  import opened Extraction
  import opened Runs

  class OpenVault {
    const setup: Setup
    var entries: seq<Entry>
    var chunks: Records
    var data: Bytes
    /** The stored chunks by block index. */
    ghost var order: seq<ChunkId>
    /** What each stored chunk is. */
    ghost var ledger: Ledger
    /** Two different chunks have been given the same id. */
    ghost var collided: bool

    /** The store is sound, the entries refer to it, and no path is there twice. */
    ghost predicate Consistent()
      reads this
    {
      StoreOk(setup, order, ledger, chunks, data) && EntriesOk(entries, ledger, collided)
    }

    /** And every path is canonical, with explicit directories above it. */
    ghost predicate Valid()
      reads this
    {
      Consistent() && TreeOk(Tree())
    }

    /** The vault as a plain map. */
    ghost function Tree(): Tree
      reads this
    {
      TreeOf(entries, ledger)
    }

    predicate InOrder()
      reads this
    {
      Sorted(EntryPath, entries)
    }

    constructor (setup: Setup)
      ensures Valid() && Tree() == map[] && this.setup == setup && !collided && InOrder()
    {
      this.setup := setup;
      entries, chunks, data := [], map[], [];
      order, ledger, collided := [], map[], false;
    }

    // ---- directories ------------------------------------------------------

    method EnsureNoFileAncestor(path: string) returns (r: Result<(), VaultError>)
      ensures r == if FileAboveIn(entries, path) then Err(FileInTheWay) else Ok(())
    {
      hide FileIn;
      AncestorsAre(path);
      FileAboveMeans(entries, path);
      var current := path;
      while true
        invariant AtOrBelow(path, current)
        invariant forall a :: IsDescendant(path, a) && !IsDescendant(current, a) ==> !FileIn(entries, a)
        decreases |current|
      {
        ParentFacts(current);
        match Parent(current)
        case None =>
          AncestorsAre(current);
          return Ok(());
        case Some(parent) =>
          assert IsDescendant(path, parent) by { DescendantTransitiveUp(path, current, parent); }
          if FileIn(entries, parent) {
            return Err(FileInTheWay);
          }
          NextAncestor(current, parent);
          current := parent;
      }
    }

    /** Makes a directory and, first, its parents. What that does is stated for any argument in any
        manifest; what it means, for a well-formed one. */
    method CreateDirectory(arg: string) returns (r: Result<bool, VaultError>)
      modifies this`entries
      ensures match MkdirEntries(old(entries), arg)
              case Ok(made) => r == Ok(made.0) && entries == made.1
              case Err(e) => r == Err(e) && entries == old(entries)
      ensures old(Consistent()) ==> Consistent() && (old(InOrder()) ==> InOrder())
      ensures old(Valid()) && GoodArg(arg) ==> Valid()
      ensures old(Valid()) && GoodArg(arg) && Normalize(arg).Ok? ==> MkdirDone(old(Tree()), Normalize(arg).value, r, Tree())
      ensures old(Valid()) && r.Ok? ==> (Valid() <==> GoodArg(arg)) && (PathsValid(entries) <==> ReopenableArg(arg))
      decreases |arg|
    {
      hide TreeOf, TreeOk, StoreOk, EntriesOk, Find, Normalize, FileAboveIn, SortBy, Sorted, MkdirDone, GoodArg,
        ReopenableArg, PathsValid;
      MkdirMeans(arg);
      MkdirStep(entries, arg);
      if Normalize(arg).Err? {
        return Err(BadPath);
      }
      var dirPath := Normalize(arg).value;
      NormalizedIsShorter(arg);
      var clear := EnsureNoFileAncestor(dirPath);
      if clear.Err? {
        return Err(FileInTheWay);
      }
      match Find(entries, dirPath)
      case Some(existing) =>
        return if existing.isDir then Ok(false) else Err(FileInTheWay);
      case None =>
        ParentFacts(dirPath);
        var parent := Parent(dirPath);
        if parent.Some? {
          var made := CreateDirectory(parent.value);
          if made.Err? {
            return Err(made.error);
          }
        }
        entries := entries + [DirEntry(dirPath)];
        entries := SortBy(EntryPath, entries);
        return Ok(true);
    }

    lemma MkdirMeans(arg: string)
      ensures var after := AfterMkdir(entries, arg);
              && (Consistent() ==> EntriesOk(after, ledger, collided))
              && (Consistent() && InOrder() ==> Sorted(EntryPath, after))
              && (Valid() && GoodArg(arg) ==> TreeOk(TreeOf(after, ledger)))
              && (Valid() && GoodArg(arg) && Normalize(arg).Ok? ==>
                    MkdirDone(Tree(), Normalize(arg).value,
                              match MkdirEntries(entries, arg) case Ok(made) => Ok(made.0) case Err(e) => Err(e),
                              TreeOf(after, ledger)))
              && (Valid() && MkdirEntries(entries, arg).Ok? ==>
                    && (TreeOk(TreeOf(after, ledger)) <==> GoodArg(arg))
                    && (PathsValid(after) <==> ReopenableArg(arg)))
    {
      hide TreeOf, TreeOk, StoreOk, EntriesOk, MkdirEntries, Normalize, Sorted, MkdirDone, GoodArg, ReopenableArg,
        PathsValid;
      if Consistent() {
        MkdirKeepsEntries(entries, ledger, collided, arg);
      }
      if Valid() && GoodArg(arg) && Normalize(arg).Ok? {
        MkdirEntriesIsMkdir(entries, ledger, collided, arg);
      }
      if Valid() && MkdirEntries(entries, arg).Ok? {
        MkdirAnyArgument(entries, ledger, collided, arg);
      } else if Normalize(arg).Err? {
        MkdirStep(entries, arg);
      }
    }

    /** Makes the parents of `path`. */
    method EnsureParents(path: string) returns (r: Result<(), VaultError>)
      modifies this`entries
      ensures match ParentEntries(old(entries), path)
              case Ok(made) => r == Ok(()) && entries == made
              case Err(e) => r == Err(e) && entries == old(entries)
      ensures old(Consistent()) ==> Consistent() && (old(InOrder()) ==> InOrder())
      ensures old(Valid()) && Clean(path) ==>
                && Valid() && r.Ok? == !FileAbove(old(Tree()), path)
                && (r.Ok? ==> Tree() == WithDirs(old(Tree()), Ancestors(path)))
                && (r.Err? ==> r.error == FileInTheWay)
    {
      hide TreeOf, TreeOk, StoreOk, EntriesOk, MkdirEntries, Clean, Ancestors, FileAbove, Sorted, WithDirs,
        GoodArg, ReopenableArg, PathsValid, MkdirDone;
      if Consistent() {
        ParentsKeepEntries(entries, ledger, collided, path);
      }
      if Valid() && Clean(path) {
        ParentsAreDirs(entries, ledger, collided, path);
      }
      match Parent(path)
      case None =>
        return Ok(());
      case Some(parent) =>
        var made := CreateDirectory(parent);
        return if made.Ok? then Ok(()) else Err(made.error);
    }

    // ---- content ----------------------------------------------------------

    /** The index after the largest in use. */
    method NextBlockIndex() returns (next: nat)
      ensures forall id :: id in chunks ==> chunks[id].blockIndex < next
      ensures next == 0 || exists id :: id in chunks && chunks[id].blockIndex == next - 1
    {
      next := 0;
      var rest := chunks.Keys;
      while rest != {}
        invariant rest <= chunks.Keys
        invariant forall id :: id in chunks && id !in rest ==> chunks[id].blockIndex < next
        invariant next == 0 || exists id :: id in chunks && chunks[id].blockIndex == next - 1
        decreases |rest|
      {
        var id :| id in rest;
        if chunks[id].blockIndex >= next {
          next := chunks[id].blockIndex + 1;
        }
        rest := rest - {id};
      }
    }

    /** Stores a chunk unless one with its id is there. The nonce of a sealed block is not the caller's choice. */
    method IngestChunk(chunk: Bytes) returns (r: Result<ChunkId, VaultError>)
      requires Consistent() && Sound(setup.prims) && |chunk| <= setup.MaxBlockPlaintext()
      modifies this`chunks, this`data, this`order, this`ledger, this`collided
      ensures Consistent() && Tree() == old(Tree()) && Grows(old(ledger), ledger) && (old(collided) ==> collided)
      ensures r.Ok? <==> setup.prims.chunkId(chunk) in old(chunks) || CanStore(setup.prims, chunk)
      ensures r.Err? ==> r.error == CompressFailed && chunks == old(chunks) && data == old(data) && collided == old(collided)
      ensures r.Ok? ==> r.value == setup.prims.chunkId(chunk) && r.value in ledger
      ensures r.Ok? ==> collided == (old(collided) || ledger[r.value].plain != chunk)
      ensures r.Ok? ==> Ingested(setup.prims, old(chunks), [chunk], chunks)
      ensures r.Ok? && r.value in old(chunks) ==> chunks == old(chunks) && data == old(data)
      ensures r.Ok? && r.value !in old(chunks) ==> ledger[r.value].plain == chunk
      ensures r.Ok? && r.value !in old(chunks) ==>
                CellAppended(setup, old(chunks), old(data), chunk, r.value, chunks, data)
    {
      hide TreeOf, TreeOk, StoreOk, EntriesOk, Sound, Describes, Cell, Ingested, RecordedAs, Protect, CellAppended;
      var id := setup.prims.chunkId(chunk);
      StoreKeys(setup, order, ledger, chunks, data);
      if id !in chunks {
        var form := StoredForm(setup.prims, chunk, setup.prims.probe(chunk));
        if form.Err? {
          return Err(CompressFailed);
        }
        var (payload, raw) := form.value;
        var index := NextBlockIndex();
        var nonce: Nonce := *;
        var block := Protect(setup, nonce, index, id, payload);
        var rec := ChunkRecord(id, index, |data|, |block|, |chunk|, |payload|, setup.prims.blockHash(block), raw);
        ghost var dep := Deposit(chunk, block);
        StoredBlockDecodes(setup, nonce, chunk, setup.prims.probe(chunk), rec, block);
        AppendsCell(setup, nonce, chunk, rec, block, chunks, data);
        StoreAppend(setup, order, ledger, chunks, data, rec, dep);
        LedgerSteps(entries, ledger, ledger[id := dep], collided);
        data := data + Cell(block);
        chunks := chunks[id := rec];
        order := order + [id];
        ledger := ledger[id := dep];
      } else {
        EntriesAnyway(entries, ledger, collided);
        IngestedOne(setup.prims, chunks, chunk, chunks);
        collided := collided || ledger[id].plain != chunk;
      }
      return Ok(id);
    }

    /** Makes the parents of a file about to be written and drops the file it replaces. */
    method MakeRoom(path: string) returns (r: Result<(), VaultError>)
      modifies this`entries
      ensures (r, entries) == RoomEntries(old(entries), path)
      ensures old(Consistent()) ==>
                && Consistent() && Spared(old(Tree()), {path}, Tree())
                && (r.Ok? ==> path !in Tree() && path !in PathSet(entries))
                && (r.Err? ==> Spared(old(Tree()), {}, Tree()))
      ensures old(Valid()) && Clean(path) ==>
                && Valid()
                && AddFile(old(Tree()), path, []).Ok? == r.Ok?
                && (r.Ok? ==> Tree() == RoomFor(old(Tree()), path))
                && (r.Err? ==> AddFile(old(Tree()), path, []) == Err(r.error) && Tree() == old(Tree()))
    {
      hide TreeOf, TreeOk, StoreOk, EntriesOk, Clean, KindOf, Retain, ParentEntries, Spared, RoomFor, AddFile;
      if Consistent() {
        RoomSpares(entries, ledger, collided, path);
      }
      if Valid() && Clean(path) {
        RoomIsMade(entries, ledger, collided, path);
      }
      var parents := EnsureParents(path);
      if parents.Err? {
        return Err(parents.error);
      }
      var kind := KindOf(entries, path);
      if kind == Some(DirectoryKind) {
        return Err(DirectoryInTheWay);
      }
      if kind == Some(FileKind) {
        entries := Retain(entries, p => p != path);
      }
      return Ok(());
    }

    /** Streams `content` through the bounded-buffer chunker and stores every chunk. */
    method IngestStream(content: Bytes, failsAt: Option<nat>, cutter: Cutter) returns (r: Result<(seq<ChunkId>, nat), VaultError>)
      requires Consistent() && Sound(setup.prims) && cutter.Usable()
      requires 1 <= cutter.bounds.max <= setup.MaxBlockPlaintext() && cutter.bounds.min <= cutter.bounds.max
      modifies this`chunks, this`data, this`order, this`ledger, this`collided
      ensures Consistent() && Tree() == old(Tree())
      ensures old(collided) ==> collided
      ensures r.Err? ==> (r.error == Io && FailsIn(content, failsAt))
                         || (r.error == CompressFailed && !AllStorable(setup.prims, Chunks(cutter, content)))
      ensures r.Ok? ==> !FailsIn(content, failsAt) && Ingested(setup.prims, old(chunks), Chunks(cutter, content), chunks)
      ensures r.Ok? ==> Recorded(Chunks(cutter, content), r.value.0, ledger, collided) && r.value.1 == |content|
    {
      hide TreeOf, TreeOk, StoreOk, EntriesOk, Sound, Scanned, Grows, Progress, Emits, Chunks, Recorded, Ingested, AllStorable,
        RecordedAs, StreamingChunker.Bounded, FirstCut, Cutter.Usable, Setup.MaxBlockPlaintext;
      var reader := new ByteReader(content, failsAt);
      var chunker := new StreamingChunker(reader, cutter);
      var ids: seq<ChunkId> := [];
      var size: nat := 0;
      ghost var done: seq<Bytes> := [];
      ghost var rest := chunker.Remaining();
      ProgressStart(cutter, content, rest, ledger, collided);
      IngestedNone(setup.prims, chunks);
      while true
        invariant Consistent() && Tree() == old(Tree()) && (old(collided) ==> collided)
        invariant fresh(chunker) && fresh(reader) && reader.content == content && reader.failsAt == failsAt
        invariant Ingested(setup.prims, old(chunks), done, chunks)
        invariant chunker.Valid() && chunker.Bounded() && chunker.reader == reader && chunker.cutter == cutter
        invariant rest == chunker.Remaining() && Progress(cutter, content, rest, done, ids, size, ledger, collided)
        decreases |rest|
      {
        var next := chunker.NextChunk();
        if next.Err? {
          return Err(Io);
        }
        ghost var after := chunker.Remaining();
        if next.value.None? {
          ProgressEnd(cutter, content, rest, after, done, ids, size, ledger, collided);
          return Ok((ids, size));
        }
        var chunk := next.value.value;
        ghost var before, flag, had := ledger, collided, chunks;
        EmitsShorter(cutter, rest, chunk, after);
        ChunkToCome(cutter, content, rest, chunk, after, done, ids, size, ledger, collided);
        var id := IngestChunk(chunk);
        if id.Err? {
          NotStorable(setup.prims, Chunks(cutter, content), chunk);
          return Err(CompressFailed);
        }
        IngestedThen(setup.prims, old(chunks), done, had, [chunk], chunks);
        ProgressStep(cutter, content, rest, chunk, after, done, ids, size, before, flag, id.value, ledger, collided);
        rest := after;
        size := size + |chunk|;
        ids := ids + [id.value];
        done := done + [chunk];
      }
    }

    /** Streams a file into chunks and records it under its path. */
    method AppendFileAt(source: Source, arg: string) returns (r: Result<(), VaultError>)
      requires Consistent() && Sound(setup.prims)
      modifies this
      ensures Consistent() && (old(collided) ==> collided)
      ensures r.Ok? ==> Normalize(arg).Ok? && InOrder()
      ensures Normalize(arg).Err? ==> r == Err(BadPath) && Tree() == old(Tree())
      ensures Normalize(arg).Ok? ==>
                Landing(old(Tree()), Normalize(arg).value, source.content, r, Tree(), collided)
      ensures old(Valid()) && GoodArg(arg) ==> Valid()
      ensures old(Valid()) && GoodArg(arg) && Normalize(arg).Ok? ==>
                AddDone(old(Tree()), Normalize(arg).value, source.content, r, Tree(), collided)
      ensures old(Valid()) && r.Ok? ==> (Valid() <==> GoodArg(arg)) && (PathsValid(entries) <==> ReopenableArg(arg))
      ensures r.Ok? ==> KeepsFine(old(entries), Fine(Normalize(arg).value), entries)
      ensures Normalize(arg).Ok? ==>
                FileOutcome(setup, source, old(Tree()), Normalize(arg).value, old(chunks), chunks, old(Valid()) && GoodArg(arg), r)
    {
      hide TreeOf, TreeOk, StoreOk, EntriesOk, Clean, Normalize, AddFile, RoomFor, Sound, KeepsFine, Chunks,
        Ingested, AllStorable, FileOutcome, FileFault,
        SortBy, Sorted, Recorded, FirstCut, Landing, Spared, RoomEntries, GoodArg, ReopenableArg, PathsValid,
        HasBlankPart, Canonical, EntryOk, Content, Reopens, AllCanonical;
      if Normalize(arg).Err? {
        return Err(BadPath);
      }
      var entryPath := Normalize(arg).value;
      GoodArgIsClean(arg);
      ghost var t, before, good := Tree(), entries, Valid();
      ghost var c0, well := chunks, Valid() && GoodArg(arg);
      UniqueIn(entries, ledger, collided);
      if good { CanonicalTree(entries, ledger); }
      if !source.regular {
        NotLanded(t, entryPath, source.content, NotRegular, Tree(), collided);
        FaultIs(setup, source, NotRegular);
        FileFailed(setup, source, t, entryPath, c0, chunks, well, NotRegular);
        return Err(NotRegular);
      }
      var room := MakeRoom(entryPath);
      ghost var tr := Tree();
      AddFileAnyBytes(t, entryPath, [], source.content);
      if room.Err? {
        AddFileErrors(t, entryPath, []);
        NotLanded(t, entryPath, source.content, room.error, Tree(), collided);
        FileFailed(setup, source, t, entryPath, c0, chunks, well, room.error);
        return Err(room.error);
      }
      var bounds := setup.EffectiveBounds();
      if bounds.Err? {
        NotLanded(t, entryPath, source.content, BadBounds, Tree(), collided);
        FaultIs(setup, source, BadBounds);
        FileFailed(setup, source, t, entryPath, c0, chunks, well, BadBounds);
        return Err(BadBounds);
      }
      EffectiveBoundsFit(setup);
      var cutter := setup.CutterFor(bounds.value);
      var stored := IngestStream(source.content, source.failsAt, cutter);
      if stored.Err? {
        NotLanded(t, entryPath, source.content, stored.error, Tree(), collided);
        FaultIs(setup, source, stored.error);
        FileFailed(setup, source, t, entryPath, c0, chunks, well, stored.error);
        return Err(stored.error);
      }
      var (ids, size) := stored.value;
      var e := Entry(entryPath, size, false, ids, None);
      ChunksCover(cutter, source.content);
      StreamedEntry(e, Chunks(cutter, source.content), source.content, ledger, collided);
      FileLands(entries, e, source.content, ledger, collided, t);
      EntriesSort(entries + [e], ledger, collided);
      FileKeepsFine(before, e);
      SortedIsSame(entries + [e]);
      FineThen(before, Fine(entryPath), entries + [e], true, SortBy(EntryPath, entries + [e]));
      if good {
        UniqueIn(SortBy(EntryPath, entries + [e]), ledger, collided);
        FineIsValid(before, Fine(entryPath), SortBy(EntryPath, entries + [e]));
        if Clean(entryPath) {
          FileIsPushed(entries, e, ledger, collided, t);
        } else {
          UncleanCannot(t, entryPath, source.content, TreeOf(entries + [e], ledger), collided);
        }
      }
      FileDone(setup, source, t, entryPath, c0, chunks, well);
      entries := entries + [e];
      entries := SortBy(EntryPath, entries);
      return Ok(());
    }

    /** Chunks a pack and stores its chunks; tells where each came from. */
    method IngestPack(pack: Bytes, cutter: Cutter) returns (r: Result<seq<Placed<ChunkId>>, VaultError>)
      requires Consistent() && Sound(setup.prims) && cutter.Usable()
      requires 1 <= cutter.bounds.max <= setup.MaxBlockPlaintext() && cutter.bounds.min <= cutter.bounds.max
      modifies this`chunks, this`data, this`order, this`ledger, this`collided
      ensures Consistent() && Tree() == old(Tree())
      ensures old(collided) ==> collided
      ensures r.Err? ==> r.error == CompressFailed && !AllStorable(setup.prims, Chunks(cutter, pack))
      ensures r.Ok? ==> PackStored(pack, r.value, ledger, collided) && Ingested(setup.prims, old(chunks), Chunks(cutter, pack), chunks)
    {
      hide TreeOf, TreeOk, StoreOk, EntriesOk, Sound, Recorded, Ranges, Chunks, PackStored, Flatten, Zip, Tiles,
        Delimit, Grows, Ingested, AllStorable, RecordedAs, AllCutAt, WithinBounds;
      var ranges := ChunkRangesWith(cutter, pack);
      assert pack[0..] == pack;
      RangesDelimitChunks(cutter, pack, 0);
      ghost var pieces := Chunks(cutter, pack);
      PiecesFit(cutter, pack, ranges, pieces);
      var placed: seq<Placed<ChunkId>> := [];
      ghost var ids: seq<ChunkId> := [];
      NothingRecorded(ledger, collided);
      assert pieces[..0] == [] && ranges[..0] == [];
      ZipNone<ChunkId>();
      IngestedNone(setup.prims, chunks);
      for i := 0 to |ranges|
        invariant Ingested(setup.prims, old(chunks), pieces[..i], chunks)
        invariant Consistent() && Tree() == old(Tree()) && (old(collided) ==> collided)
        invariant |ids| == i && placed == Zip(ranges[..i], ids)
        invariant Recorded(pieces[..i], ids, ledger, collided)
      {
        var (start, end) := ranges[i];
        var chunk := pack[start..end];
        ghost var before, flag, had := ledger, collided, chunks;
        var id := IngestChunk(chunk);
        if id.Err? {
          NotStorable(setup.prims, pieces, chunk);
          return Err(CompressFailed);
        }
        assert pieces[..i + 1] == pieces[..i] + [chunk];
        IngestedThen(setup.prims, old(chunks), pieces[..i], had, [chunk], chunks);
        assert ranges[..i + 1] == ranges[..i] + [ranges[i]];
        RecordedNext(pieces[..i], ids, before, flag, chunk, id.value, ledger, collided);
        ZipSnoc(ranges[..i], ids, ranges[i], id.value);
        placed := placed + [Placed(id.value, start, end)];
        ids := ids + [id.value];
      }
      assert ranges[..|ranges|] == ranges && pieces[..|pieces|] == pieces;
      PackIsStored(pack, ranges, pieces, ids, ledger, collided);
      return Ok(placed);
    }

    /** Chunks a pack, then records every member with the chunks that cover it. */
    method FlushPack(pack: Bytes, members: seq<Member>, cutter: Cutter, ghost files: seq<SmallFile>)
      returns (r: Result<(), VaultError>)
      requires Consistent() && Sound(setup.prims) && cutter.Usable()
      requires 1 <= cutter.bounds.max <= setup.MaxBlockPlaintext() && cutter.bounds.min <= cutter.bounds.max
      requires Pack(pack, members) == PackOf(files)
      modifies this
      ensures Consistent() && (old(collided) ==> collided)
      ensures old(Valid()) && AllClean(files) ==> Valid()
      ensures Added(old(Tree()), old(entries), files, r, Tree(), entries, collided, old(Valid()) && AllClean(files))
      ensures r.Ok? ==> Ingested(setup.prims, old(chunks), Chunks(cutter, pack), chunks)
      ensures old(Valid()) && AllClean(files) && r.Err? && r.error in ENVIRONMENT ==>
                r.error == CompressFailed && !AllStorable(setup.prims, Chunks(cutter, pack))
    {
      hide TreeOf, TreeOk, StoreOk, EntriesOk, Clean, Sound, AddFile, PackStored, PackOf, Landing, PathSet, Added,
        KeepsFine, Fine, Ingested, AllStorable, Chunks;
      ghost var t, e0, good := Tree(), entries, Valid() && AllClean(files);
      AddedNothing(t, e0, collided, good);
      if members == [] {
        NoMembers(files);
        NothingToStore(setup.prims, cutter, chunks);
        return Ok(());
      }
      var stored := IngestPack(pack, cutter);
      if stored.Err? {
        AddedBroken(t, e0, [], e0, old(collided), files, CompressFailed, Tree(), entries, collided, good);
        return Err(CompressFailed);
      }
      var placed := stored.value;
      assert files[..0] == [];
      MemberCount(files);
      AddedNothing(t, e0, collided, good);
      for i := 0 to |members|
        invariant Consistent() && (old(collided) ==> collided)
        invariant PackStored(pack, placed, ledger, collided)
        invariant good ==> TreeOk(Tree())
        invariant Added(t, e0, files[..i], Ok(()), Tree(), entries, collided, good)
        invariant Ingested(setup.prims, old(chunks), Chunks(cutter, pack), chunks)
      {
        ghost var ti, ei := Tree(), entries;
        MemberSpan(files, i);
        assert files[i] in files && files[i..i + 1] == [files[i]];
        var recorded := RecordMember(placed, members[i], pack);
        AddedOne(ti, ei, files[i], recorded, Tree(), entries, collided, good);
        AddedSlice(t, e0, files, i, i + 1, ti, ei, collided, good, recorded, Tree(), entries, collided, good);
        if recorded.Err? {
          return recorded;
        }
        UnitOk(recorded);
      }
      assert files[..|members|] == files;
      return Ok(());
    }

    /** Records one member of a stored pack, with the chunks that cover it and where it begins in the
        first of them. */
    method RecordMember(placed: seq<Placed<ChunkId>>, m: Member, ghost pack: Bytes) returns (r: Result<(), VaultError>)
      requires Consistent() && PackStored(pack, placed, ledger, collided) && m.start + m.len <= |pack|
      modifies this`entries
      ensures Consistent()
      ensures Landing(old(Tree()), m.path, pack[m.start..m.start + m.len], r, Tree(), collided)
      ensures old(Valid()) && Clean(m.path) ==> Valid()
      ensures old(Valid()) && Clean(m.path) && !collided ==>
                && AddDone(old(Tree()), m.path, pack[m.start..m.start + m.len], r, Tree(), false)
                && (r.Err? ==> Tree() == old(Tree()))
      ensures r.Ok? ==> KeepsFine(old(entries), Fine(m.path), entries)
      ensures old(Valid()) && Clean(m.path) && r.Err? ==> r.error !in ENVIRONMENT
    {
      hide TreeOf, TreeOk, StoreOk, EntriesOk, Clean, AddFile, RoomFor, RoomEntries, PackStored, Content, Covering,
        InRow, Names, Spared, Landing, Overlaps, KeepsFine, Fine;
      ghost var before := entries;
      UniqueIn(entries, ledger, collided);
      ghost var t, good, bytes := Tree(), Valid() && Clean(m.path), pack[m.start..m.start + m.len];
      AddFileAnyBytes(t, m.path, [], bytes);
      r := MakeRoom(m.path);
      if r.Err? {
        AddFileErrors(t, m.path, []);
        NotLanded(t, m.path, bytes, r.error, Tree(), collided);
        return;
      }
      UnitOk(r);
      PackInRow(pack, placed, ledger, collided);
      var covering: seq<ChunkId> := [];
      var packOffset: nat := 0;
      if m.len != 0 {
        var fend := m.start + m.len;
        var first: Option<nat> := None;
        ghost var from: nat := 0;
        ghost var room := entries;
        assert placed[..0] == [] && placed[0..] == placed;
        NothingCovers<ChunkId>(m.start, fend);
        for i := 0 to |placed|
          invariant entries == room && InRow(placed[i..], from)
          invariant first.None? ==> from <= m.start || fend <= from
          invariant first.Some? ==> first.value <= m.start
          invariant FoundSoFar(placed[..i], m.start, fend, covering, first)
        {
          FoundNext(placed, i, m.start, fend, covering, first);
          RowNext(placed, i, from);
          var c := placed[i];
          if c.start < fend && m.start < c.end {
            if first.None? {
              first := Some(c.start);
            }
            covering := covering + [c.name];
          }
          from := c.end;
        }
        assert placed[..|placed|] == placed;
        if first.None? {
          CoverFinds(pack, placed, ledger, collided, m);
          NotLanded(t, m.path, bytes, PackingFailed, Tree(), collided);
          return Err(PackingFailed);
        }
        packOffset := m.start - first.value;
      }
      var e := Entry(m.path, m.len, false, covering, Some(packOffset));
      PackedEntry(pack, placed, ledger, collided, m, e);
      FileLands(entries, e, bytes, ledger, collided, t);
      if good { FileIsPushed(entries, e, ledger, collided, t); }
      FileKeepsFine(before, e);
      entries := entries + [e];
    }

    /** Packs the small files, in path order, and records them. */
    method AppendSmall(small: seq<SmallFile>, cutter: Cutter) returns (r: Result<(), VaultError>)
      requires Consistent() && Sound(setup.prims) && cutter.Usable()
      requires 1 <= cutter.bounds.max <= setup.MaxBlockPlaintext() && cutter.bounds.min <= cutter.bounds.max
      modifies this
      ensures Consistent() && (old(collided) ==> collided)
      ensures old(Valid()) && AllClean(small) ==> Valid()
      ensures Added(old(Tree()), old(entries), SortBy(ByPath, small), r, Tree(), entries, collided, old(Valid()) && AllClean(small))
      ensures r.Ok? ==> (forall f :: f in small ==> !f.fails)
                        && Ingested(setup.prims, old(chunks), SortedBlocks(cutter, SortBy(ByPath, small)), chunks)
      ensures old(Valid()) && AllClean(small) && r.Err? && r.error in ENVIRONMENT ==> SmallFault(setup.prims, cutter, small, r.error)
    {
      hide TreeOf, TreeOk, StoreOk, EntriesOk, Clean, Sound, PackOf, SortBy, Added, AllClean, Ingested, AllStorable, PackedSoFar,
        Closes, SortedBlocks, PackBlocks, Chunks, Size;
      var sorted := SortBy(ByPath, small);
      SortedIsAsLong(small);
      SortBySameElements(ByPath, small);
      ghost var t, e0, c0, good := Tree(), entries, chunks, Valid() && AllClean(small);
      var pack: Bytes := [];
      var members: seq<Member> := [];
      ghost var open: seq<SmallFile> := [];
      ghost var closed: seq<seq<SmallFile>> := [];
      ghost var k: nat := 0;
      EmptyPack();
      AddedNothing(t, e0, collided, good);
      PackedNothing(setup.prims, cutter, sorted, chunks);
      assert sorted[..0] == [];
      for i := 0 to |sorted|
        invariant Consistent() && (old(collided) ==> collided)
        invariant k <= i && open == sorted[k..i] && Pack(pack, members) == PackOf(open)
        invariant good ==> TreeOk(Tree())
        invariant Added(t, e0, sorted[..k], Ok(()), Tree(), entries, collided, good)
        invariant PackedSoFar(setup.prims, cutter, c0, sorted, i, open, closed, chunks)
        invariant forall j :: 0 <= j < i ==> !sorted[j].fails
      {
        var f := sorted[i];
        assert f in sorted;
        if f.fails {
          AddedBroken(t, e0, sorted[..k], entries, collided, sorted, Io, Tree(), entries, collided, good);
          return Err(Io);
        }
        PackOfSnoc(open, f);
        PackedNext(setup.prims, cutter, c0, sorted, i, open, closed, chunks);
        assert sorted[k..i + 1] == open + [f];
        var start := |pack|;
        pack := pack + f.bytes;
        members := members + [Member(f.path, start, |f.bytes|)];
        open := open + [f];
        PackSize(open);
        if |pack| >= PACK_TARGET {
          SortedClean(small, k, i + 1);
          ghost var tk, ek, ck, flag, also := Tree(), entries, chunks, collided, Valid() && AllClean(open);
          var flushed := FlushPack(pack, members, cutter, open);
          AddedSlice(t, e0, sorted, k, i + 1, tk, ek, flag, good, flushed, Tree(), entries, collided, also);
          if flushed.Err? {
            FlushFails(setup.prims, cutter, small, sorted, i + 1, open, closed, flushed.error, also);
            return flushed;
          }
          PackedPack(setup.prims, cutter, c0, sorted, i + 1, open, closed, ck, chunks);
          UnitOk(flushed);
          closed := closed + [open];
          pack, members, open, k := [], [], [], i + 1;
          EmptyPack();
        }
      }
      assert sorted[..|sorted|] == sorted;
      PackedLast(setup.prims, cutter, c0, sorted, open, closed, chunks);
      if members != [] {
        SortedClean(small, k, |sorted|);
        ghost var tk, ek, ck, flag, also := Tree(), entries, chunks, collided, Valid() && AllClean(open);
        MemberCount(open);
        var flushed := FlushPack(pack, members, cutter, open);
        AddedSlice(t, e0, sorted, k, |sorted|, tk, ek, flag, good, flushed, Tree(), entries, collided, also);
        if flushed.Err? {
          FlushFails(setup.prims, cutter, small, sorted, |sorted|, open, closed, flushed.error, also);
        } else {
          PackedPack(setup.prims, cutter, c0, sorted, |sorted|, open, closed, ck, chunks);
          PackedLast(setup.prims, cutter, c0, sorted, [], closed + [open], chunks);
        }
        return flushed;
      }
      NoMembers(open);
      assert sorted[..k] == sorted;
      return Ok(());
    }

    /** The first pass over a batch: adds the large files one by one as they come, and keeps the small
        ones for later. */
    method AppendLarge(jobs: seq<Job>) returns (r: Result<seq<SmallFile>, VaultError>)
      requires Consistent() && Sound(setup.prims)
      modifies this
      ensures Consistent() && (old(collided) ==> collided)
      ensures old(Valid()) && AllGood(jobs) ==> Valid()
      ensures r.Ok? ==>
                && r.value == Small(jobs) && (forall j :: j in jobs ==> Landed(j).Ok?)
                && (AllGood(jobs) ==> AllClean(r.value))
                && Added(old(Tree()), old(entries), Large(jobs), Ok(()), Tree(), entries, collided, old(Valid()) && AllGood(jobs))
      ensures r.Ok? ==> (forall j :: j in jobs ==> LargeDone(j)) && Ingested(setup.prims, old(chunks), LargeBlocks(setup, Large(jobs)), chunks)
      ensures r.Err? ==> LandedAll(old(Tree()), BatchOrder(jobs), Err(r.error), Tree(), collided)
      ensures r.Err? && old(Valid()) && AllGood(jobs) && !collided ==> AddAllDone(old(Tree()), BatchOrder(jobs), Err(r.error), Tree())
      ensures r.Err? && old(Valid()) && AllGood(jobs) && r.error in ENVIRONMENT ==> BatchFault(setup, jobs, r.error)
    {
      hide TreeOf, TreeOk, StoreOk, EntriesOk, Clean, Sound, AddAll, AddFile, SortBy, Sorted, Normalize, GoodArg,
        Large, Small, Landing, IsSmall, AllGood, PathsValid, Landed, ReopenableArg, Added, LandedAll, AddAllDone,
        KeepsFine, Fine, AddDone, BatchOrder, Ingested, FileFault, BatchFault, LargeBlocks, FileBlocks, FileOutcome, Source.Fails;
      ghost var t, e0, c0, good := Tree(), entries, chunks, Valid() && AllGood(jobs);
      AddedNothing(t, e0, collided, good);
      var small: seq<SmallFile> := [];
      NoJobs();
      NoLargeBlocks(setup);
      IngestedNone(setup.prims, chunks);
      assert jobs[..0] == [];
      for i := 0 to |jobs|
        invariant Consistent() && (old(collided) ==> collided)
        invariant forall j :: 0 <= j < i ==> Landed(jobs[j]).Ok? && LargeDone(jobs[j])
        invariant small == Small(jobs[..i]) && (AllGood(jobs) ==> AllClean(small))
        invariant good ==> TreeOk(Tree())
        invariant Added(t, e0, Large(jobs[..i]), Ok(()), Tree(), entries, collided, good)
        invariant Ingested(setup.prims, c0, LargeBlocks(setup, Large(jobs[..i])), chunks)
      {
        var job := jobs[i];
        assert job in jobs;
        assert jobs[..i + 1] == jobs[..i] + [job];
        JobsSnoc(jobs[..i], job);
        JobLands(jobs, job);
        if Normalize(job.target).Err? {
          BatchBroken(t, e0, jobs, i, BadPath, Tree(), entries, collided, good);
          JobFaults(setup, jobs, job, BadPath);
          return Err(BadPath);
        }
        var entryPath := Normalize(job.target).value;
        if !job.source.regular {
          BatchBroken(t, e0, jobs, i, NotRegular, Tree(), entries, collided, good);
          JobFaults(setup, jobs, job, NotRegular);
          return Err(NotRegular);
        }
        if job.source.statFails {
          BatchBroken(t, e0, jobs, i, Io, Tree(), entries, collided, good);
          JobFaults(setup, jobs, job, Io);
          return Err(Io);
        }
        if IsSmall(job.source.statLen) {
          small := small + [SmallFile(entryPath, job.source.content, job.source.Fails())];
        } else {
          ghost var ti, ei, ci, flag, also := Tree(), entries, chunks, collided, Valid() && GoodArg(entryPath);
          var added := AppendFileAt(job.source, entryPath);
          if Normalize(entryPath).Ok? {
            FileOutcomeMeans(setup, job.source, ti, Normalize(entryPath).value, ci, chunks, also, added);
          }
          if added.Err? {
            LargeFails(t, e0, jobs, i, ti, ei, flag, added, Tree(), entries, collided, good);
            if good && added.error in ENVIRONMENT {
              if Normalize(entryPath).Err? { JobFaults(setup, jobs, job, BadPath); } else { LargeFault(setup, jobs, i, added.error); }
            }
            return Err(added.error);
          }
          UnitOk(added);
          AddedOne(ti, ei, FileOf(job), added, Tree(), entries, collided, good);
          AddedThen(t, e0, Large(jobs[..i]), ti, ei, flag, good, [FileOf(job)], added, Tree(), entries, collided, good);
          LargeBlocksSnoc(setup, Large(jobs[..i]), FileOf(job));
          IngestedThen(setup.prims, c0, LargeBlocks(setup, Large(jobs[..i])), ci, FileBlocks(setup, job.source.content), chunks);
        }
      }
      assert jobs[..|jobs|] == jobs;
      return Ok(small);
    }

    /** Adds a batch: large files one by one as they come, then the small ones through packs. */
    method AppendSourcesBatched(jobs: seq<Job>) returns (r: Result<(), VaultError>)
      requires Consistent() && Sound(setup.prims)
      modifies this
      ensures Consistent() && (old(collided) ==> collided)
      ensures r.Ok? ==> InOrder()
      ensures BatchOutcome(setup, jobs, old(Tree()), old(chunks), chunks, old(Valid()) && AllGood(jobs), collided, r)
      ensures LandedAll(old(Tree()), BatchOrder(jobs), r, Tree(), collided)
      ensures old(Valid()) && AllGood(jobs) ==>
                Valid() && (!collided ==> AddAllDone(old(Tree()), BatchOrder(jobs), r, Tree()))
      ensures old(Valid()) && r.Ok? ==> (Valid() <==> AllGood(jobs)) && (PathsValid(entries) <==> AllReopenable(jobs))
    {
      hide TreeOf, TreeOk, StoreOk, EntriesOk, Clean, Sound, SortBy, Sorted, Large, Small, AllGood, PathsValid,
        Landed, Added, LandedAll, AddAllDone, KeepsFine, AllReopenable, Reopens, AllCanonical, BatchOrder, Ingested, BatchFault,
        BatchBlocks, LargeBlocks, SortedBlocks, SmallFault, BatchOutcome, LargeDone;
      ghost var t, e0, c0, good := Tree(), entries, chunks, Valid() && AllGood(jobs);
      if Valid() {
        UniqueIn(entries, ledger, collided);
        CanonicalTree(entries, ledger);
      }
      var bounds := setup.EffectiveBounds();
      if bounds.Err? {
        AddedNothing(t, e0, collided, good);
        NoJobs();
        assert jobs[..0] == [];
        BatchBroken(t, e0, jobs, 0, BadBounds, Tree(), entries, collided, good);
        BoundsFault(setup, jobs);
        BatchExactly(setup, t, jobs, c0, chunks, good, collided, Err(BadBounds), Tree());
        return Err(BadBounds);
      }
      EffectiveBoundsFit(setup);
      var large := AppendLarge(jobs);
      if large.Err? {
        BatchExactly(setup, t, jobs, c0, chunks, good, collided, Err(large.error), Tree());
        return Err(large.error);
      }
      var small := large.value;
      BatchOfBlocks(setup, jobs);
      ghost var tl, el, cl, flag, also := Tree(), entries, chunks, collided, Valid() && AllClean(small);
      var packed := AppendSmall(small, setup.CutterFor(bounds.value));
      AddedThen(t, e0, Large(jobs), tl, el, flag, good, SortBy(ByPath, small), packed, Tree(), entries, collided, also);
      BatchOf(jobs);
      AddedMeans(t, e0, BatchOrder(jobs), packed, Tree(), entries, collided, good);
      if packed.Err? {
        SmallIsBatchFault(setup, jobs, packed.error);
        BatchExactly(setup, t, jobs, c0, chunks, good, collided, packed, Tree());
        return packed;
      }
      IngestedThen(setup.prims, c0, LargeBlocks(setup, Large(jobs)), cl,
                   SortedBlocks(setup.CutterFor(bounds.value), SortBy(ByPath, small)), chunks);
      UnitOk(packed);
      AllAreRead(jobs);
      BatchExactly(setup, t, jobs, c0, chunks, good, collided, Ok(()), Tree());
      BatchEnds(t, e0, jobs, good);
      entries := SortBy(EntryPath, entries);
      return Ok(());
    }

    /** What the last sort of a batch leaves. */
    lemma BatchEnds(t: Tree, e0: seq<Entry>, jobs: seq<Job>, good: bool)
      requires Consistent() && Added(t, e0, BatchOrder(jobs), Ok(()), Tree(), entries, collided, good)
      requires forall j :: j in jobs ==> Landed(j).Ok?
      ensures var sorted := SortBy(EntryPath, entries);
              && EntriesOk(sorted, ledger, collided) && Sorted(EntryPath, sorted) && TreeOf(sorted, ledger) == Tree()
              && (TreeOk(Tree()) ==> AllGood(jobs))
              && (Reopens(e0) ==> (PathsValid(sorted) <==> AllReopenable(jobs)))
    {
      hide TreeOf, TreeOk, StoreOk, EntriesOk, SortBy, Sorted, BatchOrder, Landed, AllGood, AllReopenable,
        PathsValid, KeepsFine, Reopens, AllFine, AddAllDone, AddAll;
      var sorted := SortBy(EntryPath, entries);
      EntriesSort(entries, ledger, collided);
      UniqueIn(sorted, ledger, collided);
      SortedIsSame(entries);
      FineThen(e0, AllFine(BatchOrder(jobs)), entries, true, sorted);
      ReopenableIsFine(jobs);
      if Reopens(e0) { FineIsValid(e0, AllFine(BatchOrder(jobs)), sorted); }
      if TreeOk(Tree()) {
        LandedClean(t, BatchOrder(jobs), Tree(), collided);
        CleanJobs(jobs);
      }
    }

    /** A batch stopped by something outside. */
    lemma BatchBroken(t: Tree, e0: seq<Entry>, jobs: seq<Job>, i: nat, e: VaultError, after: Tree, now: seq<Entry>,
                      collides: bool, good: bool)
      requires i <= |jobs| && Added(t, e0, Large(jobs[..i]), Ok(()), after, now, collides, good) && e in ENVIRONMENT
      ensures LandedAll(t, BatchOrder(jobs), Err(e), after, collides)
      ensures good && !collides ==> AddAllDone(t, BatchOrder(jobs), Err(e), after)
    {
      hide Added, LandedAll, AddAllDone, BatchOrder, Large;
      LargeFirst(jobs, i);
      AddedBroken(t, e0, Large(jobs[..i]), now, collides, BatchOrder(jobs), e, after, now, collides, good);
      AddedMeans(t, e0, BatchOrder(jobs), Err(e), after, now, collides, good);
    }

    /** A large file of a batch fails, and the batch with it. */
    lemma LargeFails(t: Tree, e0: seq<Entry>, jobs: seq<Job>, i: nat, ti: Tree, ei: seq<Entry>, flag: bool,
                     added: Result<(), VaultError>, after: Tree, now: seq<Entry>, collides: bool, good: bool)
      requires i < |jobs| && added.Err? && !IsSmall(jobs[i].source.statLen)
      requires Added(t, e0, Large(jobs[..i]), Ok(()), ti, ei, flag, good) && (flag ==> collides)
      requires Landed(jobs[i]).Err? ==> added.error == BadPath && after == ti
      requires Landed(jobs[i]).Ok? ==>
                 && Landing(ti, FileOf(jobs[i]).path, FileOf(jobs[i]).bytes, added, after, collides)
                 && (good && !collides ==> AddDone(ti, FileOf(jobs[i]).path, FileOf(jobs[i]).bytes, added, after, false))
      ensures LandedAll(t, BatchOrder(jobs), added, after, collides)
      ensures good && !collides ==> AddAllDone(t, BatchOrder(jobs), added, after)
    {
      hide Landed, FileOf, AddAll, AddFile, Added, LandedAll, AddAllDone, Landing, AddDone, BatchOrder, Large, Small;
      var job := jobs[i];
      assert jobs[..i + 1] == jobs[..i] + [job];
      JobsSnoc(jobs[..i], job);
      LargeFirst(jobs, i);
      LargeFirst(jobs, i + 1);
      if Landed(job).Err? {
        AddedBroken(t, e0, Large(jobs[..i]), ei, flag, BatchOrder(jobs), BadPath, after, now, collides, good);
      } else {
        AddedOne(ti, ei, FileOf(job), added, after, now, collides, good);
        AddedThen(t, e0, Large(jobs[..i]), ti, ei, flag, good, [FileOf(job)], added, after, now, collides, good);
        AddedPartly(t, e0, Large(jobs[..i + 1]), BatchOrder(jobs), added.error, after, now, collides, good);
      }
      AddedMeans(t, e0, BatchOrder(jobs), added, after, now, collides, good);
    }

    // ---- garbage collection -----------------------------------------------

    /** Some chunk an entry refers to is over the block limit. */
    ghost predicate Oversized()
      reads this
    {
      exists id :: id in LiveIds(entries) && id in chunks && chunks[id].blockLen > MAX_BLOCK_SIZE
    }

    /** Keeps exactly the chunks some entry refers to, and closes the gaps the others leave. Fails,
        changing nothing, exactly when a chunk to keep is over the block limit. */
    method CompactLiveChunks() returns (r: Result<(), VaultError>)
      requires Consistent()
      modifies this`chunks, this`data, this`order, this`ledger
      ensures Consistent() && Tree() == old(Tree())
      ensures r.Err? <==> old(Oversized())
      ensures BlocksFit(setup) ==> r.Ok?
      ensures r.Err? ==> chunks == old(chunks) && data == old(data) && r.error == LengthMismatch
      ensures r.Ok? ==> chunks.Keys == LiveIds(entries)
      ensures r.Ok? ==> SameButOffsets(old(chunks), chunks)
      ensures r.Ok? ==> order == Survivors(old(order), LiveIds(entries))
    {
      hide TreeOf, TreeOk, StoreOk, EntriesOk, Survivors, Rebased, DataOf, LiveIds, Restricted;
      var live := LiveIds(entries);
      FitMeansWithinLimit(setup, order, ledger, chunks, data);
      LiveStored(entries, ledger, collided, setup, order, chunks, data);
      CompactedStoreOk(setup, order, ledger, chunks, data, live);
      LiveLedger(entries, ledger, live, collided);
      CompactedRecords(setup, order, ledger, chunks, data, live);
      if live == {} {
        NothingKept(Survivors(order, live), ledger, chunks);
        chunks, data := map[], [];
      } else {
        var packed := PackLive(setup, order, ledger, chunks, data, live);
        if packed.Err? {
          return Err(packed.error);
        }
        chunks, data := packed.value.0, packed.value.1;
      }
      order, ledger := Survivors(order, live), Restricted(ledger, live);
      return Ok(());
    }

    /** Deletes the named entries in turn, then collects the chunks nothing refers to any more. */
    method DeleteEntries(names: seq<string>, recursive: bool) returns (r: Result<nat, VaultError>)
      requires Consistent()
      modifies this
      ensures Consistent() && collided == old(collided) && (old(Valid()) ==> Valid())
      ensures r.Ok? ==> DeleteAll(old(Tree()), names, recursive) == Ok(Tree())
      ensures r.Ok? ==> r.value == old(|entries|) - |entries|
      ensures r.Ok? && r.value > 0 ==> chunks.Keys == LiveIds(entries)
      ensures Tree() == DeletedUpTo(old(Tree()), names, recursive)
      ensures r.Err? ==> DeleteAll(old(Tree()), names, recursive) == Err(r.error)
                         || (r.error == LengthMismatch && Oversized() && !BlocksFit(setup))
      ensures r.Ok? && old(InOrder()) ==> InOrder()
    {
      hide TreeOf, TreeOk, StoreOk, EntriesOk, Normalize, KindOf, LiveIds, Retain, IsDescendant, Sorted, SortBy,
        DeleteAll, DeleteOne, DeletedUpTo;
      var removed := 0;
      ghost var t := Tree();
      DeleteNone(t, recursive);
      assert names[..0] == [];
      for i := 0 to |names|
        invariant Consistent() && collided == old(collided) && (old(Valid()) ==> Valid())
        invariant DeleteAll(t, names[..i], recursive) == Ok(Tree())
        invariant removed == old(|entries|) - |entries| && removed >= 0
        invariant removed == 0 ==> entries == old(entries)
      {
        assert names[..i + 1] == names[..i] + [names[i]];
        DeleteStep(t, names[..i], names[i], recursive);
        DeleteStops(t, names[..i + 1], names, recursive);
        if DeleteAll(t, names[..i + 1], recursive).Err? { DeletedUpToIs(t, names, i, recursive); }
        if Normalize(names[i]).Err? {
          return Err(BadPath);
        }
        var q := Normalize(names[i]).value;
        var kind := KindOf(entries, q);
        DeleteCases(entries, ledger, collided, q, recursive);
        if kind.None? {
          return Err(NotFound);
        }
        var before := |entries|;
        if kind.value.FileKind? {
          entries := Retain(entries, p => p != q);
        } else {
          var hasChildren := exists e :: e in entries && IsDescendant(e.path, q);
          if hasChildren && !recursive {
            return Err(NotEmpty);
          }
          entries := Retain(entries, p => p != q && !IsDescendant(p, q));
        }
        removed := removed + (before - |entries|);
      }
      assert names[..|names|] == names;
      DeletedAll(t, names, recursive);
      if removed > 0 {
        var compacted := CompactLiveChunks();
        if compacted.Err? {
          return Err(LengthMismatch);
        }
        EntriesSort(entries, ledger, collided);
        SameLive(entries, SortBy(EntryPath, entries));
        entries := SortBy(EntryPath, entries);
      }
      return Ok(removed);
    }

    // ---- moving and copying -----------------------------------------------

    /** Whether `fromArg` may be moved or copied to `toArg`. */
    method PrepareRelocation(fromArg: string, toArg: string) returns (r: Result<(), VaultError>)
      ensures r == Prepared(entries, fromArg, toArg)
      ensures Valid() && Normalize(fromArg).Ok? && Normalize(toArg).Ok? ==>
                r == Relocatable(Tree(), Normalize(fromArg).value, Normalize(toArg).value)
    {
      hide TreeOf, TreeOk, StoreOk, EntriesOk, Normalize, KindOf, FileAboveIn, IsDescendant, Relocatable;
      if Valid() { PreparedIs(entries, ledger, collided, fromArg, toArg); }
      if Normalize(fromArg).Err? || Normalize(toArg).Err? {
        return Err(BadPath);
      }
      var from, to := Normalize(fromArg).value, Normalize(toArg).value;
      var kind := KindOf(entries, from);
      if kind.None? {
        return Err(NotFound);
      }
      if from == to {
        return Ok(());
      }
      if kind.value.DirectoryKind? && IsDescendant(to, from) {
        return Err(InsideItself);
      }
      if KindOf(entries, to).Some? {
        return Err(AlreadyExists);
      }
      r := EnsureNoFileAncestor(to);
    }

    /** Moves an entry and everything below it. The check normalises the paths once more than the
        work does. */
    method MoveEntry(fromArg: string, toArg: string) returns (r: Result<(), VaultError>)
      modifies this`entries
      ensures (r, entries) == MovedTo(old(entries), fromArg, toArg)
      ensures old(Valid()) ==> Consistent() && MoveOutcome(old(entries), ledger, collided, fromArg, toArg, r, entries)
      ensures old(Consistent()) && GoodArg(fromArg) && GoodArg(toArg) ==>
                Consistent() && GoodMove(old(entries), ledger, collided, fromArg, toArg, r, entries)
      ensures old(InOrder()) ==> InOrder()
    {
      hide TreeOf, TreeOk, StoreOk, EntriesOk, Normalize, Prepared, ParentEntries, RelocateAll, Sorted, SortBy,
        Clean, Relocatable, Ancestors, FileAbove, WithDirs, MoveOutcome, GoodArg, GoodMove, GoodCopy;
      if Consistent() && GoodArg(fromArg) && GoodArg(toArg) {
        GoodArgsAnywhere(entries, ledger, collided, fromArg, toArg);
        GoodMoveKeeps(entries, ledger, collided, fromArg, toArg, MovedTo(entries, fromArg, toArg).0, MovedTo(entries, fromArg, toArg).1);
      }
      if Valid() {
        MoveMeansMove(entries, ledger, collided, fromArg, toArg);
        MoveOk(entries, ledger, collided, fromArg, toArg, MovedTo(entries, fromArg, toArg).0, MovedTo(entries, fromArg, toArg).1);
      }
      if Normalize(fromArg).Err? || Normalize(toArg).Err? {
        return Err(BadPath);
      }
      var from, to := Normalize(fromArg).value, Normalize(toArg).value;
      var allowed := PrepareRelocation(from, to);
      if allowed.Err? || from == to {
        return allowed;
      }
      var parents := EnsureParents(to);
      if parents.Err? {
        return parents;
      }
      var moved := RelocateEach(entries, from, to);
      entries := SortBy(EntryPath, moved);
      SortBySorted(EntryPath, moved);
      return Ok(());
    }

    /** Copies an entry and everything below it. The copies share the chunks. */
    method CopyEntry(fromArg: string, toArg: string) returns (r: Result<(), VaultError>)
      modifies this`entries
      ensures (r, entries) == CopiedTo(old(entries), fromArg, toArg)
      ensures old(Valid()) ==> Consistent() && CopyOutcome(old(entries), ledger, collided, fromArg, toArg, r, entries)
      ensures old(Consistent()) && GoodArg(fromArg) && GoodArg(toArg) ==>
                Consistent() && GoodCopy(old(entries), ledger, collided, fromArg, toArg, r, entries)
      ensures old(Consistent()) && old(InOrder()) ==> InOrder()
    {
      hide TreeOf, TreeOk, StoreOk, EntriesOk, Normalize, Prepared, ParentEntries, Clones, Sorted, SortBy, Clean,
        Relocatable, Ancestors, FileAbove, WithDirs, CopyOutcome, GoodArg, GoodMove, GoodCopy;
      if Consistent() && GoodArg(fromArg) && GoodArg(toArg) {
        GoodArgsAnywhere(entries, ledger, collided, fromArg, toArg);
        GoodMoveKeeps(entries, ledger, collided, fromArg, toArg, CopiedTo(entries, fromArg, toArg).0, CopiedTo(entries, fromArg, toArg).1);
      }
      if Valid() {
        CopyMeansCopy(entries, ledger, collided, fromArg, toArg);
        CopyOk(entries, ledger, collided, fromArg, toArg, CopiedTo(entries, fromArg, toArg).0, CopiedTo(entries, fromArg, toArg).1);
      }
      if Normalize(fromArg).Err? || Normalize(toArg).Err? {
        return Err(BadPath);
      }
      var from, to := Normalize(fromArg).value, Normalize(toArg).value;
      var allowed := PrepareRelocation(from, to);
      if allowed.Err? || from == to {
        return allowed;
      }
      var parents := EnsureParents(to);
      if parents.Err? {
        return parents;
      }
      var clones := Clones(entries, from, to);
      if clones == [] {
        return Err(NotFound);
      }
      SortBySorted(EntryPath, entries + clones);
      entries := SortBy(EntryPath, entries + clones);
      return Ok(());
    }

    // ---- extraction -------------------------------------------------------

    /** Decodes an entry block by block, writing only what falls inside its slice and stopping as
        soon as the slice is complete. No assumption is made on the vault. */
    method ExtractFileEntry(e: Entry) returns (r: Result<Bytes, VaultError>)
      ensures r == Extracted(setup, chunks, data, e)
    {
      hide ReadBlock, DecodeBlock, WrittenSoFar, Decoded;
      var offset := SliceStart(e);
      var end := offset + e.size;
      var written: Bytes := [];
      var decodedLen := 0;
      ghost var stream: Bytes := [];
      NothingWritten(offset, end);
      var i := 0;
      assert e.chunks[0..] == e.chunks;
      while i < |e.chunks| && decodedLen < end
        invariant 0 <= i <= |e.chunks| && decodedLen == |stream|
        invariant written == WrittenSoFar(stream, offset, end)
        invariant Decoded(setup, chunks, data, e.chunks, end, []) ==
                  Decoded(setup, chunks, data, e.chunks[i..], end, stream)
      {
        var plain := ReadBlock(setup, chunks, data, e.chunks[i]);
        DecodedStep(setup, chunks, data, e.chunks, i, end, stream);
        if plain.Err? {
          return Err(plain.error);
        }
        var block := plain.value;
        var pos, next := decodedLen, decodedLen + |block|;
        var wStart, wEnd := Max(offset, pos), Min(end, next);
        ClampedWrite(stream, block, offset, end);
        if wStart < wEnd {
          written := written + block[wStart - pos..wEnd - pos];
        }
        decodedLen := next;
        stream := stream + block;
        i := i + 1;
      }
      DecodedDone(setup, chunks, data, e.chunks[i..], end, stream);
      WrittenIsSlice(stream, offset, end);
      if decodedLen < end {
        return Err(SliceTooLong);
      }
      return Ok(written);
    }

    /** Every file below `q` needs only chunks within the block limit. */
    ghost predicate AllReadable(q: string)
      reads this
    {
      forall e :: e in entries && IsDescendant(e.path, q) && !e.isDir ==> Readable(chunks, ledger, e)
    }

    /** Extracts everything below a directory, in path order. The directory's own entry, if it has one, is
        checked first. */
    method ExtractDirectory(q: string) returns (r: Result<Tree, VaultError>)
      requires Consistent()
      ensures !collided ==>
                (r.Ok? <==> (q in Tree() ==> Normalize(q).Ok?) && AllAccepted(Tree(), q) && AllReadable(q))
      ensures !collided && r.Ok? ==> r.value == Below(Tree(), q)
      ensures Valid() && !collided ==> (r.Ok? <==> AllExtractable(Tree(), q) && AllReadable(q))
      ensures Valid() && !collided && BlocksFit(setup) ==> r == ExtractedBelow(Tree(), q)
    {
      hide TreeOf, TreeOk, StoreOk, EntriesOk, Normalize, Extracted, Below, BlocksFit, IsDescendant, EntriesBelow,
        RelativeTo, Content, Readable, AllExtractable, AllAccepted, Find;
      UniqueIn(entries, ledger, collided);
      EntriesBelowAre(entries, q, ledger);
      FindInTree(entries, ledger, q, collided);
      ValidIsExtractable(q);
      if Find(entries, q).Some? && Normalize(q).Err? {
        return Err(BadPath);
      }
      var list := EntriesBelow(entries, q);
      var out: Tree := map[];
      BelowNothing(q, ledger);
      assert list[..0] == [];
      for i := 0 to |list|
        invariant !collided ==> out == Below(TreeOf(list[..i], ledger), q)
        invariant forall j :: 0 <= j < i ==> Normalize(list[j].path).Ok? && Normalize(RelativeTo(list[j].path, q)).Ok?
        invariant !collided ==> forall j :: 0 <= j < i && !list[j].isDir ==> Readable(chunks, ledger, list[j])
      {
        var e := list[i];
        assert e in list;
        BelowNext(list, i, q, ledger);
        var rel := RelativeTo(e.path, q);
        if Normalize(e.path).Err? || Normalize(rel).Err? {
          NotAllAccepted(entries, ledger, q, e);
          return Err(BadPath);
        }
        if e.isDir {
          out := out[rel := Dir];
        } else {
          var bytes := ExtractFileEntry(e);
          if !collided {
            ExtractedContent(setup, order, ledger, chunks, data, entries, e);
          }
          if bytes.Err? {
            return Err(bytes.error);
          }
          out := out[rel := File(bytes.value)];
        }
      }
      assert list[..|list|] == list;
      AllRelative(list, q);
      return Ok(out);
    }

    /** In a valid vault every path is canonical, and what is acceptable has the shape described. */
    lemma ValidIsExtractable(q: string)
      ensures Valid() ==> AllAccepted(Tree(), q) == AllExtractable(Tree(), q) && (q in Tree() ==> Normalize(q).Ok?)
    {
      hide TreeOf, StoreOk, EntriesOk, Normalize, IsDescendant, AllAccepted, AllExtractable;
      if Valid() { AcceptedIsExtractable(Tree(), q); }
    }

    /** If every listed entry is accepted, so is every path below. */
    lemma AllRelative(list: seq<Entry>, q: string)
      requires Consistent()
      requires forall e :: e in entries && IsDescendant(e.path, q) ==> e in list
      requires forall j :: 0 <= j < |list| ==> IsDescendant(list[j].path, q)
      requires forall j :: 0 <= j < |list| ==> Normalize(list[j].path).Ok? && Normalize(RelativeTo(list[j].path, q)).Ok?
      ensures AllAccepted(Tree(), q)
    {
      hide TreeOf, StoreOk, EntryOk, Normalize, IsDescendant, UniquePaths, RelativeTo, Content;
      TreeAt(entries, ledger);
      forall p | p in Tree() && IsDescendant(p, q)
        ensures Normalize(p).Ok? && Normalize(RelativeTo(p, q)).Ok?
      {
        var e := Find(entries, p).value;
        var j :| 0 <= j < |list| && list[j] == e;
      }
    }

    /** Extracts the file or the directory at a path. */
    method ExtractEntry(arg: string) returns (r: Result<Extraction, VaultError>)
      requires Consistent()
      ensures Normalize(arg).Err? ==> r == Err(BadPath)
      ensures Normalize(arg).Ok? ==> ExtractionOf(Normalize(arg).value, r)
    {
      hide TreeOf, TreeOk, StoreOk, EntriesOk, Normalize, Extracted, KindOf, Find, BlocksFit, Readable, Below,
        AllExtractable, AllAccepted, IsDescendant, Content, HasChildren;
      if Normalize(arg).Err? {
        return Err(BadPath);
      }
      var q := Normalize(arg).value;
      KindInAnyTree(entries, ledger, q, collided);
      FindInTree(entries, ledger, q, collided);
      match KindOf(entries, q)
      case None => return Err(NotFound);
      case Some(DirectoryKind) =>
        var below := ExtractDirectory(q);
        return if below.Ok? then Ok(DirectoryOut(below.value)) else Err(below.error);
      case Some(FileKind) =>
        match Find(entries, q)
        case None => return Err(NotFound);
        case Some(e) =>
          var bytes := ExtractFileEntry(e);
          if !collided {
            ExtractedContent(setup, order, ledger, chunks, data, entries, e);
          }
          return if bytes.Ok? then Ok(FileOut(bytes.value)) else Err(bytes.error);
    }

    /** What extracting at `q` yields. Unless chunks have collided it succeeds exactly when every chunk
        it needs is within the block limit and every path below a directory is acceptable, whole and on its
        own, and then yields the content. With bounds that leave room the first is always so, and in a valid
        vault a path is acceptable exactly when what follows the directory has the shape described. */
    ghost predicate ExtractionOf(q: string, r: Result<Extraction, VaultError>)
      reads this
    {
      && (q !in Tree() && !HasChildren(Tree(), q) ==> r == Err(NotFound))
      && (q in Tree() && Tree()[q].File? && !collided ==>
            && (r.Ok? <==> Find(entries, q).Some? && Readable(chunks, ledger, Find(entries, q).value))
            && (r.Ok? || BlocksFit(setup) ==> r == Ok(FileOut(Tree()[q].bytes))))
      && ((if q in Tree() then Tree()[q].Dir? else HasChildren(Tree(), q)) && !collided ==>
            && (r.Ok? <==> (q in Tree() ==> Normalize(q).Ok?) && AllAccepted(Tree(), q) && AllReadable(q))
            && (r.Ok? ==> r == Ok(DirectoryOut(Below(Tree(), q))))
            && (Valid() ==> (r.Ok? <==> AllExtractable(Tree(), q) && AllReadable(q)))
            && (Valid() && BlocksFit(setup) ==> (r.Ok? <==> AllExtractable(Tree(), q)) && (r.Err? ==> r.error == BadPath)))
    }

    // ---- runs -------------------------------------------------------------

    /** Any operation on any consistent vault, except that one that is not valid takes moves and copies with
        good arguments alone. */
    method Apply(op: Op) returns (r: Result<(), VaultError>)
      requires Consistent() && Sound(setup.prims) && (Valid() || Runnable(op))
      modifies this
      ensures Consistent() && (old(collided) ==> collided)
      ensures Runnable(op) ==> StepAny(old(Tree()), op, r, Tree())
      ensures old(Valid()) && GoodOp(op) ==> Valid() && (!collided ==> StepOk(setup, old(Tree()), op, r, Tree()))
      ensures old(Valid()) && GoodOp(op) && SaneOp(setup, op) && !collided ==> (Tree(), r) == Outcome(old(Tree()), op)
      ensures old(Valid()) && r.Ok? && (op.Add? || op.MakeDirectory?) ==> (Valid() <==> GoodOp(op))
      ensures r.Ok? && old(InOrder()) ==> InOrder()
    {
      hide TreeOf, TreeOk, StoreOk, EntriesOk, Sound, Normalize, Move, Copy, AddAll, BatchOrder, DeleteAll, Mkdir,
        Sorted, Spared, MoveArgs, CopyArgs, PathsValid, ReopenableArg, GoodArg, GoodJob, MovedTo, CopiedTo,
        MkdirEntries, BlocksFit, LandedAt, StepOk, MkdirDone, AddAllDone, DeletedUpTo, LiveIds, Carried, Duplicated,
        BatchFault, SaneBatch, Ingested, BatchBlocks, AllRead, Addable, SaneOp, Outcome;
      ghost var t := Tree();
      ghost var good := Valid() && GoodOp(op);
      match op {
        case Add(jobs) =>
          r := AppendSourcesBatched(jobs);
          if r.Ok? { UnitOk(r); }
          if !collided && good { AddStep(setup, t, jobs, r, Tree()); }
        case MakeDirectory(path) =>
          MkdirStep(entries, path);
          MkdirSpares(path);
          var made := CreateDirectory(path);
          if good { MkdirOpStep(setup, t, path, made, Tree()); }
          r := if made.Ok? then Ok(()) else Err(made.error);
        case Delete(names, recursive) =>
          var removed := DeleteEntries(names, recursive);
          if good { DeleteOpStep(setup, t, names, recursive, removed, Tree()); }
          r := if removed.Ok? then Ok(()) else Err(removed.error);
        case MoveTo(from, to) =>
          r := MoveEntry(from, to);
          if good { MoveStep(setup, t, from, to, r, Tree()); }
        case CopyTo(from, to) =>
          r := CopyEntry(from, to);
          if good { MoveStep(setup, t, from, to, r, Tree()); }
      }
      if !collided && good { SaneStep(setup, t, op, r, Tree()); }
    }

    /** Making a directory, for any argument, only adds directories. */
    lemma MkdirSpares(arg: string)
      requires Consistent()
      ensures Spared(Tree(), {}, TreeOf(AfterMkdir(entries, arg), ledger))
    {
      hide TreeOf, StoreOk, EntriesOk, MkdirEntries, Normalize;
      if MkdirEntries(entries, arg).Ok? {
        UniqueIn(entries, ledger, collided);
        MkdirNormalizes(entries, arg);
        MkdirMakes(entries, arg);
        GrownSpares(entries, ledger, collided, |Normalize(arg).value| + 1, AfterMkdir(entries, arg));
      }
    }

    /** Runs operations one after the other, whether or not they fail, on any consistent vault. Every step does
        what its kind can do to the tree; and where the tree is well formed and the operation good, and no two
        chunks collide along the run, it is the plain map's, or fails and leaves what such a failure leaves. */
    method Run(ops: seq<Op>) returns (results: seq<Result<(), VaultError>>, ghost trees: seq<Tree>)
      requires Consistent() && Sound(setup.prims) && forall op :: op in ops ==> Runnable(op)
      modifies this
      ensures Consistent() && (old(collided) ==> collided)
      ensures old(Valid()) && (forall op :: op in ops ==> GoodOp(op)) ==> Valid()
      ensures |results| == |ops| && |trees| == |ops| + 1 && trees[0] == old(Tree()) && trees[|ops|] == Tree()
      ensures RunOk(setup, !collided, trees, ops, results)
      ensures old(Valid()) && !collided && (forall op :: op in ops ==> GoodOp(op) && SaneOp(setup, op)) ==>
                (Tree(), results) == PlainRun(old(Tree()), ops)
    {
      hide TreeOf, TreeOk, StoreOk, EntriesOk, Sound, StepOk, StepAny, GoodOp, Runnable, Sorted, RunSoFar, SaneOp, PlainRun, BatchOrder,
        PathsOf, Spared;
      RunNone(setup, !collided, Tree(), ops);
      results, trees := [], [Tree()];
      ghost var good := Valid() && forall op :: op in ops ==> GoodOp(op);
      for i := 0 to |ops|
        invariant Consistent() && (old(collided) ==> collided) && (good ==> Valid())
        invariant |results| == i && |trees| == i + 1 && trees[0] == old(Tree()) && trees[i] == Tree()
        invariant RunSoFar(setup, !collided, trees, ops, results)
      {
        assert ops[i] in ops;
        ghost var flag := collided;
        var done := Apply(ops[i]);
        RunNext(setup, !flag, !collided, trees, ops, results, done, Tree());
        results, trees := results + [done], trees + [Tree()];
      }
      if old(Valid()) && !collided && forall op :: op in ops ==> GoodOp(op) && SaneOp(setup, op) {
        HealthyRun(setup, trees, ops, results);
      }
    }
  }
}
