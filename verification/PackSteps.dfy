/** What adding a pack of small files means, and the steps its proof takes. */
module PackSteps {
  import opened Wrappers
  import opened ByteSeqs
  import opened Ordering
  import opened Paths
  import opened Chunking
  import opened Packing
  import opened VaultTypes
  import opened Stores
  import opened Trees
  import opened Manifests
  import opened Directories
  import opened FileSteps

  lemma NothingRecorded(ledger: Ledger, collided: bool)
    ensures Recorded([], [], ledger, collided)
  {
  }

  /** Ranges named by the ids of their chunks. */
  function Zip<T>(ranges: seq<(nat, nat)>, names: seq<T>): seq<Placed<T>>
    requires |ranges| == |names|
  {
    seq(|ranges|, i requires 0 <= i < |ranges| => Placed(names[i], ranges[i].0, ranges[i].1))
  }

  lemma ZipNone<T>()
    ensures Zip<T>([], []) == []
  {
  }

  lemma ZipSnoc<T>(ranges: seq<(nat, nat)>, names: seq<T>, range: (nat, nat), name: T)
    requires |ranges| == |names|
    ensures Zip(ranges + [range], names + [name]) == Zip(ranges, names) + [Placed(name, range.0, range.1)]
  {
  }

  /** The chunks of a pack follow one another, and unless chunks collided they hold the pack. */
  ghost predicate PackStored(pack: Bytes, placed: seq<Placed<ChunkId>>, ledger: Ledger, collided: bool) {
    && InRow(placed, 0)
    && (forall c :: c in placed ==> c.name in ledger)
    && (!collided ==> Holds(placed, id => PlainOf(ledger, id), pack, 0, |pack|))
  }

  lemma {:induction false} PiecesAt(ranges: seq<(nat, nat)>, s: Bytes, pieces: seq<Bytes>)
    requires Delimit(ranges, s, pieces)
    ensures |ranges| == |pieces|
    ensures forall i :: 0 <= i < |ranges| ==> ranges[i].0 <= ranges[i].1 <= |s| && s[ranges[i].0..ranges[i].1] == pieces[i]
  {
    if ranges != [] {
      PiecesAt(ranges[1..], s, pieces[1..]);
    }
  }

  lemma PiecesFit(cutter: Cutter, pack: Bytes, ranges: seq<(nat, nat)>, pieces: seq<Bytes>)
    requires cutter.Usable() && 1 <= cutter.bounds.max && cutter.bounds.min <= cutter.bounds.max
    requires pieces == Chunks(cutter, pack) && Delimit(ranges, pack, pieces)
    ensures |ranges| == |pieces|
    ensures forall i :: 0 <= i < |ranges| ==>
              ranges[i].0 <= ranges[i].1 <= |pack| && pack[ranges[i].0..ranges[i].1] == pieces[i]
    ensures forall i :: 0 <= i < |pieces| ==> |pieces[i]| <= cutter.bounds.max
  {
    hide Chunks, Flatten, Delimit;
    PiecesAt(ranges, pack, pieces);
    ChunksCover(cutter, pack);
  }

  lemma {:induction false} ZipInRow<T>(ranges: seq<(nat, nat)>, names: seq<T>, lo: nat, hi: nat)
    requires Tiles(ranges, lo, hi) && |ranges| == |names|
    ensures InRow(Zip(ranges, names), lo)
  {
    if ranges != [] {
      ZipInRow(ranges[1..], names[1..], ranges[0].1, hi);
      assert Zip(ranges, names)[1..] == Zip(ranges[1..], names[1..]);
    }
  }

  lemma {:induction false} ZipHolds<T(!new)>(ranges: seq<(nat, nat)>, names: seq<T>, content: T -> Bytes,
                                      s: Bytes, pieces: seq<Bytes>, lo: nat)
    requires lo <= |s| && Tiles(ranges, lo, |s|) && Delimit(ranges, s, pieces)
    requires |ranges| == |names| == |pieces| && forall i :: 0 <= i < |names| ==> content(names[i]) == pieces[i]
    ensures Holds(Zip(ranges, names), content, s[lo..], lo, |s|)
  {
    if ranges != [] {
      var next := ranges[0].1;
      ZipHolds(ranges[1..], names[1..], content, s, pieces[1..], next);
      assert Zip(ranges, names)[1..] == Zip(ranges[1..], names[1..]);
      assert s[lo..][next - lo..] == s[next..];
      assert s[lo..][..next - lo] == s[lo..next];
    }
  }

  lemma PackIsStored(pack: Bytes, ranges: seq<(nat, nat)>, pieces: seq<Bytes>, ids: seq<ChunkId>,
                     ledger: Ledger, collided: bool)
    requires Tiles(ranges, 0, |pack|) && Delimit(ranges, pack, pieces)
    requires |ranges| == |pieces| == |ids| && Recorded(pieces, ids, ledger, collided)
    ensures PackStored(pack, Zip(ranges, ids), ledger, collided)
  {
    hide Tiles, Delimit, InRow, Holds;
    ZipInRow(ranges, ids, 0, |pack|);
    if !collided {
      var content: ChunkId -> Bytes := id => PlainOf(ledger, id);
      ZipHolds(ranges, ids, content, pack, pieces, 0);
      assert pack[0..] == pack;
    }
  }

  lemma PackInRow(pack: Bytes, placed: seq<Placed<ChunkId>>, ledger: Ledger, collided: bool)
    requires PackStored(pack, placed, ledger, collided)
    ensures InRow(placed, 0)
  {
  }

  lemma CoverFinds(pack: Bytes, placed: seq<Placed<ChunkId>>, ledger: Ledger, collided: bool, m: Member)
    requires PackStored(pack, placed, ledger, collided) && 0 < m.len && m.start + m.len <= |pack|
    requires Covering(placed, m.start, m.start + m.len) == []
    ensures collided
  {
    hide InRow, Covering, Holds;
    if !collided {
      CoveringSlice(placed, id => PlainOf(ledger, id), pack, 0, |pack|, m.start, m.start + m.len);
    }
  }

  /** What the loop over a pack's chunks has found: those that overlap, and where the first starts. */
  ghost predicate FoundSoFar<T>(done: seq<Placed<T>>, lo: nat, hi: nat, names: seq<T>, first: Option<nat>) {
    var cov := Covering(done, lo, hi);
    names == Names(cov) && first == if cov == [] then None else Some(cov[0].start)
  }

  lemma NothingCovers<T>(lo: nat, hi: nat)
    ensures FoundSoFar<T>([], lo, hi, [], None)
  {
  }

  lemma FoundNext<T>(placed: seq<Placed<T>>, i: nat, lo: nat, hi: nat, names: seq<T>, first: Option<nat>)
    requires i < |placed| && FoundSoFar(placed[..i], lo, hi, names, first)
    ensures var c := placed[i];
            if c.start < hi && lo < c.end
            then FoundSoFar(placed[..i + 1], lo, hi, names + [c.name], Some(if first.None? then c.start else first.value))
            else FoundSoFar(placed[..i + 1], lo, hi, names, first)
  {
    hide Covering;
    CoveringSnoc(placed, i, lo, hi);
  }

  /** So what the loop finds over all the chunks is what `Cover` finds. */
  lemma FoundIsCover<T>(placed: seq<Placed<T>>, start: nat, len: nat, names: seq<T>, first: Option<nat>,
                        r: Result<(seq<T>, nat), CoverError>)
    requires len > 0 && FoundSoFar(placed, start, start + len, names, first) && CoverOutcome(placed, start, len, r)
    ensures first.None? ==> r.Err?
    ensures first.Some? ==> first.value <= start && r == Ok((names, start - first.value))
  {
    hide Covering;
  }

  lemma RowNext<T>(placed: seq<Placed<T>>, i: nat, from: nat)
    requires i < |placed| && InRow(placed[i..], from)
    ensures placed[i].start == from <= placed[i].end && InRow(placed[i + 1..], placed[i].end)
  {
    assert placed[i..][1..] == placed[i + 1..];
  }

  lemma {:induction false} CoveringFrom<T>(chunks: seq<Placed<T>>, lo: nat, hi: nat)
    ensures forall c :: c in Covering(chunks, lo, hi) ==> c in chunks
  {
    if chunks != [] {
      CoveringFrom(chunks[1..], lo, hi);
      assert chunks == [chunks[0]] + chunks[1..];
    }
  }

  lemma NamesPlain(cov: seq<Placed<ChunkId>>, ledger: Ledger)
    ensures Bodies(cov, id => PlainOf(ledger, id)) == Plains(Names(cov), ledger)
  {
  }

  /** A packed entry stands for exactly its member's span of the pack. */
  lemma PackedEntry(pack: Bytes, placed: seq<Placed<ChunkId>>, ledger: Ledger, collided: bool, m: Member, e: Entry)
    requires PackStored(pack, placed, ledger, collided) && m.start + m.len <= |pack|
    requires !e.isDir && e.size == m.len && e.packOffset.Some?
    requires m.len == 0 ==> e.chunks == [] && e.packOffset.value == 0
    requires m.len > 0 ==>
               var cov := Covering(placed, m.start, m.start + m.len);
               cov != [] && cov[0].start <= m.start && e.chunks == Names(cov) && e.packOffset.value == m.start - cov[0].start
    ensures EntryOk(e, ledger, collided)
    ensures !collided ==> Content(e, ledger) == pack[m.start..m.start + m.len]
  {
    hide InRow, Covering, Holds, Bodies, Plains;
    if m.len == 0 {
      assert e.chunks == [];
    } else {
      var cov := Covering(placed, m.start, m.start + m.len);
      CoveringFrom(placed, m.start, m.start + m.len);
      forall id | id in e.chunks
        ensures id in ledger
      {
        var i :| 0 <= i < |Names(cov)| && Names(cov)[i] == id;
        assert cov[i] in placed;
      }
      if !collided {
        CoveringSlice(placed, id => PlainOf(ledger, id), pack, 0, |pack|, m.start, m.start + m.len);
        NamesPlain(cov, ledger);
      }
    }
  }

  /** Adding files one after the other succeeded with the tree to match; or failed with the reason the tree gives, and
      the files before the one that cannot be added are in it; or with one from outside the tree. */
  ghost predicate AddAllDone(t: Tree, files: seq<SmallFile>, r: Result<(), VaultError>, after: Tree) {
    && (r.Ok? ==> AddAll(t, files) == Ok(after))
    && (r.Err? ==> r.error in ENVIRONMENT || (AddAll(t, files) == Err(r.error) && after == AddedUpTo(t, files)))
  }

  lemma AddedNone(t: Tree)
    ensures AddAllDone(t, [], Ok(()), t)
  {
  }

  lemma NoMembers(files: seq<SmallFile>)
    requires PackOf(files).members == []
    ensures files == []
  {
  }

  lemma MemberCount(files: seq<SmallFile>)
    ensures |PackOf(files).members| == |files|
  {
  }

  lemma AddAllBroken(t: Tree, files: seq<SmallFile>, e: VaultError, after: Tree)
    requires e in ENVIRONMENT
    ensures AddAllDone(t, files, Err(e), after)
  {
  }

  /** Once a prefix of the files fails, all of them do. */
  lemma AddAllFailed(t: Tree, prefix: seq<SmallFile>, files: seq<SmallFile>, e: VaultError, after: Tree)
    requires prefix <= files && AddAllDone(t, prefix, Err(e), after)
    ensures AddAllDone(t, files, Err(e), after)
  {
    hide AddAll, AddedUpTo;
    assert files == prefix + files[|prefix|..];
    AddAllConcat(t, prefix, files[|prefix|..]);
    AddedUpToConcat(t, prefix, files[|prefix|..]);
  }

  // ---- any paths ----------------------------------------------------------

  /** Adding files one after the other succeeded, and at each path the last of them is there, or it
      failed; either way the rest was spared. */
  ghost predicate LandedAll(t: Tree, files: seq<SmallFile>, r: Result<(), VaultError>, after: Tree, collided: bool) {
    && Spared(t, PathsOf(files), after)
    && (r.Ok? ==> forall p :: p in PathsOf(files) ==> p in after && LandedAt(files, p, after[p], collided))
  }

  predicate LandedAt(files: seq<SmallFile>, p: string, node: Node, collided: bool) {
    node.File? && (!collided ==> LastAt(files, p) == Some(node.bytes))
  }

  lemma LandedNone(t: Tree, collided: bool)
    ensures LandedAll(t, [], Ok(()), t, collided)
  {
  }

  lemma LandedThen(t: Tree, a: seq<SmallFile>, ta: Tree, before: bool, b: seq<SmallFile>, r: Result<(), VaultError>,
                   after: Tree, collided: bool)
    requires LandedAll(t, a, Ok(()), ta, before) && LandedAll(ta, b, r, after, collided) && (before ==> collided)
    ensures LandedAll(t, a + b, r, after, collided)
  {
    hide LastAt, PathsOf;
    PathsConcat(a, b);
    SparedThen(t, PathsOf(a), ta, PathsOf(b), after);
    forall p | p in PathsOf(a + b)
      ensures LastAt(a + b, p) == if p in PathsOf(b) then LastAt(b, p) else LastAt(a, p)
    {
      LastAtConcat(a, b, p);
      LastAtPaths(b, p);
    }
  }

  lemma PathsConcat(a: seq<SmallFile>, b: seq<SmallFile>)
    ensures PathsOf(a + b) == PathsOf(a) + PathsOf(b)
  {
  }

  lemma LandedOne(t: Tree, f: SmallFile, r: Result<(), VaultError>, after: Tree, collided: bool)
    requires Landing(t, f.path, f.bytes, r, after, collided)
    ensures LandedAll(t, [f], r, after, collided)
  {
    hide LastAt;
    LastAtOne(f, f.path);
    assert PathsOf([f]) == {f.path};
  }

  /** Once a prefix of the files failed, so did all of them. */
  lemma LandedPartly(t: Tree, prefix: seq<SmallFile>, files: seq<SmallFile>, r: Result<(), VaultError>, before: bool,
                     e: VaultError, after: Tree, collided: bool)
    requires LandedAll(t, prefix, r, after, before) && prefix <= files
    ensures LandedAll(t, files, Err(e), after, collided)
  {
    assert files == prefix + files[|prefix|..];
    PathsConcat(prefix, files[|prefix|..]);
  }

  lemma Nothing(t: Tree, files: seq<SmallFile>, e: VaultError, collided: bool)
    ensures LandedAll(t, files, Err(e), t, collided)
  {
  }

  ghost predicate AllClean(files: seq<SmallFile>) {
    forall f :: f in files ==> Clean(f.path)
  }

  lemma SortedIsAsLong(files: seq<SmallFile>)
    ensures |SortBy(ByPath, files)| == |files|
  {
  }

  lemma SortedClean(files: seq<SmallFile>, k: nat, i: nat)
    requires k <= i <= |SortBy(ByPath, files)|
    ensures AllClean(files) ==> AllClean(SortBy(ByPath, files)[k..i])
  {
    hide SortBy, Clean;
    SortBySameElements(ByPath, files);
  }

  /** Files that have landed make a well-formed tree only if their paths are clean. */
  lemma LandedClean(t: Tree, files: seq<SmallFile>, after: Tree, collided: bool)
    requires LandedAll(t, files, Ok(()), after, collided) && TreeOk(after)
    ensures AllClean(files)
  {
    hide TreeOk, Clean, LandedAt;
    TreeOkMeaning(after);
    forall f | f in files
      ensures Clean(f.path)
    {
      assert f.path in PathsOf(files);
    }
  }

  ghost predicate AllFine(files: seq<SmallFile>) {
    forall f :: f in files ==> Fine(f.path)
  }

  /** All that holds once files have been added one after the other to entries `e0` of tree `t`, or adding them
      has failed. With `good`, that they mean to the tree what `AddAll` says. */
  ghost predicate Added(t: Tree, e0: seq<Entry>, files: seq<SmallFile>, r: Result<(), VaultError>,
                        after: Tree, entries: seq<Entry>, collided: bool, good: bool)
  {
    && LandedAll(t, files, r, after, collided)
    && (good && !collided ==> AddAllDone(t, files, r, after))
    && (r.Ok? ==> KeepsFine(e0, AllFine(files), entries))
  }

  lemma AddedNothing(t: Tree, entries: seq<Entry>, collided: bool, good: bool)
    ensures Added(t, entries, [], Ok(()), t, entries, collided, good)
  {
    hide AddAll, KeepsFine, Spared;
    AddedNone(t);
    LandedNone(t, collided);
    FineSame(entries, entries);
  }

  lemma AddedThen(t: Tree, e0: seq<Entry>, a: seq<SmallFile>, ta: Tree, ea: seq<Entry>, before: bool, good: bool,
                  b: seq<SmallFile>, r: Result<(), VaultError>, after: Tree, entries: seq<Entry>, collided: bool, also: bool)
    requires Added(t, e0, a, Ok(()), ta, ea, before, good) && Added(ta, ea, b, r, after, entries, collided, also)
    requires (before ==> collided) && (good ==> also)
    ensures Added(t, e0, a + b, r, after, entries, collided, good)
  {
    hide AddAll, AddedUpTo, KeepsFine, LandedAll, AllFine;
    LandedThen(t, a, ta, before, b, r, after, collided);
    if good && !collided {
      AddAllConcat(t, a, b);
      AddedUpToConcat(t, a, b);
    }
    if r.Ok? {
      FineThen(e0, AllFine(a), ea, AllFine(b), entries);
      FineConcat(a, b);
    }
  }

  lemma FineConcat(a: seq<SmallFile>, b: seq<SmallFile>)
    ensures AllFine(a + b) <==> AllFine(a) && AllFine(b)
  {
    hide Fine;
    assert forall f :: f in a + b <==> f in a || f in b;
  }

  lemma AddedSlice(t: Tree, e0: seq<Entry>, files: seq<SmallFile>, k: nat, i: nat, tk: Tree, ek: seq<Entry>, before: bool, good: bool,
                   r: Result<(), VaultError>, after: Tree, entries: seq<Entry>, collided: bool, also: bool)
    requires k <= i <= |files|
    requires Added(t, e0, files[..k], Ok(()), tk, ek, before, good) && Added(tk, ek, files[k..i], r, after, entries, collided, also)
    requires (before ==> collided) && (good ==> also)
    ensures Added(t, e0, files[..i], r, after, entries, collided, good)
    ensures r.Err? || i == |files| ==> Added(t, e0, files, r, after, entries, collided, good)
  {
    hide Added;
    AddedThen(t, e0, files[..k], tk, ek, before, good, files[k..i], r, after, entries, collided, also);
    assert files[..i] == files[..k] + files[k..i];
    if r.Err? {
      AddedPartly(t, e0, files[..i], files, r.error, after, entries, collided, good);
    } else if i == |files| {
      assert files[..i] == files;
    }
  }

  /** Once a prefix of the files failed, so did all of them. */
  lemma AddedPartly(t: Tree, e0: seq<Entry>, prefix: seq<SmallFile>, files: seq<SmallFile>, e: VaultError,
                    after: Tree, entries: seq<Entry>, collided: bool, good: bool)
    requires Added(t, e0, prefix, Err(e), after, entries, collided, good) && prefix <= files
    ensures Added(t, e0, files, Err(e), after, entries, collided, good)
  {
    hide AddAll, KeepsFine, LandedAll;
    LandedPartly(t, prefix, files, Err(e), collided, e, after, collided);
    if good && !collided { AddAllFailed(t, prefix, files, e, after); }
  }

  /** A failure from outside, after a prefix was added. */
  lemma AddedBroken(t: Tree, e0: seq<Entry>, prefix: seq<SmallFile>, before: seq<Entry>, flag: bool, files: seq<SmallFile>, e: VaultError,
                    after: Tree, entries: seq<Entry>, collided: bool, good: bool)
    requires Added(t, e0, prefix, Ok(()), after, before, flag, good) && prefix <= files && e in ENVIRONMENT
    ensures Added(t, e0, files, Err(e), after, entries, collided, good)
  {
    hide AddAll, KeepsFine, LandedAll;
    LandedPartly(t, prefix, files, Ok(()), flag, e, after, collided);
    AddAllBroken(t, files, e, after);
  }

  lemma AddedMeans(t: Tree, e0: seq<Entry>, files: seq<SmallFile>, r: Result<(), VaultError>, after: Tree, entries: seq<Entry>,
                   collided: bool, good: bool)
    requires Added(t, e0, files, r, after, entries, collided, good)
    ensures LandedAll(t, files, r, after, collided) && (good && !collided ==> AddAllDone(t, files, r, after))
  {
  }

  /** One file. */
  lemma AddedOne(t: Tree, e0: seq<Entry>, f: SmallFile, r: Result<(), VaultError>, after: Tree, entries: seq<Entry>, collided: bool, good: bool)
    requires Landing(t, f.path, f.bytes, r, after, collided)
    requires good && !collided ==> AddDone(t, f.path, f.bytes, r, after, false)
    requires r.Ok? ==> KeepsFine(e0, Fine(f.path), entries)
    ensures Added(t, e0, [f], r, after, entries, collided, good)
  {
    hide AddAll, KeepsFine, LandedAll, Landing, Fine;
    LandedOne(t, f, r, after, collided);
    AddAllSnoc(t, [], f);
    assert [] + [f] == [f] && AddAll(t, []) == Ok(t) by { NoneAdded(t); }
    if r.Err? { OneNotAdded(t, f); }
  }

  lemma OneNotAdded(t: Tree, f: SmallFile)
    ensures AddFile(t, f.path, f.bytes).Err? ==> AddedUpTo(t, [f]) == t
  {
  }

  lemma NoneAdded(t: Tree)
    ensures AddAll(t, []) == Ok(t)
  {
  }
}
