/** The entry list of a manifest, the content an entry stands for, and the tree it denotes. */
module Manifests {
  import opened Wrappers
  import opened ByteSeqs
  import opened Ordering
  import opened Paths
  import opened Packing
  import opened VaultTypes
  import opened Stores
  import opened Trees

  const EntryPath: Entry -> string := (e: Entry) => e.path

  datatype EntryKind = FileKind | DirectoryKind

  /** The first entry with that path. */
  function Find(entries: seq<Entry>, path: string): Option<Entry> {
    if entries == [] then None
    else if entries[0].path == path then Some(entries[0])
    else Find(entries[1..], path)
  }

  /** An explicit entry decides; otherwise anything below makes the path a directory. */
  function KindOf(entries: seq<Entry>, path: string): Option<EntryKind> {
    match Find(entries, path)
    case Some(e) => Some(if e.isDir then DirectoryKind else FileKind)
    case None => if exists e :: e in entries && IsDescendant(e.path, path) then Some(DirectoryKind) else None
  }

  // ---- content ------------------------------------------------------------

  function Plains(ids: seq<ChunkId>, ledger: Ledger): seq<Bytes> {
    seq(|ids|, i requires 0 <= i < |ids| => PlainOf(ledger, ids[i]))
  }

  function SliceStart(e: Entry): nat {
    if e.packOffset.Some? then e.packOffset.value else 0
  }

  /** The bytes an entry stands for: its slice of its joined chunks. */
  function Content(e: Entry, ledger: Ledger): Bytes {
    WrittenSoFar(Flatten(Plains(e.chunks, ledger)), SliceStart(e), SliceStart(e) + e.size)
  }

  function NodeOf(e: Entry, ledger: Ledger): Node {
    if e.isDir then Dir else File(Content(e, ledger))
  }

  /** Chunks are stored, directories have none, and, unless two chunks have collided, the slice
      lies inside the joined chunks. */
  ghost predicate EntryOk(e: Entry, ledger: Ledger, collided: bool) {
    && (e.isDir ==> e.chunks == [])
    && (forall id :: id in e.chunks ==> id in ledger)
    && (!e.isDir && !collided ==> SliceStart(e) + e.size <= |Flatten(Plains(e.chunks, ledger))|)
  }

  ghost predicate UniquePaths(entries: seq<Entry>) {
    forall i, j :: 0 <= i < j < |entries| ==> entries[i].path != entries[j].path
  }

  /** What a manifest must satisfy to be opened: every path canonical, none twice. */
  ghost predicate PathsValid(entries: seq<Entry>) {
    UniquePaths(entries) && forall e :: e in entries ==> Canonical(e.path)
  }

  ghost predicate EntriesOk(entries: seq<Entry>, ledger: Ledger, collided: bool) {
    UniquePaths(entries) && forall e :: e in entries ==> EntryOk(e, ledger, collided)
  }

  // ---- the tree -----------------------------------------------------------

  function PathSet(entries: seq<Entry>): set<string> {
    set e | e in entries :: e.path
  }

  function TreeOf(entries: seq<Entry>, ledger: Ledger): Tree {
    map p | p in PathSet(entries) ::
      match Find(entries, p)
      case Some(e) => NodeOf(e, ledger)
      case None => Dir
  }

  lemma {:induction false} FindFinds(entries: seq<Entry>, path: string)
    ensures Find(entries, path).Some? <==> path in PathSet(entries)
    ensures Find(entries, path).Some? ==> Find(entries, path).value in entries && Find(entries, path).value.path == path
  {
    if entries != [] {
      FindFinds(entries[1..], path);
      assert entries == [entries[0]] + entries[1..];
      assert forall e :: e in entries <==> e == entries[0] || e in entries[1..];
    }
  }

  lemma SamePathSameEntry(entries: seq<Entry>, a: Entry, b: Entry)
    requires UniquePaths(entries) && a in entries && b in entries && a.path == b.path
    ensures a == b
  {
  }

  /** The tree holds exactly the entries. */
  lemma TreeAt(entries: seq<Entry>, ledger: Ledger)
    requires UniquePaths(entries)
    ensures forall e :: e in entries ==> e.path in TreeOf(entries, ledger) && TreeOf(entries, ledger)[e.path] == NodeOf(e, ledger)
    ensures forall p :: p in TreeOf(entries, ledger) <==> p in PathSet(entries)
    ensures forall p :: p in PathSet(entries) ==>
              var f := Find(entries, p);
              f.Some? && f.value in entries && f.value.path == p && TreeOf(entries, ledger)[p] == NodeOf(f.value, ledger)
    ensures forall p :: p !in PathSet(entries) ==> Find(entries, p) == None
  {
    hide NodeOf, UniquePaths;
    forall p
      ensures p in PathSet(entries) ==>
                Find(entries, p).Some? && Find(entries, p).value in entries && Find(entries, p).value.path == p
      ensures p !in PathSet(entries) ==> Find(entries, p) == None
    {
      FindFinds(entries, p);
    }
    forall e | e in entries
      ensures e.path in PathSet(entries) && Find(entries, e.path) == Some(e)
    {
      FindFinds(entries, e.path);
      SamePathSameEntry(entries, Find(entries, e.path).value, e);
    }
  }

  /** A tree is the one entries denote as soon as it has their paths and their nodes. */
  lemma TreeIs(entries: seq<Entry>, ledger: Ledger, t: Tree)
    requires UniquePaths(entries) && t.Keys == PathSet(entries)
    requires forall e :: e in entries ==> t[e.path] == NodeOf(e, ledger)
    ensures TreeOf(entries, ledger) == t
  {
    hide NodeOf, UniquePaths;
    TreeAt(entries, ledger);
  }

  /** With explicit parents throughout, the kind of a path is what the tree says. */
  lemma KindInTree(entries: seq<Entry>, ledger: Ledger, q: string)
    requires UniquePaths(entries) && TreeOk(TreeOf(entries, ledger))
    ensures var t := TreeOf(entries, ledger);
            KindOf(entries, q) ==
            if q !in t then None else Some(if t[q].Dir? then DirectoryKind else FileKind)
  {
    hide UniquePaths, IsDescendant, Content, TreeOf, TreeOk, Find;
    var t := TreeOf(entries, ledger);
    TreeAt(entries, ledger);
    if q !in t {
      NothingBelowAbsent(t, q);
    }
  }

  // ---- edits --------------------------------------------------------------

  lemma InPush(entries: seq<Entry>, e: Entry)
    ensures forall x :: x in entries + [e] <==> x in entries || x == e
    ensures PathSet(entries + [e]) == PathSet(entries) + {e.path}
  {
  }

  lemma UniquePush(entries: seq<Entry>, e: Entry)
    requires UniquePaths(entries) && e.path !in PathSet(entries)
    ensures UniquePaths(entries + [e])
  {
  }

  lemma TreePush(entries: seq<Entry>, e: Entry, ledger: Ledger)
    requires UniquePaths(entries) && e.path !in PathSet(entries)
    ensures UniquePaths(entries + [e])
    ensures TreeOf(entries + [e], ledger) == TreeOf(entries, ledger)[e.path := NodeOf(e, ledger)]
  {
    hide NodeOf, UniquePaths, TreeOf;
    UniquePush(entries, e);
    InPush(entries, e);
    TreeAt(entries, ledger);
    var t := TreeOf(entries, ledger)[e.path := NodeOf(e, ledger)];
    forall x | x in entries ensures x.path != e.path { assert x.path in PathSet(entries); }
    TreeIs(entries + [e], ledger, t);
  }

  /** `retain` on the path. */
  function Retain(entries: seq<Entry>, keep: string -> bool): seq<Entry> {
    if entries == [] then []
    else
      var front := Retain(entries[..|entries| - 1], keep);
      if keep(entries[|entries| - 1].path) then front + [entries[|entries| - 1]] else front
  }

  lemma {:induction false} RetainKeeps(entries: seq<Entry>, keep: string -> bool)
    requires UniquePaths(entries)
    ensures UniquePaths(Retain(entries, keep))
    ensures forall e :: e in Retain(entries, keep) <==> e in entries && keep(e.path)
    ensures |Retain(entries, keep)| <= |entries|
  {
    if entries != [] {
      var front, last := entries[..|entries| - 1], entries[|entries| - 1];
      assert entries == front + [last];
      RetainKeeps(front, keep);
      InPush(front, last);
      InPush(Retain(front, keep), last);
      assert last.path !in PathSet(Retain(front, keep));
      UniquePush(Retain(front, keep), last);
    }
  }

  lemma TreeRetain(entries: seq<Entry>, keep: string -> bool, ledger: Ledger)
    requires UniquePaths(entries)
    ensures UniquePaths(Retain(entries, keep))
    ensures TreeOf(Retain(entries, keep), ledger) == map p | p in TreeOf(entries, ledger) && keep(p) :: TreeOf(entries, ledger)[p]
  {
    hide NodeOf, UniquePaths, TreeOf, Retain;
    RetainKeeps(entries, keep);
    TreeAt(entries, ledger);
    var kept := Retain(entries, keep);
    var t := map p | p in TreeOf(entries, ledger) && keep(p) :: TreeOf(entries, ledger)[p];
    forall p
      ensures p in t <==> p in PathSet(kept)
    {
      if p in t {
        var e := Find(entries, p).value;
        assert e in kept;
      }
    }
    TreeIs(kept, ledger, t);
  }

  lemma TreeSort(entries: seq<Entry>, ledger: Ledger)
    requires UniquePaths(entries)
    ensures UniquePaths(SortBy(EntryPath, entries)) && Sorted(EntryPath, SortBy(EntryPath, entries))
    ensures forall e :: e in SortBy(EntryPath, entries) <==> e in entries
    ensures TreeOf(SortBy(EntryPath, entries), ledger) == TreeOf(entries, ledger)
  {
    hide NodeOf, TreeOf, SortBy, Sorted;
    SortBySorted(EntryPath, entries);
    SortBySameElements(EntryPath, entries);
    var sorted := SortBy(EntryPath, entries);
    assert UniquePaths(sorted) by { SortUnique(entries); }
    TreeAt(entries, ledger);
    assert PathSet(sorted) == PathSet(entries);
    TreeIs(sorted, ledger, TreeOf(entries, ledger));
  }

  lemma SortUnique(entries: seq<Entry>)
    requires UniquePaths(entries)
    ensures UniquePaths(SortBy(EntryPath, entries))
  {
    hide SortBy;
    assert DistinctKeys(EntryPath, entries);
    SortByDistinct(EntryPath, entries);
    var sorted := SortBy(EntryPath, entries);
    assert forall i, j :: 0 <= i < j < |sorted| ==> EntryPath(sorted[i]) != EntryPath(sorted[j]);
  }

  // ---- ledger growth ------------------------------------------------------

  ghost predicate Grows(a: Ledger, b: Ledger) {
    forall id :: id in a ==> id in b && b[id] == a[id]
  }

  lemma PlainsAgree(ids: seq<ChunkId>, a: Ledger, b: Ledger)
    requires forall id :: id in ids ==> PlainOf(a, id) == PlainOf(b, id)
    ensures Plains(ids, a) == Plains(ids, b)
  {
  }

  /** Content depends only on the chunks an entry refers to. */
  lemma TreeLedger(entries: seq<Entry>, a: Ledger, b: Ledger, collided: bool)
    requires EntriesOk(entries, a, collided)
    requires forall e, id :: e in entries && id in e.chunks ==> id in b && b[id] == a[id]
    ensures TreeOf(entries, b) == TreeOf(entries, a) && EntriesOk(entries, b, collided)
  {
    hide TreeOf, UniquePaths;
    TreeAt(entries, a);
    forall e | e in entries
      ensures NodeOf(e, b) == NodeOf(e, a) && EntryOk(e, b, collided)
    {
      assert EntryOk(e, a, collided);
      PlainsAgree(e.chunks, a, b);
    }
    TreeIs(entries, b, TreeOf(entries, a));
  }

  // ---- moving and copying entries -----------------------------------------

  function Relocated(e: Entry, from: string, to: string): Entry {
    if AtOrBelow(e.path, from) then e.(path := Remap(e.path, from, to)) else e
  }

  function RelocateAll(entries: seq<Entry>, from: string, to: string): seq<Entry> {
    seq(|entries|, i requires 0 <= i < |entries| => Relocated(entries[i], from, to))
  }

  lemma RelocateImage(entries: seq<Entry>, from: string, to: string, e: Entry)
    requires e in entries
    ensures Relocated(e, from, to) in RelocateAll(entries, from, to)
  {
    hide Relocated;
    var i :| 0 <= i < |entries| && entries[i] == e;
    assert RelocateAll(entries, from, to)[i] == Relocated(e, from, to);
  }

  lemma RelocateOrigin(entries: seq<Entry>, from: string, to: string, x: Entry) returns (e: Entry)
    requires x in RelocateAll(entries, from, to)
    ensures e in entries && x == Relocated(e, from, to)
  {
    hide Relocated;
    var i :| 0 <= i < |entries| && RelocateAll(entries, from, to)[i] == x;
    e := entries[i];
  }

  lemma RelocateUnique(entries: seq<Entry>, from: string, to: string)
    requires UniquePaths(entries) && forall e :: e in entries ==> !AtOrBelow(e.path, to)
    ensures UniquePaths(RelocateAll(entries, from, to))
  {
    hide AtOrBelow, Remap;
    forall i, j | 0 <= i < j < |entries|
      ensures Relocated(entries[i], from, to).path != Relocated(entries[j], from, to).path
    {
      var a, b := entries[i].path, entries[j].path;
      assert a != b && !AtOrBelow(a, to) && !AtOrBelow(b, to);
      RelocateApart(a, b, from, to);
    }
  }

  lemma RelocateApart(a: string, b: string, from: string, to: string)
    requires a != b && !AtOrBelow(a, to) && !AtOrBelow(b, to)
    ensures (if AtOrBelow(a, from) then Remap(a, from, to) else a) != (if AtOrBelow(b, from) then Remap(b, from, to) else b)
  {
    hide AtOrBelow, Remap;
    if AtOrBelow(a, from) { RemapOneToOne(a, a, from, to); }
    if AtOrBelow(b, from) { RemapOneToOne(b, b, from, to); }
  }

  /** Renaming the entries of a subtree denotes moving the subtree. */
  lemma TreeRelocate(entries: seq<Entry>, from: string, to: string, ledger: Ledger)
    requires UniquePaths(entries) && forall e :: e in entries ==> !AtOrBelow(e.path, to)
    ensures UniquePaths(RelocateAll(entries, from, to))
    ensures var t := TreeOf(entries, ledger);
            TreeOf(RelocateAll(entries, from, to), ledger) == Outside(t, from) + Grafted(t, from, to)
  {
    hide NodeOf, UniquePaths, TreeOf, AtOrBelow, Remap, RelocateAll, Grafted, Outside, Relocated;
    var t := TreeOf(entries, ledger);
    var moved := RelocateAll(entries, from, to);
    var t1 := Outside(t, from) + Grafted(t, from, to);
    RelocateUnique(entries, from, to);
    TreeAt(entries, ledger);
    forall x | x in moved
      ensures x.path in t1 && t1[x.path] == NodeOf(x, ledger)
    {
      var e := RelocateOrigin(entries, from, to, x);
      RelocatedNode(t, e, from, to, ledger);
    }
    forall p | p in t1
      ensures p in PathSet(moved)
    {
      var o := RelocatedOrigin(t, p, from, to);
      var e := Find(entries, o).value;
      RelocatedPath(e, p, from, to);
      RelocateImage(entries, from, to, e);
    }
    TreeIs(moved, ledger, t1);
  }

  lemma RelocatedNode(t: Tree, e: Entry, from: string, to: string, ledger: Ledger)
    requires e.path in t && t[e.path] == NodeOf(e, ledger) && !AtOrBelow(e.path, to)
    ensures var x := Relocated(e, from, to);
            var t1 := Outside(t, from) + Grafted(t, from, to);
            x.path in t1 && t1[x.path] == NodeOf(x, ledger)
  {
    hide AtOrBelow, Remap, Grafted;
    var x := Relocated(e, from, to);
    GraftAt(t, from, to, x.path);
    if AtOrBelow(e.path, from) {
      RemapOneToOne(e.path, e.path, from, to);
    }
  }

  lemma RelocatedOrigin(t: Tree, p: string, from: string, to: string) returns (o: string)
    requires p in Outside(t, from) + Grafted(t, from, to)
    ensures o in t && if AtOrBelow(o, from) then p == Remap(o, from, to) else p == o
  {
    hide AtOrBelow, Remap, Grafted;
    GraftAt(t, from, to, p);
    o := if p in Grafted(t, from, to) then Remap(p, to, from) else p;
  }

  lemma RelocatedPath(e: Entry, p: string, from: string, to: string)
    requires if AtOrBelow(e.path, from) then p == Remap(e.path, from, to) else p == e.path
    ensures Relocated(e, from, to).path == p
  {
  }

  lemma NodeIgnoresPath(a: Entry, b: Entry, ledger: Ledger)
    requires b == a.(path := b.path)
    ensures NodeOf(a, ledger) == NodeOf(b, ledger)
  {
  }

  /** The entries at or below `from`, renamed to live under `to`. */
  function Clones(entries: seq<Entry>, from: string, to: string): seq<Entry> {
    if entries == [] then []
    else
      var front := Clones(entries[..|entries| - 1], from, to);
      var last := entries[|entries| - 1];
      if AtOrBelow(last.path, from) then front + [last.(path := Remap(last.path, from, to))] else front
  }

  lemma {:induction false} TreeClones(entries: seq<Entry>, from: string, to: string, whole: seq<Entry>, ledger: Ledger)
    requires UniquePaths(entries) && UniquePaths(whole)
    requires forall e :: e in whole ==> !AtOrBelow(e.path, to)
    ensures UniquePaths(whole + Clones(entries, from, to))
    ensures forall x :: x in Clones(entries, from, to) ==> AtOrBelow(x.path, to)
    ensures TreeOf(whole + Clones(entries, from, to), ledger) ==
            TreeOf(whole, ledger) + Grafted(TreeOf(entries, ledger), from, to)
  {
    hide NodeOf, UniquePaths, TreeOf, AtOrBelow, Remap, Grafted;
    if entries == [] {
      assert whole + [] == whole;
      assert TreeOf(entries, ledger) == map[] by { TreeIs(entries, ledger, map[]); }
      GraftedNone(from, to);
    } else {
      var front, last := entries[..|entries| - 1], entries[|entries| - 1];
      assert entries == front + [last];
      assert UniquePaths(front) && last.path !in PathSet(front) by { UniqueFront(front, last); }
      TreeClones(front, from, to, whole, ledger);
      TreePush(front, last, ledger);
      InPush(front, last);
      var t := TreeOf(front, ledger);
      TreeAt(front, ledger);
      var before := whole + Clones(front, from, to);
      if AtOrBelow(last.path, from) {
        var x := last.(path := Remap(last.path, from, to));
        GraftedMore(t, last.path, NodeOf(last, ledger), from, to);
        CloneIsNew(whole, ledger, t, last.path, from, to);
        TreeAt(before, ledger);
        TreePush(before, x, ledger);
        NodeIgnoresPath(last, x, ledger);
        RemapOneToOne(last.path, last.path, from, to);
        InPush(Clones(front, from, to), x);
        assert whole + Clones(entries, from, to) == before + [x];
        UpdateRight(TreeOf(whole, ledger), Grafted(t, from, to), x.path, NodeOf(last, ledger));
      } else {
        GraftedSame(t, last.path, NodeOf(last, ledger), from, to);
      }
    }
  }

  lemma UpdateRight<K, V>(a: map<K, V>, b: map<K, V>, k: K, v: V)
    ensures (a + b)[k := v] == a + b[k := v]
  {
  }

  lemma {:induction false} CloneOrigin(entries: seq<Entry>, from: string, to: string, x: Entry) returns (e: Entry)
    requires x in Clones(entries, from, to)
    ensures e in entries && x == e.(path := x.path)
  {
    var front, last := entries[..|entries| - 1], entries[|entries| - 1];
    if x in Clones(front, from, to) {
      e := CloneOrigin(front, from, to, x);
    } else {
      e := last;
    }
  }

  lemma CloneIsNew(whole: seq<Entry>, ledger: Ledger, t: Tree, p: string, from: string, to: string)
    requires UniquePaths(whole) && forall e :: e in whole ==> !AtOrBelow(e.path, to)
    requires AtOrBelow(p, from) && Remap(p, from, to) !in Grafted(t, from, to)
    ensures Remap(p, from, to) !in TreeOf(whole, ledger) + Grafted(t, from, to)
  {
  }

  lemma UniqueFront(front: seq<Entry>, last: Entry)
    requires UniquePaths(front + [last])
    ensures UniquePaths(front) && last.path !in PathSet(front)
  {
    var entries := front + [last];
    assert forall i :: 0 <= i < |front| ==> entries[i] == front[i];
    assert entries[|front|] == last;
    forall e | e in front
      ensures e.path != last.path
    {
      var i :| 0 <= i < |front| && front[i] == e;
      assert entries[i].path != entries[|front|].path;
    }
    forall i, j | 0 <= i < j < |front|
      ensures front[i].path != front[j].path
    {
      assert entries[i].path != entries[j].path;
    }
  }

  lemma GraftedNone(from: string, to: string)
    ensures Grafted(map[], from, to) == map[]
  {
  }

  lemma GraftedMore(t: Tree, p: string, node: Node, from: string, to: string)
    requires AtOrBelow(p, from) && p !in t
    ensures Grafted(t[p := node], from, to) == Grafted(t, from, to)[Remap(p, from, to) := node]
    ensures Remap(p, from, to) !in Grafted(t, from, to)
  {
    hide AtOrBelow, Remap, Grafted;
    var q := Remap(p, from, to);
    RemapOneToOne(p, p, from, to);
    var more, less := Grafted(t[p := node], from, to), Grafted(t, from, to);
    forall x
      ensures x in more <==> x in less || x == q
      ensures x in more ==> more[x] == if x == q then node else less[x]
    {
      GraftAt(t, from, to, x);
      GraftAt(t[p := node], from, to, x);
    }
    GraftAt(t, from, to, q);
  }

  lemma GraftedSame(t: Tree, p: string, node: Node, from: string, to: string)
    requires !AtOrBelow(p, from) && p !in t
    ensures Grafted(t[p := node], from, to) == Grafted(t, from, to)
  {
  }

  /** A larger ledger leaves every entry, and so the tree, as it was. */
  lemma LedgerSteps(entries: seq<Entry>, a: Ledger, b: Ledger, collided: bool)
    requires EntriesOk(entries, a, collided) && Grows(a, b)
    ensures EntriesOk(entries, b, collided) && TreeOf(entries, b) == TreeOf(entries, a)
  {
    hide TreeOf, UniquePaths;
    TreeLedger(entries, a, b, collided);
  }

  /** A collision only weakens what is claimed of the entries. */
  lemma EntriesAnyway(entries: seq<Entry>, ledger: Ledger, collided: bool)
    requires EntriesOk(entries, ledger, collided)
    ensures EntriesOk(entries, ledger, true)
  {
  }
}
