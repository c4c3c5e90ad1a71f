/** The abstract vault: a plain map from path to directory or file bytes, the meaning of each
    operation on it, and what every operation keeps. */
module Trees {
  import opened Wrappers
  import opened ByteSeqs
  import opened Ordering
  import opened Paths
  import opened VaultTypes
  import opened Packing

  datatype Node = Dir | File(bytes: Bytes)

  type Tree = map<string, Node>

  // ---- operations ---------------------------------------------------------

  /** The proper ancestors of a path. */
  function Ancestors(q: string): set<string> {
    set i | 0 <= i < |q| && IsSlashAt(q, i) :: q[..i]
  }

  function WithDirs(t: Tree, dirs: set<string>): Tree {
    t + (map d | d in dirs && d !in t :: Dir)
  }

  predicate FileAbove(t: Tree, q: string) {
    exists a :: a in Ancestors(q) && a in t && t[a].File?
  }

  function Mkdir(t: Tree, q: string): Result<Tree, VaultError> {
    if FileAbove(t, q) then Err(FileInTheWay)
    else if q in t && t[q].File? then Err(FileInTheWay)
    else Ok(WithDirs(t, Ancestors(q) + {q}))
  }

  function AddFile(t: Tree, q: string, bytes: Bytes): Result<Tree, VaultError> {
    if FileAbove(t, q) then Err(FileInTheWay)
    else if q in t && t[q].Dir? then Err(DirectoryInTheWay)
    else Ok(WithDirs(t, Ancestors(q))[q := File(bytes)])
  }

  function AddAll(t: Tree, files: seq<SmallFile>): Result<Tree, VaultError>
    decreases |files|
  {
    if files == [] then Ok(t)
    else
      match AddFile(t, files[0].path, files[0].bytes)
      case Err(e) => Err(e)
      case Ok(t1) => AddAll(t1, files[1..])
  }

  /** The tree once the files up to the first that cannot be added are in it. */
  function AddedUpTo(t: Tree, files: seq<SmallFile>): Tree
    decreases |files|
  {
    if files == [] then t
    else
      match AddFile(t, files[0].path, files[0].bytes)
      case Err(_) => t
      case Ok(t1) => AddedUpTo(t1, files[1..])
  }

  /** Everything but `root` and what is below it. */
  function Outside(t: Tree, root: string): Tree {
    map p | p in t && !AtOrBelow(p, root) :: t[p]
  }

  predicate HasChildren(t: Tree, q: string) {
    exists p :: p in t && IsDescendant(p, q)
  }

  function Without(t: Tree, q: string): Tree {
    map p | p in t && p != q :: t[p]
  }

  /** What is at `q` decides; where nothing is, something below makes it a directory. */
  function DeleteOne(t: Tree, q: string, recursive: bool): Result<Tree, VaultError> {
    if q in t && t[q].File? then Ok(Without(t, q))
    else if q !in t && !HasChildren(t, q) then Err(NotFound)
    else if HasChildren(t, q) && !recursive then Err(NotEmpty)
    else Ok(Outside(t, q))
  }

  /** Where the subtree at `from` lands under `to`. */
  function Image(t: Tree, from: string, to: string): (im: set<string>)
    ensures forall p :: p in im ==> AtOrBelow(p, to) && AtOrBelow(Remap(p, to, from), from) && Remap(p, to, from) in t
    ensures forall s :: s in t && AtOrBelow(s, from) ==> Remap(s, from, to) in im
  {
    RemapBackAll(t, from, to);
    set s | s in t && AtOrBelow(s, from) :: Remap(s, from, to)
  }

  lemma RemapBackAll(t: Tree, from: string, to: string)
    ensures forall s :: s in t && AtOrBelow(s, from) ==>
              AtOrBelow(Remap(s, from, to), to) && Remap(Remap(s, from, to), to, from) == s
  {
    forall s | s in t && AtOrBelow(s, from)
      ensures AtOrBelow(Remap(s, from, to), to) && Remap(Remap(s, from, to), to, from) == s
    {
      RemapOneToOne(s, s, from, to);
    }
  }

  /** The subtree at `from`, seen at `to`. */
  function Grafted(t: Tree, from: string, to: string): Tree {
    map p | p in Image(t, from, to) :: t[Remap(p, to, from)]
  }

  /** The grafted subtree, path by path. */
  lemma GraftAt(t: Tree, from: string, to: string, p: string)
    ensures p in Grafted(t, from, to) <==> AtOrBelow(p, to) && Remap(p, to, from) in t
    ensures p in Grafted(t, from, to) ==> Grafted(t, from, to)[p] == t[Remap(p, to, from)]
    ensures AtOrBelow(p, to) ==> AtOrBelow(Remap(p, to, from), from) && Remap(Remap(p, to, from), from, to) == p
  {
    hide AtOrBelow, Remap;
    if AtOrBelow(p, to) {
      RemapOneToOne(p, p, to, from);
    }
  }

  function Relocatable(t: Tree, from: string, to: string): Result<(), VaultError> {
    if from !in t then Err(NotFound)
    else if from == to then Ok(())
    else if t[from].Dir? && IsDescendant(to, from) then Err(InsideItself)
    else if to in t then Err(AlreadyExists)
    else if FileAbove(t, to) then Err(FileInTheWay)
    else Ok(())
  }

  function Move(t: Tree, from: string, to: string): Result<Tree, VaultError> {
    match Relocatable(t, from, to)
    case Err(e) => Err(e)
    case Ok(_) =>
      if from == to then Ok(t)
      else Ok(WithDirs(Outside(t, from), Ancestors(to)) + Grafted(t, from, to))
  }

  function Copy(t: Tree, from: string, to: string): Result<Tree, VaultError> {
    match Relocatable(t, from, to)
    case Err(e) => Err(e)
    case Ok(_) =>
      if from == to then Ok(t)
      else Ok(WithDirs(t, Ancestors(to)) + Grafted(t, from, to))
  }

  /** What is below `q`, by path inside it. */
  function Below(t: Tree, q: string): Tree {
    var inside := set p | p in t && IsDescendant(p, q) :: RelativeTo(p, q);
    map rel | rel in inside :: NodeAt(t, q + "/" + rel)
  }

  function NodeAt(t: Tree, p: string): Node { if p in t then t[p] else Dir }

  lemma BelowAt(t: Tree, q: string, rel: string)
    ensures rel in Below(t, q) <==> q + "/" + rel in t
    ensures rel in Below(t, q) ==> Below(t, q)[rel] == t[q + "/" + rel]
  {
    var p := q + "/" + rel;
    assert IsDescendant(p, q) && RelativeTo(p, q) == rel;
  }

  lemma BelowUpdate(t: Tree, q: string, p: string, node: Node)
    requires IsDescendant(p, q)
    ensures Below(t[p := node], q) == Below(t, q)[RelativeTo(p, q) := node]
  {
    hide Below, IsDescendant;
    var after, before := Below(t[p := node], q), Below(t, q)[RelativeTo(p, q) := node];
    forall rel
      ensures rel in after <==> rel in before
      ensures rel in after ==> after[rel] == before[rel]
    {
      BelowAt(t, q, rel);
      BelowAt(t[p := node], q, rel);
      assert q + "/" + rel == p <==> rel == RelativeTo(p, q) by { SameRelative(p, q, rel); }
    }
  }

  lemma SameRelative(p: string, q: string, rel: string)
    requires IsDescendant(p, q)
    ensures q + "/" + rel == p <==> rel == RelativeTo(p, q)
  {
    assert (q + "/" + rel)[|q| + 1..] == rel;
  }

  /** What follows `q` in each path below it is acceptable as a path of its own. */
  ghost predicate AllExtractable(t: Tree, q: string) {
    forall p :: p in t && IsDescendant(p, q) ==> Extractable(p, q)
  }

  /** Each path below `q`, and what follows `q` in it, normalises. */
  ghost predicate AllAccepted(t: Tree, q: string) {
    forall p :: p in t && IsDescendant(p, q) ==> Normalize(p).Ok? && Normalize(RelativeTo(p, q)).Ok?
  }

  /** Between canonical paths that is a condition on what follows `q`. */
  lemma AcceptedIsExtractable(t: Tree, q: string)
    requires forall p :: p in t ==> Canonical(p)
    ensures AllAccepted(t, q) <==> AllExtractable(t, q)
  {
    hide Normalize, OwnPath, IsDescendant, RelativeTo;
    forall p | p in t && IsDescendant(p, q)
      ensures Normalize(p).Ok? && (Normalize(RelativeTo(p, q)).Ok? <==> OwnPath(RelativeTo(p, q)))
    {
      RelativeNormalizes(p, q);
    }
  }

  /** Extracting a directory, when every block can be read. */
  ghost function ExtractedBelow(t: Tree, q: string): Result<Tree, VaultError> {
    if AllExtractable(t, q) then Ok(Below(t, q)) else Err(BadPath)
  }

  // ---- what an operation leaves alone -------------------------------------

  /** Every old path outside `targets` keeps its node, and every new one is a target or a directory. */
  ghost predicate Spared(t: Tree, targets: set<string>, t1: Tree) {
    && (forall p :: p in t && p !in targets ==> p in t1 && t1[p] == t[p])
    && (forall p :: p in t1 && p !in t && p !in targets ==> t1[p].Dir?)
  }

  lemma SparedThen(t: Tree, a: set<string>, t1: Tree, b: set<string>, t2: Tree)
    requires Spared(t, a, t1) && Spared(t1, b, t2)
    ensures Spared(t, a + b, t2)
  {
  }

  // ---- what every operation keeps -----------------------------------------

  lemma AncestorsAre(q: string)
    ensures forall a :: a in Ancestors(q) <==> IsDescendant(q, a)
  {
  }

  lemma DescendantTransitive(p: string, q: string, r: string)
    requires IsDescendant(p, q) && AtOrBelow(q, r)
    ensures IsDescendant(p, r)
  {
  }

  lemma DescendantIsShorter(p: string, q: string)
    requires IsDescendant(p, q)
    ensures !AtOrBelow(q, p)
  {
  }

  lemma CleanAncestor(p: string, a: string)
    requires Clean(p) && IsDescendant(p, a)
    ensures Clean(a)
  {
    assert IsSlashAt(p, |a|) && p[..|a|] == a;
    AncestorClean(p, |a|);
  }

  /** Canonical paths, and everything above a path is an explicit directory. */
  ghost predicate TreeOk(t: Tree) {
    && (forall p :: p in t ==> Canonical(p))
    && (forall p, a :: p in t && IsDescendant(p, a) ==> a in t && t[a].Dir?)
  }

  /** In a well-formed tree every path is clean, and no file has anything below it. */
  lemma TreeOkMeaning(t: Tree)
    requires TreeOk(t)
    ensures forall p :: p in t ==> Clean(p) && !FileAbove(t, p)
    ensures forall p, q :: p in t && q in t && IsDescendant(q, p) ==> t[p].Dir?
  {
    hide Canonical, Clean, Ancestors, IsDescendant;
    forall p | p in t
      ensures Clean(p) && !FileAbove(t, p)
    {
      AncestorsAre(p);
      CleanIfAncestorsCanonical(p);
    }
  }

  lemma CleanIfAncestorsCanonical(p: string)
    requires Canonical(p) && forall a :: IsDescendant(p, a) ==> Canonical(a)
    ensures Clean(p)
  {
    hide Canonical;
    forall i: nat | IsSlashAt(p, i)
      ensures Canonical(p[..i])
    {
      assert IsDescendant(p, p[..i]);
    }
    CleanIffAncestorsCanonical(p);
  }

  lemma WithDirsOk(t: Tree, q: string)
    requires TreeOk(t) && Clean(q) && !FileAbove(t, q)
    ensures TreeOk(WithDirs(t, Ancestors(q)))
    ensures q !in t ==> TreeOk(WithDirs(t, Ancestors(q) + {q}))
    ensures q in t ==> WithDirs(t, Ancestors(q)) == t == WithDirs(t, Ancestors(q) + {q})
    ensures forall a :: IsDescendant(q, a) ==> a in WithDirs(t, Ancestors(q)) && WithDirs(t, Ancestors(q))[a].Dir?
  {
    hide IsDescendant, Canonical, Ancestors, Clean;
    AncestorsAre(q);
    AncestorsOfClean(q);
    CleanIsCanonical(q);
  }

  lemma AncestorsOfClean(q: string)
    requires Clean(q)
    ensures forall a :: IsDescendant(q, a) ==> Canonical(a)
    ensures forall a, b :: IsDescendant(q, a) && IsDescendant(a, b) ==> IsDescendant(q, b)
  {
    hide IsDescendant, Canonical, Clean;
    forall a | IsDescendant(q, a)
      ensures Canonical(a) && (forall b :: IsDescendant(a, b) ==> IsDescendant(q, b))
    {
      CleanAncestor(q, a);
      CleanIsCanonical(a);
      forall b | IsDescendant(a, b) ensures IsDescendant(q, b) { DescendantTransitive(q, a, b); }
    }
  }

  lemma CleanIsCanonical(p: string)
    ensures Clean(p) ==> Canonical(p)
  {
  }

  lemma MkdirKeepsTree(t: Tree, q: string)
    requires TreeOk(t) && Clean(q) && Mkdir(t, q).Ok?
    ensures TreeOk(Mkdir(t, q).value)
  {
    WithDirsOk(t, q);
  }

  lemma AddFileKeepsTree(t: Tree, q: string, bytes: Bytes)
    requires TreeOk(t) && Clean(q) && AddFile(t, q, bytes).Ok?
    ensures TreeOk(AddFile(t, q, bytes).value)
  {
    hide IsDescendant, Canonical, Ancestors, Clean;
    var t1 := WithDirs(t, Ancestors(q));
    var t2 := AddFile(t, q, bytes).value;
    WithDirsOk(t, q);
    AncestorsAre(q);
    CleanIsCanonical(q);
    forall p, a | p in t2 && IsDescendant(p, a)
      ensures a in t2 && t2[a].Dir?
    {
      if a == q {
        DescendantIsShorter(p, q);
        if p !in t && p != q {
          DescendantIsShorter(q, p);
        }
      } else if p == q {
        assert a in t1;
      }
    }
  }

  lemma DeleteKeepsTree(t: Tree, q: string, recursive: bool)
    requires TreeOk(t) && DeleteOne(t, q, recursive).Ok?
    ensures TreeOk(DeleteOne(t, q, recursive).value)
  {
    DeleteMeaning(t, q, recursive);
    OutsideOk(t, q);
  }

  /** In a well-formed tree a deletion takes away what is there and everything below it. */
  lemma DeleteMeaning(t: Tree, q: string, recursive: bool)
    requires TreeOk(t)
    ensures DeleteOne(t, q, recursive).Ok? <==> q in t && (recursive || !HasChildren(t, q))
    ensures DeleteOne(t, q, recursive).Ok? ==> DeleteOne(t, q, recursive).value == Outside(t, q)
  {
    hide Canonical, IsDescendant;
  }

  lemma OutsideOk(t: Tree, q: string)
    requires TreeOk(t)
    ensures TreeOk(Outside(t, q))
  {
    hide IsDescendant, Canonical;
    forall p, a | p in Outside(t, q) && IsDescendant(p, a)
      ensures a in Outside(t, q) && t[a].Dir?
    {
      if AtOrBelow(a, q) {
        DescendantTransitive(p, a, q);
      }
    }
  }

  // ---- moving and copying -------------------------------------------------

  /** Every path below a remapped path comes from below its origin, or leads to the destination. */
  lemma AncestorOfRemapped(s: string, from: string, to: string, a: string)
    requires AtOrBelow(s, from) && IsDescendant(Remap(s, from, to), a)
    ensures IsDescendant(to, a) || (AtOrBelow(a, to) && AtOrBelow(Remap(a, to, from), from) && IsDescendant(s, Remap(a, to, from)))
  {
    var p := Remap(s, from, to);
    if s != from {
      var rest := s[|from| + 1..];
      assert s == from + "/" + rest && p == to + "/" + rest;
      if |a| < |to| {
        assert to[..|a|] == p[..|a|] && to[|a|] == p[|a|];
      } else if |a| > |to| {
        assert a[..|to|] == to && a[|to|] == '/';
        var o := Remap(a, to, from);
        assert o == from + "/" + a[|to| + 1..];
        assert s[..|o|] == o && s[|o|] == p[|a|];
      } else {
        assert a == to && Remap(a, to, from) == from;
      }
    }
  }

  lemma GraftOk(t: Tree, base: Tree, from: string, to: string)
    requires TreeOk(t) && TreeOk(base) && Clean(to) && from in t
    requires forall a :: IsDescendant(to, a) ==> a in base && base[a].Dir?
    requires forall p :: p in base ==> !AtOrBelow(p, to)
    ensures TreeOk(base + Grafted(t, from, to))
  {
    hide IsDescendant, Canonical, Grafted, Clean, AtOrBelow;
    var g := Grafted(t, from, to);
    GraftCanonical(t, from, to);
    forall p, a | (p in g || p in base) && IsDescendant(p, a)
      ensures a in base + g && (base + g)[a].Dir?
    {
      GraftAt(t, from, to, a);
      if p in g {
        GraftAncestor(t, from, to, p, a);
      }
    }
  }

  lemma GraftCanonical(t: Tree, from: string, to: string)
    requires TreeOk(t) && Clean(to)
    ensures forall p :: p in Grafted(t, from, to) ==> Canonical(p)
  {
    hide IsDescendant, Canonical, Clean, Remap, Grafted, AtOrBelow, TreeOk;
    TreeOkMeaning(t);
    forall p | p in Grafted(t, from, to)
      ensures Canonical(p)
    {
      GraftAt(t, from, to, p);
      var s := Remap(p, to, from);
      RemapClean(s, from, to);
      CleanIsCanonical(p);
    }
  }

  /** Above a grafted path there is a grafted directory, or an ancestor of the destination. */
  lemma GraftAncestor(t: Tree, from: string, to: string, p: string, a: string)
    requires TreeOk(t) && from in t && p in Grafted(t, from, to) && IsDescendant(p, a)
    ensures IsDescendant(to, a) || (a in Grafted(t, from, to) && Grafted(t, from, to)[a].Dir?)
  {
    hide IsDescendant, Canonical, Remap, Grafted;
    GraftAt(t, from, to, p);
    AncestorOfRemapped(Remap(p, to, from), from, to, a);
    GraftAt(t, from, to, a);
  }

  /** A destination that is not there has nothing below it. */
  lemma NothingBelowAbsent(t: Tree, to: string)
    requires TreeOk(t) && to !in t
    ensures forall p :: p in t ==> !AtOrBelow(p, to)
  {
  }

  lemma MoveKeepsTree(t: Tree, from: string, to: string)
    requires TreeOk(t) && Clean(to) && Move(t, from, to).Ok?
    ensures TreeOk(Move(t, from, to).value)
  {
    hide IsDescendant, Canonical, Clean, Ancestors, Grafted;
    if from != to {
      var kept := Outside(t, from);
      OutsideOk(t, from);
      WithDirsOk(kept, to);
      NothingBelowAbsent(t, to);
      WithDirsAbsent(kept, to);
      GraftOk(t, WithDirs(kept, Ancestors(to)), from, to);
    }
  }

  lemma CopyKeepsTree(t: Tree, from: string, to: string)
    requires TreeOk(t) && Clean(to) && Copy(t, from, to).Ok?
    ensures TreeOk(Copy(t, from, to).value)
  {
    hide IsDescendant, Canonical, Clean, Ancestors, Grafted;
    if from != to {
      WithDirsOk(t, to);
      NothingBelowAbsent(t, to);
      WithDirsAbsent(t, to);
      GraftOk(t, WithDirs(t, Ancestors(to)), from, to);
    }
  }

  lemma WithDirsAbsent(t: Tree, to: string)
    requires forall p :: p in t ==> !AtOrBelow(p, to)
    ensures forall p :: p in WithDirs(t, Ancestors(to)) ==> !AtOrBelow(p, to)
  {
  }

  // ---- what a move does ---------------------------------------------------

  /** Source and destination of a move that is allowed are apart from one another. */
  lemma MoveApart(t: Tree, from: string, to: string)
    requires TreeOk(t) && Relocatable(t, from, to).Ok? && from != to
    ensures !AtOrBelow(to, from) && !AtOrBelow(from, to)
  {
    hide Canonical;
    AncestorsAre(to);
  }

  /** Nothing stands at `to` or below it, no file above it, and it is not inside what is to go there. */
  ghost predicate RoomAt(t: Tree, from: string, to: string) {
    && (forall p :: p in t ==> !AtOrBelow(p, to) && (t[p].File? ==> !IsDescendant(to, p)))
    && !IsDescendant(to, from)
  }

  /** In a well-formed tree a move or a copy to another path succeeds exactly when the source is there and there is room. */
  lemma RelocationSucceeds(t: Tree, from: string, to: string)
    requires TreeOk(t) && from != to
    ensures Move(t, from, to).Ok? <==> from in t && RoomAt(t, from, to)
    ensures Copy(t, from, to).Ok? <==> from in t && RoomAt(t, from, to)
  {
    hide IsDescendant, Canonical, Ancestors, Grafted, Outside;
    AncestorsAre(to);
    if from in t && t[from].File? && IsDescendant(to, from) {
      assert FileAbove(t, to);
    }
  }


  /** A move carries the subtree one-to-one to its destination, leaves the rest alone, and creates
      nothing but missing ancestors of the destination. */
  lemma MoveMeaning(t: Tree, from: string, to: string)
    requires TreeOk(t) && Move(t, from, to).Ok? && from != to
    ensures var t1 := Move(t, from, to).value;
            && (forall s :: s in t && AtOrBelow(s, from) ==>
                  Remap(s, from, to) in t1 && t1[Remap(s, from, to)] == t[s])
            && (forall p :: p in t && !AtOrBelow(p, from) ==> p in t1 && t1[p] == t[p])
            && (forall p :: p in t1 ==> !AtOrBelow(p, from))
            && (forall p :: p in t1 && p !in t && !AtOrBelow(p, to) ==> IsDescendant(to, p) && t1[p].Dir?)
            && (forall p :: p in t1 && AtOrBelow(p, to) ==> Remap(p, to, from) in t && t1[p] == t[Remap(p, to, from)])
  {
    hide IsDescendant, Canonical, Ancestors, Remap, TreeOk, Relocatable, AtOrBelow, Grafted;
    var t1 := Move(t, from, to).value;
    MoveApart(t, from, to);
    AncestorsAre(to);
    MoveTargetFree(t, from, to);
    forall s | s in t && AtOrBelow(s, from)
      ensures Remap(s, from, to) in t1 && t1[Remap(s, from, to)] == t[s]
    {
      RemapOneToOne(s, s, from, to);
      GraftAt(t, from, to, Remap(s, from, to));
    }
    forall p | p in t1 || p in t
      ensures p in t1 ==> !AtOrBelow(p, from)
      ensures p in Grafted(t, from, to) ==>
                AtOrBelow(p, to) && Remap(p, to, from) in t && t1[p] == t[Remap(p, to, from)]
      ensures p in t1 && AtOrBelow(p, to) ==> p in Grafted(t, from, to)
    {
      ApartEverywhere(p, from, to);
      GraftAt(t, from, to, p);
    }
  }

  lemma MoveTargetFree(t: Tree, from: string, to: string)
    requires TreeOk(t) && Relocatable(t, from, to).Ok? && from != to
    ensures forall p :: p in t ==> !AtOrBelow(p, to)
  {
    NothingBelowAbsent(t, to);
  }

  lemma ApartEverywhere(p: string, from: string, to: string)
    requires !AtOrBelow(to, from) && !AtOrBelow(from, to)
    ensures !(AtOrBelow(p, from) && AtOrBelow(p, to))
    ensures IsDescendant(to, p) ==> !AtOrBelow(p, from) && !AtOrBelow(p, to)
  {
  }

  /** A copy puts the same subtree at the destination, keeps everything there was, and creates nothing
      but missing ancestors of the destination. */
  lemma CopyMeaning(t: Tree, from: string, to: string)
    requires TreeOk(t) && Copy(t, from, to).Ok? && from != to
    ensures var t1 := Copy(t, from, to).value;
            && (forall s :: s in t && AtOrBelow(s, from) ==>
                  Remap(s, from, to) in t1 && t1[Remap(s, from, to)] == t[s])
            && (forall p :: p in t ==> p in t1 && t1[p] == t[p])
            && (forall p :: p in t1 && p !in t && !AtOrBelow(p, to) ==> IsDescendant(to, p) && t1[p].Dir?)
            && (forall p :: p in t1 && AtOrBelow(p, to) ==> Remap(p, to, from) in t && t1[p] == t[Remap(p, to, from)])
  {
    hide IsDescendant, Canonical, Ancestors, Remap, TreeOk, Relocatable, AtOrBelow, Grafted;
    var t1 := Copy(t, from, to).value;
    MoveApart(t, from, to);
    AncestorsAre(to);
    MoveTargetFree(t, from, to);
    forall s | s in t && AtOrBelow(s, from)
      ensures Remap(s, from, to) in t1 && t1[Remap(s, from, to)] == t[s]
    {
      RemapOneToOne(s, s, from, to);
      GraftAt(t, from, to, Remap(s, from, to));
    }
    forall p | p in t1 || p in t
      ensures p in Grafted(t, from, to) ==>
                AtOrBelow(p, to) && Remap(p, to, from) in t && t1[p] == t[Remap(p, to, from)]
      ensures p in t1 && AtOrBelow(p, to) ==> p in Grafted(t, from, to)
    {
      ApartEverywhere(p, from, to);
      GraftAt(t, from, to, p);
    }
  }

  /** Moving back undoes a move that had no directory to create. */
  lemma MoveBack(t: Tree, from: string, to: string)
    requires TreeOk(t) && Move(t, from, to).Ok? && forall a :: IsDescendant(to, a) ==> a in t
    ensures Move(Move(t, from, to).value, to, from) == Ok(t)
  {
    hide IsDescendant, Canonical, Ancestors, Remap, TreeOk, Move, Relocatable;
    if from == to {
      MoveInPlace(t, from);
    } else {
      var t1 := Move(t, from, to).value;
      MoveBackAllowed(t, from, to);
      MoveMeaning(t, from, to);
      var graft := Grafted(t1, to, from);
      forall p
        ensures p in graft <==> p in t && AtOrBelow(p, from)
        ensures p in graft ==> graft[p] == t[p]
      {
        GraftBackAt(t, t1, from, to, p);
      }
      Reassemble(t, Outside(t1, to), Ancestors(from), graft, from, to);
    }
  }

  lemma MoveInPlace(t: Tree, from: string)
    requires Move(t, from, from).Ok?
    ensures Move(t, from, from) == Ok(t)
  {
  }

  lemma MoveBackAllowed(t: Tree, from: string, to: string)
    requires TreeOk(t) && Move(t, from, to).Ok? && from != to
    ensures var t1 := Move(t, from, to).value;
            Move(t1, to, from) == Ok(WithDirs(Outside(t1, to), Ancestors(from)) + Grafted(t1, to, from))
    ensures forall a :: a in Ancestors(from) ==> a in t && !AtOrBelow(a, from) && !AtOrBelow(a, to)
    ensures forall p :: p in t ==> !AtOrBelow(p, to)
  {
    hide IsDescendant, Canonical, Ancestors, Remap, Grafted;
    var t1 := Move(t, from, to).value;
    MoveMeaning(t, from, to);
    MoveApart(t, from, to);
    MoveTargetFree(t, from, to);
    AncestorsAre(from);
    RemapRoot(from, to);
    forall a | IsDescendant(from, a)
      ensures a in t1 && t1[a].Dir? && a in t && !AtOrBelow(a, from) && !AtOrBelow(a, to)
    {
      DescendantIsShorter(from, a);
    }
  }

  lemma GraftBackAt(t: Tree, t1: Tree, from: string, to: string, p: string)
    requires forall s :: s in t && AtOrBelow(s, from) ==> Remap(s, from, to) in t1 && t1[Remap(s, from, to)] == t[s]
    requires forall q :: q in t1 && AtOrBelow(q, to) ==> Remap(q, to, from) in t && t1[q] == t[Remap(q, to, from)]
    ensures p in Grafted(t1, to, from) <==> p in t && AtOrBelow(p, from)
    ensures p in Grafted(t1, to, from) ==> Grafted(t1, to, from)[p] == t[p]
  {
    hide IsDescendant, Remap;
    if AtOrBelow(p, from) {
      var m := Remap(p, from, to);
      RemapOneToOne(p, p, from, to);
      assert AtOrBelow(m, to) && Remap(m, to, from) == p;
      assert m in t1 ==> p in Image(t1, to, from);
    }
  }

  lemma Reassemble(t: Tree, kept: Tree, dirs: set<string>, graft: Tree, from: string, to: string)
    requires forall p :: p in graft <==> p in t && AtOrBelow(p, from)
    requires forall p :: p in graft ==> graft[p] == t[p]
    requires forall p :: p in t && !AtOrBelow(p, from) ==> p in kept && kept[p] == t[p]
    requires forall p :: p in kept ==> p in t
    requires forall a :: a in dirs ==> a in t && !AtOrBelow(a, from)
    ensures WithDirs(kept, dirs) + graft == t
  {
  }

  lemma RemapRoot(from: string, to: string)
    ensures Remap(from, from, to) == to
  {
  }

  // ---- adding many files --------------------------------------------------

  lemma {:induction false} AddAllSnoc(t: Tree, files: seq<SmallFile>, f: SmallFile)
    ensures AddAll(t, files + [f]) ==
            match AddAll(t, files)
            case Err(e) => Err(e)
            case Ok(t1) => AddFile(t1, f.path, f.bytes)
    decreases |files|
  {
    if files == [] {
      assert [f][1..] == [];
    } else {
      assert (files + [f])[1..] == files[1..] + [f];
      match AddFile(t, files[0].path, files[0].bytes)
      case Err(_) =>
      case Ok(t1) => AddAllSnoc(t1, files[1..], f);
    }
  }

  lemma {:induction false} AddedUpToConcat(t: Tree, a: seq<SmallFile>, b: seq<SmallFile>)
    ensures AddedUpTo(t, a + b) == if AddAll(t, a).Ok? then AddedUpTo(AddAll(t, a).value, b) else AddedUpTo(t, a)
    ensures AddAll(t, a).Ok? ==> AddedUpTo(t, a) == AddAll(t, a).value
    decreases |a|
  {
    if a == [] {
      assert a + b == b;
    } else {
      assert (a + b)[1..] == a[1..] + b;
      match AddFile(t, a[0].path, a[0].bytes)
      case Err(_) =>
      case Ok(t1) => AddedUpToConcat(t1, a[1..], b);
    }
  }

  lemma {:induction false} AddAllConcat(t: Tree, a: seq<SmallFile>, b: seq<SmallFile>)
    ensures AddAll(t, a + b) ==
            match AddAll(t, a)
            case Err(e) => Err(e)
            case Ok(t1) => AddAll(t1, b)
    decreases |a|
  {
    if a == [] {
      assert a + b == b;
    } else {
      assert (a + b)[1..] == a[1..] + b;
      match AddFile(t, a[0].path, a[0].bytes)
      case Err(_) =>
      case Ok(t1) => AddAllConcat(t1, a[1..], b);
    }
  }

  /** When adding `files` must succeed: no directory where a file goes, no file above one. */
  ghost predicate Addable(t: Tree, files: seq<SmallFile>) {
    && (forall f :: f in files ==> !(f.path in t && t[f.path].Dir?) && !FileAbove(t, f.path))
    && (forall f, g :: f in files && g in files ==> !IsDescendant(f.path, g.path))
  }

  /** The files' own paths, and all their ancestors. */
  ghost function Touched(files: seq<SmallFile>): set<string> {
    set f, a | f in files && a in Ancestors(f.path) + {f.path} :: a
  }

  ghost function PathsOf(files: seq<SmallFile>): set<string> {
    set f | f in files :: f.path
  }

  /** The bytes of the last of `files` at `p`. */
  function LastAt(files: seq<SmallFile>, p: string): Option<Bytes> {
    if files == [] then None
    else
      var later := LastAt(files[1..], p);
      if later.Some? then later
      else if files[0].path == p then Some(files[0].bytes) else None
  }

  lemma {:induction false} LastAtConcat(a: seq<SmallFile>, b: seq<SmallFile>, p: string)
    ensures LastAt(a + b, p) == if LastAt(b, p).Some? then LastAt(b, p) else LastAt(a, p)
  {
    if a == [] {
      assert a + b == b;
    } else {
      LastAtConcat(a[1..], b, p);
      assert (a + b)[1..] == a[1..] + b;
    }
  }

  lemma LastAtOne(f: SmallFile, p: string)
    ensures LastAt([f], p) == if f.path == p then Some(f.bytes) else None
  {
    assert [f][1..] == [];
  }

  lemma {:induction false} LastAtPaths(files: seq<SmallFile>, p: string)
    ensures LastAt(files, p).Some? <==> p in PathsOf(files)
  {
    if files != [] {
      hide PathsOf;
      LastAtPaths(files[1..], p);
      assert files == [files[0]] + files[1..];
      TouchedStep(files[0], files[1..]);
    } else {
      assert PathsOf(files) == {};
    }
  }

  /** What adding files yields: at each path the last of the files there. */
  ghost predicate IsAdded(t: Tree, files: seq<SmallFile>, t1: Tree) {
    && t1.Keys == t.Keys + Touched(files)
    && forall p :: p in t1 ==>
         t1[p] == if LastAt(files, p).Some? then File(LastAt(files, p).value) else if p in t then t[p] else Dir
  }

  lemma TouchedStep(f: SmallFile, rest: seq<SmallFile>)
    ensures Touched([f] + rest) == Ancestors(f.path) + {f.path} + Touched(rest)
    ensures PathsOf([f] + rest) == {f.path} + PathsOf(rest)
    ensures PathsOf(rest) <= Touched(rest)
  {
    hide Ancestors;
    var files := [f] + rest;
    assert forall g :: g in files <==> g == f || g in rest;
    forall p | p in PathsOf(rest)
      ensures p in Touched(rest)
    {
      var g :| g in rest && g.path == p;
      assert p in Ancestors(g.path) + {g.path};
    }
  }

  /** Adding files succeeds exactly when they are addable, with that result. */
  lemma {:induction false} AddAllMeaning(t: Tree, files: seq<SmallFile>)
    ensures AddAll(t, files).Ok? <==> Addable(t, files)
    ensures AddAll(t, files).Ok? ==> IsAdded(t, files, AddAll(t, files).value)
    decreases |files|
  {
    hide IsDescendant, Ancestors;
    if files != [] {
      var f, rest := files[0], files[1..];
      assert files == [f] + rest;
      assert forall g :: g in files <==> g == f || g in rest;
      AncestorsAre(f.path);
      NotBelowItself(f.path);
      if AddFile(t, f.path, f.bytes).Ok? {
        var t1 := AddFile(t, f.path, f.bytes).value;
        AddAllMeaning(t1, rest);
        AddableStep(t, f, rest, t1);
        if AddAll(t1, rest).Ok? {
          AddedStep(t, f, rest, t1, AddAll(t1, rest).value);
        }
      }
    }
  }

  lemma NotBelowItself(p: string)
    ensures !IsDescendant(p, p)
  {
  }

  lemma AddableStep(t: Tree, f: SmallFile, rest: seq<SmallFile>, t1: Tree)
    requires AddFile(t, f.path, f.bytes) == Ok(t1)
    ensures Addable(t, [f] + rest) <==> Addable(t1, rest)
  {
    hide IsDescendant, Canonical, Ancestors;
    AncestorsAre(f.path);
    NotBelowItself(f.path);
    forall g | g in rest
      ensures (g.path in t1 && t1[g.path].Dir?) <==> (g.path in t && t[g.path].Dir?) || IsDescendant(f.path, g.path)
      ensures FileAbove(t1, g.path) <==> FileAbove(t, g.path) || IsDescendant(g.path, f.path)
    {
      AncestorsAre(g.path);
      if IsDescendant(f.path, g.path) { DescendantIsShorter(f.path, g.path); }
      if FileAbove(t, g.path) {
        var a :| a in Ancestors(g.path) && a in t && t[a].File?;
        assert a in t1 && t1[a].File?;
      }
    }
    assert forall g :: g in [f] + rest <==> g == f || g in rest;
  }

  lemma AddedStep(t: Tree, f: SmallFile, rest: seq<SmallFile>, t1: Tree, t2: Tree)
    requires AddFile(t, f.path, f.bytes) == Ok(t1) && IsAdded(t1, rest, t2)
    ensures IsAdded(t, [f] + rest, t2)
  {
    hide Ancestors, Touched, PathsOf, LastAt;
    TouchedStep(f, rest);
    var files := [f] + rest;
    forall p | p in t2
      ensures t2[p] == if LastAt(files, p).Some? then File(LastAt(files, p).value) else if p in t then t[p] else Dir
    {
      LastAtConcat([f], rest, p);
      LastAtOne(f, p);
    }
  }

  /** The last file at each path has the same bytes in both. */
  ghost predicate SameLast(a: seq<SmallFile>, b: seq<SmallFile>) {
    forall p :: LastAt(a, p) == LastAt(b, p)
  }

  /** Two batches at the same paths both succeed or both fail, and yield the same tree exactly when the
      last file at each path has the same bytes in both. */
  lemma AddOrderMatters(t: Tree, files: seq<SmallFile>, other: seq<SmallFile>)
    requires forall f :: f in files <==> f in other
    ensures AddAll(t, files).Ok? <==> AddAll(t, other).Ok?
    ensures AddAll(t, files).Ok? ==>
              (AddAll(t, files) == AddAll(t, other) <==> SameLast(files, other))
  {
    hide IsDescendant, AddAll, Touched, PathsOf, LastAt;
    AddAllMeaning(t, files);
    AddAllMeaning(t, other);
    TouchedSame(files, other);
    if AddAll(t, files).Ok? {
      var a, b := AddAll(t, files).value, AddAll(t, other).value;
      assert a.Keys == b.Keys;
      if a == b {
        forall p
          ensures LastAt(files, p) == LastAt(other, p)
        {
          LastAtPaths(files, p);
          LastAtPaths(other, p);
          if LastAt(files, p).Some? {
            assert p in Touched(files) by { PathsTouched(files); }
            assert a[p] == File(LastAt(files, p).value) && b[p] == File(LastAt(other, p).value);
          }
        }
      }
      if SameLast(files, other) {
        assert forall p :: p in a ==> a[p] == b[p];
        assert a == b;
      }
    }
  }

  lemma PathsTouched(files: seq<SmallFile>)
    ensures PathsOf(files) <= Touched(files)
  {
    hide Ancestors;
    forall p | p in PathsOf(files)
      ensures p in Touched(files)
    {
      var g :| g in files && g.path == p;
      assert p in Ancestors(g.path) + {g.path};
    }
  }

  lemma TouchedSame(files: seq<SmallFile>, other: seq<SmallFile>)
    requires forall f :: f in files <==> f in other
    ensures Touched(files) == Touched(other) && PathsOf(files) == PathsOf(other)
  {
  }

  // ---- sorting keeps the last file at each path ---------------------------

  lemma {:induction false} LastAtInsert(x: SmallFile, xs: seq<SmallFile>, p: string)
    requires Sorted(ByPath, xs)
    ensures LastAt(Insert(ByPath, x, xs), p) == if x.path == p then Some(x.bytes) else LastAt(xs, p)
  {
    if xs == [] {
      LastAtOne(x, p);
    } else {
      hide LastAt, StrLe;
      var rest := xs[1..];
      assert xs == [xs[0]] + rest;
      LastAtConcat([xs[0]], rest, p);
      LastAtOne(xs[0], p);
      LastAtOne(x, p);
      if StrLe(ByPath(xs[0]), ByPath(x)) {
        LastAtInsert(x, rest, p);
        LastAtConcat([xs[0]], Insert(ByPath, x, rest), p);
      } else {
        LastAtConcat([x], xs, p);
        if x.path == p {
          NoneLater(x, xs);
          LastAtPaths(xs, p);
        }
      }
    }
  }

  /** Nothing sorted from a larger path on is at the path of `x`. */
  lemma NoneLater(x: SmallFile, xs: seq<SmallFile>)
    requires Sorted(ByPath, xs) && xs != [] && !StrLe(ByPath(xs[0]), ByPath(x))
    ensures x.path !in PathsOf(xs)
  {
    hide StrLe;
    StrLeTotal(x.path, x.path);
    forall f | f in xs
      ensures f.path != x.path
    {
      var i :| 0 <= i < |xs| && xs[i] == f;
      assert i > 0 ==> StrLe(ByPath(xs[0]), ByPath(xs[i]));
    }
  }

  lemma {:induction false} LastAtSorted(files: seq<SmallFile>, p: string)
    ensures LastAt(SortBy(ByPath, files), p) == LastAt(files, p)
  {
    hide LastAt, SortBy;
    if files == [] {
      SortNone();
    } else {
      var front, x := files[..|files| - 1], files[|files| - 1];
      assert files == front + [x];
      LastAtSorted(front, p);
      OneMoreSorted(front, x, p);
    }
  }

  lemma SortNone()
    ensures SortBy(ByPath, []) == []
  {
  }

  lemma OneMoreSorted(front: seq<SmallFile>, x: SmallFile, p: string)
    requires LastAt(SortBy(ByPath, front), p) == LastAt(front, p)
    ensures LastAt(SortBy(ByPath, front + [x]), p) == LastAt(front + [x], p)
  {
    hide LastAt, Insert, Sorted, SortBy;
    SortBySorted(ByPath, front);
    SortBySnoc(front, x);
    LastAtInsert(x, SortBy(ByPath, front), p);
    LastAtConcat(front, [x], p);
    LastAtOne(x, p);
  }

  lemma SortBySnoc(front: seq<SmallFile>, x: SmallFile)
    ensures SortBy(ByPath, front + [x]) == Insert(ByPath, x, SortBy(ByPath, front))
  {
    hide Insert;
    assert (front + [x])[..|front|] == front;
  }
}
