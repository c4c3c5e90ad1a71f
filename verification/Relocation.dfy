/** Moving and copying subtrees. */
module Relocation {
  import opened Wrappers
  import opened Ordering
  import opened Paths
  import opened VaultTypes
  import opened Stores
  import opened Trees
  import opened Manifests
  import opened Directories
  import opened FileSteps

  /** A move or copy took effect as `spec` says, or failed as it says and changed nothing. */
  predicate Relocates(spec: Result<Tree, VaultError>, r: Result<(), VaultError>, after: Tree) {
    match spec
    case Ok(t) => r == Ok(()) && after == t
    case Err(e) => r == Err(e)
  }

  lemma MoveRefused(t: Tree, from: string, to: string)
    ensures Relocatable(t, from, to).Err? || from == to ==>
              && Relocates(Move(t, from, to), Relocatable(t, from, to), t)
              && Relocates(Copy(t, from, to), Relocatable(t, from, to), t)
    ensures Relocatable(t, from, to).Ok? && from != to ==>
              && Move(t, from, to) == Ok(WithDirs(Outside(t, from), Ancestors(to)) + Grafted(t, from, to))
              && Copy(t, from, to) == Ok(WithDirs(t, Ancestors(to)) + Grafted(t, from, to))
  {
  }

  lemma MoveNeeds(t: Tree, from: string, to: string)
    requires Relocatable(t, from, to).Ok? && from != to
    ensures !FileAbove(t, to) && from in t && to !in t
  {
  }

  function MoveArgs(t: Tree, fromArg: string, toArg: string): Result<Tree, VaultError> {
    match (Normalize(fromArg), Normalize(toArg))
    case (Ok(from), Ok(to)) => Move(t, from, to)
    case _ => Err(BadPath)
  }

  function CopyArgs(t: Tree, fromArg: string, toArg: string): Result<Tree, VaultError> {
    match (Normalize(fromArg), Normalize(toArg))
    case (Ok(from), Ok(to)) => Copy(t, from, to)
    case _ => Err(BadPath)
  }

  lemma BadPathRefused(t: Tree)
    ensures Relocates(Err(BadPath), Err(BadPath), t)
  {
  }

  lemma CleanArgs(from: string, to: string)
    requires Clean(from) && Clean(to)
    ensures GoodArg(from) && GoodArg(to) && Normalize(from) == Ok(from) && Normalize(to) == Ok(to)
  {
    hide Normalize, Clean, GoodArg;
    CleanIsGood(from);
    CleanIsGood(to);
  }

  // ---- on the entries, for any arguments ----------------------------------

  /** Whether `fromArg` may be moved or copied to `toArg`. The arguments are normalised here, whatever was
      done to them before. */
  function Prepared(entries: seq<Entry>, fromArg: string, toArg: string): Result<(), VaultError> {
    match (Normalize(fromArg), Normalize(toArg))
    case (Ok(from), Ok(to)) =>
      (match KindOf(entries, from)
       case None => Err(NotFound)
       case Some(kind) =>
         if from == to then Ok(())
         else if kind.DirectoryKind? && IsDescendant(to, from) then Err(InsideItself)
         else if KindOf(entries, to).Some? then Err(AlreadyExists)
         else if FileAboveIn(entries, to) then Err(FileInTheWay)
         else Ok(()))
    case _ => Err(BadPath)
  }

  lemma PreparedIs(entries: seq<Entry>, ledger: Ledger, collided: bool, from: string, to: string)
    requires EntriesOk(entries, ledger, collided) && TreeOk(TreeOf(entries, ledger))
    ensures Normalize(from).Ok? && Normalize(to).Ok? ==>
              Prepared(entries, from, to) == Relocatable(TreeOf(entries, ledger), Normalize(from).value, Normalize(to).value)
  {
    hide TreeOf, TreeOk, EntriesOk, Normalize, KindOf, FileAbove, FileAboveIn, IsDescendant;
    if Normalize(from).Ok? && Normalize(to).Ok? {
      KindOfEntries(entries, ledger, Normalize(from).value, collided);
      KindOfEntries(entries, ledger, Normalize(to).value, collided);
      UniqueIn(entries, ledger, collided);
      FileAboveAlike(entries, ledger, Normalize(to).value);
    }
  }

  /** A move on paths already normalised once. */
  function MovedNow(entries: seq<Entry>, from: string, to: string): (Result<(), VaultError>, seq<Entry>) {
    if Prepared(entries, from, to).Err? || from == to then (Prepared(entries, from, to), entries)
    else
      match ParentEntries(entries, to)
      case Err(e) => (Err(e), entries)
      case Ok(made) => (Ok(()), SortBy(EntryPath, RelocateAll(made, from, to)))
  }

  /** A move, on the entries: the outcome, and the entries it leaves. */
  function MovedTo(entries: seq<Entry>, fromArg: string, toArg: string): (Result<(), VaultError>, seq<Entry>) {
    match (Normalize(fromArg), Normalize(toArg))
    case (Ok(from), Ok(to)) => MovedNow(entries, from, to)
    case _ => (Err(BadPath), entries)
  }

  /** A copy on paths already normalised once. */
  function CopiedNow(entries: seq<Entry>, from: string, to: string): (Result<(), VaultError>, seq<Entry>) {
    if Prepared(entries, from, to).Err? || from == to then (Prepared(entries, from, to), entries)
    else
      match ParentEntries(entries, to)
      case Err(e) => (Err(e), entries)
      case Ok(made) =>
        var clones := Clones(made, from, to);
        if clones == [] then (Err(NotFound), made) else (Ok(()), SortBy(EntryPath, made + clones))
  }

  /** A copy, on the entries. */
  function CopiedTo(entries: seq<Entry>, fromArg: string, toArg: string): (Result<(), VaultError>, seq<Entry>) {
    match (Normalize(fromArg), Normalize(toArg))
    case (Ok(from), Ok(to)) => CopiedNow(entries, from, to)
    case _ => (Err(BadPath), entries)
  }

  /** Both arguments name paths, and not the same one. */
  predicate Apart(fromArg: string, toArg: string) {
    Normalize(fromArg).Ok? && Normalize(toArg).Ok? && Normalize(fromArg) != Normalize(toArg)
  }

  /** Renames the entries at or below `from`, one by one. */
  method RelocateEach(entries: seq<Entry>, from: string, to: string) returns (moved: seq<Entry>)
    ensures moved == RelocateAll(entries, from, to)
  {
    moved := entries;
    for i := 0 to |moved|
      invariant |moved| == |entries|
      invariant forall j :: 0 <= j < |moved| ==> moved[j] == if j < i then Relocated(entries[j], from, to) else entries[j]
    {
      if AtOrBelow(moved[i].path, from) {
        moved := moved[i := moved[i].(path := Remap(moved[i].path, from, to))];
      }
    }
  }

  lemma ParentsThenTree(t: Tree, from: string, to: string)
    requires TreeOk(t) && Relocatable(t, from, to).Ok? && from != to
    ensures var t1 := WithDirs(t, Ancestors(to));
            && Outside(t1, from) == WithDirs(Outside(t, from), Ancestors(to))
            && Grafted(t1, from, to) == Grafted(t, from, to)
            && (forall p :: p in t1 ==> !AtOrBelow(p, to))
  {
    hide Canonical, IsDescendant, Remap, Ancestors, Grafted;
    var t1 := WithDirs(t, Ancestors(to));
    MoveApart(t, from, to);
    MoveTargetFree(t, from, to);
    WithDirsAbsent(t, to);
    AncestorsAre(to);
    forall a | IsDescendant(to, a)
      ensures !AtOrBelow(a, from)
    {
      ApartEverywhere(a, from, to);
    }
    GraftedAgree(t, t1, from, to);
  }

  lemma GraftedAgree(t: Tree, t1: Tree, from: string, to: string)
    requires forall p :: AtOrBelow(p, from) ==> (p in t <==> p in t1) && (p in t ==> t[p] == t1[p])
    ensures Grafted(t1, from, to) == Grafted(t, from, to)
  {
    hide AtOrBelow, Remap, Grafted;
    forall p
      ensures p in Grafted(t1, from, to) <==> p in Grafted(t, from, to)
      ensures p in Grafted(t, from, to) ==> Grafted(t1, from, to)[p] == Grafted(t, from, to)[p]
    {
      GraftAt(t, from, to, p);
      GraftAt(t1, from, to, p);
    }
  }

  lemma MovedEntries(entries: seq<Entry>, ledger: Ledger, collided: bool, t: Tree, from: string, to: string)
    requires EntriesOk(entries, ledger, collided) && TreeOf(entries, ledger) == WithDirs(t, Ancestors(to))
    requires TreeOk(t) && Clean(to) && Relocatable(t, from, to).Ok? && from != to
    ensures var moved := RelocateAll(entries, from, to);
            && EntriesOk(moved, ledger, collided) && TreeOk(TreeOf(moved, ledger))
            && Relocates(Move(t, from, to), Ok(()), TreeOf(moved, ledger))
  {
    hide TreeOf, UniquePaths, EntryOk, Move, Relocatable, AtOrBelow, Remap, Grafted, Outside, WithDirs, Ancestors,
      TreeOk, Clean, RelocateAll;
    ParentsThenTree(t, from, to);
    TreeAt(entries, ledger);
    TreeRelocate(entries, from, to, ledger);
    MoveRefused(t, from, to);
    MoveKeepsTree(t, from, to);
    forall x | x in RelocateAll(entries, from, to)
      ensures EntryOk(x, ledger, collided)
    {
      var e := RelocateOrigin(entries, from, to, x);
      EntryOkElsewhere(e, x, ledger, collided);
    }
  }

  lemma EntryOkElsewhere(e: Entry, x: Entry, ledger: Ledger, collided: bool)
    requires EntryOk(e, ledger, collided) && x == e.(path := x.path)
    ensures EntryOk(x, ledger, collided)
  {
  }

  lemma CopiedEntries(entries: seq<Entry>, ledger: Ledger, collided: bool, t: Tree, from: string, to: string)
    requires EntriesOk(entries, ledger, collided) && TreeOf(entries, ledger) == WithDirs(t, Ancestors(to))
    requires TreeOk(t) && Clean(to) && Relocatable(t, from, to).Ok? && from != to
    ensures var clones := Clones(entries, from, to);
            && clones != []
            && EntriesOk(entries + clones, ledger, collided) && TreeOk(TreeOf(entries + clones, ledger))
            && Relocates(Copy(t, from, to), Ok(()), TreeOf(entries + clones, ledger))
  {
    hide TreeOf, UniquePaths, EntryOk, Copy, Move, Relocatable, AtOrBelow, Remap, Grafted, Outside, WithDirs,
      Ancestors, TreeOk, Clean, Clones;
    var clones := Clones(entries, from, to);
    ParentsThenTree(t, from, to);
    TreeAt(entries, ledger);
    TreeClones(entries, from, to, entries, ledger);
    MoveRefused(t, from, to);
    CopyKeepsTree(t, from, to);
    forall x | x in entries + clones
      ensures EntryOk(x, ledger, collided)
    {
      if x in clones {
        var e := CloneOrigin(entries, from, to, x);
        EntryOkElsewhere(e, x, ledger, collided);
      }
    }
    SourceIsCloned(entries, ledger, t, from, to);
  }

  lemma SourceIsCloned(entries: seq<Entry>, ledger: Ledger, t: Tree, from: string, to: string)
    requires UniquePaths(entries) && TreeOf(entries, ledger) == WithDirs(t, Ancestors(to))
    requires Relocatable(t, from, to).Ok? && from != to
    ensures Clones(entries, from, to) != []
  {
    hide TreeOf, UniquePaths, Ancestors, Find, Content, Clones;
    MoveNeeds(t, from, to);
    TreeAt(entries, ledger);
    assert from in TreeOf(entries, ledger);
    CloneExists(entries, from, to, Find(entries, from).value);
  }

  lemma {:induction false} CloneExists(entries: seq<Entry>, from: string, to: string, e: Entry)
    requires e in entries && AtOrBelow(e.path, from)
    ensures Clones(entries, from, to) != []
  {
    var front, last := entries[..|entries| - 1], entries[|entries| - 1];
    assert entries == front + [last];
    if e in front {
      CloneExists(front, from, to, e);
    }
  }

  // ---- what that means ----------------------------------------------------

  lemma ParentsAt(entries: seq<Entry>, ledger: Ledger, collided: bool, to: string)
    requires EntriesOk(entries, ledger, collided) && TreeOk(TreeOf(entries, ledger)) && ParentEntries(entries, to).Ok?
    requires Clean(to) ==> to !in TreeOf(entries, ledger)
    ensures NothingAt(entries, to)
    ensures var made := ParentEntries(entries, to).value;
            EntriesOk(made, ledger, collided) && (forall e :: e in entries ==> e in made) && NothingAt(made, to)
  {
    hide TreeOf, TreeOk, EntriesOk, ParentEntries, Clean, AtOrBelow;
    var t := TreeOf(entries, ledger);
    UniqueIn(entries, ledger, collided);
    TreeAt(entries, ledger);
    TreeOkMeaning(t);
    assert to !in t;
    NothingBelowAbsent(t, to);
    ParentsApart(entries, ledger, collided, to);
  }

  /** The parents of a path are shorter than it, so they are neither at it nor below it. */
  lemma ParentsApart(entries: seq<Entry>, ledger: Ledger, collided: bool, to: string)
    requires EntriesOk(entries, ledger, collided) && NothingAt(entries, to) && ParentEntries(entries, to).Ok?
    ensures var made := ParentEntries(entries, to).value;
            EntriesOk(made, ledger, collided) && (forall e :: e in entries ==> e in made) && NothingAt(made, to)
  {
    hide TreeOf, UniquePaths, EntryOk, ParentEntries, AtOrBelow;
    var made := ParentEntries(entries, to).value;
    UniqueIn(entries, ledger, collided);
    ParentsMade(entries, to);
    GrownSpares(entries, ledger, collided, |to|, made);
    forall e | e in made
      ensures !AtOrBelow(e.path, to)
    {
      if |e.path| < |to| { ShorterIsNotBelow(e.path, to); }
    }
  }

  ghost predicate NothingAt(entries: seq<Entry>, to: string) {
    forall e :: e in entries ==> !AtOrBelow(e.path, to)
  }

  lemma ShorterIsNotBelow(p: string, to: string)
    requires |p| < |to|
    ensures !AtOrBelow(p, to)
  {
  }

  /** An unclean path has nothing at or below it in a well-formed tree. */
  lemma UncleanIsAbsent(entries: seq<Entry>, ledger: Ledger, collided: bool, from: string)
    requires EntriesOk(entries, ledger, collided) && TreeOk(TreeOf(entries, ledger)) && !Clean(from)
    ensures NothingAt(entries, from)
  {
    hide TreeOf, TreeOk, UniquePaths, EntryOk, Clean, AtOrBelow;
    var t := TreeOf(entries, ledger);
    TreeAt(entries, ledger);
    TreeOkMeaning(t);
    NothingBelowAbsent(t, from);
  }

  lemma RelocateNone(entries: seq<Entry>, from: string, to: string)
    requires NothingAt(entries, from)
    ensures RelocateAll(entries, from, to) == entries && Clones(entries, from, to) == []
  {
    hide AtOrBelow;
    ClonesNone(entries, from, to);
  }

  lemma {:induction false} ClonesNone(entries: seq<Entry>, from: string, to: string)
    requires NothingAt(entries, from)
    ensures Clones(entries, from, to) == []
  {
    hide AtOrBelow;
    if entries != [] {
      ClonesNone(entries[..|entries| - 1], from, to);
    }
  }

  lemma RelocatedOk(made: seq<Entry>, ledger: Ledger, collided: bool, from: string, to: string)
    requires EntriesOk(made, ledger, collided) && NothingAt(made, to)
    ensures EntriesOk(RelocateAll(made, from, to), ledger, collided)
  {
    hide UniquePaths, EntryOk, RelocateAll, AtOrBelow, Relocated;
    RelocateUnique(made, from, to);
    forall x | x in RelocateAll(made, from, to)
      ensures EntryOk(x, ledger, collided)
    {
      var e := RelocateOrigin(made, from, to, x);
      RelocatedElsewhere(e, from, to);
      EntryOkElsewhere(e, x, ledger, collided);
    }
  }

  lemma RelocatedElsewhere(e: Entry, from: string, to: string)
    ensures Relocated(e, from, to) == e.(path := Relocated(e, from, to).path)
    ensures e.path == from ==> Relocated(e, from, to).path == to
  {
  }

  lemma ClonesOk(made: seq<Entry>, ledger: Ledger, collided: bool, from: string, to: string)
    requires EntriesOk(made, ledger, collided) && NothingAt(made, to)
    ensures EntriesOk(made + Clones(made, from, to), ledger, collided)
    ensures forall x :: x in Clones(made, from, to) ==> AtOrBelow(x.path, to)
  {
    hide UniquePaths, EntryOk, Clones, AtOrBelow, TreeOf;
    TreeClones(made, from, to, made, ledger);
    forall x | x in made + Clones(made, from, to)
      ensures EntryOk(x, ledger, collided)
    {
      if x in Clones(made, from, to) {
        var e := CloneOrigin(made, from, to, x);
        EntryOkElsewhere(e, x, ledger, collided);
      }
    }
  }

  /** A tree with something at or below `to` is well formed only if `to` is clean. */
  lemma LandsClean(entries: seq<Entry>, ledger: Ledger, collided: bool, to: string, x: Entry)
    requires EntriesOk(entries, ledger, collided) && TreeOk(TreeOf(entries, ledger))
    requires x in entries && AtOrBelow(x.path, to)
    ensures Clean(to)
  {
    hide Clean;
    if !Clean(to) { UncleanIsAbsent(entries, ledger, collided, to); }
  }

  /** The subtree at `from` is at `to`, node for node, and the rest of `t` is where it was; whatever else there is
      is a directory. */
  ghost predicate Carried(t: Tree, from: string, to: string, t1: Tree) {
    && (forall s :: s in t && AtOrBelow(s, from) ==> Remap(s, from, to) in t1 && t1[Remap(s, from, to)] == t[s])
    && (forall p :: p in t && !AtOrBelow(p, from) ==> p in t1 && t1[p] == t[p])
    && Grew(t, from, to, t1)
  }

  /** The subtree is at `to` too, and all of `t` is where it was. */
  ghost predicate Duplicated(t: Tree, from: string, to: string, t1: Tree) {
    && (forall s :: s in t && AtOrBelow(s, from) ==> Remap(s, from, to) in t1 && t1[Remap(s, from, to)] == t[s])
    && (forall p :: p in t ==> p in t1 && t1[p] == t[p])
    && Grew(t, from, to, t1)
  }

  /** What is new in `t1` is a directory, or comes from `from`. */
  ghost predicate Grew(t: Tree, from: string, to: string, t1: Tree) {
    forall p :: p in t1 && p !in t ==>
      t1[p].Dir? || (AtOrBelow(p, to) && Remap(p, to, from) in t && t1[p] == t[Remap(p, to, from)])
  }

  lemma CarriedBy(t: Tree, tm: Tree, from: string, to: string)
    requires Spared(t, {}, tm) && forall p :: p in tm ==> !AtOrBelow(p, to)
    ensures Carried(t, from, to, Outside(tm, from) + Grafted(tm, from, to))
    ensures Duplicated(t, from, to, tm + Grafted(tm, from, to))
  {
    hide AtOrBelow, Remap, Grafted, Grew;
    ImagesThere(t, tm, from, to);
    GraftInside(tm, from, to);
    GrewBy(t, tm, from, to);
  }

  lemma ImagesThere(t: Tree, tm: Tree, from: string, to: string)
    requires Spared(t, {}, tm)
    ensures var g := Grafted(tm, from, to);
            forall s :: s in t && AtOrBelow(s, from) ==> Remap(s, from, to) in g && g[Remap(s, from, to)] == t[s]
  {
    hide AtOrBelow, Remap, Grafted;
    forall s | s in t && AtOrBelow(s, from)
      ensures Remap(s, from, to) in Grafted(tm, from, to) && Grafted(tm, from, to)[Remap(s, from, to)] == t[s]
    {
      RemapOneToOne(s, s, from, to);
      GraftAt(tm, from, to, Remap(s, from, to));
    }
  }

  lemma GraftInside(tm: Tree, from: string, to: string)
    ensures var g := Grafted(tm, from, to);
            forall p :: p in g ==> AtOrBelow(p, to) && Remap(p, to, from) in tm && g[p] == tm[Remap(p, to, from)]
  {
    hide AtOrBelow, Remap, Grafted;
    forall p | p in Grafted(tm, from, to)
      ensures AtOrBelow(p, to) && Remap(p, to, from) in tm && Grafted(tm, from, to)[p] == tm[Remap(p, to, from)]
    {
      GraftAt(tm, from, to, p);
    }
  }

  lemma GrewBy(t: Tree, tm: Tree, from: string, to: string)
    requires Spared(t, {}, tm)
    ensures Grew(t, from, to, Outside(tm, from) + Grafted(tm, from, to))
    ensures Grew(t, from, to, tm + Grafted(tm, from, to))
  {
    hide AtOrBelow, Remap, Grafted;
    GraftInside(tm, from, to);
  }

  /** With nothing at or below the source, only directories are new. */
  lemma NothingCarried(t: Tree, from: string, to: string, t1: Tree)
    requires Carried(t, from, to, t1) || Duplicated(t, from, to, t1)
    requires forall p :: p in t ==> !AtOrBelow(p, from)
    ensures Spared(t, {}, t1)
  {
    hide AtOrBelow, Remap;
    forall p | p in t1 && p !in t
      ensures t1[p].Dir?
    {
      if AtOrBelow(p, to) { RemapOneToOne(p, p, to, from); }
    }
  }

  /** What a move does in a well-formed vault, for any arguments. Good ones move the subtree as the tree's
      move does. A good source is carried to any destination; the tree stays well formed exactly when the
      destination is good, and the manifest can be opened again exactly when it reopens. A source that is
      not good moves nothing that was there, whatever the destination, although the move succeeds. */
  ghost predicate MoveOutcome(entries: seq<Entry>, ledger: Ledger, collided: bool, fromArg: string, toArg: string,
                              r: Result<(), VaultError>, after: seq<Entry>) {
    var t, t1 := TreeOf(entries, ledger), TreeOf(after, ledger);
    && EntriesOk(after, ledger, collided)
    && (r.Err? ==> after == entries)
    && (GoodArg(fromArg) && GoodArg(toArg) ==> TreeOk(t1) && Relocates(MoveArgs(t, fromArg, toArg), r, t1))
    && (r.Ok? && Apart(fromArg, toArg) && GoodArg(fromArg) ==>
          && Carried(t, Normalize(fromArg).value, Normalize(toArg).value, t1)
          && (TreeOk(t1) <==> GoodArg(toArg)) && (PathsValid(after) <==> ReopenableArg(toArg)))
    && (r.Ok? && Apart(fromArg, toArg) && !GoodArg(fromArg) ==> Spared(t, {}, t1))
    && (r.Ok? && Apart(fromArg, toArg) && !GoodArg(fromArg) && GoodArg(toArg) ==>
          TreeOk(t1) && t1 == WithDirs(t, Ancestors(Normalize(toArg).value)))
  }

  lemma MoveOk(entries: seq<Entry>, ledger: Ledger, collided: bool, fromArg: string, toArg: string,
               r: Result<(), VaultError>, after: seq<Entry>)
    requires MoveOutcome(entries, ledger, collided, fromArg, toArg, r, after)
    ensures EntriesOk(after, ledger, collided)
  {
  }

  lemma CopyOk(entries: seq<Entry>, ledger: Ledger, collided: bool, fromArg: string, toArg: string,
               r: Result<(), VaultError>, after: seq<Entry>)
    requires CopyOutcome(entries, ledger, collided, fromArg, toArg, r, after)
    ensures EntriesOk(after, ledger, collided)
  {
  }

  lemma MoveMeansMove(entries: seq<Entry>, ledger: Ledger, collided: bool, fromArg: string, toArg: string)
    requires EntriesOk(entries, ledger, collided) && TreeOk(TreeOf(entries, ledger))
    ensures var (r, after) := MovedTo(entries, fromArg, toArg);
            MoveOutcome(entries, ledger, collided, fromArg, toArg, r, after)
  {
    hide TreeOf, TreeOk, EntriesOk, Normalize, Clean, Move, Relocatable, Prepared, ParentEntries, Ancestors,
      SortBy, RelocateAll, GoodArg, WithDirs, Relocates, Carried, Duplicated, Spared, ReopenableArg, PathsValid,
      HasBlankPart, Canonical;
    var t := TreeOf(entries, ledger);
    if Normalize(fromArg).Ok? && Normalize(toArg).Ok? {
      var from, to := Normalize(fromArg).value, Normalize(toArg).value;
      GoodArgIsClean(fromArg);
      GoodArgIsClean(toArg);
      MovedHere(entries, ledger, collided, from, to);
      assert MoveArgs(t, fromArg, toArg) == Move(t, from, to);
    } else {
      BadPathRefused(t);
      MoveArgsBad(t, fromArg, toArg);
    }
  }

  lemma MovedHere(entries: seq<Entry>, ledger: Ledger, collided: bool, from: string, to: string)
    requires EntriesOk(entries, ledger, collided) && TreeOk(TreeOf(entries, ledger))
    ensures var (r, after) := MovedNow(entries, from, to);
            var t, t1 := TreeOf(entries, ledger), TreeOf(after, ledger);
            && EntriesOk(after, ledger, collided)
            && (r.Err? ==> after == entries)
            && (Clean(from) && Clean(to) ==> TreeOk(t1) && Relocates(Move(t, from, to), r, t1))
            && (r.Ok? && from != to && Clean(from) ==> (TreeOk(t1) <==> Clean(to)) && (PathsValid(after) <==> Fine(to)))
            && (r.Ok? && from != to ==> if Clean(from) then Carried(t, from, to, t1) else Spared(t, {}, t1))
            && (r.Ok? && from != to && !Clean(from) && Clean(to) ==> TreeOk(t1) && t1 == WithDirs(t, Ancestors(to)))
  {
    hide TreeOf, TreeOk, EntriesOk, Normalize, Clean, Move, Relocatable, Prepared, ParentEntries, Ancestors,
      SortBy, RelocateAll, WithDirs, Relocates, FileAbove, Carried, Duplicated, Spared;
    var t := TreeOf(entries, ledger);
    if Clean(from) && Clean(to) {
      CleanArgs(from, to);
      PreparedIs(entries, ledger, collided, from, to);
      MoveRefused(t, from, to);
      ParentsAreDirs(entries, ledger, collided, to);
      if Prepared(entries, from, to).Ok? && from != to { MoveNeeds(t, from, to); }
    }
    if Prepared(entries, from, to).Ok? && from != to && ParentEntries(entries, to).Ok? {
      var made := ParentEntries(entries, to).value;
      if Clean(from) || !Clean(to) {
        LandsThere(entries, ledger, collided, from, to);
      } else {
        ParentsSpare(entries, ledger, collided, to);
      }
      if Clean(to) {
        ParentsAreDirs(entries, ledger, collided, to);
        if Clean(from) {
          MovedEntries(made, ledger, collided, t, from, to);
        } else {
          UncleanIsAbsent(made, ledger, collided, from);
          RelocateNone(made, from, to);
        }
      } else {
        ParentsAt(entries, ledger, collided, to);
        RelocatedOk(made, ledger, collided, from, to);
        if Clean(from) { MovedUncleanly(entries, ledger, collided, from, to); }
      }
      EntriesSort(RelocateAll(made, from, to), ledger, collided);
      if Clean(from) {
        MovedReopens(entries, ledger, collided, from, to);
        SortedReopens(RelocateAll(made, from, to), ledger, collided);
      }
    }
  }

  lemma ParentsSpare(entries: seq<Entry>, ledger: Ledger, collided: bool, to: string)
    requires EntriesOk(entries, ledger, collided) && ParentEntries(entries, to).Ok?
    ensures Spared(TreeOf(entries, ledger), {}, TreeOf(ParentEntries(entries, to).value, ledger))
  {
    hide TreeOf, EntriesOk, ParentEntries;
    UniqueIn(entries, ledger, collided);
    ParentsMade(entries, to);
    GrownSpares(entries, ledger, collided, |to|, ParentEntries(entries, to).value);
  }

  /** Where a move and a copy put the subtree, unless a source that is not clean meets a destination that is. */
  lemma LandsThere(entries: seq<Entry>, ledger: Ledger, collided: bool, from: string, to: string)
    requires EntriesOk(entries, ledger, collided) && TreeOk(TreeOf(entries, ledger)) && ParentEntries(entries, to).Ok?
    requires Clean(to) ==> to !in TreeOf(entries, ledger)
    ensures var t, made := TreeOf(entries, ledger), ParentEntries(entries, to).value;
            var moved, copied := TreeOf(RelocateAll(made, from, to), ledger), TreeOf(made + Clones(made, from, to), ledger);
            && Carried(t, from, to, moved) && Duplicated(t, from, to, copied)
            && (!Clean(from) ==> Spared(t, {}, moved) && Spared(t, {}, copied))
  {
    hide TreeOf, TreeOk, EntriesOk, Clean, ParentEntries, RelocateAll, Clones, AtOrBelow, Carried, Duplicated, Spared;
    var t, made := TreeOf(entries, ledger), ParentEntries(entries, to).value;
    ParentsAt(entries, ledger, collided, to);
    LandsApart(entries, ledger, collided, from, to);
    if !Clean(from) {
      UniqueIn(entries, ledger, collided);
      UncleanIsAbsent(entries, ledger, collided, from);
      NothingInTree(entries, ledger, from);
      NothingCarried(t, from, to, TreeOf(RelocateAll(made, from, to), ledger));
      NothingCarried(t, from, to, TreeOf(made + Clones(made, from, to), ledger));
    }
  }

  /** The same for any entries, when none is at or below the destination. */
  lemma LandsApart(entries: seq<Entry>, ledger: Ledger, collided: bool, from: string, to: string)
    requires EntriesOk(entries, ledger, collided) && NothingAt(entries, to) && ParentEntries(entries, to).Ok?
    ensures var t, made := TreeOf(entries, ledger), ParentEntries(entries, to).value;
            && EntriesOk(RelocateAll(made, from, to), ledger, collided)
            && EntriesOk(made + Clones(made, from, to), ledger, collided)
            && Carried(t, from, to, TreeOf(RelocateAll(made, from, to), ledger))
            && Duplicated(t, from, to, TreeOf(made + Clones(made, from, to), ledger))
  {
    hide TreeOf, EntriesOk, ParentEntries, RelocateAll, Clones, AtOrBelow, Carried, Duplicated, Outside, Grafted, Spared;
    var t, made := TreeOf(entries, ledger), ParentEntries(entries, to).value;
    ParentsSpare(entries, ledger, collided, to);
    ParentsApart(entries, ledger, collided, to);
    UniqueIn(made, ledger, collided);
    RelocatedOk(made, ledger, collided, from, to);
    ClonesOk(made, ledger, collided, from, to);
    TreeRelocate(made, from, to, ledger);
    TreeClones(made, from, to, made, ledger);
    NothingInTree(made, ledger, to);
    CarriedBy(t, TreeOf(made, ledger), from, to);
  }

  // ---- vaults that are not well formed ------------------------------------

  /** With good arguments, in any consistent vault: a move carries the subtree and an error changes nothing. */
  ghost predicate GoodMove(entries: seq<Entry>, ledger: Ledger, collided: bool, fromArg: string, toArg: string,
                           r: Result<(), VaultError>, after: seq<Entry>) {
    && EntriesOk(after, ledger, collided) && (r.Err? || !Apart(fromArg, toArg) ==> after == entries)
    && (r.Ok? && Apart(fromArg, toArg) ==>
          Carried(TreeOf(entries, ledger), Normalize(fromArg).value, Normalize(toArg).value, TreeOf(after, ledger)))
  }

  /** And a copy duplicates it. */
  ghost predicate GoodCopy(entries: seq<Entry>, ledger: Ledger, collided: bool, fromArg: string, toArg: string,
                           r: Result<(), VaultError>, after: seq<Entry>) {
    && EntriesOk(after, ledger, collided) && (r.Err? || !Apart(fromArg, toArg) ==> after == entries)
    && (r.Ok? && Apart(fromArg, toArg) ==>
          Duplicated(TreeOf(entries, ledger), Normalize(fromArg).value, Normalize(toArg).value, TreeOf(after, ledger)))
  }

  lemma GoodMoveKeeps(entries: seq<Entry>, ledger: Ledger, collided: bool, fromArg: string, toArg: string,
                      r: Result<(), VaultError>, after: seq<Entry>)
    requires GoodMove(entries, ledger, collided, fromArg, toArg, r, after)
             || GoodCopy(entries, ledger, collided, fromArg, toArg, r, after)
    ensures EntriesOk(after, ledger, collided)
  {
  }

  lemma GoodArgsAnywhere(entries: seq<Entry>, ledger: Ledger, collided: bool, fromArg: string, toArg: string)
    requires EntriesOk(entries, ledger, collided) && GoodArg(fromArg) && GoodArg(toArg)
    ensures var (r, after) := MovedTo(entries, fromArg, toArg); GoodMove(entries, ledger, collided, fromArg, toArg, r, after)
    ensures var (r, after) := CopiedTo(entries, fromArg, toArg); GoodCopy(entries, ledger, collided, fromArg, toArg, r, after)
  {
    hide TreeOf, EntriesOk, Normalize, GoodArg, Clean, MovedNow, CopiedNow, Carried, Duplicated;
    if Normalize(fromArg).Ok? && Normalize(toArg).Ok? {
      GoodArgIsClean(fromArg);
      GoodArgIsClean(toArg);
      CleanAnywhere(entries, ledger, collided, Normalize(fromArg).value, Normalize(toArg).value);
    }
  }

  lemma CleanAnywhere(entries: seq<Entry>, ledger: Ledger, collided: bool, from: string, to: string)
    requires EntriesOk(entries, ledger, collided) && Clean(from) && Clean(to)
    ensures var (r, after) := MovedNow(entries, from, to);
            && EntriesOk(after, ledger, collided) && (r.Err? || from == to ==> after == entries)
            && (r.Ok? && from != to ==> Carried(TreeOf(entries, ledger), from, to, TreeOf(after, ledger)))
    ensures var (r, after) := CopiedNow(entries, from, to);
            && EntriesOk(after, ledger, collided) && (r.Err? || from == to ==> after == entries)
            && (r.Ok? && from != to ==> Duplicated(TreeOf(entries, ledger), from, to, TreeOf(after, ledger)))
  {
    hide TreeOf, EntriesOk, Clean, Prepared, ParentEntries, RelocateAll, Clones, SortBy, Sorted, Carried, Duplicated, AtOrBelow;
    if Prepared(entries, from, to).Ok? && from != to && ParentEntries(entries, to).Ok? {
      var made := ParentEntries(entries, to).value;
      var e := PreparedHas(entries, ledger, collided, from, to);
      LandsApart(entries, ledger, collided, from, to);
      ParentsApart(entries, ledger, collided, to);
      CloneExists(made, from, to, e);
      EntriesSort(RelocateAll(made, from, to), ledger, collided);
      EntriesSort(made + Clones(made, from, to), ledger, collided);
    }
  }

  lemma PreparedHas(entries: seq<Entry>, ledger: Ledger, collided: bool, from: string, to: string) returns (e: Entry)
    requires EntriesOk(entries, ledger, collided) && Clean(from) && Clean(to) && Prepared(entries, from, to).Ok? && from != to
    ensures e in entries && AtOrBelow(e.path, from) && NothingAt(entries, to)
  {
    hide TreeOf, EntriesOk, Normalize, Clean, Find, FileAboveIn, IsDescendant;
    CleanIsGood(from);
    CleanIsGood(to);
    KindIsThere(entries, from);
    KindIsThere(entries, to);
    e :| e in entries && AtOrBelow(e.path, from);
  }

  lemma KindIsThere(entries: seq<Entry>, q: string)
    ensures KindOf(entries, q).Some? <==> exists e :: e in entries && AtOrBelow(e.path, q)
    ensures KindOf(entries, q).None? <==> NothingAt(entries, q)
  {
    hide IsDescendant;
    FindFinds(entries, q);
  }

  /** Other arguments need not: from `"a"` and `"a "`, a move of `"a /"` to `"a"` leaves two entries at `"a"`. */
  lemma MoveOntoAnother()
    ensures var es := [DirEntry("a"), DirEntry("a ")];
            UniquePaths(es) && MovedTo(es, "a /", "a").0.Ok? && !UniquePaths(MovedTo(es, "a /", "a").1)
  {
    hide Normalize, SortBy;
    NormalizeBlankSlash();
    PlainNormalizes("a");
    var es := [DirEntry("a"), DirEntry("a ")];
    assert Find(es, "a") == Some(es[0]);
    assert Parent("a") == None;
    var moved := RelocateAll(es, "a ", "a");
    MovedOnto(es[0], es[1]);
    TwoAlike(moved, "a");
  }

  lemma MovedOnto(x: Entry, y: Entry)
    requires x.path == "a" && y.path == "a "
    ensures var moved := RelocateAll([x, y], "a ", "a");
            |moved| == 2 && forall e :: e in moved ==> e.path == "a"
  {
    assert !AtOrBelow("a", "a ") && AtOrBelow("a ", "a ");
  }

  lemma TwoAlike(entries: seq<Entry>, path: string)
    requires |entries| == 2 && forall e :: e in entries ==> e.path == path
    ensures !UniquePaths(SortBy(EntryPath, entries))
  {
    hide SortBy;
    SortKeepsMembers(entries);
    var after := SortBy(EntryPath, entries);
    assert after[0] in after && after[1] in after;
  }

  lemma NothingInTree(entries: seq<Entry>, ledger: Ledger, to: string)
    requires UniquePaths(entries) && NothingAt(entries, to)
    ensures forall p :: p in TreeOf(entries, ledger) ==> !AtOrBelow(p, to)
  {
    hide TreeOf, UniquePaths, AtOrBelow, Find, Content;
    TreeAt(entries, ledger);
  }

  lemma SortedReopens(entries: seq<Entry>, ledger: Ledger, collided: bool)
    requires EntriesOk(entries, ledger, collided)
    ensures PathsValid(SortBy(EntryPath, entries)) <==> AllCanonical(entries)
  {
    hide SortBy, Canonical, UniquePaths;
    SortUnique(entries);
    SortKeepsMembers(entries);
  }

  /** What a move leaves is all canonical exactly when the destination is, without a blank part. */
  lemma MovedReopens(entries: seq<Entry>, ledger: Ledger, collided: bool, from: string, to: string)
    requires EntriesOk(entries, ledger, collided) && TreeOk(TreeOf(entries, ledger))
    requires Prepared(entries, from, to).Ok? && from != to && ParentEntries(entries, to).Ok? && Clean(from)
    ensures AllCanonical(RelocateAll(ParentEntries(entries, to).value, from, to)) <==> Fine(to)
  {
    hide TreeOf, TreeOk, EntriesOk, Normalize, Clean, Prepared, ParentEntries, RelocateAll, Find, Relocated,
      Canonical, HasBlankPart, AtOrBelow;
    var made := ParentEntries(entries, to).value;
    var moved := RelocateAll(made, from, to);
    UniqueIn(entries, ledger, collided);
    CanonicalTree(entries, ledger);
    CleanIsThere(entries, ledger, collided, from, to);
    FindInTree(entries, ledger, from, collided);
    var e := Find(entries, from).value;
    ParentsMade(entries, to);
    RelocateImage(made, from, to, e);
    RelocatedElsewhere(e, from, to);
    if Canonical(to) {
      ParentsCanonical(entries, to);
      if !HasBlankPart(to) {
        RelocatedCanonical(made, from, to);
      } else {
        var d :| d in made && !Canonical(d.path);
        NothingMadeBelow(entries, ledger, collided, from, to, d);
        RelocateImage(made, from, to, d);
        StaysPut(d, from, to);
      }
    } else {
      assert Relocated(e, from, to) in moved && Relocated(e, from, to).path == to;
    }
  }

  lemma StaysPut(d: Entry, from: string, to: string)
    requires !AtOrBelow(d.path, from)
    ensures Relocated(d, from, to) == d
  {
  }

  lemma RelocatedCanonical(made: seq<Entry>, from: string, to: string)
    requires AllCanonical(made) && Canonical(to)
    ensures AllCanonical(RelocateAll(made, from, to))
  {
    hide Canonical, RelocateAll, AtOrBelow, Remap;
    forall x | x in RelocateAll(made, from, to)
      ensures Canonical(x.path)
    {
      var e := RelocateOrigin(made, from, to, x);
      if AtOrBelow(e.path, from) { RemapCanonical(e.path, from, to); }
    }
  }

  /** No directory made on the way up to a canonical destination, and not canonical itself, is at or below
      the source: the destination would be too. */
  lemma NothingMadeBelow(entries: seq<Entry>, ledger: Ledger, collided: bool, from: string, to: string, d: Entry)
    requires EntriesOk(entries, ledger, collided) && TreeOk(TreeOf(entries, ledger))
    requires Prepared(entries, from, to).Ok? && from != to && ParentEntries(entries, to).Ok? && Clean(from) && Canonical(to)
    requires d in ParentEntries(entries, to).value && !Canonical(d.path)
    ensures !AtOrBelow(d.path, from)
  {
    hide TreeOf, TreeOk, EntriesOk, Normalize, Prepared, ParentEntries, HasBlankPart, IsWhitespace, Clean,
      Canonical, FileAbove, IsDescendant, IsPrefix, Relocatable, GoodArg;
    CleanIsCanonical(from);
    UniqueIn(entries, ledger, collided);
    CanonicalTree(entries, ledger);
    FirstChar(to);
    ParentsAlong(entries, to);
    CanonicalNormalizes(to);
    CleanIsGood(from);
    PreparedIs(entries, ledger, collided, from, to);
    SourceNotAbove(TreeOf(entries, ledger), from, to);
    assert IsPrefix(d.path, to);
    if IsDescendant(d.path, from) {
      LongerBelow(d.path, from, to);
    }
  }

  lemma LongerBelow(d: string, from: string, to: string)
    requires IsPrefix(d, to) && IsDescendant(d, from)
    ensures IsDescendant(to, from)
  {
  }

  /** What may be moved does not stand above where it goes. */
  lemma SourceNotAbove(t: Tree, from: string, to: string)
    requires Relocatable(t, from, to).Ok? && from != to
    ensures !IsDescendant(to, from)
  {
    AncestorsAre(to);
  }

  /** The source is there, lands at `to`, and the tree cannot be well formed. */
  lemma MovedUncleanly(entries: seq<Entry>, ledger: Ledger, collided: bool, from: string, to: string)
    requires EntriesOk(entries, ledger, collided) && TreeOk(TreeOf(entries, ledger))
    requires Prepared(entries, from, to).Ok? && ParentEntries(entries, to).Ok? && Clean(from) && !Clean(to)
    ensures var moved := RelocateAll(ParentEntries(entries, to).value, from, to);
            EntriesOk(moved, ledger, collided) && !TreeOk(TreeOf(moved, ledger))
  {
    hide TreeOf, TreeOk, EntriesOk, Normalize, Clean, Prepared, ParentEntries, RelocateAll, Find, Relocated;
    var made := ParentEntries(entries, to).value;
    ParentsAt(entries, ledger, collided, to);
    RelocatedOk(made, ledger, collided, from, to);
    CleanIsThere(entries, ledger, collided, from, to);
    UniqueIn(entries, ledger, collided);
    FindInTree(entries, ledger, from, collided);
    var e := Find(entries, from).value;
    RelocateImage(made, from, to, e);
    RelocatedElsewhere(e, from, to);
    if TreeOk(TreeOf(RelocateAll(made, from, to), ledger)) {
      LandsClean(RelocateAll(made, from, to), ledger, collided, to, Relocated(e, from, to));
    }
  }

  lemma MoveArgsBad(t: Tree, fromArg: string, toArg: string)
    requires Normalize(fromArg).Err? || Normalize(toArg).Err?
    ensures MoveArgs(t, fromArg, toArg) == Err(BadPath) == CopyArgs(t, fromArg, toArg)
  {
  }

  lemma CleanIsThere(entries: seq<Entry>, ledger: Ledger, collided: bool, from: string, to: string)
    requires EntriesOk(entries, ledger, collided) && TreeOk(TreeOf(entries, ledger))
    requires Prepared(entries, from, to).Ok? && Clean(from)
    ensures from in TreeOf(entries, ledger)
  {
    hide TreeOf, TreeOk, EntriesOk, Normalize, Clean, FileAbove, IsDescendant, KindOf;
    PreparedIs(entries, ledger, collided, from, to);
    CleanIsGood(from);
    assert Normalize(to).Ok?;
  }

  /** A copy likewise; a source that is not good is not found, once the parents are made. */
  ghost predicate CopyOutcome(entries: seq<Entry>, ledger: Ledger, collided: bool, fromArg: string, toArg: string,
                              r: Result<(), VaultError>, after: seq<Entry>) {
    var t, t1 := TreeOf(entries, ledger), TreeOf(after, ledger);
    && EntriesOk(after, ledger, collided)
    && (r.Err? && GoodArg(fromArg) ==> after == entries)
    && (GoodArg(fromArg) && GoodArg(toArg) ==> TreeOk(t1) && Relocates(CopyArgs(t, fromArg, toArg), r, t1))
    && (r.Ok? && Apart(fromArg, toArg) ==> (TreeOk(t1) <==> GoodArg(toArg)))
    && (r.Ok? && Apart(fromArg, toArg) && GoodArg(fromArg) ==>
          && Duplicated(t, Normalize(fromArg).value, Normalize(toArg).value, t1)
          && (PathsValid(after) <==> ReopenableArg(toArg)))
    && (r.Ok? && Apart(fromArg, toArg) && !GoodArg(fromArg) ==> Spared(t, {}, t1))
    && (r.Ok? && Apart(fromArg, toArg) && GoodArg(toArg) ==> GoodArg(fromArg))
  }

  lemma CopyMeansCopy(entries: seq<Entry>, ledger: Ledger, collided: bool, fromArg: string, toArg: string)
    requires EntriesOk(entries, ledger, collided) && TreeOk(TreeOf(entries, ledger))
    ensures var (r, after) := CopiedTo(entries, fromArg, toArg);
            CopyOutcome(entries, ledger, collided, fromArg, toArg, r, after)
  {
    hide TreeOf, TreeOk, EntriesOk, Normalize, Clean, Copy, Relocatable, Prepared, ParentEntries, Ancestors,
      SortBy, Clones, GoodArg, WithDirs, Relocates, Carried, Duplicated, Spared, ReopenableArg, PathsValid,
      HasBlankPart, Canonical;
    var t := TreeOf(entries, ledger);
    if Normalize(fromArg).Ok? && Normalize(toArg).Ok? {
      var from, to := Normalize(fromArg).value, Normalize(toArg).value;
      GoodArgIsClean(fromArg);
      GoodArgIsClean(toArg);
      CopiedHere(entries, ledger, collided, from, to);
      assert CopyArgs(t, fromArg, toArg) == Copy(t, from, to);
    } else {
      BadPathRefused(t);
      MoveArgsBad(t, fromArg, toArg);
    }
  }

  lemma CopiedHere(entries: seq<Entry>, ledger: Ledger, collided: bool, from: string, to: string)
    requires EntriesOk(entries, ledger, collided) && TreeOk(TreeOf(entries, ledger))
    ensures var (r, after) := CopiedNow(entries, from, to);
            var t, t1 := TreeOf(entries, ledger), TreeOf(after, ledger);
            && EntriesOk(after, ledger, collided)
            && (r.Err? && Clean(from) ==> after == entries)
            && (Clean(from) && Clean(to) ==> TreeOk(t1) && Relocates(Copy(t, from, to), r, t1))
            && (r.Ok? && from != to ==> (TreeOk(t1) <==> Clean(to)))
            && (r.Ok? && from != to && Clean(from) ==> (PathsValid(after) <==> Fine(to)))
            && (r.Ok? && from != to ==> if Clean(from) then Duplicated(t, from, to, t1) else Spared(t, {}, t1))
            && (r.Ok? && from != to && Clean(to) ==> Clean(from))
  {
    hide TreeOf, TreeOk, EntriesOk, Normalize, Clean, Copy, Relocatable, Prepared, ParentEntries, Ancestors,
      SortBy, Clones, WithDirs, Relocates, FileAbove, Carried, Duplicated, Spared;
    var t := TreeOf(entries, ledger);
    if Clean(from) && Clean(to) {
      CleanArgs(from, to);
      PreparedIs(entries, ledger, collided, from, to);
      MoveRefused(t, from, to);
      ParentsAreDirs(entries, ledger, collided, to);
      if Prepared(entries, from, to).Ok? && from != to { MoveNeeds(t, from, to); }
    }
    if Prepared(entries, from, to).Ok? && from != to && ParentEntries(entries, to).Ok? {
      var made := ParentEntries(entries, to).value;
      if Clean(from) || !Clean(to) { LandsThere(entries, ledger, collided, from, to); }
      if Clean(to) {
        ParentsAreDirs(entries, ledger, collided, to);
        if Clean(from) {
          CopiedEntries(made, ledger, collided, t, from, to);
          EntriesSort(made + Clones(made, from, to), ledger, collided);
          CopiedReopens(entries, ledger, collided, from, to);
        } else {
          UncleanIsAbsent(made, ledger, collided, from);
          RelocateNone(made, from, to);
        }
      } else {
        CopiedUncleanly(entries, ledger, collided, from, to);
        EntriesSort(made + Clones(made, from, to), ledger, collided);
        if Clean(from) { CopiedReopens(entries, ledger, collided, from, to); }
      }
    }
  }

  /** What a copy leaves is all canonical exactly when the destination is, without a blank part. */
  lemma CopiedReopens(entries: seq<Entry>, ledger: Ledger, collided: bool, from: string, to: string)
    requires EntriesOk(entries, ledger, collided) && TreeOk(TreeOf(entries, ledger))
    requires Prepared(entries, from, to).Ok? && from != to && ParentEntries(entries, to).Ok? && Clean(from)
    requires EntriesOk(ParentEntries(entries, to).value + Clones(ParentEntries(entries, to).value, from, to), ledger, collided)
    ensures var made := ParentEntries(entries, to).value;
            PathsValid(SortBy(EntryPath, made + Clones(made, from, to))) <==> Fine(to)
  {
    hide TreeOf, TreeOk, EntriesOk, Normalize, Clean, Prepared, ParentEntries, Clones, Find, Canonical,
      HasBlankPart, AtOrBelow, SortBy, PathsValid;
    var made := ParentEntries(entries, to).value;
    var clones := Clones(made, from, to);
    UniqueIn(entries, ledger, collided);
    CanonicalTree(entries, ledger);
    CleanIsThere(entries, ledger, collided, from, to);
    FindInTree(entries, ledger, from, collided);
    ParentsMade(entries, to);
    SortedReopens(made + clones, ledger, collided);
    var x := RootCloned(made, from, to, Find(entries, from).value);
    assert x in made + clones;
    if Canonical(to) {
      ParentsCanonical(entries, to);
      if AllCanonical(made) { ClonesCanonical(made, from, to); }
      assert forall e :: e in made ==> e in made + clones;
    }
  }

  lemma {:induction false} RootCloned(entries: seq<Entry>, from: string, to: string, e: Entry) returns (x: Entry)
    requires e in entries && e.path == from
    ensures x in Clones(entries, from, to) && x.path == to
  {
    var front, last := entries[..|entries| - 1], entries[|entries| - 1];
    assert entries == front + [last];
    if e in front {
      x := RootCloned(front, from, to, e);
    } else {
      x := last.(path := to);
    }
  }

  lemma {:induction false} ClonesCanonical(entries: seq<Entry>, from: string, to: string)
    requires AllCanonical(entries) && Canonical(to)
    ensures AllCanonical(Clones(entries, from, to))
  {
    hide Canonical, AtOrBelow, Remap;
    if entries != [] {
      var front, last := entries[..|entries| - 1], entries[|entries| - 1];
      assert entries == front + [last];
      ClonesCanonical(front, from, to);
      if AtOrBelow(last.path, from) { RemapCanonical(last.path, from, to); }
    }
  }

  lemma CopiedUncleanly(entries: seq<Entry>, ledger: Ledger, collided: bool, from: string, to: string)
    requires EntriesOk(entries, ledger, collided) && TreeOk(TreeOf(entries, ledger))
    requires Prepared(entries, from, to).Ok? && ParentEntries(entries, to).Ok? && !Clean(to)
    ensures var made := ParentEntries(entries, to).value;
            var clones := Clones(made, from, to);
            && EntriesOk(made, ledger, collided) && EntriesOk(made + clones, ledger, collided)
            && EntriesOk(SortBy(EntryPath, made + clones), ledger, collided)
            && (clones != [] ==> !TreeOk(TreeOf(SortBy(EntryPath, made + clones), ledger)))
            && (Clean(from) ==> clones != [])
  {
    hide TreeOf, TreeOk, EntriesOk, Normalize, Clean, Prepared, ParentEntries, Clones, Find, SortBy;
    var made := ParentEntries(entries, to).value;
    var clones := Clones(made, from, to);
    ParentsAt(entries, ledger, collided, to);
    ClonesOk(made, ledger, collided, from, to);
    EntriesSort(made + clones, ledger, collided);
    if clones != [] && TreeOk(TreeOf(made + clones, ledger)) {
      assert clones[0] in made + clones;
      LandsClean(made + clones, ledger, collided, to, clones[0]);
    }
    if Clean(from) {
      CleanIsThere(entries, ledger, collided, from, to);
      FindInTree(entries, ledger, from, collided);
      CloneExists(made, from, to, Find(entries, from).value);
    }
  }

  // ---- a move that moves nothing ------------------------------------------

  /** With `"a"` in the vault, a move of `"a /"` to `"b"` reports success and moves nothing, and a copy
      finds nothing: the check normalises the path once more than the work does. */
  lemma BlankEndMovesNothing()
    ensures MovedTo([DirEntry("a")], "a /", "b") == (Ok(()), [DirEntry("a")])
    ensures CopiedTo([DirEntry("a")], "a /", "b") == (Err(NotFound), [DirEntry("a")])
  {
    hide Normalize;
    NormalizeBlankSlash();
    var es := [DirEntry("a")];
    assert Find(es, "a") == Some(es[0]);
    assert es[1..] == [] && Find(es, "b") == None;
    assert forall e :: e in es ==> e == es[0];
    assert Parent("b") == None;
    assert !AtOrBelow("a", "a ");
    RelocateNone(es, "a ", "b");
    SortOneEntry(es[0]);
  }

  lemma SortOneEntry(e: Entry)
    ensures SortBy(EntryPath, [e]) == [e]
  {
    assert [e][..0] == [];
  }

  lemma NormalizeBlankSlash()
    ensures Normalize("a /") == Ok("a ") && Normalize("a ") == Ok("a") && Normalize("b") == Ok("b")
  {
    hide Normalize, StripStart, StripEnd;
    PlainNormalizes("b");
    StripSlashEnd();
    StripBlankEnd();
    NormalizeSinglePart("a /", "a ");
    NormalizeSinglePart("a ", "a");
  }

  lemma StripSlashEnd()
    ensures Trimmed("a /") == "a "
  {
    hide StripStart, StripEnd;
    assert "a /" == "a " + ['/'];
    StartFixed("a /", IsWhitespace);
    EndFixed("a /", IsWhitespace);
    StartFixed("a /", IsSlash);
    EndOnce("a ", '/', IsSlash);
  }

  lemma StripBlankEnd()
    ensures Trimmed("a ") == "a"
  {
    hide StripStart, StripEnd;
    assert "a " == "a" + [' '];
    StartFixed("a ", IsWhitespace);
    EndOnce("a", ' ', IsWhitespace);
    StartFixed("a", IsSlash);
    EndFixed("a", IsSlash);
  }
}
