/** Making directories, and the arguments for which that leaves a well-formed tree. */
module Directories {
  import opened Wrappers
  import opened Ordering
  import opened Paths
  import opened VaultTypes
  import opened Stores
  import opened Trees
  import opened Manifests

  /** What trimming leaves of the argument has no blank at its ends or before a slash. An argument
      that is refused changes nothing, so it is a good argument. */
  predicate GoodArg(arg: string) {
    Normalize(arg).Ok? ==> BareEnds(Trimmed(arg)) && !BlankBeforeSlash(Trimmed(arg))
  }

  /** What trimming leaves has no blank at its ends, and no part all blanks after a blank. */
  predicate ReopenableArg(arg: string) {
    Normalize(arg).Ok? ==> BareEnds(Trimmed(arg)) && !HasBlankPart(Trimmed(arg))
  }

  /** Good arguments are those that name a path all of whose ancestors are canonical too. */
  lemma GoodArgIsClean(arg: string)
    requires Normalize(arg).Ok?
    ensures GoodArg(arg) <==> Clean(Normalize(arg).value)
    ensures ReopenableArg(arg) <==> Canonical(Normalize(arg).value) && !HasBlankPart(Normalize(arg).value)
  {
    hide IsWhitespace, BlankBeforeSlash, HasBlankPart, BareEnds, Trimmed, Normalize;
    NormalizeTwice(arg);
  }

  lemma GoodArgStable(arg: string)
    requires GoodArg(arg) && Normalize(arg).Ok?
    ensures var q := Normalize(arg).value; Clean(q) && Normalize(q) == Ok(q)
  {
    hide Normalize, BlankBeforeSlash;
    GoodArgIsClean(arg);
  }

  lemma NormalizedIsShorter(arg: string)
    ensures Normalize(arg).Ok? ==> |Normalize(arg).value| <= |arg|
  {
  }

  lemma ParentFacts(path: string)
    ensures Parent(path).Some? ==> |Parent(path).value| < |path| && IsDescendant(path, Parent(path).value)
    ensures Clean(path) && Parent(path).Some? ==> Clean(Parent(path).value)
    ensures Ancestors(path) ==
            if Parent(path).None? then {} else Ancestors(Parent(path).value) + {Parent(path).value}
  {
    hide Clean;
    match LastSlash(path)
    case None =>
      assert Ancestors(path) == {};
    case Some(i) =>
      var parent := path[..i];
      if Clean(path) { AncestorClean(path, i); }
      forall j | 0 <= j < |path| && IsSlashAt(path, j)
        ensures path[..j] in Ancestors(parent) + {parent}
      {
        if j < i { assert IsSlashAt(parent, j) && path[..j] == parent[..j]; }
      }
      forall j | 0 <= j < |parent| && IsSlashAt(parent, j)
        ensures parent[..j] in Ancestors(path)
      {
        assert IsSlashAt(path, j) && path[..j] == parent[..j];
      }
  }

  /** Making a directory succeeded, and says whether it is new, or failed without effect. */
  predicate MkdirDone(t: Tree, q: string, r: Result<bool, VaultError>, after: Tree) {
    match Mkdir(t, q)
    case Ok(t1) => r == Ok(q !in t) && after == t1
    case Err(e) => r == Err(e) && after == t
  }

  lemma MkdirCases(t: Tree, q: string)
    requires TreeOk(t) && Clean(q)
    ensures FileAbove(t, q) ==> MkdirDone(t, q, Err(FileInTheWay), t)
    ensures !FileAbove(t, q) && q in t ==> MkdirDone(t, q, if t[q].Dir? then Ok(false) else Err(FileInTheWay), t)
    ensures !FileAbove(t, q) && q !in t ==> MkdirDone(t, q, Ok(true), WithDirs(t, Ancestors(q) + {q}))
  {
    hide Clean, TreeOk, Ancestors;
    if !FileAbove(t, q) {
      WithDirsOk(t, q);
    }
  }

  lemma NoDirs(t: Tree)
    ensures WithDirs(t, {}) == t
  {
  }

  lemma OneMoreDir(t: Tree, dirs: set<string>, q: string)
    requires q !in t && q !in dirs
    ensures WithDirs(t, dirs)[q := Dir] == WithDirs(t, dirs + {q})
  {
  }

  lemma AddDirEntry(entries: seq<Entry>, dirPath: string, ledger: Ledger, collided: bool, t: Tree)
    requires EntriesOk(entries, ledger, collided)
    requires TreeOk(t) && Clean(dirPath) && !FileAbove(t, dirPath) && dirPath !in t
    requires TreeOf(entries, ledger) == WithDirs(t, Ancestors(dirPath))
    ensures var entries1 := SortBy(EntryPath, entries + [DirEntry(dirPath)]);
            && EntriesOk(entries1, ledger, collided) && Sorted(EntryPath, entries1)
            && TreeOf(entries1, ledger) == WithDirs(t, Ancestors(dirPath) + {dirPath})
            && TreeOk(TreeOf(entries1, ledger))
  {
    hide TreeOf, TreeOk, Clean, Ancestors, SortBy, Sorted, UniquePaths, Find;
    var e := DirEntry(dirPath);
    NotItsOwnAncestor(dirPath);
    WithDirsOk(t, dirPath);
    TreeAt(entries, ledger);
    assert dirPath !in PathSet(entries);
    TreePush(entries, e, ledger);
    InPush(entries, e);
    TreeSort(entries + [e], ledger);
    OneMoreDir(t, Ancestors(dirPath), dirPath);
  }

  lemma DescendantTransitiveUp(path: string, current: string, parent: string)
    requires AtOrBelow(path, current) && IsDescendant(current, parent)
    ensures IsDescendant(path, parent)
  {
  }

  lemma NextAncestor(current: string, parent: string)
    requires Parent(current) == Some(parent)
    ensures forall a :: IsDescendant(current, a) ==> a == parent || IsDescendant(parent, a)
  {
    forall a | IsDescendant(current, a)
      ensures a == parent || IsDescendant(parent, a)
    {
      assert IsSlashAt(current, |a|);
      assert |a| <= |parent|;
      assert a == current[..|a|];
    }
  }

  lemma FileAboveStep(t: Tree, path: string, parent: string)
    requires Ancestors(path) == Ancestors(parent) + {parent}
    ensures FileAbove(t, path) <==> FileAbove(t, parent) || (parent in t && t[parent].File?)
  {
  }

  lemma ParentIsFree(t: Tree, path: string, parent: string)
    requires Ancestors(path) == Ancestors(parent) + {parent} && !FileAbove(t, path)
    ensures forall r, after :: MkdirDone(t, parent, r, after) ==> r.Ok? && after == WithDirs(t, Ancestors(path))
  {
  }

  lemma FindInTree(entries: seq<Entry>, ledger: Ledger, q: string, collided: bool)
    requires EntriesOk(entries, ledger, collided)
    ensures var t := TreeOf(entries, ledger);
            match Find(entries, q)
            case None => q !in t
            case Some(e) => e in entries && e.path == q && q in t && t[q] == NodeOf(e, ledger)
  {
    hide UniquePaths, Find, NodeOf;
    TreeAt(entries, ledger);
  }

  lemma NotItsOwnAncestor(path: string)
    ensures path !in Ancestors(path)
  {
  }

  // ---- making directories in a manifest -----------------------------------

  function DirEntry(q: string): Entry { Entry(q, 0, true, [], None) }

  /** A file entry stands at `q`. */
  predicate FileIn(entries: seq<Entry>, q: string) {
    exists e :: e in entries && e.path == q && !e.isDir
  }

  /** Some file entry stands above `q`. */
  predicate FileAboveIn(entries: seq<Entry>, q: string) {
    exists e :: e in entries && !e.isDir && IsDescendant(q, e.path)
  }

  /** What making a directory does to the entries, for any argument: each parent is normalised again
      on the way up. The flag says whether the directory is new. */
  function MkdirEntries(entries: seq<Entry>, arg: string): Result<(bool, seq<Entry>), VaultError>
    decreases |arg|
  {
    if Normalize(arg).Err? then Err(BadPath)
    else
      var q := Normalize(arg).value;
      NormalizedIsShorter(arg);
      ParentFacts(q);
      if FileAboveIn(entries, q) then Err(FileInTheWay)
      else
        match Find(entries, q)
        case Some(e) => if e.isDir then Ok((false, entries)) else Err(FileInTheWay)
        case None =>
          match Parent(q)
          case None => Ok((true, SortBy(EntryPath, entries + [DirEntry(q)])))
          case Some(p) =>
            match MkdirEntries(entries, p)
            case Err(e) => Err(e)
            case Ok(made) => Ok((true, SortBy(EntryPath, made.1 + [DirEntry(q)])))
  }

  /** The parents of a path, made. */
  function ParentEntries(entries: seq<Entry>, path: string): Result<seq<Entry>, VaultError> {
    match Parent(path)
    case None => Ok(entries)
    case Some(p) =>
      match MkdirEntries(entries, p)
      case Err(e) => Err(e)
      case Ok(made) => Ok(made.1)
  }

  function AfterMkdir(entries: seq<Entry>, arg: string): seq<Entry> {
    if MkdirEntries(entries, arg).Ok? then MkdirEntries(entries, arg).value.1 else entries
  }

  function AfterParents(entries: seq<Entry>, path: string): seq<Entry> {
    if ParentEntries(entries, path).Ok? then ParentEntries(entries, path).value else entries
  }

  lemma FileAboveAlike(entries: seq<Entry>, ledger: Ledger, q: string)
    requires UniquePaths(entries)
    ensures FileAboveIn(entries, q) <==> FileAbove(TreeOf(entries, ledger), q)
  {
    hide TreeOf, UniquePaths, Find, IsDescendant, Ancestors;
    TreeAt(entries, ledger);
    AncestorsAre(q);
    var t := TreeOf(entries, ledger);
    if FileAbove(t, q) {
      var a :| a in Ancestors(q) && a in t && t[a].File?;
      assert Find(entries, a).value in entries;
    }
  }

  /** For a good argument that is the tree's mkdir. */
  lemma {:induction false} MkdirEntriesIsMkdir(entries: seq<Entry>, ledger: Ledger, collided: bool, arg: string)
    requires EntriesOk(entries, ledger, collided) && TreeOk(TreeOf(entries, ledger))
    requires GoodArg(arg) && Normalize(arg).Ok?
    ensures var t, q := TreeOf(entries, ledger), Normalize(arg).value;
            match MkdirEntries(entries, arg)
            case Err(e) => MkdirDone(t, q, Err(e), t)
            case Ok(made) =>
              && MkdirDone(t, q, Ok(made.0), TreeOf(made.1, ledger))
              && EntriesOk(made.1, ledger, collided) && TreeOk(TreeOf(made.1, ledger))
              && (Sorted(EntryPath, entries) ==> Sorted(EntryPath, made.1))
    decreases |arg|
  {
    hide TreeOf, TreeOk, EntriesOk, Find, Normalize, Clean, Ancestors, SortBy, Sorted, Mkdir, MkdirDone, FileAbove,
      FileAboveIn, WithDirs, IsDescendant, Content, GoodArg, NodeOf, UniquePaths;
    var t, q := TreeOf(entries, ledger), Normalize(arg).value;
    GoodArgStable(arg);
    NormalizedIsShorter(arg);
    MkdirCases(t, q);
    UniqueIn(entries, ledger, collided);
    FileAboveAlike(entries, ledger, q);
    FindInTree(entries, ledger, q, collided);
    FoundKind(entries, ledger, q);
    if !FileAboveIn(entries, q) && Find(entries, q).None? {
      ParentFacts(q);
      match Parent(q)
      case None =>
        NoDirs(t);
        AddDirEntry(entries, q, ledger, collided, t);
      case Some(p) =>
        CleanIsCanonical(p);
        CanonicalNormalizes(p);
        CleanIsGood(p);
        ParentIsFree(t, q, p);
        MkdirEntriesIsMkdir(entries, ledger, collided, p);
        var made := MkdirEntries(entries, p);
        assert made.Ok?;
        AddDirEntry(made.value.1, q, ledger, collided, t);
    }
  }

  lemma UniqueIn(entries: seq<Entry>, ledger: Ledger, collided: bool)
    requires EntriesOk(entries, ledger, collided)
    ensures UniquePaths(entries)
  {
  }

  lemma FoundKind(entries: seq<Entry>, ledger: Ledger, q: string)
    ensures Find(entries, q).Some? ==> (NodeOf(Find(entries, q).value, ledger).Dir? <==> Find(entries, q).value.isDir)
  {
  }

  lemma CanonicalNormalizes(p: string)
    ensures Canonical(p) <==> Normalize(p) == Ok(p)
  {
  }

  lemma CleanIsGood(p: string)
    requires Clean(p)
    ensures GoodArg(p) && Normalize(p) == Ok(p)
  {
    hide Normalize, BlankBeforeSlash;
    GoodArgIsClean(p);
  }

  // ---- any argument -------------------------------------------------------

  /** Old entries are kept, new ones are directories with paths shorter than `limit`, and no path is
      there twice. */
  ghost predicate Grown(entries: seq<Entry>, limit: nat, after: seq<Entry>) {
    && UniquePaths(after)
    && (forall e :: e in entries ==> e in after)
    && forall e :: e in after ==> e in entries || (e == DirEntry(e.path) && |e.path| < limit)
  }

  /** So grown, with a directory or file at `q`. */
  ghost predicate MadeFor(entries: seq<Entry>, q: string, after: seq<Entry>) {
    Grown(entries, |q| + 1, after) && q in PathSet(after)
  }

  lemma {:induction false} MkdirMakes(entries: seq<Entry>, arg: string)
    requires UniquePaths(entries) && MkdirEntries(entries, arg).Ok?
    ensures MadeFor(entries, Normalize(arg).value, MkdirEntries(entries, arg).value.1)
    decreases |arg|
  {
    hide Find, Normalize, SortBy, UniquePaths, FileAboveIn, IsDescendant;
    var q := Normalize(arg).value;
    NormalizedIsShorter(arg);
    ParentFacts(q);
    FindFinds(entries, q);
    if Find(entries, q).None? {
      match Parent(q)
      case None =>
        PushMakes(entries, entries, q);
      case Some(p) =>
        MkdirMakes(entries, p);
        NormalizedIsShorter(p);
        PushMakes(entries, MkdirEntries(entries, p).value.1, q);
    }
  }

  lemma PushMakes(entries: seq<Entry>, made: seq<Entry>, q: string)
    requires UniquePaths(made) && q !in PathSet(entries) && (forall e :: e in entries ==> e in made)
    requires forall e :: e in made ==> e in entries || (e == DirEntry(e.path) && |e.path| < |q|)
    ensures MadeFor(entries, q, SortBy(EntryPath, made + [DirEntry(q)]))
  {
    hide SortBy, UniquePaths;
    InPush(made, DirEntry(q));
    UniquePush(made, DirEntry(q));
    SortUnique(made + [DirEntry(q)]);
    SortBySameElements(EntryPath, made + [DirEntry(q)]);
    assert forall e :: e in SortBy(EntryPath, made + [DirEntry(q)]) <==> e in made + [DirEntry(q)] by {
      SortKeepsMembers(made + [DirEntry(q)]);
    }
    assert DirEntry(q) in SortBy(EntryPath, made + [DirEntry(q)]);
  }

  lemma SortKeepsMembers(entries: seq<Entry>)
    ensures forall e :: e in SortBy(EntryPath, entries) <==> e in entries
  {
    SortBySameElements(EntryPath, entries);
  }

  lemma ParentsMade(entries: seq<Entry>, path: string)
    requires UniquePaths(entries) && ParentEntries(entries, path).Ok?
    ensures Grown(entries, |path|, ParentEntries(entries, path).value)
  {
    hide UniquePaths, MkdirEntries;
    ParentFacts(path);
    match Parent(path)
    case None =>
    case Some(p) =>
      MkdirMakes(entries, p);
      MkdirNormalizes(entries, p);
      NormalizedIsShorter(p);
  }

  /** The directory's path is the path up to some point. */
  predicate IsPrefix(p: string, path: string) {
    p != "" && |p| <= |path| && p == path[..|p|]
  }

  ghost predicate GrownAlong(entries: seq<Entry>, path: string, after: seq<Entry>) {
    forall e :: e in after ==> e in entries || IsPrefix(e.path, path)
  }

  /** On the way up a path that starts with neither blank nor slash, only beginnings of it are made. */
  lemma {:induction false} PrefixesMade(entries: seq<Entry>, arg: string, path: string)
    requires MkdirEntries(entries, arg).Ok? && IsPrefix(arg, path) && !IsWhitespace(path[0]) && path[0] != '/'
    ensures GrownAlong(entries, path, MkdirEntries(entries, arg).value.1)
    decreases |arg|
  {
    hide Find, Normalize, SortBy, FileAboveIn, IsWhitespace, Trimmed;
    MkdirNormalizes(entries, arg);
    MkdirStep(entries, arg);
    NormalizeTwice(arg);
    var a, m := TrimmedEnd(arg);
    var q := Normalize(arg).value;
    assert q == arg[..m] == path[..m];
    NormalizedIsShorter(arg);
    ParentFacts(q);
    match Parent(q)
    case None =>
      if Find(entries, q).None? { AlongPush(entries, entries, path, q); }
    case Some(p) =>
      if Find(entries, q).None? {
        ParentNotEmpty(q, path[0]);
        PrefixesMade(entries, p, path);
        AlongPush(entries, MkdirEntries(entries, p).value.1, path, q);
      }
  }

  lemma ParentNotEmpty(q: string, c: char)
    requires q != "" && q[0] == c && c != '/' && Parent(q).Some?
    ensures Parent(q).value != "" && |Parent(q).value| <= |q| && Parent(q).value == q[..|Parent(q).value|]
  {
  }

  lemma AlongPush(entries: seq<Entry>, made: seq<Entry>, path: string, q: string)
    requires GrownAlong(entries, path, made) && IsPrefix(q, path)
    ensures GrownAlong(entries, path, SortBy(EntryPath, made + [DirEntry(q)]))
  {
    hide SortBy;
    SortKeepsMembers(made + [DirEntry(q)]);
    InPush(made, DirEntry(q));
  }

  lemma ParentsAlong(entries: seq<Entry>, path: string)
    requires ParentEntries(entries, path).Ok? && path != "" && !IsWhitespace(path[0]) && path[0] != '/'
    ensures GrownAlong(entries, path, ParentEntries(entries, path).value)
  {
    hide MkdirEntries, IsWhitespace;
    if Parent(path).Some? {
      ParentNotEmpty(path, path[0]);
      PrefixesMade(entries, Parent(path).value, path);
    }
  }

  /** Making directories disturbs nothing. */
  lemma GrownSpares(entries: seq<Entry>, ledger: Ledger, collided: bool, limit: nat, after: seq<Entry>)
    requires EntriesOk(entries, ledger, collided) && Grown(entries, limit, after)
    ensures EntriesOk(after, ledger, collided) && Spared(TreeOf(entries, ledger), {}, TreeOf(after, ledger))
  {
    hide TreeOf, UniquePaths, Content, Find;
    TreeAt(entries, ledger);
    TreeAt(after, ledger);
    var t, t1 := TreeOf(entries, ledger), TreeOf(after, ledger);
    forall p | p in t1
      ensures p in t ==> t1[p] == t[p]
      ensures p !in t ==> t1[p].Dir?
    {
      var e := Find(after, p).value;
      assert e in after && e.path == p;
    }
    forall p | p in t
      ensures p in t1
    {
      assert Find(entries, p).value in after;
    }
  }

  lemma MadeSorted(entries: seq<Entry>, arg: string)
    requires Sorted(EntryPath, entries) && MkdirEntries(entries, arg).Ok?
    ensures Sorted(EntryPath, MkdirEntries(entries, arg).value.1)
  {
    hide SortBy, Sorted, Normalize, Find, FileAboveIn;
    var q := Normalize(arg).value;
    ParentFacts(q);
    NormalizedIsShorter(arg);
    var made := if Parent(q).Some? && MkdirEntries(entries, Parent(q).value).Ok? then MkdirEntries(entries, Parent(q).value).value.1 else entries;
    SortBySorted(EntryPath, made + [DirEntry(q)]);
  }

  /** The parents of a clean path, in a well-formed tree. */
  lemma ParentsAreDirs(entries: seq<Entry>, ledger: Ledger, collided: bool, path: string)
    requires EntriesOk(entries, ledger, collided) && TreeOk(TreeOf(entries, ledger)) && Clean(path)
    ensures var t := TreeOf(entries, ledger);
            match ParentEntries(entries, path)
            case Err(e) => e == FileInTheWay && FileAbove(t, path)
            case Ok(made) =>
              && !FileAbove(t, path) && TreeOf(made, ledger) == WithDirs(t, Ancestors(path))
              && EntriesOk(made, ledger, collided) && TreeOk(TreeOf(made, ledger))
  {
    hide TreeOf, TreeOk, EntriesOk, Normalize, Clean, IsDescendant, Ancestors, MkdirEntries, GoodArg, FileAbove;
    var t := TreeOf(entries, ledger);
    ParentFacts(path);
    match Parent(path)
    case None =>
      NoDirs(t);
      NothingAbove(t, path);
    case Some(p) =>
      CleanIsGood(p);
      MkdirEntriesIsMkdir(entries, ledger, collided, p);
      FileAboveStep(t, path, p);
      MkdirFails(t, p);
  }

  lemma NothingAbove(t: Tree, path: string)
    requires Ancestors(path) == {}
    ensures !FileAbove(t, path)
  {
  }

  lemma MkdirFails(t: Tree, q: string)
    ensures Mkdir(t, q).Ok? <==> !FileAbove(t, q) && !(q in t && t[q].File?)
    ensures Mkdir(t, q).Err? ==> Mkdir(t, q).error == FileInTheWay
  {
  }

  /** The parents of a canonical path are all canonical exactly when it has no blank part. */
  lemma ParentsCanonical(entries: seq<Entry>, path: string)
    requires UniquePaths(entries) && Reopens(entries) && ParentEntries(entries, path).Ok? && Canonical(path)
    ensures AllCanonical(ParentEntries(entries, path).value) <==> !HasBlankPart(path)
    ensures !HasBlankPart(path) ==> Reopens(ParentEntries(entries, path).value)
  {
    hide Normalize, UniquePaths, HasBlankPart, Canonical, MkdirEntries;
    match LastSlash(path)
    case None =>
      NoSlashNoPart(path);
    case Some(i) =>
      var p := path[..i];
      MkdirNormalizes(entries, p);
      MkdirCanonical(entries, p);
      ParentStep(path, i);
  }

  ghost predicate AllCanonical(entries: seq<Entry>) {
    forall e :: e in entries ==> Canonical(e.path)
  }

  /** A path a manifest may hold, with no part all blanks after a blank: all that is made on the way up to
      it is canonical too. */
  ghost predicate Fine(p: string) { Canonical(p) && !HasBlankPart(p) }

  ghost predicate Reopens(entries: seq<Entry>) {
    forall e :: e in entries ==> Fine(e.path)
  }

  /** The paths a directory's making leaves are all canonical exactly when its own is fine. */
  lemma {:induction false} MkdirCanonical(entries: seq<Entry>, arg: string)
    requires UniquePaths(entries) && Reopens(entries) && MkdirEntries(entries, arg).Ok?
    ensures AllCanonical(MkdirEntries(entries, arg).value.1) <==> Fine(Normalize(arg).value)
    ensures Fine(Normalize(arg).value) ==> Reopens(MkdirEntries(entries, arg).value.1)
    decreases |arg|
  {
    hide Find, Normalize, SortBy, UniquePaths, FileAboveIn, IsDescendant, HasBlankPart, Canonical;
    var q := Normalize(arg).value;
    NormalizedIsShorter(arg);
    ParentFacts(q);
    MkdirMakes(entries, arg);
    MkdirStep(entries, arg);
    var after := MkdirEntries(entries, arg).value.1;
    MadePath(entries, q, after);
    FindFinds(entries, q);
    if Find(entries, q).None? && Canonical(q) {
      match LastSlash(q)
      case None =>
        NoSlashNoPart(q);
        PushCanonical(entries, q);
      case Some(i) =>
        var p := q[..i];
        MkdirNormalizes(entries, p);
        MkdirCanonical(entries, p);
        ParentStep(q, i);
        PushCanonical(MkdirEntries(entries, p).value.1, q);
    }
  }

  lemma MadePath(entries: seq<Entry>, q: string, after: seq<Entry>)
    requires MadeFor(entries, q, after)
    ensures AllCanonical(after) ==> Canonical(q)
  {
    hide Canonical, UniquePaths;
    var e :| e in after && e.path == q;
  }

  lemma BlankPartIsBefore(q: string)
    ensures HasBlankPart(q) ==> BlankBeforeSlash(q)
  {
    hide IsWhitespace;
  }

  lemma NoSlashNoPart(q: string)
    requires LastSlash(q).None?
    ensures !HasBlankPart(q)
  {
  }

  lemma PushCanonical(made: seq<Entry>, q: string)
    ensures AllCanonical(SortBy(EntryPath, made + [DirEntry(q)])) <==> AllCanonical(made) && Canonical(q)
    ensures Reopens(made) && Fine(q) ==> Reopens(SortBy(EntryPath, made + [DirEntry(q)]))
  {
    hide SortBy, Canonical, HasBlankPart;
    SortKeepsMembers(made + [DirEntry(q)]);
    InPush(made, DirEntry(q));
    assert DirEntry(q) in made + [DirEntry(q)];
  }

  /** In a well-formed vault, for any argument: the manifest a successful mkdir leaves can be opened again
      exactly when what trimming leaves of the argument has no blank at its ends and no part all
      blanks after a blank; the tree stays well formed exactly when it has no blank before a slash either. */
  lemma MkdirAnyArgument(entries: seq<Entry>, ledger: Ledger, collided: bool, arg: string)
    requires EntriesOk(entries, ledger, collided) && TreeOk(TreeOf(entries, ledger))
    requires MkdirEntries(entries, arg).Ok?
    ensures var after := MkdirEntries(entries, arg).value.1;
            && EntriesOk(after, ledger, collided)
            && (PathsValid(after) <==> ReopenableArg(arg))
            && (TreeOk(TreeOf(after, ledger)) <==> GoodArg(arg))
  {
    hide Find, Normalize, SortBy, UniquePaths, FileAboveIn, IsDescendant, TreeOf, TreeOk, HasBlankPart,
      BlankBeforeSlash, Canonical, MkdirEntries, GoodArg, ReopenableArg;
    MkdirNormalizes(entries, arg);
    var q, after := Normalize(arg).value, MkdirEntries(entries, arg).value.1;
    TreeAt(entries, ledger);
    CanonicalTree(entries, ledger);
    MkdirMakes(entries, arg);
    MkdirCanonical(entries, arg);
    GoodArgIsClean(arg);
    if GoodArg(arg) {
      MkdirEntriesIsMkdir(entries, ledger, collided, arg);
    } else if TreeOk(TreeOf(after, ledger)) {
      TreeAt(after, ledger);
      TreeOkMeaning(TreeOf(after, ledger));
    }
  }

  lemma MkdirKeepsEntries(entries: seq<Entry>, ledger: Ledger, collided: bool, arg: string)
    requires EntriesOk(entries, ledger, collided)
    ensures EntriesOk(AfterMkdir(entries, arg), ledger, collided)
    ensures Sorted(EntryPath, entries) ==> Sorted(EntryPath, AfterMkdir(entries, arg))
  {
    hide MkdirEntries, Normalize, EntriesOk, TreeOf, Sorted;
    if MkdirEntries(entries, arg).Ok? {
      UniqueIn(entries, ledger, collided);
      MkdirNormalizes(entries, arg);
      MkdirMakes(entries, arg);
      GrownSpares(entries, ledger, collided, |Normalize(arg).value| + 1, AfterMkdir(entries, arg));
      if Sorted(EntryPath, entries) { MadeSorted(entries, arg); }
    }
  }

  lemma ParentsKeepEntries(entries: seq<Entry>, ledger: Ledger, collided: bool, path: string)
    requires EntriesOk(entries, ledger, collided)
    ensures EntriesOk(AfterParents(entries, path), ledger, collided)
    ensures Sorted(EntryPath, entries) ==> Sorted(EntryPath, AfterParents(entries, path))
  {
    hide MkdirEntries, EntriesOk, Sorted;
    match Parent(path)
    case None =>
    case Some(p) => MkdirKeepsEntries(entries, ledger, collided, p);
  }

  /** The definition, one step. */
  lemma MkdirStep(entries: seq<Entry>, arg: string)
    ensures Normalize(arg).Err? ==> MkdirEntries(entries, arg) == Err(BadPath)
    ensures Normalize(arg).Ok? ==>
              var q := Normalize(arg).value;
              MkdirEntries(entries, arg) ==
              if FileAboveIn(entries, q) then Err(FileInTheWay)
              else if Find(entries, q).Some? then (if Find(entries, q).value.isDir then Ok((false, entries)) else Err(FileInTheWay))
              else if Parent(q).None? then Ok((true, SortBy(EntryPath, entries + [DirEntry(q)])))
              else match MkdirEntries(entries, Parent(q).value)
                   case Err(e) => Err(e)
                   case Ok(made) => Ok((true, SortBy(EntryPath, made.1 + [DirEntry(q)])))
  {
    hide Normalize, SortBy, FileAboveIn, Find, Parent;
  }

  lemma FileAboveMeans(entries: seq<Entry>, q: string)
    ensures FileAboveIn(entries, q) <==> exists a :: IsDescendant(q, a) && FileIn(entries, a)
  {
    hide IsDescendant;
  }

  lemma MkdirNormalizes(entries: seq<Entry>, arg: string)
    requires MkdirEntries(entries, arg).Ok?
    ensures Normalize(arg).Ok?
  {
  }

  lemma CanonicalTree(entries: seq<Entry>, ledger: Ledger)
    requires UniquePaths(entries) && TreeOk(TreeOf(entries, ledger))
    ensures AllCanonical(entries) && Reopens(entries)
  {
    hide TreeOf, TreeOk, UniquePaths, Canonical, BlankBeforeSlash, HasBlankPart;
    TreeAt(entries, ledger);
    TreeOkMeaning(TreeOf(entries, ledger));
    forall e | e in entries
      ensures Fine(e.path)
    {
      BlankPartIsBefore(e.path);
    }
  }

  lemma MkdirInEmpty(arg: string, q: string)
    requires Normalize(arg) == Ok(q) && (Parent(q).Some? ==> MkdirEntries([], Parent(q).value).Ok?)
    ensures MkdirEntries([], arg) ==
            Ok((true, SortBy(EntryPath, (if Parent(q).Some? then MkdirEntries([], Parent(q).value).value.1 else []) + [DirEntry(q)])))
  {
    hide Normalize, SortBy, Parent;
    assert [] + [DirEntry(q)] == [DirEntry(q)];
  }

  lemma EmptyManifest(ledger: Ledger)
    ensures EntriesOk([], ledger, false) && TreeOk(TreeOf([], ledger))
  {
    TreeIs([], ledger, map[]);
  }

  /** `"/ a"` makes a directory `" a"`, and the manifest cannot be opened again. */
  lemma SlashBlankCannotReopen(ledger: Ledger)
    ensures MkdirEntries([], "/ a").Ok? && !PathsValid(MkdirEntries([], "/ a").value.1)
  {
    hide Normalize, SortBy, Parent, PathsValid, TreeOk, EntriesOk, HasBlankPart, MkdirEntries, Trimmed;
    NormalizeNotIdempotent();
    NormalizeTwice("/ a");
    NoParent(" a");
    MkdirInEmpty("/ a", " a");
    EmptyManifest(ledger);
    MkdirAnyArgument([], ledger, false, "/ a");
  }

  lemma NoParent(q: string)
    requires '/' !in q
    ensures Parent(q).None?
  {
  }

  /** `"x /y"` makes `"x"` and `"x /y"`: the manifest can be opened again, but nothing there is the
      parent of `"x /y"`. */
  lemma BlankParentIsMissing(ledger: Ledger)
    ensures MkdirEntries([], "x /y").Ok?
    ensures var after := MkdirEntries([], "x /y").value.1;
            && PathsValid(after) && !TreeOk(TreeOf(after, ledger))
            && "x /y" in PathSet(after) && "x" in PathSet(after) && "x " !in PathSet(after)
  {
    hide Normalize, SortBy, TreeOk, EntriesOk, MkdirEntries, Trimmed, TreeOf, Parent, UniquePaths, Canonical;
    BlankBeforeSlashIsNotClean();
    CanonicalNormalizes("x /y");
    NormalizeBlankEnd();
    NoParent("x");
    MkdirInEmpty("x ", "x");
    MkdirInEmpty("x /y", "x /y");
    EmptyManifest(ledger);
    MkdirAnyArgument([], ledger, false, "x /y");
    NormalizeTwice("x /y");
    var parents, after := MkdirEntries([], "x ").value.1, MkdirEntries([], "x /y").value.1;
    SortKeepsMembers([] + [DirEntry("x")]);
    SortKeepsMembers(parents + [DirEntry("x /y")]);
    assert DirEntry("x") in parents && DirEntry("x") in after && DirEntry("x /y") in after;
    BlankSlashShape();
  }

  lemma BlankSlashShape()
    ensures BareEnds("x /y") && BlankBeforeSlash("x /y") && !HasBlankPart("x /y")
  {
    var w := "x /y";
    assert IsSlashAt(w, 2) && w[1] == ' ' && |w| == 4 && w[0] == 'x' && w[3] == 'y';
    assert forall k: nat :: IsSlashAt(w, k) ==> k == 2;
  }
}
