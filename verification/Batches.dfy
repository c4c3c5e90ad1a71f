/** Adding files in batches: the order they go in, and when it shows. */
module Batches {
  import opened Wrappers
  import opened ByteSeqs
  import opened Ordering
  import opened Paths
  import opened Chunking
  import opened Packing
  import opened VaultTypes
  import opened Stores
  import opened Ingestion
  import opened Trees
  import opened Directories
  import opened FileSteps
  import opened PackSteps

  /** A file to add and the path to add it at. */
  datatype Job = Job(source: Source, target: string)

  lemma EmptyPack()
    ensures PackOf([]) == Pack([], [])
  {
  }

  /** Where the code puts the file of a job: a large one's target is normalised twice. */
  function Landed(job: Job): Result<string, PathError> {
    match Normalize(job.target)
    case Err(e) => Err(e)
    case Ok(q) => if IsSmall(job.source.statLen) then Ok(q) else Normalize(q)
  }

  /** The argument of the last of these normalisations is a good one. */
  predicate GoodJob(job: Job) {
    match Normalize(job.target)
    case Err(_) => true
    case Ok(q) => if IsSmall(job.source.statLen) then GoodArg(job.target) else GoodArg(q)
  }

  lemma GoodJobIsClean(job: Job)
    requires Landed(job).Ok?
    ensures GoodJob(job) <==> Clean(Landed(job).value)
  {
    hide Normalize, GoodArg, Clean;
    GoodArgIsClean(job.target);
    var q := Normalize(job.target).value;
    if Normalize(q).Ok? { GoodArgIsClean(q); }
  }

  /** The argument of the last of these normalisations is one that reopens. */
  predicate ReopenableJob(job: Job) {
    match Normalize(job.target)
    case Err(_) => true
    case Ok(q) => if IsSmall(job.source.statLen) then ReopenableArg(job.target) else ReopenableArg(q)
  }

  ghost predicate AllReopenable(jobs: seq<Job>) {
    forall j :: j in jobs ==> ReopenableJob(j)
  }

  /** Once every file has a place, their paths are fine exactly when the jobs are. */
  lemma ReopenableIsFine(jobs: seq<Job>)
    requires forall j :: j in jobs ==> Landed(j).Ok?
    ensures AllFine(BatchOrder(jobs)) <==> AllReopenable(jobs)
  {
    hide Normalize, Fine, SortBy, ReopenableJob, Landed;
    SortBySameElements(ByPath, Small(jobs));
    forall job | job in jobs
      ensures ReopenableJob(job) <==> Fine(FileOf(job).path)
      ensures FileOf(job) in BatchOrder(jobs)
    {
      JobInBatch(jobs, job);
      OneReopenable(job);
    }
    forall f | f in BatchOrder(jobs)
      ensures exists job :: job in jobs && f == FileOf(job)
    {
      var job := JobOf(jobs, f);
    }
  }

  lemma OneReopenable(job: Job)
    requires Landed(job).Ok?
    ensures ReopenableJob(job) <==> Fine(FileOf(job).path)
  {
    hide Normalize, ReopenableArg, Canonical, HasBlankPart;
    GoodArgIsClean(job.target);
    var q := Normalize(job.target).value;
    if Normalize(q).Ok? { GoodArgIsClean(q); }
  }

  lemma {:induction false} JobOf(jobs: seq<Job>, f: SmallFile) returns (job: Job)
    requires f in Large(jobs) || f in Small(jobs)
    ensures job in jobs && f == FileOf(job)
  {
    hide FileOf, IsSmall;
    var front, last := jobs[..|jobs| - 1], jobs[|jobs| - 1];
    if f in Large(front) || f in Small(front) {
      job := JobOf(front, f);
    } else {
      job := last;
    }
  }

  ghost predicate AllGood(jobs: seq<Job>) {
    forall j :: j in jobs ==> GoodJob(j)
  }

  /** What one job's turn needs to know of it. */
  lemma JobLands(jobs: seq<Job>, job: Job)
    requires job in jobs
    ensures Landed(job).Ok? ==> Normalize(job.target).Ok?
    ensures Normalize(job.target).Ok? ==>
              Landed(job) == if IsSmall(job.source.statLen) then Normalize(job.target) else Normalize(Normalize(job.target).value)
    ensures Landed(job).Ok? ==> FileOf(job) == SmallFile(Landed(job).value, job.source.content, job.source.Fails())
    ensures AllGood(jobs) && Landed(job).Ok? ==> Clean(FileOf(job).path)
    ensures AllGood(jobs) && Normalize(job.target).Ok? && !IsSmall(job.source.statLen) ==> GoodArg(Normalize(job.target).value)
  {
    hide Normalize, GoodArg, Clean, IsSmall;
    if Landed(job).Ok? { GoodJobIsClean(job); }
  }

  /** If every file of the batch has landed on a clean path the jobs were good. */
  lemma CleanJobs(jobs: seq<Job>)
    requires AllClean(BatchOrder(jobs)) && forall j :: j in jobs ==> Landed(j).Ok?
    ensures AllGood(jobs)
  {
    hide Normalize, GoodJob, Clean, Landed, SortBy;
    SortBySameElements(ByPath, Small(jobs));
    forall job | job in jobs
      ensures GoodJob(job)
    {
      JobInBatch(jobs, job);
      GoodJobIsClean(job);
    }
  }

  lemma {:induction false} JobInBatch(jobs: seq<Job>, job: Job)
    requires job in jobs
    ensures FileOf(job) in Large(jobs) || FileOf(job) in Small(jobs)
  {
    hide FileOf, IsSmall;
    var front := jobs[..|jobs| - 1];
    if job in front {
      JobInBatch(front, job);
    }
  }

  function FileOf(job: Job): SmallFile {
    SmallFile(if Landed(job).Ok? then Landed(job).value else "", job.source.content, job.source.Fails())
  }

  function Large(jobs: seq<Job>): seq<SmallFile> {
    if jobs == [] then []
    else
      var front, last := Large(jobs[..|jobs| - 1]), jobs[|jobs| - 1];
      if IsSmall(last.source.statLen) then front else front + [FileOf(last)]
  }

  function Small(jobs: seq<Job>): seq<SmallFile> {
    if jobs == [] then []
    else
      var front, last := Small(jobs[..|jobs| - 1]), jobs[|jobs| - 1];
      if IsSmall(last.source.statLen) then front + [FileOf(last)] else front
  }

  /** The order in which a batch takes effect, whatever order it was given in. */
  function BatchOrder(jobs: seq<Job>): seq<SmallFile> {
    Large(jobs) + SortBy(ByPath, Small(jobs))
  }

  lemma BatchOf(jobs: seq<Job>)
    ensures BatchOrder(jobs) == Large(jobs) + SortBy(ByPath, Small(jobs))
  {
  }

  lemma NoJobs()
    ensures Large([]) == [] && Small([]) == []
  {
  }

  lemma JobsSnoc(jobs: seq<Job>, job: Job)
    ensures Large(jobs + [job]) == (if IsSmall(job.source.statLen) then Large(jobs) else Large(jobs) + [FileOf(job)])
    ensures Small(jobs + [job]) == (if IsSmall(job.source.statLen) then Small(jobs) + [FileOf(job)] else Small(jobs))
  {
    assert (jobs + [job])[..|jobs|] == jobs;
  }

  lemma {:induction false} LargeFirst(jobs: seq<Job>, i: nat)
    requires i <= |jobs|
    ensures Large(jobs[..i]) <= BatchOrder(jobs)
  {
    hide SortBy, FileOf, IsSmall;
    LargeGrows(jobs, i);
  }

  lemma {:induction false} LargeGrows(jobs: seq<Job>, i: nat)
    requires i <= |jobs|
    ensures Large(jobs[..i]) <= Large(jobs)
    decreases |jobs|
  {
    hide FileOf, IsSmall;
    if i == |jobs| {
      assert jobs[..i] == jobs;
    } else {
      var front := jobs[..|jobs| - 1];
      LargeGrows(front, i);
      assert front[..i] == jobs[..i];
    }
  }

  lemma UnitOk<E>(r: Result<(), E>)
    requires r.Ok?
    ensures r == Ok(())
  {
    assert r.value == ();
  }

  // ---- reasons from outside the tree --------------------------------------

  /** The chunks a batch is stored as: those of its large files, then those of the packs of its small ones. */
  function BatchBlocks(setup: Setup, jobs: seq<Job>): seq<Bytes> {
    if setup.EffectiveBounds().Err? then []
    else
      EffectiveBoundsFit(setup);
      LargeBlocks(setup, Large(jobs)) + SortedBlocks(setup.CutterFor(setup.EffectiveBounds().value), SortBy(ByPath, Small(jobs)))
  }

  /** Outside the tree, there is this reason for the batch to fail. */
  ghost predicate BatchFault(setup: Setup, jobs: seq<Job>, e: VaultError) {
    || (e == BadPath && exists job :: job in jobs && Landed(job).Err?)
    || (e == NotRegular && exists job :: job in jobs && !job.source.regular)
    || (e == BadBounds && setup.EffectiveBounds().Err?)
    || (e == Io && exists job :: job in jobs && (job.source.statFails || job.source.Fails()))
    || (e == CompressFailed && !AllStorable(setup.prims, BatchBlocks(setup, jobs)))
  }

  /** Every file of the batch has a place and can be read, */
  ghost predicate AllRead(jobs: seq<Job>) {
    forall job :: job in jobs ==> Landed(job).Ok? && job.source.regular && !job.source.statFails && !job.source.Fails()
  }

  /** and can be stored. */
  ghost predicate SaneBatch(setup: Setup, jobs: seq<Job>) {
    AllRead(jobs) && setup.EffectiveBounds().Ok? && AllStorable(setup.prims, BatchBlocks(setup, jobs))
  }

  lemma SaneHasNoFault(setup: Setup, jobs: seq<Job>, e: VaultError)
    requires SaneBatch(setup, jobs)
    ensures !BatchFault(setup, jobs, e)
  {
    hide Landed, AllStorable, BatchBlocks;
  }

  /** A large file's fault is the batch's, */
  lemma LargeFault(setup: Setup, jobs: seq<Job>, i: nat, e: VaultError)
    requires i < |jobs| && !IsSmall(jobs[i].source.statLen) && FileFault(setup, jobs[i].source, e)
    ensures BatchFault(setup, jobs, e)
  {
    hide Landed, AllStorable, FileBlocks, BatchBlocks;
    assert jobs[i] in jobs;
    NoBoundsNoBlocks(setup, jobs[i].source.content);
    if setup.EffectiveBounds().Ok? && !AllStorable(setup.prims, FileBlocks(setup, jobs[i].source.content)) {
      LargeNotStorable(setup, jobs, i);
    }
  }

  lemma LargeNotStorable(setup: Setup, jobs: seq<Job>, i: nat)
    requires i < |jobs| && !IsSmall(jobs[i].source.statLen) && setup.EffectiveBounds().Ok?
    requires !AllStorable(setup.prims, FileBlocks(setup, jobs[i].source.content))
    ensures !AllStorable(setup.prims, BatchBlocks(setup, jobs))
  {
    hide AllStorable, LargeBlocks, FileBlocks, SortedBlocks, Large, Small, SortBy, FileOf, BatchBlocks;
    var front, f, all := Large(jobs[..i]), FileOf(jobs[i]), Large(jobs);
    assert jobs[..i + 1] == jobs[..i] + [jobs[i]];
    JobsSnoc(jobs[..i], jobs[i]);
    LargeBlocksSnoc(setup, front, f);
    FileOfBytes(jobs[i]);
    StorableParts(setup.prims, LargeBlocks(setup, front), FileBlocks(setup, f.bytes));
    LargeGrows(jobs, i + 1);
    var n := |front| + 1;
    assert all[..n] == front + [f];
    LargeBlocksOf(setup, all, n);
    BatchOfBlocks(setup, jobs);
  }

  lemma FileOfBytes(job: Job)
    ensures FileOf(job).bytes == job.source.content && FileOf(job).fails == job.source.Fails()
  {
    hide Landed;
  }

  lemma NoBoundsNoBlocks(setup: Setup, content: Bytes)
    ensures setup.EffectiveBounds().Err? ==> FileBlocks(setup, content) == [] && AllStorable(setup.prims, [])
  {
  }

  lemma BatchOfBlocks(setup: Setup, jobs: seq<Job>)
    requires setup.EffectiveBounds().Ok?
    ensures var cutter := setup.CutterFor(setup.EffectiveBounds().value);
            && cutter.Usable()
            && BatchBlocks(setup, jobs) == LargeBlocks(setup, Large(jobs)) + SortedBlocks(cutter, SortBy(ByPath, Small(jobs)))
            && (AllStorable(setup.prims, BatchBlocks(setup, jobs)) <==>
                  AllStorable(setup.prims, LargeBlocks(setup, Large(jobs)))
                  && AllStorable(setup.prims, SortedBlocks(cutter, SortBy(ByPath, Small(jobs)))))
  {
    hide AllStorable, LargeBlocks, SortedBlocks, Large, Small, SortBy;
    EffectiveBoundsFit(setup);
    var cutter := setup.CutterFor(setup.EffectiveBounds().value);
    StorableParts(setup.prims, LargeBlocks(setup, Large(jobs)), SortedBlocks(cutter, SortBy(ByPath, Small(jobs))));
  }

  /** and a small file that cannot be read is one of the batch. */
  lemma {:induction false} SmallFailing(jobs: seq<Job>, f: SmallFile) returns (job: Job)
    requires f in Small(jobs)
    ensures job in jobs && IsSmall(job.source.statLen) && f == FileOf(job)
  {
    hide FileOf, IsSmall;
    var front, last := jobs[..|jobs| - 1], jobs[|jobs| - 1];
    if f in Small(front) {
      job := SmallFailing(front, f);
    } else {
      job := last;
    }
  }

  lemma {:induction false} SmallThere(jobs: seq<Job>, job: Job)
    requires job in jobs && IsSmall(job.source.statLen)
    ensures FileOf(job) in Small(jobs)
  {
    hide FileOf, IsSmall;
    var front := jobs[..|jobs| - 1];
    if job in front {
      SmallThere(front, job);
    }
  }

  /** What the first pass asks of a job's file: that it is there, and if it is large, that reading it succeeded. */
  predicate LargeDone(job: Job) {
    job.source.regular && !job.source.statFails && (!IsSmall(job.source.statLen) ==> !job.source.Fails())
  }

  /** Then, once the small ones are read, all are. */
  lemma AllAreRead(jobs: seq<Job>)
    requires forall job :: job in jobs ==> Landed(job).Ok? && LargeDone(job)
    requires forall f :: f in Small(jobs) ==> !f.fails
    ensures AllRead(jobs)
  {
    hide Landed, IsSmall, Small, FileOf;
    forall job | job in jobs
      ensures !job.source.Fails()
    {
      FileOfBytes(job);
      if IsSmall(job.source.statLen) { SmallThere(jobs, job); }
    }
  }

  /** A job that has no place or no file, or one that cannot be looked at, is the batch's fault. */
  lemma JobFaults(setup: Setup, jobs: seq<Job>, job: Job, e: VaultError)
    requires job in jobs
    requires (e == BadPath && Landed(job).Err?) || (e == NotRegular && !job.source.regular) || (e == Io && job.source.statFails)
    ensures BatchFault(setup, jobs, e)
  {
    hide Landed, BatchBlocks, AllStorable;
  }

  lemma BoundsFault(setup: Setup, jobs: seq<Job>)
    requires setup.EffectiveBounds().Err?
    ensures BatchFault(setup, jobs, BadBounds)
  {
    hide Landed, BatchBlocks, AllStorable;
  }

  /** Outside the tree, there is this reason for adding the small files to fail. */
  ghost predicate SmallFault(p: Primitives, cutter: Cutter, small: seq<SmallFile>, e: VaultError)
    requires cutter.Usable()
  {
    || (e == Io && exists f :: f in small && f.fails)
    || (e == CompressFailed && !AllStorable(p, SortedBlocks(cutter, SortBy(ByPath, small))))
  }

  lemma FlushFails(p: Primitives, cutter: Cutter, small: seq<SmallFile>, sorted: seq<SmallFile>, i: nat, grown: seq<SmallFile>,
                   closed: seq<seq<SmallFile>>, e: VaultError, good: bool)
    requires cutter.Usable() && sorted == SortBy(ByPath, small) && i <= |sorted| && Closes(sorted, i, grown, closed)
    requires good && e in ENVIRONMENT ==> e == CompressFailed && !AllStorable(p, Chunks(cutter, PackOf(grown).data))
    ensures good && e in ENVIRONMENT ==> SmallFault(p, cutter, small, e)
  {
    hide AllStorable, Closes, SortBy, SortedBlocks, Chunks, PackOf;
    if good && e in ENVIRONMENT { PackNotStored(p, cutter, sorted, i, grown, closed); }
  }

  lemma SmallIsBatchFault(setup: Setup, jobs: seq<Job>, e: VaultError)
    requires setup.EffectiveBounds().Ok? && setup.CutterFor(setup.EffectiveBounds().value).Usable()
    ensures SmallFault(setup.prims, setup.CutterFor(setup.EffectiveBounds().value), Small(jobs), e) ==> BatchFault(setup, jobs, e)
  {
    hide Landed, AllStorable, BatchBlocks, LargeBlocks, SortedBlocks, Large, Small, SortBy, FileOf;
    BatchOfBlocks(setup, jobs);
    if f :| f in Small(jobs) && f.fails {
      var job := SmallFailing(jobs, f);
      FileOfBytes(job);
    }
  }

  lemma PackSize(files: seq<SmallFile>)
    ensures Size(files) == |PackOf(files).data|
  {
  }

  /** When a batch succeeded, every file could be read and its chunks are in the store. With `good`: it failed for a reason the tree
      gives or one that there is outside it; so with none there, and no two chunks colliding, it succeeded exactly when all of
      it can be added. */
  ghost predicate BatchOutcome(setup: Setup, jobs: seq<Job>, t: Tree, before: Records, after: Records, good: bool, collided: bool,
                               r: Result<(), VaultError>)
  {
    && (r.Ok? ==> AllRead(jobs) && setup.EffectiveBounds().Ok? && Ingested(setup.prims, before, BatchBlocks(setup, jobs), after))
    && (good && r.Err? && r.error in ENVIRONMENT ==> BatchFault(setup, jobs, r.error))
    && (good && SaneBatch(setup, jobs) && !collided ==> (r.Ok? <==> Addable(t, BatchOrder(jobs))))
  }

  lemma BatchExactly(setup: Setup, t: Tree, jobs: seq<Job>, before: Records, after: Records, good: bool, collided: bool,
                     r: Result<(), VaultError>, left: Tree)
    requires good && !collided ==> AddAllDone(t, BatchOrder(jobs), r, left)
    requires good && r.Err? && r.error in ENVIRONMENT ==> BatchFault(setup, jobs, r.error)
    requires r.Ok? ==> AllRead(jobs) && setup.EffectiveBounds().Ok? && Ingested(setup.prims, before, BatchBlocks(setup, jobs), after)
    ensures BatchOutcome(setup, jobs, t, before, after, good, collided, r)
  {
    hide AddAll, AddedUpTo, BatchOrder, Addable, SaneBatch, BatchFault, AllRead, Ingested, BatchBlocks;
    AddAllMeaning(t, BatchOrder(jobs));
    if SaneBatch(setup, jobs) && r.Err? { SaneHasNoFault(setup, jobs, r.error); }
  }

  // ---- the order of a batch -----------------------------------------------

  /** The files of a batch in the order given. */
  function Given(jobs: seq<Job>): seq<SmallFile> {
    if jobs == [] then [] else Given(jobs[..|jobs| - 1]) + [FileOf(jobs[|jobs| - 1])]
  }

  /** At every path with a small job, the last job given there is small too, or has the bytes of the
      last small one. */
  ghost predicate OrderKept(jobs: seq<Job>) {
    forall p :: LastAt(Small(jobs), p).Some? ==> LastAt(Given(jobs), p) == LastAt(Small(jobs), p)
  }

  /** A batch succeeds exactly when its files succeed in the order given, and yields the same tree
      exactly when no path's last small job is overtaken by a large one with other bytes. */
  lemma BatchOrderShows(t: Tree, jobs: seq<Job>)
    ensures AddAll(t, BatchOrder(jobs)).Ok? <==> AddAll(t, Given(jobs)).Ok?
    ensures AddAll(t, Given(jobs)).Ok? ==> (AddAll(t, BatchOrder(jobs)) == AddAll(t, Given(jobs)) <==> OrderKept(jobs))
  {
    hide AddAll, SortBy, Large, Small, LastAt, Given;
    SplitBySize(jobs);
    SortBySameElements(ByPath, Small(jobs));
    AddOrderMatters(t, Given(jobs), BatchOrder(jobs));
    if OrderKept(jobs) {
      forall p
        ensures LastAt(Given(jobs), p) == LastAt(BatchOrder(jobs), p)
      {
        LastInBatch(jobs, p);
      }
    }
    if SameLast(Given(jobs), BatchOrder(jobs)) {
      forall p | LastAt(Small(jobs), p).Some?
        ensures LastAt(Given(jobs), p) == LastAt(Small(jobs), p)
      {
        LastInBatch(jobs, p);
      }
    }
  }

  lemma LastInBatch(jobs: seq<Job>, p: string)
    ensures LastAt(BatchOrder(jobs), p) == if LastAt(Small(jobs), p).Some? then LastAt(Small(jobs), p) else LastAt(Given(jobs), p)
  {
    hide LastAt, SortBy, Large, Small, Given;
    LastAtConcat(Large(jobs), SortBy(ByPath, Small(jobs)), p);
    LastAtSorted(Small(jobs), p);
    LastGiven(jobs, p);
  }

  lemma {:induction false} SplitBySize(jobs: seq<Job>)
    ensures forall f :: f in Given(jobs) <==> f in Large(jobs) || f in Small(jobs)
  {
    hide FileOf, IsSmall;
    if jobs != [] {
      SplitBySize(jobs[..|jobs| - 1]);
    }
  }

  /** Where no job is small, the last job given is the last large one. */
  lemma {:induction false} LastGiven(jobs: seq<Job>, p: string)
    ensures LastAt(Small(jobs), p).None? ==> LastAt(Given(jobs), p) == LastAt(Large(jobs), p)
  {
    hide FileOf, IsSmall, LastAt;
    if jobs != [] {
      var front, f := jobs[..|jobs| - 1], FileOf(jobs[|jobs| - 1]);
      LastGiven(front, p);
      LastAtConcat(Given(front), [f], p);
      LastAtConcat(Small(front), [f], p);
      LastAtConcat(Large(front), [f], p);
      LastAtOne(f, p);
    }
  }

  /** A file and then another, both for `"a"`. */
  function SmallThenLarge(x: Bytes, y: Bytes): seq<Job> {
    [Job(Source(true, |x|, x), "a"), Job(Source(true, |y|, y), "a")]
  }

  lemma SmallThenLargeOrder(x: Bytes, y: Bytes)
    requires |x| < 0x4_0000 <= |y|
    ensures Given(SmallThenLarge(x, y)) == [SmallFile("a", x), SmallFile("a", y)]
    ensures BatchOrder(SmallThenLarge(x, y)) == [SmallFile("a", y), SmallFile("a", x)]
  {
    hide Normalize, SortBy;
    var jobs, fx, fy := SmallThenLarge(x, y), SmallFile("a", x), SmallFile("a", y);
    var small, large := jobs[0], jobs[1];
    NormalizeA();
    NoJobs();
    assert [] + [small] == [small] && [small] + [large] == jobs;
    JobsSnoc([], small);
    JobsSnoc([small], large);
    assert jobs[..1] == [small] && [small][..0] == [];
    assert Given([small]) == [fx];
    SortOne(fx);
  }

  /** The large file is given last, and the small one is what the batch leaves. */
  lemma SmallOvertakes(x: Bytes, y: Bytes)
    requires |x| < 0x4_0000 <= |y|
    ensures var jobs := SmallThenLarge(x, y);
            && AddAll(map[], Given(jobs)) == Ok(map["a" := File(y)])
            && AddAll(map[], BatchOrder(jobs)) == Ok(map["a" := File(x)])
            && !OrderKept(jobs)
  {
    hide SortBy, AddAll, OrderKept, Given, BatchOrder, SmallThenLarge;
    SmallThenLargeOrder(x, y);
    TwoAtOnePath(SmallFile("a", x), SmallFile("a", y));
    TwoAtOnePath(SmallFile("a", y), SmallFile("a", x));
    assert map["a" := File(x)]["a"] != map["a" := File(y)]["a"];
    BatchOrderShows(map[], SmallThenLarge(x, y));
  }

  lemma NormalizeA()
    ensures Normalize("a") == Ok("a")
  {
    hide Normalize;
    PlainNormalizes("a");
  }

  lemma SortOne(f: SmallFile)
    ensures SortBy(ByPath, [f]) == [f]
  {
    assert [f][..0] == [];
  }

  lemma TwoAtOnePath(f: SmallFile, g: SmallFile)
    requires f.path == g.path == "a"
    ensures AddAll(map[], [f, g]) == Ok(map["a" := File(g.bytes)])
  {
    assert Ancestors("a") == {};
    var t, u := map["a" := File(f.bytes)], map["a" := File(g.bytes)];
    NoDirs(map[]);
    NoDirs(t);
    assert AddFile(map[], "a", f.bytes) == Ok(t);
    assert t["a" := File(g.bytes)] == u;
    assert AddFile(t, "a", g.bytes) == Ok(u);
    assert [f, g][1..] == [g] && [g][1..] == [];
    assert AddAll(u, []) == Ok(u) && AddAll(t, [g]) == Ok(u);
  }
}
