/** Operations, on the plain map. */
module Runs {
  import opened Wrappers
  import opened Paths
  import opened VaultTypes
  import opened Trees
  import opened Directories
  import opened FileSteps
  import opened PackSteps
  import opened Batches
  import opened Collection
  import opened Relocation
  import opened Extraction

  datatype Op =
    | Add(jobs: seq<Job>)
    | MakeDirectory(path: string)
    | Delete(names: seq<string>, recursive: bool)
    | MoveTo(from: string, to: string)
    | CopyTo(from: string, to: string)

  /** The operation names only good paths where it would create entries, and moves from a good one. */
  predicate GoodOp(op: Op) {
    match op
    case Add(jobs) => forall j :: j in jobs ==> GoodJob(j)
    case MakeDirectory(path) => GoodArg(path)
    case Delete(_, _) => true
    case MoveTo(from, to) => GoodArg(from) && GoodArg(to)
    case CopyTo(from, to) => GoodArg(from) && GoodArg(to)
  }

  /** A move or copy names good paths; anything else may name any. */
  predicate Runnable(op: Op) {
    op.MoveTo? || op.CopyTo? ==> GoodArg(op.from) && GoodArg(op.to)
  }

  /** An operation on the plain map. */
  function ApplyOp(t: Tree, op: Op): Result<Tree, VaultError> {
    match op
    case Add(jobs) => AddAll(t, BatchOrder(jobs))
    case MakeDirectory(path) =>
      (match Normalize(path)
       case Ok(q) => Mkdir(t, q)
       case Err(_) => Err(BadPath))
    case Delete(names, recursive) => DeleteAll(t, names, recursive)
    case MoveTo(from, to) => MoveArgs(t, from, to)
    case CopyTo(from, to) => CopyArgs(t, from, to)
  }

  function ApplyAll(t: Tree, ops: seq<Op>): Result<Tree, VaultError> {
    if ops == [] then Ok(t)
    else
      match ApplyAll(t, ops[..|ops| - 1])
      case Err(e) => Err(e)
      case Ok(t1) => ApplyOp(t1, ops[|ops| - 1])
  }

  // ---- failures -----------------------------------------------------------

  /** What is left on the plain map when an operation fails: the files or the deletions before the one that failed,
      and otherwise what was there. */
  function Left(t: Tree, op: Op): Tree {
    match op
    case Add(jobs) => AddedUpTo(t, BatchOrder(jobs))
    case Delete(names, recursive) => DeletedUpTo(t, names, recursive)
    case _ => t
  }

  /** An operation on the plain map, failed or not. */
  function Outcome(t: Tree, op: Op): (Tree, Result<(), VaultError>) {
    match ApplyOp(t, op)
    case Ok(after) => (after, Ok(()))
    case Err(e) => (Left(t, op), Err(e))
  }

  /** Operations on the plain map one after the other, whether or not they fail. */
  function PlainRun(t: Tree, ops: seq<Op>): (Tree, seq<Result<(), VaultError>>) {
    if ops == [] then (t, [])
    else
      var (before, results) := PlainRun(t, ops[..|ops| - 1]);
      var (after, r) := Outcome(before, ops[|ops| - 1]);
      (after, results + [r])
  }

  /** Outside the tree, there is this reason for the operation to fail. Collecting chunks after a deletion can fail
      unless every block fits. */
  ghost predicate Faulty(setup: Setup, op: Op, e: VaultError) {
    match op
    case Add(jobs) => BatchFault(setup, jobs, e)
    case Delete(_, _) => e == LengthMismatch && !BlocksFit(setup)
    case _ => false
  }

  /** Outside the tree there is none: every file of a batch can be read and stored, and blocks fit. */
  ghost predicate SaneOp(setup: Setup, op: Op) {
    match op
    case Add(jobs) => SaneBatch(setup, jobs)
    case Delete(_, _) => BlocksFit(setup)
    case _ => true
  }

  // ---- one step -----------------------------------------------------------

  /** What a failed operation leaves behind, whatever the reason: an addition the other paths and new directories; a
      deletion the deletions before the one that failed; the others nothing. */
  ghost predicate Remains(t: Tree, op: Op, after: Tree) {
    match op
    case Add(jobs) => Spared(t, PathsOf(BatchOrder(jobs)), after)
    case _ => after == Left(t, op)
  }

  /** An operation took effect as on the plain map; or it failed, for the reason the plain map gives and leaving what that
      leaves, or for one from outside the tree. */
  ghost predicate StepOk(setup: Setup, t: Tree, op: Op, r: Result<(), VaultError>, after: Tree) {
    && TreeOk(after)
    && (r.Ok? ==> ApplyOp(t, op) == Ok(after))
    && (r.Err? ==> Remains(t, op, after))
    && (r.Err? ==> Faulty(setup, op, r.error) || (ApplyOp(t, op) == Err(r.error) && after == Left(t, op)))
  }

  /** What an operation can do to any tree, well formed or not, whether or not it succeeds. */
  ghost predicate StepAny(t: Tree, op: Op, r: Result<(), VaultError>, after: Tree) {
    match op
    case Add(jobs) => Spared(t, PathsOf(BatchOrder(jobs)), after)
    case MakeDirectory(_) => Spared(t, {}, after) && (r.Err? ==> after == t)
    case Delete(names, recursive) =>
      after == DeletedUpTo(t, names, recursive) && (r.Ok? ==> DeleteAll(t, names, recursive) == Ok(after))
    case MoveTo(from, to) =>
      if r.Ok? && Apart(from, to) then Carried(t, Normalize(from).value, Normalize(to).value, after) else after == t
    case CopyTo(from, to) =>
      if r.Ok? && Apart(from, to) then Duplicated(t, Normalize(from).value, Normalize(to).value, after) else after == t
  }

  /** The first steps of a run, and the trees between them. `apart` says that no two chunks collided. */
  ghost predicate RunSoFar(setup: Setup, apart: bool, trees: seq<Tree>, ops: seq<Op>, results: seq<Result<(), VaultError>>) {
    && |trees| == |results| + 1 && |results| <= |ops|
    && forall i :: 0 <= i < |results| ==> RunStep(setup, apart, trees[i], ops[i], results[i], trees[i + 1])
  }

  ghost predicate RunStep(setup: Setup, apart: bool, t: Tree, op: Op, r: Result<(), VaultError>, after: Tree) {
    StepAny(t, op, r, after) && (apart && TreeOk(t) && GoodOp(op) ==> StepOk(setup, t, op, r, after))
  }

  /** A run: every step of it. */
  ghost predicate RunOk(setup: Setup, apart: bool, trees: seq<Tree>, ops: seq<Op>, results: seq<Result<(), VaultError>>) {
    RunSoFar(setup, apart, trees, ops, results) && |results| == |ops|
  }

  lemma RunNone(setup: Setup, apart: bool, t: Tree, ops: seq<Op>)
    ensures RunSoFar(setup, apart, [t], ops, [])
  {
  }

  lemma RunNext(setup: Setup, before: bool, apart: bool, trees: seq<Tree>, ops: seq<Op>, results: seq<Result<(), VaultError>>,
                r: Result<(), VaultError>, after: Tree)
    requires RunSoFar(setup, before, trees, ops, results) && |results| < |ops| && (apart ==> before)
    requires RunStep(setup, apart, trees[|results|], ops[|results|], r, after)
    ensures RunSoFar(setup, apart, trees + [after], ops, results + [r])
  {
    hide StepOk, StepAny, GoodOp, TreeOk;
  }

  /** When every operation is good and none fails, the run ends where the same operations take the plain map. */
  lemma {:induction false} AllSucceed(setup: Setup, trees: seq<Tree>, ops: seq<Op>, results: seq<Result<(), VaultError>>)
    requires RunOk(setup, true, trees, ops, results) && TreeOk(trees[0])
    requires (forall r :: r in results ==> r.Ok?) && forall op :: op in ops ==> GoodOp(op)
    ensures ApplyAll(trees[0], ops) == Ok(trees[|ops|]) && TreeOk(trees[|ops|])
  {
    hide ApplyOp, TreeOk, Remains, StepAny, GoodOp;
    if ops != [] {
      var k := |ops| - 1;
      assert results[k] in results && ops[k] in ops;
      assert RunOk(setup, true, trees[..k + 1], ops[..k], results[..k]);
      AllSucceed(setup, trees[..k + 1], ops[..k], results[..k]);
    }
  }

  /** With no reason to fail from outside, a step is the plain map's, failed or not. */
  lemma SaneStep(setup: Setup, t: Tree, op: Op, r: Result<(), VaultError>, after: Tree)
    requires StepOk(setup, t, op, r, after)
    ensures SaneOp(setup, op) ==> (after, r) == Outcome(t, op)
  {
    hide ApplyOp, Left, TreeOk, Remains, SaneBatch, BatchFault, BlocksFit;
    if SaneOp(setup, op) && r.Err? && op.Add? { SaneHasNoFault(setup, op.jobs, r.error); }
    if r.Ok? { UnitOk(r); }
  }

  /** A run of good operations with no reason to fail from outside is exactly the plain map's: every operation that can succeed
      does, every other fails with its reason, and the tree is what they leave. */
  lemma {:induction false} HealthyRun(setup: Setup, trees: seq<Tree>, ops: seq<Op>, results: seq<Result<(), VaultError>>)
    requires RunOk(setup, true, trees, ops, results) && TreeOk(trees[0])
    requires forall op :: op in ops ==> GoodOp(op) && SaneOp(setup, op)
    ensures (trees[|ops|], results) == PlainRun(trees[0], ops) && TreeOk(trees[|ops|])
  {
    hide Outcome, TreeOk, Remains, StepAny, GoodOp, SaneOp, ApplyOp, Left, Faulty;
    if ops != [] {
      var k := |ops| - 1;
      assert ops[k] in ops;
      assert RunOk(setup, true, trees[..k + 1], ops[..k], results[..k]);
      HealthyRun(setup, trees[..k + 1], ops[..k], results[..k]);
      SaneStep(setup, trees[k], ops[k], results[k], trees[k + 1]);
      assert results == results[..k] + [results[k]];
    }
  }

  /** The operation names neither the path nor anything above it to be taken away or replaced. */
  ghost predicate Leaves(op: Op, p: string) {
    match op
    case Add(jobs) => p !in PathsOf(BatchOrder(jobs))
    case MakeDirectory(_) => true
    case Delete(names, _) => forall name :: name in names && Normalize(name).Ok? ==> !AtOrBelow(p, Normalize(name).value)
    case MoveTo(from, to) => Normalize(from).Ok? ==> !AtOrBelow(p, Normalize(from).value)
    case CopyTo(_, _) => true
  }

  /** Whatever the outcomes, and whether or not the operations are good, a path no operation of the run names,
      nor anything above it, to be taken away or replaced, is there at the end as it was at the start. */
  lemma {:induction false} RunLeaves(setup: Setup, apart: bool, trees: seq<Tree>, ops: seq<Op>, results: seq<Result<(), VaultError>>, p: string)
    requires RunOk(setup, apart, trees, ops, results) && p in trees[0]
    requires forall op :: op in ops ==> Leaves(op, p)
    ensures p in trees[|ops|] && trees[|ops|][p] == trees[0][p]
  {
    hide StepOk, StepAny, TreeOk, Leaves, GoodOp;
    if ops != [] {
      var k := |ops| - 1;
      assert RunOk(setup, apart, trees[..k + 1], ops[..k], results[..k]);
      RunLeaves(setup, apart, trees[..k + 1], ops[..k], results[..k], p);
      assert ops[k] in ops;
      StepLeaves(trees[k], ops[k], results[k], trees[k + 1], p);
    }
  }

  lemma StepLeaves(t: Tree, op: Op, r: Result<(), VaultError>, after: Tree, p: string)
    requires StepAny(t, op, r, after) && p in t && Leaves(op, p)
    ensures p in after && after[p] == t[p]
  {
    hide Normalize, DeleteAll, DeletedUpTo, AtOrBelow, PathsOf, BatchOrder, Grew;
    match op
    case Delete(names, recursive) =>
      UpToLeaves(t, names, recursive, p);
    case _ =>
  }

  lemma {:induction false} UpToLeaves(t: Tree, names: seq<string>, recursive: bool, p: string)
    requires p in t && forall name :: name in names && Normalize(name).Ok? ==> !AtOrBelow(p, Normalize(name).value)
    ensures var after := DeletedUpTo(t, names, recursive); p in after && after[p] == t[p]
  {
    hide Normalize, DeleteAll, AtOrBelow;
    if DeleteAll(t, names, recursive).Ok? {
      DeleteLeaves(t, names, recursive, p);
    } else if names != [] {
      UpToLeaves(t, names[..|names| - 1], recursive, p);
    }
  }

  lemma {:induction false} DeleteLeaves(t: Tree, names: seq<string>, recursive: bool, p: string)
    requires DeleteAll(t, names, recursive).Ok? && p in t
    requires forall name :: name in names && Normalize(name).Ok? ==> !AtOrBelow(p, Normalize(name).value)
    ensures var after := DeleteAll(t, names, recursive).value; p in after && after[p] == t[p]
  {
    hide Normalize, IsDescendant, HasChildren;
    if names != [] {
      DeleteLeaves(t, names[..|names| - 1], recursive, p);
      assert names[|names| - 1] in names;
    }
  }

  lemma AddStep(setup: Setup, t: Tree, jobs: seq<Job>, r: Result<(), VaultError>, after: Tree)
    requires AddAllDone(t, BatchOrder(jobs), r, after) && LandedAll(t, BatchOrder(jobs), r, after, false) && TreeOk(after)
    requires r.Err? && r.error in ENVIRONMENT ==> BatchFault(setup, jobs, r.error)
    ensures StepOk(setup, t, Add(jobs), r, after)
  {
    hide AddAll, AddedUpTo, BatchOrder, BatchFault, TreeOk, Spared, LandedAt;
  }

  lemma MkdirOpStep(setup: Setup, t: Tree, path: string, made: Result<bool, VaultError>, after: Tree)
    requires Normalize(path).Ok? ==> MkdirDone(t, Normalize(path).value, made, after)
    requires Normalize(path).Err? ==> made == Err(BadPath) && after == t
    requires TreeOk(after)
    ensures StepOk(setup, t, MakeDirectory(path), if made.Ok? then Ok(()) else Err(made.error), after)
  {
    hide Normalize, Mkdir, TreeOk;
  }

  lemma DeleteOpStep(setup: Setup, t: Tree, names: seq<string>, recursive: bool, removed: Result<nat, VaultError>, after: Tree)
    requires removed.Ok? ==> DeleteAll(t, names, recursive) == Ok(after)
    requires after == DeletedUpTo(t, names, recursive)
    requires removed.Err? ==>
               DeleteAll(t, names, recursive) == Err(removed.error) || (removed.error == LengthMismatch && !BlocksFit(setup))
    requires TreeOk(after)
    ensures StepOk(setup, t, Delete(names, recursive), if removed.Ok? then Ok(()) else Err(removed.error), after)
  {
    hide DeleteAll, TreeOk, DeletedUpTo, BlocksFit;
  }

  lemma MoveStep(setup: Setup, t: Tree, from: string, to: string, r: Result<(), VaultError>, after: Tree)
    requires TreeOk(after)
    ensures Relocates(MoveArgs(t, from, to), r, after) && (r.Err? ==> after == t) ==> StepOk(setup, t, MoveTo(from, to), r, after)
    ensures Relocates(CopyArgs(t, from, to), r, after) && (r.Err? ==> after == t) ==> StepOk(setup, t, CopyTo(from, to), r, after)
  {
    hide MoveArgs, CopyArgs, TreeOk;
  }
}
