/** Which rows a plan gets, read off the bundle itself: the trees it carries and
    the before-images it recorded. */
module PlanRows {
  import opened Text
  import opened PathOrder
  import opened PlanDelta

  /** The tree of that digest holds this image under the path. */
  ghost predicate Held(bundle: Bundle, digest: Option<Digest>, path: Path, image: Image) {
    digest.Some? && digest.value in bundle.trees
    && path in bundle.trees[digest.value] && bundle.trees[digest.value][path] == image
  }

  ghost predicate Carries(bundle: Bundle, digest: Option<Digest>, path: Path) {
    exists image :: Held(bundle, digest, path, image)
  }

  /** The plan was made on a disk where the path held these bytes. */
  ghost predicate Recorded(bundle: Bundle, path: Path, blob: Digest) {
    path in bundle.base && bundle.base[path].Present? && bundle.base[path].digest == blob
  }

  ghost predicate NewIn(bundle: Bundle, was: Option<Digest>, now: Digest, path: Path, recorded: bool) {
    !Carries(bundle, was, path)
    && exists image :: Held(bundle, Some(now), path, image) && (Recorded(bundle, path, image.blob) <==> recorded)
  }

  /** The row of a published tree, whose root is not the merge base. */
  ghost predicate TreeSays(bundle: Bundle, was: Option<Digest>, now: Digest, verb: Verb, path: Path) {
    match verb
    case Create => NewIn(bundle, was, now, path, false)
    case Accept => NewIn(bundle, was, now, path, true)
    case Write =>
      exists a, b :: Held(bundle, was, path, a) && Held(bundle, Some(now), path, b)
                     && (a.blob != b.blob || a.mode != b.mode)
    case Delete => Carries(bundle, was, path) && !Carries(bundle, Some(now), path)
    case _ => false
  }

  /** The row of a file that is replaced. */
  ghost predicate FileSays(before: Option<Image>, after: Image, existing: Verb, verb: Verb) {
    (before == None && verb == Create)
    || (before.Some? && (before.value.blob != after.blob || before.value.mode != after.mode) && verb == existing)
  }

  ghost predicate RowSays(bundle: Bundle, op: Operation, verb: Verb, path: Path) {
    match op
    case PublishMergedTree(root, was, now) => root != ".jails/base" && TreeSays(bundle, was, now, verb, path)
    case ReplaceModelFile(p, before, after) => path == p && FileSays(before, after, Write, verb)
    case ReplaceStateFile(p, before, after) => path == p && FileSays(before, after, Write, verb)
    case PatchReaderFile(p, before, after) => path == p && FileSays(before, after, Patch, verb)
    case RemoveFile(p, _) => path == p && verb == Delete
    case AppendMigration(p, _) => path == p && verb == Append
  }

  lemma {:induction false} EntriesAre(bundle: Bundle, digest: Option<Digest>, path: Path)
    ensures Carries(bundle, digest, path) <==> path in Entries(bundle, digest)
    ensures forall image :: Held(bundle, digest, path, image) <==> Lookup(Entries(bundle, digest), path) == Some(image)
  {
    if path in Entries(bundle, digest) { assert Held(bundle, digest, path, Entries(bundle, digest)[path]); }
  }

  lemma {:induction false} VerbIff(bundle: Bundle, was: Option<Digest>, now: Digest, verb: Verb, path: Path)
    requires Carries(bundle, was, path) || Carries(bundle, Some(now), path)
    ensures TreeVerb(bundle, Lookup(Entries(bundle, was), path), Lookup(Entries(bundle, Some(now)), path), path)
            == Some(verb)
            <==> TreeSays(bundle, was, now, verb, path)
  {
    EntriesAre(bundle, was, path);
    EntriesAre(bundle, Some(now), path);
    hide Entries, Held;
  }

  /** The rows of an operation are exactly the ones the bundle says. */
  lemma {:induction false} RowIff(bundle: Bundle, op: Operation, verb: Verb, path: Path)
    ensures Change(verb, path) in RowsOf(bundle, op) <==> RowSays(bundle, op, verb, path)
  {
    hide TreeRows, Sorted, TreeVerb, TreeSays, Entries;
    if op.PublishMergedTree? && op.root != ".jails/base" {
      var was, now := Entries(bundle, op.was), Entries(bundle, Some(op.now));
      EntriesAre(bundle, op.was, path);
      EntriesAre(bundle, Some(op.now), path);
      TreeRowMeans(bundle, was, now, Sorted(was.Keys + now.Keys), verb, path);
      if path in was || path in now {
        VerbIff(bundle, op.was, op.now, verb, path);
      } else {
        NothingSaid(bundle, op.was, op.now, verb, path);
      }
    }
  }

  lemma {:induction false} NothingSaid(bundle: Bundle, was: Option<Digest>, now: Digest, verb: Verb, path: Path)
    requires !Carries(bundle, was, path) && !Carries(bundle, Some(now), path)
    ensures !TreeSays(bundle, was, now, verb, path)
  {
    hide Held;
  }

  // ---- order ----

  predicate PathsAscend(rows: seq<Change>) {
    forall i, j | 0 <= i < j < |rows| :: Less(rows[i].path, rows[j].path)
  }

  lemma {:induction false} TreeRowsAscend(bundle: Bundle, was: Tree, now: Tree, paths: seq<Path>)
    requires Ascending(paths)
    ensures PathsAscend(TreeRows(bundle, was, now, paths))
    ensures forall row | row in TreeRows(bundle, was, now, paths) :: row.path in paths
  {
    hide TreeVerb, Less;
    if paths != [] { TreeRowsAscend(bundle, was, now, paths[1..]); }
  }

  /** The rows of one operation ascend by path, so a path has one row at most. */
  lemma {:induction false} RowsAscend(bundle: Bundle, op: Operation)
    ensures PathsAscend(RowsOf(bundle, op))
  {
    hide TreeRows, Sorted, Less;
    if op.PublishMergedTree? && !OnMergeBase(op) {
      var was, now := Entries(bundle, op.was), Entries(bundle, Some(op.now));
      TreeRowsAscend(bundle, was, now, Sorted(was.Keys + now.Keys));
    }
  }

  // ---- accepted or created ----

  /** A new path is accepted exactly when the base records it with the new bytes;
      on the disk the plan was made against, a captured one is accepted exactly
      when the bytes are there, and created exactly when they are not. */
  lemma {:induction false} AcceptIffThere(disk: Disk, bundle: Bundle, op: Operation, path: Path, image: Image)
    requires op.PublishMergedTree? && op.root != ".jails/base"
    requires !Carries(bundle, op.was, path) && Held(bundle, Some(op.now), path, image)
    ensures Change(Accept, path) in RowsOf(bundle, op) <==> Recorded(bundle, path, image.blob)
    ensures Change(Create, path) in RowsOf(bundle, op) <==> !Recorded(bundle, path, image.blob)
    ensures MatchesBase(disk, bundle) && path in bundle.base ==>
              (Change(Accept, path) in RowsOf(bundle, op) <==> path in disk && disk[path].blob == image.blob)
              && (Change(Create, path) in RowsOf(bundle, op) <==> !(path in disk && disk[path].blob == image.blob))
  {
    hide RowsOf, Carries;
    RowIff(bundle, op, Accept, path);
    RowIff(bundle, op, Create, path);
  }

  // ---- what is left alone ----

  ghost function KeptPaths(bundle: Bundle, was: Option<Digest>, now: Digest): set<Path> {
    set path | path in Entries(bundle, was) && path in Entries(bundle, Some(now))
               && Entries(bundle, was)[path] == Entries(bundle, Some(now))[path]
  }

  /** The paths an operation carries and leaves alone. */
  ghost function IdleOf(bundle: Bundle, op: Operation): nat {
    match op
    case PublishMergedTree(root, was, now) => if root == ".jails/base" then 0 else |KeptPaths(bundle, was, now)|
    case ReplaceModelFile(_, before, after) => if before == Some(after) then 1 else 0
    case ReplaceStateFile(_, before, after) => if before == Some(after) then 1 else 0
    case PatchReaderFile(_, before, after) => if before == Some(after) then 1 else 0
    case _ => 0
  }

  ghost function Idle(bundle: Bundle, ops: seq<Operation>): nat {
    if ops == [] then 0 else Idle(bundle, ops[..|ops| - 1]) + IdleOf(bundle, ops[|ops| - 1])
  }

  ghost function SameIn(was: Tree, now: Tree, paths: seq<Path>): set<Path> {
    set path | path in paths && path in was && path in now && was[path] == now[path]
  }

  lemma {:induction false} TreeRowsCount(bundle: Bundle, was: Tree, now: Tree, paths: seq<Path>)
    requires Ascending(paths)
    ensures |TreeRows(bundle, was, now, paths)| + |SameIn(was, now, paths)| == |paths|
  {
    hide Less;
    if paths != [] {
      var path, rest := paths[0], paths[1..];
      HeadNotInTail(paths);
      TreeRowsCount(bundle, was, now, rest);
      assert forall p :: p in paths <==> p == path || p in rest;
      if path in was && path in now && was[path] == now[path] {
        assert SameIn(was, now, paths) == SameIn(was, now, rest) + {path};
      } else {
        assert SameIn(was, now, paths) == SameIn(was, now, rest);
      }
    }
  }

  lemma {:induction false} RowsAndIdle(bundle: Bundle, op: Operation)
    ensures |RowsOf(bundle, op)| + IdleOf(bundle, op) == if OnMergeBase(op) then 0 else |Touched(bundle, op)|
  {
    hide TreeRows, Sorted, Less;
    if op.PublishMergedTree? && !OnMergeBase(op) {
      var was, now := Entries(bundle, op.was), Entries(bundle, Some(op.now));
      var paths := Sorted(was.Keys + now.Keys);
      TreeRowsCount(bundle, was, now, paths);
      assert SameIn(was, now, paths) == KeptPaths(bundle, op.was, op.now);
    }
  }

  lemma {:induction false} IdleIsTheRest(bundle: Bundle, ops: seq<Operation>)
    ensures |Rows(bundle, ops)| + Idle(bundle, ops) == Carried(bundle, ops)
  {
    hide RowsOf, IdleOf, Touched, OnMergeBase;
    if ops != [] {
      IdleIsTheRest(bundle, ops[..|ops| - 1]);
      RowsAndIdle(bundle, ops[|ops| - 1]);
    }
  }

  // ---- the whole plan ----

  /** Each operation's rows, in operation order. */
  ghost predicate OperationByOperation(bundle: Bundle, ops: seq<Operation>, rows: seq<seq<Change>>) {
    |rows| == |ops|
    && forall n | 0 <= n < |ops| ::
         PathsAscend(rows[n])
         && forall verb, path :: Change(verb, path) in rows[n] <==> RowSays(bundle, ops[n], verb, path)
  }

  function Flat(rows: seq<seq<Change>>): seq<Change> {
    if rows == [] then [] else Flat(rows[..|rows| - 1]) + rows[|rows| - 1]
  }

  lemma {:induction false} RowsAreFlat(bundle: Bundle, ops: seq<Operation>) returns (rows: seq<seq<Change>>)
    ensures OperationByOperation(bundle, ops, rows) && Rows(bundle, ops) == Flat(rows)
  {
    hide RowsOf, RowSays, PathsAscend;
    if ops == [] {
      rows := [];
    } else {
      var init, op := ops[..|ops| - 1], ops[|ops| - 1];
      var before := RowsAreFlat(bundle, init);
      rows := before + [RowsOf(bundle, op)];
      RowsAscend(bundle, op);
      forall verb, path ensures Change(verb, path) in RowsOf(bundle, op) <==> RowSays(bundle, op, verb, path) {
        RowIff(bundle, op, verb, path);
      }
      assert rows[..|rows| - 1] == before;
    }
  }

  /** The walk: each operation's rows in operation order, and the number of paths
      that are carried and left alone. */
  method Preview(bundle: Bundle) returns (delta: Delta)
    ensures delta.changes == Rows(bundle, bundle.operations)
    ensures |delta.changes| + delta.idle == Carried(bundle, bundle.operations)
    ensures exists rows :: OperationByOperation(bundle, bundle.operations, rows) && delta.changes == Flat(rows)
    ensures delta.idle == Idle(bundle, bundle.operations)
  {
    hide TreeRows, Sorted, Entries, VerbFor, OneRow, Report, Rows, Carried, Idle, Flat, OperationByOperation;
    delta := Delta([], 0);
    NoRows(bundle);
    for n := 0 to |bundle.operations|
      invariant delta.changes == Rows(bundle, bundle.operations[..n])
      invariant |delta.changes| + delta.idle == Carried(bundle, bundle.operations[..n])
    {
      RowsStep(bundle, bundle.operations, n);
      match bundle.operations[n]
      case PublishMergedTree(root, before, after) =>
        if root != BASE_ROOT {
          delta := PreviewTree(bundle, Entries(bundle, before), Entries(bundle, Some(after)), delta);
        }
      case ReplaceModelFile(path, before, after) =>
        delta := Report(delta, VerbFor(before, after, Write), path);
      case ReplaceStateFile(path, before, after) =>
        delta := Report(delta, VerbFor(before, after, Write), path);
      case PatchReaderFile(path, before, after) =>
        delta := Report(delta, VerbFor(before, after, Patch), path);
      case RemoveFile(path, _) =>
        OneRowIs(Delete, path);
        delta := Report(delta, Some(Delete), path);
      case AppendMigration(path, _) =>
        OneRowIs(Append, path);
        delta := Report(delta, Some(Append), path);
    }
    assert bundle.operations[..|bundle.operations|] == bundle.operations;
    var rows := RowsAreFlat(bundle, bundle.operations);
    IdleIsTheRest(bundle, bundle.operations);
  }

  // ---- the sweep ----

  /** What the sweep takes of one operation, the merge base included. */
  lemma {:induction false} SweepIff(bundle: Bundle, op: Operation, path: Path)
    ensures path in DeletedBy(bundle, op)
            <==> (op.PublishMergedTree? && Carries(bundle, op.was, path) && !Carries(bundle, Some(op.now), path))
                 || (op.RemoveFile? && path == op.path)
    ensures Ascending(DeletedBy(bundle, op))
  {
    hide Sorted, Entries, Less;
    if op.PublishMergedTree? {
      EntriesAre(bundle, op.was, path);
      EntriesAre(bundle, Some(op.now), path);
    }
  }
}
