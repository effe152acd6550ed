/** What a plan changes: the preview's rows, the deletion sweep and the counts,
    against what the executor does to the disk. */
module PlanDelta {
  import opened Text
  import opened PathOrder

  type Path = string
  type Digest = string

  datatype FileMode = Regular | Executable

  /** A file's bytes, by digest, and its mode. */
  datatype Image = Image(blob: Digest, mode: FileMode)

  type Tree = map<Path, Image>

  datatype Operation =
    | ReplaceModelFile(path: Path, before: Option<Image>, after: Image)
    | PublishMergedTree(root: Path, was: Option<Digest>, now: Digest)
    | AppendMigration(path: Path, after: Image)
    | ReplaceStateFile(path: Path, before: Option<Image>, after: Image)
    | PatchReaderFile(path: Path, before: Option<Image>, after: Image)
    | RemoveFile(path: Path, removed: Image)

  datatype Precondition = Missing | Present(digest: Digest, executable: bool)

  datatype Bundle = Bundle(
    operations: seq<Operation>,
    base: map<Path, Precondition>,
    trees: map<Digest, Tree>)

  datatype Verb = Create | Accept | Write | Patch | Append | Delete

  datatype Change = Change(verb: Verb, path: Path)

  datatype Delta = Delta(changes: seq<Change>, idle: nat)

  const BASE_ROOT := ".jails/base"

  function Entries(bundle: Bundle, digest: Option<Digest>): Tree {
    if digest.Some? && digest.value in bundle.trees then bundle.trees[digest.value] else map[]
  }

  // ---- the rows ----

  /** The file is already there with exactly these bytes. */
  predicate Accepted(bundle: Bundle, path: Path, entry: Image) {
    path in bundle.base && bundle.base[path].Present? && bundle.base[path].digest == entry.blob
  }

  /** The verb of one path of a published tree, or none when it stays. */
  function TreeVerb(bundle: Bundle, was: Option<Image>, now: Option<Image>, path: Path): Option<Verb> {
    match (was, now)
    case (None, Some(entry)) => if Accepted(bundle, path, entry) then Some(Accept) else Some(Create)
    case (None, None) => Some(Create)
    case (Some(a), Some(b)) => if a == b then None else Some(Write)
    case (Some(_), None) => Some(Delete)
  }

  function VerbFor(before: Option<Image>, after: Image, existing: Verb): Option<Verb> {
    match before
    case None => Some(Create)
    case Some(image) => if image == after then None else Some(existing)
  }

  function TreeRows(bundle: Bundle, was: Tree, now: Tree, paths: seq<Path>): seq<Change> {
    if paths == [] then []
    else
      var verb := TreeVerb(bundle, Lookup(was, paths[0]), Lookup(now, paths[0]), paths[0]);
      (if verb.None? then [] else [Change(verb.value, paths[0])]) + TreeRows(bundle, was, now, paths[1..])
  }

  function OneRow(verb: Option<Verb>, path: Path): seq<Change> {
    if verb.None? then [] else [Change(verb.value, path)]
  }

  function RowsOf(bundle: Bundle, op: Operation): seq<Change> {
    match op
    case PublishMergedTree(root, before, after) =>
      if root == BASE_ROOT then []
      else
        var was, now := Entries(bundle, before), Entries(bundle, Some(after));
        TreeRows(bundle, was, now, Sorted(was.Keys + now.Keys))
    case ReplaceModelFile(path, before, after) => OneRow(VerbFor(before, after, Write), path)
    case ReplaceStateFile(path, before, after) => OneRow(VerbFor(before, after, Write), path)
    case PatchReaderFile(path, before, after) => OneRow(VerbFor(before, after, Patch), path)
    case RemoveFile(path, _) => [Change(Delete, path)]
    case AppendMigration(path, _) => [Change(Append, path)]
  }

  /** Every path an operation carries, changed or not. */
  function Touched(bundle: Bundle, op: Operation): set<Path> {
    match op
    case PublishMergedTree(_, before, after) =>
      Entries(bundle, before).Keys + Entries(bundle, Some(after)).Keys
    case _ => {op.path}
  }

  predicate OnMergeBase(op: Operation) {
    op.PublishMergedTree? && op.root == BASE_ROOT
  }

  function Rows(bundle: Bundle, ops: seq<Operation>): seq<Change> {
    if ops == [] then [] else Rows(bundle, ops[..|ops| - 1]) + RowsOf(bundle, ops[|ops| - 1])
  }

  /** Every path each reported operation carries, counted per operation. */
  function Carried(bundle: Bundle, ops: seq<Operation>): nat {
    if ops == [] then 0
    else
      var op := ops[|ops| - 1];
      Carried(bundle, ops[..|ops| - 1]) + (if OnMergeBase(op) then 0 else |Touched(bundle, op)|)
  }

  lemma {:induction false} TreeRowsAppend(bundle: Bundle, was: Tree, now: Tree, paths: seq<Path>, path: Path)
    ensures TreeRows(bundle, was, now, paths + [path])
            == TreeRows(bundle, was, now, paths)
               + OneRow(TreeVerb(bundle, Lookup(was, path), Lookup(now, path), path), path)
  {
    hide TreeVerb;
    if paths == [] {
      assert paths + [path] == [path];
    } else {
      assert (paths + [path])[1..] == paths[1..] + [path];
      TreeRowsAppend(bundle, was, now, paths[1..], path);
      Assoc(OneRow(TreeVerb(bundle, Lookup(was, paths[0]), Lookup(now, paths[0]), paths[0]), paths[0]),
            TreeRows(bundle, was, now, paths[1..]),
            OneRow(TreeVerb(bundle, Lookup(was, path), Lookup(now, path), path), path));
    }
  }

  method PreviewTree(bundle: Bundle, was: Tree, now: Tree, delta: Delta) returns (r: Delta)
    ensures r.changes == delta.changes + TreeRows(bundle, was, now, Sorted(was.Keys + now.Keys))
    ensures |r.changes| + r.idle == |delta.changes| + delta.idle + |was.Keys + now.Keys|
  {
    hide TreeVerb, Sorted, TreeRows;
    r := delta;
    var paths := Sorted(was.Keys + now.Keys);
    NoTreeRows(bundle, was, now);
    for i := 0 to |paths|
      invariant r.changes == delta.changes + TreeRows(bundle, was, now, paths[..i])
      invariant |r.changes| + r.idle == |delta.changes| + delta.idle + i
    {
      var path := paths[i];
      assert paths[..i + 1] == paths[..i] + [path];
      TreeRowsAppend(bundle, was, now, paths[..i], path);
      var verb := TreeVerb(bundle, Lookup(was, path), Lookup(now, path), path);
      Assoc(delta.changes, TreeRows(bundle, was, now, paths[..i]), OneRow(verb, path));
      if verb.None? {
        r := r.(idle := r.idle + 1);
      } else {
        r := r.(changes := r.changes + [Change(verb.value, path)]);
      }
    }
    assert paths[..|paths|] == paths;
  }

  lemma {:induction false} NoTreeRows(bundle: Bundle, was: Tree, now: Tree)
    ensures TreeRows(bundle, was, now, []) == []
  {
  }

  function Report(delta: Delta, verb: Option<Verb>, path: Path): (r: Delta)
    ensures r.changes == delta.changes + OneRow(verb, path)
    ensures |r.changes| + r.idle == |delta.changes| + delta.idle + 1
  {
    match verb
    case None => delta.(idle := delta.idle + 1)
    case Some(v) => delta.(changes := delta.changes + [Change(v, path)])
  }

  lemma {:induction false} RowsStep(bundle: Bundle, ops: seq<Operation>, n: nat)
    requires n < |ops|
    ensures Rows(bundle, ops[..n + 1]) == Rows(bundle, ops[..n]) + RowsOf(bundle, ops[n])
    ensures Carried(bundle, ops[..n + 1])
            == Carried(bundle, ops[..n]) + (if OnMergeBase(ops[n]) then 0 else |Touched(bundle, ops[n])|)
  {
    hide RowsOf, Touched, OnMergeBase;
    assert ops[..n + 1][..n] == ops[..n];
  }

  lemma {:induction false} NoRows(bundle: Bundle)
    ensures Rows(bundle, []) == [] && Carried(bundle, []) == 0
  {
  }

  // ---- the disk ----

  type Disk = map<Path, Image>

  /** What the executor leaves behind one operation. */
  function Execute(disk: Disk, bundle: Bundle, op: Operation): Disk {
    match op
    case PublishMergedTree(_, before, after) =>
      var was, now := Entries(bundle, before), Entries(bundle, Some(after));
      (disk - (was.Keys - now.Keys)) + now
    case RemoveFile(path, _) => disk - {path}
    case _ => disk[op.path := op.after]
  }

  function ExecuteAll(disk: Disk, bundle: Bundle, ops: seq<Operation>): Disk {
    if ops == [] then disk
    else Execute(ExecuteAll(disk, bundle, ops[..|ops| - 1]), bundle, ops[|ops| - 1])
  }

  /** The disk holds the before-image the operation recorded. */
  predicate Matches(disk: Disk, bundle: Bundle, op: Operation) {
    match op
    case PublishMergedTree(_, before, _) =>
      var was := Entries(bundle, before);
      forall path | path in was :: path in disk && disk[path] == was[path]
    case AppendMigration(path, _) => path !in disk
    case RemoveFile(path, image) => Lookup(disk, path) == Some(image)
    case _ => Lookup(disk, op.path) == op.before
  }

  /** The disk is the one the plan was made against. */
  predicate MatchesBase(disk: Disk, bundle: Bundle) {
    forall path | path in bundle.base ::
      match bundle.base[path]
      case Missing => path !in disk
      case Present(digest, executable) =>
        path in disk && disk[path].blob == digest && (disk[path].mode == Executable <==> executable)
  }

  predicate HasRow(rows: seq<Change>, path: Path) {
    exists k | 0 <= k < |rows| :: rows[k].path == path
  }

  lemma {:induction false} RowsAppend(rows: seq<Change>, more: seq<Change>, path: Path)
    ensures HasRow(rows + more, path) <==> HasRow(rows, path) || HasRow(more, path)
  {
    if k :| 0 <= k < |rows| && rows[k].path == path { assert (rows + more)[k].path == path; }
    if k :| 0 <= k < |more| && more[k].path == path { assert (rows + more)[|rows| + k].path == path; }
  }

  /** A path of a walked tree has a row exactly when its verb says so. */
  lemma {:induction false} TreeRowsCover(bundle: Bundle, was: Tree, now: Tree, paths: seq<Path>, path: Path)
    ensures HasRow(TreeRows(bundle, was, now, paths), path)
            <==> path in paths && TreeVerb(bundle, Lookup(was, path), Lookup(now, path), path).Some?
  {
    hide TreeVerb;
    if paths != [] {
      TreeRowsCover(bundle, was, now, paths[1..], path);
      var head := OneRow(TreeVerb(bundle, Lookup(was, paths[0]), Lookup(now, paths[0]), paths[0]), paths[0]);
      RowsAppend(head, TreeRows(bundle, was, now, paths[1..]), path);
      if |head| > 0 { assert head[0].path == paths[0]; }
      assert path in paths <==> path == paths[0] || path in paths[1..];
    }
  }

  /** Where an operation has no row for a path, the path's image is the one its
      before-image records. */
  lemma {:induction false} NoRowNoChange(disk: Disk, now: Disk, bundle: Bundle, op: Operation, path: Path)
    requires !OnMergeBase(op) && !HasRow(RowsOf(bundle, op), path)
    requires Matches(disk, bundle, op) && Lookup(now, path) == Lookup(disk, path)
    ensures Lookup(Execute(now, bundle, op), path) == Lookup(disk, path)
  {
    hide TreeRows, Sorted, HasRow, OneRow;
    if op.PublishMergedTree? {
      NoTreeRowNoChange(disk, now, bundle, op, path);
    } else {
      match op
      case RemoveFile(p, _) => OneRowHas(Some(Delete), p); OneRowIs(Delete, p);
      case AppendMigration(p, _) => OneRowHas(Some(Append), p); OneRowIs(Append, p);
      case ReplaceModelFile(p, before, after) => OneRowHas(VerbFor(before, after, Write), p);
      case ReplaceStateFile(p, before, after) => OneRowHas(VerbFor(before, after, Write), p);
      case PatchReaderFile(p, before, after) => OneRowHas(VerbFor(before, after, Patch), p);
    }
  }

  lemma {:induction false} OneRowIs(verb: Verb, path: Path)
    ensures OneRow(Some(verb), path) == [Change(verb, path)]
  {
  }

  lemma {:induction false} RowsOfTree(bundle: Bundle, op: Operation, path: Path)
    requires op.PublishMergedTree? && !OnMergeBase(op)
    ensures
      var was, now := Entries(bundle, op.was), Entries(bundle, Some(op.now));
      RowsOf(bundle, op) == TreeRows(bundle, was, now, Sorted(was.Keys + now.Keys))
      && (path in Sorted(was.Keys + now.Keys) <==> path in was || path in now)
  {
    hide TreeRows, Sorted, Entries;
  }

  lemma {:induction false} TreeKeeps(disk: Disk, now: Disk, bundle: Bundle, op: Operation, path: Path)
    requires op.PublishMergedTree?
    requires Matches(disk, bundle, op) && Lookup(now, path) == Lookup(disk, path)
    requires
      var before, after := Entries(bundle, op.was), Entries(bundle, Some(op.now));
      path in before || path in after ==> TreeVerb(bundle, Lookup(before, path), Lookup(after, path), path).None?
    ensures Lookup(Execute(now, bundle, op), path) == Lookup(disk, path)
  {
    hide Entries, Accepted;
  }

  lemma {:induction false} NoTreeRowNoChange(disk: Disk, now: Disk, bundle: Bundle, op: Operation, path: Path)
    requires op.PublishMergedTree? && !OnMergeBase(op) && !HasRow(RowsOf(bundle, op), path)
    requires Matches(disk, bundle, op) && Lookup(now, path) == Lookup(disk, path)
    ensures Lookup(Execute(now, bundle, op), path) == Lookup(disk, path)
  {
    hide *;
    var before, after := Entries(bundle, op.was), Entries(bundle, Some(op.now));
    RowsOfTree(bundle, op, path);
    TreeRowsCover(bundle, before, after, Sorted(before.Keys + after.Keys), path);
    TreeKeeps(disk, now, bundle, op, path);
  }

  lemma {:induction false} OneRowHas(verb: Option<Verb>, path: Path)
    ensures HasRow(OneRow(verb, path), path) <==> verb.Some?
  {
    if verb.Some? { assert OneRow(verb, path)[0].path == path; }
  }

  /** Executing any operation list from a disk that matches its before-images:
      a path that ends different has a row, unless the merge base carries it. */
  lemma {:induction false} EveryChangeIsARow(disk: Disk, bundle: Bundle, ops: seq<Operation>, path: Path)
    requires forall op | op in ops :: Matches(disk, bundle, op)
    requires Lookup(ExecuteAll(disk, bundle, ops), path) != Lookup(disk, path)
    ensures HasRow(Rows(bundle, ops), path)
            || exists op | op in ops :: OnMergeBase(op) && path in Touched(bundle, op)
  {
    var init, op := ops[..|ops| - 1], ops[|ops| - 1];
    assert forall o | o in init :: o in ops;
    RowsAppend(Rows(bundle, init), RowsOf(bundle, op), path);
    if Lookup(ExecuteAll(disk, bundle, init), path) != Lookup(disk, path) {
      EveryChangeIsARow(disk, bundle, init, path);
    } else if OnMergeBase(op) {
      if path !in Touched(bundle, op) {
        Untouched(ExecuteAll(disk, bundle, init), bundle, op, path);
      }
    } else if !HasRow(RowsOf(bundle, op), path) {
      NoRowNoChange(disk, ExecuteAll(disk, bundle, init), bundle, op, path);
    }
  }

  lemma {:induction false} Untouched(disk: Disk, bundle: Bundle, op: Operation, path: Path)
    requires path !in Touched(bundle, op)
    ensures Lookup(Execute(disk, bundle, op), path) == Lookup(disk, path)
  {
  }

  lemma {:induction false} UntouchedAll(disk: Disk, bundle: Bundle, ops: seq<Operation>, path: Path)
    requires forall op | op in ops :: path !in Touched(bundle, op)
    ensures Lookup(ExecuteAll(disk, bundle, ops), path) == Lookup(disk, path)
  {
    if ops != [] {
      var init, op := ops[..|ops| - 1], ops[|ops| - 1];
      assert forall o | o in init :: o in ops;
      UntouchedAll(disk, bundle, init, path);
      Untouched(ExecuteAll(disk, bundle, init), bundle, op, path);
    }
  }

  /** An `accept` row no earlier operation touched leaves the file's bytes as
      they were; it leaves the mode too exactly when the recorded one agrees. */
  lemma {:induction false} AcceptKeepsBytes(disk: Disk, bundle: Bundle, ops: seq<Operation>, path: Path)
    requires MatchesBase(disk, bundle) && ops != []
    requires Change(Accept, path) in RowsOf(bundle, ops[|ops| - 1])
    requires forall op | op in ops[..|ops| - 1] :: path !in Touched(bundle, op)
    ensures
      var op, after := ops[|ops| - 1], ExecuteAll(disk, bundle, ops);
      path in disk && path in after && path in bundle.base && bundle.base[path].Present?
      && op.PublishMergedTree? && path in Entries(bundle, Some(op.now))
      && after[path].blob == disk[path].blob
      && (after[path] == disk[path]
          <==> (Entries(bundle, Some(op.now))[path].mode == Executable <==> bundle.base[path].executable))
  {
    hide Touched, RowsOf, MatchesBase, Entries, Accepted, Execute, TreeRows, TreeVerb, Sorted, OnMergeBase;
    var op, init := ops[|ops| - 1], ops[..|ops| - 1];
    UntouchedAll(disk, bundle, init, path);
    OnlyTreesAccept(bundle, op, path);
    var was, now := Entries(bundle, op.was), Entries(bundle, Some(op.now));
    RowsOfTree(bundle, op, path);
    TreeRowMeans(bundle, was, now, Sorted(was.Keys + now.Keys), Accept, path);
    AcceptOne(disk, ExecuteAll(disk, bundle, init), bundle, op, path);
  }

  lemma {:induction false} AcceptOne(disk: Disk, now: Disk, bundle: Bundle, op: Operation, path: Path)
    requires MatchesBase(disk, bundle) && Lookup(now, path) == Lookup(disk, path) && op.PublishMergedTree?
    requires
      var before, after := Entries(bundle, op.was), Entries(bundle, Some(op.now));
      (path in before || path in after)
      && TreeVerb(bundle, Lookup(before, path), Lookup(after, path), path) == Some(Accept)
    ensures
      var entries, result := Entries(bundle, Some(op.now)), Execute(now, bundle, op);
      path in disk && path in result && path in bundle.base && bundle.base[path].Present? && path in entries
      && result[path].blob == disk[path].blob
      && (result[path] == disk[path] <==> (entries[path].mode == Executable <==> bundle.base[path].executable))
  {
    hide Entries;
  }

  lemma {:induction false} OnlyTreesAccept(bundle: Bundle, op: Operation, path: Path)
    requires Change(Accept, path) in RowsOf(bundle, op)
    ensures op.PublishMergedTree? && !OnMergeBase(op)
  {
    hide TreeRows, Sorted;
  }

  lemma {:induction false} TreeRowMeans(bundle: Bundle, was: Tree, now: Tree, paths: seq<Path>, verb: Verb, path: Path)
    ensures Change(verb, path) in TreeRows(bundle, was, now, paths)
            <==> path in paths && TreeVerb(bundle, Lookup(was, path), Lookup(now, path), path) == Some(verb)
  {
    hide TreeVerb;
    if paths != [] {
      TreeRowMeans(bundle, was, now, paths[1..], verb, path);
      assert path in paths <==> path == paths[0] || path in paths[1..];
    }
  }

  // ---- the rows tell the truth ----

  /** On a disk that matches: a written or patched path changes, a deleted one
      was there and goes, an appended one was not there and comes. */
  lemma {:induction false} RowsTellTheTruth(disk: Disk, bundle: Bundle, op: Operation, verb: Verb, path: Path)
    requires Matches(disk, bundle, op) && Change(verb, path) in RowsOf(bundle, op)
    ensures
      var before, after := Lookup(disk, path), Lookup(Execute(disk, bundle, op), path);
      match verb
      case Write => before.Some? && after.Some? && before != after
      case Patch => before.Some? && after.Some? && before != after
      case Delete => before.Some? && after.None?
      case Append => before.None? && after.Some?
      case Create => after.Some? && (op.PublishMergedTree? || before.None?)
      case Accept => after.Some?
  {
    hide TreeRows, Sorted, OneRow;
    if op.PublishMergedTree? {
      TreeRowsTellTheTruth(disk, bundle, op, verb, path);
    } else {
      SingleRowMeans(bundle, op, verb, path);
    }
  }

  lemma {:induction false} TreeRowsTellTheTruth(disk: Disk, bundle: Bundle, op: Operation, verb: Verb, path: Path)
    requires op.PublishMergedTree? && Matches(disk, bundle, op) && Change(verb, path) in RowsOf(bundle, op)
    ensures
      var before, after := Lookup(disk, path), Lookup(Execute(disk, bundle, op), path);
      match verb
      case Write => before.Some? && after.Some? && before != after
      case Delete => before.Some? && after.None?
      case Create => after.Some?
      case Accept => after.Some?
      case _ => false
  {
    hide TreeRows, Sorted, Execute, Matches, Entries;
    var was, now := Entries(bundle, op.was), Entries(bundle, Some(op.now));
    TreeImage(disk, bundle, op, path);
    TreeRowsOf(bundle, op);
    TreeRowMeans(bundle, was, now, Sorted(was.Keys + now.Keys), verb, path);
  }

  lemma {:induction false} TreeRowsOf(bundle: Bundle, op: Operation)
    requires op.PublishMergedTree? && RowsOf(bundle, op) != []
    ensures
      var was, now := Entries(bundle, op.was), Entries(bundle, Some(op.now));
      RowsOf(bundle, op) == TreeRows(bundle, was, now, Sorted(was.Keys + now.Keys))
  {
  }

  /** What publishing a tree leaves at one path. */
  lemma {:induction false} TreeImage(disk: Disk, bundle: Bundle, op: Operation, path: Path)
    requires op.PublishMergedTree? && Matches(disk, bundle, op)
    ensures
      var was, now := Entries(bundle, op.was), Entries(bundle, Some(op.now));
      (path in was ==> Lookup(disk, path) == Lookup(was, path))
      && Lookup(Execute(disk, bundle, op), path)
         == if path in now then Lookup(now, path) else if path in was then None else Lookup(disk, path)
  {
  }

  /** What any other operation leaves at one path. */
  lemma {:induction false} FileImage(disk: Disk, bundle: Bundle, op: Operation, path: Path)
    requires !op.PublishMergedTree?
    ensures Lookup(Execute(disk, bundle, op), path)
            == if path != op.path then Lookup(disk, path) else if op.RemoveFile? then None else Some(op.after)
  {
  }

  lemma {:induction false} SingleRowMeans(bundle: Bundle, op: Operation, verb: Verb, path: Path)
    requires !op.PublishMergedTree? && Change(verb, path) in RowsOf(bundle, op)
    ensures path == op.path
    ensures op.ReplaceModelFile? || op.ReplaceStateFile? ==> VerbFor(op.before, op.after, Write) == Some(verb)
    ensures op.PatchReaderFile? ==> VerbFor(op.before, op.after, Patch) == Some(verb)
    ensures op.RemoveFile? ==> verb == Delete
    ensures op.AppendMigration? ==> verb == Append
  {
  }

  // ---- the deletion sweep ----

  function DeletedBy(bundle: Bundle, op: Operation): seq<Path> {
    match op
    case PublishMergedTree(_, before, after) =>
      Sorted(Entries(bundle, before).Keys - Entries(bundle, Some(after)).Keys)
    case RemoveFile(path, _) => [path]
    case _ => []
  }

  function Deleted(bundle: Bundle, ops: seq<Operation>): seq<Path> {
    if ops == [] then [] else Deleted(bundle, ops[..|ops| - 1]) + DeletedBy(bundle, ops[|ops| - 1])
  }

  method DeletedPaths(bundle: Bundle) returns (paths: seq<Path>)
    ensures paths == Deleted(bundle, bundle.operations)
  {
    hide Sorted;
    paths := [];
    for n := 0 to |bundle.operations|
      invariant paths == Deleted(bundle, bundle.operations[..n])
    {
      var op := bundle.operations[n];
      var ops := bundle.operations[..n + 1];
      assert ops[..|ops| - 1] == bundle.operations[..n] && ops[|ops| - 1] == op;
      match op
      case PublishMergedTree(_, before, after) =>
        var was, now := Entries(bundle, before).Keys, Entries(bundle, Some(after)).Keys;
        paths := paths + Sorted(was - now);
      case RemoveFile(path, _) => paths := paths + [path];
      case _ =>
    }
    assert bundle.operations[..|bundle.operations|] == bundle.operations;
  }

  function DeletedPath(row: Change): (r: seq<Path>)
    ensures |r| <= 1
  {
    if row.verb == Delete then [row.path] else []
  }

  /** The paths of the delete rows, in row order. */
  function DeleteRows(rows: seq<Change>): (r: seq<Path>)
    ensures |r| <= |rows|
  {
    if rows == [] then [] else DeletedPath(rows[0]) + DeleteRows(rows[1..])
  }

  lemma {:induction false} DeleteRowsAppend(a: seq<Change>, b: seq<Change>)
    ensures DeleteRows(a + b) == DeleteRows(a) + DeleteRows(b)
  {
    hide DeletedPath;
    if a == [] {
      assert a + b == b;
    } else {
      assert (a + b)[1..] == a[1..] + b;
      DeleteRowsAppend(a[1..], b);
      Assoc(DeletedPath(a[0]), DeleteRows(a[1..]), DeleteRows(b));
    }
  }

  lemma {:induction false} TreeDeleteRows(bundle: Bundle, was: Tree, now: Tree, paths: seq<Path>)
    requires Ascending(paths)
    ensures Ascending(DeleteRows(TreeRows(bundle, was, now, paths)))
    ensures forall p :: p in DeleteRows(TreeRows(bundle, was, now, paths)) <==> p in paths && p in was && p !in now
  {
    hide Less, DeleteRows, TreeRows;
    if paths == [] {
      EmptyTreeDeletes(bundle, was, now);
    } else {
      var rest := paths[1..];
      var more := DeleteRows(TreeRows(bundle, was, now, rest));
      TreeDeleteRows(bundle, was, now, rest);
      TreeDeleteStep(bundle, was, now, paths);
      assert forall p :: p in paths <==> p == paths[0] || p in rest;
      forall i | 0 <= i < |more| ensures Less(paths[0], more[i]) {
        assert more[i] in rest;
      }
    }
  }

  lemma {:induction false} EmptyTreeDeletes(bundle: Bundle, was: Tree, now: Tree)
    ensures DeleteRows(TreeRows(bundle, was, now, [])) == []
  {
  }

  lemma {:induction false} TreeDeleteStep(bundle: Bundle, was: Tree, now: Tree, paths: seq<Path>)
    requires paths != []
    ensures DeleteRows(TreeRows(bundle, was, now, paths))
            == (if paths[0] in was && paths[0] !in now then [paths[0]] else [])
               + DeleteRows(TreeRows(bundle, was, now, paths[1..]))
  {
    var verb := TreeVerb(bundle, Lookup(was, paths[0]), Lookup(now, paths[0]), paths[0]);
    var head := OneRow(verb, paths[0]);
    DeleteRowsAppend(head, TreeRows(bundle, was, now, paths[1..]));
    OneRowDeletes(verb, paths[0]);
  }

  lemma {:induction false} OneRowDeletes(verb: Option<Verb>, path: Path)
    ensures DeleteRows(OneRow(verb, path)) == if verb == Some(Delete) then [path] else []
  {
  }

  lemma {:induction false} OperationDeletes(bundle: Bundle, op: Operation)
    ensures DeleteRows(RowsOf(bundle, op)) == if OnMergeBase(op) then [] else DeletedBy(bundle, op)
  {
    hide Sorted, TreeRows;
    if op.PublishMergedTree? && !OnMergeBase(op) {
      var was, now := Entries(bundle, op.was), Entries(bundle, Some(op.now));
      TreeDeleteRows(bundle, was, now, Sorted(was.Keys + now.Keys));
      AscendingIsUnique(DeleteRows(RowsOf(bundle, op)), DeletedBy(bundle, op));
    }
  }

  lemma {:induction false} SweepCoversRows(bundle: Bundle, ops: seq<Operation>)
    ensures |DeleteRows(Rows(bundle, ops))| <= |Deleted(bundle, ops)|
    ensures |DeleteRows(Rows(bundle, ops))| == |Deleted(bundle, ops)|
            <==> forall op | op in ops && OnMergeBase(op) :: DeletedBy(bundle, op) == []
    ensures (forall op | op in ops && OnMergeBase(op) :: DeletedBy(bundle, op) == []) ==>
              DeleteRows(Rows(bundle, ops)) == Deleted(bundle, ops)
  {
    hide Sorted, RowsOf, DeletedBy;
    if ops != [] {
      var init, op := ops[..|ops| - 1], ops[|ops| - 1];
      SweepCoversRows(bundle, init);
      OperationDeletes(bundle, op);
      DeleteRowsAppend(Rows(bundle, init), RowsOf(bundle, op));
      assert forall o :: o in ops <==> o in init || o == op;
    }
  }

  /** The sweep deletes what the preview lists as deleted, in the same order,
      exactly when no merge-base publication retires a path. */
  lemma {:induction false} SweepIsTheDeleteRows(bundle: Bundle)
    ensures Deleted(bundle, bundle.operations) == DeleteRows(Rows(bundle, bundle.operations))
            <==> forall op | op in bundle.operations && OnMergeBase(op) ::
                   Entries(bundle, op.was).Keys <= Entries(bundle, Some(op.now)).Keys
  {
    SweepCoversRows(bundle, bundle.operations);
    hide Rows, Deleted, DeleteRows, Sorted;
    forall op | op in bundle.operations && OnMergeBase(op)
      ensures DeletedBy(bundle, op) == [] <==> Entries(bundle, op.was).Keys <= Entries(bundle, Some(op.now)).Keys
    {
      NothingRetired(bundle, op);
    }
  }

  lemma {:induction false} NothingRetired(bundle: Bundle, op: Operation)
    requires OnMergeBase(op)
    ensures DeletedBy(bundle, op) == [] <==> Entries(bundle, op.was).Keys <= Entries(bundle, Some(op.now)).Keys
  {
    var gone := Entries(bundle, op.was).Keys - Entries(bundle, Some(op.now)).Keys;
    assert forall p | p in Entries(bundle, op.was).Keys :: p in gone || p in Entries(bundle, Some(op.now)).Keys;
    if gone == {} {
      assert Sorted(gone) == [];
    } else {
      var p :| p in gone;
      assert p in Sorted(gone);
    }
  }

  // ---- the counts ----

  function CountOf(rows: seq<Change>, verb: Verb): nat {
    if rows == [] then 0 else (if rows[0].verb == verb then 1 else 0) + CountOf(rows[1..], verb)
  }

  const VERBS: seq<Verb> := [Create, Accept, Write, Patch, Append, Delete]

  /** What a line of the summary counts: rows of one verb, or paths left alone. */
  datatype Noun = Done(verb: Verb) | LeftAlone

  datatype Count = Count(noun: Noun, count: nat)

  function Total(counts: seq<Count>): nat {
    if counts == [] then 0 else Total(counts[..|counts| - 1]) + counts[|counts| - 1].count
  }

  lemma {:induction false} TotalAppend(counts: seq<Count>, c: Count)
    ensures Total(counts + [c]) == Total(counts) + c.count
  {
    assert (counts + [c])[..|counts|] == counts;
  }

  function CountFirst(rows: seq<Change>, n: nat): nat
    requires n <= |VERBS|
  {
    if n == 0 then 0 else CountFirst(rows, n - 1) + CountOf(rows, VERBS[n - 1])
  }

  lemma {:induction false} VerbsAreAll(rows: seq<Change>)
    ensures CountFirst(rows, |VERBS|) == |rows|
  {
    if rows != [] {
      VerbsAreAll(rows[1..]);
      SixCounts(rows);
      SixCounts(rows[1..]);
    } else {
      SixCounts(rows);
    }
  }

  lemma {:induction false} SixCounts(rows: seq<Change>)
    ensures CountFirst(rows, |VERBS|)
            == CountOf(rows, Create) + CountOf(rows, Accept) + CountOf(rows, Write)
               + CountOf(rows, Patch) + CountOf(rows, Append) + CountOf(rows, Delete)
  {
    assert CountFirst(rows, 1) == CountOf(rows, Create);
    assert CountFirst(rows, 2) == CountFirst(rows, 1) + CountOf(rows, Accept);
    assert CountFirst(rows, 3) == CountFirst(rows, 2) + CountOf(rows, Write);
    assert CountFirst(rows, 4) == CountFirst(rows, 3) + CountOf(rows, Patch);
    assert CountFirst(rows, 5) == CountFirst(rows, 4) + CountOf(rows, Append);
    assert CountFirst(rows, 6) == CountFirst(rows, 5) + CountOf(rows, Delete);
  }

  function OneCount(noun: Noun, found: nat): seq<Count> {
    if found > 0 then [Count(noun, found)] else []
  }

  function CountsUpTo(rows: seq<Change>, n: nat): seq<Count>
    requires n <= |VERBS|
  {
    if n == 0 then []
    else CountsUpTo(rows, n - 1) + OneCount(Done(VERBS[n - 1]), CountOf(rows, VERBS[n - 1]))
  }

  /** What a summary line counts, in its order. */
  function SummaryOf(delta: Delta): seq<Count> {
    CountsUpTo(delta.changes, |VERBS|) + OneCount(LeftAlone, delta.idle)
  }

  method Summary(delta: Delta) returns (counts: seq<Count>)
    ensures counts == SummaryOf(delta)
  {
    counts := [];
    for n := 0 to |VERBS|
      invariant counts == CountsUpTo(delta.changes, n)
    {
      var found := CountOf(delta.changes, VERBS[n]);
      if found > 0 {
        counts := counts + [Count(Done(VERBS[n]), found)];
      }
    }
    if delta.idle > 0 {
      counts := counts + [Count(LeftAlone, delta.idle)];
    }
  }

  lemma {:induction false} TotalOne(counts: seq<Count>, noun: Noun, found: nat)
    ensures Total(counts + OneCount(noun, found)) == Total(counts) + found
  {
    if found > 0 { TotalAppend(counts, Count(noun, found)); } else { assert counts + [] == counts; }
  }

  lemma {:induction false} CountsTotal(rows: seq<Change>, n: nat)
    requires n <= |VERBS|
    ensures Total(CountsUpTo(rows, n)) == CountFirst(rows, n)
    ensures rows == [] ==> CountsUpTo(rows, n) == []
  {
    hide OneCount, Total;
    if n > 0 {
      CountsTotal(rows, n - 1);
      TotalOne(CountsUpTo(rows, n - 1), Done(VERBS[n - 1]), CountOf(rows, VERBS[n - 1]));
      if rows == [] { NotCounted(Done(VERBS[n - 1])); }
    } else {
      NothingTotals();
    }
  }

  lemma {:induction false} NothingTotals()
    ensures Total([]) == 0
  {
  }

  lemma {:induction false} NotCounted(noun: Noun)
    ensures OneCount(noun, 0) == []
  {
  }

  lemma {:induction false} CountsHold(rows: seq<Change>, n: nat)
    requires n <= |VERBS|
    ensures forall c | c in CountsUpTo(rows, n) ::
              c.count > 0 && c.noun.Done? && c.count == CountOf(rows, c.noun.verb)
    ensures forall k | 0 <= k < n && CountOf(rows, VERBS[k]) > 0 ::
              Count(Done(VERBS[k]), CountOf(rows, VERBS[k])) in CountsUpTo(rows, n)
  {
    hide CountOf;
    if n > 0 { CountsHold(rows, n - 1); }
  }

  lemma {:induction false} EveryVerbIsThere(verb: Verb)
    ensures verb in VERBS
  {
    assert VERBS[0] == Create && VERBS[1] == Accept && VERBS[2] == Write;
    assert VERBS[3] == Patch && VERBS[4] == Append && VERBS[5] == Delete;
  }

  ghost function VerbsOf(rows: seq<Change>): seq<Verb> {
    seq(|rows|, i requires 0 <= i < |rows| => rows[i].verb)
  }

  lemma {:induction false} CountOfIs(rows: seq<Change>, verb: Verb)
    ensures CountOf(rows, verb) == multiset(VerbsOf(rows))[verb]
  {
    if rows != [] {
      CountOfIs(rows[1..], verb);
      assert VerbsOf(rows) == [rows[0].verb] + VerbsOf(rows[1..]);
    }
  }

  /** Where a count stands in the line. */
  function Place(noun: Noun): nat {
    match noun
    case Done(Create) => 0
    case Done(Accept) => 1
    case Done(Write) => 2
    case Done(Patch) => 3
    case Done(Append) => 4
    case Done(Delete) => 5
    case LeftAlone => 6
  }

  lemma {:induction false} CountsInOrder(rows: seq<Change>, n: nat)
    requires n <= |VERBS|
    ensures forall i, j | 0 <= i < j < |CountsUpTo(rows, n)| ::
              Place(CountsUpTo(rows, n)[i].noun) < Place(CountsUpTo(rows, n)[j].noun)
    ensures forall c | c in CountsUpTo(rows, n) :: Place(c.noun) < n
  {
    hide CountOf;
    if n > 0 {
      CountsInOrder(rows, n - 1);
      PlacesAre(n - 1);
    }
  }

  lemma {:induction false} PlacesAre(n: nat)
    requires n < |VERBS|
    ensures Place(Done(VERBS[n])) == n
  {
    EveryVerbIsThere(VERBS[n]);
    assert VERBS[0] == Create && VERBS[1] == Accept && VERBS[2] == Write;
    assert VERBS[3] == Patch && VERBS[4] == Append && VERBS[5] == Delete;
  }

  /** The line names, in its fixed order, every verb that has rows with their
      number, and last the paths left alone, if any; the counts add up. */
  lemma {:induction false} SummaryAddsUp(delta: Delta, verb: Verb, count: nat)
    ensures Total(SummaryOf(delta)) == |delta.changes| + delta.idle
    ensures Count(Done(verb), count) in SummaryOf(delta)
            <==> count > 0 && count == multiset(VerbsOf(delta.changes))[verb]
    ensures Count(LeftAlone, count) in SummaryOf(delta) <==> count > 0 && count == delta.idle
    ensures forall i, j | 0 <= i < j < |SummaryOf(delta)| ::
              Place(SummaryOf(delta)[i].noun) < Place(SummaryOf(delta)[j].noun)
    ensures SummaryOf(delta) == [] <==> delta.changes == [] && delta.idle == 0
  {
    hide CountOf, CountsUpTo, CountFirst, Total;
    NothingTotals();
    CountOfIs(delta.changes, verb);
    CountsTotal(delta.changes, |VERBS|);
    CountsHold(delta.changes, |VERBS|);
    CountsInOrder(delta.changes, |VERBS|);
    VerbsAreAll(delta.changes);
    EveryVerbIsThere(verb);
    TotalOne(CountsUpTo(delta.changes, |VERBS|), LeftAlone, delta.idle);
  }

  /** What the JSON report carries: no file when nothing happened, and then the
      listed paths are counted among those left alone. */
  function JsonFiles(nothingToDo: bool, delta: Delta): (r: Delta)
    ensures |r.changes| + r.idle == |delta.changes| + delta.idle
    ensures nothingToDo ==> r.changes == []
    ensures !nothingToDo ==> r == delta
  {
    if nothingToDo then Delta([], |delta.changes| + delta.idle) else delta
  }
}
