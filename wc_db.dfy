/**
 * The working-copy database as the move code sees it: the NODES rows, the
 * conflicts stored in ACTUAL, the work queue, the update_move_list
 * notification table and the calls made to the parent-delete helpers.
 * This module holds the database-level operations of
 * libsvn_wc/wc_db_update_move.c: raising a tree conflict, copying a moved
 * layer, the move-source suitability check, breaking a move, the lock root
 * needed to resolve, and the spooled notifications.
 */
module WcDb {
  import opened Wrappers
  import opened Lex
  import opened RelPath
  import opened Nodes

  /** svn_wc_operation_t. */
  datatype Operation = OpNone | OpUpdate | OpSwitch | OpMerge

  /** svn_wc_conflict_reason_t. */
  datatype Reason = Edited | Obstructed | ReasonDeleted | Missing | Unversioned | Added | Replaced | MovedAway | MovedHere

  /** svn_wc_conflict_action_t. */
  datatype Action = ActionEdit | ActionAdd | ActionDelete | ActionReplace

  /** svn_wc_conflict_version_t. */
  datatype Version = Version(reposUrl: string, reposUuid: string, pathInRepos: Path, pegRev: int, kind: Kind)

  datatype TreeConflict = TreeConflict(reason: Reason, action: Action, moveSrcOpRoot: Option<Path>)

  /** The conflict skel stored for one node: operation, locations and the conflicted parts. */
  datatype Conflict = Conflict(
    operation: Operation,
    oldVersion: Option<Version>,
    newVersion: Option<Version>,
    tree: Option<TreeConflict>,
    textConflicted: bool,
    propConflicted: bool)

  /** svn_wc_notify_action_t, the values the move code uses. */
  datatype NotifyAction = NotifyTreeConflict | NotifyUpdateAdd | NotifyUpdateUpdate | NotifyUpdateDelete
                        | NotifyMoveBroken | NotifyUpdateCompleted

  /** svn_wc_notify_state_t. */
  datatype NotifyState = Inapplicable | Unchanged | Changed | Merged | Conflicted

  /** One row of the update_move_list table. */
  datatype MoveNote = MoveNote(path: Path, action: NotifyAction, kind: Kind, contentState: NotifyState, propState: NotifyState)

  /** A notification handed to the caller's notify function. */
  datatype Notification = Notification(
    path: Path, action: NotifyAction, kind: Kind, contentState: NotifyState, propState: NotifyState,
    oldRevision: int, revision: int)

  /** The work-queue items the move code builds; their execution is not modelled. */
  datatype WorkItem = FileInstall(path: Path) | DirInstall(path: Path) | FileRemove(path: Path) | DirRemove(path: Path)
                    | TextMerge(path: Path) | ConflictMarkers(path: Path)

  /** A call to svn_wc__db_extend_parent_delete or svn_wc__db_retract_parent_delete. */
  datatype ParentDeleteCall = ExtendParentDelete(path: Path, kind: Kind, opDepth: nat)
                            | RetractParentDelete(path: Path, opDepth: nat)

  /** The svn_error_t values the model distinguishes. */
  datatype DbError =
    | AlreadyInConflict(path: Path)         // SVN_ERR_WC_CONFLICT_RESOLVER_FAILURE
    | ObstructedUpdate(path: Path)          // SVN_ERR_WC_OBSTRUCTED_UPDATE
    | AssertionFailed                       // SVN_ERR_ASSERT / SVN_ERR_ASSERTION_FAIL
    | Malfunction                           // SVN_ERR_MALFUNCTION
    | PathNotFound(path: Path)              // SVN_ERR_WC_PATH_NOT_FOUND
    | CannotAutoResolve(path: Path)
    | MixedRevisionSource(path: Path)
    | SwitchedSource(path: Path)
    | NotMovedAway(path: Path)
    | NotDeleted(path: Path)
    | NotInConflict(path: Path)
    | NotTreeConflictVictim(path: Path)
    | NotLocked(path: Path)                 // SVN_ERR_WC_NOT_LOCKED

  /** What svn_wc__db_op_depth_moved_to reports for a node moved away above an op-depth. */
  datatype MoveInfo = MoveInfo(moveDst: Path, moveDstOpRoot: Path, moveSrcRoot: Path, moveSrcOpRoot: Path)

  // ----- mark_tree_conflict -----

  /** The arguments of mark_tree_conflict. */
  datatype TreeConflictArgs = TreeConflictArgs(
    local: Path,
    oldVersion: Version,
    newVersion: Version,
    moveRootDst: Path,
    operation: Operation,
    oldKind: Kind,
    newKind: Kind,
    oldReposRelpath: Option<Path>,
    reason: Reason,
    action: Action,
    moveSrcOpRoot: Option<Path>)

  /**
   * The repository path the conflicted node has after the update: the old
   * repository path relocated from the old to the new location, or else the
   * node's place below the move destination, under the new location. None is
   * the assertion failure for a node outside the move destination.
   */
  function NewReposRelpath(a: TreeConflictArgs): Option<Path>
  {
    var part := if a.oldReposRelpath.Some? then SkipAncestor(a.oldVersion.pathInRepos, a.oldReposRelpath.value) else None;
    if part.Some? then Some(Join(a.newVersion.pathInRepos, part.value))
    else match SkipAncestor(a.moveRootDst, a.local)
      case Some(child) => Some(Join(a.newVersion.pathInRepos, child))
      case None => None
  }

  /** A repository path below the old location lands at the same place below the new one. */
  lemma NewReposRelpathRelocates(a: TreeConflictArgs, below: Path)
    requires a.oldReposRelpath == Some(Join(a.oldVersion.pathInRepos, below))
    ensures NewReposRelpath(a) == Some(Join(a.newVersion.pathInRepos, below))
  {
    SkipJoin(a.oldVersion.pathInRepos, below);
  }

  /** Without an old repository path, a node inside the move destination keeps its place under the new location. */
  lemma NewReposRelpathInsideDestination(a: TreeConflictArgs, child: Path)
    requires a.oldReposRelpath.None? && a.local == Join(a.moveRootDst, child)
    ensures NewReposRelpath(a) == Some(Join(a.newVersion.pathInRepos, child))
  {
    SkipJoin(a.moveRootDst, child);
  }

  /** An existing tree conflict is the one being raised: same reason, action and, for a move, the same move source. */
  predicate SameTreeConflict(t: TreeConflict, a: TreeConflictArgs)
  {
    t.reason == a.reason && t.action == a.action && (a.reason == MovedAway ==> t.moveSrcOpRoot == a.moveSrcOpRoot)
  }

  /** The conflict recorded for a new tree conflict, on top of any existing update/switch conflict. */
  function RecordedConflict(existing: Option<Conflict>, a: TreeConflictArgs, newRepos: Path): Conflict
  {
    var oldV := if a.reason != Unversioned && a.oldReposRelpath.Some?
                then Some(Version(a.oldVersion.reposUrl, a.oldVersion.reposUuid, a.oldReposRelpath.value, a.oldVersion.pegRev, a.oldKind))
                else None;
    var newV := Version(a.newVersion.reposUrl, a.newVersion.reposUuid, newRepos, a.newVersion.pegRev, a.newKind);
    var base := if existing.Some? then existing.value else Conflict(OpNone, None, None, None, false, false);
    base.(operation := a.operation, oldVersion := oldV, newVersion := Some(newV),
          tree := Some(TreeConflict(a.reason, a.action, a.moveSrcOpRoot)))
  }

  /**
   * The outcome of mark_tree_conflict on the stored conflicts: an error, None
   * when a suitable tree conflict is already there, or the conflict to store.
   * Recording a conflict for an operation other than update or switch is the
   * assertion failure of the source.
   */
  function TreeConflictOutcome(conflicts: map<Path, Conflict>, a: TreeConflictArgs): Result<Option<Conflict>, DbError>
  {
    match NewReposRelpath(a)
    case None => Err(AssertionFailed)
    case Some(newRepos) =>
      if a.local in conflicts && conflicts[a.local].operation != OpUpdate && conflicts[a.local].operation != OpSwitch then
        Err(AlreadyInConflict(a.local))
      else if a.local in conflicts && conflicts[a.local].tree.Some? then
        (if SameTreeConflict(conflicts[a.local].tree.value, a) then Ok(None) else Err(ObstructedUpdate(a.local)))
      else if a.operation != OpUpdate && a.operation != OpSwitch then Err(AssertionFailed)
      else Ok(Some(RecordedConflict(if a.local in conflicts then Some(conflicts[a.local]) else None, a, newRepos)))
  }

  /** The new tree conflict is the one asked for, with the update's locations. */
  lemma TreeConflictRecorded(conflicts: map<Path, Conflict>, a: TreeConflictArgs)
    requires TreeConflictOutcome(conflicts, a).Ok? && TreeConflictOutcome(conflicts, a).value.Some?
    ensures var c := TreeConflictOutcome(conflicts, a).value.value;
      && c.tree == Some(TreeConflict(a.reason, a.action, a.moveSrcOpRoot))
      && c.operation == a.operation
      && c.newVersion.Some? && Some(c.newVersion.value.pathInRepos) == NewReposRelpath(a)
      && c.newVersion.value.kind == a.newKind && c.newVersion.value.pegRev == a.newVersion.pegRev
      && (c.oldVersion.Some? <==> a.reason != Unversioned && a.oldReposRelpath.Some?)
  {
  }

  /** Raising the same tree conflict a second time changes nothing. */
  lemma TreeConflictIdempotent(conflicts: map<Path, Conflict>, a: TreeConflictArgs)
    requires TreeConflictOutcome(conflicts, a).Ok? && TreeConflictOutcome(conflicts, a).value.Some?
    ensures TreeConflictOutcome(conflicts[a.local := TreeConflictOutcome(conflicts, a).value.value], a) == Ok(None)
  {
  }

  /**
   * mark_tree_conflict refuses exactly when the node is outside the move
   * destination with no relocatable repository path, when it is already in
   * conflict from another operation, when it already has a different tree
   * conflict, or when a new conflict would be recorded for an operation other
   * than update or switch.
   */
  lemma TreeConflictRefusal(conflicts: map<Path, Conflict>, a: TreeConflictArgs)
    ensures TreeConflictOutcome(conflicts, a).Err? <==>
      NewReposRelpath(a).None?
      || (a.local in conflicts && conflicts[a.local].operation != OpUpdate && conflicts[a.local].operation != OpSwitch)
      || (a.local in conflicts && conflicts[a.local].tree.Some? && !SameTreeConflict(conflicts[a.local].tree.value, a))
      || (!(a.local in conflicts && conflicts[a.local].tree.Some?) && a.operation != OpUpdate && a.operation != OpSwitch)
  {
  }

  /**
   * How mark_tree_conflict leaves the conflicts and the notification list
   * (c0, m0 before, c1, m1 after) and what it returns.
   */
  predicate MarkOutcome(a: TreeConflictArgs, c0: map<Path, Conflict>, m0: seq<MoveNote>,
                        c1: map<Path, Conflict>, m1: seq<MoveNote>, err: Option<DbError>)
  {
    match TreeConflictOutcome(c0, a)
    case Err(e) => err == Some(e) && c1 == c0 && m1 == m0
    case Ok(None) => err == None && c1 == c0 && m1 == m0
    case Ok(Some(c)) =>
      err == None && c1 == c0[a.local := c] && m1 == m0 + [MoveNote(a.local, NotifyTreeConflict, a.newKind, Inapplicable, Inapplicable)]
  }

  /** The tree conflicts stored in c, each with its node. */
  function TreeConflicts(c: map<Path, Conflict>): set<(Path, TreeConflict)>
  {
    set p | p in c && c[p].tree.Some? :: (p, c[p].tree.value)
  }

  /** Every tree conflict of c0 is still in c1, unchanged. */
  predicate KeepsTreeConflicts(c0: map<Path, Conflict>, c1: map<Path, Conflict>)
  {
    TreeConflicts(c0) <= TreeConflicts(c1)
  }

  /**
   * mark_tree_conflict never replaces a tree conflict; when it succeeds the
   * node carries a tree conflict with the reason, action and move source
   * asked for.
   */
  lemma MarkKeepsTreeConflicts(a: TreeConflictArgs, c0: map<Path, Conflict>, m0: seq<MoveNote>,
                               c1: map<Path, Conflict>, m1: seq<MoveNote>, err: Option<DbError>)
    requires MarkOutcome(a, c0, m0, c1, m1, err)
    ensures KeepsTreeConflicts(c0, c1)
    ensures err.None? && a.reason == MovedAway ==>
      (a.local, TreeConflict(a.reason, a.action, a.moveSrcOpRoot)) in TreeConflicts(c1)
  {
    match TreeConflictOutcome(c0, a)
    case Err(_) =>
    case Ok(None) =>
      if err.None? && a.reason == MovedAway {
        assert c1[a.local].tree.value == TreeConflict(a.reason, a.action, a.moveSrcOpRoot);
      }
    case Ok(Some(c)) =>
      forall x | x in TreeConflicts(c0) ensures x in TreeConflicts(c1) {
        var p :| p in c0 && c0[p].tree.Some? && x == (p, c0[p].tree.value);
        assert p != a.local;
        assert c1[p] == c0[p];
      }
      assert c1[a.local].tree.value == TreeConflict(a.reason, a.action, a.moveSrcOpRoot);
  }

  // ----- replace_moved_layer -----

  /** Where replace_moved_layer copies the row of q (a node below src) to. */
  function MovedPath(src: Path, dst: Path, q: Path): Path
    requires IsAncestor(src, q)
  {
    Join(dst, q[|src|..])
  }

  /** The moved path lies below dst, and replacing dst by src there gives q back. */
  lemma MovedPathInverse(src: Path, dst: Path, q: Path)
    requires IsAncestor(src, q)
    ensures IsAncestor(dst, MovedPath(src, dst, q))
    ensures src + MovedPath(src, dst, q)[|dst|..] == q
  {
    var m := MovedPath(src, dst, q);
    assert m[|dst|..] == q[|src|..];
    assert q == q[..|src|] + q[|src|..];
  }

  /** Distinct source nodes are copied to distinct paths. */
  lemma MovedPathInjective(src: Path, dst: Path, qs: set<Path>)
    requires forall q :: q in qs ==> IsAncestor(src, q)
    ensures forall x, y :: x in qs && y in qs && MovedPath(src, dst, x) == MovedPath(src, dst, y) ==> x == y
  {
    forall x, y | x in qs && y in qs && MovedPath(src, dst, x) == MovedPath(src, dst, y) ensures x == y {
      MovedPathInverse(src, dst, x);
      MovedPathInverse(src, dst, y);
    }
  }

  /** The copied row: the source row marked moved-here, keeping the destination row's moved-to. */
  function MovedRow(s: Store, from: (Path, nat), to: (Path, nat)): Row
    requires from in s
  {
    s[from].(movedHere := true, movedTo := if to in s then s[to].movedTo else None)
  }

  /** The rows STMT_COPY_NODE_MOVE writes for the source nodes qs (at op_depth sd), keyed by where they land. */
  function Copies(s: Store, src: Path, sd: nat, dst: Path, qs: set<Path>): map<(Path, nat), Row>
    requires forall q :: q in qs ==> IsAncestor(src, q) && (q, sd) in s
  {
    MovedPathInjective(src, dst, qs);
    map q | q in qs :: (MovedPath(src, dst, q), |dst|) := MovedRow(s, (q, sd), (MovedPath(src, dst, q), |dst|))
  }

  /** The store after copying the rows of the source nodes qs to the destination's op_depth. */
  function ReplaceLayerOf(s: Store, src: Path, sd: nat, dst: Path, qs: set<Path>): Store
    requires forall q :: q in qs ==> IsAncestor(src, q) && (q, sd) in s
  {
    s + Copies(s, src, sd, dst, qs)
  }

  /** replace_moved_layer over the whole source layer. */
  function ReplaceLayer(s: Store, src: Path, sd: nat, dst: Path): Store
  {
    ReplaceLayerOf(s, src, sd, dst, LayerPaths(s, src, sd))
  }

  /** The copy never reads a row it has written: different op-depths or disjoint subtrees. */
  predicate NoOverlap(src: Path, sd: nat, dst: Path)
  {
    sd != |dst| || (!IsAncestor(src, dst) && !IsAncestor(dst, src))
  }

  /** A path below both src and dst makes one of them an ancestor of the other. */
  lemma OverlapAncestors(src: Path, dst: Path, q: Path)
    requires IsAncestor(src, q) && IsAncestor(dst, q)
    ensures IsAncestor(src, dst) || IsAncestor(dst, src)
  {
    if |src| <= |dst| { assert dst[..|src|] == q[..|dst|][..|src|]; }
    else { assert src[..|dst|] == q[..|src|][..|dst|]; }
  }

  /** Without overlap no copy lands on a row of the source layer. */
  lemma CopiesMissSource(s: Store, src: Path, sd: nat, dst: Path, qs: set<Path>, q: Path)
    requires forall x :: x in qs ==> IsAncestor(src, x) && (x, sd) in s
    requires NoOverlap(src, sd, dst) && IsAncestor(src, q)
    ensures (q, sd) !in Copies(s, src, sd, dst, qs)
  {
    if (q, sd) in Copies(s, src, sd, dst, qs) {
      var x :| x in qs && (q, sd) == (MovedPath(src, dst, x), |dst|);
      MovedPathInverse(src, dst, x);
      OverlapAncestors(src, dst, q);
    }
  }

  /** Every row of the source layer is found at its moved path, marked moved-here and otherwise equal. */
  lemma ReplaceLayerCopies(s: Store, src: Path, sd: nat, dst: Path, q: Path)
    requires (q, sd) in s && IsAncestor(src, q)
    ensures var t := ReplaceLayer(s, src, sd, dst);
      var k := (MovedPath(src, dst, q), |dst|);
      k in t && t[k] == s[(q, sd)].(movedHere := true, movedTo := if k in s then s[k].movedTo else None)
  {
    var qs := LayerPaths(s, src, sd);
    assert q in qs;
    CopiesAt(s, src, sd, dst, qs, q);
  }

  /** The copy of q is in the copies, with its moved row. */
  lemma CopiesAt(s: Store, src: Path, sd: nat, dst: Path, qs: set<Path>, q: Path)
    requires forall x :: x in qs ==> IsAncestor(src, x) && (x, sd) in s
    requires q in qs
    ensures (MovedPath(src, dst, q), |dst|) in Copies(s, src, sd, dst, qs)
    ensures Copies(s, src, sd, dst, qs)[(MovedPath(src, dst, q), |dst|)] == MovedRow(s, (q, sd), (MovedPath(src, dst, q), |dst|))
  {
    MovedPathInjective(src, dst, qs);
  }

  /** Rows outside the destination subtree at the destination's op_depth are untouched, and no row is lost. */
  lemma ReplaceLayerFrame(s: Store, src: Path, sd: nat, dst: Path, k: (Path, nat))
    requires k in s
    ensures k in ReplaceLayer(s, src, sd, dst)
    ensures !(k.1 == |dst| && IsAncestor(dst, k.0)) ==> ReplaceLayer(s, src, sd, dst)[k] == s[k]
  {
    var qs := LayerPaths(s, src, sd);
    if k in Copies(s, src, sd, dst, qs) {
      var q :| q in qs && k == (MovedPath(src, dst, q), |dst|);
      MovedPathInverse(src, dst, q);
    }
  }

  /** Without overlap the copy leaves the source layer as it was. */
  lemma ReplaceLayerKeepsSource(s: Store, src: Path, sd: nat, dst: Path)
    requires NoOverlap(src, sd, dst)
    ensures LayerPaths(ReplaceLayer(s, src, sd, dst), src, sd) == LayerPaths(s, src, sd)
    ensures forall q :: q in LayerPaths(s, src, sd) ==> ReplaceLayer(s, src, sd, dst)[(q, sd)] == s[(q, sd)]
  {
    var qs := LayerPaths(s, src, sd);
    var t := ReplaceLayer(s, src, sd, dst);
    forall q | IsAncestor(src, q) ensures ((q, sd) in t <==> (q, sd) in s) && ((q, sd) in s ==> t[(q, sd)] == s[(q, sd)]) {
      CopiesMissSource(s, src, sd, dst, qs, q);
    }
  }

  /**
   * Applying replace_moved_layer a second time changes nothing, provided the
   * copy does not read back what it wrote.
   */
  lemma ReplaceLayerIdempotent(s: Store, src: Path, sd: nat, dst: Path)
    requires NoOverlap(src, sd, dst)
    ensures ReplaceLayer(ReplaceLayer(s, src, sd, dst), src, sd, dst) == ReplaceLayer(s, src, sd, dst)
  {
    var qs := LayerPaths(s, src, sd);
    var c := Copies(s, src, sd, dst, qs);
    var t := s + c;
    ReplaceLayerKeepsSource(s, src, sd, dst);
    var c2 := Copies(t, src, sd, dst, qs);
    assert c2.Keys == c.Keys;
    forall k | k in c2 ensures c2[k] == c[k] {
      var q :| q in qs && k == (MovedPath(src, dst, q), |dst|);
    }
    assert c2 == c;
  }

  // ----- notifications -----

  /** svn_wc__db_update_move_list_notify: the spooled rows in table order, with the revisions of the update. */
  function Spool(list: seq<MoveNote>, oldRevision: int, newRevision: int): (r: seq<Notification>)
  {
    if list == [] then []
    else [Notification(list[0].path, list[0].action, list[0].kind, list[0].contentState, list[0].propState,
                       oldRevision, newRevision)]
         + Spool(list[1..], oldRevision, newRevision)
  }

  /** Spooling keeps the order and every field of every row. */
  lemma {:induction false} SpoolAt(list: seq<MoveNote>, oldRevision: int, newRevision: int, i: nat)
    requires i < |list|
    ensures |Spool(list, oldRevision, newRevision)| == |list|
    ensures var n := Spool(list, oldRevision, newRevision)[i];
      n.path == list[i].path && n.action == list[i].action && n.kind == list[i].kind
      && n.contentState == list[i].contentState && n.propState == list[i].propState
      && n.oldRevision == oldRevision && n.revision == newRevision
  {
    if i > 0 { SpoolAt(list[1..], oldRevision, newRevision, i - 1); }
    else if |list| > 1 { SpoolAt(list[1..], oldRevision, newRevision, 0); }
  }

  lemma {:induction false} SpoolAppend(a: seq<MoveNote>, b: seq<MoveNote>, oldRevision: int, newRevision: int)
    ensures Spool(a + b, oldRevision, newRevision) == Spool(a, oldRevision, newRevision) + Spool(b, oldRevision, newRevision)
  {
    if a == [] {
      assert a + b == b;
    } else {
      assert (a + b)[0] == a[0] && (a + b)[1..] == a[1..] + b;
      SpoolAppend(a[1..], b, oldRevision, newRevision);
    }
  }

  // ----- the database -----

  /** Foreign routines the move code consults; their results are inputs to the model. */
  datatype Env = Env(
    diskKind: Path -> Kind,                     // svn_io_check_path on the working file
    localMods: Path -> (bool, bool),            // svn_wc__node_has_local_mods: (is_modified, is_all_deletes)
    fileModified: Path -> bool,                 // svn_wc__internal_file_modified_p
    propMerge: Path -> (NotifyState, bool),     // svn_wc__merge_props: (prop_state, conflicted)
    textConflict: Path -> bool,                 // svn_wc__internal_merge reports svn_wc_merge_conflict
    movedAway: (Path, int) -> Option<MoveInfo>,  // svn_wc__db_op_depth_moved_to(relpath, op_depth)
    writeLocked: Path -> bool)                  // svn_wc__db_wclock_owns_lock_internal

  class Db {
    var store: Store
    var conflicts: map<Path, Conflict>
    var workQueue: seq<WorkItem>
    var moveList: seq<MoveNote>
    var parentDeletes: seq<ParentDeleteCall>
    const env: Env

    ghost predicate Valid()
      reads this
    {
      WellFormed(store)
    }

    constructor (s: Store, c: map<Path, Conflict>, e: Env)
      requires WellFormed(s)
      ensures Valid() && store == s && conflicts == c && env == e
      ensures workQueue == [] && moveList == [] && parentDeletes == []
    {
      store, conflicts, env := s, c, e;
      workQueue, moveList, parentDeletes := [], [], [];
    }

    /** verify_write_lock: the caller must own the write lock of p. */
    function VerifyWriteLock(p: Path): (err: Option<DbError>)
      ensures err.None? <==> env.writeLocked(p)
      ensures err.Some? ==> err.value == NotLocked(p)
    {
      if env.writeLocked(p) then None else Some(NotLocked(p))
    }

    /** STMT_CREATE_UPDATE_MOVE_LIST: start with an empty notification list. */
    method CreateUpdateMoveList()
      modifies this
      ensures moveList == []
      ensures store == old(store) && conflicts == old(conflicts) && workQueue == old(workQueue)
      ensures parentDeletes == old(parentDeletes)
    {
      moveList := [];
    }

    /** update_move_list_add: append one row to the notification list. */
    method UpdateMoveListAdd(n: MoveNote)
      modifies this
      ensures moveList == old(moveList) + [n]
      ensures store == old(store) && conflicts == old(conflicts) && workQueue == old(workQueue)
      ensures parentDeletes == old(parentDeletes)
    {
      moveList := moveList + [n];
    }

    /** svn_wc__db_wq_add. */
    method WqAdd(items: seq<WorkItem>)
      modifies this
      ensures workQueue == old(workQueue) + items
      ensures store == old(store) && conflicts == old(conflicts) && moveList == old(moveList)
      ensures parentDeletes == old(parentDeletes)
    {
      workQueue := workQueue + items;
    }

    /** svn_wc__db_mark_conflict_internal: store the conflict of p. */
    method MarkConflict(p: Path, c: Conflict)
      modifies this
      ensures conflicts == old(conflicts)[p := c]
      ensures store == old(store) && workQueue == old(workQueue) && moveList == old(moveList)
      ensures parentDeletes == old(parentDeletes)
    {
      conflicts := conflicts[p := c];
    }

    /** svn_wc__db_extend_parent_delete or svn_wc__db_retract_parent_delete: the call is logged. */
    method LogParentDelete(call: ParentDeleteCall)
      modifies this
      ensures parentDeletes == old(parentDeletes) + [call]
      ensures store == old(store) && conflicts == old(conflicts) && workQueue == old(workQueue)
      ensures moveList == old(moveList)
    {
      parentDeletes := parentDeletes + [call];
    }

    /** Rolling back a transaction: every table returns to the state it had when the transaction began. */
    method Rollback(s: Store, c: map<Path, Conflict>, w: seq<WorkItem>, m: seq<MoveNote>, pd: seq<ParentDeleteCall>)
      requires WellFormed(s)
      modifies this
      ensures Valid()
      ensures store == s && conflicts == c && workQueue == w && moveList == m && parentDeletes == pd
    {
      store, conflicts, workQueue, moveList, parentDeletes := s, c, w, m, pd;
    }

    /**
     * svn_wc__db_update_move_list_notify: hand every spooled row, in order, to
     * the notify function when there is one, then drop the list.
     */
    method UpdateMoveListNotify(oldRevision: int, newRevision: int, hasNotifyFunc: bool)
      returns (sent: seq<Notification>)
      modifies this
      ensures sent == if hasNotifyFunc then Spool(old(moveList), oldRevision, newRevision) else []
      ensures moveList == []
      ensures store == old(store) && conflicts == old(conflicts) && workQueue == old(workQueue)
      ensures parentDeletes == old(parentDeletes)
    {
      sent := [];
      if hasNotifyFunc {
        var i := 0;
        while i < |moveList|
          invariant 0 <= i <= |moveList|
          invariant sent == Spool(moveList[..i], oldRevision, newRevision)
          invariant unchanged(this)
        {
          var n := moveList[i];
          SpoolAppend(moveList[..i], [n], oldRevision, newRevision);
          assert moveList[..i + 1] == moveList[..i] + [n];
          sent := sent + [Notification(n.path, n.action, n.kind, n.contentState, n.propState, oldRevision, newRevision)];
          i := i + 1;
        }
        assert moveList[..|moveList|] == moveList;
      }
      moveList := [];
    }

    /**
     * mark_tree_conflict: raise a tree conflict on a.local unless an equal one
     * is already there; a new one is spooled as one tree_conflict notification.
     */
    method MarkTreeConflict(a: TreeConflictArgs) returns (err: Option<DbError>)
      modifies this
      ensures MarkOutcome(a, old(conflicts), old(moveList), conflicts, moveList, err)
      ensures store == old(store) && workQueue == old(workQueue) && parentDeletes == old(parentDeletes)
    {
      var outcome := TreeConflictOutcome(conflicts, a);
      match outcome {
        case Err(e) => err := Some(e);
        case Ok(None) => err := None;
        case Ok(Some(c)) =>
          MarkConflict(a.local, c);
          UpdateMoveListAdd(MoveNote(a.local, NotifyTreeConflict, a.newKind, Inapplicable, Inapplicable));
          err := None;
      }
    }

    /**
     * replace_moved_layer: copy every row of the source layer (op_depth sd,
     * subtree src) to the destination layer (op_depth |dst|, subtree dst),
     * asking for the parent delete to be extended for every copied node below dst.
     */
    method ReplaceMovedLayer(src: Path, dst: Path, sd: nat)
      requires Valid()
      modifies this
      ensures Valid()
      ensures NoOverlap(src, sd, dst) ==> store == ReplaceLayer(old(store), src, sd, dst)
      ensures forall q :: q in LayerPaths(old(store), src, sd) ==> (MovedPath(src, dst, q), |dst|) in store
      ensures old(store).Keys <= store.Keys && MovedSources(store) <= MovedSources(old(store))
      ensures exists calls :: (parentDeletes == old(parentDeletes) + calls
        && Elems2(calls) == ExtendCalls(old(store), src, sd, dst, LayerPaths(old(store), src, sd)))
      ensures conflicts == old(conflicts) && workQueue == old(workQueue) && moveList == old(moveList)
    {
      var t, calls := CopyLayer(store, src, sd, dst);
      store := t;
      parentDeletes := parentDeletes + calls;
    }

    /**
     * suitable_for_move: a move source with a BASE node must be single-revision
     * and unswitched: every BASE row below it has the root's revision and the
     * root's repository path extended by its own place below the root.
     */
    method SuitableForMove(p: Path) returns (err: Option<DbError>)
      ensures (p, 0) !in store ==> err == None
      ensures (p, 0) in store ==>
        (err == None <==> forall q :: q in LayerPaths(store, p, 0) ==> BaseRowMatches(store, p, q))
      ensures err.Some? ==> (err.value == MixedRevisionSource(p) || err.value == SwitchedSource(p))
      ensures err == Some(MixedRevisionSource(p)) ==>
        exists q :: q in LayerPaths(store, p, 0) && store[(q, 0)].revision != store[(p, 0)].revision
      ensures err == Some(SwitchedSource(p)) ==>
        exists q :: q in LayerPaths(store, p, 0) && store[(q, 0)].revision == store[(p, 0)].revision
          && !BaseRowMatches(store, p, q)
    {
      if (p, 0) !in store {
        return None;
      }
      var root := store[(p, 0)];
      var todo := LayerPaths(store, p, 0);
      while todo != {}
        invariant todo <= LayerPaths(store, p, 0)
        invariant forall q :: q in LayerPaths(store, p, 0) - todo ==> BaseRowMatches(store, p, q)
        decreases |todo|
      {
        var q :| q in todo;
        var row := store[(q, 0)];
        var expected := if root.reposRelpath.Some? then Some(Join(root.reposRelpath.value, q[|p|..])) else None;
        if row.revision != root.revision {
          return Some(MixedRevisionSource(p));
        }
        if expected != row.reposRelpath {
          return Some(SwitchedSource(p));
        }
        todo := todo - {q};
      }
      return None;
    }

    /** break_move: the source forgets its move and the destination subtree stops being moved-here. */
    method BreakMove(src: Path, sd: nat, dst: Path)
      requires Valid()
      modifies this
      ensures Valid()
      ensures store == ClearMovedHere(ClearMovedTo(old(store), src, sd), dst, |dst|)
      ensures conflicts == old(conflicts) && workQueue == old(workQueue) && moveList == old(moveList)
      ensures parentDeletes == old(parentDeletes)
    {
      store := ClearMovedTo(store, src, sd);
      store := ClearMovedHere(store, dst, |dst|);
    }

    /**
     * required_lock_for_resolve: the longest common ancestor of p and of every
     * destination of a move out of p's subtree.
     */
    method RequiredLockForResolve(p: Path) returns (r: Path)
      ensures IsAncestor(r, p)
      ensures forall d :: d in MovedOutside(store, p) ==> IsAncestor(r, d)
      ensures forall c :: IsAncestor(c, p) && (forall d :: d in MovedOutside(store, p) ==> IsAncestor(c, d)) ==> IsAncestor(c, r)
    {
      r := p;
      var todo := MovedOutside(store, p);
      while todo != {}
        invariant todo <= MovedOutside(store, p)
        invariant IsAncestor(r, p)
        invariant forall d :: d in MovedOutside(store, p) - todo ==> IsAncestor(r, d)
        invariant forall c :: IsAncestor(c, p) && (forall d :: d in MovedOutside(store, p) - todo ==> IsAncestor(c, d)) ==> IsAncestor(c, r)
        decreases |todo|
      {
        var d :| d in todo;
        var r' := LongestAncestor(r, d);
        AncestorTransitive(r', r, p);
        forall e | e in MovedOutside(store, p) - (todo - {d}) ensures IsAncestor(r', e) {
          if e != d { AncestorTransitive(r', r, e); }
        }
        forall c | IsAncestor(c, p) && (forall e :: e in MovedOutside(store, p) - (todo - {d}) ==> IsAncestor(c, e))
          ensures IsAncestor(c, r')
        {
          assert forall e :: e in MovedOutside(store, p) - todo ==> IsAncestor(c, e);
          LongestAncestorIsLongest(r, d, c);
        }
        r := r';
        todo := todo - {d};
      }
    }
  }

  /**
   * The copy loop of replace_moved_layer over the rows of the source layer,
   * in whatever order the statement returns them: the new store and the
   * extend_parent_delete calls made.
   */
  method CopyLayer(s0: Store, src: Path, sd: nat, dst: Path) returns (t: Store, calls: seq<ParentDeleteCall>)
    requires WellFormed(s0)
    ensures WellFormed(t)
    ensures NoOverlap(src, sd, dst) ==> t == ReplaceLayer(s0, src, sd, dst)
    ensures forall q :: q in LayerPaths(s0, src, sd) ==> (MovedPath(src, dst, q), |dst|) in t
    ensures s0.Keys <= t.Keys && MovedSources(t) <= MovedSources(s0)
    ensures Elems2(calls) == ExtendCalls(s0, src, sd, dst, LayerPaths(s0, src, sd))
  {
    var rows := LayerPaths(s0, src, sd);
    var todo := rows;
    ghost var done: set<Path> := {};
    t, calls := s0, [];
    assert Copies(s0, src, sd, dst, {}) == map[];
    while todo != {}
      invariant todo + done == rows && todo !! done
      invariant forall x :: x in rows ==> IsAncestor(src, x) && (x, sd) in s0
      invariant NoOverlap(src, sd, dst) ==> t == ReplaceLayerOf(s0, src, sd, dst, done)
      invariant !NoOverlap(src, sd, dst) ==> WellFormed(t) && s0.Keys <= t.Keys
      invariant !NoOverlap(src, sd, dst) ==> forall x :: x in done ==> (MovedPath(src, dst, x), |dst|) in t
      invariant Elems2(calls) == ExtendCalls(s0, src, sd, dst, done)
      invariant MovedSources(t) <= MovedSources(s0)
      decreases |todo|
    {
      var q :| q in todo;
      t, calls := CopyRow(s0, src, sd, dst, done, t, calls, q, s0[(q, sd)].kind);
      MoveElement(todo, done, q);
      todo := todo - {q};
      done := done + {q};
    }
    if NoOverlap(src, sd, dst) {
      ReplaceLayerShape(s0, src, sd, dst, rows);
    }
  }

  /** The copied store keeps every row, is well formed, and holds the copy of every source node. */
  lemma ReplaceLayerShape(s0: Store, src: Path, sd: nat, dst: Path, qs: set<Path>)
    requires WellFormed(s0)
    requires forall x :: x in qs ==> IsAncestor(src, x) && (x, sd) in s0
    ensures var t := ReplaceLayerOf(s0, src, sd, dst, qs);
      WellFormed(t) && s0.Keys <= t.Keys && forall x :: x in qs ==> (MovedPath(src, dst, x), |dst|) in t
  {
    var c := Copies(s0, src, sd, dst, qs);
    forall k | k in c ensures k.1 <= |k.0| {
      var x :| x in qs && k == (MovedPath(src, dst, x), |dst|);
    }
    forall x | x in qs ensures (MovedPath(src, dst, x), |dst|) in c {
      CopiesAt(s0, src, sd, dst, qs, x);
    }
  }

  /** One turn of the copy loop: STMT_COPY_NODE_MOVE for q, then the parent delete for a node below dst. */
  method CopyRow(ghost s0: Store, src: Path, sd: nat, dst: Path, ghost done: set<Path>, t: Store,
                 calls: seq<ParentDeleteCall>, q: Path, kind: Kind)
    returns (t': Store, calls': seq<ParentDeleteCall>)
    requires forall x :: x in done ==> IsAncestor(src, x) && (x, sd) in s0
    requires IsAncestor(src, q) && (q, sd) in s0 && q !in done && kind == s0[(q, sd)].kind
    requires NoOverlap(src, sd, dst) ==> t == ReplaceLayerOf(s0, src, sd, dst, done)
    requires !NoOverlap(src, sd, dst) ==> WellFormed(t) && s0.Keys <= t.Keys
    requires !NoOverlap(src, sd, dst) ==> forall x :: x in done ==> (MovedPath(src, dst, x), |dst|) in t
    requires Elems2(calls) == ExtendCalls(s0, src, sd, dst, done)
    ensures NoOverlap(src, sd, dst) ==> t' == ReplaceLayerOf(s0, src, sd, dst, done + {q})
    ensures !NoOverlap(src, sd, dst) ==> WellFormed(t') && s0.Keys <= t'.Keys
    ensures !NoOverlap(src, sd, dst) ==> forall x :: x in done + {q} ==> (MovedPath(src, dst, x), |dst|) in t'
    ensures Elems2(calls') == ExtendCalls(s0, src, sd, dst, done + {q})
    ensures (q, sd) in t ==> MovedSources(t') <= MovedSources(t)
  {
    var target := MovedPath(src, dst, q);
    if NoOverlap(src, sd, dst) {
      ReplaceLayerStep(s0, src, sd, dst, done, q);
    }
    t' := CopyNodeMove(t, q, sd, target, |dst|);
    CopyNodeMoveSources(t, q, sd, target, |dst|);
    ExtendCallsStep(s0, src, sd, dst, done, q);
    if |target| > |dst| {
      var call := ExtendParentDelete(target, kind, |dst|);
      assert Elems2(calls + [call]) == Elems2(calls) + {call};
      calls' := calls + [call];
    } else {
      MovedPathInverse(src, dst, q);
      assert q == src;
      calls' := calls;
    }
  }

  /** Moving one element from the to-do set to the done set keeps their union and disjointness. */
  lemma MoveElement<T>(todo: set<T>, done: set<T>, q: T)
    requires q in todo && todo !! done
    ensures (todo - {q}) + (done + {q}) == todo + done && (todo - {q}) !! (done + {q})
  {
  }

  /** The elements of a log, as a set. */
  function Elems2(s: seq<ParentDeleteCall>): set<ParentDeleteCall>
  {
    set x | x in s
  }

  /** The extend_parent_delete calls made for the source nodes qs other than the move source itself. */
  function ExtendCalls(s: Store, src: Path, sd: nat, dst: Path, qs: set<Path>): set<ParentDeleteCall>
    requires forall q :: q in qs ==> IsAncestor(src, q) && (q, sd) in s
  {
    set q | q in qs && q != src :: ExtendParentDelete(MovedPath(src, dst, q), s[(q, sd)].kind, |dst|)
  }

  lemma ExtendCallsStep(s: Store, src: Path, sd: nat, dst: Path, qs: set<Path>, q: Path)
    requires forall x :: x in qs ==> IsAncestor(src, x) && (x, sd) in s
    requires IsAncestor(src, q) && (q, sd) in s
    ensures ExtendCalls(s, src, sd, dst, qs + {q}) == ExtendCalls(s, src, sd, dst, qs)
      + (if q != src then {ExtendParentDelete(MovedPath(src, dst, q), s[(q, sd)].kind, |dst|)} else {})
  {
  }

  /** A BASE row below the move source is at the root's revision and unswitched. */
  predicate BaseRowMatches(s: Store, p: Path, q: Path)
    requires (p, 0) in s && (q, 0) in s && IsAncestor(p, q)
  {
    s[(q, 0)].revision == s[(p, 0)].revision
    && s[(q, 0)].reposRelpath == (if s[(p, 0)].reposRelpath.Some? then Some(Join(s[(p, 0)].reposRelpath.value, q[|p|..])) else None)
  }

  /** One step of the copy loop adds the copy of one more source row. */
  lemma ReplaceLayerStep(s0: Store, src: Path, sd: nat, dst: Path, done: set<Path>, q: Path)
    requires NoOverlap(src, sd, dst)
    requires forall x :: x in done ==> IsAncestor(src, x) && (x, sd) in s0
    requires IsAncestor(src, q) && (q, sd) in s0 && q !in done
    ensures var cur := ReplaceLayerOf(s0, src, sd, dst, done);
      (q, sd) in cur &&
      CopyNodeMove(cur, q, sd, MovedPath(src, dst, q), |dst|) == ReplaceLayerOf(s0, src, sd, dst, done + {q})
  {
    var c := Copies(s0, src, sd, dst, done);
    var target := (MovedPath(src, dst, q), |dst|);
    CopiesMissSource(s0, src, sd, dst, done, q);
    CopiesFresh(s0, src, sd, dst, done, q);
    CopiesGrow(s0, src, sd, dst, done, q);
    PlusUpdate(s0, c, target, MovedRow(s0, (q, sd), target));
  }

  /** The copy of a node not yet copied lands on a key no earlier copy used. */
  lemma CopiesFresh(s0: Store, src: Path, sd: nat, dst: Path, done: set<Path>, q: Path)
    requires forall x :: x in done ==> IsAncestor(src, x) && (x, sd) in s0
    requires IsAncestor(src, q) && q !in done
    ensures (MovedPath(src, dst, q), |dst|) !in Copies(s0, src, sd, dst, done)
  {
    if (MovedPath(src, dst, q), |dst|) in Copies(s0, src, sd, dst, done) {
      var x :| x in done && (MovedPath(src, dst, q), |dst|) == (MovedPath(src, dst, x), |dst|);
      MovedPathInjective(src, dst, done + {q});
    }
  }

  lemma CopiesGrow(s0: Store, src: Path, sd: nat, dst: Path, done: set<Path>, q: Path)
    requires forall x :: x in done ==> IsAncestor(src, x) && (x, sd) in s0
    requires IsAncestor(src, q) && (q, sd) in s0
    ensures Copies(s0, src, sd, dst, done + {q}) ==
      Copies(s0, src, sd, dst, done)[(MovedPath(src, dst, q), |dst|) := MovedRow(s0, (q, sd), (MovedPath(src, dst, q), |dst|))]
  {
    var c := Copies(s0, src, sd, dst, done);
    var c' := Copies(s0, src, sd, dst, done + {q});
    var target := (MovedPath(src, dst, q), |dst|);
    var rhs := c[target := MovedRow(s0, (q, sd), target)];
    CopiesAt(s0, src, sd, dst, done + {q}, q);
    forall k | k in c' ensures k in rhs && c'[k] == rhs[k] {
      var x :| x in done + {q} && k == (MovedPath(src, dst, x), |dst|);
      CopiesAt(s0, src, sd, dst, done + {q}, x);
      if x != q { CopiesAt(s0, src, sd, dst, done, x); }
    }
    forall k | k in rhs ensures k in c' {
      if k != target {
        var x :| x in done && k == (MovedPath(src, dst, x), |dst|);
        CopiesAt(s0, src, sd, dst, done + {q}, x);
      }
    }
  }

  /** Updating a key of the right operand of a map union. */
  lemma PlusUpdate<K, V>(a: map<K, V>, b: map<K, V>, k: K, v: V)
    ensures (a + b)[k := v] == a + b[k := v]
  {
  }
}
