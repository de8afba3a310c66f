/**
 * Bumping moves after an update (svn_wc__db_bump_moved_away and its
 * helpers in libsvn_wc/wc_db_update_move.c). Once an update has brought
 * the BASE tree to a new revision, every move whose source lies in the
 * updated tree is "bumped": the destination layer is replaced by a copy
 * of the new source layer when the update's depth covered the whole moved
 * tree, and the move source gets a moved-away tree conflict otherwise.
 * Bumping a move can make moves inside its destination bumpable in turn;
 * a set of the sources already bumped keeps each source from being
 * bumped twice.
 */
module MoveBump {
  import opened Wrappers
  import opened RelPath
  import opened Nodes
  import opened WcDb
  import opened Sets

  /** svn_depth_t. */
  datatype SvnDepth = DepthUnknown | DepthExclude | DepthEmpty | DepthFiles | DepthImmediates | DepthInfinity

  /** The depths the bump code handles; any other one is SVN_ERR_MALFUNCTION. */
  predicate HandledDepth(depth: SvnDepth)
  {
    depth == DepthEmpty || depth == DepthFiles || depth == DepthImmediates || depth == DepthInfinity
  }

  /**
   * Whether the node q, of kind k, is reached by an operation of the given
   * depth on root: root itself always is, depth infinity reaches everything
   * below root, immediates the children and files the children that are files.
   */
  predicate WithinDepth(root: Path, depth: SvnDepth, q: Path, k: Kind)
  {
    IsAncestor(root, q)
    && (q == root || depth == DepthInfinity
        || (depth == DepthImmediates && |q| == |root| + 1)
        || (depth == DepthFiles && |q| == |root| + 1 && k == File))
  }

  // ----- check_bump_layer -----

  /**
   * check_bump_layer: whether the move source src (of kind kind) is to be
   * skipped by a bump of the given depth on root, and the depth that
   * remains for the moved tree. A source is skipped exactly when the bump
   * does not reach it; what remains below a reached child is depth empty.
   */
  function CheckBumpLayer(root: Path, depth: SvnDepth, src: Path, kind: Kind): (r: Result<(bool, SvnDepth), DbError>)
    ensures r.Err? <==> !HandledDepth(depth) && src != root
    ensures r.Err? ==> r.error == Malfunction
    ensures r.Ok? ==> (r.value.0 <==> !WithinDepth(root, depth, src, kind))
    ensures r.Ok? ==> r.value.1 == if src != root && (depth == DepthImmediates || (depth == DepthFiles && kind == File))
                                  then DepthEmpty else depth
  {
    var rel := SkipAncestor(root, src);
    var skip := rel.None?;
    if depth == DepthInfinity then Ok((skip, depth))
    else if rel == Some([]) then Ok((false, depth))
    else match depth
      case DepthEmpty => Ok((true, depth))
      case DepthFiles =>
        if kind != File then Ok((true, depth))
        else Ok((rel.None? || |rel.value| > 1, DepthEmpty))
      case DepthImmediates => Ok((rel.None? || |rel.value| > 1, DepthEmpty))
      case _ => Err(Malfunction)
  }

  /**
   * The rules of check_bump_layer one by one: a source outside the bump
   * root is always skipped, the root itself never; below the root depth
   * empty skips everything, depth files skips whatever is not a file child,
   * depth immediates whatever is not a child, and a reached child under
   * files or immediates has depth empty left.
   */
  lemma CheckBumpLayerRules(root: Path, depth: SvnDepth, src: Path, kind: Kind)
    ensures !IsAncestor(root, src) && CheckBumpLayer(root, depth, src, kind).Ok? ==> CheckBumpLayer(root, depth, src, kind).value.0
    ensures src == root ==> CheckBumpLayer(root, depth, src, kind) == Ok((false, depth))
    ensures depth == DepthEmpty && src != root ==> CheckBumpLayer(root, depth, src, kind) == Ok((true, DepthEmpty))
    ensures depth == DepthFiles && IsStrictAncestor(root, src) ==>
      CheckBumpLayer(root, depth, src, kind).Ok?
      && (CheckBumpLayer(root, depth, src, kind).value.0 <==> kind != File || |src| > |root| + 1)
    ensures depth == DepthImmediates && IsStrictAncestor(root, src) ==>
      CheckBumpLayer(root, depth, src, kind).Ok?
      && (CheckBumpLayer(root, depth, src, kind).value.0 <==> |src| > |root| + 1)
    ensures (depth == DepthFiles || depth == DepthImmediates) && src != root
            && CheckBumpLayer(root, depth, src, kind).Ok? && !CheckBumpLayer(root, depth, src, kind).value.0 ==>
      CheckBumpLayer(root, depth, src, kind).value.1 == DepthEmpty
  {
  }

  // ----- depth_sufficient_to_bump -----

  /**
   * depth_sufficient_to_bump: whether a bump of the given depth covers the
   * whole tree below p at op_depth d. Depth empty needs no child rows
   * (STMT_SELECT_OP_DEPTH_CHILDREN), files no child that is not a file
   * (STMT_SELECT_HAS_NON_FILE_CHILDREN), immediates no row two or more
   * levels down (STMT_SELECT_HAS_GRANDCHILDREN).
   */
  function DepthSufficientToBump(s: Store, p: Path, d: nat, depth: SvnDepth): (r: Result<bool, DbError>)
    ensures r.Err? <==> !HandledDepth(depth)
    ensures r.Err? ==> r.error == Malfunction
    ensures depth == DepthInfinity ==> r == Ok(true)
  {
    match depth
    case DepthInfinity => Ok(true)
    case DepthEmpty => Ok(!HasChildren(s, p, d))
    case DepthFiles => Ok(!HasNonFileChildren(s, p, d))
    case DepthImmediates => Ok(!HasGrandchildren(s, p, d))
    case _ => Err(Malfunction)
  }

  /** The layer below p at op_depth d is a tree: every row two or more levels down has a directory row as its parent. */
  ghost predicate LayerIsTree(s: Store, p: Path, d: nat)
  {
    forall q :: q in LayerDescendants(s, p, d) && |q| > |p| + 1 ==>
      (Dirname(q), d) in s && s[(Dirname(q), d)].kind == Dir
  }

  /** In a tree layer every row two or more levels down lies below a directory child of p. */
  lemma {:induction false} ChildAncestorIsDir(s: Store, p: Path, d: nat, q: Path)
    requires LayerIsTree(s, p, d)
    requires q in LayerDescendants(s, p, d) && |q| >= |p| + 2
    ensures (q[..|p| + 1], d) in s && s[(q[..|p| + 1], d)].kind == Dir
    decreases |q|
  {
    var r := Dirname(q);
    assert r == q[..|q| - 1];
    if |r| > |p| + 1 {
      assert r[..|p|] == p;
      assert r in LayerDescendants(s, p, d);
      ChildAncestorIsDir(s, p, d, r);
      assert r[..|p| + 1] == q[..|p| + 1];
    }
  }

  /**
   * On a tree layer the three statements mean what depth_sufficient_to_bump
   * uses them for: the depth is sufficient exactly when every row of the
   * layer below p is reached by an operation of that depth on p.
   */
  lemma DepthSufficientMeaning(s: Store, p: Path, d: nat, depth: SvnDepth)
    requires HandledDepth(depth) && LayerIsTree(s, p, d)
    ensures DepthSufficientToBump(s, p, d, depth)
      == Ok(forall q :: q in LayerDescendants(s, p, d) ==> WithinDepth(p, depth, q, s[(q, d)].kind))
  {
    var all := forall q :: q in LayerDescendants(s, p, d) ==> WithinDepth(p, depth, q, s[(q, d)].kind);
    if depth == DepthEmpty {
      if HasChildren(s, p, d) {
        var k :| k in s && k.1 == d && |k.0| == |p| + 1 && k.0[..|p|] == p;
        assert k.0 in LayerDescendants(s, p, d);
      }
      if !all {
        var q :| q in LayerDescendants(s, p, d) && !WithinDepth(p, depth, q, s[(q, d)].kind);
        if |q| >= |p| + 2 {
          ChildAncestorIsDir(s, p, d, q);
          assert q[..|p| + 1][..|p|] == p;
        }
      }
    } else if depth == DepthFiles {
      if HasNonFileChildren(s, p, d) {
        var k :| k in s && k.1 == d && |k.0| == |p| + 1 && k.0[..|p|] == p && s[k].kind != File;
        assert k.0 in LayerDescendants(s, p, d);
      }
      if !all {
        var q :| q in LayerDescendants(s, p, d) && !WithinDepth(p, depth, q, s[(q, d)].kind);
        if |q| >= |p| + 2 {
          ChildAncestorIsDir(s, p, d, q);
          assert q[..|p| + 1][..|p|] == p;
        }
      }
    } else if depth == DepthImmediates {
      if HasGrandchildren(s, p, d) {
        var k :| k in s && k.1 == d && |k.0| >= |p| + 2 && k.0[..|p|] == p;
        assert k.0 in LayerDescendants(s, p, d);
      }
    }
  }

  /** The rank of a handled depth: empty < files < immediates < infinity. */
  function DepthRank(depth: SvnDepth): (n: nat)
    requires HandledDepth(depth)
    ensures n < 4
  {
    match depth
    case DepthEmpty => 0
    case DepthFiles => 1
    case DepthImmediates => 2
    case DepthInfinity => 3
  }

  /** A depth sufficient to bump a tree layer stays sufficient at any greater depth. */
  lemma DepthSufficientMonotone(s: Store, p: Path, d: nat, a: SvnDepth, b: SvnDepth)
    requires HandledDepth(a) && HandledDepth(b) && DepthRank(a) <= DepthRank(b)
    requires LayerIsTree(s, p, d)
    requires DepthSufficientToBump(s, p, d, a) == Ok(true)
    ensures DepthSufficientToBump(s, p, d, b) == Ok(true)
  {
    DepthSufficientMeaning(s, p, d, a);
    DepthSufficientMeaning(s, p, d, b);
    forall q | q in LayerDescendants(s, p, d) ensures WithinDepth(p, b, q, s[(q, d)].kind) {
      assert WithinDepth(p, a, q, s[(q, d)].kind);
    }
  }

  // ----- bump_mark_tree_conflict -----

  /**
   * The mark_tree_conflict arguments of bump_mark_tree_conflict: a
   * moved-away, incoming-edit conflict on the move source root for an
   * update, whose new version is the BASE node of the move source op-root
   * (svn_wc__db_base_get_info_internal) and whose old version is the row
   * of the move destination op-root at its own depth
   * (svn_wc__db_depth_get_info). A missing row is SVN_ERR_WC_PATH_NOT_FOUND;
   * a row without a repository path is a malfunction.
   */
  function BumpConflict(s: Store, reposUrl: string, reposUuid: string,
                        srcRoot: Path, srcOpRoot: Path, dstOpRoot: Path): (r: Result<TreeConflictArgs, DbError>)
    ensures (srcOpRoot, 0) !in s ==> r == Err(PathNotFound(srcOpRoot))
    ensures (srcOpRoot, 0) in s && s[(srcOpRoot, 0)].reposRelpath.Some? && (dstOpRoot, |dstOpRoot|) !in s ==>
      r == Err(PathNotFound(dstOpRoot))
    ensures r.Ok? ==>
      (srcOpRoot, 0) in s && (dstOpRoot, |dstOpRoot|) in s
      && r.value.local == srcRoot && r.value.moveRootDst == dstOpRoot && r.value.operation == OpUpdate
      && r.value.reason == MovedAway && r.value.action == ActionEdit && r.value.moveSrcOpRoot == Some(srcOpRoot)
      && r.value.newKind == s[(srcOpRoot, 0)].kind && r.value.newVersion.pegRev == s[(srcOpRoot, 0)].revision
      && Some(r.value.newVersion.pathInRepos) == s[(srcOpRoot, 0)].reposRelpath
      && r.value.oldKind == s[(dstOpRoot, |dstOpRoot|)].kind && r.value.oldVersion.pegRev == s[(dstOpRoot, |dstOpRoot|)].revision
      && r.value.oldReposRelpath == s[(dstOpRoot, |dstOpRoot|)].reposRelpath
      && Some(r.value.oldVersion.pathInRepos) == r.value.oldReposRelpath
  {
    if (srcOpRoot, 0) !in s then Err(PathNotFound(srcOpRoot))
    else
      var base := s[(srcOpRoot, 0)];
      if base.reposRelpath.None? then Err(Malfunction)
      else if (dstOpRoot, |dstOpRoot|) !in s then Err(PathNotFound(dstOpRoot))
      else
        var moved := s[(dstOpRoot, |dstOpRoot|)];
        if moved.reposRelpath.None? then Err(Malfunction)
        else
          var oldV := Version(reposUrl, reposUuid, moved.reposRelpath.value, moved.revision, moved.kind);
          var newV := Version(reposUrl, reposUuid, base.reposRelpath.value, base.revision, base.kind);
          Ok(TreeConflictArgs(srcRoot, oldV, newV, dstOpRoot, OpUpdate, moved.kind, base.kind,
                              moved.reposRelpath, MovedAway, ActionEdit, Some(srcOpRoot)))
  }

  /**
   * A bump conflict that gets recorded is a moved-away, incoming-edit tree
   * conflict of an update whose new location is exactly the BASE location
   * of the move source op-root: the old repository path is the old
   * version's own path, so it relocates to the new version's path.
   */
  lemma BumpConflictRecorded(s: Store, conflicts: map<Path, Conflict>, reposUrl: string, reposUuid: string,
                             srcRoot: Path, srcOpRoot: Path, dstOpRoot: Path)
    requires BumpConflict(s, reposUrl, reposUuid, srcRoot, srcOpRoot, dstOpRoot).Ok?
    requires var a := BumpConflict(s, reposUrl, reposUuid, srcRoot, srcOpRoot, dstOpRoot).value;
      TreeConflictOutcome(conflicts, a).Ok? && TreeConflictOutcome(conflicts, a).value.Some?
    ensures var a := BumpConflict(s, reposUrl, reposUuid, srcRoot, srcOpRoot, dstOpRoot).value;
      var c := TreeConflictOutcome(conflicts, a).value.value;
      && c.operation == OpUpdate
      && c.tree == Some(TreeConflict(MovedAway, ActionEdit, Some(srcOpRoot)))
      && c.newVersion.Some? && Some(c.newVersion.value.pathInRepos) == s[(srcOpRoot, 0)].reposRelpath
      && c.newVersion.value.pegRev == s[(srcOpRoot, 0)].revision && c.newVersion.value.kind == s[(srcOpRoot, 0)].kind
      && c.oldVersion.Some? && Some(c.oldVersion.value.pathInRepos) == s[(dstOpRoot, |dstOpRoot|)].reposRelpath
  {
    var a := BumpConflict(s, reposUrl, reposUuid, srcRoot, srcOpRoot, dstOpRoot).value;
    TreeConflictRecorded(conflicts, a);
    SkipJoin(a.oldVersion.pathInRepos, []);
    assert a.oldVersion.pathInRepos + [] == a.oldVersion.pathInRepos;
    assert a.newVersion.pathInRepos + [] == a.newVersion.pathInRepos;
  }

  /**
   * bump_mark_tree_conflict: with the write lock on both op-roots, raise the
   * bump conflict on the move source root. The repository root URL and UUID
   * (svn_wc__db_fetch_repos_info) are inputs.
   */
  method BumpMarkTreeConflict(db: Db, reposUrl: string, reposUuid: string,
                              srcRoot: Path, srcOpRoot: Path, dstOpRoot: Path)
    returns (err: Option<DbError>)
    modifies db
    ensures db.store == old(db.store) && db.workQueue == old(db.workQueue) && db.parentDeletes == old(db.parentDeletes)
    ensures !db.env.writeLocked(srcOpRoot) ==>
      err == Some(NotLocked(srcOpRoot)) && db.conflicts == old(db.conflicts) && db.moveList == old(db.moveList)
    ensures db.env.writeLocked(srcOpRoot) && !db.env.writeLocked(dstOpRoot) ==>
      err == Some(NotLocked(dstOpRoot)) && db.conflicts == old(db.conflicts) && db.moveList == old(db.moveList)
    ensures db.env.writeLocked(srcOpRoot) && db.env.writeLocked(dstOpRoot) ==>
      match BumpConflict(old(db.store), reposUrl, reposUuid, srcRoot, srcOpRoot, dstOpRoot)
      case Err(e) => err == Some(e) && db.conflicts == old(db.conflicts) && db.moveList == old(db.moveList)
      case Ok(a) => MarkOutcome(a, old(db.conflicts), old(db.moveList), db.conflicts, db.moveList, err)
    ensures KeepsTreeConflicts(old(db.conflicts), db.conflicts)
    ensures err.None? ==> HasBumpConflict(db.conflicts, srcRoot, srcOpRoot)
  {
    err := db.VerifyWriteLock(srcOpRoot);
    if err.Some? {
      return;
    }
    err := db.VerifyWriteLock(dstOpRoot);
    if err.Some? {
      return;
    }
    var args := BumpConflict(db.store, reposUrl, reposUuid, srcRoot, srcOpRoot, dstOpRoot);
    if args.Err? {
      return Some(args.error);
    }
    ghost var c0, m0 := db.conflicts, db.moveList;
    err := db.MarkTreeConflict(args.value);
    MarkKeepsTreeConflicts(args.value, c0, m0, db.conflicts, db.moveList, err);
  }

  /** p carries the moved-away, incoming-edit tree conflict a bump raises for the move of opRoot. */
  predicate HasBumpConflict(c: map<Path, Conflict>, p: Path, opRoot: Path)
  {
    (p, TreeConflict(MovedAway, ActionEdit, Some(opRoot))) in TreeConflicts(c)
  }

  // ----- bump_moved_away -----

  /** One result row of STMT_SELECT_MOVED_PAIR3. */
  datatype MovedPair = MovedPair(src: Path, dst: Path, srcOpDepth: nat, kind: Kind)

  /** The lowest working row of q above op_depth d records a move. */
  predicate MovedAbove(s: Store, q: Path, d: nat)
  {
    LowestWorkingNode(s, q, d).Some? && s[(q, LowestWorkingNode(s, q, d).value)].movedTo.Some?
  }

  function PairOf(s: Store, q: Path, d: nat): MovedPair
    requires (q, d) in s && MovedAbove(s, q, d)
  {
    var lw := LowestWorkingNode(s, q, d).value;
    MovedPair(q, s[(q, lw)].movedTo.value, lw, s[(q, d)].kind)
  }

  /**
   * STMT_SELECT_MOVED_PAIR3 (assumed meaning): for every node q with a row
   * at op_depth d in the subtree rooted at p whose lowest working row above
   * d records a move, the move: q, where it was moved to, the op_depth of
   * that row and the kind of q at d.
   */
  function MovedPairs(s: Store, p: Path, d: nat): (r: set<MovedPair>)
    ensures forall pr :: pr in r ==>
      pr.src in LayerPaths(s, p, d) && (pr.src, pr.srcOpDepth) in s && d < pr.srcOpDepth
      && s[(pr.src, pr.srcOpDepth)].movedTo == Some(pr.dst) && pr.kind == s[(pr.src, d)].kind
      && pr.src in MovedSources(s)
    ensures forall q :: q in LayerPaths(s, p, d) && MovedAbove(s, q, d) ==> PairOf(s, q, d) in r
  {
    set q | q in LayerPaths(s, p, d) && MovedAbove(s, q, d) :: PairOf(s, q, d)
  }

  /** The loop of bump_moved_layer that climbs from src to the op-root of its layer at op_depth sd. */
  method OpRootOf(src: Path, sd: nat) returns (r: Path)
    ensures r == AncestorAtDepth(src, sd)
  {
    r := src;
    while |r| > sd
      invariant IsAncestor(r, src) && (r == src || |r| >= sd)
      decreases |r|
    {
      assert src[..|r| - 1] == r[..|r| - 1];
      r := Dirname(r);
    }
  }

  /** Removing one more element of a from b shrinks the difference. */
  lemma MeasureDrops(a0: set<Path>, d0: set<Path>, a1: set<Path>, d1: set<Path>, x: Path)
    requires a1 <= a0 && d0 <= d1 && x in a0 && x !in d0 && x in d1
    ensures |a1 - d1| < |a0 - d0|
  {
    assert a1 - d1 <= (a0 - d0) - {x};
    assert |(a0 - d0) - {x}| == |a0 - d0| - 1;
    SubsetCard(a1 - d1, (a0 - d0) - {x});
  }

  /**
   * What bump_moved_layer leaves behind for the move of src recorded at
   * op_depth sd, found below local at op_depth opDepth, when it returns no
   * error: src is among the handled sources (bumped, or its op-root was in
   * conflict), local has a layer between the two op_depths, or, for a BASE
   * move the depth did not cover, src carries the bump conflict.
   */
  predicate Handled(s: Store, c: map<Path, Conflict>, done: set<Path>, local: Path, opDepth: nat, src: Path, sd: nat)
  {
    src in done || HasLayerBetween(s, local, opDepth, sd) || (opDepth == 0 && HasBumpConflict(c, src, src))
  }

  /**
   * Every row of STMT_SELECT_MOVED_PAIR3 in ps passed check_bump_layer, and
   * every one the bump depth reaches is handled.
   */
  predicate AllHandled(ps: set<MovedPair>, s: Store, c: map<Path, Conflict>, done: set<Path>,
                       local: Path, opDepth: nat, depth: SvnDepth)
  {
    forall pr :: pr in ps ==>
      CheckBumpLayer(local, depth, pr.src, pr.kind).Ok?
      && (!CheckBumpLayer(local, depth, pr.src, pr.kind).value.0 ==> Handled(s, c, done, local, opDepth, pr.src, pr.srcOpDepth))
  }

  /** A handled move stays handled while rows, tree conflicts and handled sources are only added. */
  lemma HandledStable(s0: Store, c0: map<Path, Conflict>, d0: set<Path>, s1: Store, c1: map<Path, Conflict>, d1: set<Path>,
                      local: Path, opDepth: nat, src: Path, sd: nat)
    requires Handled(s0, c0, d0, local, opDepth, src, sd)
    requires s0.Keys <= s1.Keys && KeepsTreeConflicts(c0, c1) && d0 <= d1
    ensures Handled(s1, c1, d1, local, opDepth, src, sd)
  {
    if HasLayerBetween(s0, local, opDepth, sd) {
      var k :| k in s0 && k.0 == local && opDepth < k.1 < sd;
      assert k in s1;
    }
  }

  /** One more row handled: the rows seen so far stay handled and the new one joins them. */
  lemma HandledStep(all: set<MovedPair>, todo: set<MovedPair>, pair: MovedPair,
                    s0: Store, c0: map<Path, Conflict>, d0: set<Path>,
                    s1: Store, c1: map<Path, Conflict>, d1: set<Path>, local: Path, opDepth: nat, depth: SvnDepth)
    requires AllHandled(all - todo, s0, c0, d0, local, opDepth, depth) && AllHandled({pair}, s1, c1, d1, local, opDepth, depth)
    requires s0.Keys <= s1.Keys && KeepsTreeConflicts(c0, c1) && d0 <= d1
    ensures AllHandled(all - (todo - {pair}), s1, c1, d1, local, opDepth, depth)
  {
    AllHandledStable(all - todo, s0, c0, d0, s1, c1, d1, local, opDepth, depth);
  }

  /** HandledStable for every row of a set. */
  lemma AllHandledStable(ps: set<MovedPair>, s0: Store, c0: map<Path, Conflict>, d0: set<Path>,
                         s1: Store, c1: map<Path, Conflict>, d1: set<Path>, local: Path, opDepth: nat, depth: SvnDepth)
    requires AllHandled(ps, s0, c0, d0, local, opDepth, depth)
    requires s0.Keys <= s1.Keys && KeepsTreeConflicts(c0, c1) && d0 <= d1
    ensures AllHandled(ps, s1, c1, d1, local, opDepth, depth)
  {
    forall pr | pr in ps && CheckBumpLayer(local, depth, pr.src, pr.kind).Ok? && !CheckBumpLayer(local, depth, pr.src, pr.kind).value.0
      ensures Handled(s1, c1, d1, local, opDepth, pr.src, pr.srcOpDepth)
    {
      HandledStable(s0, c0, d0, s1, c1, d1, local, opDepth, pr.src, pr.srcOpDepth);
    }
  }

  /**
   * The state shared by one bump: the move sources already handled (the
   * src_done hash) and, as a record for the proofs, the sources whose
   * move was bumped, in order.
   */
  class BumpWalk {
    const db: Db
    const reposUrl: string
    const reposUuid: string
    var srcDone: set<Path>
    ghost var bumped: seq<Path>

    /** Every bumped source is in srcDone, and no source is bumped twice. */
    ghost predicate Valid()
      reads this, db
    {
      && db.Valid()
      && (forall i :: 0 <= i < |bumped| ==> bumped[i] in srcDone)
      && (forall i, j :: 0 <= i < j < |bumped| ==> bumped[i] != bumped[j])
    }

    constructor (db: Db, reposUrl: string, reposUuid: string)
      requires db.Valid()
      ensures Valid() && this.db == db && this.reposUrl == reposUrl && this.reposUuid == reposUuid
      ensures srcDone == {} && bumped == []
    {
      this.db, this.reposUrl, this.reposUuid := db, reposUrl, reposUuid;
      srcDone, bumped := {}, [];
    }

    /**
     * bump_moved_layer: bump the move of src (whose move is recorded at
     * op_depth sd, to dst) found below local at op_depth opDepth, if it can
     * be bumped. A layer of local between opDepth and sd leaves it alone; a
     * BASE move needs srcDepth to cover the whole moved tree, otherwise a
     * tree conflict is raised on src; an already handled source is left
     * alone; a source whose op-root is in conflict is only recorded as
     * handled; any other one gets its destination layer replaced, and
     * recurse tells the caller to bump the moves inside the destination.
     */
    method BumpMovedLayer(local: Path, opDepth: nat, src: Path, sd: nat, kind: Kind, srcDepth: SvnDepth, dst: Path)
      returns (err: Option<DbError>, recurse: bool)
      requires Valid()
      modifies this, db
      ensures Valid()
      ensures old(db.store).Keys <= db.store.Keys && MovedSources(db.store) <= MovedSources(old(db.store))
      ensures old(srcDone) <= srcDone <= old(srcDone) + {src}
      ensures db.workQueue == old(db.workQueue)
      ensures recurse ==>
        err.None? && src !in old(srcDone) && src in srcDone && bumped == old(bumped) + [src]
        && AncestorAtDepth(src, sd) !in old(db.conflicts) && db.conflicts == old(db.conflicts)
        && (NoOverlap(src, opDepth, dst) ==> db.store == ReplaceLayer(old(db.store), src, opDepth, dst))
      ensures !recurse ==> db.store == old(db.store) && bumped == old(bumped) && db.parentDeletes == old(db.parentDeletes)
      ensures !db.env.writeLocked(local) ==>
        err == Some(NotLocked(local)) && !recurse && srcDone == old(srcDone) && db.conflicts == old(db.conflicts)
      ensures db.env.writeLocked(local) && HasLayerBetween(old(db.store), local, opDepth, sd) ==>
        err.None? && !recurse && srcDone == old(srcDone) && db.conflicts == old(db.conflicts)
      ensures db.env.writeLocked(local) && !HasLayerBetween(old(db.store), local, opDepth, sd) && opDepth == 0
              && DepthSufficientToBump(old(db.store), src, 0, srcDepth).Err? ==>
        err == Some(Malfunction) && !recurse && srcDone == old(srcDone) && db.conflicts == old(db.conflicts)
      ensures db.env.writeLocked(local) && !HasLayerBetween(old(db.store), local, opDepth, sd) && opDepth == 0
              && DepthSufficientToBump(old(db.store), src, 0, srcDepth) == Ok(false) ==>
        !recurse && srcDone == old(srcDone)
        && (db.env.writeLocked(src) && db.env.writeLocked(dst)
            && BumpConflict(old(db.store), reposUrl, reposUuid, src, src, dst).Ok? ==>
              MarkOutcome(BumpConflict(old(db.store), reposUrl, reposUuid, src, src, dst).value,
                          old(db.conflicts), old(db.moveList), db.conflicts, db.moveList, err))
      ensures db.env.writeLocked(local) && !HasLayerBetween(old(db.store), local, opDepth, sd)
              && (opDepth > 0 || DepthSufficientToBump(old(db.store), src, 0, srcDepth) == Ok(true)) ==>
        err.None? && db.conflicts == old(db.conflicts) && db.moveList == old(db.moveList)
        && srcDone == old(srcDone) + {src}
        && (recurse <==> src !in old(srcDone) && AncestorAtDepth(src, sd) !in old(db.conflicts))
      ensures KeepsTreeConflicts(old(db.conflicts), db.conflicts)
      ensures err.None? ==> Handled(db.store, db.conflicts, srcDone, local, opDepth, src, sd)
    {
      recurse := false;
      err := db.VerifyWriteLock(local);
      if err.Some? {
        return;
      }
      if HasLayerBetween(db.store, local, opDepth, sd) {
        return;
      }
      var canBump := true;
      if opDepth == 0 {
        var sufficient := DepthSufficientToBump(db.store, src, opDepth, srcDepth);
        if sufficient.Err? {
          return Some(sufficient.error), false;
        }
        canBump := sufficient.value;
      }
      if !canBump {
        err := BumpMarkTreeConflict(db, reposUrl, reposUuid, src, src, dst);
        return;
      }
      var srcRoot := OpRootOf(src, sd);
      if src in srcDone {
        return;
      }
      srcDone := srcDone + {src};
      if srcRoot !in db.conflicts {
        db.ReplaceMovedLayer(src, dst, opDepth);
        bumped := bumped + [src];
        recurse := true;
      }
    }

    /**
     * One row of the loop of bump_moved_away: check the move against the
     * bump depth, and bump it if the bump reaches it. ms bounds the sources
     * that can still be moved.
     */
    method BumpPair(local: Path, opDepth: nat, depth: SvnDepth, pair: MovedPair, ghost ms: set<Path>)
      returns (err: Option<DbError>)
      requires Valid()
      requires MovedSources(db.store) <= ms && pair.src in ms
      modifies this, db
      ensures Valid()
      ensures old(db.store).Keys <= db.store.Keys && MovedSources(db.store) <= MovedSources(old(db.store))
      ensures old(srcDone) <= srcDone && srcDone - old(srcDone) <= ms
      ensures old(bumped) <= bumped
      ensures db.workQueue == old(db.workQueue)
      ensures CheckBumpLayer(local, depth, pair.src, pair.kind).Err? ==>
        err == Some(Malfunction) && db.store == old(db.store) && srcDone == old(srcDone) && db.conflicts == old(db.conflicts)
      ensures CheckBumpLayer(local, depth, pair.src, pair.kind).Ok? && CheckBumpLayer(local, depth, pair.src, pair.kind).value.0 ==>
        err.None? && db.store == old(db.store) && srcDone == old(srcDone) && db.conflicts == old(db.conflicts)
      ensures KeepsTreeConflicts(old(db.conflicts), db.conflicts)
      ensures err.None? ==> AllHandled({pair}, db.store, db.conflicts, srcDone, local, opDepth, depth)
      decreases |ms - srcDone|, 1
    {
      var check := CheckBumpLayer(local, depth, pair.src, pair.kind);
      if check.Err? {
        return Some(check.error);
      }
      var (skip, srcDepth) := check.value;
      if skip {
        return None;
      }
      err := BumpReachedPair(local, opDepth, pair, srcDepth, depth, ms);
    }

    /**
     * The rest of one row of bump_moved_away, for a move the bump reaches
     * with depth srcDepth: bump it, and follow a bumped move into its
     * destination with the bump depth.
     */
    method BumpReachedPair(local: Path, opDepth: nat, pair: MovedPair, srcDepth: SvnDepth, depth: SvnDepth, ghost ms: set<Path>)
      returns (err: Option<DbError>)
      requires Valid()
      requires MovedSources(db.store) <= ms && pair.src in ms
      modifies this, db
      ensures Valid()
      ensures old(db.store).Keys <= db.store.Keys && MovedSources(db.store) <= MovedSources(old(db.store))
      ensures old(srcDone) <= srcDone && srcDone - old(srcDone) <= ms
      ensures old(bumped) <= bumped
      ensures db.workQueue == old(db.workQueue)
      ensures KeepsTreeConflicts(old(db.conflicts), db.conflicts)
      ensures err.None? ==> Handled(db.store, db.conflicts, srcDone, local, opDepth, pair.src, pair.srcOpDepth)
      decreases |ms - srcDone|, 0
    {
      var recurse;
      err, recurse := BumpMovedLayer(local, opDepth, pair.src, pair.srcOpDepth, pair.kind, srcDepth, pair.dst);
      if err.None? && recurse {
        MeasureDrops(ms, old(srcDone), MovedSources(db.store), srcDone, pair.src);
        ghost var s1, c1, d1 := db.store, db.conflicts, srcDone;
        err := BumpMovedAway(pair.dst, |pair.dst|, depth);
        if err.None? {
          HandledStable(s1, c1, d1, db.store, db.conflicts, srcDone, local, opDepth, pair.src, pair.srcOpDepth);
        }
      }
    }

    /**
     * bump_moved_away: bump the moves of the nodes of the subtree rooted at
     * local that were below it at op_depth opDepth, for a bump of the given
     * depth on local, each move in turn; a bumped move is followed into its
     * destination. The first error stops the walk. The sources newly
     * handled were all moved in the working copy the walk started from.
     */
    method BumpMovedAway(local: Path, opDepth: nat, depth: SvnDepth) returns (err: Option<DbError>)
      requires Valid()
      modifies this, db
      ensures Valid()
      ensures old(db.store).Keys <= db.store.Keys && MovedSources(db.store) <= MovedSources(old(db.store))
      ensures old(srcDone) <= srcDone
      ensures srcDone - old(srcDone) <= MovedSources(old(db.store))
      ensures old(bumped) <= bumped
      ensures db.workQueue == old(db.workQueue)
      ensures KeepsTreeConflicts(old(db.conflicts), db.conflicts)
      ensures err.None? ==> AllHandled(MovedPairs(old(db.store), local, opDepth), db.store, db.conflicts, srcDone, local, opDepth, depth)
      decreases |MovedSources(db.store) - srcDone|, 2
    {
      ghost var s0, done0, c0 := db.store, srcDone, db.conflicts;
      var todo := MovedPairs(db.store, local, opDepth);
      ghost var all := todo;
      while todo != {}
        invariant Valid()
        invariant s0.Keys <= db.store.Keys && MovedSources(db.store) <= MovedSources(s0)
        invariant done0 <= srcDone
        invariant srcDone - done0 <= MovedSources(s0)
        invariant old(bumped) <= bumped
        invariant db.workQueue == old(db.workQueue)
        invariant KeepsTreeConflicts(c0, db.conflicts)
        invariant todo <= all
        invariant AllHandled(all - todo, db.store, db.conflicts, srcDone, local, opDepth, depth)
        decreases |todo|
      {
        var pair :| pair in todo;
        SubsetCard(MovedSources(s0) - srcDone, MovedSources(s0) - done0);
        ghost var s1, c1, d1 := db.store, db.conflicts, srcDone;
        err := BumpPair(local, opDepth, depth, pair, MovedSources(s0));
        if err.Some? {
          return;
        }
        HandledStep(all, todo, pair, s1, c1, d1, db.store, db.conflicts, srcDone, local, opDepth, depth);
        todo := todo - {pair};
      }
      err := None;
    }
  }

  /**
   * svn_wc__db_bump_moved_away: start a fresh notification list; when the
   * root of the update lies inside a moved-away subtree whose root is
   * elsewhere, raise the bump conflict on that root and stop; otherwise
   * bump every move below the root at op_depth 0 with an empty set of
   * handled sources. The repository root URL and UUID are inputs; walk is
   * the record of that bump, through which the contract states that every
   * move below local that the depth reaches was handled.
   */
  method BumpMovedAwayEntry(db: Db, local: Path, depth: SvnDepth, reposUrl: string, reposUuid: string)
    returns (err: Option<DbError>, ghost walk: BumpWalk?)
    requires db.Valid()
    modifies db
    ensures db.Valid()
    ensures KeepsTreeConflicts(old(db.conflicts), db.conflicts)
    ensures !(local != [] && db.env.movedAway(local, 0).Some? && db.env.movedAway(local, 0).value.moveSrcRoot != local) ==>
      walk != null && fresh(walk) && walk.db == db && walk.srcDone <= MovedSources(old(db.store))
      && (err.None? ==> AllHandled(MovedPairs(old(db.store), local, 0), db.store, db.conflicts, walk.srcDone, local, 0, depth))
    ensures old(db.store).Keys <= db.store.Keys && MovedSources(db.store) <= MovedSources(old(db.store))
    ensures db.workQueue == old(db.workQueue)
    ensures local != [] && db.env.movedAway(local, 0).Some? && db.env.movedAway(local, 0).value.moveSrcRoot != local ==>
      var m := db.env.movedAway(local, 0).value;
      db.store == old(db.store)
      && (db.env.writeLocked(m.moveSrcOpRoot) && db.env.writeLocked(m.moveDstOpRoot)
          && BumpConflict(old(db.store), reposUrl, reposUuid, m.moveSrcRoot, m.moveSrcOpRoot, m.moveDstOpRoot).Ok? ==>
            MarkOutcome(BumpConflict(old(db.store), reposUrl, reposUuid, m.moveSrcRoot, m.moveSrcOpRoot, m.moveDstOpRoot).value,
                        old(db.conflicts), [], db.conflicts, db.moveList, err))
  {
    db.CreateUpdateMoveList();
    if local != [] {
      var m := db.env.movedAway(local, 0);
      if m.Some? && m.value.moveSrcRoot != local {
        err := BumpMarkTreeConflict(db, reposUrl, reposUuid, m.value.moveSrcRoot, m.value.moveSrcOpRoot, m.value.moveDstOpRoot);
        return err, null;
      }
    }
    var w := new BumpWalk(db, reposUrl, reposUuid);
    err := w.BumpMovedAway(local, 0, depth);
    walk := w;
  }
}
