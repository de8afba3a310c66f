/**
 * The update of a moved-away subtree, from libsvn_wc/wc_db_update_move.c.
 * After an update has changed the move source, the driver walks the source
 * (the post-update state) beside the destination (still the pre-update
 * state) and calls the receiver (the tc_editor_* routines) with a delete,
 * an add or an alter per node, raising tree conflicts where local changes
 * or higher layers are in the way; then the source layer is copied over the
 * destination layer.
 */
module MoveEditor {
  import opened Wrappers
  import opened Lex
  import opened RelPath
  import opened Nodes
  import opened WcDb

  // ----- what get_info reports -----

  /** The kind, checksum, properties and child names of a node in one layer. */
  datatype NodeInfo = NodeInfo(kind: Kind, checksum: Option<Checksum>, props: Option<Props>, children: set<string>)

  /**
   * get_info on the row of p at op_depth d: a missing row, or one that only
   * records the delete of a lower layer, is reported as no node; a deleted
   * row with a repository path is a not-present node and keeps its kind.
   */
  function InfoOf(s: Store, p: Path, d: nat): NodeInfo
  {
    if (p, d) !in s then NodeInfo(NoNode, None, None, {})
    else if ReadsDeleted(s[(p, d)], d) then
      NodeInfo(if s[(p, d)].reposRelpath.None? then NoNode else s[(p, d)].kind, None, None, {})
    else NodeInfo(s[(p, d)].kind, s[(p, d)].checksum, s[(p, d)].props, ChildNames(s, p, d))
  }

  /** svn_checksum_match: a missing checksum matches any checksum. */
  predicate ChecksumMatch(a: Option<Checksum>, b: Option<Checksum>)
  {
    a.None? || b.None? || a == b
  }

  /** svn_prop_diffs, as the names whose values differ between the two property sets. */
  function PropDiffs(a: Props, b: Props): set<string>
  {
    set n | n in a.Keys + b.Keys && (n !in a || n !in b || a[n] != b[n])
  }

  lemma PropDiffsEmpty(a: Props, b: Props)
    ensures PropDiffs(a, b) == {} <==> a == b
  {
    if PropDiffs(a, b) == {} {
      forall n | n in a ensures n in b && a[n] == b[n] {
        assert n !in PropDiffs(a, b);
      }
      forall n | n in b ensures n in a {
        assert n !in PropDiffs(a, b);
      }
      assert a.Keys == b.Keys;
    }
  }

  /** props_match: two missing property sets match, one missing set matches nothing, two sets match when they have no differences. */
  function PropsMatch(a: Option<Props>, b: Option<Props>): (m: bool)
    ensures m <==> a == b
  {
    if a.None? && b.None? then true
    else if a.None? || b.None? then false
    else PropDiffsEmpty(a.value, b.value); PropDiffs(a.value, b.value) == {}
  }

  /** children_match: the two sorted child lists are the same, name by name. */
  method ChildrenMatch(a: seq<string>, b: seq<string>) returns (r: bool)
    ensures r <==> a == b
  {
    if |a| != |b| {
      return false;
    }
    for i := 0 to |a|
      invariant a[..i] == b[..i]
    {
      if a[i] != b[i] {
        return false;
      }
      assert a[..i + 1] == a[..i] + [a[i]] && b[..i + 1] == b[..i] + [b[i]];
    }
    assert a == a[..|a|] && b == b[..|b|];
    return true;
  }

  /** Sorted child lists are equal exactly when they name the same children. */
  lemma ChildrenMatchSorted(a: seq<string>, b: seq<string>)
    requires StrictlySorted(a) && StrictlySorted(b)
    ensures a == b <==> Elems(a) == Elems(b)
  {
    if Elems(a) == Elems(b) {
      SortedUnique(a, b);
    }
  }

  /** svn_sort__hash with svn_sort_compare_items_lexically: the names in strcmp order. */
  method SortNames(names: set<string>) returns (sorted: seq<string>)
    ensures StrictlySorted(sorted) && Elems(sorted) == names
  {
    sorted := [];
    var rest := names;
    while rest != {}
      invariant StrictlySorted(sorted)
      invariant Elems(sorted) + rest == names && Elems(sorted) !! rest
      invariant forall x, y :: x in sorted && y in rest ==> StrLt(x, y)
      decreases |rest|
    {
      HasLeast(rest);
      var m :| IsLeast(m, rest);
      forall i, j | 0 <= i < j < |sorted + [m]| ensures StrLt((sorted + [m])[i], (sorted + [m])[j]) {
        if j == |sorted| {
          assert (sorted + [m])[i] in sorted;
        }
      }
      assert Elems(sorted + [m]) == Elems(sorted) + {m};
      sorted := sorted + [m];
      rest := rest - {m};
    }
  }

  // ----- the edits the driver chooses -----

  /** A call the driver makes on the receiver, or on the parent-delete helpers, for one destination node. */
  datatype EditCall =
    | EdDelete(path: Path)
    | EdDeleteLeaf(path: Path)
    | EdExtendDelete(path: Path, kind: Kind)
    | EdAddFile(path: Path, checksum: Option<Checksum>, props: Option<Props>)
    | EdAddDir(path: Path, props: Option<Props>)
    | EdAlterFile(path: Path, checksum: Option<Checksum>, props: Option<Props>)
    | EdAlterDir(path: Path, props: Option<Props>)

  /** The destination node goes: the source has no node, or both have nodes of different kinds. */
  predicate DeletesNode(src: NodeInfo, dst: NodeInfo)
  {
    src.kind == NoNode || (dst.kind != NoNode && src.kind != dst.kind)
  }

  /** The source node is added: it exists and its kind differs from the destination's. */
  predicate AddsNode(src: NodeInfo, dst: NodeInfo)
  {
    src.kind != NoNode && src.kind != dst.kind
  }

  /** The alter, if any, for two nodes of the same kind: only what changed is passed on. */
  function AlterEdits(src: NodeInfo, dst: NodeInfo, p: Path): seq<EditCall>
  {
    var props := if PropsMatch(src.props, dst.props) then None else src.props;
    if src.kind == File || src.kind == Symlink then
      var checksum := if ChecksumMatch(src.checksum, dst.checksum) then None else src.checksum;
      if props.Some? || checksum.Some? then [EdAlterFile(p, checksum, props)] else []
    else if src.kind == Dir then
      if props.Some? || src.children != dst.children then [EdAlterDir(p, props)] else []
    else []
  }

  /** The delete update_moved_away_node drives for the destination node, if any. */
  function DeleteEdits(src: NodeInfo, dst: NodeInfo, p: Path): seq<EditCall>
  {
    if DeletesNode(src, dst) then [EdDelete(p), EdDeleteLeaf(p)] else []
  }

  /** The add or alter update_moved_away_node drives after any delete. */
  function ReplaceEdits(src: NodeInfo, dst: NodeInfo, shadowed: bool, p: Path): seq<EditCall>
  {
    if AddsNode(src, dst) then
      (if shadowed then [EdExtendDelete(p, src.kind)] else [])
      + (if src.kind == File || src.kind == Symlink then [EdAddFile(p, src.checksum, src.props)]
         else if src.kind == Dir then [EdAddDir(p, src.props)]
         else [])
    else if src.kind != NoNode then AlterEdits(src, dst, p)
    else []
  }

  /** The calls update_moved_away_node makes for the node pair itself, before it visits any child. */
  function NodeEdits(src: NodeInfo, dst: NodeInfo, shadowed: bool, p: Path): seq<EditCall>
  {
    DeleteEdits(src, dst, p) + ReplaceEdits(src, dst, shadowed, p)
  }

  /** An add of either kind. */
  predicate IsAdd(e: EditCall)
  {
    e.EdAddFile? || e.EdAddDir?
  }

  /** An alter of either kind. */
  predicate IsAlter(e: EditCall)
  {
    e.EdAlterFile? || e.EdAlterDir?
  }

  /** A delete is driven exactly when the source has no node or the kinds differ, and it comes first. */
  lemma NodeEditsDelete(src: NodeInfo, dst: NodeInfo, shadowed: bool, p: Path)
    ensures EdDelete(p) in NodeEdits(src, dst, shadowed, p) <==> DeletesNode(src, dst)
    ensures DeletesNode(src, dst) ==> NodeEdits(src, dst, shadowed, p)[..2] == [EdDelete(p), EdDeleteLeaf(p)]
  {
  }

  /**
   * An add of the source's kind is driven exactly when the source exists
   * with a kind (file, symlink or directory) other than the destination's;
   * it is the last call for the node and follows any delete.
   */
  lemma NodeEditsAdd(src: NodeInfo, dst: NodeInfo, shadowed: bool, p: Path)
    ensures (exists i :: 0 <= i < |NodeEdits(src, dst, shadowed, p)| && IsAdd(NodeEdits(src, dst, shadowed, p)[i]))
      <==> AddsNode(src, dst) && src.kind in {File, Symlink, Dir}
    ensures AddsNode(src, dst) && src.kind in {File, Symlink, Dir} ==>
      var e := NodeEdits(src, dst, shadowed, p);
      |e| > 0 && IsAdd(e[|e| - 1]) && (e[|e| - 1].EdAddDir? <==> src.kind == Dir)
  {
    var e := NodeEdits(src, dst, shadowed, p);
    if AddsNode(src, dst) && src.kind in {File, Symlink, Dir} {
      assert IsAdd(e[|e| - 1]);
    } else {
      forall i | 0 <= i < |e| ensures !IsAdd(e[i]) {
        if !AddsNode(src, dst) && src.kind != NoNode {
          assert e == AlterEdits(src, dst, p);
        }
      }
    }
  }

  /**
   * Nodes of the same kind get an alter only when something changed: the
   * properties, a file's checksum, or a directory's children; the alter
   * carries only what changed.
   */
  lemma NodeEditsAlter(src: NodeInfo, dst: NodeInfo, shadowed: bool, p: Path)
    ensures (exists i :: 0 <= i < |NodeEdits(src, dst, shadowed, p)| && IsAlter(NodeEdits(src, dst, shadowed, p)[i]))
      <==> (src.kind == dst.kind &&
        (((src.kind == File || src.kind == Symlink) && ((!PropsMatch(src.props, dst.props) && src.props.Some?) || !ChecksumMatch(src.checksum, dst.checksum)))
         || (src.kind == Dir && ((!PropsMatch(src.props, dst.props) && src.props.Some?) || src.children != dst.children))))
    ensures NodeEdits(src, dst, shadowed, p) == []
      || NodeEdits(src, dst, shadowed, p) == AlterEdits(src, dst, p)
      || DeletesNode(src, dst) || AddsNode(src, dst)
  {
    var e := NodeEdits(src, dst, shadowed, p);
    if src.kind == dst.kind && src.kind != NoNode {
      assert e == AlterEdits(src, dst, p);
      if |e| > 0 {
        assert IsAlter(e[0]);
      }
    } else {
      forall i | 0 <= i < |e| ensures !IsAlter(e[i]) {
      }
    }
  }

  /** A node that is the same on both sides gets no call at all. */
  lemma NodeEditsIdentical(n: NodeInfo, shadowed: bool, p: Path)
    requires n.kind != NoNode
    ensures NodeEdits(n, n, shadowed, p) == []
  {
    assert PropsMatch(n.props, n.props);
  }

  // ----- check_tree_conflict's climb -----

  /** svn_relpath_dirname applied n times. */
  function DirnameTimes(r: Path, n: nat): (q: Path)
    ensures IsAncestor(q, r) && |q| == if n <= |r| then |r| - n else 0
  {
    if n <= |r| then r[..|r| - n] else []
  }

  lemma DirnameTimesStep(r: Path, n: nat)
    ensures Dirname(DirnameTimes(r, n)) == DirnameTimes(r, n + 1)
  {
    if n < |r| {
      assert r[..|r| - n][..|r| - n - 1] == r[..|r| - (n + 1)];
    }
  }

  /**
   * The loop of check_tree_conflict that climbs from p to the ancestor at the
   * op-depth of the obstructing layer; every step up makes both kinds
   * directories, the action an edit and takes the dirname of the repository path.
   */
  method ClimbToLayer(p: Path, opDepth: nat, oldKind: Kind, newKind: Kind, oldRepos: Option<Path>, action: Action)
    returns (root: Path, k1: Kind, k2: Kind, repos: Option<Path>, act: Action)
    ensures root == AncestorAtDepth(p, opDepth)
    ensures |p| > opDepth ==> (k1 == Dir && k2 == Dir && act == ActionEdit
      && repos == (if oldRepos.Some? then Some(DirnameTimes(oldRepos.value, |p| - opDepth)) else None))
    ensures |p| <= opDepth ==> k1 == oldKind && k2 == newKind && repos == oldRepos && act == action
  {
    root, k1, k2, repos, act := p, oldKind, newKind, oldRepos, action;
    while |root| > opDepth
      invariant |root| <= |p| && root == AncestorAtDepth(p, |root|)
      invariant |p| > opDepth ==> opDepth <= |root|
      invariant |p| <= opDepth ==> root == p
      invariant |root| == |p| ==> k1 == oldKind && k2 == newKind && repos == oldRepos && act == action
      invariant |root| < |p| ==> (k1 == Dir && k2 == Dir && act == ActionEdit
        && repos == (if oldRepos.Some? then Some(DirnameTimes(oldRepos.value, |p| - |root|)) else None))
      decreases |root|
    {
      DirnameOfAncestorAtDepth(p, |root| - 1);
      if repos.Some? {
        if |root| == |p| {
          assert DirnameTimes(repos.value, 0) == repos.value;
        }
        DirnameTimesStep(oldRepos.value, |p| - |root|);
        repos := Some(Dirname(repos.value));
      }
      root := Dirname(root);
      k1, k2, act := Dir, Dir, ActionEdit;
    }
    assert |root| == |p| ==> root == p;
  }

  // ----- the receiver -----

  /** update_move_baton_t: the database, the move destination root and the most recent conflict root. */
  /** The work item removing the working file or (non-recursively) the directory q. */
  function RemoveItem(q: Path, k: Kind): WorkItem
  {
    if k == Dir then DirRemove(q) else FileRemove(q)
  }

  /** The paths of a sequence, as a set. */
  function PathSet(order: seq<Path>): set<Path>
  {
    set q | q in order
  }

  /** order lists its paths from the PathLt-greatest down. */
  predicate Descending(order: seq<Path>)
  {
    forall i, j :: 0 <= i < j < |order| ==> PathLt(order[j], order[i])
  }

  /**
   * The removal items tc_editor_delete queues for the rows at op-depth d
   * strictly below p, in the descending path order of its query, one per
   * row.
   */
  method DescendingRemovals(s: Store, p: Path, d: nat) returns (order: seq<Path>, items: seq<WorkItem>)
    ensures PathSet(order) == LayerDescendants(s, p, d) && Descending(order)
    ensures |items| == |order|
    ensures forall i :: 0 <= i < |order| ==> (order[i], d) in s && items[i] == RemoveItem(order[i], s[(order[i], d)].kind)
  {
    var todo := LayerDescendants(s, p, d);
    order, items := [], [];
    while todo != {}
      invariant RemovalProgress(s, LayerDescendants(s, p, d), d, todo, order, items)
      decreases |todo|
    {
      HasGreatest(todo);
      var q :| IsGreatest(q, todo);
      RemovalStep(s, LayerDescendants(s, p, d), d, todo, order, items, q);
      order, items := order + [q], items + [RemoveItem(q, s[(q, d)].kind)];
      todo := todo - {q};
    }
  }

  /** The state of the removal loop: order lists the rows done, all greater than those to do. */
  predicate RemovalProgress(s: Store, all: set<Path>, d: nat, todo: set<Path>, order: seq<Path>, items: seq<WorkItem>)
  {
    todo + PathSet(order) == all && todo !! PathSet(order)
    && Descending(order)
    && (forall x, i :: x in todo && 0 <= i < |order| ==> PathLt(x, order[i]))
    && |items| == |order|
    && (forall q :: q in all ==> (q, d) in s)
    && (forall i :: 0 <= i < |order| ==> (order[i], d) in s && items[i] == RemoveItem(order[i], s[(order[i], d)].kind))
  }

  lemma RemovalStep(s: Store, all: set<Path>, d: nat, todo: set<Path>, order: seq<Path>, items: seq<WorkItem>, q: Path)
    requires RemovalProgress(s, all, d, todo, order, items) && IsGreatest(q, todo)
    ensures (q, d) in s
    ensures RemovalProgress(s, all, d, todo - {q}, order + [q], items + [RemoveItem(q, s[(q, d)].kind)])
  {
    DescendingAppend(order, q);
    assert PathSet(order + [q]) == PathSet(order) + {q};
    forall x, i | x in todo - {q} && 0 <= i < |order| + 1 ensures PathLt(x, (order + [q])[i]) {
      if i == |order| { assert x != q && x in todo; } else { assert (order + [q])[i] == order[i]; }
    }
  }

  lemma DescendingAppend(order: seq<Path>, q: Path)
    requires Descending(order) && forall i :: 0 <= i < |order| ==> PathLt(q, order[i])
    ensures Descending(order + [q])
  {
  }

  /** In a descending order every path comes before its strict ancestors, so a directory is emptied before its removal. */
  lemma DescendantsRemovedFirst(order: seq<Path>, i: int, j: int)
    requires Descending(order) && 0 <= i < |order| && 0 <= j < |order|
    requires IsStrictAncestor(order[i], order[j])
    ensures j < i
  {
    AncestorSortsFirst(order[i], order[j]);
    if i < j {
      PathLtTransitive(order[i], order[j], order[i]);
      PathLtIrreflexive(order[i]);
    } else if i == j {
      PathLtIrreflexive(order[i]);
    }
  }

  /** a is a prefix of b. */
  predicate Prefix(a: seq<EditCall>, b: seq<EditCall>)
  {
    |a| <= |b| && b[..|a|] == a
  }

  lemma PrefixTransitive(a: seq<EditCall>, b: seq<EditCall>, c: seq<EditCall>)
    requires Prefix(a, b) && Prefix(b, c)
    ensures Prefix(a, c)
  {
    assert c[..|a|] == c[..|b|][..|a|];
  }

  lemma AppendOne(a: seq<string>, x: string, r: seq<string>)
    ensures (a + [x]) + r == a + ([x] + r)
  {
  }

  /** Every finite set of paths has a bound on its depths. */
  lemma {:induction false} DepthBound(ps: set<Path>) returns (b: nat)
    ensures forall q :: q in ps ==> |q| <= b
    decreases |ps|
  {
    if ps == {} {
      b := 0;
    } else {
      var x :| x in ps;
      var b' := DepthBound(ps - {x});
      b := if |x| > b' then |x| else b';
    }
  }

  class UpdateMoveBaton {
    const db: Db
    const moveRootDst: Path
    var conflictRoot: Option<Path>
    const operation: Operation
    const oldVersion: Version
    const newVersion: Version
    /** The calls made on the receiver so far, in order. */
    ghost var trace: seq<EditCall>

    ghost predicate Valid()
      reads this, db
    {
      db.Valid()
    }

    constructor (db: Db, moveRootDst: Path, operation: Operation, oldVersion: Version, newVersion: Version)
      ensures this.db == db && this.moveRootDst == moveRootDst && this.operation == operation
      ensures this.oldVersion == oldVersion && this.newVersion == newVersion
      ensures conflictRoot == None && trace == []
    {
      this.db, this.moveRootDst, this.operation := db, moveRootDst, operation;
      this.oldVersion, this.newVersion := oldVersion, newVersion;
      conflictRoot, trace := None, [];
    }

    /** check_node_shadowed: a layer above the destination's op-depth has a row for p. */
    method CheckNodeShadowed(p: Path) returns (shadowed: bool)
      requires Valid()
      ensures shadowed <==> exists j :: |moveRootDst| < j && (p, j) in db.store
    {
      var d := WorkingOpDepth(db.store, p);
      shadowed := d > |moveRootDst|;
      if shadowed {
        assert (p, d) in db.store;
      }
    }

    /**
     * get_info on p at op_depth d, with the child names sorted for the
     * two-pointer walk.
     */
    method GetInfo(p: Path, d: nat) returns (info: NodeInfo, children: seq<string>)
      ensures info == InfoOf(db.store, p, d)
      ensures StrictlySorted(children) && Elems(children) == info.children
    {
      if (p, d) !in db.store {
        return NodeInfo(NoNode, None, None, {}), [];
      }
      var row := db.store[(p, d)];
      if ReadsDeleted(row, d) {
        return NodeInfo(if row.reposRelpath.None? then NoNode else row.kind, None, None, {}), [];
      }
      children := SortNames(ChildNames(db.store, p, d));
      info := NodeInfo(row.kind, row.checksum, row.props, ChildNames(db.store, p, d));
    }

    /** check_tree_conflict suppresses p: it is inside the most recent conflict root, or a layer above the destination's has a row for it. */
    predicate Suppressed(s: Store, root: Option<Path>, p: Path)
    {
      (root.Some? && IsAncestor(root.value, p)) || LowestWorkingNode(s, p, |moveRootDst|).Some?
    }

    /** The tree conflict check_tree_conflict raises for p when the layer at opDepth obstructs it. */
    function RaisedArgs(p: Path, opDepth: nat, oldKind: Kind, newKind: Kind, oldRepos: Option<Path>, action: Action): TreeConflictArgs
    {
      var climbed := |p| > opDepth;
      var root := AncestorAtDepth(p, opDepth);
      var moved := db.env.movedAway(root, |moveRootDst|);
      TreeConflictArgs(root, oldVersion, newVersion, moveRootDst, operation,
        if climbed then Dir else oldKind,
        if climbed then Dir else newKind,
        if climbed && oldRepos.Some? then Some(DirnameTimes(oldRepos.value, |p| - opDepth)) else oldRepos,
        if moved.Some? then MovedAway else ReasonDeleted,
        if climbed then ActionEdit else action,
        if moved.Some? then Some(moved.value.moveSrcOpRoot) else None)
    }

    /**
     * The conflict is raised on the root of the obstructing layer: the
     * ancestor of p at that layer's op-depth.
     */
    lemma RaisedOnLayerRoot(p: Path, opDepth: nat, oldKind: Kind, newKind: Kind, oldRepos: Option<Path>, action: Action)
      requires opDepth < |p|
      ensures var a := RaisedArgs(p, opDepth, oldKind, newKind, oldRepos, action);
        IsStrictAncestor(a.local, p) && |a.local| == opDepth
        && a.oldKind == Dir && a.newKind == Dir && a.action == ActionEdit
        && (oldRepos.Some? ==> a.oldReposRelpath.Some? && IsAncestor(a.oldReposRelpath.value, oldRepos.value))
    {
    }

    /**
     * check_tree_conflict: p is conflicted when it lies inside the most
     * recent conflict root (nothing is written), or when a layer above the
     * destination's has a row for p; then the conflict is raised on the root
     * of that layer, which becomes the conflict root.
     */
    method CheckTreeConflict(p: Path, oldKind: Kind, newKind: Kind, oldRepos: Option<Path>, action: Action)
      returns (conflicted: bool, err: Option<DbError>)
      requires Valid()
      modifies this, db
      ensures Valid() && db.store == old(db.store) && db.workQueue == old(db.workQueue)
      ensures db.parentDeletes == old(db.parentDeletes) && trace == old(trace)
      ensures err.None? ==> (conflicted <==> Suppressed(old(db.store), old(conflictRoot), p))
      ensures err.None? && conflicted ==> conflictRoot.Some? && IsAncestor(conflictRoot.value, p)
      ensures old(conflictRoot).Some? && IsAncestor(old(conflictRoot).value, p) ==>
        err.None? && conflictRoot == old(conflictRoot) && db.conflicts == old(db.conflicts) && db.moveList == old(db.moveList)
      ensures !Suppressed(old(db.store), old(conflictRoot), p) ==>
        err.None? && conflictRoot == None && db.conflicts == old(db.conflicts) && db.moveList == old(db.moveList)
      ensures (!(old(conflictRoot).Some? && IsAncestor(old(conflictRoot).value, p))
        && LowestWorkingNode(old(db.store), p, |moveRootDst|).Some?) ==>
        var a := RaisedArgs(p, LowestWorkingNode(old(db.store), p, |moveRootDst|).value, oldKind, newKind, oldRepos, action);
        MarkOutcome(a, old(db.conflicts), old(db.moveList), db.conflicts, db.moveList, err)
        && (err.None? ==> conflictRoot == Some(a.local))
    {
      if conflictRoot.Some? {
        if IsAncestor(conflictRoot.value, p) {
          return true, None;
        }
        conflictRoot := None;
      }
      var lowest := LowestWorkingNode(db.store, p, |moveRootDst|);
      if lowest.None? {
        return false, None;
      }
      conflicted := true;
      err := RaiseTreeConflict(p, lowest.value, oldKind, newKind, oldRepos, action);
    }

    /** The raising half of check_tree_conflict: the conflict goes on the root of the layer at opDepth. */
    method RaiseTreeConflict(p: Path, opDepth: nat, oldKind: Kind, newKind: Kind, oldRepos: Option<Path>, action: Action)
      returns (err: Option<DbError>)
      requires Valid()
      modifies this, db
      ensures Valid() && db.store == old(db.store) && db.workQueue == old(db.workQueue)
      ensures db.parentDeletes == old(db.parentDeletes) && trace == old(trace)
      ensures var a := RaisedArgs(p, opDepth, oldKind, newKind, oldRepos, action);
        MarkOutcome(a, old(db.conflicts), old(db.moveList), db.conflicts, db.moveList, err)
        && (err.None? ==> conflictRoot == Some(a.local)) && (err.Some? ==> conflictRoot == old(conflictRoot))
    {
      var root, k1, k2, repos, act := ClimbToLayer(p, opDepth, oldKind, newKind, oldRepos, action);
      var moved := db.env.movedAway(root, |moveRootDst|);
      var a := TreeConflictArgs(root, oldVersion, newVersion, moveRootDst, operation, k1, k2, repos,
        if moved.Some? then MovedAway else ReasonDeleted, act,
        if moved.Some? then Some(moved.value.moveSrcOpRoot) else None);
      assert a == RaisedArgs(p, opDepth, oldKind, newKind, oldRepos, action);
      err := db.MarkTreeConflict(a);
      if err.Some? {
        return;
      }
      conflictRoot := Some(root);
    }

    /** The repository path of the destination row of p, if it has one. */
    function DstRepos(s: Store, p: Path): Option<Path>
    {
      if (p, |moveRootDst|) in s then s[(p, |moveRootDst|)].reposRelpath else None
    }

    /** The tree conflict for an unversioned obstruction of an incoming add. */
    function UnversionedArgs(p: Path, diskKind: Kind, newKind: Kind, repos: Option<Path>): TreeConflictArgs
    {
      TreeConflictArgs(p, oldVersion, newVersion, moveRootDst, operation, diskKind, newKind, repos, Unversioned, ActionAdd, None)
    }

    /**
     * tc_editor_add_directory: unless p is conflicted or shadowed, a
     * directory is installed where nothing is on disk, an existing directory
     * is taken as is, and anything else on disk raises an unversioned tree
     * conflict on p; only the first two are notified as adds.
     */
    method TcEditorAddDirectory(p: Path, props: Option<Props>, shadowed: bool) returns (err: Option<DbError>)
      requires Valid()
      modifies this, db
      ensures Valid() && db.store == old(db.store) && db.parentDeletes == old(db.parentDeletes)
      ensures trace == old(trace) + [EdAddDir(p, props)]
      ensures shadowed || Suppressed(old(db.store), old(conflictRoot), p) ==> db.workQueue == old(db.workQueue)
      ensures !shadowed && !Suppressed(old(db.store), old(conflictRoot), p) ==>
        var disk := db.env.diskKind(p);
        if disk == Dir || disk == NoNode then
          err == None && db.conflicts == old(db.conflicts)
          && db.workQueue == old(db.workQueue) + (if disk == NoNode then [DirInstall(p)] else [])
          && db.moveList == old(db.moveList) + [MoveNote(p, NotifyUpdateAdd, Dir, Inapplicable, Inapplicable)]
        else
          db.workQueue == old(db.workQueue)
          && MarkOutcome(UnversionedArgs(p, disk, Dir, DstRepos(old(db.store), p)),
                         old(db.conflicts), old(db.moveList), db.conflicts, db.moveList, err)
          && (err.None? ==> conflictRoot == Some(p))
    {
      trace := trace + [EdAddDir(p, props)];
      var dd := |moveRootDst|;
      var oldKind := if (p, dd) in db.store then db.store[(p, dd)].kind else NoNode;
      var repos := DstRepos(db.store, p);
      var conflicted;
      conflicted, err := CheckTreeConflict(p, oldKind, Dir, repos, ActionAdd);
      if err.Some? || conflicted || shadowed {
        return;
      }
      var disk := db.env.diskKind(p);
      if disk == NoNode {
        db.WqAdd([DirInstall(p)]);
      } else if disk != Dir {
        err := db.MarkTreeConflict(UnversionedArgs(p, disk, Dir, repos));
        if err.None? {
          conflictRoot := Some(p);
        }
        return;
      }
      db.UpdateMoveListAdd(MoveNote(p, NotifyUpdateAdd, Dir, Inapplicable, Inapplicable));
    }

    /**
     * tc_editor_add_file: unless p is conflicted or shadowed, a file is
     * installed and notified as an add where nothing is on disk; anything on
     * disk raises an unversioned tree conflict on p.
     */
    method TcEditorAddFile(p: Path, checksum: Option<Checksum>, props: Option<Props>, shadowed: bool) returns (err: Option<DbError>)
      requires Valid()
      modifies this, db
      ensures Valid() && db.store == old(db.store) && db.parentDeletes == old(db.parentDeletes)
      ensures trace == old(trace) + [EdAddFile(p, checksum, props)]
      ensures shadowed || Suppressed(old(db.store), old(conflictRoot), p) ==> db.workQueue == old(db.workQueue)
      ensures !shadowed && !Suppressed(old(db.store), old(conflictRoot), p) ==>
        var disk := db.env.diskKind(p);
        if disk == NoNode then
          err == None && db.conflicts == old(db.conflicts)
          && db.workQueue == old(db.workQueue) + [FileInstall(p)]
          && db.moveList == old(db.moveList) + [MoveNote(p, NotifyUpdateAdd, File, Inapplicable, Inapplicable)]
        else
          db.workQueue == old(db.workQueue)
          && MarkOutcome(UnversionedArgs(p, disk, File, DstRepos(old(db.store), p)),
                         old(db.conflicts), old(db.moveList), db.conflicts, db.moveList, err)
          && (err.None? ==> conflictRoot == Some(p))
    {
      trace := trace + [EdAddFile(p, checksum, props)];
      var dd := |moveRootDst|;
      var oldKind := if (p, dd) in db.store then db.store[(p, dd)].kind else NoNode;
      var repos := DstRepos(db.store, p);
      var conflicted;
      conflicted, err := CheckTreeConflict(p, oldKind, File, repos, ActionAdd);
      if err.Some? || conflicted || shadowed {
        return;
      }
      var disk := db.env.diskKind(p);
      if disk != NoNode {
        err := db.MarkTreeConflict(UnversionedArgs(p, disk, File, repos));
        if err.None? {
          conflictRoot := Some(p);
        }
        return;
      }
      db.WqAdd([FileInstall(p)]);
      db.UpdateMoveListAdd(MoveNote(p, NotifyUpdateAdd, File, Inapplicable, Inapplicable));
    }

    /**
     * create_conflict_markers: the conflict stored for a text or property
     * conflict of a node with repository path repos, the old location at
     * repos and the new one at the same place below the new version's path.
     * None when repos is not below the old version's path: the source then
     * has nothing to join.
     */
    function MarkerConflict(repos: Option<Path>, kind: Kind, text: bool, prop: bool): Option<Conflict>
    {
      var part := if repos.Some? then SkipAncestor(oldVersion.pathInRepos, repos.value) else None;
      if part.None? then None
      else Some(Conflict(if operation == OpUpdate then OpUpdate else OpSwitch,
        Some(oldVersion.(pathInRepos := repos.value, kind := kind)),
        Some(newVersion.(pathInRepos := Join(newVersion.pathInRepos, part.value), kind := kind)),
        None, text, prop))
    }

    /** A node below the old location gets its conflict markers with the new location below the new path. */
    lemma MarkerConflictRelocates(below: Path, kind: Kind, text: bool, prop: bool)
      ensures var c := MarkerConflict(Some(Join(oldVersion.pathInRepos, below)), kind, text, prop);
        c.Some? && c.value.newVersion.Some? && c.value.newVersion.value.pathInRepos == Join(newVersion.pathInRepos, below)
        && c.value.oldVersion.Some? && c.value.oldVersion.value.pathInRepos == Join(oldVersion.pathInRepos, below)
        && c.value.textConflicted == text && c.value.propConflicted == prop && c.value.tree.None?
    {
      SkipJoin(oldVersion.pathInRepos, below);
    }

    /**
     * The effect of the property merge of a directory: the merged state is
     * notified, and a property conflict is stored with a marker work item.
     */
    predicate DirPropsUpdated(p: Path, repos: Option<Path>, c0: map<Path, Conflict>, w0: seq<WorkItem>, m0: seq<MoveNote>,
                              c1: map<Path, Conflict>, w1: seq<WorkItem>, m1: seq<MoveNote>, err: Option<DbError>)
    {
      var (state, conflicted) := db.env.propMerge(p);
      var marker := MarkerConflict(repos, Dir, false, true);
      if conflicted && marker.None? then err == Some(Malfunction) && c1 == c0 && w1 == w0 && m1 == m0
      else
        (err == None
         && c1 == (if conflicted then c0[p := marker.value] else c0)
         && w1 == w0 + (if conflicted then [ConflictMarkers(p)] else [])
         && m1 == m0 + [MoveNote(p, NotifyUpdateUpdate, Dir, Inapplicable, state)])
    }

    /**
     * tc_editor_alter_directory: the destination row must be a directory;
     * unless p is conflicted or shadowed, new properties are merged into
     * the working properties and notified.
     */
    method TcEditorAlterDirectory(p: Path, newProps: Option<Props>, shadowed: bool) returns (err: Option<DbError>)
      requires Valid()
      modifies this, db
      ensures Valid() && db.store == old(db.store) && db.parentDeletes == old(db.parentDeletes)
      ensures trace == old(trace) + [EdAlterDir(p, newProps)]
      ensures (p, |moveRootDst|) !in old(db.store) ==>
        err == Some(PathNotFound(p)) && db.conflicts == old(db.conflicts) && db.workQueue == old(db.workQueue)
        && db.moveList == old(db.moveList) && conflictRoot == old(conflictRoot)
      ensures (p, |moveRootDst|) in old(db.store) && old(db.store)[(p, |moveRootDst|)].kind != Dir ==>
        err == Some(AssertionFailed) && db.conflicts == old(db.conflicts) && db.workQueue == old(db.workQueue)
        && db.moveList == old(db.moveList) && conflictRoot == old(conflictRoot)
      ensures shadowed || Suppressed(old(db.store), old(conflictRoot), p) ==> db.workQueue == old(db.workQueue)
      ensures ((p, |moveRootDst|) in old(db.store) && old(db.store)[(p, |moveRootDst|)].kind == Dir
               && !shadowed && !Suppressed(old(db.store), old(conflictRoot), p)) ==>
        if newProps.None? then
          err == None && db.conflicts == old(db.conflicts) && db.workQueue == old(db.workQueue) && db.moveList == old(db.moveList)
        else
          DirPropsUpdated(p, old(db.store)[(p, |moveRootDst|)].reposRelpath, old(db.conflicts), old(db.workQueue), old(db.moveList),
                          db.conflicts, db.workQueue, db.moveList, err)
    {
      trace := trace + [EdAlterDir(p, newProps)];
      var dd := |moveRootDst|;
      if (p, dd) !in db.store {
        return Some(PathNotFound(p));
      }
      var row := db.store[(p, dd)];
      if row.kind != Dir {
        return Some(AssertionFailed);
      }
      var conflicted;
      conflicted, err := CheckTreeConflict(p, Dir, Dir, row.reposRelpath, ActionEdit);
      if err.Some? || conflicted || shadowed {
        return;
      }
      if newProps.Some? {
        var (state, propConflicted) := db.env.propMerge(p);
        if propConflicted {
          var marker := MarkerConflict(row.reposRelpath, Dir, false, true);
          if marker.None? {
            return Some(Malfunction);
          }
          db.MarkConflict(p, marker.value);
          db.WqAdd([ConflictMarkers(p)]);
        }
        db.UpdateMoveListAdd(MoveNote(p, NotifyUpdateUpdate, Dir, Inapplicable, state));
      }
    }

    /** The content state update_working_file notifies. */
    function ContentState(p: Path, oldChecksum: Option<Checksum>, newChecksum: Option<Checksum>): NotifyState
    {
      if ChecksumMatch(newChecksum, oldChecksum) then Unchanged
      else if !db.env.fileModified(p) then Changed
      else if db.env.textConflict(p) then Conflicted
      else Merged
    }

    /**
     * The effect of update_working_file: a changed text is installed over
     * an unmodified file or merged into a modified one; a text or property
     * conflict is stored with a marker work item; the outcome is notified.
     */
    predicate FileUpdated(p: Path, repos: Option<Path>, oldChecksum: Option<Checksum>, newChecksum: Option<Checksum>,
                          c0: map<Path, Conflict>, w0: seq<WorkItem>, m0: seq<MoveNote>,
                          c1: map<Path, Conflict>, w1: seq<WorkItem>, m1: seq<MoveNote>, err: Option<DbError>)
    {
      var changed := !ChecksumMatch(newChecksum, oldChecksum);
      var text := changed && db.env.fileModified(p) && db.env.textConflict(p);
      var prop := db.env.propMerge(p).1;
      var marker := MarkerConflict(repos, File, text, prop);
      if (text || prop) && marker.None? then err == Some(Malfunction) && c1 == c0 && w1 == w0 && m1 == m0
      else
        (err == None
         && c1 == (if text || prop then c0[p := marker.value] else c0)
         && w1 == w0 + (if changed then [if db.env.fileModified(p) then TextMerge(p) else FileInstall(p)] else [])
                     + (if text || prop then [ConflictMarkers(p)] else [])
         && m1 == m0 + [MoveNote(p, NotifyUpdateUpdate, File, ContentState(p, oldChecksum, newChecksum), db.env.propMerge(p).0)])
    }

    /** update_working_file: merge the update into the working file p. */
    method UpdateWorkingFile(p: Path, repos: Option<Path>, oldChecksum: Option<Checksum>, newChecksum: Option<Checksum>)
      returns (err: Option<DbError>)
      modifies db
      ensures db.store == old(db.store) && db.parentDeletes == old(db.parentDeletes)
      ensures FileUpdated(p, repos, oldChecksum, newChecksum, old(db.conflicts), old(db.workQueue), old(db.moveList),
                          db.conflicts, db.workQueue, db.moveList, err)
    {
      var (propState, propConflicted) := db.env.propMerge(p);
      var items: seq<WorkItem> := [];
      var content := Unchanged;
      var textConflicted := false;
      if !ChecksumMatch(newChecksum, oldChecksum) {
        if !db.env.fileModified(p) {
          items := items + [FileInstall(p)];
          content := Changed;
        } else {
          items := items + [TextMerge(p)];
          textConflicted := db.env.textConflict(p);
          content := if textConflicted then Conflicted else Merged;
        }
      }
      if textConflicted || propConflicted {
        var marker := MarkerConflict(repos, File, textConflicted, propConflicted);
        if marker.None? {
          return Some(Malfunction);
        }
        db.MarkConflict(p, marker.value);
        items := items + [ConflictMarkers(p)];
      }
      db.WqAdd(items);
      db.UpdateMoveListAdd(MoveNote(p, NotifyUpdateUpdate, File, content, propState));
      err := None;
    }

    /**
     * tc_editor_alter_file: the destination row must be a file; unless p is
     * conflicted or shadowed, the working file is updated when the text or
     * the properties changed.
     */
    method TcEditorAlterFile(p: Path, newChecksum: Option<Checksum>, newProps: Option<Props>, shadowed: bool)
      returns (err: Option<DbError>)
      requires Valid()
      modifies this, db
      ensures Valid() && db.store == old(db.store) && db.parentDeletes == old(db.parentDeletes)
      ensures trace == old(trace) + [EdAlterFile(p, newChecksum, newProps)]
      ensures (p, |moveRootDst|) !in old(db.store) ==>
        err == Some(PathNotFound(p)) && db.conflicts == old(db.conflicts) && db.workQueue == old(db.workQueue)
        && db.moveList == old(db.moveList) && conflictRoot == old(conflictRoot)
      ensures (p, |moveRootDst|) in old(db.store) && old(db.store)[(p, |moveRootDst|)].kind != File ==>
        err == Some(AssertionFailed) && db.conflicts == old(db.conflicts) && db.workQueue == old(db.workQueue)
        && db.moveList == old(db.moveList) && conflictRoot == old(conflictRoot)
      ensures shadowed || Suppressed(old(db.store), old(conflictRoot), p) ==> db.workQueue == old(db.workQueue)
      ensures ((p, |moveRootDst|) in old(db.store) && old(db.store)[(p, |moveRootDst|)].kind == File
               && !shadowed && !Suppressed(old(db.store), old(conflictRoot), p)) ==>
        var row := old(db.store)[(p, |moveRootDst|)];
        if ChecksumMatch(newChecksum, row.checksum) && newProps.None? then
          err == None && db.conflicts == old(db.conflicts) && db.workQueue == old(db.workQueue) && db.moveList == old(db.moveList)
        else
          FileUpdated(p, row.reposRelpath, row.checksum, if newChecksum.Some? then newChecksum else row.checksum,
                      old(db.conflicts), old(db.workQueue), old(db.moveList), db.conflicts, db.workQueue, db.moveList, err)
    {
      trace := trace + [EdAlterFile(p, newChecksum, newProps)];
      var dd := |moveRootDst|;
      if (p, dd) !in db.store {
        return Some(PathNotFound(p));
      }
      var row := db.store[(p, dd)];
      if row.kind != File {
        return Some(AssertionFailed);
      }
      var conflicted;
      conflicted, err := CheckTreeConflict(p, File, File, row.reposRelpath, ActionEdit);
      if err.Some? || conflicted || shadowed {
        return;
      }
      var effective := if newChecksum.Some? then newChecksum else row.checksum;
      if !ChecksumMatch(newChecksum, row.checksum) || newProps.Some? {
        err := UpdateWorkingFile(p, row.reposRelpath, row.checksum, effective);
      }
    }

    /** The tree conflict tc_editor_delete raises on a locally modified p. */
    function DeleteConflictArgs(p: Path, row: Row, reason: Reason): TreeConflictArgs
    {
      TreeConflictArgs(p, oldVersion, newVersion, moveRootDst, operation, row.kind, NoNode, row.reposRelpath, reason, ActionDelete, None)
    }

    /**
     * The rows of s at the destination op-depth below p are queued for
     * removal, descendants first, then p itself.
     */
    ghost predicate RemovalsQueued(s: Store, p: Path, w0: seq<WorkItem>, w1: seq<WorkItem>)
    {
      var dd := |moveRootDst|;
      (p, dd) in s
      && exists order: seq<Path>, items: seq<WorkItem> ::
           PathSet(order) == LayerDescendants(s, p, dd) && Descending(order) && |items| == |order|
           && (forall i :: 0 <= i < |order| ==> (order[i], dd) in s && items[i] == RemoveItem(order[i], s[(order[i], dd)].kind))
           && w1 == w0 + items + [RemoveItem(p, s[(p, dd)].kind)]
    }

    /** Queue the removal of the destination rows below p and of p itself. */
    method QueueRemovals(p: Path)
      requires (p, |moveRootDst|) in db.store
      modifies db
      ensures RemovalsQueued(db.store, p, old(db.workQueue), db.workQueue)
      ensures db.store == old(db.store) && db.conflicts == old(db.conflicts) && db.moveList == old(db.moveList)
      ensures db.parentDeletes == old(db.parentDeletes)
    {
      var dd := |moveRootDst|;
      var order, items := DescendingRemovals(db.store, p, dd);
      ghost var w0 := db.workQueue;
      db.WqAdd(items + [RemoveItem(p, db.store[(p, dd)].kind)]);
      QueuedBy(db.store, p, w0, db.workQueue, order, items);
    }

    /** The removals in order and items, queued after w0, are those RemovalsQueued describes. */
    lemma QueuedBy(s: Store, p: Path, w0: seq<WorkItem>, w1: seq<WorkItem>, order: seq<Path>, items: seq<WorkItem>)
      requires (p, |moveRootDst|) in s
      requires PathSet(order) == LayerDescendants(s, p, |moveRootDst|) && Descending(order) && |items| == |order|
      requires forall i :: 0 <= i < |order| ==>
        (order[i], |moveRootDst|) in s && items[i] == RemoveItem(order[i], s[(order[i], |moveRootDst|)].kind)
      requires w1 == w0 + items + [RemoveItem(p, s[(p, |moveRootDst|)].kind)]
      ensures RemovalsQueued(s, p, w0, w1)
    {
    }

    /**
     * tc_editor_delete: unless p is conflicted or shadowed, an unmodified
     * subtree is removed from disk and notified as deleted; a modified one
     * raises a tree conflict on p, after the destination layer is turned
     * into a copy of its own (edits) or the layers above it are dropped
     * and the subtree removed anyway (local deletes only).
     */
    method TcEditorDelete(p: Path, shadowed: bool) returns (err: Option<DbError>)
      requires Valid()
      modifies this, db
      ensures Valid() && Paths(db.store) <= Paths(old(db.store)) && db.parentDeletes == old(db.parentDeletes)
      ensures trace == old(trace) + [EdDelete(p)]
      ensures (p, |moveRootDst|) !in old(db.store) ==>
        err == Some(PathNotFound(p)) && db.store == old(db.store) && db.conflicts == old(db.conflicts)
        && db.workQueue == old(db.workQueue) && db.moveList == old(db.moveList) && conflictRoot == old(conflictRoot)
      ensures shadowed || Suppressed(old(db.store), old(conflictRoot), p) ==>
        db.store == old(db.store) && db.workQueue == old(db.workQueue)
      ensures ((p, |moveRootDst|) in old(db.store) && !shadowed && !Suppressed(old(db.store), old(conflictRoot), p)
               && !db.env.localMods(p).0) ==>
        var row := old(db.store)[(p, |moveRootDst|)];
        err == None && db.store == old(db.store) && db.conflicts == old(db.conflicts)
        && RemovalsQueued(db.store, p, old(db.workQueue), db.workQueue)
        && db.moveList == old(db.moveList) + [MoveNote(p, NotifyUpdateDelete, row.kind, Inapplicable, Inapplicable)]
      ensures ((p, |moveRootDst|) in old(db.store) && !shadowed && !Suppressed(old(db.store), old(conflictRoot), p)
               && db.env.localMods(p).0 && !db.env.localMods(p).1) ==>
        db.store == UpdateOpDepth(old(db.store), p, |moveRootDst|, |p|) && db.workQueue == old(db.workQueue)
        && MarkOutcome(DeleteConflictArgs(p, old(db.store)[(p, |moveRootDst|)], Edited),
                       old(db.conflicts), old(db.moveList), db.conflicts, db.moveList, err)
        && (err.None? ==> conflictRoot == Some(p))
      ensures ((p, |moveRootDst|) in old(db.store) && !shadowed && !Suppressed(old(db.store), old(conflictRoot), p)
               && db.env.localMods(p).0 && db.env.localMods(p).1) ==>
        db.store == DeleteAbove(old(db.store), p, |moveRootDst|)
        && MarkOutcome(DeleteConflictArgs(p, old(db.store)[(p, |moveRootDst|)], ReasonDeleted),
                       old(db.conflicts), old(db.moveList), db.conflicts, db.moveList, err)
        && (err.None? ==> conflictRoot == Some(p) && RemovalsQueued(db.store, p, old(db.workQueue), db.workQueue))
        && (err.Some? ==> db.workQueue == old(db.workQueue))
    {
      trace := trace + [EdDelete(p)];
      var dd := |moveRootDst|;
      if (p, dd) !in db.store {
        return Some(PathNotFound(p));
      }
      var row := db.store[(p, dd)];
      var conflicted;
      conflicted, err := CheckTreeConflict(p, row.kind, UnknownKind, row.reposRelpath, ActionDelete);
      if err.Some? || conflicted || shadowed {
        return;
      }
      var (modified, allDeletes) := db.env.localMods(p);
      var mustDelete := false;
      if modified {
        var reason;
        if !allDeletes {
          UpdateOpDepthShape(db.store, p, dd, |p|);
          db.store := UpdateOpDepth(db.store, p, dd, |p|);
          reason := Edited;
        } else {
          SubStoreShape(db.store, DeleteAbove(db.store, p, dd));
          db.store := DeleteAbove(db.store, p, dd);
          reason := ReasonDeleted;
          mustDelete := true;
        }
        err := db.MarkTreeConflict(DeleteConflictArgs(p, row, reason));
        if err.Some? {
          return;
        }
        conflictRoot := Some(p);
      }
      if !modified || mustDelete {
        assert (p, dd) in db.store && db.store[(p, dd)] == row;
        QueueRemovals(p);
        if !modified {
          db.UpdateMoveListAdd(MoveNote(p, NotifyUpdateDelete, row.kind, Inapplicable, Inapplicable));
        }
      }
    }

    /**
     * The rows delete_move_leaf leaves: the destination layer below p is
     * dropped, except that where the parent has a lower working layer, the
     * rows shadowing a lower layer become base-deleted.
     */
    function LeafDeleted(s: Store, p: Path): Store
    {
      var dd := |moveRootDst|;
      match HighestWorkingNode(s, Dirname(p), dd)
      case Some(below) => ReplaceWithBaseDeleted(DeleteNoLowerLayer(s, p, dd, below), p, dd)
      case None => DeleteLayer(s, p, dd)
    }

    /**
     * After delete_move_leaf, the only rows left in the destination layer
     * below p are base-deleted rows over a lower layer, and every other row
     * is untouched.
     */
    lemma LeafDeletedLayer(s: Store, p: Path)
      ensures LeafDeleted(s, p).Keys <= s.Keys
      ensures forall k :: k in s && !(k.1 == |moveRootDst| && IsAncestor(p, k.0)) ==>
        k in LeafDeleted(s, p) && LeafDeleted(s, p)[k] == s[k]
      ensures forall k :: k in LeafDeleted(s, p) && k.1 == |moveRootDst| && IsAncestor(p, k.0) ==>
        var below := HighestWorkingNode(s, Dirname(p), |moveRootDst|);
        below.Some? && HasLowerLayer(s, k.0, |moveRootDst|, below.value)
        && LeafDeleted(s, p)[k] == BaseDeletedRow(s[k])
    {
    }

    /** delete_move_leaf: remove the destination rows of p and retract the parent's delete. */
    method DeleteMoveLeaf(p: Path)
      requires Valid()
      modifies this, db
      ensures Valid() && Paths(db.store) <= Paths(old(db.store))
      ensures db.store == LeafDeleted(old(db.store), p)
      ensures db.parentDeletes == old(db.parentDeletes) + [RetractParentDelete(p, |moveRootDst|)]
      ensures db.conflicts == old(db.conflicts) && db.workQueue == old(db.workQueue) && db.moveList == old(db.moveList)
      ensures trace == old(trace) + [EdDeleteLeaf(p)] && conflictRoot == old(conflictRoot)
    {
      trace := trace + [EdDeleteLeaf(p)];
      var dd := |moveRootDst|;
      var below := HighestWorkingNode(db.store, Dirname(p), dd);
      var s := db.store;
      LeafDeletedLayer(s, p);
      SubStoreShape(s, LeafDeleted(s, p));
      if below.Some? {
        db.store := ReplaceWithBaseDeleted(DeleteNoLowerLayer(db.store, p, dd, below.value), p, dd);
      } else {
        db.store := DeleteLayer(db.store, p, dd);
      }
      db.LogParentDelete(RetractParentDelete(p, dd));
    }

    /** The delete half of EditNode. */
    method EditNodeDelete(dst: Path, si: NodeInfo, di: NodeInfo, shadowed: bool) returns (err: Option<DbError>)
      requires Valid()
      modifies this, db
      ensures Valid() && Paths(db.store) <= Paths(old(db.store))
      ensures Prefix(old(trace), trace) && Prefix(trace, old(trace) + DeleteEdits(si, di, dst))
      ensures err.None? ==> trace == old(trace) + DeleteEdits(si, di, dst)
    {
      if DeletesNode(si, di) {
        err := TcEditorDelete(dst, shadowed);
        if err.Some? {
          return;
        }
        DeleteMoveLeaf(dst);
      } else {
        err := None;
      }
    }

    /** The add half of EditNode. */
    method EditNodeAdd(dst: Path, si: NodeInfo, di: NodeInfo, shadowed: bool) returns (err: Option<DbError>)
      requires Valid() && AddsNode(si, di)
      modifies this, db
      ensures Valid() && Paths(db.store) <= Paths(old(db.store))
      ensures Prefix(old(trace), trace) && Prefix(trace, old(trace) + ReplaceEdits(si, di, shadowed, dst))
      ensures err.None? ==> trace == old(trace) + ReplaceEdits(si, di, shadowed, dst)
    {
      ghost var full := old(trace) + ReplaceEdits(si, di, shadowed, dst);
      if shadowed {
        db.LogParentDelete(ExtendParentDelete(dst, si.kind, |moveRootDst|));
        trace := trace + [EdExtendDelete(dst, si.kind)];
      }
      err := None;
      if si.kind == File || si.kind == Symlink {
        err := TcEditorAddFile(dst, si.checksum, si.props, shadowed);
      } else if si.kind == Dir {
        err := TcEditorAddDirectory(dst, si.props, shadowed);
      }
      assert trace == full;
    }

    /** The alter half of EditNode. */
    method EditNodeAlter(dst: Path, si: NodeInfo, di: NodeInfo, sc: seq<string>, dc: seq<string>, shadowed: bool)
      returns (err: Option<DbError>)
      requires Valid() && !AddsNode(si, di)
      requires StrictlySorted(sc) && Elems(sc) == si.children && StrictlySorted(dc) && Elems(dc) == di.children
      modifies this, db
      ensures Valid() && Paths(db.store) <= Paths(old(db.store))
      ensures Prefix(old(trace), trace) && Prefix(trace, old(trace) + ReplaceEdits(si, di, shadowed, dst))
      ensures err.None? ==> trace == old(trace) + ReplaceEdits(si, di, shadowed, dst)
    {
      err := None;
      if si.kind != NoNode {
        var props := if PropsMatch(si.props, di.props) then None else si.props;
        if si.kind == File || si.kind == Symlink {
          var checksum := if ChecksumMatch(si.checksum, di.checksum) then None else si.checksum;
          if props.Some? || checksum.Some? {
            err := TcEditorAlterFile(dst, checksum, props, shadowed);
          }
        } else if si.kind == Dir {
          var same := ChildrenMatch(sc, dc);
          ChildrenMatchSorted(sc, dc);
          if props.Some? || !same {
            err := TcEditorAlterDirectory(dst, props, shadowed);
          }
        }
      }
    }

    /**
     * The first part of update_moved_away_node: given what get_info reports
     * for the source node and the destination node, drive the editor for
     * the node itself. On success the calls are exactly NodeEdits; on an
     * error they are a prefix of it.
     */
    method EditNode(dst: Path, si: NodeInfo, di: NodeInfo, sc: seq<string>, dc: seq<string>, shadowed: bool)
      returns (err: Option<DbError>)
      requires Valid()
      requires StrictlySorted(sc) && Elems(sc) == si.children && StrictlySorted(dc) && Elems(dc) == di.children
      modifies this, db
      ensures Valid() && Paths(db.store) <= Paths(old(db.store))
      ensures Prefix(old(trace), trace) && Prefix(trace, old(trace) + NodeEdits(si, di, shadowed, dst))
      ensures err.None? ==> trace == old(trace) + NodeEdits(si, di, shadowed, dst)
    {
      ghost var s0 := db.store;
      ghost var full := old(trace) + NodeEdits(si, di, shadowed, dst);
      err := EditNodeDelete(dst, si, di, shadowed);
      if err.Some? {
        PrefixTransitive(trace, old(trace) + DeleteEdits(si, di, dst), full);
        return;
      }
      ghost var s1 := db.store;
      ghost var t1 := trace;
      if AddsNode(si, di) {
        err := EditNodeAdd(dst, si, di, shadowed);
      } else {
        err := EditNodeAlter(dst, si, di, sc, dc, shadowed);
      }
      assert t1 + ReplaceEdits(si, di, shadowed, dst) == full;
      PrefixTransitive(old(trace), t1, trace);
      assert Paths(db.store) <= Paths(s1) <= Paths(s0);
    }

    /**
     * update_moved_away_node: compare the source node src (at op-depth sd)
     * with the destination node dst (at the destination's op-depth), edit
     * the destination, and for a source directory walk the union of both
     * children lists in strcmp order, recursing into each name. bound is a
     * depth no path of the store exceeds; it bounds the recursion.
     */
    method UpdateMovedAwayNode(src: Path, dst: Path, sd: nat, shadowed: bool, ghost bound: nat)
      returns (err: Option<DbError>, ghost visited: seq<string>, ghost childShadowed: seq<bool>)
      requires Valid()
      requires forall q :: q in Paths(db.store) ==> |q| <= bound
      requires |src| <= bound + 1
      modifies this, db
      decreases bound + 1 - |src|, 1
      ensures Valid() && Paths(db.store) <= Paths(old(db.store))
      ensures Prefix(old(trace), trace)
      ensures err.None? ==>
        Prefix(old(trace) + NodeEdits(InfoOf(old(db.store), src, sd), InfoOf(old(db.store), dst, |moveRootDst|), shadowed, dst), trace)
      ensures InfoOf(old(db.store), src, sd).kind != Dir ==> visited == []
      ensures (err.None? && InfoOf(old(db.store), src, sd).kind == Dir) ==>
        StrictlySorted(visited)
        && Elems(visited) == InfoOf(old(db.store), src, sd).children + InfoOf(old(db.store), dst, |moveRootDst|).children
      ensures |childShadowed| == |visited| && (shadowed ==> forall k :: 0 <= k < |childShadowed| ==> childShadowed[k])
    {
      var si, sc := GetInfo(src, sd);
      var di, dc := GetInfo(dst, |moveRootDst|);
      visited, childShadowed := [], [];
      err := EditNode(dst, si, di, sc, dc, shadowed);
      if err.Some? || si.kind != Dir {
        return;
      }
      assert (src, sd) in old(db.store) && src in Paths(old(db.store));
      ghost var t1 := trace;
      MergeNamesSortedUnion(sc, dc);
      err, visited, childShadowed := VisitChildren(src, dst, sd, shadowed, sc, dc, bound);
      PrefixTransitive(old(trace), t1, trace);
      if err.None? {
        PrefixTransitive(old(trace) + NodeEdits(si, di, shadowed, dst), t1, trace);
      }
    }

    /**
     * The children walk of update_moved_away_node: the names of the sorted
     * lists sc (source side) and dc (destination side) in strcmp order, a
     * name on both sides once, each child shadowed with its parent or when
     * check_node_shadowed says so.
     */
    method VisitChildren(src: Path, dst: Path, sd: nat, shadowed: bool, sc: seq<string>, dc: seq<string>, ghost bound: nat)
      returns (err: Option<DbError>, ghost visited: seq<string>, ghost childShadowed: seq<bool>)
      requires Valid()
      requires forall q :: q in Paths(db.store) ==> |q| <= bound
      requires |src| <= bound
      modifies this, db
      decreases bound + 1 - |src|, 0
      ensures Valid() && Paths(db.store) <= Paths(old(db.store))
      ensures Prefix(old(trace), trace)
      ensures err.None? ==> visited == MergeNames(sc, dc)
      ensures |childShadowed| == |visited| && (shadowed ==> forall k :: 0 <= k < |childShadowed| ==> childShadowed[k])
    {
      visited, childShadowed := [], [];
      err := None;
      var i, j := 0, 0;
      while i < |sc| || j < |dc|
        invariant Valid() && Paths(db.store) <= Paths(old(db.store))
        invariant 0 <= i <= |sc| && 0 <= j <= |dc|
        invariant visited + MergeNames(sc[i..], dc[j..]) == MergeNames(sc, dc)
        invariant Prefix(old(trace), trace)
        invariant |childShadowed| == |visited| && (shadowed ==> forall k :: 0 <= k < |childShadowed| ==> childShadowed[k])
        decreases |sc| - i + |dc| - j
      {
        var srcOnly, dstOnly := false, false;
        var name;
        if i >= |sc| {
          dstOnly, name := true, dc[j];
        } else if j >= |dc| {
          srcOnly, name := true, sc[i];
        } else {
          if StrLt(dc[j], sc[i]) {
            dstOnly := true;
          } else if StrLt(sc[i], dc[j]) {
            srcOnly := true;
          }
          name := if dstOnly then dc[j] else sc[i];
        }
        var ni := if dstOnly then i else i + 1;
        var nj := if srcOnly then j else j + 1;
        MergeNamesUnfold(sc[i..], dc[j..]);
        assert i < |sc| ==> sc[i..][1..] == sc[i + 1..];
        assert j < |dc| ==> dc[j..][1..] == dc[j + 1..];
        assert MergeNames(sc[i..], dc[j..]) == [name] + MergeNames(sc[ni..], dc[nj..]);
        ghost var nv := visited + [name];
        AppendOne(visited, name, MergeNames(sc[ni..], dc[nj..]));
        var childShadow := shadowed;
        if !childShadow {
          childShadow := CheckNodeShadowed(dst + [name]);
        }
        ghost var t2 := trace;
        var e, _, _ := UpdateMovedAwayNode(src + [name], dst + [name], sd, childShadow, bound);
        PrefixTransitive(old(trace), t2, trace);
        if e.Some? {
          err := e;
          return;
        }
        visited, childShadowed := nv, childShadowed + [childShadow];
        i, j := ni, nj;
      }
      assert sc[i..] == [] && dc[j..] == [];
    }

    /**
     * drive_tree_conflict_editor: only conflicts of an update or a switch
     * are resolved; the move source src (its layer at op-depth sd) is
     * compared with the destination, then the destination layer is
     * replaced by a copy of the source layer. Afterwards every row of the
     * source layer has its moved-here copy in the destination layer.
     */
    method DriveTreeConflictEditor(src: Path, sd: nat) returns (err: Option<DbError>)
      requires Valid()
      modifies this, db
      ensures Valid()
      ensures operation != OpUpdate && operation != OpSwitch ==>
        err == Some(CannotAutoResolve(src)) && db.store == old(db.store) && trace == old(trace)
        && db.conflicts == old(db.conflicts) && db.workQueue == old(db.workQueue) && db.moveList == old(db.moveList)
      ensures err.None? ==>
        Prefix(old(trace) + NodeEdits(InfoOf(old(db.store), src, sd), InfoOf(old(db.store), moveRootDst, |moveRootDst|), false, moveRootDst), trace)
      ensures (err.None? && NoOverlap(src, sd, moveRootDst)) ==>
        forall q :: q in LayerPaths(db.store, src, sd) ==>
          var k := (MovedPath(src, moveRootDst, q), |moveRootDst|);
          k in db.store && db.store[k] == db.store[(q, sd)].(movedHere := true, movedTo := db.store[k].movedTo)
    {
      if operation != OpUpdate && operation != OpSwitch {
        return Some(CannotAutoResolve(src));
      }
      var bound := DepthBound(Paths(db.store));
      bound := if |src| > bound then |src| else bound;
      ghost var visited, childShadowed;
      err, visited, childShadowed := UpdateMovedAwayNode(src, moveRootDst, sd, false, bound);
      if err.Some? {
        return;
      }
      ghost var m := db.store;
      db.ReplaceMovedLayer(src, moveRootDst, sd);
      if NoOverlap(src, sd, moveRootDst) {
        ReplaceLayerKeepsSource(m, src, sd, moveRootDst);
        forall q | q in LayerPaths(db.store, src, sd)
          ensures var k := (MovedPath(src, moveRootDst, q), |moveRootDst|);
            k in db.store && db.store[k] == db.store[(q, sd)].(movedHere := true, movedTo := db.store[k].movedTo)
        {
          ReplaceLayerCopies(m, src, sd, moveRootDst, q);
        }
      }
    }
  }

  // ----- the entry point -----

  /** What get_tc_info reads from the conflict stored for a victim. */
  datatype VictimInfo = VictimInfo(operation: Operation, reason: Reason, action: Action, moveSrcOpRoot: Path,
                                   oldVersion: Version, newVersion: Version)

  /**
   * get_tc_info: the victim must be in conflict, and the conflict must be a
   * tree conflict of an update or a switch. Missing locations or a missing
   * move source are a malfunction: the C code would read them through
   * NULL or uninitialised pointers.
   */
  function TcInfo(conflicts: map<Path, Conflict>, victim: Path): (r: Result<VictimInfo, DbError>)
    ensures r.Ok? <==> (victim in conflicts
      && (conflicts[victim].operation == OpUpdate || conflicts[victim].operation == OpSwitch)
      && conflicts[victim].tree.Some? && conflicts[victim].tree.value.moveSrcOpRoot.Some?
      && conflicts[victim].oldVersion.Some? && conflicts[victim].newVersion.Some?)
    ensures r.Ok? ==> var c := conflicts[victim];
      r.value == VictimInfo(c.operation, c.tree.value.reason, c.tree.value.action, c.tree.value.moveSrcOpRoot.value,
                            c.oldVersion.value, c.newVersion.value)
    ensures victim !in conflicts ==> r == Err(NotInConflict(victim))
    ensures (victim in conflicts && ((conflicts[victim].operation != OpUpdate && conflicts[victim].operation != OpSwitch)
             || conflicts[victim].tree.None?)) ==> r == Err(NotTreeConflictVictim(victim))
  {
    if victim !in conflicts then Err(NotInConflict(victim))
    else
      var c := conflicts[victim];
      if (c.operation != OpUpdate && c.operation != OpSwitch) || c.tree.None? then Err(NotTreeConflictVictim(victim))
      else if c.oldVersion.None? || c.newVersion.None? || c.tree.value.moveSrcOpRoot.None? then Err(Malfunction)
      else Ok(VictimInfo(c.operation, c.tree.value.reason, c.tree.value.action, c.tree.value.moveSrcOpRoot.value,
                         c.oldVersion.value, c.newVersion.value))
  }

  /**
   * update_moved_away_conflict_victim: find where the victim was moved to
   * (the op-root of the move destination), require the write lock there,
   * find the layer the victim is deleted from (the highest working layer
   * below the move source's op-root), check a BASE source, and drive the
   * editor. Every refusal leaves the working copy as it was.
   */
  method UpdateMovedAwayConflictVictim(db: Db, victim: Path, operation: Operation, moveSrcOpRoot: Path,
                                       oldVersion: Version, newVersion: Version)
    returns (err: Option<DbError>)
    requires db.Valid()
    modifies db
    ensures db.Valid()
    ensures db.env.movedAway(victim, |moveSrcOpRoot| - 1).None? ==>
      err == Some(NotMovedAway(victim)) && db.store == old(db.store) && db.conflicts == old(db.conflicts)
    ensures (db.env.movedAway(victim, |moveSrcOpRoot| - 1).Some?
             && !db.env.writeLocked(db.env.movedAway(victim, |moveSrcOpRoot| - 1).value.moveDstOpRoot)) ==>
      err == Some(NotLocked(db.env.movedAway(victim, |moveSrcOpRoot| - 1).value.moveDstOpRoot))
      && db.store == old(db.store) && db.conflicts == old(db.conflicts)
    ensures (db.env.movedAway(victim, |moveSrcOpRoot| - 1).Some?
             && db.env.writeLocked(db.env.movedAway(victim, |moveSrcOpRoot| - 1).value.moveDstOpRoot)
             && HighestWorkingNode(old(db.store), moveSrcOpRoot, |moveSrcOpRoot|).None?) ==>
      err == Some(NotDeleted(victim)) && db.store == old(db.store) && db.conflicts == old(db.conflicts)
    ensures err.None? ==>
      var moved := db.env.movedAway(victim, |moveSrcOpRoot| - 1);
      var sd := HighestWorkingNode(old(db.store), moveSrcOpRoot, |moveSrcOpRoot|);
      moved.Some? && db.env.writeLocked(moved.value.moveDstOpRoot) && sd.Some?
      && (operation == OpUpdate || operation == OpSwitch)
      && (sd.value == 0 && (victim, 0) in old(db.store) ==>
            forall q :: q in LayerPaths(old(db.store), victim, 0) ==> BaseRowMatches(old(db.store), victim, q))
      && (NoOverlap(victim, sd.value, moved.value.moveDstOpRoot) ==>
            forall q :: q in LayerPaths(db.store, victim, sd.value) ==>
              var k := (MovedPath(victim, moved.value.moveDstOpRoot, q), |moved.value.moveDstOpRoot|);
              k in db.store && db.store[k] == db.store[(q, sd.value)].(movedHere := true, movedTo := db.store[k].movedTo))
  {
    var moved := db.env.movedAway(victim, |moveSrcOpRoot| - 1);
    if moved.None? {
      return Some(NotMovedAway(victim));
    }
    var dst := moved.value.moveDstOpRoot;
    err := db.VerifyWriteLock(dst);
    if err.Some? {
      return;
    }
    var sd := HighestWorkingNode(db.store, moveSrcOpRoot, |moveSrcOpRoot|);
    if sd.None? {
      return Some(NotDeleted(victim));
    }
    if sd.value == 0 {
      err := db.SuitableForMove(victim);
      if err.Some? {
        return;
      }
    }
    db.CreateUpdateMoveList();
    var b := new UpdateMoveBaton(db, dst, operation, oldVersion, newVersion);
    err := b.DriveTreeConflictEditor(victim, sd.value);
  }

  /**
   * svn_wc__db_update_moved_away_conflict_victim: read the victim's tree
   * conflict, require the write lock on the move source, run the update in
   * one transaction (an error rolls back everything it wrote), then send
   * the queued notifications and, when there is a notify function, a final
   * update-completed notification for the victim.
   */
  method UpdateMovedAwayConflictVictimEntry(db: Db, victim: Path, hasNotifyFunc: bool)
    returns (err: Option<DbError>, sent: seq<Notification>)
    requires db.Valid()
    modifies db
    ensures db.Valid()
    ensures TcInfo(old(db.conflicts), victim).Err? ==> err == Some(TcInfo(old(db.conflicts), victim).error)
    ensures err.Some? ==>
      sent == [] && db.store == old(db.store) && db.conflicts == old(db.conflicts) && db.workQueue == old(db.workQueue)
      && db.moveList == old(db.moveList) && db.parentDeletes == old(db.parentDeletes)
    ensures (TcInfo(old(db.conflicts), victim).Ok? && !db.env.writeLocked(TcInfo(old(db.conflicts), victim).value.moveSrcOpRoot)) ==>
      err == Some(NotLocked(TcInfo(old(db.conflicts), victim).value.moveSrcOpRoot))
    ensures err.None? ==>
      TcInfo(old(db.conflicts), victim).Ok? && db.env.writeLocked(TcInfo(old(db.conflicts), victim).value.moveSrcOpRoot)
      && db.moveList == []
      && (hasNotifyFunc ==>
            (|sent| > 0 && sent[|sent| - 1] ==
             Notification(victim, NotifyUpdateCompleted, NoNode, Inapplicable, Inapplicable, -1,
                          TcInfo(old(db.conflicts), victim).value.newVersion.pegRev)))
      && (!hasNotifyFunc ==> sent == [])
  {
    sent := [];
    var info := TcInfo(db.conflicts, victim);
    if info.Err? {
      return Some(info.error), [];
    }
    var v := info.value;
    err := db.VerifyWriteLock(v.moveSrcOpRoot);
    if err.Some? {
      return;
    }
    var s, c, w, m, pd := db.store, db.conflicts, db.workQueue, db.moveList, db.parentDeletes;
    err := UpdateMovedAwayConflictVictim(db, victim, v.operation, v.moveSrcOpRoot, v.oldVersion, v.newVersion);
    if err.Some? {
      db.Rollback(s, c, w, m, pd);
      return;
    }
    sent := db.UpdateMoveListNotify(v.oldVersion.pegRev, v.newVersion.pegRev, hasNotifyFunc);
    if hasNotifyFunc {
      sent := sent + [Notification(victim, NotifyUpdateCompleted, NoNode, Inapplicable, Inapplicable, -1, v.newVersion.pegRev)];
    }
  }
}
