/**
 * The NODES table of a working-copy database (wc.db) as a map from
 * (local_relpath, op_depth) to a row, and the SQL statements of the move
 * code as queries and updates over that map. The statement texts are not
 * part of this model; each definition below states the meaning the move
 * code relies on, as its name and its use in the move code describe it.
 */
module Nodes {
  import opened Wrappers
  import opened RelPath

  /** svn_node_kind_t. */
  datatype Kind = NoNode | File | Dir | Symlink | UnknownKind

  /** The presence column of a NODES row. */
  datatype Presence = Normal | NotPresent | BaseDeleted | Incomplete | Excluded | ServerExcluded

  type Checksum = string
  type Props = map<string, string>

  /** One NODES row; the key (local_relpath, op_depth) is held by the map. */
  datatype Row = Row(
    kind: Kind,
    presence: Presence,
    reposRelpath: Option<Path>,
    revision: int,
    checksum: Option<Checksum>,
    props: Option<Props>,
    movedTo: Option<Path>,
    movedHere: bool)

  type Store = map<(Path, nat), Row>

  /** The schema rule that an op_depth never exceeds the depth of its local_relpath. */
  ghost predicate WellFormed(s: Store)
  {
    forall k :: k in s ==> k.1 <= |k.0|
  }

  /** Every local_relpath that has at least one row. */
  function Paths(s: Store): set<Path>
  {
    set k | k in s :: k.0
  }

  // ----- queries -----

  function LowestFrom(s: Store, p: Path, k: nat): (r: Option<nat>)
    ensures r.Some? ==> k <= r.value && (p, r.value) in s
    ensures r.Some? ==> forall j :: k <= j < r.value ==> (p, j) !in s
    ensures r.None? ==> forall j :: k <= j <= |p| ==> (p, j) !in s
    decreases |p| + 1 - k
  {
    if k > |p| then None
    else if (p, k) in s then Some(k)
    else LowestFrom(s, p, k + 1)
  }

  /** STMT_SELECT_LOWEST_WORKING_NODE: the lowest op_depth above d that has a row for p. */
  function LowestWorkingNode(s: Store, p: Path, d: nat): (r: Option<nat>)
    ensures r.Some? ==> d < r.value && (p, r.value) in s
    ensures r.Some? ==> forall j :: d < j < r.value ==> (p, j) !in s
    ensures r.None? && WellFormed(s) ==> forall j :: d < j ==> (p, j) !in s
  {
    LowestFrom(s, p, d + 1)
  }

  function HighestFrom(s: Store, p: Path, k: nat): (r: Option<nat>)
    ensures r.Some? ==> r.value <= k && (p, r.value) in s
    ensures r.Some? ==> forall j :: r.value < j <= k ==> (p, j) !in s
    ensures r.None? ==> forall j :: j <= k ==> (p, j) !in s
    decreases k
  {
    if (p, k) in s then Some(k)
    else if k == 0 then None
    else HighestFrom(s, p, k - 1)
  }

  /** STMT_SELECT_HIGHEST_WORKING_NODE: the highest op_depth below d that has a row for p. */
  function HighestWorkingNode(s: Store, p: Path, d: nat): (r: Option<nat>)
    ensures r.Some? ==> r.value < d && (p, r.value) in s
    ensures r.Some? ==> forall j :: r.value < j < d ==> (p, j) !in s
    ensures r.None? ==> forall j :: j < d ==> (p, j) !in s
  {
    if d == 0 then None else HighestFrom(s, p, d - 1)
  }

  /**
   * STMT_SELECT_WORKING_NODE as check_node_shadowed reads it: the op_depth
   * of the topmost WORKING row (op_depth > 0) of p, or -1 when there is none.
   */
  function WorkingOpDepth(s: Store, p: Path): (r: int)
    ensures r == -1 || (0 < r <= |p| && (p, r) in s)
    ensures WellFormed(s) ==> forall j :: 0 < j && r < j ==> (p, j) !in s
    ensures r == -1 ==> forall j :: 0 < j <= |p| ==> (p, j) !in s
  {
    match HighestFrom(s, p, |p|)
    case Some(k) => if k > 0 then k else -1
    case None => -1
  }

  /** In svn_wc__db_depth_get_info a row reads as status "deleted" when it is base-deleted, or not-present above op_depth 0. */
  predicate ReadsDeleted(r: Row, d: nat)
  {
    r.presence == BaseDeleted || (d > 0 && r.presence == NotPresent)
  }

  /** svn_wc__db_get_children_op_depth: the basenames of the rows at op_depth d directly below p. */
  function ChildNames(s: Store, p: Path, d: nat): set<string>
  {
    set k | k in s && k.1 == d && |k.0| == |p| + 1 && k.0[..|p|] == p :: k.0[|p|]
  }

  lemma ChildNamesMeaning(s: Store, p: Path, d: nat, c: string)
    ensures c in ChildNames(s, p, d) <==> (p + [c], d) in s
  {
    if (p + [c], d) in s {
      assert (p + [c])[..|p|] == p;
      assert (p + [c])[|p|] == c;
    }
    if c in ChildNames(s, p, d) {
      var k :| k in s && k.1 == d && |k.0| == |p| + 1 && k.0[..|p|] == p && k.0[|p|] == c;
      assert k.0 == p + [c];
    }
  }

  /** STMT_SELECT_LOCAL_RELPATH_OP_DEPTH: every row at op_depth d in the subtree rooted at p, p included. */
  function LayerPaths(s: Store, p: Path, d: nat): (r: set<Path>)
    ensures forall q :: q in r <==> (q, d) in s && IsAncestor(p, q)
  {
    set k | k in s && k.1 == d && IsAncestor(p, k.0) :: k.0
  }

  /** STMT_SELECT_CHILDREN_OP_DEPTH: the rows at op_depth d strictly below p. */
  function LayerDescendants(s: Store, p: Path, d: nat): (r: set<Path>)
    ensures forall q :: q in r <==> (q, d) in s && IsStrictAncestor(p, q)
  {
    set k | k in s && k.1 == d && IsStrictAncestor(p, k.0) :: k.0
  }

  /** STMT_SELECT_MOVED_OUTSIDE: the destinations of moves recorded above op_depth 0 in the subtree rooted at p that leave it. */
  function MovedOutside(s: Store, p: Path): set<Path>
  {
    set k | k in s && k.1 > 0 && IsAncestor(p, k.0) && s[k].movedTo.Some? && !IsAncestor(p, s[k].movedTo.value) :: s[k].movedTo.value
  }

  /** STMT_HAS_LAYER_BETWEEN: p has a row at an op_depth strictly between lo and hi. */
  predicate HasLayerBetween(s: Store, p: Path, lo: nat, hi: nat)
  {
    exists k :: k in s && k.0 == p && lo < k.1 < hi
  }

  /** STMT_SELECT_OP_DEPTH_CHILDREN: p has a child row at op_depth d. */
  predicate HasChildren(s: Store, p: Path, d: nat)
  {
    exists k :: k in s && k.1 == d && |k.0| == |p| + 1 && k.0[..|p|] == p
  }

  /** STMT_SELECT_HAS_NON_FILE_CHILDREN: p has a child row at op_depth d that is not a file. */
  predicate HasNonFileChildren(s: Store, p: Path, d: nat)
  {
    exists k :: k in s && k.1 == d && |k.0| == |p| + 1 && k.0[..|p|] == p && s[k].kind != File
  }

  /** STMT_SELECT_HAS_GRANDCHILDREN: p has a row at op_depth d two or more levels below it. */
  predicate HasGrandchildren(s: Store, p: Path, d: nat)
  {
    exists k :: k in s && k.1 == d && |k.0| >= |p| + 2 && k.0[..|p|] == p
  }

  // ----- updates -----

  /** STMT_DELETE_WORKING_OP_DEPTH: remove the rows at op_depth d in the subtree rooted at p. */
  function DeleteLayer(s: Store, p: Path, d: nat): (r: Store)
    ensures forall k :: k in r <==> k in s && !(k.1 == d && IsAncestor(p, k.0))
    ensures forall k :: k in r ==> r[k] == s[k]
  {
    map k | k in s && !(k.1 == d && IsAncestor(p, k.0)) :: s[k]
  }

  /** STMT_DELETE_WORKING_OP_DEPTH_ABOVE: remove the rows above op_depth d in the subtree rooted at p. */
  function DeleteAbove(s: Store, p: Path, d: nat): (r: Store)
    ensures forall k :: k in r <==> k in s && !(k.1 > d && IsAncestor(p, k.0))
    ensures forall k :: k in r ==> r[k] == s[k]
  {
    map k | k in s && !(k.1 > d && IsAncestor(p, k.0)) :: s[k]
  }

  /** A row at op_depth d of q has a row of a lower layer, at or above op_depth below, underneath it. */
  predicate HasLowerLayer(s: Store, q: Path, d: nat, below: nat)
  {
    exists k :: k in s && k.0 == q && below <= k.1 < d
  }

  /**
   * STMT_DELETE_NO_LOWER_LAYER: remove the rows at op_depth d in the subtree
   * rooted at p that do not shadow a lower layer reaching down to op_depth below.
   */
  function DeleteNoLowerLayer(s: Store, p: Path, d: nat, below: nat): (r: Store)
    ensures forall k :: k in r <==> k in s && !(k.1 == d && IsAncestor(p, k.0) && !HasLowerLayer(s, k.0, d, below))
    ensures forall k :: k in r ==> r[k] == s[k]
  {
    map k | k in s && !(k.1 == d && IsAncestor(p, k.0) && !HasLowerLayer(s, k.0, d, below)) :: s[k]
  }

  /** The row that marks a delete of the layers below it. */
  function BaseDeletedRow(r: Row): Row
  {
    Row(r.kind, BaseDeleted, None, r.revision, None, None, r.movedTo, false)
  }

  /** STMT_REPLACE_WITH_BASE_DELETED: the rows at op_depth d in the subtree rooted at p become base-deleted. */
  function ReplaceWithBaseDeleted(s: Store, p: Path, d: nat): (r: Store)
    ensures r.Keys == s.Keys
    ensures forall k :: k in r ==> r[k] == if k.1 == d && IsAncestor(p, k.0) then BaseDeletedRow(s[k]) else s[k]
  {
    map k | k in s :: if k.1 == d && IsAncestor(p, k.0) then BaseDeletedRow(s[k]) else s[k]
  }

  /**
   * STMT_UPDATE_OP_DEPTH_RECURSIVE: the rows at op_depth from in the subtree
   * rooted at p move to op_depth to, turning that subtree into a copy.
   */
  function UpdateOpDepth(s: Store, p: Path, from: nat, to: nat): (r: Store)
    ensures forall q, j :: (q, j) in r <==>
      if IsAncestor(p, q) && from != to then (j == to && (q, from) in s) || (j != from && (q, j) in s)
      else (q, j) in s
    ensures forall q, j :: (q, j) in r ==>
      r[(q, j)] == if IsAncestor(p, q) && from != to && j == to && (q, from) in s then s[(q, from)] else s[(q, j)]
  {
    if from == to then s
    else
      var moved := set k | k in s && k.1 == from && IsAncestor(p, k.0) :: (k.0, to);
      map k | k in (s.Keys - (set m | m in s && m.1 == from && IsAncestor(p, m.0))) + moved ::
        if k in moved then s[(k.0, from)] else s[k]
  }

  /**
   * STMT_COPY_NODE_MOVE: the row of src at op_depth sd is copied to dst at
   * op_depth dd, marked moved-here; the moved-to value of the row it replaces is kept.
   */
  function CopyNodeMove(s: Store, src: Path, sd: nat, dst: Path, dd: nat): (r: Store)
    requires (src, sd) in s
    ensures r.Keys == s.Keys + {(dst, dd)}
    ensures r[(dst, dd)].movedHere && r[(dst, dd)].kind == s[(src, sd)].kind
  {
    var old_moved_to := if (dst, dd) in s then s[(dst, dd)].movedTo else None;
    s[(dst, dd) := s[(src, sd)].(movedHere := true, movedTo := old_moved_to)]
  }

  /** The paths with a row that records where it was moved to. */
  function MovedSources(s: Store): set<Path>
  {
    set k | k in s && s[k].movedTo.Some? :: k.0
  }

  /** A copy keeps the moved-to value of the row it replaces, so it records no new move. */
  lemma CopyNodeMoveSources(s: Store, src: Path, sd: nat, dst: Path, dd: nat)
    requires (src, sd) in s
    ensures MovedSources(CopyNodeMove(s, src, sd, dst, dd)) <= MovedSources(s)
  {
    var r := CopyNodeMove(s, src, sd, dst, dd);
    forall q | q in MovedSources(r) ensures q in MovedSources(s) {
      var k :| k in r && r[k].movedTo.Some? && k.0 == q;
      assert k in s && s[k].movedTo.Some?;
    }
  }

  /** STMT_CLEAR_MOVED_TO_RELPATH: the row of p at op_depth d forgets where it was moved to. */
  function ClearMovedTo(s: Store, p: Path, d: nat): (r: Store)
    ensures r.Keys == s.Keys
    ensures (p, d) in r ==> r[(p, d)].movedTo == None
    ensures forall k :: k in r && k != (p, d) ==> r[k] == s[k]
  {
    if (p, d) in s then s[(p, d) := s[(p, d)].(movedTo := None)] else s
  }

  /** STMT_CLEAR_MOVED_HERE_RECURSIVE: the rows at op_depth d in the subtree rooted at p stop being moved-here. */
  function ClearMovedHere(s: Store, p: Path, d: nat): (r: Store)
    ensures r.Keys == s.Keys
    ensures forall k :: k in r ==> r[k] == if k.1 == d && IsAncestor(p, k.0) then s[k].(movedHere := false) else s[k]
  {
    map k | k in s :: if k.1 == d && IsAncestor(p, k.0) then s[k].(movedHere := false) else s[k]
  }

  // ----- shape of the updated store -----

  /** A store holding only keys of a well-formed store is well formed and has no new paths. */
  lemma SubStoreShape(s: Store, r: Store)
    requires WellFormed(s) && r.Keys <= s.Keys
    ensures WellFormed(r) && Paths(r) <= Paths(s)
  {
    forall q | q in Paths(r) ensures q in Paths(s) {
      var k :| k in r && k.0 == q;
    }
  }

  /** Moving a subtree to the op_depth of its root (or lower) keeps the store well formed and adds no path. */
  lemma UpdateOpDepthShape(s: Store, p: Path, from: nat, to: nat)
    requires WellFormed(s) && to <= |p|
    ensures WellFormed(UpdateOpDepth(s, p, from, to)) && Paths(UpdateOpDepth(s, p, from, to)) <= Paths(s)
  {
    var r := UpdateOpDepth(s, p, from, to);
    forall k | k in r ensures k.1 <= |k.0| && k.0 in Paths(s) {
      if IsAncestor(p, k.0) && from != to && k.1 == to && (k.0, from) in s {
        assert (k.0, from) in s;
      } else {
        assert k in s;
      }
    }
  }
}
