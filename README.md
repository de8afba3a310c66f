# Subversion: moved-away updates, path-based authz and access batons

This project models three pieces of Apache Subversion in Dafny and proves
properties of the model.

- **Updating a moved-away tree** (`libsvn_wc/wc_db_update_move.c`). An
  update can change a subtree that was moved locally. The working-copy
  database (wc.db) then holds the new state under the move source and the
  old state at the move destination.
  - The driver walks both trees side by side and calls a receiver, the
    tc_editor routines. For each node it issues a delete, an add or an
    alter.
  - The receiver raises tree conflicts where local changes or higher
    layers are in the way, and queues work items and notifications.
  - Finally the source layer is copied over the destination layer.
  - The same file bumps moves after an update (bump_moved_away). It also
    breaks moves and computes the lock a resolve needs.
- **The path-based authorization evaluator** (`libsvn_repos/authz.c`).
  - A rule file has sections named by a path or by a `repos:path`, plus a
    `[groups]` section. Each line of a section says what a user, a
    `@group` or `*` may do.
  - Checking a request climbs from the path towards `/` until some section
    decides the request. A recursive request also scans the whole subtree.
  - Reading a rule file rejects rules naming undefined groups, and rejects
    group definitions that are circular.
- **Administrative access batons** (`libsvn_wc/lock.c`).
  - A baton stands for one open working-copy directory. It knows whether it
    holds the directory's write lock, and it caches the directory's
    entries.
  - It belongs to a set shared by the batons opened together.
  - Opening a directory to a depth fills the set with a baton per working
    copy subdirectory, and with a "missing" placeholder for each other
    subdirectory.
  - Closing with recursion closes the batons below, deepest first.

Files:

- `wrappers.dfy`, `sets.dfy`, `lex.dfy`, `relpath.dfy`: Option/Result,
  small set lemmas, strcmp order and merged sorted name lists, and relpaths
  as component sequences (depth, dirname, join, skip-ancestor,
  longest common ancestor).
- `nodes.dfy`: the NODES table as a map from (local_relpath, op_depth) to a
  row. Every SQL statement the move code uses is a query or an update over
  that map. Each one's contract states the meaning the move code relies
  on.
- `wc_db.dfy`: the database class `Db`. It holds rows, conflicts, work
  queue, the update_move_list notification table, and a log of
  parent-delete calls. It carries mark_tree_conflict, replace_moved_layer,
  suitable_for_move, break_move, required_lock_for_resolve and the spooled
  notifications.
- `move_editor.dfy`: the update_move_baton class with check_tree_conflict,
  the tc_editor receiver, delete_move_leaf, and the update_moved_away_node
  driver. It also has the svn_wc__db_update_moved_away_conflict_victim
  entry point.
- `move_bump.dfy`: check_bump_layer, depth_sufficient_to_bump,
  bump_mark_tree_conflict, bump_moved_layer, bump_moved_away and
  svn_wc__db_bump_moved_away.
- `authz_config.dfy`: the parsed rule file, comma-separated lists, group
  membership, the group walk and the validation of svn_repos_authz_read.
- `authz.dfy`: the access bitmask tests, rule lines and sections, path and
  tree access, and svn_repos_authz_check_access.
- `adm_lock.dfy`: the baton and set classes, retrieve, missing, locked,
  write check, prune_deleted, adm_ensure_set, join_batons and do_close.
- `adm_open.dfy`: the set bookkeeping of do_open.

Routines whose code is not part of this model become inputs. They are
fields of the `WcDb.Env` value, such as the disk kind of a path, local
modifications, property and text merges, svn_wc__db_op_depth_moved_to and
the write-lock check. The disk as do_open reads it is an `AdmOpen.Tree`
value. The lock file kind `svn_io_check_path` finds is a parameter.

## Model

| member | source | states |
|---|---|---|
| Nodes.LowestWorkingNode | subversion/libsvn_wc/wc_db_update_move.c:460-467 | the op_depth found is the lowest above d with a row for p (no row strictly between); none means no row of p above d at all |
| Nodes.HighestWorkingNode | subversion/libsvn_wc/wc_db_update_move.c:1239-1246 | the op_depth found is the highest below d with a row for p; none means p has no row below d |
| Nodes.WorkingOpDepth | subversion/libsvn_wc/wc_db_update_move.c:412-419 | -1 exactly when p has no WORKING row; otherwise the op_depth of a WORKING row of p with none higher |
| Nodes.ChildNamesMeaning | subversion/libsvn_wc/wc_db_update_move.c:1412-1418 | a name is a child name of p at op_depth d exactly when p/name has a row at d |
| Nodes.LayerPaths | subversion/libsvn_wc/wc_db_update_move.c:1646-1650 | exactly the nodes of the subtree rooted at p (p included) with a row at op_depth d |
| Nodes.LayerDescendants | subversion/libsvn_wc/wc_db_update_move.c:1161-1165 | exactly the nodes strictly below p with a row at op_depth d |
| Nodes.DeleteLayer | subversion/libsvn_wc/wc_db_update_move.c:1265-1269 | removes the rows at op_depth d in the subtree of p and keeps every other row unchanged |
| Nodes.DeleteAbove | subversion/libsvn_wc/wc_db_update_move.c:1133-1137 | removes the rows above op_depth d in the subtree of p and keeps every other row unchanged |
| Nodes.DeleteNoLowerLayer | subversion/libsvn_wc/wc_db_update_move.c:1250-1254 | removes the subtree's rows at d that shadow no lower layer and keeps the others unchanged |
| Nodes.ReplaceWithBaseDeleted | subversion/libsvn_wc/wc_db_update_move.c:1257-1261 | keeps every key; the subtree's rows at d become base-deleted, others are unchanged |
| Nodes.UpdateOpDepth | subversion/libsvn_wc/wc_db_update_move.c:1122-1126 | the subtree's rows at op_depth from move to op_depth to; rows outside the subtree or at other depths stay |
| Nodes.UpdateOpDepthShape | subversion/libsvn_wc/wc_db_update_move.c:1122-1126 | moving a subtree to the op_depth of its root keeps the table well formed and adds no path |
| Nodes.CopyNodeMove | subversion/libsvn_wc/wc_db_update_move.c:1663-1668 | adds exactly the key (dst, dd), whose row is moved-here and has the source row's kind |
| Nodes.CopyNodeMoveSources | subversion/libsvn_wc/wc_db_update_move.c:1663-1668 | a copy records no new move: the set of moved sources does not grow |
| Nodes.ClearMovedTo | subversion/libsvn_wc/wc_db_update_move.c:2459-2463 | only the row (p, d) changes, and it no longer records a move |
| Nodes.ClearMovedHere | subversion/libsvn_wc/wc_db_update_move.c:2467-2471 | the subtree's rows at d stop being moved-here; every other field and row is unchanged |
| WcDb.NewReposRelpathRelocates | subversion/libsvn_wc/wc_db_update_move.c:260-282 | a repository path below the old location lands at the same place below the new location |
| WcDb.NewReposRelpathInsideDestination | subversion/libsvn_wc/wc_db_update_move.c:260-282 | without an old repository path, a node inside the move destination keeps its place under the new location |
| WcDb.TreeConflictRecorded | subversion/libsvn_wc/wc_db_update_move.c:244-395 | a newly recorded conflict has the asked-for reason, action and move source, the operation, and the new location, kind and revision; it has an old location exactly when the node was versioned with a repository path |
| WcDb.TreeConflictIdempotent | subversion/libsvn_wc/wc_db_update_move.c:298-393 | raising the same tree conflict a second time writes nothing |
| WcDb.TreeConflictRefusal | subversion/libsvn_wc/wc_db_update_move.c:298-393 | it refuses exactly when: the node lies outside the destination with no relocatable path; or it is in conflict from another operation; or it has a different tree conflict; or a new conflict is not for update/switch |
| WcDb.MovedPathInverse | subversion/libsvn_wc/wc_db_update_move.c:1658-1662 | the copy of a node lies below dst, and putting src back in place of dst gives the node again |
| WcDb.MovedPathInjective | subversion/libsvn_wc/wc_db_update_move.c:1658-1662 | distinct source nodes are copied to distinct destination paths |
| WcDb.ReplaceLayerCopies | subversion/libsvn_wc/wc_db_update_move.c:1643-1676 | every source row is found at its moved path at the destination's op_depth, marked moved-here and otherwise equal, keeping the replaced row's moved-to |
| WcDb.ReplaceLayerFrame | subversion/libsvn_wc/wc_db_update_move.c:1643-1676 | no row is lost, and every row outside the destination layer is unchanged |
| WcDb.ReplaceLayerKeepsSource | subversion/libsvn_wc/wc_db_update_move.c:1643-1676 | when source and destination layers do not overlap, the source layer is unchanged |
| WcDb.ReplaceLayerIdempotent | subversion/libsvn_wc/wc_db_update_move.c:1635-1686 | replacing the moved layer twice gives the same table as once |
| WcDb.SpoolAt | subversion/libsvn_wc/wc_db_update_move.c:188-239 | the notifications keep one per row, in table order, with each row's path, action, kind and states and the update's revisions |
| WcDb.SpoolAppend | subversion/libsvn_wc/wc_db_update_move.c:188-239 | spooling rows added later appends their notifications after the earlier ones |
| WcDb.Db.VerifyWriteLock | subversion/libsvn_wc/wc_db_update_move.c:106-126 | no error exactly when the caller holds the write lock of p; otherwise NOT_LOCKED for p |
| WcDb.Db.UpdateMoveListAdd | subversion/libsvn_wc/wc_db_update_move.c:166-183 | the notification list gets exactly one row at its end; no other table changes |
| WcDb.Db.UpdateMoveListNotify | subversion/libsvn_wc/wc_db_update_move.c:188-239 | with a notify function every spooled row is sent in order, without one nothing is; the list is emptied |
| WcDb.Db.MarkTreeConflict | subversion/libsvn_wc/wc_db_update_move.c:244-395 | the outcome TreeConflictOutcome describes: an error leaves conflicts and list alone, an existing equal conflict writes nothing, a new one is stored and notified once |
| WcDb.Db.ReplaceMovedLayer | subversion/libsvn_wc/wc_db_update_move.c:1635-1686 | the table becomes ReplaceLayer's; every source row has its copy; no row is lost or moved; exactly one parent-delete extension is logged for each copied node below dst |
| WcDb.CopyLayer | subversion/libsvn_wc/wc_db_update_move.c:1652-1683 | the copy loop, in any row order, yields ReplaceLayer's table and the parent-delete extensions for the nodes below dst |
| WcDb.Db.SuitableForMove | subversion/libsvn_wc/wc_db_update_move.c:1743-1808 | a source without a BASE row passes; otherwise it passes exactly when every BASE row below it has the root's revision and unswitched repository path; a mixed-revision refusal names a row of another revision, a switched refusal names a row of the root's revision whose repository path is not the relocated one |
| WcDb.Db.BreakMove | subversion/libsvn_wc/wc_db_update_move.c:2451-2474 | the source row forgets its move and the destination subtree stops being moved-here; nothing else changes |
| WcDb.Db.RequiredLockForResolve | subversion/libsvn_wc/wc_db_update_move.c:2615-2653 | an ancestor-or-self of p and of every move destination leaving p's subtree, and the deepest such |
| MoveEditor.PropsMatch | subversion/libsvn_wc/wc_db_update_move.c:1458-1475 | two property sets match exactly when they are equal (both missing, or no differences) |
| MoveEditor.PropDiffsEmpty | subversion/libsvn_wc/wc_db_update_move.c:1470-1474 | no property differences exactly when the sets are equal |
| MoveEditor.ChildrenMatch | subversion/libsvn_wc/wc_db_update_move.c:1434-1452 | true exactly when the two child lists are equal |
| MoveEditor.ChildrenMatchSorted | subversion/libsvn_wc/wc_db_update_move.c:1434-1452 | sorted child lists are equal exactly when they name the same children |
| MoveEditor.SortNames | subversion/libsvn_wc/wc_db_update_move.c:1416-1418 | the names strictly sorted in strcmp order, each once |
| MoveEditor.UpdateMoveBaton.GetInfo | subversion/libsvn_wc/wc_db_update_move.c:1364-1428 | the node as InfoOf reads it; the child names are sorted and are exactly its children |
| MoveEditor.NodeEditsDelete | subversion/libsvn_wc/wc_db_update_move.c:1504-1525 | a delete is driven exactly when the source has no node or the kinds differ, and delete_move_leaf follows it first |
| MoveEditor.NodeEditsAdd | subversion/libsvn_wc/wc_db_update_move.c:1526-1541 | an add is driven exactly when the source node exists with a kind other than the destination's; it is last and of the source's kind |
| MoveEditor.NodeEditsAlter | subversion/libsvn_wc/wc_db_update_move.c:1542-1566 | same-kind nodes get an alter exactly when a change exists: the props, a file's checksum, or a directory's children; otherwise no call, a delete or an add |
| MoveEditor.NodeEditsIdentical | subversion/libsvn_wc/wc_db_update_move.c:1504-1566 | a node equal on both sides gets no call |
| MoveEditor.UpdateMoveBaton.EditNode | subversion/libsvn_wc/wc_db_update_move.c:1504-1566 | the calls for the node pair are exactly NodeEdits on success, a prefix of it on error |
| MoveEditor.UpdateMoveBaton.UpdateMovedAwayNode | subversion/libsvn_wc/wc_db_update_move.c:1480-1629 | the node's own edits come first; a non-directory source visits no child; a directory visits the union of both child lists in strcmp order, each name once; shadowing is inherited |
| MoveEditor.UpdateMoveBaton.VisitChildren | subversion/libsvn_wc/wc_db_update_move.c:1568-1625 | the two-pointer walk visits exactly the strcmp merge of both sorted lists; a shadowed parent shadows every child |
| MoveEditor.UpdateMoveBaton.CheckNodeShadowed | subversion/libsvn_wc/wc_db_update_move.c:399-424 | shadowed exactly when a layer above the destination's op_depth has a row for p |
| MoveEditor.DirnameTimes | subversion/libsvn_wc/wc_db_update_move.c:476-486 | n dirname steps give the ancestor n levels up (the root once the path is used up) |
| MoveEditor.ClimbToLayer | subversion/libsvn_wc/wc_db_update_move.c:476-486 | the climb ends at p's ancestor at the layer's op_depth; any step up makes both kinds directories, the action an edit, and takes as many dirnames of the repository path |
| MoveEditor.UpdateMoveBaton.RaisedOnLayerRoot | subversion/libsvn_wc/wc_db_update_move.c:470-506 | a conflict raised for an obstructing layer goes on the strict ancestor at that layer's depth, with directory kinds, an edit action and an ancestor repository path |
| MoveEditor.UpdateMoveBaton.CheckTreeConflict | subversion/libsvn_wc/wc_db_update_move.c:433-509 | inside the remembered conflict root: conflicted, nothing written; with no higher layer: the root is cleared; else the conflict is raised there and it becomes the root |
| MoveEditor.UpdateMoveBaton.RaiseTreeConflict | subversion/libsvn_wc/wc_db_update_move.c:470-506 | the conflict goes on the layer root with the climbed arguments, and on success that root becomes the conflict root |
| MoveEditor.UpdateMoveBaton.TcEditorAddDirectory | subversion/libsvn_wc/wc_db_update_move.c:512-594 | conflicted or shadowed: no work; nothing or a directory on disk: installed if absent and notified as an add; anything else: an unversioned tree conflict on p |
| MoveEditor.UpdateMoveBaton.TcEditorAddFile | subversion/libsvn_wc/wc_db_update_move.c:597-676 | conflicted or shadowed: no work; nothing on disk: a file install and an add notification; anything on disk: an unversioned tree conflict on p |
| MoveEditor.UpdateMoveBaton.MarkerConflictRelocates | subversion/libsvn_wc/wc_db_update_move.c:688-741 | conflict markers for a node below the old location record it there and at the same place below the new location |
| MoveEditor.UpdateMoveBaton.TcEditorAlterDirectory | subversion/libsvn_wc/wc_db_update_move.c:799-883 | a missing destination row is PATH_NOT_FOUND; a non-directory row fails an assertion; otherwise only new properties are merged and notified |
| MoveEditor.UpdateMoveBaton.UpdateWorkingFile | subversion/libsvn_wc/wc_db_update_move.c:901-1017 | a changed text is installed over an unmodified file or merged into a modified one; conflicts get markers; the outcome is notified |
| MoveEditor.UpdateMoveBaton.TcEditorAlterFile | subversion/libsvn_wc/wc_db_update_move.c:1024-1073 | a missing row is PATH_NOT_FOUND; a non-file row fails an assertion; the working file is updated only when the text or the props changed |
| MoveEditor.DescendingRemovals | subversion/libsvn_wc/wc_db_update_move.c:1160-1212 | one removal item per row strictly below p, in descending path order, of each row's kind |
| MoveEditor.DescendantsRemovedFirst | subversion/libsvn_wc/wc_db_update_move.c:1160-1212 | in that order every path comes before its ancestors, so a directory is emptied before it is removed |
| MoveEditor.UpdateMoveBaton.QueueRemovals | subversion/libsvn_wc/wc_db_update_move.c:1154-1218 | queues the removals of the rows below p, descendants first, then of p itself |
| MoveEditor.UpdateMoveBaton.TcEditorDelete | subversion/libsvn_wc/wc_db_update_move.c:1076-1221 | unmodified: the subtree is removed and notified; edited: it becomes a copy and is conflicted; only deleted: higher layers go, it is conflicted and removed |
| MoveEditor.UpdateMoveBaton.LeafDeletedLayer | subversion/libsvn_wc/wc_db_update_move.c:1225-1277 | afterwards only base-deleted rows over a lower layer remain in p's destination layer, and every other row is untouched |
| MoveEditor.UpdateMoveBaton.DeleteMoveLeaf | subversion/libsvn_wc/wc_db_update_move.c:1225-1277 | the table becomes LeafDeleted's and one retraction of the parent delete is logged |
| MoveEditor.UpdateMoveBaton.DriveTreeConflictEditor | subversion/libsvn_wc/wc_db_update_move.c:1700-1740 | a non-update/switch conflict cannot be auto-resolved; otherwise the root's edits are driven, and every source row then has its moved-here copy |
| MoveEditor.TcInfo | subversion/libsvn_wc/wc_db_update_move.c:1302-1356 | no conflict is NOT_IN_CONFLICT and no update/switch tree conflict is not a tree-conflict victim; success gives the stored conflict's fields |
| MoveEditor.UpdateMovedAwayConflictVictim | subversion/libsvn_wc/wc_db_update_move.c:1813-1900 | not moved away, destination not locked, not deleted: errors that leave the copy alone; on success the source passed the BASE check and the source layer was copied |
| MoveEditor.UpdateMovedAwayConflictVictimEntry | subversion/libsvn_wc/wc_db_update_move.c:1904-1977 | tree-conflict errors pass through; any error leaves every table as it was and sends nothing; success empties the list and sends a final update-completed |
| MoveBump.CheckBumpLayer | subversion/libsvn_wc/wc_db_update_move.c:2096-2144 | a source is skipped exactly when the bump's depth does not reach it, and a reached child under files or immediates keeps depth empty |
| MoveBump.CheckBumpLayerRules | subversion/libsvn_wc/wc_db_update_move.c:2106-2143 | outside the bump root always skipped, the root never; below the root, empty skips all, files non-file or deeper nodes, immediates deeper nodes |
| MoveBump.DepthSufficientToBump | subversion/libsvn_wc/wc_db_update_move.c:1982-2026 | an unhandled depth is a malfunction and depth infinity is always sufficient |
| MoveBump.DepthSufficientMeaning | subversion/libsvn_wc/wc_db_update_move.c:1982-2026 | on a tree layer, the depth is sufficient exactly when every row below p is reached by an operation of that depth |
| MoveBump.DepthSufficientMonotone | subversion/libsvn_wc/wc_db_update_move.c:1982-2026 | a sufficient depth stays sufficient at every greater depth |
| MoveBump.BumpConflict | subversion/libsvn_wc/wc_db_update_move.c:2030-2089 | the moved-away incoming-edit update conflict on the source, new version from the source's BASE row, old from the destination op-root; missing rows are PATH_NOT_FOUND |
| MoveBump.BumpConflictRecorded | subversion/libsvn_wc/wc_db_update_move.c:2030-2089 | a recorded bump conflict names the source op-root as move source, and its new location is exactly the BASE location of the move source op-root |
| MoveBump.BumpMarkTreeConflict | subversion/libsvn_wc/wc_db_update_move.c:2030-2089 | without the write lock on either op-root, NOT_LOCKED and nothing written; otherwise the conflict is marked as mark_tree_conflict would |
| MoveBump.MovedPairs | subversion/libsvn_wc/wc_db_update_move.c:2255-2262 | exactly the moves recorded by the lowest working row above d of the subtree's nodes at d |
| MoveBump.OpRootOf | subversion/libsvn_wc/wc_db_update_move.c:2200-2207 | the climb ends at the ancestor of src at the layer's op_depth |
| MoveBump.BumpWalk.BumpMovedLayer | subversion/libsvn_wc/wc_db_update_move.c:2150-2228 | unlocked: NOT_LOCKED; a layer between: left alone; depth too small: a conflict; else handled once, and bumped unless already handled or conflicted |
| MoveBump.BumpWalk.BumpPair | subversion/libsvn_wc/wc_db_update_move.c:2265-2296 | a pair the bump depth does not reach is left alone; an unhandled depth is a malfunction; handled sources only grow; without error the pair passed the depth check and, if reached, is handled (its source in src_done, a layer between, or its bump conflict raised) |
| MoveBump.BumpWalk.BumpReachedPair | subversion/libsvn_wc/wc_db_update_move.c:2282-2296 | a reached move is bumped and a bumped move followed into its destination; without error its source ends up handled; no tree conflict is lost |
| MoveBump.BumpWalk.BumpMovedAway | subversion/libsvn_wc/wc_db_update_move.c:2238-2306 | no row is lost, no move is created and no tree conflict is lost; the sources newly handled were all moved in the starting table, so the walk terminates; without error every row below local passed the depth check and every one the depth reaches is handled |
| MoveBump.BumpMovedAwayEntry | subversion/libsvn_wc/wc_db_update_move.c:2309-2350 | inside a moved-away subtree rooted elsewhere only the bump conflict is raised; otherwise the moves below are bumped, losing no row and no tree conflict, and without error every move below local that the depth reaches is handled |
| MoveBump.HandledStable | subversion/libsvn_wc/wc_db_update_move.c:2150-2228 | a handled move stays handled while NODES rows, tree conflicts and handled sources are only added |
| WcDb.MarkKeepsTreeConflicts | subversion/libsvn_wc/wc_db_update_move.c:298-393 | marking a conflict never loses or replaces a tree conflict, and a marked moved-away conflict is then recorded |
| Authz.IsGranted | subversion/libsvn_repos/authz.c:71-84 | granted exactly when no required right is denied, or every required read/write right (and no other) is allowed |
| Authz.IsDetermined | subversion/libsvn_repos/authz.c:96-104 | determined exactly when some required right is allowed or denied |
| Authz.Grants | subversion/libsvn_repos/authz.c:166-174 | read exactly when the value contains 'r', write exactly when it contains 'w' |
| Authz.SingleRuleDecides | subversion/libsvn_repos/authz.c:166-174 | one rule line decides any read/write request and grants exactly when its value grants every required right |
| Authz.LineAppliesMeaning | subversion/libsvn_repos/authz.c:150-164 | a line applies for "*", for the user's own name, or for a group the user is in; an anonymous user matches "*" only |
| Authz.LookupBaton.ParseLine | subversion/libsvn_repos/authz.c:147-183 | an applying line adds its granted rights to allow and the rest of read/write to deny; any other line changes nothing |
| Authz.LookupBaton.Enumerate | subversion/libsvn_repos/authz.c:205-206 | every line of the section is read in whatever order, giving the section's allow and deny |
| Authz.LookupBaton.ParseSection | subversion/libsvn_repos/authz.c:191-219 | other sections change nothing; a section under the path stays granted unless it conclusively denies, and the walk then stops |
| Authz.SectionDetermines | subversion/libsvn_repos/authz.c:191-219 | a section decides a read/write request exactly when one of its lines applies to the user |
| Authz.PathAccessMeaning | subversion/libsvn_repos/authz.c:233-266 | the repos:path section decides when it can; otherwise the answer is the plain path section's alone |
| Authz.GetPathAccess | subversion/libsvn_repos/authz.c:233-266 | (determined, granted) as PathAccess states it |
| Authz.GetTreeAccess | subversion/libsvn_repos/authz.c:279-299 | on a file whose sections under the path name only sound groups: granted exactly when no such section, plain or repository-qualified, conclusively denies |
| Authz.TreeAccessCoversSubtree | subversion/libsvn_repos/authz.c:196-201 | a granted subtree has no conclusively denying section for any path below it |
| Authz.PathStringPrefix | subversion/libsvn_repos/authz.c:196-201 | a directory's path string is a prefix of the path of everything below it |
| Authz.RootString | subversion/libsvn_repos/authz.c:472-477 | only the repository root is written "/" |
| Authz.WalkUpDeniesByDefault | subversion/libsvn_repos/authz.c:466-483 | when no path from the root to p decides, access is denied |
| Authz.WalkUpNearest | subversion/libsvn_repos/authz.c:466-483 | the nearest ancestor-or-self of p whose rules decide gives the answer |
| Authz.CheckAccess | subversion/libsvn_repos/authz.c:456-493 | on a file whose sections for the repository name only sound groups: the walk up, and with recursive access requested and granted, the tree scan |
| Authz.ValidConfigLookupSafe | subversion/libsvn_repos/authz.c:196-201 | in a file svn_repos_authz_read accepts, every section a lookup in a repository not named "groups…" consults names only defined, acyclic groups |
| Authz.LookupSafeAt | subversion/libsvn_repos/authz.c:466-489 | every section read for a path of the walk up, and by the tree scan, is one LookupSafe covers |
| Authz.PathStringInjective | subversion/libsvn_repos/authz.c:466-483 | distinct canonical paths have distinct path strings, so a rule section names one path only |
| AuthzConfig.GetValue | subversion/libsvn_repos/authz.c:117 | a value exactly when the section and option exist |
| AuthzConfig.SplitList | subversion/libsvn_repos/authz.c:119 | every piece is non-empty, comma-free and stripped of surrounding whitespace |
| AuthzConfig.SplitListComma | subversion/libsvn_repos/authz.c:119 | the pieces either side of a comma are the whole value's pieces, in order |
| AuthzConfig.SplitListPlain | subversion/libsvn_repos/authz.c:119 | a comma-free value is one stripped piece, or none when blank |
| AuthzConfig.Members | subversion/libsvn_repos/authz.c:117-119 | an undefined group lists no members |
| AuthzConfig.ContainsMeaning | subversion/libsvn_repos/authz.c:108-139 | the search finds the user exactly when the group or one of its subgroups lists the user by name |
| AuthzConfig.ContainsSound | subversion/libsvn_repos/authz.c:108-139 | whatever the search finds is a real membership |
| AuthzConfig.ContainsComplete | subversion/libsvn_repos/authz.c:121-136 | a subgroup chain without repeats that ends at the user is found |
| AuthzConfig.GroupContainsUser | subversion/libsvn_repos/authz.c:108-139 | on a group the validation accepts, the recursive search is exactly the specified membership search |
| AuthzConfig.WalkAsWritten | subversion/libsvn_repos/authz.c:307-355 | as written: checked only grows, and a walk without error was on a defined group |
| AuthzConfig.DiamondReportedCircular | subversion/libsvn_repos/authz.c:338-346 | the walk as written reports the acyclic diamond g=@a,@b; a=@c; b=@c as circular |
| AuthzConfig.DiamondLeftAsWritten | subversion/libsvn_repos/authz.c:344-346 | walking a leaves c behind in checked |
| AuthzConfig.DiamondRightAsWritten | subversion/libsvn_repos/authz.c:332-342 | walking b with c already checked reports c as circular |
| AuthzConfig.GroupWalk | subversion/libsvn_repos/authz.c:307-355 | the corrected walk's verdict, with checked restored on success |
| AuthzConfig.WalkMembers | subversion/libsvn_repos/authz.c:326-352 | the members' verdict in list order, with checked restored on success |
| AuthzConfig.GroupWalkExact | subversion/libsvn_repos/authz.c:307-355 | the corrected walk accepts a group exactly when every group reached is defined and none lies on a cycle |
| AuthzConfig.WalkErrorSound | subversion/libsvn_repos/authz.c:317-342 | an error names an undefined group, or a group on a cycle, reached from the group walked |
| AuthzConfig.WalkFromSelf | subversion/libsvn_repos/authz.c:307-355 | an accepted group also passes when it starts already checked, as membership searches need |
| AuthzConfig.DiamondAccepted | subversion/libsvn_repos/authz.c:307-355 | the corrected walk accepts the diamond |
| AuthzConfig.RuleError | subversion/libsvn_repos/authz.c:361-387 | an error exactly when the rule names an undefined group, and it names the rule |
| AuthzConfig.ValidateGroup | subversion/libsvn_repos/authz.c:393-405 | the walk verdict of the group from an empty checked set |
| AuthzConfig.ValidateSection | subversion/libsvn_repos/authz.c:410-426 | no error exactly when the section is valid: group sections walk each group, others check each rule |
| AuthzConfig.AuthzRead | subversion/libsvn_repos/authz.c:431-451 | the rule file is accepted exactly when it is valid |
| AuthzConfig.ValidConfigMeaning | subversion/libsvn_repos/authz.c:361-426 | valid exactly when every group rule names a defined group and every listed group is sound |
| AuthzConfig.AsWrittenAcceptedBridge | subversion/libsvn_repos/authz.c:307-355 | a group the as-written walk accepts from a checked set is accepted by the corrected walk from any smaller set |
| AuthzConfig.AsWrittenAcceptedValid | subversion/libsvn_repos/authz.c:393-451 | a file svn_repos_authz_read as written accepts is one the corrected reader accepts |
| AuthzConfig.ValidConfigRefsSound | subversion/libsvn_repos/authz.c:431-451 | in an accepted file every rule section may be evaluated without reaching an undefined group |
| AdmLock.AdmAccess.constructor | subversion/libsvn_wc/lock.c:344-360 | a new baton has the requested type and path, no lock, no set, and no cached entries |
| AdmLock.AdmAccess.EnsureSet | subversion/libsvn_wc/lock.c:363-372 | a baton without a set gets a set of its own holding just itself and owns it; lookups are unchanged |
| AdmLock.AdmAccess.RetrieveInternal | subversion/libsvn_wc/lock.c:778-794 | with a set, the baton it holds for p; without one, this baton for its own path only; never the placeholder |
| AdmLock.AdmAccess.IsMissing | subversion/libsvn_wc/lock.c:1446-1454 | true exactly when the set holds the placeholder for p, which retrieve then reports as none |
| AdmLock.AdmAccess.WriteCheck | subversion/libsvn_wc/lock.c:1258-1291 | any non-write-lock baton is NOT_LOCKED; a write-lock baton with a lock fails when the lock file is gone or not a regular file |
| AdmLock.LockedOnDisk | subversion/libsvn_wc/lock.c:1294-1311 | a regular lock file means locked, none unlocked, anything else an error |
| AdmLock.ClosedKind | subversion/libsvn_wc/lock.c:1222-1231 | a closed baton is never write-locked, and a non-write-lock baton keeps its type |
| AdmLock.ClosedLockExists | subversion/libsvn_wc/lock.c:1222-1231 | a write lock is removed unless preserved; otherwise the lock state is kept |
| AdmLock.AfterClose | subversion/libsvn_wc/lock.c:1222-1231 | only the type and lock change; a non-write-lock baton is unchanged |
| AdmLock.CloseIdempotent | subversion/libsvn_wc/lock.c:1185-1186 | closing again changes nothing more |
| AdmLock.AdmAccess.DoClose | subversion/libsvn_wc/lock.c:1180-1243 | closed: nothing changes; else batons strictly below are closed, placeholders dropped, others alone; the baton unlocks and leaves the set; an owner's set must end empty |
| AdmLock.AdmAccess.CloseDescendants | subversion/libsvn_wc/lock.c:1189-1219 | over a snapshot, exactly the placeholders and the batons strictly below leave the set, each of those batons closed once, the rest untouched |
| AdmLock.CloseEach | subversion/libsvn_wc/lock.c:1193-1219 | the descending loop over the snapshot leaves the closed state for every entry, or fails on a set owner below |
| AdmLock.AdmAccess.Unlock | subversion/libsvn_wc/lock.c:1222-1231 | the baton's new state is AfterClose of the old |
| AdmLock.AdmAccess.Detach | subversion/libsvn_wc/lock.c:1234-1240 | the baton's path leaves the set; the assertion holds exactly when a set owner leaves it empty |
| AdmLock.Pruned | subversion/libsvn_wc/lock.c:1356-1408 | exactly the entries that are neither deleted nor absent, or are scheduled add/replace, unchanged |
| AdmLock.PrunedWithoutHidden | subversion/libsvn_wc/lock.c:1363-1386 | when no entry is hidden the pruned hash is the full one, so reusing it loses nothing |
| AdmLock.PrunedIdempotent | subversion/libsvn_wc/lock.c:1356-1408 | pruning twice is pruning once |
| AdmLock.PrunedShowsNoDeleted | subversion/libsvn_wc/lock.c:1389-1405 | a deleted or absent pruned entry is scheduled for addition or replacement |
| AdmLock.AnyHidden | subversion/libsvn_wc/lock.c:1365-1380 | true exactly when some entry is hidden |
| AdmLock.PruneEntries | subversion/libsvn_wc/lock.c:1389-1405 | the filtering loop builds exactly the pruned hash |
| AdmLock.AdmAccess.PruneDeleted | subversion/libsvn_wc/lock.c:1356-1408 | with only full entries cached, the pruned entries are cached; otherwise nothing changes |
| AdmLock.JoinBatons | subversion/libsvn_wc/lock.c:980-1007 | the parent gets a set if needed; a set-less target joins alone, else all its entries are copied, its batons (the target among them) point at the parent's set, and it stops owning a set |
| AdmLock.CopySlots | subversion/libsvn_wc/lock.c:993-1005 | every entry of the target set is added to the parent set and every baton copied points at it, other fields unchanged |
| AdmOpen.ReachedBelow | subversion/libsvn_wc/lock.c:564-592 | every opened entry lies strictly below the directory, under a subdirectory entry, at a nonzero depth |
| AdmOpen.ReachedWithinDepth | subversion/libsvn_wc/lock.c:570-574 | a positive depth bounds how far below the directory entries go |
| AdmOpen.ReachedParentOpened | subversion/libsvn_wc/lock.c:570-592 | every entry deeper than a direct subdirectory hangs below an opened baton |
| AdmOpen.ReachedUnder | subversion/libsvn_wc/lock.c:570-592 | the entries under a subdirectory are its own and those its one-level-deeper open leaves |
| AdmOpen.Open | subversion/libsvn_wc/lock.c:458-637 | an existing baton at path is LOCKED, a non-working copy NOT_DIRECTORY; otherwise exactly the reached entries join the set and the new baton gets the asked-for lock |
| AdmOpen.OpenJoined | subversion/libsvn_wc/lock.c:474-624 | with an associated baton everything opened joins its set, which is created if missing |
| AdmOpen.OpenAlone | subversion/libsvn_wc/lock.c:458-637 | without one the baton has a set of its own exactly when a subdirectory is opened, and owns it |
| AdmOpen.JoinChildren | subversion/libsvn_wc/lock.c:540-618 | the opened entries move from the temporary hash into the associated set |
| AdmOpen.OpenChildren | subversion/libsvn_wc/lock.c:544-592 | every subdirectory entry is opened into the set or marked missing |

## Left out

- Foreign routines whose code is not part of this model are inputs, fields of `WcDb.Env`:
  - svn_wc__node_has_local_mods, svn_wc__internal_file_modified_p, svn_io_check_path;
  - the property and text merges;
  - svn_wc__db_op_depth_moved_to;
  - the write-lock check used by verify_write_lock and svn_wc__write_check.
  - Conflict skels, work items and notifications are plain values.
- wc-queries.sql is not part of this model. Each statement's meaning is stated in its `Nodes` function as the move code uses it, and is assumed.
- Row loops whose statement order is unknown walk a set in any order. Hash walks (svn_config_enumerate, apr_hash) do the same.
- svn_wc__db_extend_parent_delete and svn_wc__db_retract_parent_delete are only logged as calls; their effect on NODES is not modelled.
- SVN_ERR_MALFUNCTION and SVN_ERR_ASSERT become error values (`Malfunction`, `AssertionFailed`). In do_close, the C `assert` becomes `ok == false`.
- The symlink assertion in tc_editor_alter_file is kept as written. A symlink destination row fails it, but such a row does not arise, so it is not listed as a finding.
- cancel_func is never polled by the driver, so it is not modelled. In do_open its early exit is left out.
- resolve_delete_raise_moved_away, resolve_break_moved_away and resolve_break_moved_away_children with their svn_wc__db_ entry points are not modelled; only their shared break_move is.
- The repository root URL and UUID are parameters; svn_wc__db_fetch_repos_info is not modelled.
- MoveEditor.TcInfo: a conflict without locations or move source is a malfunction here. The C code would read these through NULL or uninitialised pointers.
- Authz.LookupBaton.ParseLine, Authz.LookupBaton.Enumerate, Authz.LookupBaton.ParseSection, Authz.GetPathAccess, Authz.GetTreeAccess, Authz.CheckAccess: each requires that the groups named by the rules it consults are defined and acyclic (`RefsSound`, `LookupSafe`, `TreeLookupSafe`). The C code follows undefined groups through NULL. A file svn_repos_authz_read accepts meets this for every repository whose name does not begin with "groups" (`ValidConfigLookupSafe`). For such a repository, a `groups…:/` section is validated as group definitions and not as rules, so the model does not cover lookups there.
- AuthzConfig.ValidateGroup, AuthzConfig.ValidateSection, AuthzConfig.AuthzRead: these use the corrected group walk from the finding below, not the walk as written. `AsWrittenAcceptedValid` shows that every file the as-written reader accepts is accepted by them, so the lookup lemmas apply to it.
- MoveBump.BumpWalk.BumpMovedAway: the rows of STMT_SELECT_MOVED_PAIR3 are taken once, from the table as it was when the walk of local began. The C code reads them through a live cursor while nested bumps change NODES; which changes that cursor sees is not modelled.
- MoveEditor.DescendingRemovals: it orders paths as svn_path_compare_paths does. The ORDER BY of STMT_SELECT_CHILDREN_OP_DEPTH compares bytes, which differs for siblings such as a/b and a-b. The property relied on, `DescendantsRemovedFirst`, needs only that a path sorts after its ancestors, which holds in both orders.
- AuthzConfig.GroupContainsUser: it requires the group's walk to succeed from the recursion path. On other files authz_group_contains_user recurses forever, and the model's `Contains` cuts the recursion instead.
- svn_config_read (file parsing) and option-name case folding are not modelled: the rule file is given as parsed maps. svn_cstring_split is given its documented meaning.
- svn_path_split in svn_repos_authz_check_access is modelled on component sequences. The parent of a path is its prefix, and on a canonical path the root is reached as "/".
- lock.c: create_lock, remove_lock, maybe_upgrade_format, introduce_propcaching, the version and format reads, the pool cleanup handlers, svn_wc__adm_steal_write_lock, probe and the open_anchor/retrieve wrappers are not modelled. lock_exists stands for the lock file.
- AdmLock.AdmAccess.DoClose: with recursion it requires the set to be coherent (each baton keyed by its own path and pointing back to the set). Every operation here keeps that true.
- AdmOpen.Open: under_construction, format errors, and errors other than NOT_DIRECTORY from subdirectories (with the close on error) are left out.
- AdmOpen.OpenAlone: the baton's set is ensured before the subdirectory loop rather than at the first subdirectory. The sets that result are the same.

## Findings

| source | as written | input that shows it | evidently intended | confidence | as-written member | corrected member |
|---|---|---|---|---|---|---|
| subversion/libsvn_repos/authz.c:338-346 | authz_group_walk adds each subgroup to checked_groups and never takes it out, so a group reached twice by different routes is reported as a circular dependency | `[groups]` g = @a, @b; a = @c; b = @c; c = u: reading the file fails with "circular dependency between groups c and b", though no group refers back to itself | only a group already on the current recursion path is circular: remove it from checked_groups once its walk is done, and the diamond is accepted | not executed | AuthzConfig.DiamondReportedCircular | AuthzConfig.DiamondAccepted |
