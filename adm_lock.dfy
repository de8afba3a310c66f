/**
 * Administrative access batons of libsvn_wc/lock.c. A baton stands for one
 * open working-copy directory: it records whether it holds the directory's
 * write lock, caches the directory's entries, and usually belongs to a
 * set shared by all the batons opened together (an anchor and the tree
 * below it). The set maps a directory path to its baton, or to the
 * "missing" placeholder for a versioned subdirectory that could not be
 * opened. Closing a baton with recursion closes the batons below it in the
 * set, deepest paths first.
 *
 * Paths are component sequences; svn_path_is_ancestor on canonical local
 * paths is then the prefix test of RelPath.IsAncestor, and
 * svn_sort_compare_items_as_paths is RelPath.PathLt.
 */
module AdmLock {
  import opened Wrappers
  import opened RelPath

  /** enum svn_wc__adm_access_type. */
  datatype AccessType = Unlocked | WriteLock | Closed

  /** svn_wc_schedule_t. */
  datatype Schedule = ScheduleNormal | ScheduleAdd | ScheduleDelete | ScheduleReplace

  /** The parts of svn_wc_entry_t the entry caches depend on. */
  datatype Entry = Entry(deleted: bool, absent: bool, schedule: Schedule)

  /** An entries hash, keyed by entry name. */
  type Entries = map<string, Entry>

  /** The errors of this module, by svn_error_t code. */
  datatype WcError =
    | Locked(path: Path)                   // SVN_ERR_WC_LOCKED: already open in the set
    | NotLocked(path: Path, stolen: bool)  // SVN_ERR_WC_NOT_LOCKED: no write lock, or the lock file is gone
    | LockFileNotRegular(path: Path)       // SVN_ERR_WC_LOCKED from svn_wc_locked
    | NotDirectory(path: Path)             // SVN_ERR_WC_NOT_DIRECTORY: not a working copy

  /** What a set maps a path to: an open baton or the static "missing" placeholder. */
  datatype Slot = Missing | Held(baton: AdmAccess)

  /** The shared set hash. */
  class AdmSet {
    var slots: map<Path, Slot>

    constructor ()
      ensures slots == map[]
    {
      slots := map[];
    }
  }

  /** The batons a set holds. */
  ghost function Batons(slots: map<Path, Slot>): set<AdmAccess>
  {
    set k | k in slots && slots[k].Held? :: slots[k].baton
  }

  /** Every baton of the set is keyed by its own path and points back to the set. */
  ghost predicate Coherent(s: AdmSet)
    reads s, Batons(s.slots)
  {
    forall k :: k in s.slots && s.slots[k].Held? ==> s.slots[k].baton.shared == s && s.slots[k].baton.path == k
  }

  /** Every field of a baton, as one value. */
  datatype BatonState = BatonState(kind: AccessType, lockExists: bool, setOwner: bool, wcFormat: int,
                                   shared: AdmSet?, entries: Option<Entries>, entriesHidden: Option<Entries>)

  /** The state of every baton the set holds, by path. */
  ghost function States(slots: map<Path, Slot>): (r: map<Path, BatonState>)
    reads Batons(slots)
    ensures forall k :: k in r <==> k in slots && slots[k].Held?
  {
    map k | k in slots && slots[k].Held? :: slots[k].baton.State()
  }

  /**
   * A recursive close of the baton at root closes the baton the set holds
   * at k: k lies strictly below root and the baton (whose state before the
   * close is in states) is not closed already.
   */
  predicate ClosesBaton(root: Path, slots: map<Path, Slot>, states: map<Path, BatonState>, k: Path)
  {
    k in slots && slots[k].Held? && IsStrictAncestor(root, k) && k in states && states[k].kind != Closed
  }

  /** A recursive close of the baton at root removes k from the set: a placeholder, or a baton it closes. */
  predicate RemovedByClose(root: Path, slots: map<Path, Slot>, states: map<Path, BatonState>, k: Path)
  {
    k in slots && (slots[k].Missing? || ClosesBaton(root, slots, states, k))
  }

  /** The set slots holds only entries of the snapshot children, unchanged. */
  predicate SlotsClosedSome(slots: map<Path, Slot>, children: map<Path, Slot>)
  {
    forall k :: k in slots ==> k in children && slots[k] == children[k]
  }

  /** slots is the snapshot children after a recursive close of root has handled the paths in done. */
  predicate SlotsClosed(root: Path, slots: map<Path, Slot>, children: map<Path, Slot>, states: map<Path, BatonState>,
                        done: set<Path>)
  {
    SlotsClosedSome(slots, children) &&
    forall k :: k in children ==> (k in slots <==> !(k in done && RemovedByClose(root, children, states, k)))
  }

  /** The batons of the snapshot children after a recursive close of root has handled the paths in done. */
  ghost predicate BatonsClosed(root: Path, children: map<Path, Slot>, states: map<Path, BatonState>, done: set<Path>,
                               preserveLock: bool)
    reads Batons(children)
  {
    forall k :: k in children && children[k].Held? ==>
      k in states &&
      children[k].baton.State() ==
        if k in done && ClosesBaton(root, children, states, k) then AfterClose(states[k], preserveLock) else states[k]
  }

  /** The batons of the snapshot children that a recursive close of root does not close are as they were. */
  ghost predicate BatonsUntouched(root: Path, children: map<Path, Slot>, states: map<Path, BatonState>)
    reads Batons(children)
  {
    forall k :: k in children && children[k].Held? && !ClosesBaton(root, children, states, k) ==>
      k in states && children[k].baton.State() == states[k]
  }

  /** Some baton a recursive close of root closes owns the set, which trips do_close's assertion. */
  predicate OwnerBelow(root: Path, slots: map<Path, Slot>, states: map<Path, BatonState>)
  {
    exists k :: k in slots && ClosesBaton(root, slots, states, k) && states[k].setOwner
  }

  /** The type a baton has after do_close: a write-lock baton is closed, others keep their type. */
  function ClosedKind(kind: AccessType): (r: AccessType)
    ensures r != WriteLock
    ensures kind != WriteLock ==> r == kind
  {
    if kind == WriteLock then Closed else kind
  }

  /** Whether the physical lock is left after do_close: removed from a write-lock baton unless preserved. */
  function ClosedLockExists(kind: AccessType, lockExists: bool, preserveLock: bool): (r: bool)
    ensures r ==> lockExists
    ensures kind == WriteLock && !preserveLock ==> !r
    ensures kind != WriteLock || preserveLock ==> r == lockExists
  {
    if kind == WriteLock && lockExists && !preserveLock then false else lockExists
  }

  /** A baton's state after do_close's unlock step. */
  function AfterClose(st: BatonState, preserveLock: bool): (r: BatonState)
    ensures r.kind != WriteLock
    ensures r.setOwner == st.setOwner && r.shared == st.shared && r.wcFormat == st.wcFormat
    ensures r.entries == st.entries && r.entriesHidden == st.entriesHidden
    ensures st.kind != WriteLock ==> r == st
  {
    st.(kind := ClosedKind(st.kind), lockExists := ClosedLockExists(st.kind, st.lockExists, preserveLock))
  }

  /** Closing a second time changes nothing more, and leaves nothing write-locked. */
  lemma CloseIdempotent(st: BatonState, preserveLock: bool)
    ensures AfterClose(AfterClose(st, preserveLock), preserveLock) == AfterClose(st, preserveLock)
    ensures AfterClose(st, preserveLock).kind != WriteLock
  {
  }

  /** prune_deleted's test for an entry the pruned hash may lack: deleted and not re-added, or absent. */
  predicate Hidden(e: Entry)
  {
    (e.deleted && e.schedule != ScheduleAdd && e.schedule != ScheduleReplace) || e.absent
  }

  /** prune_deleted's test for an entry the pruned hash keeps. */
  predicate Kept(e: Entry)
  {
    (!e.deleted && !e.absent) || e.schedule == ScheduleAdd || e.schedule == ScheduleReplace
  }

  /** The entries with the deleted and absent ones left out. */
  function Pruned(h: Entries): (r: Entries)
    ensures forall k :: k in r <==> k in h && Kept(h[k])
    ensures forall k :: k in r ==> r[k] == h[k]
  {
    map k | k in h && Kept(h[k]) :: h[k]
  }

  /** An entry that is not hidden is kept: the shortcut of reusing the full hash loses nothing. */
  lemma NotHiddenKept(e: Entry)
    ensures !Hidden(e) ==> Kept(e)
  {
  }

  /**
   * When no entry is hidden, the pruned hash is the full hash, so reusing
   * the full hash gives what the filtering loop would.
   */
  lemma PrunedWithoutHidden(h: Entries)
    requires forall k :: k in h ==> !Hidden(h[k])
    ensures Pruned(h) == h
  {
    forall k | k in h ensures Kept(h[k]) {
      NotHiddenKept(h[k]);
    }
  }

  /** Pruning twice is pruning once. */
  lemma PrunedIdempotent(h: Entries)
    ensures Pruned(Pruned(h)) == Pruned(h)
  {
  }

  /** A pruned hash shows no entry that is deleted or absent unless it is scheduled for addition or replacement. */
  lemma PrunedShowsNoDeleted(h: Entries, k: string)
    requires k in Pruned(h)
    ensures Pruned(h)[k].deleted || Pruned(h)[k].absent ==>
            Pruned(h)[k].schedule == ScheduleAdd || Pruned(h)[k].schedule == ScheduleReplace
  {
  }

  /** The first loop of prune_deleted: is some entry hidden? */
  method AnyHidden(h: Entries) returns (found: bool)
    ensures found <==> exists k :: k in h && Hidden(h[k])
  {
    var todo := h.Keys;
    found := false;
    while todo != {} && !found
      invariant todo <= h.Keys
      invariant found <==> exists k :: k in h && k !in todo && Hidden(h[k])
      decreases |todo|
    {
      var k :| k in todo;
      if Hidden(h[k]) {
        found := true;
      }
      todo := todo - {k};
    }
  }

  /** The second loop of prune_deleted: the hash of the kept entries. */
  method PruneEntries(h: Entries) returns (pruned: Entries)
    ensures pruned == Pruned(h)
  {
    pruned := map[];
    var todo := h.Keys;
    while todo != {}
      invariant todo <= h.Keys
      invariant forall k :: k in pruned <==> k in h && k !in todo && Kept(h[k])
      invariant forall k :: k in pruned ==> pruned[k] == h[k]
      decreases |todo|
    {
      var k :| k in todo;
      if Kept(h[k]) {
        pruned := pruned[k := h[k]];
      }
      todo := todo - {k};
    }
  }

  /** svn_wc_adm_access_t. */
  class AdmAccess {
    const path: Path
    var kind: AccessType
    var lockExists: bool
    var setOwner: bool
    var wcFormat: int
    var shared: AdmSet?
    var entries: Option<Entries>
    var entriesHidden: Option<Entries>

    /** adm_access_alloc: no lock, no set, no cached entries. */
    constructor (kind: AccessType, path: Path)
      ensures this.kind == kind && this.path == path
      ensures !lockExists && !setOwner && wcFormat == 0 && shared == null
      ensures entries == None && entriesHidden == None
    {
      this.kind := kind;
      this.path := path;
      lockExists := false;
      setOwner := false;
      wcFormat := 0;
      shared := null;
      entries := None;
      entriesHidden := None;
    }

    /** All the fields, as one value. */
    function State(): BatonState
      reads this
    {
      BatonState(kind, lockExists, setOwner, wcFormat, shared, entries, entriesHidden)
    }

    /**
     * svn_wc__adm_retrieve_internal: the baton the set holds for p, or,
     * without a set, this baton when p is its own path; never the missing
     * placeholder.
     */
    function RetrieveInternal(p: Path): (r: AdmAccess?)
      reads this, shared
      ensures r != null && shared != null ==> p in shared.slots && shared.slots[p] == Held(r)
      ensures r != null && shared == null ==> r == this && p == path
      ensures r == null && shared != null ==> p !in shared.slots || shared.slots[p] == Missing
      ensures r == null && shared == null ==> p != path
    {
      if shared != null then
        (if p in shared.slots && shared.slots[p].Held? then shared.slots[p].baton else null)
      else if path == p then this
      else null
    }

    /** svn_wc__adm_missing: the set holds the placeholder for p. */
    function IsMissing(p: Path): (m: bool)
      reads this, shared
      ensures m <==> shared != null && p in shared.slots && shared.slots[p].Missing?
      ensures m ==> RetrieveInternal(p) == null
    {
      shared != null && p in shared.slots && shared.slots[p] == Missing
    }

    /** svn_wc_adm_locked. */
    predicate IsLocked()
      reads this
    {
      kind == WriteLock
    }

    /**
     * svn_wc__adm_write_check: a write-lock baton passes unless its lock
     * file (lockFile, the kind svn_wc_locked finds on disk) has gone or
     * is not a regular file; any other baton fails with NOT_LOCKED.
     */
    function WriteCheck(lockFile: LockFileKind): (r: Option<WcError>)
      reads this
      ensures r.None? ==> IsLocked()
      ensures !IsLocked() ==> r == Some(NotLocked(path, false))
      ensures IsLocked() && !lockExists ==> r.None?
      ensures IsLocked() && lockExists ==>
        r == (match lockFile
              case LockFile => None
              case NoLockFile => Some(NotLocked(path, true))
              case OtherKind => Some(LockFileNotRegular(path)))
    {
      if kind == WriteLock then
        (if lockExists then
           (match LockedOnDisk(path, lockFile)
            case Err(e) => Some(e)
            case Ok(locked) => if !locked then Some(NotLocked(path, true)) else None)
         else None)
      else Some(NotLocked(path, false))
    }

    /** adm_ensure_set: a baton without a set gets a set of its own holding just itself. */
    method EnsureSet()
      modifies this
      ensures old(shared) == null ==>
        fresh(shared) && shared.slots == map[path := Held(this)] &&
        State() == old(State()).(setOwner := true, shared := shared)
      ensures old(shared) != null ==> State() == old(State())
      ensures forall p :: RetrieveInternal(p) == old(RetrieveInternal(p))
    {
      if shared == null {
        setOwner := true;
        var s := new AdmSet();
        s.slots := map[path := Held(this)];
        shared := s;
      }
    }

    /**
     * prune_deleted: when only the full entries are cached, caches the
     * entries without the deleted and absent ones, reusing the full hash
     * when nothing has to go.
     */
    method PruneDeleted()
      modifies this
      ensures old(entries) == None && old(entriesHidden).Some? ==>
        entries == Some(Pruned(old(entriesHidden).value))
      ensures old(entries).Some? || old(entriesHidden) == None ==> entries == old(entries)
      ensures State() == old(State()).(entries := entries)
    {
      if entries == None && entriesHidden.Some? {
        var h := entriesHidden.value;
        var hidden := AnyHidden(h);
        if !hidden {
          PrunedWithoutHidden(h);
          entries := entriesHidden;
          return;
        }
        var pruned := PruneEntries(h);
        entries := Some(pruned);
      }
    }

    /** The "physically unlock" step of do_close. */
    method Unlock(preserveLock: bool)
      modifies this
      ensures State() == AfterClose(old(State()), preserveLock)
    {
      if kind == WriteLock {
        if lockExists && !preserveLock {
          lockExists := false;
        }
        kind := Closed;
      }
    }

    /**
     * The "detach from set" step of do_close: the baton's path leaves the
     * set; ok is the assertion that a set owner leaves the set empty.
     */
    method Detach() returns (ok: bool)
      modifies shared
      ensures shared != null ==> shared.slots == old(shared.slots) - {path}
      ensures ok <==> shared == null || !setOwner || |shared.slots| == 0
    {
      ok := true;
      if shared != null {
        shared.slots := shared.slots - {path};
        ok := !setOwner || |shared.slots| == 0;
      }
    }

    /**
     * do_close: a closed baton is left alone. Otherwise, with recurse, the
     * set's placeholders are dropped and the open batons strictly below
     * this one are closed without recursion, deepest first; then this
     * baton is unlocked and leaves the set. ok is false when the assertion
     * that a set owner leaves its set empty fails (the process would abort).
     */
    method DoClose(preserveLock: bool, recurse: bool) returns (ok: bool)
      requires recurse && shared != null ==> Coherent(shared)
      modifies this, shared, if recurse && shared != null then Batons(shared.slots) else {}
      decreases if recurse then 1 else 0, 0
      ensures shared == old(shared)
      ensures old(kind) == Closed ==> ok && State() == old(State()) && (shared != null ==> shared.slots == old(shared.slots))
      ensures old(kind) == Closed && recurse && shared != null ==>
        forall b :: b in old(Batons(shared.slots)) ==> b.State() == old(b.State())
      ensures old(kind) != Closed && (ok || !recurse || shared == null) ==> State() == AfterClose(old(State()), preserveLock)
      ensures old(kind) != Closed && (!recurse || shared == null) ==>
        (shared != null ==> shared.slots == old(shared.slots) - {path}) &&
        (ok <==> shared == null || !setOwner || |shared.slots| == 0)
      ensures old(kind) != Closed && recurse && shared != null && ok ==>
        (forall k :: k in shared.slots <==>
           k in old(shared.slots) && k != path && !RemovedByClose(path, old(shared.slots), old(States(shared.slots)), k)) &&
        (forall k :: k in shared.slots ==> shared.slots[k] == old(shared.slots)[k]) &&
        (forall k :: (k in old(shared.slots) && old(shared.slots)[k].Held? && old(shared.slots)[k].baton != this) ==>
           old(shared.slots)[k].baton.State() ==
             if ClosesBaton(path, old(shared.slots), old(States(shared.slots)), k)
             then AfterClose(old(States(shared.slots))[k], preserveLock)
             else old(States(shared.slots))[k]) &&
        (!setOwner || |shared.slots| == 0)
      ensures old(kind) != Closed && recurse && shared != null && !ok ==>
        OwnerBelow(path, old(shared.slots), old(States(shared.slots))) || (setOwner && |shared.slots| != 0)
      ensures old(kind) != Closed && recurse && shared != null &&
              !OwnerBelow(path, old(shared.slots), old(States(shared.slots))) ==>
        (ok <==> !setOwner || |shared.slots| == 0)
    {
      if kind == Closed {
        return true;
      }
      if recurse && shared != null {
        ok := CloseDescendants(preserveLock);
        if !ok {
          return;
        }
      }
      Unlock(preserveLock);
      ok := Detach();
    }

    /**
     * The recursive part of do_close: over a snapshot of the set, in
     * descending path order, drop each placeholder and close each baton
     * strictly below this one without recursion.
     */
    method CloseDescendants(preserveLock: bool) returns (ok: bool)
      requires shared != null && Coherent(shared)
      modifies shared, Batons(shared.slots)
      decreases 0, 4
      ensures State() == old(State())
      ensures forall k :: k in shared.slots ==> k in old(shared.slots) && shared.slots[k] == old(shared.slots)[k]
      ensures ok ==> forall k :: k in old(shared.slots) ==>
        (k in shared.slots <==> !RemovedByClose(path, old(shared.slots), old(States(shared.slots)), k))
      ensures ok ==> forall k :: k in old(shared.slots) && old(shared.slots)[k].Held? ==>
        old(shared.slots)[k].baton.State() ==
          if ClosesBaton(path, old(shared.slots), old(States(shared.slots)), k)
          then AfterClose(old(States(shared.slots))[k], preserveLock)
          else old(States(shared.slots))[k]
      ensures !ok ==> OwnerBelow(path, old(shared.slots), old(States(shared.slots)))
    {
      ok := CloseEach(path, shared, shared.slots, States(shared.slots), preserveLock);
    }
  }

  /** The loop of CloseDescendants for the baton at root, over the snapshot children of the set s, whose batons were in the given states. */
  method CloseEach(root: Path, s: AdmSet, children: map<Path, Slot>, ghost states: map<Path, BatonState>, preserveLock: bool)
    returns (ok: bool)
    requires s.slots == children && states == States(children)
    requires forall k :: k in children && children[k].Held? ==> children[k].baton.path == k && states[k].shared == s
    modifies s, Batons(children)
    decreases 0, 2
    ensures BatonsUntouched(root, children, states)
    ensures ok ==> SlotsClosed(root, s.slots, children, states, children.Keys)
    ensures ok ==> BatonsClosed(root, children, states, children.Keys, preserveLock)
    ensures SlotsClosedSome(s.slots, children)
    ensures !ok ==> OwnerBelow(root, children, states)
  {
    var todo := children.Keys;
    ghost var done: set<Path> := {};
    ok := true;
    while todo != {}
      invariant todo + done == children.Keys && todo !! done
      invariant SlotsClosed(root, s.slots, children, states, done)
      invariant BatonsClosed(root, children, states, done, preserveLock)
      decreases |todo|
    {
      HasGreatest(todo);
      var k :| IsGreatest(k, todo);
      ok := CloseSlot(root, s, children, states, done, k, preserveLock);
      if !ok {
        return;
      }
      todo := todo - {k};
      done := done + {k};
    }
  }

  /** One step of CloseEach: the entry of the snapshot children at k, after those at done. */
  method CloseSlot(root: Path, s: AdmSet, children: map<Path, Slot>, ghost states: map<Path, BatonState>, ghost done: set<Path>,
                   k: Path, preserveLock: bool) returns (ok: bool)
    requires k in children && k !in done
    requires forall j :: j in children && children[j].Held? ==> children[j].baton.path == j && j in states && states[j].shared == s
    requires SlotsClosed(root, s.slots, children, states, done)
    requires BatonsClosed(root, children, states, done, preserveLock)
    modifies s, if children[k].Held? then {children[k].baton} else {}
    decreases 0, 1
    ensures SlotsClosed(root, s.slots, children, states, done + {k})
    ensures BatonsClosed(root, children, states, done + {k}, preserveLock)
    ensures !ok ==> ClosesBaton(root, children, states, k) && states[k].setOwner
  {
    ok := true;
    var slot := children[k];
    if slot == Missing {
      s.slots := s.slots - {k};
    } else if IsStrictAncestor(root, k) {
      ok := slot.baton.DoClose(preserveLock, false);
    }
  }
  /** The slots b's set has once adm_ensure_set has run on b. */
  ghost function EnsuredSlots(b: AdmAccess): map<Path, Slot>
    reads b, b.shared
  {
    if b.shared == null then map[b.path := Held(b)] else b.shared.slots
  }

  /** b's type, lock, format and entry caches are as they were. */
  twostate predicate KeepsLockAndCache(b: AdmAccess)
    reads b
  {
    b.kind == old(b.kind) && b.lockExists == old(b.lockExists) && b.wcFormat == old(b.wcFormat) &&
    b.entries == old(b.entries) && b.entriesHidden == old(b.entriesHidden)
  }

  /**
   * join_batons: the parent gets a set if it has none; a target without a
   * set joins it alone, otherwise every entry of the target's set is
   * copied into it, every baton copied points at it, and the target no
   * longer owns a set.
   */
  method JoinBatons(p: AdmAccess, t: AdmAccess)
    modifies p, p.shared, t, if t.shared != null then Batons(t.shared.slots) else {}
    ensures p.shared != null
    ensures old(p.shared) != null ==> p.shared == old(p.shared)
    ensures old(p.shared) == null ==> fresh(p.shared)
    ensures KeepsLockAndCache(p) && KeepsLockAndCache(t)
    ensures p != t ==> p.setOwner == (old(p.shared) == null || old(p.setOwner))
    ensures old(t.shared) == null && t != p ==>
      p.shared.slots == old(EnsuredSlots(p))[t.path := Held(t)] && t.State() == old(t.State()).(shared := p.shared)
    ensures old(t.shared) != null || t == p ==>
      p.shared.slots == old(EnsuredSlots(p)) + old(EnsuredSlots(t)) && !t.setOwner
    ensures old(t.shared) != null ==>
      forall b :: b in Batons(old(t.shared.slots)) && b != p && b != t ==> b.State() == old(b.State()).(shared := p.shared)
    ensures old(t.shared) != null && t in Batons(old(t.shared.slots)) ==> t.shared == p.shared
  {
    p.EnsureSet();
    var ps := p.shared;
    if t.shared == null {
      t.shared := ps;
      ps.slots := ps.slots[t.path := Held(t)];
      return;
    }
    assert t.shared.slots == old(EnsuredSlots(t));
    CopySlots(ps, t.shared.slots);
    t.setOwner := false;
  }

  /** The loop of join_batons: every entry of ts goes into the set ps, and every baton of ts points at ps. */
  method CopySlots(ps: AdmSet, ts: map<Path, Slot>)
    modifies ps, Batons(ts)
    ensures ps.slots == old(ps.slots) + ts
    ensures forall k :: k in ts && ts[k].Held? ==> ts[k].baton.shared == ps
    ensures forall b :: b in Batons(ts) ==> b.State() == old(b.State()).(shared := ps)
  {
    ghost var base := ps.slots;
    ghost var orig := map b | b in Batons(ts) :: b.State();
    var todo := ts.Keys;
    while todo != {}
      invariant Copying(ps, ts, orig, base, todo)
      decreases |todo|
    {
      var k :| k in todo;
      CopySlot(ps, ts, orig, base, todo, k);
      todo := todo - {k};
    }
    CopyingDone(ps, ts, orig, base);
  }

  /** When todo is empty, every entry is copied and every baton points at ps with its other fields as they were. */
  lemma CopyingDone(ps: AdmSet, ts: map<Path, Slot>, orig: map<AdmAccess, BatonState>, base: map<Path, Slot>)
    requires Copying(ps, ts, orig, base, {})
    ensures ps.slots == base + ts
    ensures forall k :: k in ts && ts[k].Held? ==> ts[k].baton.shared == ps
    ensures forall b :: b in Batons(ts) ==> b.State() == orig[b].(shared := ps)
  {
    forall b | b in Batons(ts)
      ensures b.State() == orig[b].(shared := ps)
    {
      var j :| j in ts && ts[j].Held? && ts[j].baton == b;
    }
  }

  /** The invariant of the join_batons loop: the keys outside todo are copied into ps, and their batons point at ps. */
  ghost predicate Copying(ps: AdmSet, ts: map<Path, Slot>, orig: map<AdmAccess, BatonState>,
                          base: map<Path, Slot>, todo: set<Path>)
    reads ps, Batons(ts)
  {
    && todo <= ts.Keys
    && Batons(ts) <= orig.Keys
    && (forall k :: k in ps.slots <==> k in base || (k in ts && k !in todo))
    && (forall k :: k in ps.slots ==> ps.slots[k] == if k in ts && k !in todo then ts[k] else base[k])
    && (forall k :: k in ts && k !in todo && ts[k].Held? ==> ts[k].baton.shared == ps)
    && (forall b :: b in Batons(ts) ==> b.State() == orig[b] || b.State() == orig[b].(shared := ps))
  }

  /** One step of the join_batons loop: the entry at k goes into ps, and its baton, if any, points at ps. */
  method CopySlot(ps: AdmSet, ts: map<Path, Slot>, ghost orig: map<AdmAccess, BatonState>,
                  ghost base: map<Path, Slot>, ghost todo: set<Path>, k: Path)
    requires k in todo && Copying(ps, ts, orig, base, todo)
    modifies ps, if ts[k].Held? then {ts[k].baton} else {}
    ensures Copying(ps, ts, orig, base, todo - {k})
  {
    var slot := ts[k];
    if slot.Held? {
      assert slot.baton in Batons(ts);
      slot.baton.shared := ps;
    }
    ps.slots := ps.slots[k := slot];
  }

  /** What svn_io_check_path finds at a directory's lock file. */
  datatype LockFileKind = LockFile | NoLockFile | OtherKind

  /** svn_wc_locked: a regular lock file means locked, none means unlocked, anything else is an error. */
  function LockedOnDisk(path: Path, lockFile: LockFileKind): (r: Result<bool, WcError>)
    ensures r.Ok? <==> lockFile != OtherKind
    ensures r.Ok? ==> (r.value <==> lockFile == LockFile)
  {
    match lockFile
    case LockFile => Ok(true)
    case NoLockFile => Ok(false)
    case OtherKind => Err(LockFileNotRegular(path))
  }
}
