/**
 * The set bookkeeping of do_open in libsvn_wc/lock.c: opening a directory
 * baton, to a depth, joins it and a baton for every working copy
 * subdirectory below it to one shared set, with the missing placeholder
 * for each subdirectory that is not a working copy.
 *
 * The disk is an input: a Tree says, for each directory, whether it is a
 * working copy, its format number and its subdirectory entries by name.
 */
module AdmOpen {
  import opened Wrappers
  import opened RelPath
  import opened AdmLock

  /** What do_open reads at a directory: no working copy there, or its format and its subdirectory entries. */
  datatype Tree = NotWc | Wc(format: int, dirs: map<string, Tree>)

  /** The depth handed to the subdirectories: one less, except that a negative (infinite) depth stays as it is. */
  function Deeper(depth: int): int
  {
    if depth > 0 then depth - 1 else depth
  }

  /** Some entry of the directory names a subdirectory other than the directory itself (named ""). */
  predicate HasSubdirs(t: Tree)
  {
    t.Wc? && exists c :: c in t.dirs && c != ""
  }

  /**
   * What do_open(path, depth) on t leaves in the set for a path q below
   * path: Some(true) for a baton, Some(false) for the missing placeholder,
   * None for no entry.
   */
  function Reached(path: Path, t: Tree, depth: int, q: Path): Option<bool>
    decreases t
  {
    if t.NotWc? || depth == 0 || |q| <= |path| || q[..|path|] != path then None
    else
      var c := q[|path|];
      if c == "" || c !in t.dirs then None
      else if |q| == |path| + 1 then Some(t.dirs[c].Wc?)
      else Reached(path + [c], t.dirs[c], Deeper(depth), q)
  }

  /** Every path with an entry lies strictly below the opened directory, under one of its subdirectory entries. */
  lemma {:induction false} ReachedBelow(path: Path, t: Tree, depth: int, q: Path)
    requires Reached(path, t, depth, q).Some?
    ensures IsStrictAncestor(path, q) && t.Wc? && depth != 0
    ensures q[|path|] in t.dirs && q[|path|] != ""
    decreases t
  {
    var c := q[|path|];
    if |q| > |path| + 1 {
      ReachedBelow(path + [c], t.dirs[c], Deeper(depth), q);
      assert q[..|path|] == (q[..|path| + 1])[..|path|];
    }
  }

  /** A positive depth bounds how far below the opened directory the entries go. */
  lemma {:induction false} ReachedWithinDepth(path: Path, t: Tree, depth: int, q: Path)
    requires Reached(path, t, depth, q).Some? && depth > 0
    ensures |q| <= |path| + depth
    decreases t
  {
    var c := q[|path|];
    if |q| > |path| + 1 {
      ReachedWithinDepth(path + [c], t.dirs[c], depth - 1, q);
    }
  }

  /** Every entry deeper than a direct subdirectory hangs below a baton: its parent directory was opened. */
  lemma {:induction false} ReachedParentOpened(path: Path, t: Tree, depth: int, q: Path)
    requires Reached(path, t, depth, q).Some? && |q| > |path| + 1
    ensures Reached(path, t, depth, Dirname(q)) == Some(true)
    decreases t
  {
    var c := q[|path|];
    var p := Dirname(q);
    assert p[..|path|] == path && p[|path|] == c by {
      assert p == q[..|q| - 1];
    }
    if |q| > |path| + 2 {
      ReachedParentOpened(path + [c], t.dirs[c], Deeper(depth), q);
      assert p[..|path| + 1] == path + [c];
    } else {
      assert p == path + [c];
      ReachedBelow(path + [c], t.dirs[c], Deeper(depth), q);
    }
  }

  /**
   * The entries do_open leaves under the subdirectory c are the entry for
   * c itself and those its own do_open, one level deeper, leaves.
   */
  lemma ReachedUnder(path: Path, t: Tree, depth: int, c: string, q: Path)
    requires t.Wc? && depth != 0 && c in t.dirs && c != ""
    ensures q == path + [c] ==> Reached(path, t, depth, q) == Some(t.dirs[c].Wc?)
    ensures q != path + [c] && Reached(path + [c], t.dirs[c], Deeper(depth), q).Some? ==>
      Reached(path, t, depth, q) == Reached(path + [c], t.dirs[c], Deeper(depth), q)
    ensures Reached(path, t, depth, q).Some? && q[|path|] == c && q != path + [c] ==>
      Reached(path + [c], t.dirs[c], Deeper(depth), q).Some?
  {
    if Reached(path + [c], t.dirs[c], Deeper(depth), q).Some? {
      ReachedBelow(path + [c], t.dirs[c], Deeper(depth), q);
      assert q[..|path|] == (q[..|path| + 1])[..|path|];
    }
    if Reached(path, t, depth, q).Some? && q[|path|] == c && q != path + [c] {
      ReachedBelow(path, t, depth, q);
      assert q[..|path| + 1] == path + [c];
    }
  }

  /**
   * The set s after do_open(path, depth) on t opened lock in it: the
   * entries below path are those Reached names, each new baton keyed by
   * its path and pointing back at s, lock is at path, and every other
   * entry is the one base had.
   */
  ghost predicate Opened(s: AdmSet, base: map<Path, Slot>, path: Path, t: Tree, depth: int, lock: AdmAccess)
    reads s, Batons(s.slots)
  {
    && (forall q :: q in s.slots <==> q in base || q == path || Reached(path, t, depth, q).Some?)
    && path in s.slots && s.slots[path] == Held(lock)
    && (forall q :: q in s.slots && q != path && Reached(path, t, depth, q).None? ==> s.slots[q] == base[q])
    && (forall q :: q in s.slots && Reached(path, t, depth, q).Some? ==>
          s.slots[q].Held? == Reached(path, t, depth, q).value &&
          (s.slots[q].Held? ==> s.slots[q].baton.shared == s && s.slots[q].baton.path == q))
  }

  /**
   * lock's set while its subdirectories are opened: lock itself when lock
   * created the set, and the entries Reached names under the entries done.
   */
  ghost predicate Below(lock: AdmAccess, t: Tree, depth: int, done: set<string>)
    reads lock, lock.shared, if lock.shared != null then Batons(lock.shared.slots) else {}
  {
    && lock.shared != null
    && BaseBelow(lock.shared.slots, lock.path, lock.setOwner, t, depth, done)
    && (lock.setOwner ==> lock.path in lock.shared.slots && lock.shared.slots[lock.path] == Held(lock))
    && BatonsBack(lock.shared.slots, lock.shared, lock.path)
  }

  /** The keys and kinds of lock's set while its subdirectories are opened. */
  ghost predicate BaseBelow(slots: map<Path, Slot>, path: Path, owner: bool, t: Tree, depth: int, done: set<string>)
  {
    && (forall q :: q in slots <==> (q == path && owner) || (Reached(path, t, depth, q).Some? && q[|path|] in done))
    && (forall q :: q in slots && q != path ==>
          Reached(path, t, depth, q).Some? && slots[q].Held? == Reached(path, t, depth, q).value)
  }

  /** Every baton of the set below path is keyed by its own path and points at s. */
  ghost predicate BatonsBack(slots: map<Path, Slot>, s: AdmSet, path: Path)
    reads Batons(slots)
  {
    forall q :: q in slots && q != path && slots[q].Held? ==> slots[q].baton.shared == s && slots[q].baton.path == q
  }

  /** With no subdirectory done yet, the set only holds path itself. */
  lemma NothingDone(lock: AdmAccess, t: Tree, depth: int, done: set<string>)
    requires !SubdirIn(done)
    ensures BaseBelow(map[lock.path := Held(lock)], lock.path, true, t, depth, done)
  {
    forall q | Reached(lock.path, t, depth, q).Some?
      ensures q[|lock.path|] !in done
    {
      ReachedBelow(lock.path, t, depth, q);
    }
  }

  /** Some entry of done names a subdirectory. */
  predicate SubdirIn(done: set<string>)
  {
    exists c :: c in done && c != ""
  }

  /** The set holds an open baton (not the missing placeholder) for p. */
  predicate Occupied(slots: map<Path, Slot>, p: Path)
  {
    p in slots && slots[p].Held?
  }

  /**
   * do_open without the disk I/O: associated's set is ensured and must not
   * hold a baton for path; path must be a working copy; the new baton gets
   * the lock the caller asks for and, when depth is not 0, has every
   * working copy subdirectory opened below it to depth, with the missing
   * placeholder for the others, all in associated's set when there is one.
   */
  method Open(associated: AdmAccess?, path: Path, writeLock: bool, depth: int, t: Tree) returns (r: Result<AdmAccess, WcError>)
    modifies if associated != null then {associated} else {}, if associated != null then {associated.shared} else {}
    decreases t, 6
    ensures associated != null ==> associated.shared != null
    ensures associated != null && old(associated.shared) != null ==> associated.shared == old(associated.shared)
    ensures associated != null && old(associated.shared) == null ==> fresh(associated.shared)
    ensures associated != null ==>
      KeepsLockAndCache(associated) && associated.setOwner == (old(associated.shared) == null || old(associated.setOwner))
    ensures r.Err? <==> old(associated != null && Occupied(EnsuredSlots(associated), path)) || t.NotWc?
    ensures r.Err? ==>
      r.error == if old(associated != null && Occupied(EnsuredSlots(associated), path)) then Locked(path) else NotDirectory(path)
    ensures r.Err? && associated != null ==> associated.shared.slots == old(EnsuredSlots(associated))
    ensures r.Ok? ==>
      fresh(r.value) && r.value.path == path && t.Wc? &&
      r.value.kind == (if writeLock then WriteLock else Unlocked) && r.value.lockExists == writeLock &&
      r.value.wcFormat == t.format && r.value.entries == None && r.value.entriesHidden == None &&
      r.value.setOwner == (associated == null && depth != 0 && HasSubdirs(t))
    ensures r.Ok? && associated != null ==>
      r.value.shared == associated.shared && Opened(associated.shared, old(EnsuredSlots(associated)), path, t, depth, r.value)
    ensures r.Ok? && associated == null ==>
      (r.value.shared == null <==> depth == 0 || !HasSubdirs(t)) &&
      (r.value.shared != null ==> fresh(r.value.shared) && Opened(r.value.shared, map[], path, t, depth, r.value))
    ensures r.Ok? && r.value.shared != null ==>
      forall q :: q in r.value.shared.slots && (q == path || Reached(path, t, depth, q).Some?) && r.value.shared.slots[q].Held? ==>
        fresh(r.value.shared.slots[q].baton)
  {
    if associated != null {
      r := OpenJoined(associated, path, writeLock, depth, t);
    } else {
      r := OpenAlone(path, writeLock, depth, t);
    }
  }

  /** adm_access_alloc for the new baton, with the lock taken if asked for and the format read from disk. */
  method NewBaton(path: Path, writeLock: bool, t: Tree) returns (lock: AdmAccess)
    requires t.Wc?
    ensures fresh(lock) && lock.path == path && lock.shared == null && !lock.setOwner
    ensures lock.kind == (if writeLock then WriteLock else Unlocked) && lock.lockExists == writeLock
    ensures lock.wcFormat == t.format && lock.entries == None && lock.entriesHidden == None
  {
    lock := new AdmAccess(if writeLock then WriteLock else Unlocked, path);
    if writeLock {
      lock.lockExists := true;
    }
    lock.wcFormat := t.format;
  }

  /** do_open with an associated baton: everything opened goes into associated's set. */
  method OpenJoined(associated: AdmAccess, path: Path, writeLock: bool, depth: int, t: Tree) returns (r: Result<AdmAccess, WcError>)
    modifies associated, associated.shared
    decreases t, 5
    ensures associated.shared != null
    ensures old(associated.shared) != null ==> associated.shared == old(associated.shared)
    ensures old(associated.shared) == null ==> fresh(associated.shared)
    ensures KeepsLockAndCache(associated) && associated.setOwner == (old(associated.shared) == null || old(associated.setOwner))
    ensures r.Err? <==> old(Occupied(EnsuredSlots(associated), path)) || t.NotWc?
    ensures r.Err? ==> r.error == if old(Occupied(EnsuredSlots(associated), path)) then Locked(path) else NotDirectory(path)
    ensures r.Err? ==> associated.shared.slots == old(EnsuredSlots(associated))
    ensures r.Ok? ==>
      fresh(r.value) && r.value.path == path && t.Wc? &&
      r.value.kind == (if writeLock then WriteLock else Unlocked) && r.value.lockExists == writeLock &&
      r.value.wcFormat == t.format && r.value.entries == None && r.value.entriesHidden == None && !r.value.setOwner
    ensures r.Ok? ==>
      r.value.shared == associated.shared && Opened(associated.shared, old(EnsuredSlots(associated)), path, t, depth, r.value)
    ensures r.Ok? ==>
      forall q :: q in associated.shared.slots && (q == path || Reached(path, t, depth, q).Some?) && associated.shared.slots[q].Held? ==>
        fresh(associated.shared.slots[q].baton)
  {
    associated.EnsureSet();
    var s := associated.shared;
    if path in s.slots && s.slots[path].Held? {
      return Err(Locked(path));
    }
    if t.NotWc? {
      return Err(NotDirectory(path));
    }
    var lock := InsertJoined(s, path, writeLock, depth, t);
    r := Ok(lock);
  }

  /** The successful end of do_open with an associated baton: the new baton and those below it join s. */
  method InsertJoined(s: AdmSet, path: Path, writeLock: bool, depth: int, t: Tree) returns (lock: AdmAccess)
    requires t.Wc?
    modifies s
    decreases t, 4
    ensures fresh(lock) && lock.path == path && lock.shared == s && !lock.setOwner
    ensures lock.kind == (if writeLock then WriteLock else Unlocked) && lock.lockExists == writeLock
    ensures lock.wcFormat == t.format && lock.entries == None && lock.entriesHidden == None
    ensures Opened(s, old(s.slots), path, t, depth, lock)
    ensures forall q :: q in s.slots && (q == path || Reached(path, t, depth, q).Some?) && s.slots[q].Held? ==>
      fresh(s.slots[q].baton)
  {
    lock := NewBaton(path, writeLock, t);
    if depth != 0 {
      JoinChildren(s, lock, t, depth, writeLock);
    } else {
      lock.shared := s;
      NothingBelow(s, path, t, depth);
    }
    ghost var pre := s.slots;
    s.slots := s.slots[path := Held(lock)];
    InsertedOpened(s, pre, old(s.slots), lock, t, depth);
  }

  /** do_open without an associated baton: the new baton gets a set of its own once a subdirectory is found. */
  method OpenAlone(path: Path, writeLock: bool, depth: int, t: Tree) returns (r: Result<AdmAccess, WcError>)
    decreases t, 5
    ensures r.Err? <==> t.NotWc?
    ensures r.Err? ==> r.error == NotDirectory(path)
    ensures r.Ok? ==>
      fresh(r.value) && r.value.path == path && t.Wc? &&
      r.value.kind == (if writeLock then WriteLock else Unlocked) && r.value.lockExists == writeLock &&
      r.value.wcFormat == t.format && r.value.entries == None && r.value.entriesHidden == None &&
      r.value.setOwner == (depth != 0 && HasSubdirs(t))
    ensures r.Ok? ==>
      (r.value.shared == null <==> depth == 0 || !HasSubdirs(t)) &&
      (r.value.shared != null ==> fresh(r.value.shared) && Opened(r.value.shared, map[], path, t, depth, r.value))
    ensures r.Ok? && r.value.shared != null ==>
      forall q :: q in r.value.shared.slots && (q == path || Reached(path, t, depth, q).Some?) && r.value.shared.slots[q].Held? ==>
        fresh(r.value.shared.slots[q].baton)
  {
    if t.NotWc? {
      return Err(NotDirectory(path));
    }
    var lock := NewBaton(path, writeLock, t);
    if depth != 0 && HasSubdirs(t) {
      lock.EnsureSet();
      NothingDone(lock, t, depth, {});
      OpenChildren(lock, t, depth, writeLock);
      OwnedOpened(lock, t, depth);
    }
    r := Ok(lock);
  }

  /**
   * The subdirectories of lock opened into a temporary hash, which is then
   * copied into s, the set of the associated baton.
   */
  method JoinChildren(s: AdmSet, lock: AdmAccess, t: Tree, depth: int, writeLock: bool)
    requires t.Wc? && depth != 0 && lock.shared == null && !lock.setOwner
    modifies s, lock
    decreases t, 3
    ensures lock.shared == s && !lock.setOwner && KeepsLockAndCache(lock)
    ensures SlotsBelow(s.slots, s, old(s.slots), lock.path, t, depth)
    ensures forall q :: q in s.slots && Reached(lock.path, t, depth, q).Some? && s.slots[q].Held? ==> fresh(s.slots[q].baton)
  {
    lock.shared := new AdmSet();
    OpenChildren(lock, t, depth, writeLock);
    BelowDone(lock, t, depth);
    ghost var temp := lock.shared.slots;
    CopySlots(s, lock.shared.slots);
    lock.shared := s;
    TempSwitched(s, old(s.slots), temp, lock.path, t, depth);
  }

  /**
   * The slots below path: exactly the entries Reached names besides those
   * of base, each new baton keyed by its path and pointing at s.
   */
  ghost predicate SlotsBelow(slots: map<Path, Slot>, s: AdmSet, base: map<Path, Slot>, path: Path, t: Tree, depth: int)
    reads Batons(slots)
  {
    && (forall q :: q in slots <==> q in base || Reached(path, t, depth, q).Some?)
    && (forall q :: q in slots && Reached(path, t, depth, q).None? ==> slots[q] == base[q])
    && (forall q :: q in slots && Reached(path, t, depth, q).Some? ==>
          slots[q].Held? == Reached(path, t, depth, q).value &&
          (slots[q].Held? ==> slots[q].baton.shared == s && slots[q].baton.path == q))
  }

  /** At depth 0 nothing is opened below path. */
  lemma NothingBelow(s: AdmSet, path: Path, t: Tree, depth: int)
    requires depth == 0
    ensures SlotsBelow(s.slots, s, s.slots, path, t, depth)
  {
  }

  /** The temporary hash copied into s leaves s as base plus the entries below path. */
  lemma TempSwitched(s: AdmSet, base: map<Path, Slot>, temp: map<Path, Slot>, path: Path, t: Tree, depth: int)
    requires s.slots == base + temp
    requires forall q :: q in temp <==> Reached(path, t, depth, q).Some?
    requires forall q :: q in temp ==> temp[q].Held? == Reached(path, t, depth, q).value
    requires forall q :: q in temp && temp[q].Held? ==> temp[q].baton.shared == s && temp[q].baton.path == q
    ensures SlotsBelow(s.slots, s, base, path, t, depth)
  {
  }

  /** Inserting lock at its own path completes the set do_open leaves. */
  lemma InsertedOpened(s: AdmSet, pre: map<Path, Slot>, base: map<Path, Slot>, lock: AdmAccess, t: Tree, depth: int)
    requires SlotsBelow(pre, s, base, lock.path, t, depth) && s.slots == pre[lock.path := Held(lock)]
    ensures Opened(s, base, lock.path, t, depth, lock)
  {
  }

  /** Once every entry is done, lock's set holds lock (when it owns the set) and exactly the entries Reached names. */
  lemma BelowDone(lock: AdmAccess, t: Tree, depth: int)
    requires t.Wc? && Below(lock, t, depth, t.dirs.Keys)
    ensures forall q :: q in lock.shared.slots <==> (q == lock.path && lock.setOwner) || Reached(lock.path, t, depth, q).Some?
  {
    forall q | Reached(lock.path, t, depth, q).Some?
      ensures q[|lock.path|] in t.dirs.Keys
    {
      ReachedBelow(lock.path, t, depth, q);
    }
  }

  /** Without an associated baton, lock's own set is Opened over nothing. */
  lemma OwnedOpened(lock: AdmAccess, t: Tree, depth: int)
    requires t.Wc? && lock.setOwner && Below(lock, t, depth, t.dirs.Keys)
    ensures Opened(lock.shared, map[], lock.path, t, depth, lock)
  {
    BelowDone(lock, t, depth);
  }

  /** The loop of do_open over the entries: every subdirectory entry is opened into lock's set, or marked missing. */
  method OpenChildren(lock: AdmAccess, t: Tree, depth: int, writeLock: bool)
    requires t.Wc? && depth != 0 && lock.shared != null
    requires Below(lock, t, depth, {})
    modifies lock, lock.shared
    decreases t, 2
    ensures lock.shared == old(lock.shared) && lock.setOwner == old(lock.setOwner)
    ensures Below(lock, t, depth, t.dirs.Keys)
    ensures KeepsLockAndCache(lock)
    ensures forall q :: q in lock.shared.slots && q != lock.path && lock.shared.slots[q].Held? ==> fresh(lock.shared.slots[q].baton)
  {
    var todo := t.dirs.Keys;
    ghost var done: set<string> := {};
    while todo != {}
      invariant todo + done == t.dirs.Keys && todo !! done
      invariant lock.shared == old(lock.shared) && lock.setOwner == old(lock.setOwner)
      invariant Below(lock, t, depth, done)
      invariant KeepsLockAndCache(lock)
      invariant forall q :: q in lock.shared.slots && q != lock.path && lock.shared.slots[q].Held? ==> fresh(lock.shared.slots[q].baton)
      decreases |todo|
    {
      var c :| c in todo;
      OpenChild(lock, t, depth, done, c, writeLock);
      todo := todo - {c};
      done := done + {c};
    }
    assert done == t.dirs.Keys;
  }

  /** One entry of the loop: a subdirectory is opened into lock's set, or gets the missing placeholder. */
  method OpenChild(lock: AdmAccess, t: Tree, depth: int, ghost done: set<string>, c: string, writeLock: bool)
    requires t.Wc? && depth != 0 && c in t.dirs && c !in done
    requires lock.shared != null && Below(lock, t, depth, done)
    modifies lock, lock.shared
    decreases t, 1
    ensures lock.shared == old(lock.shared) && lock.setOwner == old(lock.setOwner)
    ensures Below(lock, t, depth, done + {c})
    ensures KeepsLockAndCache(lock)
    ensures forall q :: q in lock.shared.slots && q != lock.path && lock.shared.slots[q].Held? ==>
      fresh(lock.shared.slots[q].baton) || (q in old(lock.shared.slots) && lock.shared.slots[q] == old(lock.shared.slots[q]))
  {
    if c != "" {
      var cpath := lock.path + [c];
      ghost var base := lock.shared.slots;
      var res := Open(lock, cpath, writeLock, Deeper(depth), t.dirs[c]);
      assert BatonsBack(base, lock.shared, lock.path);
      if res.Err? {
        lock.EnsureSet();
        lock.shared.slots := lock.shared.slots[cpath := Missing];
        MissingBelow(lock, t, depth, done, c, base);
      } else {
        ChildBelow(lock, t, depth, done, c, base, res.value);
      }
    }
  }

  /** A subdirectory that is not a working copy gets the missing placeholder, and Below extends to it. */
  lemma MissingBelow(lock: AdmAccess, t: Tree, depth: int, done: set<string>, c: string, base: map<Path, Slot>)
    requires t.Wc? && depth != 0 && c in t.dirs && c != "" && t.dirs[c].NotWc?
    requires lock.shared != null && lock.shared.slots == base[lock.path + [c] := Missing]
    requires BaseBelow(base, lock.path, lock.setOwner, t, depth, done)
    requires lock.setOwner ==> lock.path in base && base[lock.path] == Held(lock)
    requires BatonsBack(base, lock.shared, lock.path)
    ensures Below(lock, t, depth, done + {c})
  {
    forall q
      ensures Reached(lock.path, t, depth, q).Some? && q[|lock.path|] == c ==> q == lock.path + [c]
    {
      ReachedUnder(lock.path, t, depth, c, q);
    }
    ReachedUnder(lock.path, t, depth, c, lock.path + [c]);
  }

  /** A subdirectory opened into lock's set adds exactly the entries Reached names under it. */
  lemma ChildBelow(lock: AdmAccess, t: Tree, depth: int, done: set<string>, c: string, base: map<Path, Slot>, child: AdmAccess)
    requires t.Wc? && depth != 0 && c in t.dirs && c != "" && t.dirs[c].Wc?
    requires lock.shared != null
    requires BaseBelow(base, lock.path, lock.setOwner, t, depth, done)
    requires lock.setOwner ==> lock.path in base && base[lock.path] == Held(lock)
    requires BatonsBack(base, lock.shared, lock.path)
    requires child.shared == lock.shared && child.path == lock.path + [c]
    requires Opened(lock.shared, base, lock.path + [c], t.dirs[c], Deeper(depth), child)
    ensures Below(lock, t, depth, done + {c})
  {
    var cpath := lock.path + [c];
    forall q
      ensures q == cpath ==> Reached(lock.path, t, depth, q) == Some(true)
      ensures q != cpath && Reached(cpath, t.dirs[c], Deeper(depth), q).Some? ==>
        Reached(lock.path, t, depth, q) == Reached(cpath, t.dirs[c], Deeper(depth), q)
      ensures Reached(lock.path, t, depth, q).Some? && q[|lock.path|] == c && q != cpath ==>
        Reached(cpath, t.dirs[c], Deeper(depth), q).Some?
      ensures Reached(cpath, t.dirs[c], Deeper(depth), q).Some? ==> q != lock.path
    {
      ReachedUnder(lock.path, t, depth, c, q);
      if Reached(cpath, t.dirs[c], Deeper(depth), q).Some? {
        ReachedBelow(cpath, t.dirs[c], Deeper(depth), q);
      }
    }
  }
}
