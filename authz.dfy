/**
 * Path-based access control of libsvn_repos/authz.c: whether a user may
 * read or write a path of a repository, decided by the rules of the
 * sections of an authz rule file that name the path, its parents, or (for
 * recursive access) anything below it.
 */
module Authz {
  import opened Wrappers
  import opened AuthzConfig

  /** The bits of svn_repos_authz_access_t. */
  datatype Right = Read | Write | Recursive

  type Rights = set<Right>

  const ReadWrite: Rights := {Read, Write}

  /** No required right is denied, stated pointwise. */
  lemma NoneDenied(deny: Rights, required: Rights)
    ensures deny * required == {} <==> forall x :: x in required ==> x !in deny
  {
    if deny * required != {} {
      var x :| x in deny * required;
    } else {
      forall x | x in required ensures x !in deny {
        assert x !in deny * required;
      }
    }
  }

  /** Every required read/write right, and no other required right, is allowed, stated pointwise. */
  lemma ExactlyAllowed(allow: Rights, required: Rights)
    ensures allow * required == required * ReadWrite <==>
            forall x :: x in required ==> (x in allow <==> x in ReadWrite)
  {
    if forall x :: x in required ==> (x in allow <==> x in ReadWrite) {
      forall x ensures x in allow * required <==> x in required * ReadWrite {
        if x in required {
          assert x in allow <==> x in ReadWrite;
        }
      }
    } else {
      var x :| x in required && !(x in allow <==> x in ReadWrite);
      assert x in allow * required <==> x !in required * ReadWrite;
    }
  }

  /** Some required right is allowed or denied, stated pointwise. */
  lemma SomeDecided(allow: Rights, deny: Rights, required: Rights)
    ensures (deny * required != {} || allow * required != {}) <==>
            exists x :: x in required && (x in allow || x in deny)
  {
    if deny * required != {} {
      var x :| x in deny * required;
    } else if allow * required != {} {
      var x :| x in allow * required;
    } else {
      forall x | x in required ensures !(x in allow || x in deny) {
        assert x !in deny * required && x !in allow * required;
      }
    }
  }

  /**
   * authz_access_is_granted: no required right is denied (implicit grant),
   * or every required read/write right is allowed (explicit grant, which
   * overrides denials).
   */
  function IsGranted(allow: Rights, deny: Rights, required: Rights): (g: bool)
    ensures g <==> (forall x :: x in required ==> x !in deny) ||
                   (forall x :: x in required ==> (x in allow <==> x in ReadWrite))
  {
    NoneDenied(deny, required);
    ExactlyAllowed(allow, required);
    deny * required == {} || allow * required == required * ReadWrite
  }

  /** authz_access_is_determined: some required right is allowed or denied. */
  function IsDetermined(allow: Rights, deny: Rights, required: Rights): (d: bool)
    ensures d <==> exists x :: x in required && (x in allow || x in deny)
  {
    SomeDecided(allow, deny, required);
    deny * required != {} || allow * required != {}
  }

  /** The rights a rule value grants: read when it contains 'r', write when it contains 'w'. */
  function Grants(value: string): (r: Rights)
    ensures r <= ReadWrite
    ensures Read in r <==> 'r' in value
    ensures Write in r <==> 'w' in value
  {
    (if 'r' in value then {Read} else {}) + (if 'w' in value then {Write} else {})
  }

  /** The rights a rule value denies: every read/write right it does not grant. */
  function Denies(value: string): Rights
  {
    ReadWrite - Grants(value)
  }

  /**
   * A single rule line decides every required read/write right, and grants
   * exactly when the value grants all of them.
   */
  lemma SingleRuleDecides(value: string, required: Rights)
    requires required * ReadWrite != {}
    ensures IsDetermined(Grants(value), Denies(value), required)
    ensures IsGranted(Grants(value), Denies(value), required) <==> required * ReadWrite <= Grants(value)
  {
    var x :| x in required * ReadWrite;
    assert x in Grants(value) || x in Denies(value);
  }

  /**
   * Whether the rule line name applies to user (None for an anonymous user):
   * "*" applies to everyone; "@g" to the members of group g; any other name
   * to the user of that name only.
   */
  predicate LineApplies(cfg: Config, name: string, user: Option<string>)
  {
    name == "*" ||
    (user.Some? &&
     (if IsGroupRef(name) then Contains(cfg, name[1..], user.value, {name[1..]}) else name == user.value))
  }

  /**
   * The rule lines that apply are "*", the user's own name and the groups the
   * user belongs to by the reference definition; an anonymous user matches
   * "*" only.
   */
  lemma LineAppliesMeaning(cfg: Config, name: string, user: Option<string>)
    ensures LineApplies(cfg, name, user) <==>
      name == "*" ||
      (user.Some? &&
       ((IsGroupRef(name) && InGroup(cfg, name[1..], user.value)) || (!IsGroupRef(name) && name == user.value)))
    ensures user.None? ==> (LineApplies(cfg, name, user) <==> name == "*")
  {
    if user.Some? && IsGroupRef(name) {
      ContainsMeaning(cfg, name[1..], user.value);
    }
  }

  /** The read/write rights granted by the lines named in names that apply to user. */
  function RulesAllow(cfg: Config, lines: Section, names: set<string>, user: Option<string>): Rights
  {
    set r | r in ReadWrite && exists n :: n in names && n in lines && LineApplies(cfg, n, user) && r in Grants(lines[n])
  }

  /** The read/write rights denied by the lines named in names that apply to user. */
  function RulesDeny(cfg: Config, lines: Section, names: set<string>, user: Option<string>): Rights
  {
    set r | r in ReadWrite && exists n :: n in names && n in lines && LineApplies(cfg, n, user) && r in Denies(lines[n])
  }

  lemma RulesStep(cfg: Config, lines: Section, names: set<string>, n: string, user: Option<string>)
    requires n in lines
    ensures RulesAllow(cfg, lines, names + {n}, user) ==
      RulesAllow(cfg, lines, names, user) + (if LineApplies(cfg, n, user) then Grants(lines[n]) else {})
    ensures RulesDeny(cfg, lines, names + {n}, user) ==
      RulesDeny(cfg, lines, names, user) + (if LineApplies(cfg, n, user) then Denies(lines[n]) else {})
  {
  }

  /** One more line read onto rights accumulated from the lines in names. */
  lemma RulesExtend(cfg: Config, lines: Section, names: set<string>, n: string, user: Option<string>,
                    a0: Rights, a1: Rights, a2: Rights, d0: Rights, d1: Rights, d2: Rights)
    requires n in lines
    requires a1 == a0 + RulesAllow(cfg, lines, names, user)
    requires a2 == a1 + (if LineApplies(cfg, n, user) then Grants(lines[n]) else {})
    requires d1 == d0 + RulesDeny(cfg, lines, names, user)
    requires d2 == d1 + (if LineApplies(cfg, n, user) then Denies(lines[n]) else {})
    ensures a2 == a0 + RulesAllow(cfg, lines, names + {n}, user)
    ensures d2 == d0 + RulesDeny(cfg, lines, names + {n}, user)
  {
    RulesStep(cfg, lines, names, n, user);
  }

  /** What a section allows the user, whatever order its lines are read in. */
  function SectionAllow(cfg: Config, section: string, user: Option<string>): Rights
  {
    RulesAllow(cfg, Lines(cfg, section), Lines(cfg, section).Keys, user)
  }

  /** What a section denies the user, whatever order its lines are read in. */
  function SectionDeny(cfg: Config, section: string, user: Option<string>): Rights
  {
    RulesDeny(cfg, Lines(cfg, section), Lines(cfg, section).Keys, user)
  }

  /**
   * A section decides a request for read or write access exactly when one of
   * its lines applies to the user.
   */
  lemma SectionDetermines(cfg: Config, section: string, user: Option<string>, required: Rights)
    requires required * ReadWrite != {}
    ensures IsDetermined(SectionAllow(cfg, section, user), SectionDeny(cfg, section, user), required) <==>
      exists n :: n in Lines(cfg, section) && LineApplies(cfg, n, user)
  {
    var lines := Lines(cfg, section);
    if n :| n in lines && LineApplies(cfg, n, user) {
      var x :| x in required * ReadWrite;
      assert x in Grants(lines[n]) || x in Denies(lines[n]);
      assert x in SectionAllow(cfg, section, user) || x in SectionDeny(cfg, section, user);
    } else {
      assert SectionAllow(cfg, section, user) == {};
      assert SectionDeny(cfg, section, user) == {};
    }
  }

  /**
   * The authz_lookup_baton: the request (configuration, user, required
   * access, path and repository-qualified path) and what the sections read
   * so far allow and deny.
   */
  class LookupBaton {
    const cfg: Config
    const user: Option<string>
    const requiredAccess: Rights
    const reposPath: string
    const qualifiedReposPath: string
    var allow: Rights
    var deny: Rights
    var access: bool

    constructor (cfg: Config, user: Option<string>, requiredAccess: Rights, reposPath: string,
                 qualifiedReposPath: string, access: bool)
      ensures this.cfg == cfg && this.user == user && this.requiredAccess == requiredAccess
      ensures this.reposPath == reposPath && this.qualifiedReposPath == qualifiedReposPath
      ensures allow == {} && deny == {} && this.access == access
    {
      this.cfg := cfg;
      this.user := user;
      this.requiredAccess := requiredAccess;
      this.reposPath := reposPath;
      this.qualifiedReposPath := qualifiedReposPath;
      allow := {};
      deny := {};
      this.access := access;
    }

    /**
     * authz_parse_line: a line that applies to the user adds what its value
     * grants to allow and the rest of read/write to deny; any other line
     * changes nothing.
     */
    method ParseLine(name: string, value: string)
      requires IsGroupRef(name) ==> WalkVerdict(cfg, name[1..], {name[1..]}) == None
      modifies this
      ensures allow == old(allow) + (if LineApplies(cfg, name, user) then Grants(value) else {})
      ensures deny == old(deny) + (if LineApplies(cfg, name, user) then Denies(value) else {})
      ensures access == old(access)
    {
      if name != "*" {
        if user.None? {
          return;
        }
        if |name| > 0 && name[0] == '@' {
          var member := GroupContainsUser(cfg, name[1..], user.value, {name[1..]});
          if !member {
            return;
          }
        } else if name != user.value {
          return;
        }
      }
      if 'r' in value {
        allow := allow + {Read};
      } else {
        deny := deny + {Read};
      }
      if 'w' in value {
        allow := allow + {Write};
      } else {
        deny := deny + {Write};
      }
    }

    /** svn_config_enumerate with authz_parse_line: every line of the section, in any order. */
    method Enumerate(section: string)
      requires RefsSound(cfg, section)
      modifies this
      ensures allow == old(allow) + SectionAllow(cfg, section, user)
      ensures deny == old(deny) + SectionDeny(cfg, section, user)
      ensures access == old(access)
    {
      var lines := Lines(cfg, section);
      var todo := lines.Keys;
      ghost var done: set<string> := {};
      ghost var a0, d0 := allow, deny;
      while todo != {}
        invariant todo + done == lines.Keys
        invariant allow == a0 + RulesAllow(cfg, lines, done, user)
        invariant deny == d0 + RulesDeny(cfg, lines, done, user)
        invariant access == old(access)
        decreases |todo|
      {
        var n :| n in todo;
        ghost var ab, db := allow, deny;
        ParseLine(n, lines[n]);
        RulesExtend(cfg, lines, done, n, user, a0, ab, allow, d0, db, deny);
        todo := todo - {n};
        done := done + {n};
      }
    }

    /**
     * authz_parse_section: a section whose name begins with the path or the
     * repository-qualified path is read on its own; the request stays
     * granted unless the section conclusively denies it, and the walk over
     * the sections goes on while it is granted. Other sections change nothing.
     */
    method ParseSection(section: string) returns (cont: bool)
      requires SectionApplies(section, qualifiedReposPath, reposPath) ==> RefsSound(cfg, section)
      modifies this
      ensures !SectionApplies(section, qualifiedReposPath, reposPath) ==>
        cont && allow == old(allow) && deny == old(deny) && access == old(access)
      ensures SectionApplies(section, qualifiedReposPath, reposPath) ==>
        allow == SectionAllow(cfg, section, user) && deny == SectionDeny(cfg, section, user) &&
        access == !ConclusiveDeny(cfg, section, user, requiredAccess) && cont == access
    {
      if !(qualifiedReposPath <= section) && !(reposPath <= section) {
        return true;
      }
      allow := {};
      deny := {};
      Enumerate(section);
      var conclusive := IsDetermined(allow, deny, requiredAccess);
      access := IsGranted(allow, deny, requiredAccess) || !conclusive;
      return access;
    }
  }

  /** A section is consulted for a subtree when its name begins with the subtree's path, plain or repository-qualified. */
  predicate SectionApplies(section: string, qualified: string, path: string)
  {
    qualified <= section || path <= section
  }

  /** The section on its own decides the request, and refuses it. */
  predicate ConclusiveDeny(cfg: Config, section: string, user: Option<string>, required: Rights)
  {
    var a := SectionAllow(cfg, section, user);
    var d := SectionDeny(cfg, section, user);
    IsDetermined(a, d, required) && !IsGranted(a, d, required)
  }

  /**
   * Every section a lookup in repository repos can consult, one named by a
   * path or by a path qualified with repos, may be looked up safely.
   */
  ghost predicate LookupSafe(cfg: Config, repos: string)
  {
    forall s :: s in cfg && SectionApplies(s, repos + ":/", "/") ==> RefsSound(cfg, s)
  }

  /** Every section the tree walk for path reads may be looked up safely. */
  ghost predicate TreeLookupSafe(cfg: Config, repos: string, path: string)
  {
    forall s :: s in cfg && SectionApplies(s, repos + ":" + path, path) ==> RefsSound(cfg, s)
  }

  /**
   * A rule file svn_repos_authz_read accepts may be looked up safely in any
   * repository whose name does not begin with "groups": no section a lookup
   * consults is then read as group definitions.
   */
  lemma ValidConfigLookupSafe(cfg: Config, repos: string)
    requires ValidConfig(cfg) && !("groups" <= repos)
    ensures LookupSafe(cfg, repos)
  {
    forall s | s in cfg && SectionApplies(s, repos + ":/", "/") ensures RefsSound(cfg, s) {
      if "/" <= s {
        assert s[0] == '/';
        if |s| >= 6 {
          assert s[..6][0] == '/';
        }
      } else if |repos| >= 6 {
        assert s[..6] == repos[..6];
      } else {
        ColonBeforeGroups(s, repos);
      }
      ValidConfigRefsSound(cfg, s);
    }
  }

  /** A name that begins with a repository name shorter than "groups" and a colon does not begin with "groups". */
  lemma ColonBeforeGroups(s: string, repos: string)
    requires |repos| < 6 && repos + ":/" <= s
    ensures !("groups" <= s)
  {
    assert s[|repos|] == ':';
    assert forall i :: 0 <= i < 6 ==> "groups"[i] != ':';
    if |s| >= 6 {
      assert s[..6][|repos|] == ':';
    }
  }

  /** In a repository where lookups are safe, the sections of every path may be read. */
  lemma LookupSafeAt(cfg: Config, repos: string, p: ReposPath)
    requires LookupSafe(cfg, repos)
    ensures RefsSound(cfg, PathString(p)) && RefsSound(cfg, repos + ":" + PathString(p))
    ensures TreeLookupSafe(cfg, repos, PathString(p))
  {
    var ps := PathString(p);
    var qs := repos + ":" + ps;
    assert "/" <= ps;
    assert repos + ":/" <= qs by {
      assert qs[..|repos| + 2] == repos + ":/";
    }
    forall s | s in cfg && SectionApplies(s, qs, ps) ensures RefsSound(cfg, s) {
      if ps <= s {
        assert "/" <= s;
      } else {
        assert s[..|repos| + 2] == qs[..|repos| + 2];
      }
    }
  }

  /**
   * The rules for exactly one path: the repository-specific section first;
   * when that does not decide, what it said is kept and the section for the
   * path in every repository is added. The result is (determined, granted).
   */
  function PathAccess(cfg: Config, repos: string, path: string, user: Option<string>, required: Rights): (bool, bool)
  {
    var qualified := repos + ":" + path;
    var a1 := SectionAllow(cfg, qualified, user);
    var d1 := SectionDeny(cfg, qualified, user);
    if IsDetermined(a1, d1, required) then (true, IsGranted(a1, d1, required))
    else
      var a2 := a1 + SectionAllow(cfg, path, user);
      var d2 := d1 + SectionDeny(cfg, path, user);
      (IsDetermined(a2, d2, required), IsGranted(a2, d2, required))
  }

  /**
   * The repository-specific section decides when it can; otherwise the
   * answer is the general section's alone, since an undecided section
   * allows and denies nothing that was asked for.
   */
  lemma PathAccessMeaning(cfg: Config, repos: string, path: string, user: Option<string>, required: Rights)
    ensures
      var a1 := SectionAllow(cfg, repos + ":" + path, user);
      var d1 := SectionDeny(cfg, repos + ":" + path, user);
      var a := SectionAllow(cfg, path, user);
      var d := SectionDeny(cfg, path, user);
      PathAccess(cfg, repos, path, user, required) ==
        if IsDetermined(a1, d1, required) then (true, IsGranted(a1, d1, required))
        else (IsDetermined(a, d, required), IsGranted(a, d, required))
  {
    var a1 := SectionAllow(cfg, repos + ":" + path, user);
    var d1 := SectionDeny(cfg, repos + ":" + path, user);
    var a := SectionAllow(cfg, path, user);
    var d := SectionDeny(cfg, path, user);
    if !IsDetermined(a1, d1, required) {
      assert a1 * required == {} && d1 * required == {};
      assert (a1 + a) * required == a * required;
      assert (d1 + d) * required == d * required;
    }
  }

  /** authz_get_path_access: (determined, granted) for exactly this path. */
  method GetPathAccess(cfg: Config, repos: string, path: string, user: Option<string>, required: Rights)
    returns (determined: bool, granted: bool)
    requires RefsSound(cfg, repos + ":" + path) && RefsSound(cfg, path)
    ensures (determined, granted) == PathAccess(cfg, repos, path, user, required)
  {
    var b := new LookupBaton(cfg, user, {}, "", "", false);
    var qualified := repos + ":" + path;
    b.Enumerate(qualified);
    granted := IsGranted(b.allow, b.deny, required);
    if IsDetermined(b.allow, b.deny, required) {
      return true, granted;
    }
    b.Enumerate(path);
    granted := IsGranted(b.allow, b.deny, required);
    determined := IsDetermined(b.allow, b.deny, required);
  }

  /** The subtree at path is granted unless a section consulted for it conclusively denies the request. */
  predicate TreeAccess(cfg: Config, repos: string, path: string, user: Option<string>, required: Rights)
  {
    forall s :: s in cfg && SectionApplies(s, repos + ":" + path, path) ==> !ConclusiveDeny(cfg, s, user, required)
  }

  /** authz_get_tree_access: every section, in any order, until one conclusively denies. */
  method GetTreeAccess(cfg: Config, repos: string, path: string, user: Option<string>, required: Rights)
    returns (access: bool)
    requires TreeLookupSafe(cfg, repos, path)
    ensures access == TreeAccess(cfg, repos, path, user, required)
  {
    var b := new LookupBaton(cfg, user, required, path, repos + ":" + path, true);
    var todo := cfg.Keys;
    while todo != {}
      invariant todo <= cfg.Keys
      invariant b.cfg == cfg && b.user == user && b.requiredAccess == required
      invariant b.reposPath == path && b.qualifiedReposPath == repos + ":" + path
      invariant b.access
      invariant forall s :: s in cfg && s !in todo && SectionApplies(s, repos + ":" + path, path) ==>
        !ConclusiveDeny(cfg, s, user, required)
      decreases |todo|
    {
      var s :| s in todo;
      todo := todo - {s};
      var cont := b.ParseSection(s);
      if !cont {
        return b.access;
      }
    }
    return b.access;
  }

  // ---------------------------------------------------------------------
  // Repository paths and svn_repos_authz_check_access
  // ---------------------------------------------------------------------

  /** A repository path as its components, the root being empty. */
  type ReposPath = seq<string>

  /** A canonical path has no empty component and no component containing '/'. */
  predicate Canonical(p: ReposPath)
  {
    forall i :: 0 <= i < |p| ==> p[i] != "" && '/' !in p[i]
  }

  function Render(p: ReposPath): (r: string)
    ensures |p| > 0 ==> |r| > 0 && r[0] == '/'
    ensures |p| > 0 && p[|p| - 1] != "" ==> |r| >= 2
  {
    if |p| == 0 then "" else Render(p[..|p| - 1]) + "/" + p[|p| - 1]
  }

  /** The path as authz sections name it: "/" for the root, "/a/b" below it. */
  function PathString(p: ReposPath): (r: string)
    ensures |r| > 0 && r[0] == '/'
  {
    if |p| == 0 then "/" else Render(p)
  }

  lemma {:induction false} RenderPrefix(p: ReposPath, q: ReposPath)
    requires p <= q
    ensures Render(p) <= Render(q)
    decreases |q|
  {
    if |p| < |q| {
      var q' := q[..|q| - 1];
      assert p <= q';
      RenderPrefix(p, q');
    } else {
      assert p == q;
    }
  }

  /** The path of a parent directory begins with the path of the directory: every section below is consulted. */
  lemma PathStringPrefix(p: ReposPath, q: ReposPath)
    requires p <= q
    ensures PathString(p) <= PathString(q)
  {
    if |p| > 0 {
      RenderPrefix(p, q);
    }
  }

  /** Only the root is shown as "/". */
  /** The index of the last '/' of s, or -1 when there is none. */
  function LastSlash(s: string): (i: int)
    ensures -1 <= i < |s|
  {
    if |s| == 0 then -1 else if s[|s| - 1] == '/' then |s| - 1 else LastSlash(s[..|s| - 1])
  }

  lemma {:induction false} LastSlashOf(a: string, c: string)
    requires '/' !in c
    ensures LastSlash(a + "/" + c) == |a|
    decreases |c|
  {
    var s := a + "/" + c;
    if |c| > 0 {
      assert s[|s| - 1] == c[|c| - 1];
      assert s[..|s| - 1] == a + "/" + c[..|c| - 1];
      LastSlashOf(a, c[..|c| - 1]);
    } else {
      assert s[|s| - 1] == '/';
    }
  }

  /** Splitting a name at its last '/' is unique. */
  lemma SplitLast(a: string, c: string, a': string, c': string)
    requires a + "/" + c == a' + "/" + c' && '/' !in c && '/' !in c'
    ensures a == a' && c == c'
  {
    var s := a + "/" + c;
    LastSlashOf(a, c);
    LastSlashOf(a', c');
    assert a == s[..|a|] && a' == s[..|a'|];
    assert c == s[|a| + 1..] && c' == s[|a'| + 1..];
  }

  /** Rendering is injective on paths whose components contain no '/'. */
  lemma {:induction false} RenderInjective(p: ReposPath, q: ReposPath)
    requires Canonical(p) && Canonical(q) && Render(p) == Render(q)
    ensures p == q
    decreases |p|
  {
    if |p| > 0 && |q| > 0 {
      var p', q' := p[..|p| - 1], q[..|q| - 1];
      SplitLast(Render(p'), p[|p| - 1], Render(q'), q[|q| - 1]);
      assert Canonical(p') && Canonical(q');
      RenderInjective(p', q');
      assert p == p' + [p[|p| - 1]] && q == q' + [q[|q| - 1]];
    }
  }

  /** Distinct canonical paths are named by distinct sections. */
  lemma PathStringInjective(p: ReposPath, q: ReposPath)
    requires Canonical(p) && Canonical(q) && PathString(p) == PathString(q)
    ensures p == q
  {
    RootString(p);
    RootString(q);
    if |p| > 0 && |q| > 0 {
      RenderInjective(p, q);
    }
  }

  lemma RootString(p: ReposPath)
    requires Canonical(p)
    ensures PathString(p) == "/" <==> p == []
  {
    if |p| > 0 {
      assert p[|p| - 1] != "";
    }
  }

  /**
   * The answer for a path without the recursive walk: the nearest path,
   * from the path itself up to the root, whose rules decide; denied when
   * none decides.
   */
  function WalkUp(cfg: Config, repos: string, p: ReposPath, user: Option<string>, required: Rights): bool
    decreases |p|
  {
    var r := PathAccess(cfg, repos, PathString(p), user, required);
    if r.0 then r.1
    else if |p| == 0 then false
    else WalkUp(cfg, repos, p[..|p| - 1], user, required)
  }

  /** When no path from the root down to p has rules that decide, access is denied. */
  lemma {:induction false} WalkUpDeniesByDefault(cfg: Config, repos: string, p: ReposPath, user: Option<string>, required: Rights)
    requires forall k :: 0 <= k <= |p| ==> !PathAccess(cfg, repos, PathString(p[..k]), user, required).0
    ensures !WalkUp(cfg, repos, p, user, required)
    decreases |p|
  {
    assert p[..|p|] == p;
    if |p| > 0 {
      var q := p[..|p| - 1];
      forall k | 0 <= k <= |q| ensures !PathAccess(cfg, repos, PathString(q[..k]), user, required).0 {
        assert q[..k] == p[..k];
      }
      WalkUpDeniesByDefault(cfg, repos, q, user, required);
    }
  }

  /** The nearest ancestor-or-self of p whose rules decide gives the answer. */
  lemma {:induction false} WalkUpNearest(cfg: Config, repos: string, p: ReposPath, user: Option<string>, required: Rights, k: nat)
    requires k <= |p|
    requires PathAccess(cfg, repos, PathString(p[..k]), user, required).0
    requires forall j :: k < j <= |p| ==> !PathAccess(cfg, repos, PathString(p[..j]), user, required).0
    ensures WalkUp(cfg, repos, p, user, required) == PathAccess(cfg, repos, PathString(p[..k]), user, required).1
    decreases |p|
  {
    assert p[..|p|] == p;
    if k < |p| {
      var q := p[..|p| - 1];
      assert q[..k] == p[..k];
      forall j | k < j <= |q| ensures !PathAccess(cfg, repos, PathString(q[..j]), user, required).0 {
        assert q[..j] == p[..j];
      }
      WalkUpNearest(cfg, repos, q, user, required, k);
    }
  }

  /** Every section about a path in the subtree, plain or repository-qualified, is consulted by the tree walk. */
  lemma TreeAccessCoversSubtree(cfg: Config, repos: string, p: ReposPath, q: ReposPath, user: Option<string>, required: Rights)
    requires TreeAccess(cfg, repos, PathString(p), user, required) && p <= q
    ensures PathString(q) in cfg ==> !ConclusiveDeny(cfg, PathString(q), user, required)
    ensures repos + ":" + PathString(q) in cfg ==> !ConclusiveDeny(cfg, repos + ":" + PathString(q), user, required)
  {
    PathStringPrefix(p, q);
    var qp := repos + ":" + PathString(p);
    var qq := repos + ":" + PathString(q);
    assert qp <= qq by {
      assert qq == (repos + ":") + PathString(q);
      assert qp == (repos + ":") + PathString(p);
    }
    assert SectionApplies(PathString(q), qp, PathString(p));
    assert SectionApplies(qq, qp, PathString(p));
  }

  /**
   * svn_repos_authz_check_access: climb from the path towards the root
   * until some path's rules decide (the root is tried once more after it
   * is reached as a parent, and then the answer is deny); with recursive
   * access requested, a granted answer is then checked against every rule
   * for the subtree.
   */
  method CheckAccess(cfg: Config, repos: string, path: ReposPath, user: Option<string>, required: Rights)
    returns (granted: bool)
    requires LookupSafe(cfg, repos) && Canonical(path)
    ensures granted == if WalkUp(cfg, repos, path, user, required) && Recursive in required
      then TreeAccess(cfg, repos, PathString(path), user, required)
      else WalkUp(cfg, repos, path, user, required)
  {
    var baseName := PathString(path);
    RootString(path);
    var current := path;
    var determined;
    LookupSafeAt(cfg, repos, current);
    determined, granted := GetPathAccess(cfg, repos, PathString(current), user, required);
    while !determined
      invariant Canonical(current) && |current| <= |path|
      invariant baseName == "/" ==> current == []
      invariant (determined, granted) == PathAccess(cfg, repos, PathString(current), user, required)
      invariant WalkUp(cfg, repos, path, user, required) == WalkUp(cfg, repos, current, user, required)
      decreases |current|, if baseName == "/" then 0 else 1
    {
      if baseName == "/" {
        granted := false;
        return;
      }
      if |current| == 0 {
        baseName := "/";
      } else {
        baseName := current[|current| - 1];
        assert baseName != "/" by {
          assert '/' in "/";
        }
        current := current[..|current| - 1];
      }
      LookupSafeAt(cfg, repos, current);
      determined, granted := GetPathAccess(cfg, repos, PathString(current), user, required);
    }
    if granted && Recursive in required {
      LookupSafeAt(cfg, repos, path);
      granted := GetTreeAccess(cfg, repos, PathString(path), user, required);
    }
  }
}
