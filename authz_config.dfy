/**
 * The authz rule file of libsvn_repos/authz.c as svn_config holds it: named
 * sections of named options, the [groups] section that defines user groups,
 * group membership, and the validation svn_repos_authz_read performs before
 * a rule file may be used.
 *
 * svn_config keeps sections and options in hash tables, so they are maps
 * here and every walk over them goes in an arbitrary order.
 */
module AuthzConfig {
  import opened Wrappers
  import opened Sets

  type Section = map<string, string>
  type Config = map<string, Section>

  /** svn_config_get with a NULL default: the value, or nothing when the section or option is absent. */
  function GetValue(cfg: Config, section: string, option: string): (r: Option<string>)
    ensures r.Some? <==> section in cfg && option in cfg[section]
  {
    if section in cfg && option in cfg[section] then Some(cfg[section][option]) else None
  }

  /** The options of a section; an absent section enumerates nothing. */
  function Lines(cfg: Config, section: string): Section
  {
    if section in cfg then cfg[section] else map[]
  }

  // ---------------------------------------------------------------------
  // Comma-separated lists (svn_cstring_split with whitespace chopping)
  // ---------------------------------------------------------------------

  /** The characters apr_isspace accepts: space, tab, newline, vertical tab, form feed, carriage return. */
  predicate IsSpace(c: char)
  {
    c == ' ' || ('\t' <= c <= '\r')
  }

  function TrimStart(s: string): (r: string)
    ensures |r| > 0 ==> !IsSpace(r[0])
    ensures forall c :: c in r ==> c in s
  {
    if |s| > 0 && IsSpace(s[0]) then TrimStart(s[1..]) else s
  }

  function TrimEnd(s: string): (r: string)
    ensures |r| <= |s|
    ensures |r| > 0 ==> !IsSpace(r[|r| - 1]) && r[0] == s[0]
    ensures forall c :: c in r ==> c in s
  {
    if |s| > 0 && IsSpace(s[|s| - 1]) then TrimEnd(s[..|s| - 1]) else s
  }

  /** A piece with its surrounding whitespace removed; an empty piece is dropped. */
  function Piece(s: string): (r: seq<string>)
    requires ',' !in s
    ensures |r| <= 1
    ensures forall t :: t in r ==> |t| > 0 && ',' !in t && !IsSpace(t[0]) && !IsSpace(t[|t| - 1])
  {
    var t := TrimEnd(TrimStart(s));
    assert ',' !in TrimStart(s);
    assert ',' !in t;
    if |t| == 0 then [] else [t]
  }

  /** The pieces of v, cur being the piece read so far. */
  function Tokens(v: string, cur: string): (r: seq<string>)
    requires ',' !in cur
    ensures forall t :: t in r ==> |t| > 0 && ',' !in t && !IsSpace(t[0]) && !IsSpace(t[|t| - 1])
    decreases |v|
  {
    if |v| == 0 then Piece(cur)
    else if v[0] == ',' then Piece(cur) + Tokens(v[1..], "")
    else Tokens(v[1..], cur + [v[0]])
  }

  /**
   * svn_cstring_split(value, ",", TRUE): the comma-separated pieces of a
   * value, each stripped of surrounding whitespace, empty pieces dropped.
   */
  function SplitList(v: string): (r: seq<string>)
    ensures forall t :: t in r ==> |t| > 0 && ',' !in t && !IsSpace(t[0]) && !IsSpace(t[|t| - 1])
  {
    Tokens(v, "")
  }

  lemma {:induction false} TokensPlain(v: string, cur: string)
    requires ',' !in cur && ',' !in v
    ensures Tokens(v, cur) == Piece(cur + v)
    decreases |v|
  {
    if |v| > 0 {
      assert v[0] in v;
      assert forall c :: c in v[1..] ==> c in v;
      TokensPlain(v[1..], cur + [v[0]]);
      assert cur + [v[0]] + v[1..] == cur + v;
    } else {
      assert cur + v == cur;
    }
  }

  lemma {:induction false} TokensComma(a: string, b: string, cur: string)
    requires ',' !in cur
    ensures Tokens(a + [','] + b, cur) == Tokens(a, cur) + Tokens(b, "")
    decreases |a|
  {
    var v := a + [','] + b;
    if |a| == 0 {
      assert v == [','] + b;
      assert v[1..] == b;
    } else {
      assert v[0] == a[0];
      assert v[1..] == a[1..] + [','] + b;
      if a[0] == ',' {
        calc {
          Tokens(v, cur);
          Piece(cur) + Tokens(a[1..] + [','] + b, "");
          { TokensComma(a[1..], b, ""); }
          Piece(cur) + (Tokens(a[1..], "") + Tokens(b, ""));
          (Piece(cur) + Tokens(a[1..], "")) + Tokens(b, "");
          Tokens(a, cur) + Tokens(b, "");
        }
      } else {
        calc {
          Tokens(v, cur);
          Tokens(a[1..] + [','] + b, cur + [a[0]]);
          { TokensComma(a[1..], b, cur + [a[0]]); }
          Tokens(a[1..], cur + [a[0]]) + Tokens(b, "");
          Tokens(a, cur) + Tokens(b, "");
        }
      }
    }
  }

  /** A value without a comma is a single piece, or none when it is blank. */
  lemma SplitListPlain(v: string)
    requires ',' !in v
    ensures SplitList(v) == Piece(v)
  {
    TokensPlain(v, "");
    assert "" + v == v;
  }

  /** The pieces on either side of a comma are the pieces of the whole value, in order. */
  lemma SplitListComma(a: string, b: string)
    ensures SplitList(a + [','] + b) == SplitList(a) + SplitList(b)
  {
    TokensComma(a, b, "");
  }

  /** A piece that already has no surrounding whitespace is kept as it is. */
  lemma PieceTrimmed(s: string)
    requires ',' !in s && |s| > 0 && !IsSpace(s[0]) && !IsSpace(s[|s| - 1])
    ensures Piece(s) == [s]
  {
  }

  // ---------------------------------------------------------------------
  // Groups
  // ---------------------------------------------------------------------

  /** A list member or rule name that names a group: it starts with '@'. */
  predicate IsGroupRef(m: string)
  {
    |m| > 0 && m[0] == '@'
  }

  function Groups(cfg: Config): Section
  {
    Lines(cfg, "groups")
  }

  predicate Defined(cfg: Config, g: string)
  {
    g in Groups(cfg)
  }

  /** The members listed by a group's definition; an undefined group lists none. */
  function Members(cfg: Config, g: string): (r: seq<string>)
    ensures !Defined(cfg, g) ==> r == []
  {
    if g in Groups(cfg) then SplitList(Groups(cfg)[g]) else []
  }

  /** Group a lists group b as a member. */
  predicate RefersTo(cfg: Config, a: string, b: string)
  {
    "@" + b in Members(cfg, a)
  }

  /** A sequence of groups each of which lists the next. */
  ghost predicate Chain(cfg: Config, xs: seq<string>)
  {
    |xs| > 0 && forall i :: 0 <= i < |xs| - 1 ==> RefersTo(cfg, xs[i], xs[i + 1])
  }

  /** Group b is a (possibly indirect) subgroup of a, or a itself. */
  ghost predicate Reaches(cfg: Config, a: string, b: string)
  {
    exists xs :: Path(cfg, xs, a, b)
  }

  /** A chain that starts at a and ends at b. */
  ghost predicate Path(cfg: Config, xs: seq<string>, a: string, b: string)
  {
    Chain(cfg, xs) && xs[0] == a && xs[|xs| - 1] == b
  }

  /** Group h is reached again by following its own subgroups. */
  ghost predicate OnCycle(cfg: Config, h: string)
  {
    exists xs :: Path(cfg, xs, h, h) && |xs| > 1
  }

  /** u is listed by name (not through a subgroup) in group g. */
  predicate DirectMember(cfg: Config, g: string, u: string)
  {
    u in Members(cfg, g) && !IsGroupRef(u)
  }

  /** The reference meaning of membership: u is listed directly by g or by one of its subgroups. */
  ghost predicate InGroup(cfg: Config, g: string, u: string)
  {
    exists xs :: MemberChain(cfg, xs, g, u)
  }

  /** A chain from g to a group that lists u by name. */
  ghost predicate MemberChain(cfg: Config, xs: seq<string>, g: string, u: string)
  {
    Chain(cfg, xs) && xs[0] == g && DirectMember(cfg, xs[|xs| - 1], u)
  }

  /** Every group reached from g is defined and none of them lies on a cycle. */
  ghost predicate GroupSound(cfg: Config, g: string)
  {
    forall h :: Reaches(cfg, g, h) ==> Defined(cfg, h) && !OnCycle(cfg, h)
  }

  lemma ChainConcat(cfg: Config, xs: seq<string>, ys: seq<string>)
    requires Chain(cfg, xs) && Chain(cfg, ys) && xs[|xs| - 1] == ys[0]
    ensures Chain(cfg, xs + ys[1..])
  {
    var zs := xs + ys[1..];
    forall i | 0 <= i < |zs| - 1 ensures RefersTo(cfg, zs[i], zs[i + 1]) {
      if i < |xs| - 1 {
        assert zs[i] == xs[i] && zs[i + 1] == xs[i + 1];
      } else {
        var j := i - |xs| + 1;
        assert zs[i] == ys[j] && zs[i + 1] == ys[j + 1];
      }
    }
  }

  lemma ChainTail(cfg: Config, xs: seq<string>)
    requires Chain(cfg, xs) && |xs| > 1
    ensures Chain(cfg, xs[1..])
  {
    var ys := xs[1..];
    forall i | 0 <= i < |ys| - 1 ensures RefersTo(cfg, ys[i], ys[i + 1]) {
      assert ys[i] == xs[i + 1] && ys[i + 1] == xs[i + 2];
    }
  }

  lemma ReachesSelf(cfg: Config, a: string)
    ensures Reaches(cfg, a, a)
  {
    assert Path(cfg, [a], a, a);
  }

  lemma ReachesStep(cfg: Config, a: string, b: string, c: string)
    requires Reaches(cfg, a, b) && RefersTo(cfg, b, c)
    ensures Reaches(cfg, a, c)
  {
    var xs :| Path(cfg, xs, a, b);
    var zs := xs + [c];
    assert Chain(cfg, zs) by {
      forall i | 0 <= i < |zs| - 1 ensures RefersTo(cfg, zs[i], zs[i + 1]) {
        if i < |xs| - 1 {
          assert zs[i] == xs[i] && zs[i + 1] == xs[i + 1];
        } else {
          assert zs[i] == b && zs[i + 1] == c;
        }
      }
    }
    assert Path(cfg, zs, a, c);
  }

  lemma MemberRefersTo(cfg: Config, g: string, m: string)
    requires m in Members(cfg, g) && IsGroupRef(m)
    ensures RefersTo(cfg, g, m[1..])
  {
    assert "@" + m[1..] == m;
  }

  // ---------------------------------------------------------------------
  // Membership (authz_group_contains_user)
  // ---------------------------------------------------------------------

  /**
   * The second component of the termination measure of the group recursions:
   * a defined group is expanded into its members, an undefined one is not.
   */
  function Rank(cfg: Config, g: string): nat
  {
    if Defined(cfg, g) then 2 else 0
  }

  /**
   * Whether user is listed by group or one of its subgroups, searching the
   * members in order; path holds the groups on the current recursion path,
   * and a subgroup already on it is not entered again. On a configuration
   * the validation accepts the cut never applies (GroupContainsUser).
   */
  function Contains(cfg: Config, group: string, user: string, path: set<string>): bool
    decreases |Groups(cfg).Keys - path|, Rank(cfg, group)
  {
    Defined(cfg, group) && ListContains(cfg, Members(cfg, group), user, path)
  }

  function ListContains(cfg: Config, ms: seq<string>, user: string, path: set<string>): bool
    decreases |Groups(cfg).Keys - path|, 1, |ms|
  {
    if |ms| == 0 then false
    else if IsGroupRef(ms[0]) then
      var h := ms[0][1..];
      AddCard(Groups(cfg).Keys, path, h);
      (h !in path && Contains(cfg, h, user, path + {h})) || ListContains(cfg, ms[1..], user, path)
    else ms[0] == user || ListContains(cfg, ms[1..], user, path)
  }

  /** What the search finds is a real membership. */
  lemma {:induction false} ContainsSound(cfg: Config, g: string, u: string, path: set<string>)
    requires Contains(cfg, g, u, path)
    ensures InGroup(cfg, g, u)
    decreases |Groups(cfg).Keys - path|, Rank(cfg, g)
  {
    ListContainsSound(cfg, g, Members(cfg, g), u, path);
  }

  lemma {:induction false} ListContainsSound(cfg: Config, g: string, ms: seq<string>, u: string, path: set<string>)
    requires forall m :: m in ms ==> m in Members(cfg, g)
    requires ListContains(cfg, ms, u, path)
    ensures InGroup(cfg, g, u)
    decreases |Groups(cfg).Keys - path|, 1, |ms|
  {
    var m := ms[0];
    if IsGroupRef(m) && m[1..] !in path && Contains(cfg, m[1..], u, path + {m[1..]}) {
      var h := m[1..];
      AddCard(Groups(cfg).Keys, path, h);
      ContainsSound(cfg, h, u, path + {h});
      MemberRefersTo(cfg, g, m);
      InGroupVia(cfg, g, h, u);
    } else if !IsGroupRef(m) && m == u {
      assert MemberChain(cfg, [g], g, u);
    } else {
      ListContainsSound(cfg, g, ms[1..], u, path);
    }
  }

  lemma InGroupVia(cfg: Config, g: string, h: string, u: string)
    requires RefersTo(cfg, g, h) && InGroup(cfg, h, u)
    ensures InGroup(cfg, g, u)
  {
    var xs :| MemberChain(cfg, xs, h, u);
    assert Chain(cfg, [g, h]);
    ChainConcat(cfg, [g, h], xs);
    var zs := [g, h] + xs[1..];
    if |xs| == 1 {
      assert zs == [g, h];
    } else {
      assert zs[|zs| - 1] == xs[1..][|xs| - 2] == xs[|xs| - 1];
    }
    assert MemberChain(cfg, zs, g, u);
  }

  lemma {:induction false} ListContainsDirect(cfg: Config, ms: seq<string>, u: string, path: set<string>)
    requires u in ms && !IsGroupRef(u)
    ensures ListContains(cfg, ms, u, path)
    decreases |ms|
  {
    if ms[0] != u {
      ListContainsDirect(cfg, ms[1..], u, path);
    }
  }

  lemma {:induction false} ListContainsVia(cfg: Config, ms: seq<string>, h: string, u: string, path: set<string>)
    requires "@" + h in ms && h !in path
    requires Contains(cfg, h, u, path + {h})
    ensures ListContains(cfg, ms, u, path)
    decreases |ms|
  {
    assert ("@" + h)[1..] == h;
    if ms[0] != "@" + h {
      ListContainsVia(cfg, ms[1..], h, u, path);
    }
  }

  /** A chain with no repeated group, none of whose later groups is on the path, is found by the search. */
  lemma {:induction false} ContainsComplete(cfg: Config, xs: seq<string>, u: string, path: set<string>)
    requires Chain(cfg, xs) && DirectMember(cfg, xs[|xs| - 1], u)
    requires forall i, j :: 0 <= i < j < |xs| ==> xs[i] != xs[j]
    requires forall i :: 1 <= i < |xs| ==> xs[i] !in path
    ensures Contains(cfg, xs[0], u, path)
    decreases |xs|
  {
    if |xs| == 1 {
      ListContainsDirect(cfg, Members(cfg, xs[0]), u, path);
    } else {
      var h := xs[1];
      assert RefersTo(cfg, xs[0], h);
      var ys := xs[1..];
      ChainTail(cfg, xs);
      DistinctTail(xs, path);
      assert ys[|ys| - 1] == xs[|xs| - 1];
      ContainsComplete(cfg, ys, u, path + {h});
      ListContainsVia(cfg, Members(cfg, xs[0]), h, u, path);
    }
  }

  /** Dropping the head of a chain without repeats leaves one without repeats that avoids the head's successor too. */
  lemma DistinctTail(xs: seq<string>, path: set<string>)
    requires |xs| >= 2
    requires forall i, j :: 0 <= i < j < |xs| ==> xs[i] != xs[j]
    requires forall i :: 1 <= i < |xs| ==> xs[i] !in path
    ensures forall i :: 1 <= i < |xs[1..]| ==> xs[1..][i] !in path + {xs[1]}
    ensures forall i, j :: 0 <= i < j < |xs[1..]| ==> xs[1..][i] != xs[1..][j]
  {
    var ys := xs[1..];
    forall i | 1 <= i < |ys| ensures ys[i] !in path + {xs[1]} {
      assert ys[i] == xs[i + 1];
    }
    forall i, j | 0 <= i < j < |ys| ensures ys[i] != ys[j] {
      assert ys[i] == xs[i + 1] && ys[j] == xs[j + 1];
    }
  }

  /** Cutting the loop between two occurrences of the same group out of a chain leaves a shorter chain with the same ends. */
  lemma CutLoop(cfg: Config, xs: seq<string>, i: nat, j: nat) returns (zs: seq<string>)
    requires Chain(cfg, xs) && i < j < |xs| && xs[i] == xs[j]
    ensures Chain(cfg, zs) && |zs| < |xs| && zs[0] == xs[0] && zs[|zs| - 1] == xs[|xs| - 1]
  {
    var edge := (a, b) => RefersTo(cfg, a, b);
    zs := CutWalk(edge, xs, i, j);
    assert forall k :: 0 <= k < |zs| - 1 ==> edge(zs[k], zs[k + 1]);
  }

  /** The same cut for any relation: the steps of the shortened walk are steps of the original. */
  lemma CutWalk<T>(edge: (T, T) -> bool, xs: seq<T>, i: nat, j: nat) returns (zs: seq<T>)
    requires i < j < |xs| && xs[i] == xs[j]
    requires forall k :: 0 <= k < |xs| - 1 ==> edge(xs[k], xs[k + 1])
    ensures |zs| > 0 && |zs| < |xs| && zs[0] == xs[0] && zs[|zs| - 1] == xs[|xs| - 1]
    ensures forall k :: 0 <= k < |zs| - 1 ==> edge(zs[k], zs[k + 1])
  {
    zs := xs[..i + 1] + xs[j + 1..];
    forall k | 0 <= k < |zs| ensures zs[k] == if k <= i then xs[k] else xs[k + j - i] {
    }
    forall k | 0 <= k < |zs| - 1 ensures edge(zs[k], zs[k + 1]) {
      if k < i {
        assert edge(xs[k], xs[k + 1]);
      } else {
        assert edge(xs[k + j - i], xs[k + j - i + 1]);
      }
    }
  }

  /** Every chain can be shortened to one without repeated groups, with the same ends. */
  lemma {:induction false} ShortenChain(cfg: Config, xs: seq<string>) returns (ys: seq<string>)
    requires Chain(cfg, xs)
    ensures Chain(cfg, ys) && ys[0] == xs[0] && ys[|ys| - 1] == xs[|xs| - 1]
    ensures forall i, j :: 0 <= i < j < |ys| ==> ys[i] != ys[j]
    decreases |xs|
  {
    if forall i, j :: 0 <= i < j < |xs| ==> xs[i] != xs[j] {
      ys := xs;
    } else {
      var i, j :| 0 <= i < j < |xs| && xs[i] == xs[j];
      var zs := CutLoop(cfg, xs, i, j);
      ys := ShortenChain(cfg, zs);
    }
  }

  /**
   * Membership as the search computes it is membership by the reference
   * definition: listed by name in the group or in one of its subgroups.
   */
  lemma ContainsMeaning(cfg: Config, g: string, u: string)
    ensures Contains(cfg, g, u, {g}) <==> InGroup(cfg, g, u)
  {
    if Contains(cfg, g, u, {g}) {
      ContainsSound(cfg, g, u, {g});
    }
    if InGroup(cfg, g, u) {
      var xs :| MemberChain(cfg, xs, g, u);
      var ys := ShortenChain(cfg, xs);
      forall i | 1 <= i < |ys| ensures ys[i] !in {g} {
        assert ys[i] != ys[0];
      }
      ContainsComplete(cfg, ys, u, {g});
    }
  }

  // ---------------------------------------------------------------------
  // Validation of group definitions (authz_group_walk)
  // ---------------------------------------------------------------------

  datatype AuthzError =
    | UndefinedGroup(name: string)            // "refers to group '%s', which is undefined"
    | CircularGroups(sub: string, group: string)  // "Circular dependency between groups '%s' and '%s'"

  /**
   * The walk of a group's definition as authz.c writes it: checked collects
   * every subgroup entered and nothing is ever taken out of it, so a group
   * reached twice by different routes is reported as circular. The result
   * also gives the checked set the walk leaves behind.
   */
  function WalkAsWritten(cfg: Config, group: string, checked: set<string>): (r: (Option<AuthzError>, set<string>))
    ensures checked <= r.1
    ensures r.0.None? ==> Defined(cfg, group)
    decreases |Groups(cfg).Keys - checked|, Rank(cfg, group)
  {
    if !Defined(cfg, group) then (Some(UndefinedGroup(group)), checked)
    else MembersAsWritten(cfg, group, Members(cfg, group), checked)
  }

  function MembersAsWritten(cfg: Config, group: string, ms: seq<string>, checked: set<string>): (r: (Option<AuthzError>, set<string>))
    ensures checked <= r.1
    decreases |Groups(cfg).Keys - checked|, 1, |ms|
  {
    if |ms| == 0 then (None, checked)
    else if !IsGroupRef(ms[0]) then MembersAsWritten(cfg, group, ms[1..], checked)
    else if ms[0][1..] in checked then (Some(CircularGroups(ms[0][1..], group)), checked)
    else
      var h := ms[0][1..];
      AddCard(Groups(cfg).Keys, checked, h);
      var w := WalkAsWritten(cfg, h, checked + {h});
      if w.0.Some? then w
      else
        SubsetCard(Groups(cfg).Keys - w.1, Groups(cfg).Keys - (checked + {h}));
        MembersAsWritten(cfg, group, ms[1..], w.1)
  }

  /**
   * The walk as its error message means it: checked holds the groups on the
   * current recursion path, so a subgroup is taken out again once its own
   * walk is done (GroupWalk); only a true cycle is reported.
   */
  function WalkVerdict(cfg: Config, group: string, checked: set<string>): Option<AuthzError>
    decreases |Groups(cfg).Keys - checked|, Rank(cfg, group)
  {
    if !Defined(cfg, group) then Some(UndefinedGroup(group))
    else MembersVerdict(cfg, group, Members(cfg, group), checked)
  }

  function MembersVerdict(cfg: Config, group: string, ms: seq<string>, checked: set<string>): Option<AuthzError>
    decreases |Groups(cfg).Keys - checked|, 1, |ms|
  {
    if |ms| == 0 then None
    else if !IsGroupRef(ms[0]) then MembersVerdict(cfg, group, ms[1..], checked)
    else if ms[0][1..] in checked then Some(CircularGroups(ms[0][1..], group))
    else
      AddCard(Groups(cfg).Keys, checked, ms[0][1..]);
      match WalkVerdict(cfg, ms[0][1..], checked + {ms[0][1..]})
      case Some(e) => Some(e)
      case None => MembersVerdict(cfg, group, ms[1..], checked)
  }

  /** What an error of the walk started at root says is so: an undefined or a circular group reached from root. */
  ghost predicate Witnessed(cfg: Config, root: string, e: AuthzError)
  {
    match e
    case UndefinedGroup(h) => Reaches(cfg, root, h) && !Defined(cfg, h)
    case CircularGroups(h, _) => Reaches(cfg, root, h) && OnCycle(cfg, h)
  }

  /** Every group on the path is reached from root and reaches the group being walked. */
  ghost predicate OnPath(cfg: Config, root: string, g: string, path: set<string>)
  {
    Reaches(cfg, root, g) && forall p :: p in path ==> Reaches(cfg, root, p) && Reaches(cfg, p, g)
  }

  lemma {:induction false} WalkErrorSound(cfg: Config, root: string, g: string, path: set<string>)
    requires OnPath(cfg, root, g, path)
    ensures WalkVerdict(cfg, g, path).Some? ==> Witnessed(cfg, root, WalkVerdict(cfg, g, path).value)
    decreases |Groups(cfg).Keys - path|, Rank(cfg, g)
  {
    if Defined(cfg, g) {
      MembersErrorSound(cfg, root, g, Members(cfg, g), path);
    }
  }

  lemma {:induction false} MembersErrorSound(cfg: Config, root: string, g: string, ms: seq<string>, path: set<string>)
    requires forall m :: m in ms ==> m in Members(cfg, g)
    requires OnPath(cfg, root, g, path)
    ensures MembersVerdict(cfg, g, ms, path).Some? ==> Witnessed(cfg, root, MembersVerdict(cfg, g, ms, path).value)
    decreases |Groups(cfg).Keys - path|, 1, |ms|
  {
    if |ms| > 0 {
      var m := ms[0];
      if !IsGroupRef(m) {
        MembersErrorSound(cfg, root, g, ms[1..], path);
      } else {
        var h := m[1..];
        MemberRefersTo(cfg, g, m);
        ReachesStep(cfg, root, g, h);
        if h in path {
          CycleThrough(cfg, h, g);
        } else {
          OnPathStep(cfg, root, g, h, path);
          AddCard(Groups(cfg).Keys, path, h);
          WalkErrorSound(cfg, root, h, path + {h});
          MembersErrorSound(cfg, root, g, ms[1..], path);
        }
      }
    }
  }

  /** A group that reaches a group listing it lies on a cycle. */
  lemma CycleThrough(cfg: Config, h: string, g: string)
    requires Reaches(cfg, h, g) && RefersTo(cfg, g, h)
    ensures OnCycle(cfg, h)
  {
    ReachesStep(cfg, h, g, h);
    var xs :| Path(cfg, xs, h, g);
    var zs := xs + [h];
    assert Chain(cfg, zs) by {
      forall i | 0 <= i < |zs| - 1 ensures RefersTo(cfg, zs[i], zs[i + 1]) {
        if i < |xs| - 1 {
          assert zs[i] == xs[i] && zs[i + 1] == xs[i + 1];
        } else {
          assert zs[i] == g && zs[i + 1] == h;
        }
      }
    }
    assert Path(cfg, zs, h, h) && |zs| > 1;
  }

  /** Entering subgroup h of g keeps the recursion path honest. */
  lemma OnPathStep(cfg: Config, root: string, g: string, h: string, path: set<string>)
    requires OnPath(cfg, root, g, path) && RefersTo(cfg, g, h)
    ensures OnPath(cfg, root, h, path + {h})
  {
    ReachesSelf(cfg, h);
    ReachesStep(cfg, root, g, h);
    forall p | p in path ensures Reaches(cfg, p, h) {
      ReachesStep(cfg, p, g, h);
    }
  }

  lemma {:induction false} MembersNone(cfg: Config, g: string, ms: seq<string>, path: set<string>, m: string)
    requires MembersVerdict(cfg, g, ms, path) == None
    requires m in ms && IsGroupRef(m)
    ensures m[1..] !in path && WalkVerdict(cfg, m[1..], path + {m[1..]}) == None
    decreases |ms|
  {
    if ms[0] != m {
      MembersNone(cfg, g, ms[1..], path, m);
    }
  }

  /** A walk without error vouches for every chain from its group: defined groups, none repeated, none on the path. */
  lemma {:induction false} WalkNoneChains(cfg: Config, path: set<string>, xs: seq<string>)
    requires Chain(cfg, xs) && WalkVerdict(cfg, xs[0], path) == None
    ensures forall i :: 0 <= i < |xs| ==> Defined(cfg, xs[i])
    ensures forall i :: 1 <= i < |xs| ==> xs[i] !in path
    ensures forall i, j :: 1 <= i < j < |xs| ==> xs[i] != xs[j]
    decreases |xs|
  {
    if |xs| > 1 {
      var h := xs[1];
      assert ("@" + h)[1..] == h;
      MembersNone(cfg, xs[0], Members(cfg, xs[0]), path, "@" + h);
      var ys := xs[1..];
      ChainTail(cfg, xs);
      WalkNoneChains(cfg, path + {h}, ys);
      forall i | 0 <= i < |xs| ensures Defined(cfg, xs[i]) {
        if i > 0 {
          assert xs[i] == ys[i - 1];
        }
      }
      forall i | 1 <= i < |xs| ensures xs[i] !in path {
        assert xs[i] == ys[i - 1];
      }
      forall i, j | 1 <= i < j < |xs| ensures xs[i] != xs[j] {
        assert xs[i] == ys[i - 1] && xs[j] == ys[j - 1];
      }
    }
  }

  /**
   * The corrected walk of a group accepts it exactly when every group
   * reached from it is defined and none of them lies on a cycle.
   */
  lemma GroupWalkExact(cfg: Config, g: string)
    ensures WalkVerdict(cfg, g, {}) == None <==> GroupSound(cfg, g)
  {
    if WalkVerdict(cfg, g, {}) == None {
      forall h | Reaches(cfg, g, h) ensures Defined(cfg, h) && !OnCycle(cfg, h) {
        var xs :| Path(cfg, xs, g, h);
        WalkNoneChains(cfg, {}, xs);
        if OnCycle(cfg, h) {
          var ys :| Path(cfg, ys, h, h) && |ys| > 1;
          ChainConcat(cfg, xs, ys);
          var zs1 := xs + ys[1..];
          assert zs1[|zs1| - 1] == h;
          ChainConcat(cfg, zs1, ys);
          var zs := zs1 + ys[1..];
          var a := |zs1| - 1;
          var b := |zs| - 1;
          assert zs[a] == h && zs[b] == h && 1 <= a < b;
          WalkNoneChains(cfg, {}, zs);
          assert false;
        }
      }
    } else {
      ReachesSelf(cfg, g);
      WalkErrorSound(cfg, g, g, {});
    }
  }

  /** A sound group also passes the walk that starts with itself already checked, as membership searches do. */
  lemma WalkFromSelf(cfg: Config, g: string)
    requires WalkVerdict(cfg, g, {}) == None
    ensures WalkVerdict(cfg, g, {g}) == None
  {
    GroupWalkExact(cfg, g);
    ReachesSelf(cfg, g);
    WalkErrorSound(cfg, g, g, {g});
  }

  /** The checked_groups hash shared by one walk. */
  class GroupSet {
    var names: set<string>

    constructor ()
      ensures names == {}
    {
      names := {};
    }
  }

  /**
   * authz_group_walk, with each subgroup taken out of checked once its
   * walk is done: the first undefined or circular group found, or none.
   * On success checked ends as it began.
   */
  method GroupWalk(cfg: Config, group: string, checked: GroupSet) returns (err: Option<AuthzError>)
    modifies checked
    ensures err == WalkVerdict(cfg, group, old(checked.names))
    ensures err.None? ==> checked.names == old(checked.names)
    decreases |Groups(cfg).Keys - checked.names|, Rank(cfg, group)
  {
    var value := GetValue(cfg, "groups", group);
    if value.None? {
      return Some(UndefinedGroup(group));
    }
    var list := SplitList(value.value);
    assert list == Members(cfg, group);
    err := WalkMembers(cfg, group, list, checked);
  }

  /** The loop of authz_group_walk over the members of a defined group, in list order. */
  method WalkMembers(cfg: Config, group: string, list: seq<string>, checked: GroupSet) returns (err: Option<AuthzError>)
    modifies checked
    ensures err == MembersVerdict(cfg, group, list, old(checked.names))
    ensures err.None? ==> checked.names == old(checked.names)
    decreases |Groups(cfg).Keys - checked.names|, 1
  {
    ghost var c0 := checked.names;
    var i := 0;
    while i < |list|
      invariant 0 <= i <= |list| && checked.names == c0
      invariant MembersVerdict(cfg, group, list, c0) == MembersVerdict(cfg, group, list[i..], c0)
    {
      var m := list[i];
      MembersVerdictStep(cfg, group, list, i, c0);
      if |m| > 0 && m[0] == '@' {
        var sub := m[1..];
        if sub in checked.names {
          return Some(CircularGroups(sub, group));
        }
        AddCard(Groups(cfg).Keys, checked.names, sub);
        checked.names := checked.names + {sub};
        err := GroupWalk(cfg, sub, checked);
        if err.Some? {
          return;
        }
        checked.names := checked.names - {sub};
      }
      i := i + 1;
    }
    return None;
  }

  /** One member of the walk: skipped, found circular, or walked and then passed over. */
  lemma MembersVerdictStep(cfg: Config, group: string, list: seq<string>, i: nat, c: set<string>)
    requires i < |list|
    ensures !IsGroupRef(list[i]) ==>
      MembersVerdict(cfg, group, list[i..], c) == MembersVerdict(cfg, group, list[i + 1..], c)
    ensures IsGroupRef(list[i]) && list[i][1..] in c ==>
      MembersVerdict(cfg, group, list[i..], c) == Some(CircularGroups(list[i][1..], group))
    ensures IsGroupRef(list[i]) && list[i][1..] !in c ==>
      MembersVerdict(cfg, group, list[i..], c) ==
        (if WalkVerdict(cfg, list[i][1..], c + {list[i][1..]}).Some? then WalkVerdict(cfg, list[i][1..], c + {list[i][1..]})
         else MembersVerdict(cfg, group, list[i + 1..], c))
  {
    assert list[i..][0] == list[i] && list[i..][1..] == list[i + 1..];
  }

  /**
   * authz_group_contains_user on a group whose walk succeeds from the
   * recursion path: the members are searched in order, a subgroup by
   * recursion, and the answer is the specified search, which never needs
   * its cut there. The path is a proof device only.
   */
  method GroupContainsUser(cfg: Config, group: string, user: string, ghost path: set<string>) returns (found: bool)
    requires WalkVerdict(cfg, group, path) == None
    ensures found == Contains(cfg, group, user, path)
    decreases |Groups(cfg).Keys - path|, Rank(cfg, group)
  {
    var value := GetValue(cfg, "groups", group);
    var list := SplitList(value.value);
    assert list == Members(cfg, group);
    ghost var want := Contains(cfg, group, user, path);
    assert want == ListContains(cfg, list, user, path);
    var i := 0;
    while i < |list|
      invariant 0 <= i <= |list|
      invariant want == ListContains(cfg, list[i..], user, path)
      invariant MembersVerdict(cfg, group, list[i..], path) == None
    {
      var m := list[i];
      assert list[i..][0] == m && list[i..][1..] == list[i + 1..];
      if |m| > 0 && m[0] == '@' {
        MembersNone(cfg, group, list[i..], path, m);
        AddCard(Groups(cfg).Keys, path, m[1..]);
        var sub := GroupContainsUser(cfg, m[1..], user, path + {m[1..]});
        if sub {
          return true;
        }
        assert ListContains(cfg, list[i..], user, path) == ListContains(cfg, list[i + 1..], user, path);
      } else if user == m {
        return true;
      } else {
        assert ListContains(cfg, list[i..], user, path) == ListContains(cfg, list[i + 1..], user, path);
      }
      i := i + 1;
    }
    return false;
  }

  // ---------------------------------------------------------------------
  // The diamond that the walk as written rejects
  // ---------------------------------------------------------------------

  /** Group g lists a and b, which both list c, which lists the user u: no cycle anywhere. */
  const Diamond: Config := map["groups" := map["g" := "@a,@b", "a" := "@c", "b" := "@c", "c" := "u"]]

  lemma DiamondTop()
    ensures Members(Diamond, "g") == ["@a", "@b"]
  {
    assert Groups(Diamond)["g"] == "@a" + [','] + "@b";
    SplitTwo("@a", "@b");
  }

  lemma SplitTwo(x: string, y: string)
    requires |x| == 2 && |y| == 2
    requires forall i :: 0 <= i < 2 ==> x[i] != ',' && !IsSpace(x[i]) && y[i] != ',' && !IsSpace(y[i])
    ensures SplitList(x + [','] + y) == [x, y]
  {
    SplitListComma(x, y);
    PlainMember(x);
    PlainMember(y);
  }

  lemma DiamondMember(g: string, m: string)
    requires g in {"a", "b", "c"} && m == Groups(Diamond)[g]
    ensures Members(Diamond, g) == [m]
  {
    PlainMember(m);
  }

  /** A short name without commas or whitespace is a one-member list. */
  lemma PlainMember(m: string)
    requires |m| == 2 || |m| == 1
    requires forall i :: 0 <= i < |m| ==> m[i] != ',' && !IsSpace(m[i])
    ensures SplitList(m) == [m]
  {
    SplitListPlain(m);
    PieceTrimmed(m);
  }

  /** The walk as written reports the diamond as a circular dependency between c and b. */
  lemma DiamondReportedCircular()
    ensures WalkAsWritten(Diamond, "g", {}).0 == Some(CircularGroups("c", "b"))
  {
    DiamondTop();
    assert ["@a", "@b"][1..] == ["@b"] && "@a"[1..] == "a" && "@b"[1..] == "b";
    var none: set<string> := {};
    var ac: set<string> := {"a", "c"};
    assert none + {"a"} == {"a"} && IsGroupRef("@a") && IsGroupRef("@b") && "b" !in ac;
    DiamondLeftAsWritten();
    assert MembersAsWritten(Diamond, "g", ["@a", "@b"], none) == MembersAsWritten(Diamond, "g", ["@b"], ac);
    DiamondRightAsWritten(ac + {"b"});
  }

  /** Walking a leaves c checked behind it. */
  lemma DiamondLeftAsWritten()
    ensures WalkAsWritten(Diamond, "a", {"a"}) == (None, {"a", "c"})
  {
    DiamondMember("a", "@c");
    assert ["@c"][1..] == [] && "@c"[1..] == "c";
    var ac: set<string> := {"a", "c"};
    assert {"a"} + {"c"} == ac;
    DiamondBaseAsWritten(ac);
  }

  /** Walking b with c already checked reports c as circular. */
  lemma DiamondRightAsWritten(checked: set<string>)
    requires "c" in checked
    ensures WalkAsWritten(Diamond, "b", checked).0 == Some(CircularGroups("c", "b"))
  {
    DiamondMember("b", "@c");
    assert "@c"[1..] == "c";
  }

  lemma DiamondBaseAsWritten(checked: set<string>)
    ensures WalkAsWritten(Diamond, "c", checked) == (None, checked)
  {
    DiamondMember("c", "u");
    assert ["u"][1..] == [] && !IsGroupRef("u");
    assert MembersAsWritten(Diamond, "c", [], checked) == (None, checked);
    assert MembersAsWritten(Diamond, "c", ["u"], checked) == (None, checked);
  }

  /** The corrected walk accepts the diamond. */
  lemma DiamondAccepted()
    ensures WalkVerdict(Diamond, "g", {}) == None
  {
    DiamondTop();
    assert ["@a", "@b"][1..] == ["@b"] && ["@b"][1..] == [] && "@a"[1..] == "a" && "@b"[1..] == "b";
    var none: set<string> := {};
    assert none + {"a"} == {"a"} && none + {"b"} == {"b"};
    DiamondSideAccepted("a");
    DiamondSideAccepted("b");
  }

  lemma DiamondSideAccepted(x: string)
    requires x == "a" || x == "b"
    ensures WalkVerdict(Diamond, x, {x}) == None
  {
    DiamondMember(x, "@c");
    assert ["@c"][1..] == [] && "@c"[1..] == "c" && IsGroupRef("@c");
    assert "c" !in {x};
    DiamondBaseAccepted({x} + {"c"});
    assert MembersVerdict(Diamond, x, [], {x}) == None;
    assert MembersVerdict(Diamond, x, ["@c"], {x}) == None;
  }

  lemma DiamondBaseAccepted(checked: set<string>)
    ensures WalkVerdict(Diamond, "c", checked) == None
  {
    DiamondMember("c", "u");
    assert ["u"][1..] == [] && !IsGroupRef("u");
    assert MembersVerdict(Diamond, "c", [], checked) == None;
    assert MembersVerdict(Diamond, "c", ["u"], checked) == None;
  }

  // ---------------------------------------------------------------------
  // Validation of a rule file (svn_repos_authz_read)
  // ---------------------------------------------------------------------

  /** A section whose name begins with "groups" is checked as group definitions. */
  predicate IsGroupSection(s: string)
  {
    "groups" <= s
  }

  /** A rule naming a group needs the group to be defined. */
  predicate RuleValid(cfg: Config, name: string)
  {
    IsGroupRef(name) ==> Defined(cfg, name[1..])
  }

  predicate SectionValid(cfg: Config, s: string)
    requires s in cfg
  {
    if IsGroupSection(s) then forall g :: g in cfg[s] ==> WalkVerdict(cfg, g, {}) == None
    else forall n :: n in cfg[s] ==> RuleValid(cfg, n)
  }

  /** The rule files svn_repos_authz_read accepts. */
  predicate ValidConfig(cfg: Config)
  {
    forall s :: s in cfg ==> SectionValid(cfg, s)
  }

  /** authz_validate_rule: a rule that names an undefined group is an error naming the rule. */
  function RuleError(cfg: Config, name: string): (r: Option<AuthzError>)
    ensures r.None? <==> RuleValid(cfg, name)
    ensures r.Some? ==> r.value == UndefinedGroup(name) && IsGroupRef(name)
  {
    if |name| > 0 && name[0] == '@' && GetValue(cfg, "groups", name[1..]).None? then
      Some(UndefinedGroup(name))
    else None
  }

  /** authz_validate_group: the walk of one group, with a fresh checked set. */
  method ValidateGroup(cfg: Config, name: string) returns (err: Option<AuthzError>)
    ensures err == WalkVerdict(cfg, name, {})
  {
    var checked := new GroupSet();
    err := GroupWalk(cfg, name, checked);
  }

  /** authz_validate_section: every option of the section passes, or the first failure in enumeration order. */
  method ValidateSection(cfg: Config, s: string) returns (err: Option<AuthzError>)
    requires s in cfg
    ensures err.None? <==> SectionValid(cfg, s)
  {
    var todo := cfg[s].Keys;
    while todo != {}
      invariant todo <= cfg[s].Keys
      invariant IsGroupSection(s) ==> forall n :: n in cfg[s] && n !in todo ==> WalkVerdict(cfg, n, {}) == None
      invariant !IsGroupSection(s) ==> forall n :: n in cfg[s] && n !in todo ==> RuleValid(cfg, n)
      decreases |todo|
    {
      var n :| n in todo;
      todo := todo - {n};
      if |s| >= 6 && s[..6] == "groups" {
        err := ValidateGroup(cfg, n);
      } else {
        err := RuleError(cfg, n);
      }
      if err.Some? {
        return;
      }
    }
    return None;
  }

  /** svn_repos_authz_read after the file is parsed: the configuration is accepted exactly when it is valid. */
  method AuthzRead(cfg: Config) returns (err: Option<AuthzError>)
    ensures err.None? <==> ValidConfig(cfg)
  {
    var todo := cfg.Keys;
    while todo != {}
      invariant todo <= cfg.Keys
      invariant forall s :: s in cfg && s !in todo ==> SectionValid(cfg, s)
      decreases |todo|
    {
      var s :| s in todo;
      todo := todo - {s};
      err := ValidateSection(cfg, s);
      if err.Some? {
        return;
      }
    }
    return None;
  }

  /**
   * What validity means: every group rule outside the group sections names
   * a defined group, and every group listed in a group section is sound.
   */
  lemma ValidConfigMeaning(cfg: Config)
    ensures ValidConfig(cfg) <==>
      (forall s, n :: s in cfg && !IsGroupSection(s) && n in cfg[s] ==> RuleValid(cfg, n)) &&
      (forall s, g :: s in cfg && IsGroupSection(s) && g in cfg[s] ==> GroupSound(cfg, g))
  {
    forall g ensures WalkVerdict(cfg, g, {}) == None <==> GroupSound(cfg, g) {
      GroupWalkExact(cfg, g);
    }
  }

  /**
   * The walk as written starts from more checked groups than the corrected
   * one and never takes one out again, so whatever it accepts the corrected
   * walk accepts too.
   */
  lemma {:induction false} AsWrittenAcceptedBridge(cfg: Config, g: string, c: set<string>, c': set<string>)
    requires c <= c' && WalkAsWritten(cfg, g, c').0.None?
    ensures WalkVerdict(cfg, g, c) == None
    decreases |Groups(cfg).Keys - c'|, Rank(cfg, g), 0
  {
    MembersAcceptedBridge(cfg, g, Members(cfg, g), c, c');
  }

  lemma {:induction false} MembersAcceptedBridge(cfg: Config, g: string, ms: seq<string>, c: set<string>, c': set<string>)
    requires c <= c' && MembersAsWritten(cfg, g, ms, c').0.None?
    ensures MembersVerdict(cfg, g, ms, c) == None
    decreases |Groups(cfg).Keys - c'|, 1, |ms|
  {
    if |ms| > 0 {
      if !IsGroupRef(ms[0]) {
        MembersAcceptedBridge(cfg, g, ms[1..], c, c');
      } else {
        var h := ms[0][1..];
        AddCard(Groups(cfg).Keys, c', h);
        var w := WalkAsWritten(cfg, h, c' + {h});
        AsWrittenAcceptedBridge(cfg, h, c + {h}, c' + {h});
        SubsetCard(Groups(cfg).Keys - w.1, Groups(cfg).Keys - (c' + {h}));
        MembersAcceptedBridge(cfg, g, ms[1..], c, w.1);
      }
    }
  }

  /** The rule files svn_repos_authz_read accepts as written, with the walk that never clears checked. */
  predicate ValidAsWritten(cfg: Config)
  {
    forall s :: s in cfg ==>
      if IsGroupSection(s) then forall g :: g in cfg[s] ==> WalkAsWritten(cfg, g, {}).0.None?
      else forall n :: n in cfg[s] ==> RuleValid(cfg, n)
  }

  /**
   * Every rule file the reader as written accepts is valid, so what is
   * proved of valid files holds for it; the diamond shows the converse fails.
   */
  lemma AsWrittenAcceptedValid(cfg: Config)
    requires ValidAsWritten(cfg)
    ensures ValidConfig(cfg)
  {
    forall s, g | s in cfg && IsGroupSection(s) && g in cfg[s] ensures WalkVerdict(cfg, g, {}) == None {
      AsWrittenAcceptedBridge(cfg, g, {}, {});
    }
  }

  /** A group rule may be looked up safely: its group and all groups below it are defined and acyclic. */
  ghost predicate RefsSound(cfg: Config, s: string)
  {
    forall n :: n in Lines(cfg, s) && IsGroupRef(n) ==> WalkVerdict(cfg, n[1..], {n[1..]}) == None
  }

  /** In a valid configuration every rule outside the group sections may be looked up safely. */
  lemma ValidConfigRefsSound(cfg: Config, s: string)
    requires ValidConfig(cfg) && s in cfg && !IsGroupSection(s)
    ensures RefsSound(cfg, s)
  {
    forall n | n in Lines(cfg, s) && IsGroupRef(n) ensures WalkVerdict(cfg, n[1..], {n[1..]}) == None {
      assert RuleValid(cfg, n);
      assert "groups" in cfg && IsGroupSection("groups") && n[1..] in cfg["groups"];
      WalkFromSelf(cfg, n[1..]);
    }
  }
}
