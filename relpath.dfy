/**
 * Working-copy relative paths ("relpaths") as sequences of path components:
 * "" is the empty sequence, "A/B" is ["A", "B"]. Component sequences make
 * the canonical-form rules of svn_relpath_* hold by construction.
 */
module RelPath {
  import opened Wrappers
  import opened Lex

  type Path = seq<string>

  /** relpath_depth: the number of components. */
  function Depth(p: Path): nat { |p| }

  /** svn_relpath_join. */
  function Join(base: Path, component: Path): Path { base + component }

  /** svn_relpath_dirname; the dirname of the root is the root. */
  function Dirname(p: Path): (r: Path)
    ensures |p| > 0 ==> Depth(r) == Depth(p) - 1 && Join(r, [p[|p| - 1]]) == p
    ensures |p| == 0 ==> r == []
  {
    if |p| == 0 then [] else p[..|p| - 1]
  }

  /** a is p or one of p's ancestors (svn_relpath_skip_ancestor returns non-NULL). */
  predicate IsAncestor(a: Path, p: Path)
  {
    |a| <= |p| && p[..|a|] == a
  }

  /** a is a proper ancestor of p. */
  predicate IsStrictAncestor(a: Path, p: Path)
  {
    IsAncestor(a, p) && |a| < |p|
  }

  /** svn_relpath_skip_ancestor: the part of p below a, or None when a is not an ancestor of p. */
  function SkipAncestor(a: Path, p: Path): (r: Option<Path>)
    ensures r.Some? <==> IsAncestor(a, p)
    ensures r.Some? ==> Join(a, r.value) == p
  {
    if IsAncestor(a, p) then Some(p[|a|..]) else None
  }

  /** Joining and skipping the same ancestor are inverse. */
  lemma SkipJoin(a: Path, r: Path)
    ensures SkipAncestor(a, Join(a, r)) == Some(r)
  {
    assert (a + r)[..|a|] == a;
    assert (a + r)[|a|..] == r;
  }

  lemma AncestorTransitive(a: Path, b: Path, c: Path)
    requires IsAncestor(a, b) && IsAncestor(b, c)
    ensures IsAncestor(a, c)
  {
    assert c[..|a|] == c[..|b|][..|a|];
  }

  /** The ancestor of p at depth d: what repeated svn_relpath_dirname reaches. */
  function AncestorAtDepth(p: Path, d: nat): (r: Path)
    ensures IsAncestor(r, p)
    ensures Depth(r) == if d < Depth(p) then d else Depth(p)
  {
    if d < |p| then p[..d] else p
  }

  lemma DirnameOfAncestorAtDepth(p: Path, d: nat)
    requires d < |p|
    ensures Dirname(AncestorAtDepth(p, d + 1)) == AncestorAtDepth(p, d)
  {
    assert p[..d + 1][..d] == p[..d];
  }

  /** svn_relpath_get_longest_ancestor: the longest common prefix of a and b. */
  function LongestAncestor(a: Path, b: Path): (r: Path)
    ensures IsAncestor(r, a) && IsAncestor(r, b)
    decreases |a|
  {
    if |a| == 0 || |b| == 0 || a[0] != b[0] then []
    else [a[0]] + LongestAncestor(a[1..], b[1..])
  }

  /** Every common ancestor of a and b is an ancestor of their longest common ancestor. */
  lemma {:induction false} LongestAncestorIsLongest(a: Path, b: Path, c: Path)
    requires IsAncestor(c, a) && IsAncestor(c, b)
    ensures IsAncestor(c, LongestAncestor(a, b))
    decreases |a|
  {
    if |c| > 0 {
      assert a[0] == c[0] == b[0];
      assert IsAncestor(c[1..], a[1..]) && IsAncestor(c[1..], b[1..]) by {
        assert a[1..][..|c| - 1] == a[..|c|][1..];
        assert b[1..][..|c| - 1] == b[..|c|][1..];
      }
      LongestAncestorIsLongest(a[1..], b[1..], c[1..]);
      var r := LongestAncestor(a[1..], b[1..]);
      assert LongestAncestor(a, b) == [a[0]] + r;
      assert ([a[0]] + r)[..|c|] == [c[0]] + r[..|c| - 1];
      assert c == [c[0]] + c[1..];
    }
  }

  /**
   * svn_path_compare_paths order: components compared with strcmp, a proper
   * ancestor first. Because that routine sorts '/' before every other byte,
   * it coincides with the lexicographic order on component sequences.
   */
  predicate PathLt(a: Path, b: Path)
    decreases |a|
  {
    if |a| == 0 then |b| > 0
    else if |b| == 0 then false
    else if a[0] == b[0] then PathLt(a[1..], b[1..])
    else StrLt(a[0], b[0])
  }

  lemma {:induction false} PathLtIrreflexive(a: Path)
    ensures !PathLt(a, a)
    decreases |a|
  {
    if |a| > 0 { PathLtIrreflexive(a[1..]); }
  }

  lemma {:induction false} PathLtTransitive(a: Path, b: Path, c: Path)
    requires PathLt(a, b) && PathLt(b, c)
    ensures PathLt(a, c)
    decreases |a|
  {
    if |a| > 0 && |b| > 0 && |c| > 0 {
      if a[0] == b[0] && b[0] == c[0] {
        PathLtTransitive(a[1..], b[1..], c[1..]);
      } else if a[0] != b[0] && b[0] != c[0] {
        StrLtTransitive(a[0], b[0], c[0]);
        if a[0] == c[0] { StrLtAsymmetric(a[0], b[0]); }
      }
    }
  }

  lemma {:induction false} PathLtTotal(a: Path, b: Path)
    requires a != b
    ensures PathLt(a, b) || PathLt(b, a)
    decreases |a|
  {
    if |a| > 0 && |b| > 0 {
      assert a == [a[0]] + a[1..] && b == [b[0]] + b[1..];
      if a[0] == b[0] { PathLtTotal(a[1..], b[1..]); } else { StrLtTotal(a[0], b[0]); }
    }
  }

  /** A proper ancestor sorts before its descendants. */
  lemma {:induction false} AncestorSortsFirst(a: Path, p: Path)
    requires IsStrictAncestor(a, p)
    ensures PathLt(a, p)
    decreases |a|
  {
    if |a| > 0 {
      assert a[0] == p[0];
      assert IsStrictAncestor(a[1..], p[1..]) by { assert p[1..][..|a| - 1] == p[..|a|][1..]; }
      AncestorSortsFirst(a[1..], p[1..]);
    }
  }

  /** m is the PathLt-greatest element of s. */
  predicate IsGreatest(m: Path, s: set<Path>)
  {
    m in s && forall x :: x in s && x != m ==> PathLt(x, m)
  }

  /** A finite non-empty set of paths has a PathLt-greatest element. */
  lemma {:induction false} HasGreatest(s: set<Path>)
    requires s != {}
    ensures exists m :: IsGreatest(m, s)
    decreases |s|
  {
    var y :| y in s;
    if s == {y} {
      assert IsGreatest(y, s);
    } else {
      HasGreatest(s - {y});
      var m :| IsGreatest(m, s - {y});
      if PathLt(m, y) {
        forall x | x in s && x != y ensures PathLt(x, y) {
          if x != m { PathLtTransitive(x, m, y); }
        }
        assert IsGreatest(y, s);
      } else {
        PathLtTotal(y, m);
        assert IsGreatest(m, s);
      }
    }
  }
}
