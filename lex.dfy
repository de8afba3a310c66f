/**
 * Byte-wise string order (the order of strcmp and of
 * svn_sort_compare_items_lexically on C strings) and the merge of two
 * name lists sorted in that order.
 */
module Lex {
  /** strcmp(a, b) < 0: the first differing character decides, a proper prefix is smaller. */
  predicate StrLt(a: string, b: string)
    decreases |a|
  {
    if |a| == 0 then |b| > 0
    else if |b| == 0 then false
    else if a[0] == b[0] then StrLt(a[1..], b[1..])
    else a[0] < b[0]
  }

  lemma {:induction false} StrLtIrreflexive(a: string)
    ensures !StrLt(a, a)
    decreases |a|
  {
    if |a| > 0 { StrLtIrreflexive(a[1..]); }
  }

  lemma {:induction false} StrLtAsymmetric(a: string, b: string)
    requires StrLt(a, b)
    ensures !StrLt(b, a)
    decreases |a|
  {
    if |a| > 0 && |b| > 0 && a[0] == b[0] { StrLtAsymmetric(a[1..], b[1..]); }
  }

  lemma {:induction false} StrLtTransitive(a: string, b: string, c: string)
    requires StrLt(a, b) && StrLt(b, c)
    ensures StrLt(a, c)
    decreases |a|
  {
    if |a| > 0 && |b| > 0 && |c| > 0 && a[0] == b[0] && b[0] == c[0] {
      StrLtTransitive(a[1..], b[1..], c[1..]);
    }
  }

  /** strcmp returns 0 exactly on equal strings, so any two distinct strings are ordered. */
  lemma {:induction false} StrLtTotal(a: string, b: string)
    requires a != b
    ensures StrLt(a, b) || StrLt(b, a)
    decreases |a|
  {
    if |a| > 0 && |b| > 0 && a[0] == b[0] {
      assert a == [a[0]] + a[1..] && b == [b[0]] + b[1..];
      StrLtTotal(a[1..], b[1..]);
    }
  }

  /** Strictly ascending in strcmp order, hence free of duplicates. */
  predicate StrictlySorted(s: seq<string>)
  {
    forall i, j :: 0 <= i < j < |s| ==> StrLt(s[i], s[j])
  }

  lemma StrictlySortedDistinct(s: seq<string>, i: int, j: int)
    requires StrictlySorted(s) && 0 <= i < |s| && 0 <= j < |s| && i != j
    ensures s[i] != s[j]
  {
    if i < j { StrLtIrreflexive(s[i]); } else { StrLtIrreflexive(s[j]); }
  }

  /**
   * The names visited by a two-pointer walk over two lists sorted by strcmp:
   * a name only in the second list, a name only in the first, or a name in
   * both, whichever is smallest, one step at a time.
   */
  function MergeNames(a: seq<string>, b: seq<string>): seq<string>
    decreases |a| + |b|
  {
    if |a| == 0 then b
    else if |b| == 0 then a
    else if StrLt(b[0], a[0]) then [b[0]] + MergeNames(a, b[1..])
    else if StrLt(a[0], b[0]) then [a[0]] + MergeNames(a[1..], b)
    else [a[0]] + MergeNames(a[1..], b[1..])
  }

  /** The elements of a list, as a set. */
  function Elems(s: seq<string>): set<string>
  {
    set x | x in s
  }

  lemma ElemsEmpty(s: seq<string>)
    ensures s == [] <==> Elems(s) == {}
  {
    if s != [] { assert s[0] in Elems(s); }
  }

  lemma ElemsCons(h: string, s: seq<string>)
    ensures Elems([h] + s) == {h} + Elems(s)
  {
    assert forall x :: x in [h] + s <==> x == h || x in s;
  }

  /** Every element of s is above h in strcmp order. */
  predicate AllAbove(h: string, s: seq<string>)
  {
    forall x :: x in s ==> StrLt(h, x)
  }

  lemma SortedHead(s: seq<string>)
    requires StrictlySorted(s) && |s| > 0
    ensures StrictlySorted(s[1..]) && AllAbove(s[0], s[1..])
  {
    forall x | x in s[1..] ensures StrLt(s[0], x) {
      var k :| 0 <= k < |s[1..]| && s[1..][k] == x;
      assert s[k + 1] == x;
    }
  }

  lemma AboveBelow(h: string, s: seq<string>)
    requires StrictlySorted(s) && |s| > 0 && StrLt(h, s[0])
    ensures AllAbove(h, s)
  {
    SortedHead(s);
    forall x | x in s ensures StrLt(h, x) {
      if x != s[0] { StrLtTransitive(h, s[0], x); }
    }
  }

  /** One step of the walk MergeNames describes. */
  lemma MergeNamesUnfold(a: seq<string>, b: seq<string>)
    requires |a| > 0 || |b| > 0
    ensures |a| == 0 ==> MergeNames(a, b) == [b[0]] + MergeNames(a, b[1..])
    ensures |a| > 0 && |b| == 0 ==> MergeNames(a, b) == [a[0]] + MergeNames(a[1..], b)
    ensures |a| > 0 && |b| > 0 && StrLt(b[0], a[0]) ==> MergeNames(a, b) == [b[0]] + MergeNames(a, b[1..])
    ensures |a| > 0 && |b| > 0 && !StrLt(b[0], a[0]) && StrLt(a[0], b[0]) ==> MergeNames(a, b) == [a[0]] + MergeNames(a[1..], b)
    ensures |a| > 0 && |b| > 0 && !StrLt(b[0], a[0]) && !StrLt(a[0], b[0]) ==> MergeNames(a, b) == [a[0]] + MergeNames(a[1..], b[1..])
  {
    if |a| == 0 {
      assert b == [b[0]] + b[1..];
    }
  }

  lemma {:induction false} MergeNamesElems(a: seq<string>, b: seq<string>)
    ensures Elems(MergeNames(a, b)) == Elems(a) + Elems(b)
    decreases |a| + |b|
  {
    if |a| == 0 || |b| == 0 {
    } else {
      assert a == [a[0]] + a[1..] && b == [b[0]] + b[1..];
      ElemsCons(a[0], a[1..]);
      ElemsCons(b[0], b[1..]);
      if StrLt(b[0], a[0]) {
        MergeNamesElems(a, b[1..]);
        ElemsCons(b[0], MergeNames(a, b[1..]));
      } else if StrLt(a[0], b[0]) {
        MergeNamesElems(a[1..], b);
        ElemsCons(a[0], MergeNames(a[1..], b));
      } else {
        if a[0] != b[0] { StrLtTotal(a[0], b[0]); }
        MergeNamesElems(a[1..], b[1..]);
        ElemsCons(a[0], MergeNames(a[1..], b[1..]));
      }
    }
  }

  lemma AllAboveOf(h: string, m: seq<string>, a: seq<string>, b: seq<string>)
    requires Elems(m) == Elems(a) + Elems(b) && AllAbove(h, a) && AllAbove(h, b)
    ensures AllAbove(h, m)
  {
    forall x | x in m ensures StrLt(h, x) {
      assert x in Elems(m);
    }
  }

  lemma ConsSorted(h: string, s: seq<string>)
    requires StrictlySorted(s) && AllAbove(h, s)
    ensures StrictlySorted([h] + s)
  {
    var r := [h] + s;
    forall i, j | 0 <= i < j < |r| ensures StrLt(r[i], r[j]) {
      if i == 0 { assert r[j] == s[j - 1] && s[j - 1] in s; }
      else { assert r[i] == s[i - 1] && r[j] == s[j - 1]; }
    }
  }

  /**
   * Merging two strictly sorted name lists visits every name of either list
   * exactly once (the result has no duplicates) and in ascending order.
   */
  lemma {:induction false} MergeNamesSortedUnion(a: seq<string>, b: seq<string>)
    requires StrictlySorted(a) && StrictlySorted(b)
    ensures StrictlySorted(MergeNames(a, b))
    ensures Elems(MergeNames(a, b)) == Elems(a) + Elems(b)
    decreases |a| + |b|
  {
    MergeNamesElems(a, b);
    if |a| == 0 || |b| == 0 {
    } else {
      SortedHead(a);
      SortedHead(b);
      if StrLt(b[0], a[0]) {
        MergeNamesSortedUnion(a, b[1..]);
        MergeNamesElems(a, b[1..]);
        AboveBelow(b[0], a);
        AllAboveOf(b[0], MergeNames(a, b[1..]), a, b[1..]);
        ConsSorted(b[0], MergeNames(a, b[1..]));
      } else if StrLt(a[0], b[0]) {
        MergeNamesSortedUnion(a[1..], b);
        MergeNamesElems(a[1..], b);
        AboveBelow(a[0], b);
        AllAboveOf(a[0], MergeNames(a[1..], b), a[1..], b);
        ConsSorted(a[0], MergeNames(a[1..], b));
      } else {
        if a[0] != b[0] { StrLtTotal(a[0], b[0]); }
        MergeNamesSortedUnion(a[1..], b[1..]);
        MergeNamesElems(a[1..], b[1..]);
        AllAboveOf(a[0], MergeNames(a[1..], b[1..]), a[1..], b[1..]);
        ConsSorted(a[0], MergeNames(a[1..], b[1..]));
      }
    }
  }

  /** m is the strcmp-least element of s. */
  predicate IsLeast(m: string, s: set<string>)
  {
    m in s && forall x :: x in s && x != m ==> StrLt(m, x)
  }

  /** A finite non-empty set of strings has a strcmp-least element. */
  lemma {:induction false} HasLeast(s: set<string>)
    requires s != {}
    ensures exists m :: IsLeast(m, s)
    decreases |s|
  {
    var y :| y in s;
    if s == {y} {
      assert IsLeast(y, s);
    } else {
      HasLeast(s - {y});
      var m :| IsLeast(m, s - {y});
      if StrLt(y, m) {
        forall x | x in s && x != y ensures StrLt(y, x) {
          if x != m { StrLtTransitive(y, m, x); }
        }
        assert IsLeast(y, s);
      } else {
        StrLtTotal(y, m);
        assert IsLeast(m, s);
      }
    }
  }

  /** Two strictly sorted lists with the same elements are the same list. */
  lemma {:induction false} SortedUnique(a: seq<string>, b: seq<string>)
    requires StrictlySorted(a) && StrictlySorted(b)
    requires Elems(a) == Elems(b)
    ensures a == b
    decreases |a|
  {
    if |a| == 0 {
      ElemsEmpty(a);
      ElemsEmpty(b);
    } else {
      assert a[0] in a;
      assert a[0] in Elems(b);
      assert b != [];
      assert b[0] in b;
      assert b[0] in Elems(a);
      if a[0] != b[0] {
        var i :| 0 <= i < |a| && a[i] == b[0];
        var j :| 0 <= j < |b| && b[j] == a[0];
        assert i > 0 && j > 0;
        StrLtAsymmetric(a[0], a[i]);
      }
      SortedHead(a);
      SortedHead(b);
      assert Elems(a[1..]) == Elems(b[1..]) by {
        forall x | x in a[1..] ensures x in b[1..] {
          var i :| 0 <= i < |a[1..]| && a[1..][i] == x;
          StrictlySortedDistinct(a, 0, i + 1);
          assert x in a;
          assert x in Elems(b);
          var j :| 0 <= j < |b| && b[j] == x;
          assert j != 0;
          assert b[1..][j - 1] == x;
        }
        forall x | x in b[1..] ensures x in a[1..] {
          var j :| 0 <= j < |b[1..]| && b[1..][j] == x;
          StrictlySortedDistinct(b, 0, j + 1);
          assert x in b;
          assert x in Elems(a);
          var i :| 0 <= i < |a| && a[i] == x;
          assert i != 0;
          assert a[1..][i - 1] == x;
        }
      }
      SortedUnique(a[1..], b[1..]);
      assert a == [a[0]] + a[1..] && b == [b[0]] + b[1..];
    }
  }
}
