/**
 Sorting by a caller-supplied order, and the facts the other modules need about
 sorted sequences.
 */
module Sorting {

  ghost predicate StrictlySorted<T(!new)>(lt: (T, T) -> bool, s: seq<T>) {
    forall i, j :: 0 <= i < j < |s| ==> lt(s[i], s[j])
  }

  ghost predicate Asymmetric<T(!new)>(lt: (T, T) -> bool) {
    forall x, y :: lt(x, y) ==> !lt(y, x)
  }

  ghost predicate SameElements<T(!new)>(a: seq<T>, b: seq<T>) {
    forall x :: x in a <==> x in b
  }

  /** A strictly sorted sequence is determined by its elements. */
  lemma {:induction false} StrictlySortedIsUnique<T(!new)>(lt: (T, T) -> bool, a: seq<T>, b: seq<T>)
    requires Asymmetric(lt)
    requires StrictlySorted(lt, a) && StrictlySorted(lt, b)
    requires SameElements(a, b)
    ensures a == b
  {
    assert b != [] ==> b[0] in b;
    if a == [] {
    } else {
      assert a[0] in b;
      var x, y := a[|a| - 1], b[|b| - 1];
      SameLast(lt, a, b);
      var a', b' := a[..|a| - 1], b[..|b| - 1];
      forall z
        ensures z in a' <==> z in b'
      {
        LastIsNew(lt, a);
        LastIsNew(lt, b);
        assert z in a <==> z in a' || z == x;
        assert z in b <==> z in b' || z == y;
      }
      StrictlySortedIsUnique(lt, a', b');
      assert a == a' + [x] && b == b' + [y];
    }
  }

  lemma LastIsNew<T(!new)>(lt: (T, T) -> bool, a: seq<T>)
    requires Asymmetric(lt) && StrictlySorted(lt, a) && a != []
    ensures a[|a| - 1] !in a[..|a| - 1]
  {
    var n := |a| - 1;
    forall i | 0 <= i < n
      ensures a[i] != a[n]
    {
      assert lt(a[i], a[n]);
    }
  }

  lemma SameLast<T(!new)>(lt: (T, T) -> bool, a: seq<T>, b: seq<T>)
    requires Asymmetric(lt)
    requires StrictlySorted(lt, a) && StrictlySorted(lt, b)
    requires SameElements(a, b) && a != [] && b != []
    ensures a[|a| - 1] == b[|b| - 1]
  {
    var x, y := a[|a| - 1], b[|b| - 1];
    assert x in a && y in b;
    var i :| 0 <= i < |b| && b[i] == x;
    var j :| 0 <= j < |a| && a[j] == y;
    assert i == |b| - 1 || lt(x, y);
    assert j == |a| - 1 || lt(y, x);
  }

  ghost predicate Sorted<T(!new)>(le: (T, T) -> bool, s: seq<T>) {
    forall i, j :: 0 <= i < j < |s| ==> le(s[i], s[j])
  }

  ghost predicate TotalPreorder<T(!new)>(le: (T, T) -> bool) {
    && (forall x, y :: le(x, y) || le(y, x))
    && (forall x, y, z :: le(x, y) && le(y, z) ==> le(x, z))
  }

  /** Insert `x` after the elements not above it. */
  function InsertBy<T>(le: (T, T) -> bool, x: T, s: seq<T>): (r: seq<T>)
    ensures multiset(r) == multiset(s) + multiset{x}
  {
    if s == [] || !le(s[0], x) then
      [x] + s
    else
      assert s == [s[0]] + s[1..];
      [s[0]] + InsertBy(le, x, s[1..])
  }

  /** A stable sort. */
  function SortBy<T>(le: (T, T) -> bool, s: seq<T>): (r: seq<T>)
    ensures multiset(r) == multiset(s)
  {
    if s == [] then
      []
    else
      var n := |s| - 1;
      assert s == s[..n] + [s[n]];
      InsertBy(le, s[n], SortBy(le, s[..n]))
  }

  lemma MultisetMembers<T>(a: seq<T>, b: seq<T>)
    requires multiset(a) == multiset(b)
    ensures |a| == |b|
    ensures forall x :: x in a <==> x in b
  {
    assert |multiset(a)| == |a| && |multiset(b)| == |b|;
    forall x
      ensures x in a <==> x in b
    {
      assert x in a <==> x in multiset(a);
      assert x in b <==> x in multiset(b);
    }
  }

  lemma {:induction false} InsertKeepsSorted<T(!new)>(le: (T, T) -> bool, x: T, s: seq<T>)
    requires TotalPreorder(le) && Sorted(le, s)
    ensures Sorted(le, InsertBy(le, x, s))
  {
    var r := InsertBy(le, x, s);
    if s == [] {
    } else if !le(s[0], x) {
      forall j | 0 < j < |r|
        ensures le(r[0], r[j])
      {
        assert r[j] == s[j - 1];
        assert le(x, s[0]);
        assert j == 1 || le(s[0], s[j - 1]);
      }
    } else {
      var tail := InsertBy(le, x, s[1..]);
      InsertKeepsSorted(le, x, s[1..]);
      assert multiset(tail) == multiset(s[1..] + [x]);
      MultisetMembers(tail, s[1..] + [x]);
      forall j | 0 < j < |r|
        ensures le(r[0], r[j])
      {
        assert r[j] == tail[j - 1] && tail[j - 1] in tail;
      }
      assert r[1..] == tail;
    }
  }

  lemma {:induction false} SortIsSorted<T(!new)>(le: (T, T) -> bool, s: seq<T>)
    requires TotalPreorder(le)
    ensures Sorted(le, SortBy(le, s))
  {
    if s != [] {
      var n := |s| - 1;
      SortIsSorted(le, s[..n]);
      InsertKeepsSorted(le, s[n], SortBy(le, s[..n]));
    }
  }

  ghost predicate Distinct<T(!new)>(s: seq<T>) {
    forall i, j :: 0 <= i < j < |s| ==> s[i] != s[j]
  }

  lemma {:induction false} DistinctCount<T(!new)>(s: seq<T>, x: T)
    requires Distinct(s)
    ensures multiset(s)[x] <= 1
  {
    if s != [] {
      var n := |s| - 1;
      assert s == s[..n] + [s[n]];
      DistinctCount(s[..n], x);
      assert s[n] !in s[..n];
    }
  }

  /** Reordering keeps elements distinct. */
  lemma DistinctUnderPermutation<T(!new)>(a: seq<T>, b: seq<T>)
    requires Distinct(a) && multiset(a) == multiset(b)
    ensures Distinct(b)
  {
    forall i, j | 0 <= i < j < |b|
      ensures b[i] != b[j]
    {
      DistinctCount(a, b[j]);
      assert b == b[..j] + [b[j]] + b[j + 1..];
      assert multiset(b) == multiset(b[..j]) + multiset{b[j]} + multiset(b[j + 1..]);
      assert b[..j][i] == b[i];
    }
  }
}
