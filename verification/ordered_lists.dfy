/**
 * Lists used as ordered sets: the `if (!list.contains(x)) list.add(x)` idiom of
 * java.util.ArrayList, applied to each element of a sequence in turn.
 */
module OrderedLists {

  /** No element occurs twice. */
  ghost predicate NoDup<T>(s: seq<T>) {
    forall i, j :: 0 <= i < j < |s| ==> s[i] != s[j]
  }

  /** Appends to acc, in order, each element of xs that the list does not yet contain. */
  function AppendNew<T(==)>(acc: seq<T>, xs: seq<T>): (r: seq<T>)
    ensures |acc| <= |r| <= |acc| + |xs|
    decreases |xs|
  {
    if xs == [] then acc
    else AppendNew(if xs[0] in acc then acc else acc + [xs[0]], xs[1..])
  }

  /** Position of the first occurrence of x in xs. */
  function FirstIndex<T(==)>(xs: seq<T>, x: T): (k: nat)
    requires x in xs
    ensures k < |xs| && xs[k] == x && x !in xs[..k]
  {
    if xs[0] == x then 0 else 1 + FirstIndex(xs[1..], x)
  }

  /** The list only grows at its end, every new element comes from xs and was not in acc,
      and every element of xs ends up in the list. */
  lemma {:induction false} AppendNewExtends<T>(acc: seq<T>, xs: seq<T>)
    ensures acc <= AppendNew(acc, xs)
    ensures forall i :: 0 <= i < |AppendNew(acc, xs)| ==> AppendNew(acc, xs)[i] in acc || AppendNew(acc, xs)[i] in xs
    ensures forall x :: x in xs ==> x in AppendNew(acc, xs)
    ensures forall i :: |acc| <= i < |AppendNew(acc, xs)| ==> AppendNew(acc, xs)[i] !in acc
    decreases |xs|
  {
    if xs != [] {
      var x0 := xs[0];
      var acc' := if x0 in acc then acc else acc + [x0];
      var r := AppendNew(acc', xs[1..]);
      assert r == AppendNew(acc, xs);
      AppendNewExtends(acc', xs[1..]);
      forall x | x in xs ensures x in r {
        if x == x0 {
          if x0 in acc {
            var k :| 0 <= k < |acc| && acc[k] == x0;
            assert r[k] == x0;
          } else {
            assert r[|acc|] == acc'[|acc|] == x0;
          }
        } else {
          assert x in xs[1..];
        }
      }
      forall i | 0 <= i < |r| ensures r[i] in acc || r[i] in xs {
        if r[i] in xs[1..] {
          assert r[i] in xs;
        } else if r[i] !in acc {
          assert r[i] in acc';
          assert r[i] == x0;
        }
      }
      forall i | |acc| <= i < |r| ensures r[i] !in acc {
        if i < |acc'| {
          assert acc' == acc + [x0] && r[i] == acc'[i] == x0;
        }
      }
    }
  }

  /** Membership in the result, one element at a time. */
  lemma AppendNewMember<T>(acc: seq<T>, xs: seq<T>, x: T)
    ensures x in AppendNew(acc, xs) <==> x in acc || x in xs
  {
    AppendNewExtends(acc, xs);
    var r := AppendNew(acc, xs);
    if x in r {
      var i :| 0 <= i < |r| && r[i] == x;
    }
  }

  /** A duplicate-free list stays duplicate-free. */
  lemma {:induction false} AppendNewNoDup<T>(acc: seq<T>, xs: seq<T>)
    requires NoDup(acc)
    ensures NoDup(AppendNew(acc, xs))
    decreases |xs|
  {
    if xs != [] {
      var acc' := if xs[0] in acc then acc else acc + [xs[0]];
      AppendNewNoDup(acc', xs[1..]);
    }
  }

  /** Scanning a + b is scanning a, then b. */
  lemma {:induction false} AppendNewConcat<T>(acc: seq<T>, a: seq<T>, b: seq<T>)
    ensures AppendNew(acc, a + b) == AppendNew(AppendNew(acc, a), b)
    decreases |a|
  {
    if a == [] {
      assert a + b == b;
    } else {
      var acc' := if a[0] in acc then acc else acc + [a[0]];
      assert (a + b)[0] == a[0] && (a + b)[1..] == a[1..] + b;
      AppendNewConcat(acc', a[1..], b);
    }
  }

  /** Scanning one more element: it is appended exactly when the list does not hold it yet. */
  lemma AppendNewSnoc<T>(acc: seq<T>, xs: seq<T>, x: T)
    ensures AppendNew(acc, xs + [x])
      == if x in AppendNew(acc, xs) then AppendNew(acc, xs) else AppendNew(acc, xs) + [x]
  {
    AppendNewConcat(acc, xs, [x]);
    assert [x][1..] == [];
  }

  /** Scanning elements that the list already holds leaves it unchanged. */
  lemma {:induction false} AppendNewCovered<T>(acc: seq<T>, xs: seq<T>)
    requires forall x :: x in xs ==> x in acc
    ensures AppendNew(acc, xs) == acc
  {
    if xs != [] {
      assert xs[0] in xs;
      AppendNewCovered(acc, xs[1..]);
    }
  }

  /** The appended part is ordered by first occurrence in xs (scan order). */
  lemma {:induction false} AppendNewOrder<T>(acc: seq<T>, xs: seq<T>)
    ensures forall i, j :: |acc| <= i < j < |AppendNew(acc, xs)| ==>
      AppendNew(acc, xs)[i] in xs && AppendNew(acc, xs)[j] in xs &&
      FirstIndex(xs, AppendNew(acc, xs)[i]) < FirstIndex(xs, AppendNew(acc, xs)[j])
    decreases |xs|
  {
    if xs != [] {
      var x := xs[0];
      var acc' := if x in acc then acc else acc + [x];
      var r := AppendNew(acc', xs[1..]);
      assert r == AppendNew(acc, xs);
      AppendNewOrder(acc', xs[1..]);
      AppendNewExtends(acc', xs[1..]);
      forall i, j | |acc| <= i < j < |r|
        ensures r[i] in xs && r[j] in xs && FirstIndex(xs, r[i]) < FirstIndex(xs, r[j])
      {
        assert r[j] in r && r[j] !in acc';
        assert r[j] in xs[1..];
        assert r[j] != x;
        assert FirstIndex(xs, r[j]) == 1 + FirstIndex(xs[1..], r[j]);
        if x !in acc && i == |acc| {
          assert r[i] == x;
        } else {
          assert r[i] in r && r[i] !in acc';
          assert r[i] in xs[1..];
          assert r[i] != x;
          assert FirstIndex(xs, r[i]) == 1 + FirstIndex(xs[1..], r[i]);
        }
      }
      assert forall i, j :: |acc| <= i < j < |AppendNew(acc, xs)| ==>
        AppendNew(acc, xs)[i] in xs && AppendNew(acc, xs)[j] in xs &&
        FirstIndex(xs, AppendNew(acc, xs)[i]) < FirstIndex(xs, AppendNew(acc, xs)[j]);
    } else {
      assert AppendNew(acc, xs) == acc;
    }
  }
}
