/** A stable sort by a caller-given "less than or equal" relation: the model of
    `Array.prototype.sort`, which the ECMAScript standard (since its 2019
    edition) requires to be stable. It is given as a function (insertion
    sort), a method with loops that computes it, and the facts a caller needs:
    the result is sorted, is a permutation of the input, keeps the input order
    among equivalent elements, and is the only sorted permutation when the
    relation is antisymmetric. */
module StableSort {

  ghost predicate TotalPreorder<T(!new)>(le: (T, T) -> bool)
  {
    && (forall a, b :: le(a, b) || le(b, a))
    && (forall a, b, c :: le(a, b) && le(b, c) ==> le(a, c))
  }

  ghost predicate Antisymmetric<T(!new)>(le: (T, T) -> bool)
  {
    forall a, b :: le(a, b) && le(b, a) ==> a == b
  }

  ghost predicate Sorted<T>(s: seq<T>, le: (T, T) -> bool)
  {
    forall i, j :: 0 <= i < j < |s| ==> le(s[i], s[j])
  }

  /** Neither element of the pair sorts before the other. */
  predicate Equivalent<T>(le: (T, T) -> bool, a: T, b: T)
  {
    le(a, b) && le(b, a)
  }

  /** The elements of `s` equivalent to `x`, in their order in `s`. */
  function Equivalents<T>(s: seq<T>, x: T, le: (T, T) -> bool): seq<T>
  {
    if s == [] then []
    else Equivalents(s[..|s| - 1], x, le) + (if Equivalent(le, x, s[|s| - 1]) then [s[|s| - 1]] else [])
  }

  /** Puts `x` behind the last element that is not greater than it. */
  function Insert<T>(s: seq<T>, x: T, le: (T, T) -> bool): (r: seq<T>)
    ensures multiset(r) == multiset(s) + multiset{x}
  {
    if s == [] || le(s[|s| - 1], x) then s + [x]
    else
      assert s == s[..|s| - 1] + [s[|s| - 1]];
      Insert(s[..|s| - 1], x, le) + [s[|s| - 1]]
  }

  function InsertionSort<T>(s: seq<T>, le: (T, T) -> bool): (r: seq<T>)
    ensures multiset(r) == multiset(s)
  {
    if s == [] then []
    else
      assert s == s[..|s| - 1] + [s[|s| - 1]];
      Insert(InsertionSort(s[..|s| - 1], le), s[|s| - 1], le)
  }

  /** Sorts `s` by `le`, moving each new element left past the strictly
      greater ones only. */
  method Sort<T>(s: seq<T>, le: (T, T) -> bool) returns (r: seq<T>)
    ensures r == InsertionSort(s, le)
  {
    r := [];
    var i := 0;
    while i < |s|
      invariant 0 <= i <= |s|
      invariant r == InsertionSort(s[..i], le)
    {
      InsertionSortPrefix(s, i, le);
      r := InsertAt(r, s[i], le);
      i := i + 1;
    }
    assert s[..|s|] == s;
  }

  /** Sorting one more element of `s` inserts it into the sorted prefix. */
  lemma InsertionSortPrefix<T>(s: seq<T>, i: nat, le: (T, T) -> bool)
    requires i < |s|
    ensures InsertionSort(s[..i + 1], le) == Insert(InsertionSort(s[..i], le), s[i], le)
  {
    assert s[..i + 1][..i] == s[..i];
  }

  /** One step of the insertion: `x` moves left past one greater element. */
  lemma InsertStep<T>(r: seq<T>, j: nat, x: T, le: (T, T) -> bool)
    requires 0 < j <= |r| && !le(r[j - 1], x)
    ensures Insert(r[..j], x, le) + r[j..] == Insert(r[..j - 1], x, le) + r[j - 1..]
  {
    assert r[..j][..j - 1] == r[..j - 1];
    assert [r[j - 1]] + r[j..] == r[j - 1..];
  }

  /** Inserts `x` into `r` by scanning from the back. */
  method InsertAt<T>(r: seq<T>, x: T, le: (T, T) -> bool) returns (r': seq<T>)
    ensures r' == Insert(r, x, le)
  {
    var j := |r|;
    assert r[..j] == r && r[j..] == [];
    while j > 0 && !le(r[j - 1], x)
      invariant 0 <= j <= |r|
      invariant Insert(r, x, le) == Insert(r[..j], x, le) + r[j..]
    {
      InsertStep(r, j, x, le);
      j := j - 1;
    }
    r' := r[..j] + [x] + r[j..];
  }

  lemma MembersOfPermutation<T>(a: seq<T>, b: seq<T>, y: T)
    requires multiset(a) == multiset(b)
    ensures y in a <==> y in b
  {
    assert y in a <==> y in multiset(a);
    assert y in b <==> y in multiset(b);
  }

  lemma {:induction false} InsertSorted<T(!new)>(s: seq<T>, x: T, le: (T, T) -> bool)
    requires TotalPreorder(le) && Sorted(s, le)
    ensures Sorted(Insert(s, x, le), le)
  {
    if s == [] || le(s[|s| - 1], x) {
      if s != [] {
        forall i | 0 <= i < |s| - 1 ensures le(s[i], x) {
          assert le(s[i], s[|s| - 1]);
        }
      }
    } else {
      var init, last := s[..|s| - 1], s[|s| - 1];
      InsertSorted(init, x, le);
      var r := Insert(init, x, le);
      assert le(x, last);
      forall k | 0 <= k < |r| ensures le(r[k], last) {
        var y := r[k];
        assert y in multiset(r);
        if y != x {
          assert y in multiset(init);
          var m :| 0 <= m < |init| && init[m] == y;
          assert le(s[m], s[|s| - 1]);
        }
      }
    }
  }

  /** The insertion sort's output is sorted. */
  lemma {:induction false} InsertionSortSorted<T(!new)>(s: seq<T>, le: (T, T) -> bool)
    requires TotalPreorder(le)
    ensures Sorted(InsertionSort(s, le), le)
  {
    if s != [] {
      InsertionSortSorted(s[..|s| - 1], le);
      InsertSorted(InsertionSort(s[..|s| - 1], le), s[|s| - 1], le);
    }
  }

  lemma {:induction false} EquivalentsAppend<T>(a: seq<T>, b: seq<T>, x: T, le: (T, T) -> bool)
    ensures Equivalents(a + b, x, le) == Equivalents(a, x, le) + Equivalents(b, x, le)
  {
    if b == [] {
      assert a + b == a;
    } else {
      EquivalentsAppend(a, b[..|b| - 1], x, le);
      assert (a + b)[..|a + b| - 1] == a + b[..|b| - 1];
    }
  }

  lemma {:induction false} InsertStable<T(!new)>(s: seq<T>, y: T, x: T, le: (T, T) -> bool)
    requires TotalPreorder(le)
    ensures Equivalents(Insert(s, y, le), x, le) == Equivalents(s, x, le) + Equivalents([y], x, le)
  {
    if s == [] || le(s[|s| - 1], y) {
      EquivalentsAppend(s, [y], x, le);
    } else {
      var init, last := s[..|s| - 1], s[|s| - 1];
      var ey, el := Equivalents([y], x, le), Equivalents([last], x, le);
      assert Equivalents(Insert(init, y, le), x, le) == Equivalents(init, x, le) + ey by {
        InsertStable(init, y, x, le);
      }
      assert Equivalents(Insert(s, y, le), x, le) == Equivalents(Insert(init, y, le), x, le) + el by {
        EquivalentsAppend(Insert(init, y, le), [last], x, le);
      }
      assert Equivalents(s, x, le) == Equivalents(init, x, le) + el by {
        EquivalentsAppend(init, [last], x, le);
        assert init + [last] == s;
      }
      assert ey == [] || el == [] by {
        assert !le(last, y);
      }
    }
  }

  /** The sort is stable: among elements equivalent to any `x`, the output keeps
      the input order. */
  lemma {:induction false} InsertionSortStable<T(!new)>(s: seq<T>, x: T, le: (T, T) -> bool)
    requires TotalPreorder(le)
    ensures Equivalents(InsertionSort(s, le), x, le) == Equivalents(s, x, le)
  {
    if s != [] {
      var init, last := s[..|s| - 1], s[|s| - 1];
      var sortedInit := InsertionSort(init, le);
      var tail := Equivalents([last], x, le);
      assert Equivalents(sortedInit, x, le) == Equivalents(init, x, le) by {
        InsertionSortStable(init, x, le);
      }
      assert Equivalents(Insert(sortedInit, last, le), x, le) == Equivalents(sortedInit, x, le) + tail by {
        InsertStable(sortedInit, last, x, le);
      }
      assert Equivalents(s, x, le) == Equivalents(init, x, le) + tail by {
        EquivalentsAppend(init, [last], x, le);
        assert init + [last] == s;
      }
    }
  }

  lemma HeadIsLeast<T>(a: seq<T>, y: T, le: (T, T) -> bool)
    requires Sorted(a, le) && (forall z :: le(z, z)) && y in multiset(a)
    ensures le(a[0], y)
  {
    var k :| 0 <= k < |a| && a[k] == y;
    if k > 0 { assert le(a[0], a[k]); }
  }

  lemma SortedTail<T>(a: seq<T>, le: (T, T) -> bool)
    requires Sorted(a, le) && a != []
    ensures Sorted(a[1..], le)
    ensures multiset(a[1..]) == multiset(a) - multiset{a[0]}
  {
    assert a == [a[0]] + a[1..];
  }

  /** No two distinct elements of `s` are equivalent. */
  ghost predicate AntisymmetricOn<T>(s: seq<T>, le: (T, T) -> bool)
  {
    forall i, j :: 0 <= i < |s| && 0 <= j < |s| && le(s[i], s[j]) && le(s[j], s[i]) ==> s[i] == s[j]
  }

  lemma AntisymmetricOnPermutation<T>(a: seq<T>, b: seq<T>, le: (T, T) -> bool)
    requires AntisymmetricOn(a, le) && multiset(a) == multiset(b)
    ensures AntisymmetricOn(b, le)
  {
    forall i, j | 0 <= i < |b| && 0 <= j < |b| && le(b[i], b[j]) && le(b[j], b[i]) ensures b[i] == b[j] {
      assert b[i] in multiset(a) && b[j] in multiset(a);
      var i' :| 0 <= i' < |a| && a[i'] == b[i];
      var j' :| 0 <= j' < |a| && a[j'] == b[j];
    }
  }

  lemma AntisymmetricOnTail<T>(a: seq<T>, le: (T, T) -> bool)
    requires AntisymmetricOn(a, le) && a != []
    ensures AntisymmetricOn(a[1..], le)
  {
    forall i, j | 0 <= i < |a| - 1 && 0 <= j < |a| - 1 && le(a[1..][i], a[1..][j]) && le(a[1..][j], a[1..][i])
      ensures a[1..][i] == a[1..][j]
    {
      assert a[1..][i] == a[i + 1] && a[1..][j] == a[j + 1];
    }
  }

  /** Under a total preorder there is only one sorted arrangement of a
      multiset none of whose distinct elements are equivalent. */
  lemma {:induction false} SortedUnique<T(!new)>(a: seq<T>, b: seq<T>, le: (T, T) -> bool)
    requires TotalPreorder(le) && AntisymmetricOn(a, le)
    requires Sorted(a, le) && Sorted(b, le) && multiset(a) == multiset(b)
    ensures a == b
  {
    if a != [] {
      assert |b| == |multiset(b)| == |multiset(a)| == |a|;
      assert forall z :: le(z, z) by { forall z ensures le(z, z) { assert le(z, z) || le(z, z); } }
      HeadIsLeast(b, a[0], le);
      HeadIsLeast(a, b[0], le);
      var m :| 0 <= m < |a| && a[m] == b[0];
      assert a[0] == a[m];
      SortedTail(a, le);
      SortedTail(b, le);
      AntisymmetricOnTail(a, le);
      SortedUnique(a[1..], b[1..], le);
      assert a == [a[0]] + a[1..] && b == [b[0]] + b[1..];
    }
  }

  /** When no two distinct elements are equivalent, sorting forgets the input
      order entirely. */
  lemma InsertionSortIgnoresOrder<T(!new)>(a: seq<T>, b: seq<T>, le: (T, T) -> bool)
    requires TotalPreorder(le) && AntisymmetricOn(a, le)
    requires multiset(a) == multiset(b)
    ensures InsertionSort(a, le) == InsertionSort(b, le)
  {
    InsertionSortSorted(a, le);
    InsertionSortSorted(b, le);
    AntisymmetricOnPermutation(a, InsertionSort(a, le), le);
    SortedUnique(InsertionSort(a, le), InsertionSort(b, le), le);
  }
}
