/**
 * `Array.prototype.sort`: a stable sort under a comparator. It is defined here
 * as insertion sort, and `StableSortUnique` shows that every stable sort
 * gives the same result, so the definition says nothing beyond what the
 * language itself guarantees.
 */
module Sorting {

  /** `le` is total and transitive: the comparators built by `ByKey` are. */
  ghost predicate TotalPreorder<T(!new)>(le: (T, T) -> bool)
  {
    (forall a, b :: le(a, b) || le(b, a)) &&
    (forall a, b, c :: le(a, b) && le(b, c) ==> le(a, c))
  }

  /** No two distinct elements of `s` are tied under `le`. */
  predicate AntisymmetricOn<T(==)>(s: seq<T>, le: (T, T) -> bool)
  {
    forall i, j :: 0 <= i < |s| && 0 <= j < |s| && le(s[i], s[j]) && le(s[j], s[i]) ==> s[i] == s[j]
  }

  predicate Sorted<T>(s: seq<T>, le: (T, T) -> bool)
  {
    forall i, j :: 0 <= i < j < |s| ==> le(s[i], s[j])
  }

  /** `x` placed before the first element it does not come after. */
  function Insert<T>(x: T, s: seq<T>, le: (T, T) -> bool): (r: seq<T>)
    ensures |r| == |s| + 1 && multiset(r) == multiset(s) + multiset{x}
  {
    if |s| == 0 then [x]
    else if le(x, s[0]) then [x] + s
    else
      assert s == [s[0]] + s[1..];
      [s[0]] + Insert(x, s[1..], le)
  }

  /** `s.sort(le)` */
  function Sort<T>(s: seq<T>, le: (T, T) -> bool): (r: seq<T>)
    ensures |r| == |s| && multiset(r) == multiset(s)
  {
    if |s| == 0 then []
    else
      assert s == [s[0]] + s[1..];
      Insert(s[0], Sort(s[1..], le), le)
  }

  /** `s.map(f)` */
  function Map<A, B>(f: A -> B, s: seq<A>): (r: seq<B>)
    ensures |r| == |s| && forall i :: 0 <= i < |s| ==> r[i] == f(s[i])
  {
    seq(|s|, i requires 0 <= i < |s| => f(s[i]))
  }

  /** Elements tied with `e` under `le`, in their order in `s`. */
  function Class<T>(s: seq<T>, le: (T, T) -> bool, e: T): seq<T>
  {
    if |s| == 0 then []
    else (if le(s[0], e) && le(e, s[0]) then [s[0]] else []) + Class(s[1..], le, e)
  }

  /** `t` keeps tied elements in the order they have in `s`. */
  ghost predicate Stable<T(!new)>(s: seq<T>, t: seq<T>, le: (T, T) -> bool)
  {
    forall e :: Class(t, le, e) == Class(s, le, e)
  }

  lemma InSort<T>(x: T, s: seq<T>, le: (T, T) -> bool)
    requires x in Sort(s, le)
    ensures x in s
  {
    assert x in multiset(Sort(s, le));
  }

  // ---------------------------------------------------------------------
  // Sorted output
  // ---------------------------------------------------------------------

  lemma {:induction false} InsertSorted<T(!new)>(x: T, s: seq<T>, le: (T, T) -> bool)
    requires TotalPreorder(le) && Sorted(s, le)
    ensures Sorted(Insert(x, s, le), le)
  {
    if |s| > 0 && !le(x, s[0]) {
      var t := Insert(x, s[1..], le);
      InsertSorted(x, s[1..], le);
      assert le(s[0], x);
      forall j | 0 <= j < |t| ensures le(s[0], t[j]) {
        assert t[j] in multiset(s[1..]) + multiset{x};
        if t[j] in multiset(s[1..]) {
          var k :| 0 <= k < |s[1..]| && s[1..][k] == t[j];
          assert s[k + 1] == t[j];
        }
      }
    }
  }

  lemma {:induction false} SortSorted<T(!new)>(s: seq<T>, le: (T, T) -> bool)
    requires TotalPreorder(le)
    ensures Sorted(Sort(s, le), le)
  {
    if |s| > 0 {
      SortSorted(s[1..], le);
      InsertSorted(s[0], Sort(s[1..], le), le);
    }
  }

  /** Sorting what is already sorted changes nothing. */
  lemma {:induction false} SortOfSorted<T>(s: seq<T>, le: (T, T) -> bool)
    requires Sorted(s, le)
    ensures Sort(s, le) == s
  {
    if |s| > 0 {
      assert Sorted(s[1..], le);
      SortOfSorted(s[1..], le);
      if |s| > 1 {
        assert le(s[0], s[1]);
      }
      assert [s[0]] + s[1..] == s;
    }
  }

  // ---------------------------------------------------------------------
  // Stability and uniqueness
  // ---------------------------------------------------------------------

  lemma {:induction false} ClassAppend<T>(a: seq<T>, b: seq<T>, le: (T, T) -> bool, e: T)
    ensures Class(a + b, le, e) == Class(a, le, e) + Class(b, le, e)
  {
    if |a| == 0 {
      assert a + b == b;
      assert Class(a, le, e) == [];
    } else {
      var c := if le(a[0], e) && le(e, a[0]) then [a[0]] else [];
      var ab := a + b;
      ClassAppend(a[1..], b, le, e);
      assert ab[0] == a[0];
      assert ab[1..] == a[1..] + b;
      assert Class(ab, le, e) == c + (Class(a[1..], le, e) + Class(b, le, e));
      assert Class(a, le, e) == c + Class(a[1..], le, e);
      assert c + (Class(a[1..], le, e) + Class(b, le, e)) == (c + Class(a[1..], le, e)) + Class(b, le, e);
    }
  }

  /** An element that `x` does not come before cannot be tied with anything `x` is tied with. */
  lemma TiedNotBefore<T(!new)>(x: T, y: T, e: T, le: (T, T) -> bool)
    requires TotalPreorder(le)
    requires !le(x, y) && le(x, e) && le(e, x)
    ensures !(le(y, e) && le(e, y))
  {
  }

  lemma InsertClassFront<T>(x: T, s: seq<T>, le: (T, T) -> bool, e: T)
    requires |s| > 0 && le(x, s[0])
    ensures Class(Insert(x, s, le), le, e) ==
            (if le(x, e) && le(e, x) then [x] else []) + Class(s, le, e)
  {
    assert Insert(x, s, le) == [x] + s;
    assert Class([x], le, e) == if le(x, e) && le(e, x) then [x] else [];
    ClassAppend([x], s, le, e);
  }

  lemma InsertClassStep<T>(x: T, s: seq<T>, le: (T, T) -> bool, e: T)
    requires |s| > 0 && !le(x, s[0])
    requires Class(Insert(x, s[1..], le), le, e) ==
             (if le(x, e) && le(e, x) then [x] else []) + Class(s[1..], le, e)
    requires le(x, e) && le(e, x) ==> !(le(s[0], e) && le(e, s[0]))
    ensures Class(Insert(x, s, le), le, e) ==
            (if le(x, e) && le(e, x) then [x] else []) + Class(s, le, e)
  {
    var cx := if le(x, e) && le(e, x) then [x] else [];
    var c0 := if le(s[0], e) && le(e, s[0]) then [s[0]] else [];
    var t := Insert(x, s[1..], le);
    var u := [s[0]] + t;
    assert Insert(x, s, le) == u;
    assert u[0] == s[0] && u[1..] == t;
    assert Class(u, le, e) == c0 + Class(t, le, e);
    assert Class(s, le, e) == c0 + Class(s[1..], le, e);
    if cx == [] {
      assert Class(t, le, e) == Class(s[1..], le, e);
      assert [] + Class(s, le, e) == Class(s, le, e);
    } else {
      assert c0 == [];
      assert [] + Class(t, le, e) == Class(t, le, e);
      assert [] + Class(s[1..], le, e) == Class(s[1..], le, e);
    }
  }

  lemma {:induction false} InsertClass<T(!new)>(x: T, s: seq<T>, le: (T, T) -> bool, e: T)
    requires TotalPreorder(le)
    ensures Class(Insert(x, s, le), le, e) ==
            (if le(x, e) && le(e, x) then [x] else []) + Class(s, le, e)
  {
    if |s| == 0 {
      assert Insert(x, s, le) == [x];
    } else if le(x, s[0]) {
      InsertClassFront(x, s, le, e);
    } else {
      InsertClass(x, s[1..], le, e);
      if le(x, e) && le(e, x) {
        TiedNotBefore(x, s[0], e, le);
      }
      InsertClassStep(x, s, le, e);
    }
  }

  /** The sort keeps tied elements in their original order. */
  lemma {:induction false} SortStable<T(!new)>(s: seq<T>, le: (T, T) -> bool)
    requires TotalPreorder(le)
    ensures Stable(s, Sort(s, le), le)
  {
    forall e ensures Class(Sort(s, le), le, e) == Class(s, le, e) {
      SortClass(s, le, e);
    }
  }

  lemma {:induction false} SortClass<T(!new)>(s: seq<T>, le: (T, T) -> bool, e: T)
    requires TotalPreorder(le)
    ensures Class(Sort(s, le), le, e) == Class(s, le, e)
  {
    if |s| > 0 {
      SortClass(s[1..], le, e);
      InsertClass(s[0], Sort(s[1..], le), le, e);
      assert [s[0]] + s[1..] == s;
      ClassAppend([s[0]], s[1..], le, e);
    }
  }

  lemma MinimalHead<T(!new)>(a: seq<T>, b: seq<T>, le: (T, T) -> bool)
    requires TotalPreorder(le)
    requires Sorted(a, le) && |a| > 0 && multiset(a) == multiset(b)
    ensures forall x :: x in b ==> le(a[0], x)
  {
    forall x | x in b ensures le(a[0], x) {
      assert x in multiset(a);
      var k :| 0 <= k < |a| && a[k] == x;
      if k > 0 {
        assert le(a[0], a[k]);
      } else {
        assert le(x, x) || le(x, x);
      }
    }
  }

  lemma ClassHead<T>(s: seq<T>, le: (T, T) -> bool)
    requires |s| > 0 && le(s[0], s[0])
    ensures Class(s, le, s[0]) == [s[0]] + Class(s[1..], le, s[0])
  {
  }

  /**
   * A sorted rearrangement of `s` that keeps tied elements in their order is
   * `Sort(s, le)`: every stable sort agrees with this one.
   */
  lemma {:induction false} StableSortUnique<T(!new)>(s: seq<T>, t: seq<T>, le: (T, T) -> bool)
    requires TotalPreorder(le)
    requires Sorted(t, le) && multiset(t) == multiset(s) && Stable(s, t, le)
    ensures t == Sort(s, le)
  {
    SortSorted(s, le);
    SortStable(s, le);
    SortedStableEqual(t, Sort(s, le), le);
  }

  lemma HeadTail<T>(a: seq<T>)
    requires |a| > 0
    ensures a == [a[0]] + a[1..]
    ensures multiset(a[1..]) == multiset(a) - multiset{a[0]}
  {
    assert a == [a[0]] + a[1..];
    assert multiset(a) == multiset{a[0]} + multiset(a[1..]);
  }

  lemma SameLength<T>(a: seq<T>, b: seq<T>)
    requires multiset(a) == multiset(b)
    ensures |a| == |b|
  {
    assert |multiset(a)| == |a| && |multiset(b)| == |b|;
  }

  /** Equal heads contribute equally to a class, so equal classes have equal tails. */
  lemma ClassTail<T>(a: seq<T>, b: seq<T>, le: (T, T) -> bool, e: T)
    requires |a| > 0 && |b| > 0 && a[0] == b[0]
    requires Class(a, le, e) == Class(b, le, e)
    ensures Class(a[1..], le, e) == Class(b[1..], le, e)
  {
    var c := if le(a[0], e) && le(e, a[0]) then [a[0]] else [];
    assert Class(a, le, e) == c + Class(a[1..], le, e);
    assert Class(b, le, e) == c + Class(b[1..], le, e);
    assert Class(a[1..], le, e) == (c + Class(a[1..], le, e))[|c|..];
    assert Class(b[1..], le, e) == (c + Class(b[1..], le, e))[|c|..];
  }

  /** Two sorted rearrangements with the same classes start with the same element. */
  lemma StableHeadsEqual<T(!new)>(a: seq<T>, b: seq<T>, le: (T, T) -> bool)
    requires TotalPreorder(le)
    requires Sorted(a, le) && Sorted(b, le) && multiset(a) == multiset(b) && |a| > 0
    requires Class(a, le, a[0]) == Class(b, le, a[0])
    ensures |b| > 0 && a[0] == b[0]
  {
    SameLength(a, b);
    MinimalHead(a, b, le);
    MinimalHead(b, a, le);
    assert b[0] in b && a[0] in a;
    var e := a[0];
    assert le(e, e) || le(e, e);
    assert le(b[0], e) && le(e, b[0]);
    assert Class(a, le, e) == [a[0]] + Class(a[1..], le, e);
    assert Class(b, le, e) == [b[0]] + Class(b[1..], le, e);
    assert a[0] == Class(a, le, e)[0] == Class(b, le, e)[0] == b[0];
  }

  lemma SortedTail<T>(s: seq<T>, le: (T, T) -> bool)
    requires Sorted(s, le) && |s| > 0
    ensures Sorted(s[1..], le)
  {
    forall i, j | 0 <= i < j < |s[1..]| ensures le(s[1..][i], s[1..][j]) {
      assert s[1..][i] == s[i + 1] && s[1..][j] == s[j + 1];
    }
  }

  lemma {:induction false} SortedStableEqual<T(!new)>(a: seq<T>, b: seq<T>, le: (T, T) -> bool)
    requires TotalPreorder(le)
    requires Sorted(a, le) && Sorted(b, le) && multiset(a) == multiset(b)
    requires forall e :: Class(a, le, e) == Class(b, le, e)
    ensures a == b
  {
    SameLength(a, b);
    if |a| > 0 {
      StableHeadsEqual(a, b, le);
      HeadTail(a);
      HeadTail(b);
      forall e' ensures Class(a[1..], le, e') == Class(b[1..], le, e') {
        ClassTail(a, b, le, e');
      }
      SortedTail(a, le);
      SortedTail(b, le);
      SortedStableEqual(a[1..], b[1..], le);
    }
  }

  /** With no ties, two sorted rearrangements start with the same element. */
  lemma UniqueHeadsEqual<T>(a: seq<T>, b: seq<T>, le: (T, T) -> bool)
    requires Sorted(a, le) && Sorted(b, le) && multiset(a) == multiset(b) && |a| > 0
    requires AntisymmetricOn(a, le)
    ensures |b| > 0 && a[0] == b[0]
  {
    SameLength(a, b);
    assert b[0] in multiset(a);
    var k :| 0 <= k < |a| && a[k] == b[0];
    assert a[0] in multiset(b);
    var m :| 0 <= m < |b| && b[m] == a[0];
    if k != 0 && m != 0 {
      assert le(a[0], a[k]);
      assert le(b[0], b[m]);
      assert a[0] == a[k];
    }
  }

  lemma AntisymmetricTail<T>(a: seq<T>, le: (T, T) -> bool)
    requires AntisymmetricOn(a, le) && |a| > 0
    ensures AntisymmetricOn(a[1..], le)
  {
    forall i, j | 0 <= i < |a[1..]| && 0 <= j < |a[1..]|
      ensures le(a[1..][i], a[1..][j]) && le(a[1..][j], a[1..][i]) ==> a[1..][i] == a[1..][j]
    {
      assert a[1..][i] == a[i + 1] && a[1..][j] == a[j + 1];
    }
  }

  /**
   * With no ties among the elements, a sorted rearrangement is unique: the
   * result does not depend on the order of the input.
   */
  lemma {:induction false} SortedUnique<T(!new)>(a: seq<T>, b: seq<T>, le: (T, T) -> bool)
    requires Sorted(a, le) && Sorted(b, le) && multiset(a) == multiset(b)
    requires AntisymmetricOn(a, le)
    ensures a == b
  {
    SameLength(a, b);
    if |a| > 0 {
      UniqueHeadsEqual(a, b, le);
      HeadTail(a);
      HeadTail(b);
      AntisymmetricTail(a, le);
      SortedTail(a, le);
      SortedTail(b, le);
      SortedUnique(a[1..], b[1..], le);
    }
  }

  /** Sorting two rearrangements of the same elements with no ties gives the same sequence. */
  lemma SortPermutationInvariant<T(!new)>(s1: seq<T>, s2: seq<T>, le: (T, T) -> bool)
    requires TotalPreorder(le)
    requires multiset(s1) == multiset(s2) && AntisymmetricOn(s1, le)
    ensures Sort(s1, le) == Sort(s2, le)
  {
    var a, b := Sort(s1, le), Sort(s2, le);
    SortSorted(s1, le);
    SortSorted(s2, le);
    forall i, j | 0 <= i < |a| && 0 <= j < |a| && le(a[i], a[j]) && le(a[j], a[i])
      ensures a[i] == a[j]
    {
      assert a[i] in multiset(s1) && a[j] in multiset(s1);
      var p :| 0 <= p < |s1| && s1[p] == a[i];
      var q :| 0 <= q < |s1| && s1[q] == a[j];
    }
    SortedUnique(a, b, le);
  }

  // ---------------------------------------------------------------------
  // Sorting commutes with a map that preserves the comparison
  // ---------------------------------------------------------------------

  lemma {:induction false} InsertMap<A, B>(f: A -> B, x: A, s: seq<A>, le1: (A, A) -> bool, le2: (B, B) -> bool)
    requires forall a, b :: le2(f(a), f(b)) == le1(a, b)
    ensures Map(f, Insert(x, s, le1)) == Insert(f(x), Map(f, s), le2)
  {
    if |s| > 0 {
      assert Map(f, s)[0] == f(s[0]);
      assert Map(f, s)[1..] == Map(f, s[1..]);
      if le1(x, s[0]) {
        assert Map(f, [x] + s) == [f(x)] + Map(f, s);
      } else {
        InsertMap(f, x, s[1..], le1, le2);
        assert Map(f, [s[0]] + Insert(x, s[1..], le1)) == [f(s[0])] + Map(f, Insert(x, s[1..], le1));
      }
    } else {
      assert Map(f, [x]) == [f(x)];
    }
  }

  /** Mapping over a pair maps each of its two elements. */
  lemma MapPair<A, B>(f: A -> B, x: A, y: A)
    ensures Map(f, [x, y]) == [f(x), f(y)]
  {
  }

  /** Replacing an element by one with the same image leaves the mapped sequence as it was. */
  lemma MapUpdate<A, B>(f: A -> B, s: seq<A>, i: nat, x: A)
    requires i < |s| && f(x) == f(s[i])
    ensures Map(f, s[i := x]) == Map(f, s)
  {
    assert forall k :: 0 <= k < |s| ==> Map(f, s[i := x])[k] == Map(f, s)[k];
  }

  lemma MapTail<A, B>(f: A -> B, s: seq<A>)
    requires |s| > 0
    ensures Map(f, s)[0] == f(s[0]) && Map(f, s)[1..] == Map(f, s[1..])
  {
  }

  lemma SortStep<T>(s: seq<T>, le: (T, T) -> bool)
    requires |s| > 0
    ensures Sort(s, le) == Insert(s[0], Sort(s[1..], le), le)
  {
  }

  /** Sorting two elements swaps them exactly when the first does not come before the second. */
  lemma SortTwo<T>(x: T, y: T, le: (T, T) -> bool)
    ensures Sort([x, y], le) == if le(x, y) then [x, y] else [y, x]
  {
    assert [x, y][1..] == [y];
    SortStep([x, y], le);
    assert Sort([y], le) == [y];
    if le(x, y) {
      assert Insert(x, [y], le) == [x] + [y] == [x, y];
    } else {
      assert Insert(x, [y], le) == [y] + Insert(x, [], le) == [y] + [x] == [y, x];
    }
  }

  lemma SortMapStep<A, B>(f: A -> B, s: seq<A>, le1: (A, A) -> bool, le2: (B, B) -> bool)
    requires |s| > 0
    requires Map(f, Sort(s[1..], le1)) == Sort(Map(f, s[1..]), le2)
    requires Map(f, Insert(s[0], Sort(s[1..], le1), le1)) == Insert(f(s[0]), Map(f, Sort(s[1..], le1)), le2)
    ensures Map(f, Sort(s, le1)) == Sort(Map(f, s), le2)
  {
    SortStep(s, le1);
    SortStep(Map(f, s), le2);
    MapTail(f, s);
  }

  lemma {:induction false} SortMap<A, B>(f: A -> B, s: seq<A>, le1: (A, A) -> bool, le2: (B, B) -> bool)
    requires forall a, b :: le2(f(a), f(b)) == le1(a, b)
    ensures Map(f, Sort(s, le1)) == Sort(Map(f, s), le2)
  {
    if |s| > 0 {
      SortMap(f, s[1..], le1, le2);
      InsertMap(f, s[0], Sort(s[1..], le1), le1, le2);
      SortMapStep(f, s, le1, le2);
    }
  }

  lemma MapAppend<A, B>(f: A -> B, a: seq<A>, b: seq<A>)
    ensures Map(f, a + b) == Map(f, a) + Map(f, b)
  {
  }

  lemma RemoveAt<T>(b: seq<T>, k: nat)
    requires k < |b|
    ensures b == b[..k] + [b[k]] + b[k + 1..]
    ensures multiset(b[..k] + b[k + 1..]) == multiset(b) - multiset{b[k]}
  {
    assert b == b[..k] + [b[k]] + b[k + 1..];
    assert multiset(b) == multiset(b[..k]) + multiset{b[k]} + multiset(b[k + 1..]);
  }

  /** Mapping two rearrangements of the same elements gives two rearrangements of the same results. */
  lemma {:induction false} MapPermutation<A, B>(f: A -> B, a: seq<A>, b: seq<A>)
    requires multiset(a) == multiset(b)
    ensures multiset(Map(f, a)) == multiset(Map(f, b))
  {
    SameLength(a, b);
    if |a| > 0 {
      assert a[0] in multiset(b);
      var k :| 0 <= k < |b| && b[k] == a[0];
      var left, right := b[..k], b[k + 1..];
      RemoveAt(b, k);
      HeadTail(a);
      MapPermutation(f, a[1..], left + right);
      var one := Map(f, [a[0]]);
      assert one == [f(a[0])];
      calc {
        multiset(Map(f, b));
        { MapAppend(f, left + [a[0]], right); }
        multiset(Map(f, left + [a[0]]) + Map(f, right));
        { MapAppend(f, left, [a[0]]); }
        multiset(Map(f, left)) + multiset(one) + multiset(Map(f, right));
        { MapAppend(f, left, right); }
        multiset(one) + multiset(Map(f, left + right));
        multiset(one) + multiset(Map(f, a[1..]));
        { MapAppend(f, [a[0]], a[1..]); }
        multiset(Map(f, a));
      }
    }
  }

  /** No element occurs twice. */
  predicate NoDuplicates<T(==)>(s: seq<T>)
  {
    forall i, j :: 0 <= i < j < |s| ==> s[i] != s[j]
  }

  /** Removing one element keeps a sequence free of duplicates, and the element is gone. */
  lemma RemoveNoDuplicates<T>(a: seq<T>, p: nat)
    requires p < |a| && NoDuplicates(a)
    ensures NoDuplicates(a[..p] + a[p + 1..])
    ensures a[p] !in a[..p] + a[p + 1..]
  {
    var rest := a[..p] + a[p + 1..];
    forall i, j | 0 <= i < j < |rest| ensures rest[i] != rest[j] {
      var i' := if i < p then i else i + 1;
      var j' := if j < p then j else j + 1;
      assert rest[i] == a[i'] && rest[j] == a[j'];
    }
    forall k | 0 <= k < |rest| ensures rest[k] != a[p] {
      var k' := if k < p then k else k + 1;
      assert rest[k] == a[k'];
    }
  }

  /** A head that does not occur in a duplicate-free tail gives a duplicate-free sequence. */
  lemma ConsNoDuplicates<T>(b: seq<T>)
    requires |b| > 0 && NoDuplicates(b[1..]) && b[0] !in b[1..]
    ensures NoDuplicates(b)
  {
    forall i, j | 0 <= i < j < |b| ensures b[i] != b[j] {
      assert b[j] == b[1..][j - 1];
      if i > 0 {
        assert b[i] == b[1..][i - 1];
      }
    }
  }

  /** A rearrangement of a sequence without duplicates has none either. */
  lemma {:induction false} NoDuplicatesPermutation<T>(a: seq<T>, b: seq<T>)
    requires multiset(a) == multiset(b) && NoDuplicates(a)
    ensures NoDuplicates(b)
  {
    if |b| > 0 {
      assert b[0] in multiset(a);
      var p :| 0 <= p < |a| && a[p] == b[0];
      RemoveAt(a, p);
      RemoveNoDuplicates(a, p);
      var rest := a[..p] + a[p + 1..];
      HeadTail(b);
      assert multiset(rest) == multiset(b[1..]);
      NoDuplicatesPermutation(rest, b[1..]);
      assert b[0] !in multiset(b[1..]);
      ConsNoDuplicates(b);
    }
  }
}
