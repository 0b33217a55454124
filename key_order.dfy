/**
 * Re-keying an object in sorted key order, as every revision of the hashing
 * replacer and the grid normaliser do with
 * `Object.keys(value).sort().reduce((obj, k) => { obj[k] = value[k]; return obj; }, {})`.
 */
module KeyOrder {
  import opened JsonValue
  import opened StringOrder
  import opened Sorting

  function MemberKey(m: (string, Json)): string { m.0 }

  /** The members of an object, reordered by key. */
  function SortMembers(ms: seq<(string, Json)>): (r: seq<(string, Json)>)
    ensures |r| == |ms| && multiset(r) == multiset(ms)
  {
    Sort(ms, ByKey(MemberKey))
  }

  /**
   * The `reduce` written out: walk the sorted keys and copy `value[k]` into a
   * fresh object. (Every key comes from `ms`, so the lookup always succeeds.)
   */
  function RebuildFromSortedKeys(ms: seq<(string, Json)>): (r: seq<(string, Json)>)
    ensures Keys(r) == Sort(Keys(ms), StrLe)
  {
    var ks := Sort(Keys(ms), StrLe);
    seq(|ks|, i requires 0 <= i < |ks| =>
      (ks[i], match Lookup(ms, ks[i]) case Some(x) => x case None => JNull))
  }

  lemma KeysAsMap(ms: seq<(string, Json)>)
    ensures Keys(ms) == Map(MemberKey, ms)
  {
  }

  /** The keys of the re-keyed object are the sorted keys of the original. */
  lemma SortMembersKeys(ms: seq<(string, Json)>)
    ensures Keys(SortMembers(ms)) == Sort(Keys(ms), StrLe)
  {
    KeysAsMap(ms);
    KeysAsMap(SortMembers(ms));
    SortMap(MemberKey, ms, ByKey(MemberKey), StrLe);
  }

  /** Reordering the members of an object does not make it deeper. */
  lemma SortMembersDepth(ms: seq<(string, Json)>)
    ensures Depth(JObj(SortMembers(ms))) <= Depth(JObj(ms))
  {
    MemberShallower(ms);
    forall m | m in SortMembers(ms) ensures Depth(m.1) < Depth(JObj(ms)) {
      InSort(m, ms, ByKey(MemberKey));
    }
    ObjectDepthBound(SortMembers(ms), Depth(JObj(ms)));
  }

  /** The keys of the re-keyed object are in ascending order. */
  lemma SortMembersSorted(ms: seq<(string, Json)>)
    ensures Sorted(Keys(SortMembers(ms)), StrLe)
  {
    SortMembersKeys(ms);
    StrLeOrder();
    SortSorted(Keys(ms), StrLe);
  }

  /**
   * For a JavaScript object (no repeated key), the `reduce` over sorted keys
   * builds exactly the members reordered by key.
   */
  lemma RebuildIsSortMembers(ms: seq<(string, Json)>)
    requires DistinctKeys(ms)
    ensures RebuildFromSortedKeys(ms) == SortMembers(ms)
  {
    var r := SortMembers(ms);
    var b := RebuildFromSortedKeys(ms);
    SortMembersKeys(ms);
    forall i | 0 <= i < |r| ensures b[i] == r[i] {
      assert Keys(r)[i] == r[i].0;
      assert r[i] in multiset(ms);
      var p :| 0 <= p < |ms| && ms[p] == r[i];
      var found := Lookup(ms, r[i].0);
      var q :| 0 <= q < |ms| && ms[q] == (r[i].0, found.value);
      assert q == p;
    }
  }

  /** Keys are unique, so ordering members by key leaves no ties. */
  lemma DistinctKeysNoTies(ms: seq<(string, Json)>)
    requires DistinctKeys(ms)
    ensures AntisymmetricOn(ms, ByKey(MemberKey))
  {
    forall i, j | 0 <= i < |ms| && 0 <= j < |ms| && MemberKey(ms[i]) == MemberKey(ms[j])
      ensures ms[i] == ms[j]
    {
      assert i == j;
    }
    ByKeyAntisymmetric(ms, MemberKey);
  }

  /** The order in which the keys were inserted does not matter. */
  lemma SortMembersOrderIrrelevant(ms1: seq<(string, Json)>, ms2: seq<(string, Json)>)
    requires DistinctKeys(ms1) && multiset(ms1) == multiset(ms2)
    ensures SortMembers(ms1) == SortMembers(ms2)
  {
    DistinctKeysNoTies(ms1);
    ByKeyPreorder(MemberKey);
    SortPermutationInvariant(ms1, ms2, ByKey(MemberKey));
  }

  /** Reordering the members keeps the keys distinct. */
  lemma SortMembersDistinct(ms: seq<(string, Json)>)
    requires DistinctKeys(ms)
    ensures DistinctKeys(SortMembers(ms))
  {
    SortMembersKeys(ms);
    assert NoDuplicates(Keys(ms));
    NoDuplicatesPermutation(Keys(ms), Keys(SortMembers(ms)));
  }

  /** Every object inside `v`, at any depth, lists its keys in ascending order. */
  predicate KeysSortedDeep(v: Json)
  {
    match v
    case JArr(es) => forall i :: 0 <= i < |es| ==> KeysSortedDeep(es[i])
    case JObj(ms) => Sorted(Keys(ms), StrLe) && forall i :: 0 <= i < |ms| ==> KeysSortedDeep(ms[i].1)
    case _ => true
  }
}
