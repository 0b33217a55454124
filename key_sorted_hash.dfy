/**
 * `Hashing.hashResponseData` in Hashing.js, the revision before the one in
 * Code.js. Its replacer re-keys objects in sorted order and sorts arrays of
 * primitives by `String(x)` as the later one does, but two details differ:
 * `null` counts as an object when deciding whether an array is flat, and an
 * array holding objects is ordered by the plain JSON text of its elements,
 * computed without the replacer, so nested keys take part in the comparison
 * in their original insertion order. `JSON.stringify` then applies the
 * replacer again inside each element.
 */
module KeySortedHash {
  import opened JsonValue
  import opened JsonText
  import opened JsonParse
  import opened StringOrder
  import opened Sorting
  import opened KeyOrder
  import opened HexRendering
  import opened TextOrder

  /** `value.every(item => typeof item !== 'object')` */
  predicate IsPrimitiveArray(es: seq<Json>)
  {
    forall i :: 0 <= i < |es| ==> !es[i].IsTypeofObject()
  }

  /**
   * The tree whose plain JSON text the replacer produces: objects have their
   * members in key order, arrays of non-null primitives are sorted by `String(x)`, and
   * any other array is sorted by the plain text of its elements before each
   * element is put in this form.
   */
  function Canon(v: Json): (r: Json)
    decreases Depth(v)
    ensures r.JArr? == v.JArr? && r.JObj? == v.JObj?
    ensures !v.IsComposite() ==> r == v
    ensures v.JArr? ==> |r.elems| == |v.elems|
    ensures v.JObj? ==> Keys(r.members) == Sort(Keys(v.members), StrLe)
  {
    match v
    case JArr(es) =>
      if IsPrimitiveArray(es) then JArr(Sort(es, ByKey(ToStr)))
      else
        var sorted := Sort(es, ByKey(Print));
        ElementShallower(es);
        JArr(seq(|sorted|, i requires 0 <= i < |sorted| =>
          assert sorted[i] in multiset(es);
          Canon(sorted[i])))
    case JObj(ms) =>
      var sms := SortMembers(ms);
      MemberShallower(ms);
      var cms := seq(|sms|, i requires 0 <= i < |sms| =>
        assert sms[i] in multiset(ms);
        (sms[i].0, Canon(sms[i].1)));
      assert Keys(cms) == Keys(sms);
      SortMembersKeys(ms);
      JObj(cms)
    case _ => v
  }

  function CanonMember(m: (string, Json)): (string, Json)
  {
    (m.0, Canon(m.1))
  }

  /** An array holding an object: ordered by the plain text of its elements, then each element canonical. */
  lemma CanonArray(es: seq<Json>)
    requires !IsPrimitiveArray(es)
    ensures Canon(JArr(es)) == JArr(Map(Canon, Sort(es, ByKey(Print))))
  {
  }

  /** An object: members in key order, each value canonical. */
  lemma CanonObject(ms: seq<(string, Json)>)
    ensures Canon(JObj(ms)) == JObj(Map(CanonMember, SortMembers(ms)))
  {
  }

  // ---------------------------------------------------------------------
  // The replacer and JSON.stringify, as the code runs them
  // ---------------------------------------------------------------------

  /**
   * The replacer applied to one value. It does not recurse itself:
   * `JSON.stringify` calls it again on every child of what it returns.
   */
  function Replacer(v: Json): (r: Json)
    ensures v.JArr? && IsPrimitiveArray(v.elems) ==> r == JArr(Sort(v.elems, ByKey(ToStr)))
    ensures v.JArr? && !IsPrimitiveArray(v.elems) ==> r == JArr(Sort(v.elems, ByKey(Print)))
    ensures v.JObj? ==> r == JObj(SortMembers(v.members))
    ensures !v.IsComposite() ==> r == v
    ensures Depth(r) <= Depth(v)
  {
    match v
    case JArr(es) =>
      ElementShallower(es);
      if IsPrimitiveArray(es) then
        var r := Sort(es, ByKey(ToStr));
        SortDepth(es, ByKey(ToStr));
        JArr(r)
      else
        SortTextsParseBack(es);
        SortDepth(es, ByKey(Print));
        JArr(Map(ParseBack, Sort(Map(Print, es), StrLe)))
    case JObj(ms) =>
      SortMembersDepth(ms);
      JObj(SortMembers(ms))
    case _ => v
  }

  lemma SortDepth(es: seq<Json>, le: (Json, Json) -> bool)
    ensures Depth(JArr(Sort(es, le))) <= Depth(JArr(es))
  {
    ElementShallower(es);
    forall e | e in Sort(es, le) ensures Depth(e) < Depth(JArr(es)) {
      InSort(e, es, le);
    }
    ArrayDepthBound(Sort(es, le), Depth(JArr(es)));
  }

  /** An array of non-null primitives: its sorted elements are already canonical. */
  lemma CanonPrimitiveArray(es: seq<Json>)
    requires IsPrimitiveArray(es)
    ensures Canon(JArr(es)) == JArr(Map(Canon, Sort(es, ByKey(ToStr))))
  {
    var cs := Sort(es, ByKey(ToStr));
    forall i | 0 <= i < |cs| ensures Canon(cs[i]) == cs[i] {
      assert cs[i] in multiset(es);
    }
  }

  /** The canonical form is the replacer's output with every child put in canonical form. */
  lemma CanonAfterReplacer(v: Json)
    ensures v.JArr? ==> Canon(v) == JArr(Map(Canon, Replacer(v).elems))
    ensures v.JObj? ==> Canon(v) == JObj(Map(CanonMember, Replacer(v).members))
  {
    match v
    case JArr(es) =>
      if IsPrimitiveArray(es) {
        CanonPrimitiveArray(es);
      } else {
        CanonArray(es);
      }
    case JObj(ms) =>
      CanonObject(ms);
    case _ =>
  }

  /** `JSON.stringify(v, replacer)` */
  function Stringify(v: Json): (t: string)
    decreases Depth(v), 1
    ensures t == Print(Canon(v))
  {
    var r := Replacer(v);
    CanonAfterReplacer(v);
    if r.JArr? then
      ElementShallower(r.elems);
      StringifyChildren(r, Depth(v))
    else if r.JObj? then
      MemberShallower(r.members);
      StringifyChildren(r, Depth(v))
    else Print(r)
  }

  /** The text of the replacer's output `r`: `JSON.stringify` visits each child of it in turn. */
  function StringifyChildren(r: Json, ghost bound: nat): (t: string)
    requires r.IsComposite()
    requires r.JArr? ==> forall c :: c in r.elems ==> Depth(c) < bound
    requires r.JObj? ==> forall m :: m in r.members ==> Depth(m.1) < bound
    decreases bound, 0
    ensures r.JArr? ==> t == Print(JArr(Map(Canon, r.elems)))
    ensures r.JObj? ==> t == Print(JObj(Map(CanonMember, r.members)))
  {
    match r
    case JArr(cs) =>
      var texts := seq(|cs|, i requires 0 <= i < |cs| => assert cs[i] in cs; Stringify(cs[i]));
      assert texts == ElementTexts(Map(Canon, cs));
      PrintArray(Map(Canon, cs));
      "[" + Join(texts, ",") + "]"
    case JObj(ms) =>
      var texts := seq(|ms|, i requires 0 <= i < |ms| => assert ms[i] in ms; Quote(ms[i].0) + ":" + Stringify(ms[i].1));
      assert texts == MemberTexts(Map(CanonMember, ms));
      PrintObject(Map(CanonMember, ms));
      "{" + Join(texts, ",") + "}"
  }

  /** `hashResponseData(data)`, with SHA-256 supplied by the caller. */
  function HashResponseData(data: Json, sha256: string -> seq<int>): (h: string)
    ensures h == HexDigest(sha256(Print(Canon(data))))
    ensures |sha256(Print(Canon(data)))| == 32 ==> |h| == 64
  {
    HexDigest(sha256(Stringify(data)))
  }

  // ---------------------------------------------------------------------
  // Properties
  // ---------------------------------------------------------------------

  /** An object is emitted with its keys in ascending order. */
  lemma ObjectKeysSorted(ms: seq<(string, Json)>)
    ensures Sorted(Keys(Canon(JObj(ms)).members), StrLe)
  {
    StrLeOrder();
    SortSorted(Keys(ms), StrLe);
  }

  /** So is every object nested in the output, at any depth. */
  lemma {:induction false} CanonKeysSortedDeep(v: Json)
    ensures KeysSortedDeep(Canon(v))
    decreases Depth(v)
  {
    match v
    case JArr(es) =>
      ElementShallower(es);
      forall e | e in es ensures KeysSortedDeep(Canon(e)) {
        CanonKeysSortedDeep(e);
      }
      SortedDeepArray(es);
    case JObj(ms) =>
      MemberShallower(ms);
      forall m | m in ms ensures KeysSortedDeep(Canon(m.1)) {
        CanonKeysSortedDeep(m.1);
      }
      SortedDeepObject(ms);
    case _ =>
  }

  lemma SortedDeepArray(es: seq<Json>)
    requires forall e :: e in es ==> KeysSortedDeep(Canon(e))
    ensures KeysSortedDeep(Canon(JArr(es)))
  {
    var cs := Canon(JArr(es)).elems;
    if IsPrimitiveArray(es) {
      forall k | 0 <= k < |cs| ensures KeysSortedDeep(cs[k]) {
        InSort(cs[k], es, ByKey(ToStr));
      }
    } else {
      var sorted := Sort(es, ByKey(Print));
      CanonArray(es);
      forall k | 0 <= k < |cs| ensures KeysSortedDeep(cs[k]) {
        InSort(sorted[k], es, ByKey(Print));
      }
    }
  }

  lemma SortedDeepObject(ms: seq<(string, Json)>)
    requires forall m :: m in ms ==> KeysSortedDeep(Canon(m.1))
    ensures KeysSortedDeep(Canon(JObj(ms)))
  {
    var sms := SortMembers(ms);
    ObjectKeysSorted(ms);
    CanonObject(ms);
    forall k | 0 <= k < |sms| ensures KeysSortedDeep(Canon(sms[k].1)) {
      InSort(sms[k], ms, ByKey(MemberKey));
    }
  }

  /**
   * An array of non-null primitives is emitted as a sorted rearrangement of itself;
   * any other array as its elements in ascending order of their plain text,
   * each then put in canonical form.
   */
  lemma ArraySortedPermutation(es: seq<Json>)
    ensures IsPrimitiveArray(es) ==>
              Sorted(Canon(JArr(es)).elems, ByKey(ToStr)) &&
              multiset(Canon(JArr(es)).elems) == multiset(es)
    ensures !IsPrimitiveArray(es) ==>
              Sorted(Sort(es, ByKey(Print)), ByKey(Print)) &&
              multiset(Sort(es, ByKey(Print))) == multiset(es) &&
              Canon(JArr(es)).elems == Map(Canon, Sort(es, ByKey(Print)))
  {
    if IsPrimitiveArray(es) {
      ByKeyPreorder(ToStr);
      SortSorted(es, ByKey(ToStr));
    } else {
      CanonArray(es);
      ByKeyPreorder(Print);
      SortSorted(es, ByKey(Print));
    }
  }

  /** Permuting the insertion order of an object's keys leaves its text unchanged. */
  lemma ObjectOrderIrrelevant(ms1: seq<(string, Json)>, ms2: seq<(string, Json)>)
    requires DistinctKeys(ms1) && multiset(ms1) == multiset(ms2)
    ensures Stringify(JObj(ms1)) == Stringify(JObj(ms2))
  {
    CanonObject(ms1);
    CanonObject(ms2);
    SortMembersOrderIrrelevant(ms1, ms2);
  }

  /** Permuting an array of non-null primitives leaves its text unchanged when `String(x)` tells its elements apart. */
  lemma PrimitiveArrayOrderIrrelevant(es1: seq<Json>, es2: seq<Json>)
    requires IsPrimitiveArray(es1) && multiset(es1) == multiset(es2)
    requires forall i, j :: 0 <= i < |es1| && 0 <= j < |es1| && ToStr(es1[i]) == ToStr(es1[j]) ==> es1[i] == es1[j]
    ensures Stringify(JArr(es1)) == Stringify(JArr(es2))
  {
    assert IsPrimitiveArray(es2) by {
      forall i | 0 <= i < |es2| ensures !es2[i].IsTypeofObject() {
        assert es2[i] in multiset(es1);
      }
    }
    ByKeyAntisymmetric(es1, ToStr);
    ByKeyPreorder(ToStr);
    SortPermutationInvariant(es1, es2, ByKey(ToStr));
  }

  /** Permuting any other array leaves its text unchanged. */
  lemma ArrayOrderIrrelevant(es1: seq<Json>, es2: seq<Json>)
    requires !IsPrimitiveArray(es1) && multiset(es1) == multiset(es2)
    ensures Stringify(JArr(es1)) == Stringify(JArr(es2))
  {
    var j :| 0 <= j < |es1| && es1[j].IsTypeofObject();
    assert es1[j] in multiset(es2);
    CanonArray(es1);
    CanonArray(es2);
    PrintNoTies(es1);
    ByKeyPreorder(Print);
    SortPermutationInvariant(es1, es2, ByKey(Print));
  }

  lemma SortPair(x: Json, y: Json)
    ensures Sort([x, y], ByKey(Print)) == if StrLe(Print(x), Print(y)) then [x, y] else [y, x]
  {
    SortTwo(x, y, ByKey(Print));
  }

  lemma {:induction false} CanonPair(x: Json, y: Json)
    requires x.IsTypeofObject()
    ensures Canon(JArr([x, y])) ==
              if StrLe(Print(x), Print(y)) then JArr([Canon(x), Canon(y)]) else JArr([Canon(y), Canon(x)])
  {
    assert [x, y][0] == x;
    assert !IsPrimitiveArray([x, y]);
    SortPair(x, y);
    CanonArray([x, y]);
    if StrLe(Print(x), Print(y)) {
      MapPair(Canon, x, y);
    } else {
      MapPair(Canon, y, x);
    }
  }

  /**
   * Because elements are compared by their text before their keys are
   * sorted, two objects that differ only in key order can land on different
   * sides of a third: the arrays `[x1, y]` and `[x2, y]` are emitted
   * differently although `x1` and `x2` are emitted alike.
   */
  lemma {:induction false} NestedKeyOrderMatters(x1: Json, x2: Json, y: Json)
    requires x1.JObj? && x2.JObj?
    requires Canon(x1) == Canon(x2) && Canon(x1) != Canon(y)
    requires !StrLe(Print(x1), Print(y)) && StrLe(Print(x2), Print(y))
    ensures Stringify(x1) == Stringify(x2)
    ensures Stringify(JArr([x1, y])) != Stringify(JArr([x2, y]))
  {
    CanonPair(x1, y);
    CanonPair(x2, y);
    var c1, c2 := Canon(JArr([x1, y])), Canon(JArr([x2, y]));
    assert c1.elems[0] != c2.elems[0];
    RoundTrip(c1);
    RoundTrip(c2);
  }


  lemma ExamplePieces()
    ensures Quote("a") == "\"a\"" && Quote("b") == "\"b\""
    ensures Print(JNum(0)) == "0" && Print(JNum(1)) == "1" && Print(JNum(2)) == "2"
  {
    assert Escape("a") == EscapeChar('a') + Escape("");
    assert Escape("b") == EscapeChar('b') + Escape("");
    assert DigitChar(0) == '0' && DigitChar(1) == '1' && DigitChar(2) == '2';
  }

  lemma JoinPair(a: string, b: string)
    ensures Join([a, b], ",") == a + "," + b
  {
    assert [a, b][1..] == [b];
  }

  lemma Assoc(a: string, b: string, c: string)
    ensures a + (b + c) == a + b + c
  {
  }

  lemma PairText(k1: string, v1: Json, k2: string, v2: Json)
    ensures Print(JObj([(k1, v1), (k2, v2)])) ==
              "{" + Quote(k1) + ":" + Print(v1) + "," + Quote(k2) + ":" + Print(v2) + "}"
  {
    var ms := [(k1, v1), (k2, v2)];
    var q1, p1, q2, p2 := Quote(k1), Print(v1), Quote(k2), Print(v2);
    var t1, t2 := q1 + ":" + p1, q2 + ":" + p2;
    PrintObject(ms);
    assert MemberTexts(ms) == [t1, t2];
    JoinPair(t1, t2);
    Assoc("{", t1 + ",", t2);
    Assoc("{", t1, ",");
    Assoc("{", q1 + ":", p1);
    Assoc("{", q1, ":");
    var x1 := "{" + q1 + ":" + p1 + ",";
    Assoc(x1, q2 + ":", p2);
    Assoc(x1, q2, ":");
  }

  lemma ExamplePrints()
    ensures Print(JObj([("b", JNum(0)), ("a", JNum(1))])) == "{\"b\":0,\"a\":1}"
    ensures Print(JObj([("a", JNum(1)), ("b", JNum(0))])) == "{\"a\":1,\"b\":0}"
    ensures Print(JObj([("a", JNum(2))])) == "{\"a\":2}"
  {
    ExamplePieces();
    PairText("b", JNum(0), "a", JNum(1));
    PairText("a", JNum(1), "b", JNum(0));
    PrintObject([("a", JNum(2))]);
  }

  lemma ExampleCanon()
    ensures Canon(JObj([("b", JNum(0)), ("a", JNum(1))])) == Canon(JObj([("a", JNum(1)), ("b", JNum(0))]))
    ensures Canon(JObj([("b", JNum(0)), ("a", JNum(1))])) != Canon(JObj([("a", JNum(2))]))
  {
    var ms1, ms2 := [("b", JNum(0)), ("a", JNum(1))], [("a", JNum(1)), ("b", JNum(0))];
    assert DistinctKeys(ms1);
    assert multiset(ms1) == multiset(ms2);
    CanonObject(ms1);
    CanonObject(ms2);
    SortMembersOrderIrrelevant(ms1, ms2);
    assert |Canon(JObj(ms1)).members| == 2;
  }

  lemma ExampleOrder()
    ensures !StrLe(Print(JObj([("b", JNum(0)), ("a", JNum(1))])), Print(JObj([("a", JNum(2))])))
    ensures StrLe(Print(JObj([("a", JNum(1)), ("b", JNum(0))])), Print(JObj([("a", JNum(2))])))
  {
    ExamplePrints();
  }

  /** `{"b":0,"a":1}` and `{"a":1,"b":0}` fall on different sides of `{"a":2}`. */
  lemma NestedKeyOrderExample()
    ensures var x1, x2, y := JObj([("b", JNum(0)), ("a", JNum(1))]), JObj([("a", JNum(1)), ("b", JNum(0))]), JObj([("a", JNum(2))]);
            Stringify(x1) == Stringify(x2) && Stringify(JArr([x1, y])) != Stringify(JArr([x2, y]))
  {
    ExampleCanon();
    ExampleOrder();
    var x1, x2, y := JObj([("b", JNum(0)), ("a", JNum(1))]), JObj([("a", JNum(1)), ("b", JNum(0))]), JObj([("a", JNum(2))]);
    NestedKeyOrderMatters(x1, x2, y);
  }

  /** Key-ordered objects of numbers are their own canonical form. */
  lemma ExampleFixed()
    ensures Canon(JObj([("a", JNum(1)), ("b", JNum(0))])) == JObj([("a", JNum(1)), ("b", JNum(0))])
    ensures Canon(JObj([("a", JNum(2))])) == JObj([("a", JNum(2))])
  {
    var ms := [("a", JNum(1)), ("b", JNum(0))];
    assert StrLe("a", "b");
    SortTwo(ms[0], ms[1], ByKey(MemberKey));
    CanonObject(ms);
    MapPair(CanonMember, ms[0], ms[1]);
    CanonObject([("a", JNum(2))]);
  }

  /**
   * Unlike the Code.js revision, this canonical form is not idempotent:
   * ordering an array by the raw text of its elements before their keys are
   * sorted means that canonicalising the canonical tree again can reorder it.
   */
  lemma CanonNotIdempotent()
    ensures var v := JArr([JObj([("b", JNum(0)), ("a", JNum(1))]), JObj([("a", JNum(2))])]);
            Canon(Canon(v)) != Canon(v)
  {
    var x1, x2, y := JObj([("b", JNum(0)), ("a", JNum(1))]), JObj([("a", JNum(1)), ("b", JNum(0))]), JObj([("a", JNum(2))]);
    ExampleCanon();
    ExampleOrder();
    ExampleFixed();
    CanonPair(x1, y);
    assert Canon(JArr([x1, y])) == JArr([y, x2]);
    if StrLe(Print(y), Print(x2)) {
      StrLeAntisymmetric(Print(x2), Print(y));
      assert false;
    }
    CanonPair(y, x2);
    assert Canon(JArr([y, x2])) == JArr([x2, y]);
  }

  /**
   * `typeof null` is `'object'`, so an array holding `null` is ordered by
   * JSON text rather than by `String`: `["z", null]` comes first because
   * `"\"z\""` is below `"null"`.
   */
  lemma NullElementOrder()
    ensures !IsPrimitiveArray([JNull, JStr("z")])
    ensures Canon(JArr([JNull, JStr("z")])) == JArr([JStr("z"), JNull])
  {
    assert Escape("z") == EscapeChar('z') + Escape("");
    assert Print(JStr("z")) == "\"z\"" && Print(JNull) == "null";
    assert !StrLe("null", "\"z\"");
    CanonPair(JNull, JStr("z"));
  }
}
