/**
 * `Hashing.createDeterministicHash` in Code.js: `JSON.stringify` with a
 * replacer that re-keys objects in sorted order, sorts arrays of primitives
 * by `String(x)`, and sorts any other array by the text each element gets
 * from the same replacer, parsing each text back; the text is then digested
 * with SHA-256 and rendered in hexadecimal.
 *
 * `Replacer` and `Stringify` follow the code step by step; `Canon` is an
 * independent description of the tree whose plain JSON text the replacer
 * produces, and the contract of `Stringify` ties the two together.
 */
module DeterministicHash {
  import opened JsonValue
  import opened JsonText
  import opened JsonParse
  import opened StringOrder
  import opened Sorting
  import opened KeyOrder
  import opened HexRendering
  import opened TextOrder
  import opened Standardizer

  /** `value.every(item => typeof item !== 'object' || item === null)` */
  predicate IsFlat(es: seq<Json>)
  {
    forall i :: 0 <= i < |es| ==> !es[i].IsComposite()
  }

  /**
   * The canonical form: objects have their members in key order and canonical
   * values; flat arrays are sorted by `String(x)`; other arrays hold the
   * canonical forms of their elements, sorted by their JSON text.
   */
  function Canon(v: Json): (r: Json)
    ensures r.JArr? == v.JArr? && r.JObj? == v.JObj?
    ensures !v.IsComposite() ==> r == v
    ensures v.JArr? ==> |r.elems| == |v.elems|
    ensures v.JObj? ==> Keys(r.members) == Sort(Keys(v.members), StrLe)
  {
    match v
    case JArr(es) =>
      if IsFlat(es) then JArr(Sort(es, ByKey(ToStr)))
      else JArr(Sort(seq(|es|, i requires 0 <= i < |es| => Canon(es[i])), ByKey(Print)))
    case JObj(ms) =>
      var cms := seq(|ms|, i requires 0 <= i < |ms| => (ms[i].0, Canon(ms[i].1)));
      assert Keys(cms) == Keys(ms);
      SortMembersKeys(cms);
      JObj(SortMembers(cms))
    case _ => v
  }

  /** A member with its value in canonical form. */
  function CanonMember(m: (string, Json)): (string, Json)
  {
    (m.0, Canon(m.1))
  }

  // ---------------------------------------------------------------------
  // Canon, stated with Map
  // ---------------------------------------------------------------------

  lemma CanonArray(es: seq<Json>)
    requires !IsFlat(es)
    ensures Canon(JArr(es)) == JArr(Sort(Map(Canon, es), ByKey(Print)))
  {
    assert Map(Canon, es) == seq(|es|, i requires 0 <= i < |es| => Canon(es[i]));
  }

  /** An object is emitted with its members in key order and each value canonical. */
  lemma CanonObject(ms: seq<(string, Json)>)
    ensures Canon(JObj(ms)) == JObj(Map(CanonMember, SortMembers(ms)))
  {
    var cms := seq(|ms|, i requires 0 <= i < |ms| => (ms[i].0, Canon(ms[i].1)));
    assert cms == Map(CanonMember, ms);
    CanonMembersSort(ms);
  }

  /** Making member values canonical does not change their keys, so it commutes with sorting by key. */
  lemma CanonMembersSort(ms: seq<(string, Json)>)
    ensures Map(CanonMember, SortMembers(ms)) == SortMembers(Map(CanonMember, ms))
  {
    forall a, b ensures ByKey(MemberKey)(CanonMember(a), CanonMember(b)) == ByKey(MemberKey)(a, b) {
    }
    SortMap(CanonMember, ms, ByKey(MemberKey), ByKey(MemberKey));
  }

  // ---------------------------------------------------------------------
  // Depth and idempotence
  // ---------------------------------------------------------------------

  /** The elements of a canonical flat array are elements of the array. */
  lemma FlatCanonShallower(es: seq<Json>)
    requires IsFlat(es)
    ensures forall c :: c in Canon(JArr(es)).elems ==> Depth(c) < Depth(JArr(es))
  {
    ElementShallower(es);
    forall c | c in Canon(JArr(es)).elems ensures Depth(c) < Depth(JArr(es)) {
      InSort(c, es, ByKey(ToStr));
    }
  }

  /** Each canonical element of another array is no deeper than the element it comes from. */
  lemma CanonElementShallower(es: seq<Json>, c: Json)
    requires forall e :: e in es ==> Depth(Canon(e)) <= Depth(e)
    requires c in Map(Canon, es)
    ensures Depth(c) < Depth(JArr(es))
  {
    ElementShallower(es);
    var j :| 0 <= j < |es| && Map(Canon, es)[j] == c;
    assert es[j] in es;
  }

  /** An array whose elements do not deepen when canonicalised does not either. */
  lemma CanonArrayDepth(es: seq<Json>)
    requires forall e :: e in es ==> Depth(Canon(e)) <= Depth(e)
    ensures Depth(Canon(JArr(es))) <= Depth(JArr(es))
  {
    var v := JArr(es);
    var cs := Canon(v).elems;
    if IsFlat(es) {
      FlatCanonShallower(es);
    } else {
      CanonArray(es);
      forall c | c in cs ensures Depth(c) < Depth(v) {
        InSort(c, Map(Canon, es), ByKey(Print));
        CanonElementShallower(es, c);
      }
    }
    ArrayDepthBound(cs, Depth(v));
  }

  /** An object whose values do not deepen when canonicalised does not either. */
  lemma CanonObjectDepth(ms: seq<(string, Json)>)
    requires forall m :: m in ms ==> Depth(Canon(m.1)) <= Depth(m.1)
    ensures Depth(Canon(JObj(ms))) <= Depth(JObj(ms))
  {
    var v := JObj(ms);
    CanonObject(ms);
    var cms := Canon(v).members;
    forall m | m in cms ensures Depth(m.1) < Depth(v) {
      var j :| 0 <= j < |cms| && cms[j] == m;
      CanonMemberShallower(ms, j);
    }
    ObjectDepthBound(cms, Depth(v));
  }

  lemma CanonMemberShallower(ms: seq<(string, Json)>, j: nat)
    requires forall m :: m in ms ==> Depth(Canon(m.1)) <= Depth(m.1)
    requires j < |ms|
    ensures Depth(CanonMember(SortMembers(ms)[j]).1) < Depth(JObj(ms))
  {
    MemberShallower(ms);
    InSort(SortMembers(ms)[j], ms, ByKey(MemberKey));
  }

  /** Canonicalising never makes a value deeper. */
  lemma {:induction false} CanonDepth(v: Json)
    ensures Depth(Canon(v)) <= Depth(v)
  {
    match v
    case JArr(es) =>
      forall e | e in es ensures Depth(Canon(e)) <= Depth(e) {
        CanonDepth(e);
      }
      CanonArrayDepth(es);
    case JObj(ms) =>
      forall m | m in ms ensures Depth(Canon(m.1)) <= Depth(m.1) {
        assert m.1 < v;
        CanonDepth(m.1);
      }
      CanonObjectDepth(ms);
    case _ =>
  }

  /** Canonicalising a canonical value changes nothing. */
  lemma {:induction false} CanonIdempotent(v: Json)
    ensures Canon(Canon(v)) == Canon(v)
  {
    match v
    case JArr(es) =>
      forall e | e in es ensures Canon(Canon(e)) == Canon(e) {
        CanonIdempotent(e);
      }
      if IsFlat(es) {
        FlatIdempotent(es);
      } else {
        ArrayIdempotent(es);
      }
    case JObj(ms) =>
      forall m | m in ms ensures Canon(Canon(m.1)) == Canon(m.1) {
        CanonIdempotent(m.1);
      }
      ObjectIdempotent(ms);
    case _ =>
  }

  lemma FlatIdempotent(es: seq<Json>)
    requires IsFlat(es)
    ensures Canon(Canon(JArr(es))) == Canon(JArr(es))
  {
    var cs := Sort(es, ByKey(ToStr));
    assert IsFlat(cs) by {
      forall i | 0 <= i < |cs| ensures !cs[i].IsComposite() {
        InSort(cs[i], es, ByKey(ToStr));
      }
    }
    ByKeyPreorder(ToStr);
    SortSorted(es, ByKey(ToStr));
    SortOfSorted(cs, ByKey(ToStr));
  }

  /** The elements of a canonical array are canonical once the input elements' forms are. */
  lemma ElementsFixed(es: seq<Json>)
    requires forall e :: e in es ==> Canon(Canon(e)) == Canon(e)
    ensures forall c :: c in Canon(JArr(es)).elems ==> Canon(c) == c
  {
    forall c | c in Canon(JArr(es)).elems ensures Canon(c) == c {
      if IsFlat(es) {
        InSort(c, es, ByKey(ToStr));
        var j :| 0 <= j < |es| && es[j] == c;
      } else {
        CanonArray(es);
        InSort(c, Map(Canon, es), ByKey(Print));
        var j :| 0 <= j < |es| && Map(Canon, es)[j] == c;
        assert es[j] in es;
      }
    }
  }

  lemma ArrayIdempotent(es: seq<Json>)
    requires !IsFlat(es)
    requires forall e :: e in es ==> Canon(Canon(e)) == Canon(e)
    ensures Canon(Canon(JArr(es))) == Canon(JArr(es))
  {
    CanonArray(es);
    var cs := Canon(JArr(es)).elems;
    ElementsFixed(es);
    assert Map(Canon, cs) == cs;
    var j :| 0 <= j < |es| && es[j].IsComposite();
    assert Map(Canon, es)[j] in multiset(cs);
    assert !IsFlat(cs);
    CanonArray(cs);
    ByKeyPreorder(Print);
    SortSorted(Map(Canon, es), ByKey(Print));
    SortOfSorted(cs, ByKey(Print));
  }

  /** Members whose values are already canonical are left as they are. */
  lemma CanonMembersFixed(ms: seq<(string, Json)>)
    requires forall m :: m in ms ==> Canon(Canon(m.1)) == Canon(m.1)
    ensures Map(CanonMember, Map(CanonMember, SortMembers(ms))) == Map(CanonMember, SortMembers(ms))
  {
    var sms := SortMembers(ms);
    var cms := Map(CanonMember, sms);
    forall i | 0 <= i < |cms| ensures CanonMember(cms[i]) == cms[i] {
      InSort(sms[i], ms, ByKey(MemberKey));
    }
  }

  /** The canonical members of an object are in key order. */
  lemma CanonMembersSorted(ms: seq<(string, Json)>)
    ensures Sorted(Map(CanonMember, SortMembers(ms)), ByKey(MemberKey))
  {
    var sms := SortMembers(ms);
    var cms := Map(CanonMember, sms);
    SortMembersSorted(ms);
    forall i, j | 0 <= i < j < |cms| ensures ByKey(MemberKey)(cms[i], cms[j]) {
      assert Keys(sms)[i] == cms[i].0 && Keys(sms)[j] == cms[j].0;
    }
  }

  lemma ObjectIdempotent(ms: seq<(string, Json)>)
    requires forall m :: m in ms ==> Canon(Canon(m.1)) == Canon(m.1)
    ensures Canon(Canon(JObj(ms))) == Canon(JObj(ms))
  {
    var cms := Map(CanonMember, SortMembers(ms));
    CanonObject(ms);
    CanonObject(cms);
    CanonMembersFixed(ms);
    CanonMembersSorted(ms);
    SortOfSorted(cms, ByKey(MemberKey));
    assert SortMembers(cms) == cms;
  }

  /** The elements of a canonical array are canonical. */
  lemma CanonElementsFixed(es: seq<Json>)
    ensures forall c :: c in Canon(JArr(es)).elems ==> Canon(c) == c
  {
    forall e | e in es ensures Canon(Canon(e)) == Canon(e) {
      CanonIdempotent(e);
    }
    ElementsFixed(es);
  }

  // ---------------------------------------------------------------------
  // The replacer and JSON.stringify, as the code runs them
  // ---------------------------------------------------------------------

  lemma TextsOfCanon(es: seq<Json>, texts: seq<string>)
    requires |texts| == |es| && forall i :: 0 <= i < |es| ==> texts[i] == Print(Canon(es[i]))
    ensures texts == Map(Print, Map(Canon, es))
  {
  }

  /**
   * Sorting the element texts and parsing them back gives the canonical
   * elements: the texts are those of the canonical elements, sorting texts is
   * sorting the elements by text, and every text parses back to its element.
   */
  lemma SortedTextsParseBack(es: seq<Json>, texts: seq<string>)
    requires !IsFlat(es)
    requires |texts| == |es| && forall i :: 0 <= i < |es| ==> texts[i] == Print(Canon(es[i]))
    ensures JArr(Map(ParseBack, Sort(texts, StrLe))) == Canon(JArr(es))
  {
    CanonArray(es);
    TextsOfCanon(es, texts);
    SortTextsParseBack(Map(Canon, es));
  }

  /**
   * The replacer of Code.js applied to one value: a flat array is sorted, any
   * other array has its elements stringified with this same replacer, sorted
   * by text and parsed back, and an object is re-keyed in sorted order.
   */
  function Replacer(v: Json): (r: Json)
    decreases Depth(v), 0
    ensures v.JArr? ==> r == Canon(v)
    ensures v.JObj? ==> r == JObj(SortMembers(v.members))
    ensures !v.IsComposite() ==> r == v
    ensures Depth(r) <= Depth(v)
  {
    match v
    case JArr(es) =>
      CanonDepth(v);
      if IsFlat(es) then JArr(Sort(es, ByKey(ToStr)))
      else
        ElementShallower(es);
        var texts := seq(|es|, i requires 0 <= i < |es| => Stringify(es[i]));
        SortedTextsParseBack(es, texts);
        JArr(Map(ParseBack, Sort(texts, StrLe)))
    case JObj(ms) =>
      SortMembersDepth(ms);
      JObj(SortMembers(ms))
    case _ => v
  }

  lemma ArrayText(v: Json, cs: seq<Json>, texts: seq<string>)
    requires v.JArr? && Canon(v) == JArr(cs)
    requires |texts| == |cs| && forall i :: 0 <= i < |cs| ==> texts[i] == Print(Canon(cs[i]))
    ensures "[" + Join(texts, ",") + "]" == Print(Canon(v))
  {
    CanonElementsFixed(v.elems);
    assert texts == ElementTexts(cs);
    PrintArray(cs);
  }

  lemma ObjectText(v: Json, sms: seq<(string, Json)>, texts: seq<string>)
    requires v.JObj? && sms == SortMembers(v.members)
    requires |texts| == |sms|
    requires forall i :: 0 <= i < |sms| ==> texts[i] == Quote(sms[i].0) + ":" + Print(Canon(sms[i].1))
    ensures "{" + Join(texts, ",") + "}" == Print(Canon(v))
  {
    CanonObject(v.members);
    var cms := Map(CanonMember, sms);
    assert texts == MemberTexts(cms);
    PrintObject(cms);
  }

  /**
   * `JSON.stringify(v, replacer)`: the replacer is applied to `v`, and the
   * children of what it returns are emitted the same way.
   */
  function Stringify(v: Json): (t: string)
    decreases Depth(v), 1
    ensures t == Print(Canon(v))
  {
    var r := Replacer(v);
    match r
    case JArr(cs) =>
      ElementShallower(cs);
      var texts := seq(|cs|, i requires 0 <= i < |cs| => Stringify(cs[i]));
      ArrayText(v, cs, texts);
      "[" + Join(texts, ",") + "]"
    case JObj(ms) =>
      MemberShallower(ms);
      var texts := seq(|ms|, i requires 0 <= i < |ms| => Quote(ms[i].0) + ":" + Stringify(ms[i].1));
      ObjectText(v, ms, texts);
      "{" + Join(texts, ",") + "}"
    case _ => Print(r)
  }

  // ---------------------------------------------------------------------
  // What the canonical text promises
  // ---------------------------------------------------------------------

  /** An object is emitted with its keys in ascending order. */
  lemma ObjectKeysSorted(ms: seq<(string, Json)>)
    ensures Sorted(Keys(Canon(JObj(ms)).members), StrLe)
  {
    StrLeOrder();
    SortSorted(Keys(ms), StrLe);
  }

  /** Every object in the output, at any depth, lists its keys in ascending order. */
  lemma {:induction false} CanonKeysSortedDeep(v: Json)
    ensures KeysSortedDeep(Canon(v))
    decreases Depth(v)
  {
    match v
    case JArr(es) =>
      ElementShallower(es);
      forall e | e in es ensures KeysSortedDeep(Canon(e)) {
        CanonKeysSortedDeep(e);
      }
      ArraySortedDeep(es);
    case JObj(ms) =>
      MemberShallower(ms);
      forall m | m in ms ensures KeysSortedDeep(Canon(m.1)) {
        CanonKeysSortedDeep(m.1);
      }
      ObjectSortedDeep(ms);
    case _ =>
  }

  lemma ArraySortedDeep(es: seq<Json>)
    requires forall e :: e in es ==> KeysSortedDeep(Canon(e))
    ensures KeysSortedDeep(Canon(JArr(es)))
  {
    var cs := Canon(JArr(es)).elems;
    if IsFlat(es) {
      forall k | 0 <= k < |cs| ensures KeysSortedDeep(cs[k]) {
        InSort(cs[k], es, ByKey(ToStr));
      }
    } else {
      CanonArray(es);
      forall k | 0 <= k < |cs| ensures KeysSortedDeep(cs[k]) {
        InSort(cs[k], Map(Canon, es), ByKey(Print));
      }
    }
  }

  lemma ObjectSortedDeep(ms: seq<(string, Json)>)
    requires forall m :: m in ms ==> KeysSortedDeep(Canon(m.1))
    ensures KeysSortedDeep(Canon(JObj(ms)))
  {
    var sms := SortMembers(ms);
    var cms := Canon(JObj(ms)).members;
    CanonObject(ms);
    ObjectKeysSorted(ms);
    forall k | 0 <= k < |cms| ensures KeysSortedDeep(cms[k].1) {
      InSort(sms[k], ms, ByKey(MemberKey));
    }
  }

  /** Replacing one element by a value of the same canonical form leaves the array's canonical form as it was. */
  lemma ElementCongruence(es: seq<Json>, i: nat, x: Json)
    requires i < |es| && Canon(x) == Canon(es[i])
    ensures Canon(JArr(es[i := x])) == Canon(JArr(es))
  {
    if x.IsComposite() {
      CompositeElementCongruence(es, i, x);
    } else {
      assert x == Canon(x) == Canon(es[i]) == es[i];
      assert es[i := x] == es;
    }
  }

  lemma CompositeElementCongruence(es: seq<Json>, i: nat, x: Json)
    requires i < |es| && Canon(x) == Canon(es[i]) && x.IsComposite()
    ensures Canon(JArr(es[i := x])) == Canon(JArr(es))
  {
    var es2 := es[i := x];
    assert !IsFlat(es2) by {
      assert es2[i] == x;
    }
    assert !IsFlat(es) by {
      assert es[i].IsComposite();
    }
    CanonArray(es);
    CanonArray(es2);
    MapUpdate(Canon, es, i, x);
  }

  /** Replacing one member's value by a value of the same canonical form leaves the object's canonical form as it was. */
  lemma MemberCongruence(ms: seq<(string, Json)>, i: nat, x: Json)
    requires i < |ms| && Canon(x) == Canon(ms[i].1)
    ensures Canon(JObj(ms[i := (ms[i].0, x)])) == Canon(JObj(ms))
  {
    var ms2 := ms[i := (ms[i].0, x)];
    MapUpdate(CanonMember, ms, i, (ms[i].0, x));
    CanonMembersAgree(ms, ms2);
    CanonObject(ms);
    CanonObject(ms2);
  }

  /** Objects whose members agree once canonical have the same canonical form. */
  lemma CanonMembersAgree(ms1: seq<(string, Json)>, ms2: seq<(string, Json)>)
    requires Map(CanonMember, ms1) == Map(CanonMember, ms2)
    ensures Map(CanonMember, SortMembers(ms1)) == Map(CanonMember, SortMembers(ms2))
  {
    CanonMembersSort(ms1);
    CanonMembersSort(ms2);
  }

  /**
   * Canonical forms are congruent: replacing a value anywhere inside `v` by
   * one of the same canonical form leaves the canonical form of `v` as it was.
   */
  lemma {:induction false} CanonCongruence(v: Json, path: seq<nat>, x: Json)
    requires At(v, path).Some? && Canon(At(v, path).value) == Canon(x)
    ensures Canon(Replace(v, path, x)) == Canon(v)
    decreases |path|
  {
    if |path| > 0 {
      var i := path[0];
      match v
      case JArr(es) =>
        CanonCongruence(es[i], path[1..], x);
        ElementCongruence(es, i, Replace(es[i], path[1..], x));
      case JObj(ms) =>
        CanonCongruence(ms[i].1, path[1..], x);
        MemberCongruence(ms, i, Replace(ms[i].1, path[1..], x));
    }
  }

  /**
   * A flat array is emitted as a sorted rearrangement of its elements (by
   * `String(x)`); any other array as a rearrangement of its elements'
   * canonical forms, sorted by their JSON text.
   */
  lemma ArraySortedPermutation(es: seq<Json>)
    ensures IsFlat(es) ==>
              Sorted(Canon(JArr(es)).elems, ByKey(ToStr)) &&
              multiset(Canon(JArr(es)).elems) == multiset(es)
    ensures !IsFlat(es) ==>
              Sorted(Canon(JArr(es)).elems, ByKey(Print)) &&
              multiset(Canon(JArr(es)).elems) == multiset(Map(Canon, es))
  {
    if IsFlat(es) {
      ByKeyPreorder(ToStr);
      SortSorted(es, ByKey(ToStr));
    } else {
      CanonArray(es);
      ByKeyPreorder(Print);
      SortSorted(Map(Canon, es), ByKey(Print));
    }
  }

  /** Permuting the insertion order of an object's keys leaves its text unchanged. */
  lemma ObjectOrderIrrelevant(ms1: seq<(string, Json)>, ms2: seq<(string, Json)>)
    requires DistinctKeys(ms1) && multiset(ms1) == multiset(ms2)
    ensures Canon(JObj(ms1)) == Canon(JObj(ms2))
    ensures Stringify(JObj(ms1)) == Stringify(JObj(ms2))
  {
    CanonObject(ms1);
    CanonObject(ms2);
    SortMembersOrderIrrelevant(ms1, ms2);
  }

  /**
   * Permuting a flat array leaves its text unchanged, provided no two
   * different elements print the same under `String(x)`.
   */
  lemma FlatArrayOrderIrrelevant(es1: seq<Json>, es2: seq<Json>)
    requires IsFlat(es1) && multiset(es1) == multiset(es2)
    requires forall i, j :: 0 <= i < |es1| && 0 <= j < |es1| && ToStr(es1[i]) == ToStr(es1[j]) ==> es1[i] == es1[j]
    ensures Stringify(JArr(es1)) == Stringify(JArr(es2))
  {
    assert IsFlat(es2) by {
      forall i | 0 <= i < |es2| ensures !es2[i].IsComposite() {
        assert es2[i] in multiset(es1);
      }
    }
    ByKeyAntisymmetric(es1, ToStr);
    ByKeyPreorder(ToStr);
    SortPermutationInvariant(es1, es2, ByKey(ToStr));
  }

  /** Sorting two elements that compare equal keeps them where they are. */
  lemma SortTwoTied(x: Json, y: Json)
    requires ToStr(x) == ToStr(y)
    ensures Sort([x, y], ByKey(ToStr)) == [x, y]
  {
    StrLeReflexive(ToStr(x));
    SortTwo(x, y, ByKey(ToStr));
  }

  /**
   * Elements that `String(x)` cannot tell apart keep their input order, so
   * two such arrays that differ only in that order are emitted differently.
   */
  lemma FlatTiesKeepInputOrder(x: Json, y: Json)
    requires !x.IsComposite() && !y.IsComposite() && ToStr(x) == ToStr(y)
    ensures Canon(JArr([x, y])) == JArr([x, y])
    ensures x != y ==> Stringify(JArr([x, y])) != Stringify(JArr([y, x]))
  {
    FlatTieCanon(x, y);
    FlatTieCanon(y, x);
    if x != y {
      assert JArr([x, y]) != JArr([y, x]) by {
        assert [x, y][0] != [y, x][0];
      }
      RoundTrip(JArr([x, y]));
      RoundTrip(JArr([y, x]));
    }
  }

  lemma FlatTieCanon(x: Json, y: Json)
    requires !x.IsComposite() && !y.IsComposite() && ToStr(x) == ToStr(y)
    ensures Canon(JArr([x, y])) == JArr([x, y])
  {
    assert IsFlat([x, y]);
    SortTwoTied(x, y);
  }

  /** `1` and `"1"` are such a pair: `String` renders both as `1`. */
  lemma FlatArrayOrderCanMatter()
    ensures ToStr(JNum(1)) == ToStr(JStr("1")) && JNum(1) != JStr("1")
    ensures Stringify(JArr([JNum(1), JStr("1")])) != Stringify(JArr([JStr("1"), JNum(1)]))
  {
    assert DigitChar(1) == '1';
    FlatTiesKeepInputOrder(JNum(1), JStr("1"));
  }

  /**
   * Here `null` is a primitive, so an array holding it is sorted by
   * `String`: `[null, "z"]` stays as it is, because `"null"` is below `"z"`.
   */
  lemma NullElementOrder()
    ensures IsFlat([JNull, JStr("z")])
    ensures Canon(JArr([JNull, JStr("z")])) == JArr([JNull, JStr("z")])
  {
    assert StrLe("null", "z");
    SortTwo(JNull, JStr("z"), ByKey(ToStr));
  }

  /** Permuting an array that holds an object leaves its text unchanged. */
  lemma ArrayOrderIrrelevant(es1: seq<Json>, es2: seq<Json>)
    requires !IsFlat(es1) && multiset(es1) == multiset(es2)
    ensures Canon(JArr(es1)) == Canon(JArr(es2))
    ensures Stringify(JArr(es1)) == Stringify(JArr(es2))
  {
    var j :| 0 <= j < |es1| && es1[j].IsComposite();
    assert es1[j] in multiset(es2);
    assert !IsFlat(es2);
    CanonArray(es1);
    CanonArray(es2);
    var c1, c2 := Map(Canon, es1), Map(Canon, es2);
    MapPermutation(Canon, es1, es2);
    PrintNoTies(c1);
    ByKeyPreorder(Print);
    SortPermutationInvariant(c1, c2, ByKey(Print));
  }

  /**
   * Order independence at any depth: permuting the keys of an object found
   * anywhere inside `v` changes neither the text nor the hash of `v`.
   */
  lemma NestedObjectOrderIrrelevant(v: Json, path: seq<nat>, ms1: seq<(string, Json)>, ms2: seq<(string, Json)>,
                                    sha256: string -> seq<int>)
    requires At(v, path) == Some(JObj(ms1)) && DistinctKeys(ms1) && multiset(ms1) == multiset(ms2)
    ensures Stringify(Replace(v, path, JObj(ms2))) == Stringify(v)
    ensures CreateDeterministicHash(Replace(v, path, JObj(ms2)), sha256) == CreateDeterministicHash(v, sha256)
  {
    ObjectOrderIrrelevant(ms1, ms2);
    CanonCongruence(v, path, JObj(ms2));
  }

  /**
   * Likewise for permuting an array that holds an object or an array,
   * wherever that array sits inside `v`.
   */
  lemma NestedArrayOrderIrrelevant(v: Json, path: seq<nat>, es1: seq<Json>, es2: seq<Json>,
                                   sha256: string -> seq<int>)
    requires At(v, path) == Some(JArr(es1)) && !IsFlat(es1) && multiset(es1) == multiset(es2)
    ensures Stringify(Replace(v, path, JArr(es2))) == Stringify(v)
    ensures CreateDeterministicHash(Replace(v, path, JArr(es2)), sha256) == CreateDeterministicHash(v, sha256)
  {
    ArrayOrderIrrelevant(es1, es2);
    CanonCongruence(v, path, JArr(es2));
  }

  /** Every element text the replacer produces parses back: the `catch` branch is never taken. */
  lemma ParseBackSucceeds(v: Json)
    ensures ParseJson(Stringify(v)) == Some(Canon(v))
  {
    RoundTrip(Canon(v));
  }

  /** Running the canonicaliser over its own output, parsed back, reproduces the same text. */
  lemma StringifyIdempotent(v: Json)
    ensures ParseJson(Stringify(v)).Some?
    ensures Stringify(ParseJson(Stringify(v)).value) == Stringify(v)
  {
    ParseBackSucceeds(v);
    CanonIdempotent(v);
  }

  // ---------------------------------------------------------------------
  // Digest
  // ---------------------------------------------------------------------

  /** `createDeterministicHash(data)`, with SHA-256 supplied by the caller. */
  function CreateDeterministicHash(data: Json, sha256: string -> seq<int>): (h: string)
    ensures h == HexDigest(sha256(Print(Canon(data))))
    ensures |sha256(Print(Canon(data)))| == 32 ==> |h| == 64
  {
    HexDigest(sha256(Stringify(data)))
  }

  /** Two inputs whose canonical forms agree hash alike, whatever the digest function. */
  lemma HashDependsOnCanonOnly(a: Json, b: Json, sha256: string -> seq<int>)
    requires Canon(a) == Canon(b)
    ensures CreateDeterministicHash(a, sha256) == CreateDeterministicHash(b, sha256)
  {
  }

  /**
   * `hashResponseData(data)` (and `hashBatchData`, which has the same body):
   * standardise, then hash. A throw while standardising escapes.
   */
  function HashResponseData(data: Json, le: (string, string) -> bool, sha256: string -> seq<int>): (r: Result<string>)
    ensures r.Ok? <==> Standardize(data, le).Ok?
    ensures r.Ok? ==> r.value == HexDigest(sha256(Print(Canon(Standardize(data, le).value))))
  {
    match Standardize(data, le)
    case Thrown(e) => Thrown(e)
    case Ok(standardized) => Ok(CreateDeterministicHash(standardized, sha256))
  }

  /** Hashing standardised data again through `hashResponseData` gives the same digest. */
  lemma HashOfStandardized(data: Json, le: (string, string) -> bool, sha256: string -> seq<int>)
    requires TotalPreorder(le) && Standardize(data, le).Ok?
    ensures HashResponseData(Standardize(data, le).value, le, sha256) == HashResponseData(data, le, sha256)
    ensures HashResponseData(data, le, sha256) == Ok(CreateDeterministicHash(Standardize(data, le).value, sha256))
  {
    StandardizeIdempotent(data, le);
  }

  /**
   * The digest of a single response does not depend on the order its items
   * are listed in, as long as no two different item records tie on title.
   */
  lemma HashIgnoresItemOrder(items1: seq<Json>, items2: seq<Json>, le: (string, string) -> bool, sha256: string -> seq<int>)
    requires TotalPreorder(le) && multiset(items1) == multiset(items2)
    requires AntisymmetricOn(Map(ItemRecord, items1), ItemOrder(le))
    ensures HashResponseData(JObj([("items", JArr(items1))]), le, sha256) ==
            HashResponseData(JObj([("items", JArr(items2))]), le, sha256)
  {
    ItemOrderIrrelevant(items1, items2, le);
    ItemsOnly(items1, le);
    ItemsOnly(items2, le);
    var d1, d2 := JObj([("items", JArr(items1))]), JObj([("items", JArr(items2))]);
    assert Standardize(d1, le) == Standardize(d2, le);
  }
}
