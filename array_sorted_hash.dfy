/**
 * `Hashing.hashResponseData` in src/Hashing.js, the earliest revision. Its
 * replacer touches arrays only: `value.map(item => JSON.stringify(item))
 * .sort().map(item => JSON.parse(item))`, with no `catch` around the parse.
 * Objects are returned as they are, so their keys keep insertion order;
 * `JSON.stringify` still visits their values, so arrays nested in objects are
 * sorted too.
 */
module ArraySortedHash {
  import opened JsonValue
  import opened JsonText
  import opened JsonParse
  import opened StringOrder
  import opened Sorting
  import opened HexRendering
  import opened TextOrder

  /** `texts.map(item => JSON.parse(item))`: the first text that does not parse throws a SyntaxError. */
  function ParseAll(texts: seq<string>): (r: Result<seq<Json>>)
    ensures r.Ok? <==> forall i :: 0 <= i < |texts| ==> ParseJson(texts[i]).Some?
    ensures r.Ok? ==> |r.value| == |texts|
    ensures r.Ok? ==> forall i :: 0 <= i < |texts| ==> Some(r.value[i]) == ParseJson(texts[i])
  {
    if |texts| == 0 then Ok([])
    else
      match ParseJson(texts[0])
      case None => Thrown(JsError("SyntaxError", "Unexpected token in JSON"))
      case Some(first) =>
        match ParseAll(texts[1..])
        case Thrown(e) => Thrown(e)
        case Ok(rest) =>
          assert forall i :: 1 <= i < |texts| ==> texts[i] == texts[1..][i - 1];
          Ok([first] + rest)
  }

  /** The replacer applied to one value: arrays are sorted by element text, anything else is returned as it is. */
  function Replacer(v: Json): (r: Result<Json>)
    ensures r.Ok?
    ensures v.JArr? ==> r.value == JArr(Sort(v.elems, ByKey(Print)))
    ensures !v.JArr? ==> r.value == v
  {
    match v
    case JArr(es) =>
      var texts := Sort(Map(Print, es), StrLe);
      var sorted := Sort(es, ByKey(Print));
      SortMap(Print, es, ByKey(Print), StrLe);
      forall i | 0 <= i < |sorted| ensures ParseJson(texts[i]) == Some(sorted[i]) {
        RoundTrip(sorted[i]);
      }
      (match ParseAll(texts)
       case Thrown(e) => Thrown(e)
       case Ok(parsed) =>
         assert parsed == sorted;
         Ok(JArr(parsed)))
    case _ => Ok(v)
  }

  /** The tree whose plain JSON text the replacer produces. */
  function Canon(v: Json): (r: Json)
    decreases Depth(v)
    ensures r.JArr? == v.JArr? && r.JObj? == v.JObj?
    ensures !v.IsComposite() ==> r == v
    ensures v.JArr? ==> |r.elems| == |v.elems|
    ensures v.JObj? ==> Keys(r.members) == Keys(v.members)
  {
    match v
    case JArr(es) =>
      var sorted := Sort(es, ByKey(Print));
      ElementShallower(es);
      JArr(seq(|sorted|, i requires 0 <= i < |sorted| =>
        assert sorted[i] in multiset(es);
        Canon(sorted[i])))
    case JObj(ms) =>
      MemberShallower(ms);
      JObj(seq(|ms|, i requires 0 <= i < |ms| =>
        assert ms[i] in ms;
        (ms[i].0, Canon(ms[i].1))))
    case _ => v
  }

  function CanonMember(m: (string, Json)): (string, Json)
  {
    (m.0, Canon(m.1))
  }

  /** The canonical form is the replacer's output with every child put in canonical form. */
  lemma CanonAfterReplacer(v: Json)
    ensures v.JArr? ==> Canon(v) == JArr(Map(Canon, Replacer(v).value.elems))
    ensures v.JObj? ==> Canon(v) == JObj(Map(CanonMember, Replacer(v).value.members))
  {
  }

  /** The replacer's output has its children below the depth of its input. */
  lemma ReplacedShallower(v: Json)
    ensures Replacer(v).value.JArr? ==> forall c :: c in Replacer(v).value.elems ==> Depth(c) < Depth(v)
    ensures Replacer(v).value.JObj? ==> forall m :: m in Replacer(v).value.members ==> Depth(m.1) < Depth(v)
  {
    if v.JArr? {
      ElementShallower(v.elems);
      forall c | c in Sort(v.elems, ByKey(Print)) ensures Depth(c) < Depth(v) {
        InSort(c, v.elems, ByKey(Print));
      }
    } else if v.JObj? {
      MemberShallower(v.members);
    }
  }

  lemma ArrayText(cs: seq<Json>, texts: seq<string>)
    requires |texts| == |cs| && forall i :: 0 <= i < |cs| ==> texts[i] == Print(Canon(cs[i]))
    ensures "[" + Join(texts, ",") + "]" == Print(JArr(Map(Canon, cs)))
  {
    assert texts == ElementTexts(Map(Canon, cs));
    PrintArray(Map(Canon, cs));
  }

  lemma ObjectText(ms: seq<(string, Json)>, texts: seq<string>)
    requires |texts| == |ms| && forall i :: 0 <= i < |ms| ==> texts[i] == Quote(ms[i].0) + ":" + Print(Canon(ms[i].1))
    ensures "{" + Join(texts, ",") + "}" == Print(JObj(Map(CanonMember, ms)))
  {
    assert texts == MemberTexts(Map(CanonMember, ms));
    PrintObject(Map(CanonMember, ms));
  }

  /** `JSON.stringify(v, replacer)`: a throw inside the replacer escapes. */
  function Stringify(v: Json): (t: Result<string>)
    decreases Depth(v), 1
    ensures t == Ok(Print(Canon(v)))
  {
    match Replacer(v)
    case Thrown(e) => Thrown(e)
    case Ok(r) =>
      CanonAfterReplacer(v);
      if r.IsComposite() then
        ReplacedShallower(v);
        Ok(StringifyChildren(r, Depth(v)))
      else Ok(Print(r))
  }

  /** The text of the replacer's output `r`: `JSON.stringify` visits each child of it in turn. */
  function StringifyChildren(r: Json, ghost bound: nat): (t: string)
    requires r.IsComposite()
    requires r.JArr? ==> forall c :: c in r.elems ==> Depth(c) < bound
    requires r.JObj? ==> forall m :: m in r.members ==> Depth(m.1) < bound
    decreases bound, 0
    ensures r.JArr? ==> t == Print(JArr(Map(Canon, r.elems)))
    ensures r.JObj? ==> t == Print(JObj(Map(CanonMember, r.members)))
  {
    if r.JArr? then
      var cs := r.elems;
      var texts := seq(|cs|, i requires 0 <= i < |cs| => assert cs[i] in cs; Stringify(cs[i]).value);
      ArrayText(cs, texts);
      "[" + Join(texts, ",") + "]"
    else
      var ms := r.members;
      var texts := seq(|ms|, i requires 0 <= i < |ms| => assert ms[i] in ms; Quote(ms[i].0) + ":" + Stringify(ms[i].1).value);
      ObjectText(ms, texts);
      "{" + Join(texts, ",") + "}"
  }

  /** `hashResponseData(data)`, with SHA-256 supplied by the caller. */
  function HashResponseData(data: Json, sha256: string -> seq<int>): (h: Result<string>)
    ensures h == Ok(HexDigest(sha256(Print(Canon(data)))))
    ensures |sha256(Print(Canon(data)))| == 32 ==> |h.value| == 64
  {
    match Stringify(data)
    case Thrown(e) => Thrown(e)
    case Ok(text) => Ok(HexDigest(sha256(text)))
  }

  // ---------------------------------------------------------------------
  // Properties
  // ---------------------------------------------------------------------

  /**
   * The replacer returns an array's own elements, each exactly once, in
   * ascending order of their JSON text; that order is the only one with
   * this property.
   */
  lemma ArraySortedByText(es: seq<Json>)
    ensures var r := Replacer(JArr(es)).value.elems;
            Sorted(r, ByKey(Print)) && multiset(r) == multiset(es) && |r| == |es|
    ensures forall t :: Sorted(t, ByKey(Print)) && multiset(t) == multiset(es) ==>
              Replacer(JArr(es)).value == JArr(t)
  {
    ByKeyPreorder(Print);
    SortSorted(es, ByKey(Print));
    forall t | Sorted(t, ByKey(Print)) && multiset(t) == multiset(es)
      ensures Replacer(JArr(es)).value == JArr(t)
    {
      SortByTextUnique(es, t);
    }
  }

  /** Each element of the output is the JSON round trip of an element of the input. */
  lemma ElementsRoundTrip(es: seq<Json>)
    ensures forall x :: x in Replacer(JArr(es)).value.elems ==>
              exists e :: e in es && ParseJson(Print(e)) == Some(x)
  {
    var r := Replacer(JArr(es)).value.elems;
    forall x | x in r ensures exists e :: e in es && ParseJson(Print(e)) == Some(x) {
      InSort(x, es, ByKey(Print));
      RoundTrip(x);
    }
  }

  /** Objects are never re-keyed: they keep their keys in insertion order. */
  lemma ObjectKeysKept(ms: seq<(string, Json)>)
    ensures Replacer(JObj(ms)).value == JObj(ms)
    ensures Keys(Canon(JObj(ms)).members) == Keys(ms)
  {
  }

  /** So two objects with the same members in a different key order are emitted differently. */
  lemma KeyOrderMatters(ms1: seq<(string, Json)>, ms2: seq<(string, Json)>)
    requires Keys(ms1) != Keys(ms2)
    ensures Stringify(JObj(ms1)) != Stringify(JObj(ms2))
  {
    var c1, c2 := Canon(JObj(ms1)), Canon(JObj(ms2));
    assert Keys(c1.members) != Keys(c2.members);
    RoundTrip(c1);
    RoundTrip(c2);
  }

  /** Any permutation of an array gives the same output array. */
  lemma ArrayOrderIrrelevant(es1: seq<Json>, es2: seq<Json>)
    requires multiset(es1) == multiset(es2)
    ensures Replacer(JArr(es1)) == Replacer(JArr(es2))
    ensures Stringify(JArr(es1)) == Stringify(JArr(es2))
  {
    PrintNoTies(es1);
    ByKeyPreorder(Print);
    SortPermutationInvariant(es1, es2, ByKey(Print));
    assert Canon(JArr(es1)) == JArr(Map(Canon, Sort(es1, ByKey(Print))));
    assert Canon(JArr(es2)) == JArr(Map(Canon, Sort(es2, ByKey(Print))));
  }

  /** Sorting an array the replacer has already sorted changes nothing. */
  lemma ResortIsNoOp(es: seq<Json>)
    ensures Replacer(Replacer(JArr(es)).value) == Replacer(JArr(es))
  {
    ByKeyPreorder(Print);
    SortSorted(es, ByKey(Print));
    SortOfSorted(Sort(es, ByKey(Print)), ByKey(Print));
  }

  /** A two-element array: ordered by the text of its elements, each then canonical. */
  lemma CanonPair(x: Json, y: Json)
    ensures Canon(JArr([x, y])) ==
              if StrLe(Print(x), Print(y)) then JArr([Canon(x), Canon(y)]) else JArr([Canon(y), Canon(x)])
  {
    SortTwo(x, y, ByKey(Print));
    CanonAfterReplacer(JArr([x, y]));
    if StrLe(Print(x), Print(y)) {
      MapPair(Canon, x, y);
    } else {
      MapPair(Canon, y, x);
    }
  }

  /** The text of a two-element array. */
  lemma PairText(x: Json, y: Json)
    ensures Print(JArr([x, y])) == "[" + Print(x) + "," + Print(y) + "]"
  {
    PrintArray([x, y]);
    assert ElementTexts([x, y])[1..] == [Print(y)];
  }

  lemma DigitTexts()
    ensures Print(JNum(1)) == "1" && Print(JNum(2)) == "2" && Print(JNum(5)) == "5"
  {
    assert DigitChar(1) == '1' && DigitChar(2) == '2' && DigitChar(5) == '5';
  }

  /** `[2,1]` becomes `[1,2]`, and `[1,5]` and `[1,2]` are already in order. */
  lemma ExampleInner()
    ensures Canon(JArr([JNum(2), JNum(1)])) == JArr([JNum(1), JNum(2)])
    ensures Canon(JArr([JNum(1), JNum(2)])) == JArr([JNum(1), JNum(2)])
    ensures Canon(JArr([JNum(1), JNum(5)])) == JArr([JNum(1), JNum(5)])
    ensures Print(JArr([JNum(2), JNum(1)])) == "[2,1]"
    ensures Print(JArr([JNum(1), JNum(2)])) == "[1,2]"
    ensures Print(JArr([JNum(1), JNum(5)])) == "[1,5]"
  {
    DigitTexts();
    CanonPair(JNum(2), JNum(1));
    CanonPair(JNum(1), JNum(2));
    CanonPair(JNum(1), JNum(5));
    PairText(JNum(2), JNum(1));
    PairText(JNum(1), JNum(2));
    PairText(JNum(1), JNum(5));
  }

  /**
   * This canonical form is not idempotent either: an array is ordered by the
   * text of its elements before they are sorted themselves, so `[[2,1],[1,5]]`
   * becomes `[[1,5],[1,2]]`, which canonicalises again to `[[1,2],[1,5]]`.
   */
  lemma CanonNotIdempotent()
    ensures var v := JArr([JArr([JNum(2), JNum(1)]), JArr([JNum(1), JNum(5)])]);
            Canon(Canon(v)) != Canon(v)
  {
    var a, b, c := JArr([JNum(2), JNum(1)]), JArr([JNum(1), JNum(5)]), JArr([JNum(1), JNum(2)]);
    ExampleInner();
    assert !StrLe("[2,1]", "[1,5]");
    CanonPair(a, b);
    assert Canon(JArr([a, b])) == JArr([b, c]);
    assert !StrLe("[1,5]", "[1,2]");
    CanonPair(b, c);
    assert Canon(JArr([b, c])) == JArr([c, b]);
  }
}
