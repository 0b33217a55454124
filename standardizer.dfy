/**
 * `standardizeDataForCsvCompatibility`: the shape a form response is reduced
 * to before it is hashed, so that the digest does not depend on item order
 * or on fields other than an item's title and answer.
 *
 * Titles are compared with `localeCompare`, whose order depends on the
 * locale; it is the parameter `le`, where `le(a, b)` means
 * `a.localeCompare(b) <= 0`. Properties that need it to be an order say so.
 */
module Standardizer {
  import opened JsonValue
  import opened Sorting

  /** The TypeError a property read on `null` throws. */
  function NullRead(key: string): JsError
  {
    JsError("TypeError", "Cannot read properties of null (reading '" + key + "')")
  }

  /** `v[key]`: throws on `null`, reads an object's member, and is `undefined` on anything else. */
  function Prop(v: Json, key: string): (r: Result<Option<Json>>)
    ensures r.Thrown? <==> v.JNull?
    ensures r.Ok? ==> r.value == Get(v, key)
  {
    if v.JNull? then Thrown(NullRead(key)) else Ok(Get(v, key))
  }

  /** `item.title || ""` */
  function TitleOf(item: Json): (t: Json)
    ensures t.Truthy() || t == JStr("")
    ensures Get(item, "title").Some? && Get(item, "title").value.Truthy() ==> t == Get(item, "title").value
    ensures !(Get(item, "title").Some? && Get(item, "title").value.Truthy()) ==> t == JStr("")
  {
    GetOr(item, "title", JStr(""))
  }

  /** The text `localeCompare` compares: the receiver is a string title, the argument is converted with `String`. */
  function TitleKey(item: Json): string
  {
    ToStr(TitleOf(item))
  }

  /** `item.response !== null && item.response !== undefined ? String(item.response) : ""` */
  function ResponseText(item: Json): (s: string)
    ensures Get(item, "response").None? || Get(item, "response") == Some(JNull) ==> s == ""
    ensures Get(item, "response").Some? && Get(item, "response") != Some(JNull) ==> s == ToStr(Get(item, "response").value)
  {
    match Get(item, "response")
    case None => ""
    case Some(v) => if v.JNull? then "" else ToStr(v)
  }

  /** A grid answer (an object) is reduced to the text `[object Object]`, whatever it holds. */
  lemma ObjectAnswerCollapses(item: Json, ms: seq<(string, Json)>)
    requires Get(item, "response") == Some(JObj(ms))
    ensures ResponseText(item) == "[object Object]"
  {
  }

  /** The record an item is reduced to. */
  function ItemRecord(item: Json): (r: Json)
    ensures r.JObj? && Keys(r.members) == ["title", "response"]
    ensures Get(r, "title") == Some(TitleOf(item))
    ensures Get(r, "response") == Some(JStr(ResponseText(item)))
  {
    var ms := [("title", TitleOf(item)), ("response", JStr(ResponseText(item)))];
    assert ms[0].0 != "response";
    assert Lookup(ms, "response") == Lookup(ms[1..], "response");
    JObj(ms)
  }

  /** The comparator handed to `sort`: items ordered by title. */
  function ItemOrder(le: (string, string) -> bool): (r: (Json, Json) -> bool)
    ensures forall a, b :: r(a, b) == le(TitleKey(a), TitleKey(b))
  {
    (a: Json, b: Json) => le(TitleKey(a), TitleKey(b))
  }

  predicate HasNull(items: seq<Json>)
  {
    exists i :: 0 <= i < |items| && items[i].JNull?
  }

  /**
   * `items.slice().sort(byTitle).map(toRecord)`: a `null` item makes the
   * comparator or the `map` read `null.title`.
   */
  function StandardizeItems(items: seq<Json>, le: (string, string) -> bool): (r: Result<seq<Json>>)
    ensures r.Thrown? <==> HasNull(items)
    ensures r.Thrown? ==> r.error == NullRead("title")
    ensures r.Ok? ==> |r.value| == |items|
  {
    if HasNull(items) then Thrown(NullRead("title"))
    else Ok(Map(ItemRecord, Sort(items, ItemOrder(le))))
  }

  /**
   * `(response.items || [])` followed by `.slice().sort(...)`: a falsy value
   * stands for the empty list, an array is used as it is, and any other
   * truthy value has no `slice`/`sort` to call.
   */
  function ItemsOf(response: Json): (r: Result<seq<Json>>)
    ensures response.JNull? ==> r == Thrown(NullRead("items"))
    ensures !response.JNull? && (Get(response, "items").None? || !Get(response, "items").value.Truthy()) ==> r == Ok([])
    ensures Get(response, "items").Some? && Get(response, "items").value.JArr? ==>
              r == Ok(Get(response, "items").value.elems)
    ensures Get(response, "items").Some? && Get(response, "items").value.Truthy() && !Get(response, "items").value.JArr? ==>
              r.Thrown? && r.error.name == "TypeError"
  {
    match Prop(response, "items")
    case Thrown(e) => Thrown(e)
    case Ok(None) => Ok([])
    case Ok(Some(v)) =>
      if v.JArr? then Ok(v.elems)
      else if v.Truthy() then Thrown(JsError("TypeError", "items.slice(...).sort is not a function"))
      else Ok([])
  }

  /** `"response-" + index` */
  function ResponseId(index: nat): string
  {
    "response-" + NatToString(index)
  }

  /** A standardised response: its positional label and its standardised items. */
  function ResponseRecord(index: nat, items: seq<Json>): (r: Json)
    ensures r.JObj? && Keys(r.members) == ["responseId", "items"]
  {
    JObj([("responseId", JStr(ResponseId(index))), ("items", JArr(items))])
  }

  /** The record's `responseId` is `"response-" + index` and its `items` are the given items. */
  lemma ResponseRecordFields(index: nat, items: seq<Json>)
    ensures Get(ResponseRecord(index, items), "responseId") == Some(JStr("response-" + NatToString(index)))
    ensures Get(ResponseRecord(index, items), "items") == Some(JArr(items))
  {
    var ms := ResponseRecord(index, items).members;
    assert Lookup(ms, "items") == Lookup(ms[1..], "items");
  }

  /** The callback of `responses.map`, for the response at `index`. */
  function StandardizeResponse(response: Json, index: nat, le: (string, string) -> bool): Result<Json>
  {
    match ItemsOf(response)
    case Thrown(e) => Thrown(e)
    case Ok(items) =>
      match StandardizeItems(items, le)
      case Thrown(e) => Thrown(e)
      case Ok(out) => Ok(ResponseRecord(index, out))
  }

  /**
   * One response: reading `items` of `null` or calling `slice` on a non-array
   * throws first; otherwise a null item throws on its `title`; otherwise the
   * result is a labelled record.
   */
  lemma ResponseOutcome(response: Json, index: nat, le: (string, string) -> bool)
    ensures var r := StandardizeResponse(response, index, le);
            (r.Ok? <==> ItemsOf(response).Ok? && !HasNull(ItemsOf(response).value)) &&
            (ItemsOf(response).Thrown? ==> r == Thrown(ItemsOf(response).error)) &&
            (ItemsOf(response).Ok? && HasNull(ItemsOf(response).value) ==> r == Thrown(NullRead("title"))) &&
            (r.Ok? ==> r.value.JObj? && Keys(r.value.members) == ["responseId", "items"])
  {
  }

  /** `responses.map(...)` over `rs`, whose first element sits at position `start`; the first throw wins. */
  function StandardizeResponses(rs: seq<Json>, start: nat, le: (string, string) -> bool): (r: Result<seq<Json>>)
    ensures r.Ok? ==> |r.value| == |rs|
    ensures r.Ok? ==> forall k :: 0 <= k < |rs| ==>
              StandardizeResponse(rs[k], start + k, le) == Ok(r.value[k])
  {
    if |rs| == 0 then Ok([])
    else
      match StandardizeResponse(rs[0], start, le)
      case Thrown(e) => Thrown(e)
      case Ok(first) =>
        match StandardizeResponses(rs[1..], start + 1, le)
        case Thrown(e) => Thrown(e)
        case Ok(rest) =>
          var out := [first] + rest;
          assert forall k :: 0 <= k < |rs| ==> StandardizeResponse(rs[k], start + k, le) == Ok(out[k]) by {
            forall k | 1 <= k < |rs| ensures StandardizeResponse(rs[k], start + k, le) == Ok(out[k]) {
              assert rs[k] == rs[1..][k - 1] && out[k] == rest[k - 1];
            }
          }
          Ok(out)
  }

  /** Every callback of the map over `rs`, from position `start`, returns. */
  predicate AllReturn(rs: seq<Json>, start: nat, le: (string, string) -> bool)
  {
    forall k :: 0 <= k < |rs| ==> StandardizeResponse(rs[k], start + k, le).Ok?
  }

  /** The callback for `rs[k]` is the first to throw, and it throws `e`. */
  predicate FirstThrowAt(rs: seq<Json>, start: nat, le: (string, string) -> bool, k: nat, e: JsError)
  {
    k < |rs| && AllReturn(rs[..k], start, le) && StandardizeResponse(rs[k], start + k, le) == Thrown(e)
  }

  /** The map succeeds exactly when every callback returns. */
  lemma {:induction false} ResponsesOk(rs: seq<Json>, start: nat, le: (string, string) -> bool)
    ensures StandardizeResponses(rs, start, le).Ok? <==> AllReturn(rs, start, le)
  {
    if |rs| > 0 {
      ResponsesOk(rs[1..], start + 1, le);
      AllReturnCons(rs, start, le);
    }
  }

  lemma AllReturnCons(rs: seq<Json>, start: nat, le: (string, string) -> bool)
    requires |rs| > 0
    ensures AllReturn(rs, start, le) <==>
              StandardizeResponse(rs[0], start, le).Ok? && AllReturn(rs[1..], start + 1, le)
  {
    if StandardizeResponse(rs[0], start, le).Ok? && AllReturn(rs[1..], start + 1, le) {
      forall k | 1 <= k < |rs| ensures StandardizeResponse(rs[k], start + k, le).Ok? {
        assert rs[k] == rs[1..][k - 1];
      }
    }
    if AllReturn(rs, start, le) {
      assert StandardizeResponse(rs[0], start + 0, le).Ok?;
      forall k | 0 <= k < |rs| - 1 ensures StandardizeResponse(rs[1..][k], start + 1 + k, le).Ok? {
        assert rs[1..][k] == rs[k + 1];
      }
    }
  }

  /** When the map throws, it throws what the first throwing callback throws. */
  lemma {:induction false} ResponsesFirstThrow(rs: seq<Json>, start: nat, le: (string, string) -> bool)
    ensures StandardizeResponses(rs, start, le).Thrown? ==>
              exists k :: FirstThrowAt(rs, start, le, k, StandardizeResponses(rs, start, le).error)
  {
    if StandardizeResponses(rs, start, le).Ok? {
    } else if StandardizeResponse(rs[0], start, le).Ok? {
      var e := StandardizeResponses(rs, start, le).error;
      ResponsesFirstThrow(rs[1..], start + 1, le);
      var k :| FirstThrowAt(rs[1..], start + 1, le, k, e);
      FirstThrowCons(rs, start, le, k, e);
    } else {
      assert rs[..0] == [];
      assert FirstThrowAt(rs, start, le, 0, StandardizeResponses(rs, start, le).error);
    }
  }

  lemma FirstThrowCons(rs: seq<Json>, start: nat, le: (string, string) -> bool, k: nat, e: JsError)
    requires |rs| > 0 && StandardizeResponse(rs[0], start, le).Ok?
    requires FirstThrowAt(rs[1..], start + 1, le, k, e)
    ensures FirstThrowAt(rs, start, le, k + 1, e)
  {
    assert rs[1..][k] == rs[k + 1];
    assert rs[..k + 1][1..] == rs[1..][..k];
    AllReturnCons(rs[..k + 1], start, le);
  }

  /** The input has a `responses` array. */
  predicate IsBatch(data: Json)
  {
    Get(data, "responses").Some? && Get(data, "responses").value.JArr?
  }

  /** The input has an `items` array. */
  predicate IsSingle(data: Json)
  {
    Get(data, "items").Some? && Get(data, "items").value.JArr?
  }

  /** `formData.responseCount || formData.responses.length` */
  function ResponseCount(data: Json): (c: Json)
    requires IsBatch(data)
    ensures Get(data, "responseCount").Some? && Get(data, "responseCount").value.Truthy() ==>
              c == Get(data, "responseCount").value
    ensures Get(data, "responseCount").None? || !Get(data, "responseCount").value.Truthy() ==>
              c == JNum(|Get(data, "responses").value.elems|)
  {
    GetOr(data, "responseCount", JNum(|Get(data, "responses").value.elems|))
  }

  /** `standardizeDataForCsvCompatibility(formData)` */
  function Standardize(data: Json, le: (string, string) -> bool): (r: Result<Json>)
    ensures data.JNull? ==> r == Thrown(NullRead("responses"))
    ensures !data.JNull? && !IsBatch(data) && !IsSingle(data) ==> r == Ok(data)
    ensures r.Ok? && IsBatch(data) ==>
              r.value.JObj? && Keys(r.value.members) == ["responseCount", "responses"]
    ensures r.Ok? && !IsBatch(data) && IsSingle(data) ==>
              r.value.JObj? && Keys(r.value.members) == ["responseId", "items"]
    ensures IsBatch(data) ==>
              var rs := Get(data, "responses").value.elems;
              (r.Ok? <==> AllReturn(rs, 0, le)) &&
              (r.Thrown? ==> exists k :: FirstThrowAt(rs, 0, le, k, r.error))
    ensures !IsBatch(data) && IsSingle(data) ==>
              (r.Ok? <==> !HasNull(Get(data, "items").value.elems)) &&
              (r.Thrown? ==> r.error == NullRead("title"))
  {
    if data.JNull? then Thrown(NullRead("responses"))
    else if IsBatch(data) then
      ResponsesOk(Get(data, "responses").value.elems, 0, le);
      ResponsesFirstThrow(Get(data, "responses").value.elems, 0, le);
      var count := ResponseCount(data);
      match StandardizeResponses(Get(data, "responses").value.elems, 0, le)
      case Thrown(e) => Thrown(e)
      case Ok(out) => Ok(JObj([("responseCount", count), ("responses", JArr(out))]))
    else if IsSingle(data) then
      match StandardizeItems(Get(data, "items").value.elems, le)
      case Thrown(e) => Thrown(e)
      case Ok(out) => Ok(ResponseRecord(0, out))
    else Ok(data)
  }

  // ---------------------------------------------------------------------
  // Output shape
  // ---------------------------------------------------------------------

  /**
   * Batch input: the count is the given `responseCount` when truthy and the
   * number of responses otherwise, and the i-th output response is the i-th
   * input response, labelled `response-i`, with its items standardised.
   */
  lemma BatchShape(data: Json, le: (string, string) -> bool)
    requires IsBatch(data) && Standardize(data, le).Ok?
    ensures var r := Standardize(data, le).value;
            var rs := Get(data, "responses").value.elems;
            Get(r, "responseCount") == Some(ResponseCount(data)) &&
            Get(r, "responses").Some? && Get(r, "responses").value.JArr? &&
            |Get(r, "responses").value.elems| == |rs| &&
            forall k :: 0 <= k < |rs| ==>
              ItemsOf(rs[k]).Ok? &&
              StandardizeItems(ItemsOf(rs[k]).value, le).Ok? &&
              Get(r, "responses").value.elems[k] ==
                ResponseRecord(k, StandardizeItems(ItemsOf(rs[k]).value, le).value)
  {
    var rs := Get(data, "responses").value.elems;
    var out := StandardizeResponses(rs, 0, le).value;
    var ms := [("responseCount", ResponseCount(data)), ("responses", JArr(out))];
    assert Lookup(ms, "responses") == Lookup(ms[1..], "responses");
  }

  /** Single input: the response is labelled `response-0` and carries its standardised items, with no count. */
  lemma SingleShape(data: Json, le: (string, string) -> bool)
    requires !IsBatch(data) && IsSingle(data) && Standardize(data, le).Ok?
    ensures Standardize(data, le).value ==
              ResponseRecord(0, StandardizeItems(Get(data, "items").value.elems, le).value)
    ensures ResponseId(0) == "response-0"
    ensures Get(Standardize(data, le).value, "responseCount").None?
  {
  }

  /** An object holding only an `items` array is a single response. */
  lemma ItemsOnly(items: seq<Json>, le: (string, string) -> bool)
    ensures var data := JObj([("items", JArr(items))]);
            !IsBatch(data) && IsSingle(data) &&
            Standardize(data, le) ==
              match StandardizeItems(items, le)
              case Ok(out) => Ok(ResponseRecord(0, out))
              case Thrown(e) => Thrown(e)
  {
  }

  // ---------------------------------------------------------------------
  // Item order
  // ---------------------------------------------------------------------

  lemma RecordTitle(item: Json)
    ensures TitleOf(ItemRecord(item)) == TitleOf(item)
  {
  }

  /** Ordering by title is an order whenever `localeCompare` is. */
  lemma ItemOrderPreorder(le: (string, string) -> bool)
    requires TotalPreorder(le)
    ensures TotalPreorder(ItemOrder(le))
  {
  }

  /** Sorting items and then reducing them is reducing them and then sorting the records. */
  lemma ItemsAsRecordSort(items: seq<Json>, le: (string, string) -> bool)
    requires !HasNull(items)
    ensures StandardizeItems(items, le) == Ok(Sort(Map(ItemRecord, items), ItemOrder(le)))
  {
    forall a, b ensures ItemOrder(le)(ItemRecord(a), ItemRecord(b)) == ItemOrder(le)(a, b) {
      RecordTitle(a);
      RecordTitle(b);
    }
    SortMap(ItemRecord, items, ItemOrder(le), ItemOrder(le));
  }

  /**
   * The standardised items are the item records, sorted by title, each
   * exactly once, with items of equal title kept in input order; and they
   * are the only sequence with those three properties.
   */
  lemma ItemsSortedStablePermutation(items: seq<Json>, le: (string, string) -> bool)
    requires TotalPreorder(le) && !HasNull(items)
    ensures var out := StandardizeItems(items, le).value;
            Sorted(out, ItemOrder(le)) &&
            multiset(out) == multiset(Map(ItemRecord, items)) &&
            Stable(Map(ItemRecord, items), out, ItemOrder(le))
    ensures forall t :: Sorted(t, ItemOrder(le)) && multiset(t) == multiset(Map(ItemRecord, items)) &&
                        Stable(Map(ItemRecord, items), t, ItemOrder(le)) ==>
              StandardizeItems(items, le) == Ok(t)
  {
    ItemsAsRecordSort(items, le);
    ItemOrderPreorder(le);
    var rs := Map(ItemRecord, items);
    SortSorted(rs, ItemOrder(le));
    SortStable(rs, ItemOrder(le));
    forall t | Sorted(t, ItemOrder(le)) && multiset(t) == multiset(rs) && Stable(rs, t, ItemOrder(le))
      ensures StandardizeItems(items, le) == Ok(t)
    {
      StableSortUnique(rs, t, ItemOrder(le));
    }
  }

  /** When no two different records tie on title, the input order of the items does not matter. */
  lemma ItemOrderIrrelevant(items1: seq<Json>, items2: seq<Json>, le: (string, string) -> bool)
    requires TotalPreorder(le) && multiset(items1) == multiset(items2)
    requires AntisymmetricOn(Map(ItemRecord, items1), ItemOrder(le))
    ensures StandardizeItems(items1, le) == StandardizeItems(items2, le)
  {
    assert HasNull(items1) <==> HasNull(items2) by {
      if HasNull(items1) {
        var i :| 0 <= i < |items1| && items1[i].JNull?;
        assert items1[i] in multiset(items2);
      }
      if HasNull(items2) {
        var i :| 0 <= i < |items2| && items2[i].JNull?;
        assert items2[i] in multiset(items1);
      }
    }
    if !HasNull(items1) {
      ItemsAsRecordSort(items1, le);
      ItemsAsRecordSort(items2, le);
      MapPermutation(ItemRecord, items1, items2);
      ItemOrderPreorder(le);
      SortPermutationInvariant(Map(ItemRecord, items1), Map(ItemRecord, items2), ItemOrder(le));
    }
  }

  // ---------------------------------------------------------------------
  // Idempotence
  // ---------------------------------------------------------------------

  lemma RecordIdempotent(item: Json)
    ensures ItemRecord(ItemRecord(item)) == ItemRecord(item)
  {
    RecordTitle(item);
  }

  /** Standardising standardised items changes nothing. */
  lemma ItemsIdempotent(items: seq<Json>, le: (string, string) -> bool)
    requires TotalPreorder(le) && !HasNull(items)
    ensures StandardizeItems(StandardizeItems(items, le).value, le) == StandardizeItems(items, le)
  {
    var out := StandardizeItems(items, le).value;
    ItemsSortedStablePermutation(items, le);
    RecordsFixed(items, out);
    SortOfSorted(out, ItemOrder(le));
  }

  /** A rearrangement of item records is left as it is by recording again. */
  lemma RecordsFixed(items: seq<Json>, out: seq<Json>)
    requires multiset(out) == multiset(Map(ItemRecord, items))
    ensures !HasNull(out) && Map(ItemRecord, out) == out
  {
    var rs := Map(ItemRecord, items);
    forall i | 0 <= i < |out| ensures out[i].JObj? && ItemRecord(out[i]) == out[i] {
      assert out[i] in multiset(rs);
      var j :| 0 <= j < |rs| && rs[j] == out[i];
      RecordIdempotent(items[j]);
    }
  }

  lemma ResponseIdempotent(response: Json, index: nat, le: (string, string) -> bool)
    requires TotalPreorder(le) && StandardizeResponse(response, index, le).Ok?
    ensures var r := StandardizeResponse(response, index, le).value;
            StandardizeResponse(r, index, le) == Ok(r)
  {
    var items := ItemsOf(response).value;
    var out := StandardizeItems(items, le).value;
    var ms := [("responseId", JStr(ResponseId(index))), ("items", JArr(out))];
    assert Lookup(ms, "items") == Lookup(ms[1..], "items");
    ItemsIdempotent(items, le);
  }

  lemma {:induction false} ResponsesIdempotent(rs: seq<Json>, start: nat, le: (string, string) -> bool)
    requires TotalPreorder(le) && StandardizeResponses(rs, start, le).Ok?
    ensures var out := StandardizeResponses(rs, start, le).value;
            StandardizeResponses(out, start, le) == Ok(out)
  {
    if |rs| > 0 {
      var out := StandardizeResponses(rs, start, le).value;
      ResponseIdempotent(rs[0], start, le);
      ResponsesIdempotent(rs[1..], start + 1, le);
      assert out[1..] == StandardizeResponses(rs[1..], start + 1, le).value;
    }
  }

  /** Standardising standardised data gives it back unchanged. */
  lemma StandardizeIdempotent(data: Json, le: (string, string) -> bool)
    requires TotalPreorder(le) && Standardize(data, le).Ok?
    ensures Standardize(Standardize(data, le).value, le) == Standardize(data, le)
  {
    var r := Standardize(data, le).value;
    if IsBatch(data) {
      var rs := Get(data, "responses").value.elems;
      var out := StandardizeResponses(rs, 0, le).value;
      var ms := [("responseCount", ResponseCount(data)), ("responses", JArr(out))];
      assert r == JObj(ms);
      assert Lookup(ms, "responses") == Lookup(ms[1..], "responses");
      ResponsesIdempotent(rs, 0, le);
      assert ResponseCount(r) == ResponseCount(data);
    } else if IsSingle(data) {
      var items := Get(data, "items").value.elems;
      var out := StandardizeItems(items, le).value;
      var ms := [("responseId", JStr(ResponseId(0))), ("items", JArr(out))];
      assert r == JObj(ms);
      assert Lookup(ms, "items") == Lookup(ms[1..], "items");
      assert !IsBatch(r);
      ItemsIdempotent(items, le);
    }
  }
}
