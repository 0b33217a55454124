/**
 * `FormHandler.extractResponseData` (FormHandler.js, copied without logging
 * into Code.js): one record per item response, in the order the form gives
 * them, with checkbox answers sorted and grid answers re-keyed in sorted key
 * order. The form, its items and the response's clock are Apps Script
 * services; here they arrive as a `FormResponse` value.
 */
module FormHandler {
  import opened JsonValue
  import opened JsonParse
  import opened StringOrder
  import opened Sorting
  import opened KeyOrder

  /** An item response together with what the form says about its item. */
  datatype ItemResponse = ItemResponse(itemId: int, title: string, itemType: string, response: Json)

  /** A form response: its id, its timestamp already rendered by `toISOString()`, and its item responses. */
  datatype FormResponse = FormResponse(id: string, timestamp: string, itemResponses: seq<ItemResponse>)

  predicate IsGrid(itemType: string)
  {
    itemType == "GRID" || itemType == "CHECKBOX_GRID"
  }

  /** The entries `Object.keys(v)` and `v[key]` see: an array's are its indices as strings. */
  function OwnEntries(v: Json): (ms: seq<(string, Json)>)
    ensures v.JObj? ==> ms == v.members
    ensures v.JArr? ==> |ms| == |v.elems| && forall i :: 0 <= i < |ms| ==> ms[i] == (NatToString(i), v.elems[i])
  {
    match v
    case JObj(ms) => ms
    case JArr(es) => seq(|es|, i requires 0 <= i < |es| => (NatToString(i), es[i]))
    case _ => []
  }

  /** The error `responseValue.slice().sort()` throws when the answer is not an array. */
  function SliceSortError(v: Json): JsError
  {
    if v.JNull? then JsError("TypeError", "Cannot read properties of null (reading 'slice')")
    else if v.JStr? then JsError("TypeError", "responseValue.slice(...).sort is not a function")
    else JsError("TypeError", "responseValue.slice is not a function")
  }

  /** The `switch (itemType)` that normalises one answer. */
  function NormalizeValue(itemType: string, v: Json): (r: Result<Json>)
    ensures r.Thrown? <==> itemType == "CHECKBOX" && !v.JArr?
    ensures r.Thrown? ==> r.error.name == "TypeError"
    ensures itemType != "CHECKBOX" && !(IsGrid(itemType) && v.IsComposite()) ==> r == Ok(v)
  {
    if itemType == "CHECKBOX" then
      if v.JArr? then Ok(JArr(Sort(v.elems, ByKey(ToStr)))) else Thrown(SliceSortError(v))
    else if IsGrid(itemType) && v.Truthy() && v.IsTypeofObject() then
      Ok(JObj(RebuildFromSortedKeys(OwnEntries(v))))
    else Ok(v)
  }

  /** A checkbox answer becomes a sorted copy with the same elements. */
  lemma CheckboxSorted(es: seq<Json>)
    ensures var r := NormalizeValue("CHECKBOX", JArr(es)).value;
            r.JArr? && |r.elems| == |es| && multiset(r.elems) == multiset(es) &&
            Sorted(r.elems, ByKey(ToStr))
  {
    ByKeyPreorder(ToStr);
    SortSorted(es, ByKey(ToStr));
  }

  /** A grid answer that is an object becomes an object with the same members, in sorted key order. */
  lemma GridObjectSorted(itemType: string, ms: seq<(string, Json)>)
    requires IsGrid(itemType) && DistinctKeys(ms)
    ensures var r := NormalizeValue(itemType, JObj(ms)).value;
            r == JObj(SortMembers(ms)) &&
            multiset(r.members) == multiset(ms) &&
            Sorted(Keys(r.members), StrLe)
  {
    RebuildIsSortMembers(ms);
    SortMembersSorted(ms);
  }

  /** Distinct numbers have distinct decimal texts. */
  lemma NatToStringInjective(a: nat, b: nat)
    requires NatToString(a) == NatToString(b)
    ensures a == b
  {
    NatParses(a, "");
    NatParses(b, "");
    assert NatToString(a) + "" == NatToString(a) && NatToString(b) + "" == NatToString(b);
  }

  lemma IndexKeysDistinct(es: seq<Json>)
    ensures DistinctKeys(OwnEntries(JArr(es)))
  {
    var ms := OwnEntries(JArr(es));
    forall i, j | 0 <= i < j < |ms| ensures ms[i].0 != ms[j].0 {
      if ms[i].0 == ms[j].0 {
        NatToStringInjective(i, j);
      }
    }
  }

  /**
   * A grid answer that is an array (one entry per row) becomes an object
   * keyed by the row indices as strings, in sorted string order, each index
   * holding its row.
   */
  lemma GridArrayKeyed(itemType: string, es: seq<Json>)
    requires IsGrid(itemType)
    ensures var r := NormalizeValue(itemType, JArr(es)).value;
            r.JObj? && |r.members| == |es| && Sorted(Keys(r.members), StrLe) &&
            forall i :: 0 <= i < |es| ==> (NatToString(i), es[i]) in r.members
  {
    var ms := OwnEntries(JArr(es));
    IndexKeysDistinct(es);
    RebuildIsSortMembers(ms);
    SortMembersSorted(ms);
    forall i | 0 <= i < |es| ensures (NatToString(i), es[i]) in SortMembers(ms) {
      assert ms[i] in multiset(SortMembers(ms));
    }
  }

  lemma CheckboxIdempotent(es: seq<Json>)
    ensures var r := NormalizeValue("CHECKBOX", JArr(es));
            NormalizeValue("CHECKBOX", r.value) == r
  {
    ByKeyPreorder(ToStr);
    SortSorted(es, ByKey(ToStr));
    SortOfSorted(Sort(es, ByKey(ToStr)), ByKey(ToStr));
  }

  /** Members already in key order are rebuilt as they are. */
  lemma RebuildSorted(ms: seq<(string, Json)>)
    requires DistinctKeys(ms)
    ensures RebuildFromSortedKeys(SortMembers(ms)) == SortMembers(ms)
  {
    var sms := SortMembers(ms);
    SortMembersDistinct(ms);
    RebuildIsSortMembers(sms);
    ByKeyPreorder(MemberKey);
    SortSorted(ms, ByKey(MemberKey));
    SortOfSorted(sms, ByKey(MemberKey));
  }

  lemma GridIdempotent(itemType: string, v: Json)
    requires IsGrid(itemType) && v.IsComposite()
    requires v.JObj? ==> DistinctKeys(v.members)
    ensures var r := NormalizeValue(itemType, v);
            NormalizeValue(itemType, r.value) == r
  {
    var ms := OwnEntries(v);
    if v.JArr? {
      IndexKeysDistinct(v.elems);
    }
    RebuildIsSortMembers(ms);
    RebuildSorted(ms);
  }

  /** Normalising a normalised answer gives it back unchanged. */
  lemma NormalizeIdempotent(itemType: string, v: Json)
    requires NormalizeValue(itemType, v).Ok?
    requires v.JObj? ==> DistinctKeys(v.members)
    ensures NormalizeValue(itemType, NormalizeValue(itemType, v).value) == NormalizeValue(itemType, v)
  {
    if itemType == "CHECKBOX" {
      CheckboxIdempotent(v.elems);
    } else if IsGrid(itemType) && v.IsComposite() {
      GridIdempotent(itemType, v);
    }
  }

  // ---------------------------------------------------------------------
  // The item records
  // ---------------------------------------------------------------------

  /** `{ itemId, title, type, response }` */
  function ItemRecord(ir: ItemResponse, value: Json): (r: Json)
    ensures r.JObj? && Keys(r.members) == ["itemId", "title", "type", "response"]
  {
    JObj([("itemId", JNum(ir.itemId)), ("title", JStr(ir.title)), ("type", JStr(ir.itemType)), ("response", value)])
  }

  /** Every item's answer normalises without throwing. */
  predicate AllNormalize(irs: seq<ItemResponse>)
  {
    forall i :: 0 <= i < |irs| ==> NormalizeValue(irs[i].itemType, irs[i].response).Ok?
  }

  /** The record of the item response at position `i`. */
  function RecordAt(irs: seq<ItemResponse>, i: nat): Json
    requires i < |irs| && NormalizeValue(irs[i].itemType, irs[i].response).Ok?
  {
    ItemRecord(irs[i], NormalizeValue(irs[i].itemType, irs[i].response).value)
  }

  /** `{ responseId, timestamp, items }` */
  function ResultObject(fr: FormResponse, items: seq<Json>): (r: Json)
    ensures r.JObj? && Keys(r.members) == ["responseId", "timestamp", "items"]
    ensures Get(r, "responseId") == Some(JStr(fr.id))
    ensures Get(r, "timestamp") == Some(JStr(fr.timestamp))
    ensures Get(r, "items") == Some(JArr(items))
  {
    var ms := [("responseId", JStr(fr.id)), ("timestamp", JStr(fr.timestamp)), ("items", JArr(items))];
    assert ms[1..][1..] == ms[2..] == [("items", JArr(items))];
    assert Lookup(ms, "timestamp") == Lookup(ms[1..], "timestamp");
    assert Lookup(ms, "items") == Lookup(ms[1..], "items") == Lookup(ms[2..], "items");
    JObj(ms)
  }

  /** The error the `catch` rethrows. */
  function Wrap(cause: JsError): (e: JsError)
    ensures e.name == "Error"
    ensures "Failed to extract response data: " <= e.message
  {
    JsError("Error", "Failed to extract response data: " + cause.ToString())
  }

  /** The records of all item responses, in form order. */
  function Records(irs: seq<ItemResponse>): (items: seq<Json>)
    requires AllNormalize(irs)
    ensures |items| == |irs|
  {
    seq(|irs|, i requires 0 <= i < |irs| => RecordAt(irs, i))
  }

  /** The item response at `i` is the first whose answer cannot be normalised. */
  predicate FirstFailure(irs: seq<ItemResponse>, i: nat)
  {
    i < |irs| &&
    (forall j :: 0 <= j < i ==> NormalizeValue(irs[j].itemType, irs[j].response).Ok?) &&
    NormalizeValue(irs[i].itemType, irs[i].response).Thrown?
  }

  /**
   * `extractResponseData(formResponse)`: the records are pushed one per
   * item response, in order; the first answer that cannot be normalised
   * ends the loop, and its error is rethrown wrapped.
   */
  method ExtractResponseData(fr: FormResponse) returns (r: Result<Json>)
    ensures r.Ok? <==> AllNormalize(fr.itemResponses)
    ensures r.Ok? ==> r.value == ResultObject(fr, Records(fr.itemResponses))
    ensures r.Thrown? ==> exists i: nat :: FirstFailure(fr.itemResponses, i) &&
                            r.error == Wrap(NormalizeValue(fr.itemResponses[i].itemType, fr.itemResponses[i].response).error)
  {
    var irs := fr.itemResponses;
    var items: seq<Json> := [];
    var i := 0;
    while i < |irs|
      invariant 0 <= i <= |irs|
      invariant forall j :: 0 <= j < i ==> NormalizeValue(irs[j].itemType, irs[j].response).Ok?
      invariant |items| == i
      invariant forall j :: 0 <= j < i ==> items[j] == RecordAt(irs, j)
    {
      var value := NormalizeValue(irs[i].itemType, irs[i].response);
      if value.Thrown? {
        r := Thrown(Wrap(value.error));
        assert FirstFailure(irs, i);
        assert FirstFailure(fr.itemResponses, i) &&
               r.error == Wrap(NormalizeValue(fr.itemResponses[i].itemType, fr.itemResponses[i].response).error);
        return;
      }
      items := items + [ItemRecord(irs[i], value.value)];
      i := i + 1;
    }
    assert items == Records(irs);
    r := Ok(ResultObject(fr, items));
  }

  /** Each record carries its item's id, title and type, and the normalised answer. */
  lemma RecordsDescribeItems(irs: seq<ItemResponse>, i: nat)
    requires AllNormalize(irs) && i < |irs|
    ensures var rec := Records(irs)[i];
            Get(rec, "itemId") == Some(JNum(irs[i].itemId)) &&
            Get(rec, "title") == Some(JStr(irs[i].title)) &&
            Get(rec, "type") == Some(JStr(irs[i].itemType)) &&
            Get(rec, "response") == Some(NormalizeValue(irs[i].itemType, irs[i].response).value)
  {
    var ms := Records(irs)[i].members;
    assert ms[0].0 == "itemId" && ms[1].0 == "title" && ms[2].0 == "type" && ms[3].0 == "response";
    assert Lookup(ms, "title") == Lookup(ms[1..], "title");
    assert Lookup(ms, "type") == Lookup(ms[1..], "type") == Lookup(ms[2..], "type");
    assert Lookup(ms, "response") == Lookup(ms[1..], "response") == Lookup(ms[2..], "response") == Lookup(ms[3..], "response");
  }
}
