/**
 * Ordering values by their JSON text, as the hashing replacers do with
 * `value.map(item => JSON.stringify(item)).sort().map(JSON.parse)`.
 */
module TextOrder {
  import opened JsonValue
  import opened JsonText
  import opened JsonParse
  import opened StringOrder
  import opened Sorting

  /** Distinct values print differently, so ordering by text leaves no ties. */
  lemma PrintNoTies(s: seq<Json>)
    ensures AntisymmetricOn(s, ByKey(Print))
  {
    forall i, j | 0 <= i < |s| && 0 <= j < |s| && Print(s[i]) == Print(s[j])
      ensures s[i] == s[j]
    {
      PrintInjective(s[i], s[j]);
    }
    ByKeyAntisymmetric(s, Print);
  }

  /**
   * Printing the values, sorting the texts and parsing each back is sorting
   * the values by their text: every text parses back to its value.
   */
  lemma SortTextsParseBack(s: seq<Json>)
    ensures Map(ParseBack, Sort(Map(Print, s), StrLe)) == Sort(s, ByKey(Print))
  {
    var sorted := Sort(s, ByKey(Print));
    SortMap(Print, s, ByKey(Print), StrLe);
    forall i | 0 <= i < |sorted| ensures ParseBack(Print(sorted[i])) == sorted[i] {
      ParseBackPrint(sorted[i]);
    }
    assert Map(ParseBack, Map(Print, sorted)) == sorted;
  }

  /** The text-sorted order is the only order of the same values, sorted by text. */
  lemma SortByTextUnique(s: seq<Json>, t: seq<Json>)
    requires Sorted(t, ByKey(Print)) && multiset(t) == multiset(s)
    ensures t == Sort(s, ByKey(Print))
  {
    ByKeyPreorder(Print);
    SortSorted(s, ByKey(Print));
    PrintNoTies(t);
    SortedUnique(t, Sort(s, ByKey(Print)), ByKey(Print));
  }
}
