# NoTamperData hashing core, modelled in Dafny

NoTamperData is a Google Forms add-on. It turns each form response into a
standardised JSON record, hashes that record with SHA-256, and sends the
digest to a timestamping service. This project models the deterministic core
of that add-on and proves what the hash depends on. It covers:

- **Standardiser.** `standardizeDataForCsvCompatibility` in Code.js
  (`standardizer.dfy`). It turns a single response or a batch into records
  whose items are sorted by title and whose answers are rendered with `String`.
- **Canonicalising hash, three revisions.** Each is `JSON.stringify` with a
  replacer, SHA-256, and hex rendering:
  - `Hashing.createDeterministicHash` in Code.js (`deterministic_hash.dfy`),
    together with `hashResponseData`, `hashBatchData` and
    `hashStandardizedData`;
  - `hashResponseData` in Hashing.js (`key_sorted_hash.dfy`);
  - `hashResponseData` in src/Hashing.js (`array_sorted_hash.dfy`).
- **Response extraction.** `FormHandler.extractResponseData` in FormHandler.js
  (`form_handler.dfy`). It sorts checkbox answers, re-keys grid answers in
  sorted key order and appends one record per item in a loop. Code.js holds a
  copy of the same function (Code.js:649-698). It differs only in logging, so
  the same members model it.
- **Access token.** The token validation of `saveAccessToken`
  (`access_token.dfy`).
- **Weekly schedule.** The weekday arithmetic: `getWeekDayFromNumber`, the
  weekly trigger's day, and the status panel's days-until-next-run
  (`schedule.dfy`).

The JavaScript machinery the core relies on is modelled too:

- JSON values (`json_value.dfy`);
- `JSON.stringify` without a replacer (`json_text.dfy`);
- `JSON.parse` on the texts `JSON.stringify` emits (`json_parse.dfy`);
- the stable `Array.prototype.sort` (`sorting.dfy`);
- the default string order, i.e. UTF-16 code-unit comparison
  (`string_order.dfy`);
- `Object.keys(v).sort().reduce(...)` (`key_order.dfy`);
- the byte-to-hex rendering (`hex.dfy`);
- the order of values by their JSON text (`text_order.dfy`).

Each replacer is modelled as written: a `Replacer` function, plus a
`Stringify` that applies it at every level as `JSON.stringify` does. Each
revision also gets an independent `Canon` function that describes the tree
whose plain JSON text comes out. The contract of each `Stringify` states that
its output is `Print(Canon(v))`. Properties are then proved about each
`Canon`, revision by revision:

- Code.js (`deterministic_hash.dfy`) and Hashing.js (`key_sorted_hash.dfy`):
  every object at every depth lists its keys in ascending order. In
  src/Hashing.js (`array_sorted_hash.dfy`) objects keep insertion order.
- Code.js: an array of primitives (`null` included) is a permutation sorted
  by `String`, and any other array is a permutation of its elements'
  canonical forms sorted by their JSON text; `Canon` is idempotent.
  Replacing a value anywhere inside the input by one with the same canonical
  form leaves the text unchanged, so the order of keys, and of arrays that
  hold an object or array, is irrelevant at every depth.
- Hashing.js and src/Hashing.js: an array is ordered by the raw JSON text of
  its elements before those elements are themselves canonicalised (in
  Hashing.js only an array holding an object, an array or `null`, since
  `typeof null` is `'object'`; an array of non-null primitives is sorted by
  `String`, so `[null,"z"]` becomes `["z",null]` there but stays as it is in
  Code.js, as `KeySortedHash.NullElementOrder` and
  `DeterministicHash.NullElementOrder` show). The order is that of the raw
  texts, not of the canonical forms, so neither `Canon` is idempotent
  (`KeySortedHash.CanonNotIdempotent`,
  `ArraySortedHash.CanonNotIdempotent`). In Hashing.js two arrays holding
  objects that differ only in key order can be emitted differently
  (`KeySortedHash.NestedKeyOrderExample`).
- In every revision, whether the text depends on input order is stated in
  the table below.

SHA-256 is a function parameter `sha256: string -> seq<int>`, so every hash
statement holds for any digest function.

Four details of the code are worth stating on their own:

- Standardised responses are labelled `"response-" + index` and the batch
  count field is `responseCount`.
- Answers are rendered with `String(value)`, so a grid answer (an object)
  becomes the text `[object Object]` (`Standardizer.ObjectAnswerCollapses`).
  Its contents do not reach the hash.
- A weekly schedule for day 0 (Sunday) runs on Monday, because
  `parseInt(day) || 1` treats 0 as missing (`Schedule.WeeklyTriggerDay`).
- The day count uses JavaScript's truncating `%` (`Schedule.JsRem7`). For a
  stored day outside 0..6 that is not congruent to 1 modulo 7, the trigger
  (Monday) and the date shown fall on different weekdays
  (`Schedule.TriggerMatchesShownDate`).

## Model

| member | source | states |
|---|---|---|
| `JsonValue.NatToString` | Code.js:408 | the decimal text of a response index is all digits, and starts with `0` only for zero, which gives `"0"` |
| `JsonValue.Lookup` | Code.js:409 | a property read finds a value exactly when some member has the key, and the value found belongs to such a member |
| `JsonParse.RoundTrip` | Code.js:756-761 | `JSON.parse(JSON.stringify(v))` gives `v` back for every value |
| `JsonParse.PrintInjective` | Code.js:756-758 | two values with the same JSON text are the same value |
| `JsonParse.ParseBackPrint` | Code.js:759-765 | applied to a value's own JSON text, the callback returns that value, so its `catch` is never reached |
| `Sorting.Sort` | Code.js:752 | `sort` returns a rearrangement of its input: same length, same elements with the same multiplicities |
| `Sorting.SortSorted` | Code.js:752 | under a total preorder the result of `sort` is in order |
| `Sorting.SortOfSorted` | Code.js:752 | sorting a sequence that is already in order leaves it unchanged |
| `Sorting.SortStable` | Code.js:411-413 | elements that tie under the comparator keep their input order |
| `Sorting.StableSortUnique` | Code.js:411-413 | every sorted, stable rearrangement of the input equals `Sort`, so the model of `sort` assumes nothing a stable sort does not guarantee |
| `Sorting.SortedUnique` | Code.js:752 | without ties, two sorted rearrangements of the same elements are equal |
| `Sorting.SortPermutationInvariant` | Code.js:752 | without ties, the order of the input does not affect the sorted output |
| `Sorting.SortMap` | Code.js:756-758 | sorting the elements' keys gives the keys of the elements sorted by key |
| `Sorting.MapPermutation` | Code.js:414 | mapping two rearrangements of the same elements gives rearrangements of the same results |
| `Sorting.NoDuplicatesPermutation` | FormHandler.js:42 | a rearrangement of a sequence without repeats has no repeats |
| `StringOrder.Rank` | Code.js:752 | characters below U+D800 rank by code point; characters above U+FFFF rank as their high surrogate does, in D800..DBFF; characters in E000..FFFF rank above all of those |
| `StringOrder.StrLeIsUtf16Order` | Code.js:752 | the default sort order is exactly the lexicographic order of the strings' UTF-16 code units, with supplementary characters written as surrogate pairs |
| `StringOrder.RankInjective` | Code.js:752 | distinct characters have distinct ranks |
| `StringOrder.StrLeReflexive` | Code.js:752 | every string is at or before itself in the default sort order |
| `StringOrder.StrLeTotal` | Code.js:752 | any two strings are comparable in the default sort order |
| `StringOrder.StrLeTransitive` | Code.js:752 | the default sort order is transitive |
| `StringOrder.StrLeAntisymmetric` | Code.js:752 | two strings each at or before the other are equal |
| `StringOrder.StrLeOrder` | Code.js:752 | the default string order is a total preorder without ties |
| `StringOrder.ByKeyPreorder` | Code.js:752 | ordering by a string key is a total preorder |
| `StringOrder.ByKeyAntisymmetric` | Code.js:752 | when no two different elements share a key, ordering by key has no ties among them |
| `KeyOrder.SortMembers` | Code.js:771 | ordering an object's members by key keeps the same members |
| `KeyOrder.RebuildFromSortedKeys` | Code.js:771-774 | the object the `reduce` builds has the sorted keys, in order |
| `KeyOrder.SortMembersKeys` | Code.js:771 | the keys of the key-ordered members are the sorted keys |
| `KeyOrder.SortMembersSorted` | Code.js:771 | the key-ordered members list their keys in ascending order |
| `KeyOrder.RebuildIsSortMembers` | Code.js:771-774 | with distinct keys, the `reduce` yields the members themselves, ordered by key, each key with its own value |
| `KeyOrder.DistinctKeysNoTies` | Code.js:771 | distinct keys leave no ties when members are ordered by key |
| `KeyOrder.SortMembersOrderIrrelevant` | Code.js:771-774 | with distinct keys, the insertion order of the members does not affect the re-keyed object |
| `KeyOrder.SortMembersDistinct` | Code.js:771-774 | re-keying keeps the keys distinct |
| `HexRendering.LowerHexDigit` | Code.js:788 | each hex digit is a lowercase hex character that reads back as its value |
| `HexRendering.ToRadix16` | Code.js:788 | `toString(16)` gives lowercase hex digits, exactly one when the number is below 16 |
| `HexRendering.HexByte` | Code.js:788 | a byte becomes exactly two lowercase hex digits whose value is `byte & 0xFF` |
| `HexRendering.HexDigest` | Code.js:787-789 | the hex digest has two lowercase hex characters per byte |
| `HexRendering.DecodeHex` | Code.js:787-789 | reading the digest two characters at a time gives one number per byte |
| `HexRendering.Unsigned` | Code.js:788 | `byte & 0xFF` maps each signed byte to the one value in 0..255 that is congruent to it modulo 256 |
| `HexRendering.HexDigestRoundTrip` | Code.js:787-789 | decoding the hex digest gives back the digest's bytes as unsigned values |
| `HexRendering.HexDigestInjective` | Code.js:787-789 | two digests with the same hex text have the same bytes modulo 256 |
| `TextOrder.PrintNoTies` | Code.js:756-758 | no two different values tie when ordered by JSON text |
| `TextOrder.SortTextsParseBack` | Code.js:756-766 | stringify, sort and parse back is the same as sorting the values by their JSON text |
| `TextOrder.SortByTextUnique` | Code.js:756-758 | the only rearrangement sorted by JSON text is the sort |
| `DeterministicHash.Canon` | Code.js:747-778 | the canonical tree keeps the kind of every value, keeps array lengths, leaves primitives alone and lists each object's keys sorted |
| `DeterministicHash.CanonObject` | Code.js:770-775 | an object becomes its members in key order, each value in canonical form |
| `DeterministicHash.CanonDepth` | Code.js:747-778 | canonicalising never makes a value deeper |
| `DeterministicHash.FlatIdempotent` | Code.js:751-753 | a sorted primitive array is a fixed point of canonicalising |
| `DeterministicHash.ElementsFixed` | Code.js:755-766 | the elements of a canonical array are canonical once every input element's canonical form is |
| `DeterministicHash.ArrayIdempotent` | Code.js:755-766 | a canonical array holding objects is a fixed point of canonicalising |
| `DeterministicHash.ObjectIdempotent` | Code.js:770-775 | a canonical object is a fixed point of canonicalising |
| `DeterministicHash.CanonElementsFixed` | Code.js:755-766 | every element of a canonical array is itself canonical |
| `DeterministicHash.CanonIdempotent` | Code.js:747-778 | canonicalising a canonical value changes nothing |
| `DeterministicHash.SortedTextsParseBack` | Code.js:756-766 | for an array holding objects, the stringify, sort and parse pipeline returns the canonical array |
| `DeterministicHash.Replacer` | Code.js:747-778 | the replacer turns an array into its canonical form and an object into its members in key order, leaves primitives alone, and never deepens a value |
| `DeterministicHash.Stringify` | Code.js:747-778 | `JSON.stringify(data, replacer)`, with the replacer applied at every level, is the plain JSON text of the canonical tree |
| `DeterministicHash.ObjectKeysSorted` | Code.js:771 | an object is emitted with its keys in ascending order |
| `DeterministicHash.CanonKeysSortedDeep` | Code.js:747-778 | every object in the output, at any depth, lists its keys in ascending order |
| `DeterministicHash.CanonMembersSort` | Code.js:770-775 | putting member values in canonical form keeps their keys, so it can happen before or after ordering the members by key |
| `DeterministicHash.ElementCongruence` | Code.js:755-766 | replacing one array element by a value of the same canonical form leaves the array's canonical form unchanged |
| `DeterministicHash.MemberCongruence` | Code.js:770-775 | replacing one member's value by a value of the same canonical form leaves the object's canonical form unchanged |
| `DeterministicHash.CanonCongruence` | Code.js:747-778 | replacing a value at any depth by one of the same canonical form leaves the canonical form of the whole unchanged |
| `DeterministicHash.ArraySortedPermutation` | Code.js:751-766 | a primitive array is output as a rearrangement of itself sorted by `String`; any other array as a rearrangement of its canonical elements sorted by JSON text |
| `DeterministicHash.ObjectOrderIrrelevant` | Code.js:770-775 | an object's canonical form and text do not depend on the insertion order of its keys |
| `DeterministicHash.FlatArrayOrderIrrelevant` | Code.js:751-753 | a primitive array's text does not depend on its order when no two different elements have the same `String` |
| `DeterministicHash.SortTwoTied` | Code.js:752 | two elements with the same `String` stay in input order |
| `DeterministicHash.FlatTiesKeepInputOrder` | Code.js:751-753 | two different primitives with the same `String` stay in input order, so swapping them changes the text |
| `DeterministicHash.FlatArrayOrderCanMatter` | Code.js:751-753 | `[1, "1"]` and `["1", 1]` give different texts, so the hash of a primitive array can depend on its order |
| `DeterministicHash.NullElementOrder` | Code.js:751-753 | `null` counts as a primitive, so `[null,"z"]` is sorted by `String` and stays `[null,"z"]` |
| `DeterministicHash.ArrayOrderIrrelevant` | Code.js:755-766 | the canonical form and text of an array holding an object do not depend on the order of its elements |
| `DeterministicHash.NestedObjectOrderIrrelevant` | Code.js:745-792 | permuting the keys of an object anywhere inside the input changes neither the text nor the hash |
| `DeterministicHash.NestedArrayOrderIrrelevant` | Code.js:745-792 | permuting an array that holds an object or array, anywhere inside the input, changes neither the text nor the hash |
| `DeterministicHash.ParseBackSucceeds` | Code.js:759-765 | the output text parses to the canonical tree, so the parse-back `catch` is never taken |
| `DeterministicHash.StringifyIdempotent` | Code.js:747-778 | stringifying the parsed output again reproduces the same text |
| `DeterministicHash.CreateDeterministicHash` | Code.js:745-792 | the hash is the hex rendering of SHA-256 of the canonical text, 64 characters for a 32-byte digest |
| `DeterministicHash.HashDependsOnCanonOnly` | Code.js:745-792 | inputs with the same canonical tree have the same hash |
| `DeterministicHash.HashResponseData` | Code.js:715-728 | `hashResponseData` and `hashBatchData` throw exactly when standardising throws, and otherwise hash the canonical text of the standardised data |
| `DeterministicHash.HashOfStandardized` | Code.js:715-737 | hashing standardised data again gives the same digest, and it equals `hashStandardizedData` of the standardised data |
| `DeterministicHash.HashIgnoresItemOrder` | Code.js:426-441 | a single response's hash does not depend on the order of its items when no two different item records tie on title |
| `Standardizer.TitleOf` | Code.js:416 | the title read with `""` as fallback is the title when it is present and truthy, and the empty string in every other case |
| `Standardizer.ObjectAnswerCollapses` | Code.js:417-418 | every object answer becomes `[object Object]`, whatever it contains |
| `Standardizer.ItemRecord` | Code.js:415-419 | an item is reduced to `{title, response}`, holding its title and its answer text |
| `Standardizer.StandardizeItems` | Code.js:409-420 | the items step throws exactly when an item is `null`, and otherwise keeps the number of items |
| `Standardizer.ResponseRecord` | Code.js:407-421 | a standardised response is `{responseId, items}` |
| `Standardizer.ResponseRecordFields` | Code.js:407-421 | the record's `responseId` is `"response-"` followed by the decimal index, and its `items` are the given standardised items |
| `Standardizer.ResponseOutcome` | Code.js:407-421 | one response throws what reading or slicing its items throws, else throws on a null item's title, else gives `{responseId, items}` |
| `Standardizer.StandardizeResponses` | Code.js:406-422 | `responses.map` standardises the k-th response as the response at position k |
| `Standardizer.ResponsesOk` | Code.js:406-422 | `responses.map` returns exactly when the callback returns for every response |
| `Standardizer.ResponsesFirstThrow` | Code.js:406-422 | when `responses.map` throws, it throws the error of the first response whose callback throws, all earlier ones having returned |
| `Standardizer.Standardize` | Code.js:399-449 | null input throws; input with neither a `responses` nor an `items` array passes through unchanged; a batch becomes `{responseCount, responses}` and throws exactly when some response's callback throws, with the first such error; a single response becomes `{responseId, items}` and throws exactly when an item is null, with the error of reading `title` |
| `Standardizer.BatchShape` | Code.js:403-424 | the k-th output response is the k-th input response, labelled `response-k`, with its items standardised, and the count is `responseCount` |
| `Standardizer.SingleShape` | Code.js:426-442 | a single response is labelled `response-0`, carries its standardised items and has no count |
| `Standardizer.ItemsOnly` | Code.js:426-442 | an object holding only an `items` array is standardised as a single response |
| `Standardizer.RecordTitle` | Code.js:416 | a record keeps the title it is sorted by |
| `Standardizer.ItemOrderPreorder` | Code.js:411-413 | ordering items by title is a total preorder whenever `localeCompare` is one |
| `Standardizer.ItemsAsRecordSort` | Code.js:409-420 | sorting the items and then reducing them equals reducing them and then sorting the records |
| `Standardizer.ItemsSortedStablePermutation` | Code.js:409-420 | the standardised items are the item records, sorted by title, each once, with equal titles in input order, and they are the only such sequence |
| `Standardizer.ItemOrderIrrelevant` | Code.js:409-420 | when no two different records tie on title, the input order of the items does not matter |
| `Standardizer.RecordIdempotent` | Code.js:414-419 | reducing a record again gives the same record |
| `Standardizer.ItemsIdempotent` | Code.js:409-420 | standardising standardised items changes nothing |
| `Standardizer.ResponseIdempotent` | Code.js:406-421 | standardising a standardised response at the same position changes nothing |
| `Standardizer.ResponsesIdempotent` | Code.js:406-422 | standardising standardised responses changes nothing |
| `Standardizer.StandardizeIdempotent` | Code.js:399-449 | standardising standardised data gives it back unchanged |
| `KeySortedHash.Canon` | Hashing.js:12-39 | the canonical tree keeps the kind of every value, keeps array lengths, leaves primitives alone and lists each object's keys sorted |
| `KeySortedHash.Replacer` | Hashing.js:12-39 | arrays of non-null primitives are sorted by `String`, other arrays (including any holding `null`) by plain JSON text, and objects are re-keyed in key order; primitives are left alone and no value gets deeper |
| `KeySortedHash.Stringify` | Hashing.js:12-39 | the replacer-driven text is the plain JSON text of the canonical tree |
| `KeySortedHash.StringifyChildren` | Hashing.js:12-39 | the replacer's output is written out with each child emitted through the replacer again, giving the plain text of its children's canonical forms |
| `KeySortedHash.HashResponseData` | Hashing.js:10-51 | the hash is the hex rendering of SHA-256 of the canonical text, 64 characters for a 32-byte digest |
| `KeySortedHash.ObjectKeysSorted` | Hashing.js:32 | an object is emitted with its keys in ascending order |
| `KeySortedHash.CanonKeysSortedDeep` | Hashing.js:12-39 | every object in the output, at any depth, lists its keys in ascending order |
| `KeySortedHash.ArraySortedPermutation` | Hashing.js:14-28 | an array of non-null primitives is output as a rearrangement of itself sorted by `String`; any other array, including one holding `null`, as a rearrangement of its elements sorted by plain JSON text |
| `KeySortedHash.ObjectOrderIrrelevant` | Hashing.js:31-36 | a top-level object's text does not depend on the insertion order of its keys |
| `KeySortedHash.PrimitiveArrayOrderIrrelevant` | Hashing.js:16-18 | the text of an array of non-null primitives does not depend on its order when no two different elements have the same `String` |
| `KeySortedHash.ArrayOrderIrrelevant` | Hashing.js:21-27 | the text of an array holding an object, an array or `null` does not depend on the order of its elements |
| `KeySortedHash.NestedKeyOrderMatters` | Hashing.js:21-27 | elements are ordered by their text before their own keys are sorted, so two objects with the same canonical form can sort on opposite sides of a third and give different array texts |
| `KeySortedHash.NestedKeyOrderExample` | Hashing.js:21-27 | `[{b:0,a:1},{a:2}]` and `[{a:1,b:0},{a:2}]` hold equal objects but are emitted differently |
| `KeySortedHash.CanonNotIdempotent` | Hashing.js:21-36 | canonicalising is not idempotent: `[{b:0,a:1},{a:2}]` canonicalises to `[{a:2},{a:1,b:0}]`, which canonicalises to `[{a:1,b:0},{a:2}]` |
| `KeySortedHash.NullElementOrder` | Hashing.js:16-27 | `null` counts as an object, so `[null,"z"]` is ordered by JSON text and becomes `["z",null]` |
| `ArraySortedHash.ParseAll` | src/Hashing.js:17 | `map(JSON.parse)` succeeds exactly when every text parses, giving each text's value in order |
| `ArraySortedHash.Replacer` | src/Hashing.js:13-20 | the replacer never throws; it sorts arrays by element JSON text and returns everything else unchanged |
| `ArraySortedHash.Canon` | src/Hashing.js:13-20 | the canonical tree keeps the kind of every value, array lengths, primitives, and each object's keys in their original order |
| `ArraySortedHash.Stringify` | src/Hashing.js:13-20 | the replacer-driven text succeeds and is the plain JSON text of the canonical tree |
| `ArraySortedHash.StringifyChildren` | src/Hashing.js:13-20 | the replacer's output is written out with each child emitted through the replacer again, giving the plain text of its children's canonical forms |
| `ArraySortedHash.HashResponseData` | src/Hashing.js:11-28 | the hash never throws and is the hex rendering of SHA-256 of the canonical text, 64 characters for a 32-byte digest |
| `ArraySortedHash.ArraySortedByText` | src/Hashing.js:17 | an array is output as a rearrangement of its elements sorted by JSON text, and that is the only such rearrangement |
| `ArraySortedHash.ElementsRoundTrip` | src/Hashing.js:17 | each output element is the parsed text of an input element |
| `ArraySortedHash.ObjectKeysKept` | src/Hashing.js:19 | objects are returned as they are, keys in insertion order |
| `ArraySortedHash.KeyOrderMatters` | src/Hashing.js:19 | objects whose keys are listed in different orders give different texts |
| `ArraySortedHash.ArrayOrderIrrelevant` | src/Hashing.js:15-18 | any rearrangement of an array gives the same replacer output and the same text |
| `ArraySortedHash.ResortIsNoOp` | src/Hashing.js:17 | applying the replacer to its own output array changes nothing |
| `ArraySortedHash.CanonNotIdempotent` | src/Hashing.js:13-20 | canonicalising is not idempotent: `[[2,1],[1,5]]` canonicalises to `[[1,5],[1,2]]`, which canonicalises to `[[1,2],[1,5]]` |
| `FormHandler.NormalizeValue` | FormHandler.js:33-48 | the switch throws a TypeError exactly for a CHECKBOX answer that is not an array, and leaves answers of other types unchanged unless they are grid objects or arrays |
| `FormHandler.CheckboxSorted` | FormHandler.js:34-36 | a checkbox answer becomes a sorted copy with the same elements and length |
| `FormHandler.GridObjectSorted` | FormHandler.js:38-46 | a grid object answer becomes the same members in ascending key order |
| `FormHandler.NatToStringInjective` | FormHandler.js:42 | different row indices have different key strings |
| `FormHandler.IndexKeysDistinct` | FormHandler.js:42 | an array's index keys are all distinct |
| `FormHandler.GridArrayKeyed` | FormHandler.js:41-45 | a grid array answer becomes an object keyed by its row indices as strings, in string order, each index holding its row |
| `FormHandler.CheckboxIdempotent` | FormHandler.js:34-36 | normalising a normalised checkbox answer gives the same result |
| `FormHandler.RebuildSorted` | FormHandler.js:42-45 | members already in key order are rebuilt unchanged |
| `FormHandler.GridIdempotent` | FormHandler.js:38-46 | normalising a normalised grid answer gives the same result |
| `FormHandler.NormalizeIdempotent` | FormHandler.js:33-48 | normalising an answer twice is the same as normalising it once |
| `FormHandler.ItemRecord` | FormHandler.js:50-55 | an item record is `{itemId, title, type, response}` |
| `FormHandler.ResultObject` | FormHandler.js:14-18 | the result is `{responseId, timestamp, items}`, holding the response's id, its timestamp text and the item records |
| `FormHandler.Wrap` | FormHandler.js:65-68 | the rethrown error is an `Error` whose message starts with `Failed to extract response data: ` |
| `FormHandler.Records` | FormHandler.js:26-61 | there is one record per item response |
| `FormHandler.ExtractResponseData` | FormHandler.js:11-69 | the loop succeeds exactly when every answer normalises, and then returns the result object holding each item's record in form order; otherwise it rethrows the first failing answer's error, wrapped |
| `FormHandler.RecordsDescribeItems` | FormHandler.js:50-57 | each record carries its item's id, title, type and normalised answer |
| `AccessToken.TrimStart` | Code.js:136 | leading white space is removed and nothing else: the result is a suffix, what was cut is all white space, and it does not start with white space |
| `AccessToken.TrimEnd` | Code.js:136 | trailing white space is removed and nothing else: the result is a prefix, what was cut is all white space, and it does not end with white space |
| `AccessToken.TrimSplits` | Code.js:136 | `trim()` returns the middle of the string between two runs of white space, empty or with non-space ends |
| `AccessToken.TrimIgnoresPadding` | Code.js:142 | white space around a string does not change its trimmed form |
| `AccessToken.TrimIdempotent` | Code.js:152 | trimming twice is trimming once |
| `AccessToken.AlnumRun` | Code.js:141 | `[a-zA-Z0-9]{n}$` matches exactly the strings of length n made of ASCII letters and digits |
| `AccessToken.TokenPatternTest` | Code.js:141-142 | the pattern accepts exactly `ak_` followed by 16 ASCII letters or digits and nothing more |
| `AccessToken.SaveAccessToken` | Code.js:134-155 | a token is saved exactly when its trimmed form matches the pattern, and then the trimmed form is stored; a missing or blank token gets the empty-token error, anything else the format error |
| `AccessToken.PatternHasNoSpace` | Code.js:141 | a token of the accepted shape contains no white space |
| `AccessToken.PatternSavedAsIs` | Code.js:141-153 | a token of the accepted shape is stored exactly as given |
| `AccessToken.StoredTokenStable` | Code.js:150-153 | a stored token is 19 characters with no white space, and saving it again stores it unchanged |
| `AccessToken.PaddingIrrelevant` | Code.js:136-153 | white space around a token never changes the outcome |
| `Schedule.DayNumber` | Code.js:281-289 | every weekday sits in the `weekDays` table at its `getDay()` number |
| `Schedule.GetWeekDayFromNumber` | Code.js:280-292 | numbers 0..6 give the weekday with that number; any other number gives MONDAY |
| `Schedule.SelectedDay` | Code.js:615 | the parsed day with fallback 1 is never 0: a day that is 0 or does not parse becomes 1, and any other day is kept |
| `Schedule.WeeklyTriggerDay` | Code.js:335 | a weekly trigger is never created for Sunday; day 0 gives Monday |
| `Schedule.JsRem7` | Code.js:616 | JavaScript's `% 7` lies in 0..6 for non-negative operands and in -6..0 for negative ones, and is congruent to its operand |
| `Schedule.DaysUntilTarget` | Code.js:616 | the count is never 0; it lies in 1..7 unless the selected day is more than a week before today, when it can be negative |
| `Schedule.DaysUntilTargetNextOccurrence` | Code.js:615-617 | for days in 0..6 the next run is 1..7 days away, falls on the selected weekday, is the first such day, and is a whole week away exactly when the selected day is today |
| `Schedule.DaysUntilTargetCongruent` | Code.js:616 | the date shown always falls on the selected day's weekday modulo 7 |
| `Schedule.NegativeDayGoesBack` | Code.js:616 | a selected day of -8 seen on a Sunday gives -1 days, a date in the past |
| `Schedule.TriggerMatchesShownDate` | Code.js:335 | the trigger's weekday and the weekday of the date shown agree exactly when the selected day is 1..6 or congruent to 1 modulo 7 |
| `Schedule.DayNineMismatch` | Code.js:335 | a stored day of 9 makes the trigger fire on Monday while the date shown is a Tuesday |

## Left out

- SHA-256 (`Utilities.computeDigest`) is a function parameter. Its internals
  are not modelled, so the hash statements hold for any digest function.
- Numbers are integers. Floating point, `-0`, `NaN`, exponent notation and the
  JavaScript number-to-text algorithm are not modelled. `JSON.parse` is
  modelled on the texts `JSON.stringify` emits: no white space, no fractions,
  no surrogate-pair escapes.
- `undefined`, functions and symbols inside values are not modelled. A missing
  property is `None`.
- Objects are taken to have distinct keys, as JavaScript objects do. The
  lemmas that depend on it require `DistinctKeys`.
- JavaScript lists integer-like keys before other keys whatever the
  insertion order. The model keeps members in the order the code builds
  them, so a grid answer stored as an array becomes an object whose index
  keys are in string order (`FormHandler.GridArrayKeyed`).
- `KeyOrder.RebuildFromSortedKeys`: a key `"__proto__"` is kept as an
  ordinary member. In JavaScript, `obj["__proto__"] = value[k]` sets the
  prototype of the object being built instead, so that member drops out of
  the hashed text.
- `localeCompare` is locale-dependent. It is a comparator parameter `le`, and
  the ordering lemmas assume it is a total preorder. For a truthy title that
  is not a string, the model compares `String(title)`; in the source, calling
  `localeCompare` on it may throw, depending on the engine's comparison order.
- The Code.js replacer passes `arguments.callee` to the inner
  `JSON.stringify`. The model takes this to be the replacer itself; strict
  mode, where `arguments.callee` throws, is not modelled.
- Error messages follow the V8 wording only in outline. The model states
  which operation throws and the error's name.
- Apps Script services are not modelled: FormApp, PropertiesService,
  ScriptApp triggers, HtmlService, `Utilities.sleep` and `console` logging.
  The form response is a value, its timestamp already rendered by
  `toISOString()`.
- `AccessToken.SaveAccessToken`: only string, `null` and `undefined`
  arguments are modelled. The `catch` around `setProperty` and the property
  store itself are not; the result names what would be stored.
- Date construction for the next scheduled run is not modelled. Only the day
  count added to today is.
- The `HH:MM` parsing into trigger hours and minutes (Code.js:323-329 and
  606-619) is not modelled.
- ApiClient.js and src/ApiClient.js (HTTP), src/Code.js (UI and trigger
  wiring) and src/FormHandler.js (plain extraction) are not part of this
  model.
