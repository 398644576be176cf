# Store search and postcode join: a Dafny model

This project models the server core of a small store-finder service. The service reads a
catalog of stores, each a name and a UK postcode, and offers two lookups:

- **Text search.** A store matches by postcode when the query, with its spaces removed,
  occurs in the upper-cased postcode. It matches by name when the query occurs in the
  upper-cased name. Postcode matches are listed first, sorted by postcode. Name matches
  follow, sorted by name, minus any store whose name a postcode match already carries. The
  request names one page of that merged list and gets the page plus the total count. A
  missing, blank or repeated query, a negative offset or a non-positive page size gets the
  sentinel answer: an empty page and a count of -1.
- **Nearby stores.** The catalog stores whose postcode is among the nearest postcodes a
  geocoding service returned, kept in catalog order.

It also models the helper that left-joins a list of records with a second list on one key.

The modules follow the pieces they model. `Seqs`, `Text` and `Sorting` stand for the Python
built-ins the handler uses; the others follow the server's functions:

- `Wrappers`: `Option` and `Result`.
- `Seqs`: a stable filter (the list comprehension), clipped slicing (Python's `a[i:j]`), and
  subsequence and distinctness predicates.
- `Text`: the Python string operations the handler relies on. These are `upper` on ASCII
  letters, `replace(' ', '')`, `strip()`, the `in` substring test and the code-point order
  `<=` on strings.
- `Sorting`: a stable insertion sort by a string key, standing in for `list.sort(key=...)`.
- `StoreCatalog`: the store record and its two sort keys.
- `MatchEngine`: the body of `Task2Handler.get`.
- `RequestArgs`: `get_arg` and the handler's reading of `q`.
- `ProximityFinder`: the final filter of `get_nearby_stores`.
- `DictJoin`: `extend_dict_list`.
- `SearchScenarios`, `QueryEdgeCases` and `NearbyScenarios`: concrete catalogs. They follow
  the repository's own tests and the corner cases the general lemmas describe.

Consequences of the code that a reader may not expect:

- Only the query loses its spaces. A stored postcode is upper-cased but keeps its own space,
  so the query "BR5 3RP" misses the store at "BR5 3RP" by postcode
  (`QueryEdgeCases.WholePostcodeMisses`).
- Duplicate names are removed only across the two sections. When the catalog's names are
  distinct, no name appears twice in the merged list (`MatchEngine.FoundNamesDistinct`). Two
  same-named stores that both match by postcode are both listed
  (`QueryEdgeCases.DuplicateNamesSurvive`).
- Only the ASCII space is removed from the query, not other whitespace.
- A page from offset 0 as long as the merged list returns the whole list. When that list is
  empty the page size is 0, which is invalid input: the portion is still the empty list, but
  the count is -1 (`MatchEngine.WholeListPage`).

## Model

| member | source | states |
|---|---|---|
| MatchEngine.Search | server/main.py:53-73 | invalid input (empty query, negative offset, non-positive size) gives exactly the sentinel; otherwise the count is the merged length and the page is the window `[start_with, start_with + n)` of the merged list, clipped at its end |
| MatchEngine.ByPostcodeSection | server/main.py:58-64 | the postcode section holds exactly the catalog stores whose upper-cased postcode contains the space-free query, sorted by upper-cased postcode, equal keys in catalog order |
| MatchEngine.ByNameSection | server/main.py:59-65 | the name section holds exactly the catalog stores whose upper-cased name contains the query, sorted by upper-cased name, equal keys in catalog order |
| MatchEngine.PostcodeSectionNames | server/main.py:67 | the set of names taken from the postcode section is the set of names of the catalog's postcode matches |
| MatchEngine.NameOnlyCounts | server/main.py:67-69 | a name match whose name no postcode match carries is kept as many times as the name section lists it, and any other store not at all |
| MatchEngine.NameOnlySection | server/main.py:67-69 | a name match survives deduplication exactly when no postcode match carries its name; the survivors keep name order; no survivor shares a name with a postcode match |
| MatchEngine.FoundSpec | server/main.py:64-69 | a store is in the merged list exactly when it matches by postcode, or by name with a name no postcode match carries; postcode matches come first and are the only postcode matches in the list |
| MatchEngine.FoundWithinCatalog | server/main.py:69 | the merged list holds no catalog entry more often than the catalog does, so it is never longer than the catalog |
| MatchEngine.FoundNamesDistinct | server/main.py:67-69 | if the catalog's names are pairwise distinct, so are the merged list's |
| MatchEngine.WholeListPage | server/main.py:53-71 | a page from offset 0 as long as the merged list returns the whole list; when the list is empty that request gets the sentinel |
| MatchEngine.PastTheEnd | server/main.py:70-71 | a page starting at or past the end is empty and still reports the true count |
| MatchEngine.PagesConcatenate | server/main.py:70 | consecutive pages of sizes n and m concatenate to the page of size n + m |
| RequestArgs.GetArg | server/main.py:84-85 | exactly one value gives that value with surrounding whitespace removed (empty exactly when it is all whitespace, otherwise starting and ending with non-whitespace); none or several give the default |
| RequestArgs.HandleSearch | server/main.py:49-73 | the handler, from the raw `q` values (default `''`, upper-cased) to the answer, gives the sentinel exactly when `q` is missing, repeated or blank, or `start_with < 0`, or `n <= 0`; otherwise the count is the merged length for the stripped, upper-cased query and the page is the window `[start_with, start_with + n)` of that merged list, clipped at its end |
| ProximityFinder.NearbyStores | server/utils.py:44-50 | a catalog store is kept exactly when its postcode is one of the nearest postcodes; each kept store appears as often as in the catalog; the result is a subsequence of the catalog; no nearest postcodes give no stores |
| ProximityFinder.OnlyTheSetMatters | server/utils.py:45-49 | two nearest-postcode lists with the same members give the same stores, whatever their order or repetitions |
| DictJoin.IndexLastWins | server/utils.py:67 | `Index`, the join index built by the dict comprehension, maps each key value to the last extension record carrying it, and holds no value that no record carries |
| DictJoin.SetAttrs | server/utils.py:72-73 | each requested attribute takes the extension record's value, or None where it lacks one; the other keys keep their values; the keys are the old ones plus the requested ones |
| DictJoin.ExtendDictList | server/utils.py:53-75 | fails with KeyError on the join key exactly when an extension or a source record lacks it; otherwise output record i is source record i extended with the requested attributes from the last matching extension record, or with None when none matches |
| DictJoin.NoAttrsCopies | server/utils.py:68-73 | with no attributes requested the join returns a copy of the source |
| DictJoin.EmptyExtensionGivesNone | server/utils.py:71-73 | joining with an empty extension list sets every requested attribute to None |
| Sorting.SortBy | server/main.py:61-62 | the sorted list is a permutation of its input and ordered by key under string `<=` |
| Sorting.SortByStable | server/main.py:61-62 | stores with equal keys keep their relative order, as Python's stable sort promises |
| Sorting.SortThenFilter | server/main.py:61-65 | filtering the sorted list equals sorting the filtered list |
| Sorting.SortDistinct | server/main.py:61-62 | if an attribute (such as the name) is pairwise distinct over a list, it stays so after sorting |
| Seqs.FilterMember | server/main.py:64-65 | an element is in a filtered list exactly when it is in the list and satisfies the condition |
| Seqs.FilterMultiset | server/utils.py:49 | a comprehension keeps a satisfying value as often as it occurs in its input, and any other value never |
| Seqs.FilterIsSubsequence | server/utils.py:49 | a filtered list is a subsequence of its input, order kept |
| Seqs.Slice | server/main.py:70 | Python slicing: the window clipped to the list's length, empty when the start is at or past the end |
| Text.Upper | server/main.py:49 | upper-casing keeps the length, maps each character, and leaves no lower-case ASCII letter |
| Text.UpperIdempotent | server/main.py:49 | upper-casing twice is upper-casing once |
| Text.RemoveSpaces | server/main.py:64 | the result has no space, holds exactly the non-space characters of its input, and is the input itself when that has no space |
| Text.RemoveSpacesAppend | server/main.py:64 | removing spaces distributes over concatenation |
| Text.Strip | server/main.py:84 | the result is the input with a whitespace-only prefix and suffix removed, its ends are not whitespace, and it is empty exactly when the input is all whitespace |
| Text.StripIdempotent | server/main.py:84 | stripping twice is stripping once |
| Text.ContainsIff | server/main.py:64-65 | Python's `needle in hay` holds exactly when the needle occurs at some position of the hay |
| Text.LexLeTotal | server/main.py:61-62 | the string order used as sort key is total |
| Text.LexLeTransitive | server/main.py:61-62 | the string order is transitive |
| Text.LexLeAntisymmetric | server/main.py:61-62 | the string order is antisymmetric |
| SearchScenarios.BrPages | server/tests.py:45-87 | the query `br` over the six-store catalog gives the page Orpington, Bracknell, Brentford, then Broadstairs, Tunbridge_Wells, then an empty page, each reporting 5 |
| SearchScenarios.BrMerged | server/tests.py:45-59 | the merged list for `BR` is the postcode match Orpington followed by the four name matches in name order |
| QueryEdgeCases.WholePostcodeMisses | server/main.py:64 | a query holding a store's whole postcode, with or without its space, does not match that store by postcode |
| QueryEdgeCases.OutwardCodeHits | server/main.py:64 | the space-free outward part of a postcode does match |
| QueryEdgeCases.DuplicateNamesSurvive | server/main.py:67-69 | two same-named stores that both match by postcode are both listed, so the merged list repeats a name |
| NearbyScenarios.StAlbansNearby | server/tests.py:20-28 | around AL1 2RJ both St Albans stores are returned, in catalog order, and the Hatfield store is not |
| NearbyScenarios.HatfieldNearby | server/tests.py:30-33 | around AL9 5JP only the Hatfield store is returned |

## Left out

- The HTTP layer (Tornado routing, headers, JSON encoding, `Task1Handler` and its HTML page) is not modelled. `HandleSearch` takes the `q` values and the already-converted `start_with` and `n`.
- The `int()` conversion of `start_with` and `n`, and its `ValueError` on non-numeric text, are not modelled. Both arrive as integers, so their defaults `'0'` and `'3'` are not modelled either.
- RequestArgs.GetArg: does not model Tornado's replacement of the control characters 0x00-0x08 and 0x0E-0x1F by spaces before `strip()`; that Tornado code is not part of this model. So a `q` of just "\x01" gets the sentinel from the program, while the model keeps the character and runs a search.
- `get_stores` reads a JSON file. The catalog is a parameter.
- `get_nearest_postcodes`, `get_postcodes_data` and `add_coords_to_stores` call the postcodes.io web service. The nearest-postcode list is a parameter of `NearbyStores`; the rest is not modelled. The radius, limit and wide-search arguments only reach that service.
- The latitude ordering of the service's answer is not modelled: floating point, and the filter discards the order anyway.
- Text.Upper: maps only the ASCII letters a-z. Python's `str.upper` also maps non-ASCII letters, some into several characters, so non-ASCII queries or names can match or sort differently: Python turns the query "straße" into "STRASSE" and finds a store named "Strasse", while the model keeps "ß" and misses it. Python's sort keys for "éa" and "Éb" are "ÉA" < "ÉB", so it lists "éa" first; the model's keys are "éA" (U+00E9) and "ÉB" (U+00C9), so it lists "Éb" first.
- `extend_dict_list` raises `TypeError` for an unhashable join-key value. The model's key values are always comparable, so this error has no counterpart.
- The web client under `client/` is not modelled.
