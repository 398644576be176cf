/**
 * How the `/task2` handler reads its query: `get_arg` picks a request argument's single
 * stripped value, and the handler upper-cases `q` before searching. The `start_with` and `n`
 * arguments reach `Search` already converted to integers.
 */
module RequestArgs {
  import opened Seqs
  import opened Text
  import opened StoreCatalog
  import opened MatchEngine

  /** Every character of `s` is whitespace (vacuously so for the empty string). */
  predicate Blank(s: string)
  {
    forall k :: 0 <= k < |s| ==> IsWhitespace(s[k])
  }

  /**
   * `get_arg`: `values` are the argument's raw values in request order. Exactly one value
   * yields that value with its surrounding whitespace removed; none, or more than one, yields
   * the default.
   */
  function GetArg(values: seq<string>, default: string): (r: string)
    ensures |values| != 1 ==> r == default
    ensures |values| == 1 ==> TrimOf(r, values[0])
    ensures |values| == 1 ==> (r == [] <==> Blank(values[0]))
    ensures |values| == 1 && r != [] ==> !IsWhitespace(r[0]) && !IsWhitespace(r[|r| - 1])
  {
    if |values| == 1 then Strip(values[0])
    else default
  }

  /**
   * The text search as the handler runs it on the raw `q` values: a missing `q` becomes `''`,
   * the value is upper-cased, and the search answers with the sentinel exactly when `q` is
   * missing, repeated or blank, or the page bounds are invalid; a whitespace-only `q` counts
   * as missing. Otherwise the count is the length of the merged list for the stripped,
   * upper-cased query, and the page is the window `[startWith, startWith + n)` of that merged
   * list, clipped at its end.
   */
  function HandleSearch(catalog: seq<Store>, qValues: seq<string>, startWith: int, n: int): (r: SearchResult)
    ensures r == Sentinel <==> |qValues| != 1 || Blank(qValues[0]) || startWith < 0 || n <= 0
    ensures |qValues| == 1 && r != Sentinel ==>
      && r.totalCount == |Found(catalog, Upper(Strip(qValues[0])))|
      && |r.portion| == (if startWith >= r.totalCount then 0 else Min(n, r.totalCount - startWith))
      && forall k :: 0 <= k < |r.portion| ==> r.portion[k] == Found(catalog, Upper(Strip(qValues[0])))[startWith + k]
  {
    Search(catalog, Upper(GetArg(qValues, "")), startWith, n)
  }
}
