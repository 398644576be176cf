/**
 * The text search behind the `/task2` endpoint: postcode matches first, then name matches
 * whose name is not already among the postcode matches, then one page of the merged list.
 * The query `q` arrives already stripped and upper-cased (see `RequestArgs`).
 */
module MatchEngine {
  import opened Seqs
  import opened Text
  import opened Sorting
  import opened StoreCatalog

  /** The response body: one page of stores and the length of the whole merged list. */
  datatype SearchResult = SearchResult(portion: seq<Store>, totalCount: int)

  /** The answer to invalid input: no stores and a count of -1; no search is run. */
  const Sentinel: SearchResult := SearchResult([], -1)

  /** The query is searched only when it is non-empty and the page bounds make sense. */
  predicate ValidQuery(q: string, startWith: int, n: int)
  {
    q != [] && startWith >= 0 && n > 0
  }

  /** Postcode match: the query with its spaces removed occurs in the upper-cased postcode. */
  function PostcodeHit(q: string): Store -> bool
  {
    (s: Store) => Contains(Upper(s.postcode), RemoveSpaces(q))
  }

  /** Name match: the query, spaces kept, occurs in the upper-cased name. */
  function NameHit(q: string): Store -> bool
  {
    (s: Store) => Contains(Upper(s.name), q)
  }

  function NameNotIn(names: set<string>): Store -> bool
  {
    (s: Store) => s.name !in names
  }

  function StoreName(s: Store): string { s.name }

  /** The set of names occurring in `stores`. */
  function Names(stores: seq<Store>): set<string>
  {
    set s | s in stores :: s.name
  }

  /** The names of all catalog stores that match by postcode, read off the catalog directly. */
  ghost function PostcodeHitNames(catalog: seq<Store>, q: string): set<string>
  {
    set s | s in catalog && PostcodeHit(q)(s) :: s.name
  }

  /** The catalog sorted by upper-cased postcode, keeping the postcode matches. */
  function ByPostcode(catalog: seq<Store>, q: string): seq<Store>
  {
    Filter(SortBy(catalog, PostcodeKey), PostcodeHit(q))
  }

  /** The catalog sorted by upper-cased name, keeping the name matches. */
  function ByName(catalog: seq<Store>, q: string): seq<Store>
  {
    Filter(SortBy(catalog, NameKey), NameHit(q))
  }

  /** The name matches whose name does not occur among the postcode matches. */
  function NameOnly(catalog: seq<Store>, q: string): seq<Store>
  {
    Filter(ByName(catalog, q), NameNotIn(Names(ByPostcode(catalog, q))))
  }

  /** The merged list: every postcode match, then the remaining name matches. */
  function Found(catalog: seq<Store>, q: string): seq<Store>
  {
    ByPostcode(catalog, q) + NameOnly(catalog, q)
  }

  /**
   * The request handler once the HTTP layer is removed. Invalid input gives the sentinel
   * whatever the catalog holds; otherwise the count is the merged length, never -1, and the
   * portion is the window `[startWith, startWith + n)` of the merged list, clipped to its end.
   */
  function Search(catalog: seq<Store>, q: string, startWith: int, n: int): (r: SearchResult)
    ensures !ValidQuery(q, startWith, n) ==> r == Sentinel
    ensures ValidQuery(q, startWith, n) ==>
      && r.totalCount == |Found(catalog, q)|
      && |r.portion| == (if startWith >= r.totalCount then 0 else Min(n, r.totalCount - startWith))
      && forall k :: 0 <= k < |r.portion| ==> r.portion[k] == Found(catalog, q)[startWith + k]
  {
    if !ValidQuery(q, startWith, n) then Sentinel
    else
      var found := Found(catalog, q);
      SearchResult(Slice(found, startWith, startWith + n), |found|)
  }

  /**
   * The postcode section holds exactly the catalog stores matching by postcode, ordered by
   * upper-cased postcode, stores with equal keys in catalog order; it is what sorting the
   * matching stores would give.
   */
  lemma ByPostcodeSection(catalog: seq<Store>, q: string)
    ensures forall s :: s in ByPostcode(catalog, q) <==> s in catalog && PostcodeHit(q)(s)
    ensures SortedBy(ByPostcode(catalog, q), PostcodeKey)
    ensures forall k :: Filter(ByPostcode(catalog, q), HasKey(PostcodeKey, k))
                     == Filter(Filter(catalog, PostcodeHit(q)), HasKey(PostcodeKey, k))
    ensures ByPostcode(catalog, q) == SortBy(Filter(catalog, PostcodeHit(q)), PostcodeKey)
  {
    SortedSection(catalog, PostcodeHit(q), PostcodeKey);
  }

  /**
   * The name section holds exactly the catalog stores matching by name, ordered by
   * upper-cased name, stores with equal keys in catalog order.
   */
  lemma ByNameSection(catalog: seq<Store>, q: string)
    ensures forall s :: s in ByName(catalog, q) <==> s in catalog && NameHit(q)(s)
    ensures SortedBy(ByName(catalog, q), NameKey)
    ensures forall k :: Filter(ByName(catalog, q), HasKey(NameKey, k))
                     == Filter(Filter(catalog, NameHit(q)), HasKey(NameKey, k))
    ensures ByName(catalog, q) == SortBy(Filter(catalog, NameHit(q)), NameKey)
  {
    SortedSection(catalog, NameHit(q), NameKey);
  }

  /**
   * Deduplication drops stores only by name: a name match whose name no postcode match
   * carries is kept as many times as the name section lists it.
   */
  lemma NameOnlyCounts(catalog: seq<Store>, q: string, s: Store)
    ensures multiset(NameOnly(catalog, q))[s]
         == if s.name in PostcodeHitNames(catalog, q) then 0 else multiset(ByName(catalog, q))[s]
  {
    PostcodeSectionNames(catalog, q);
    FilterMultiset(ByName(catalog, q), NameNotIn(Names(ByPostcode(catalog, q))), s);
  }

  /**
   * The merged list holds no catalog entry more often than the catalog does: a store in the
   * postcode section carries a name the name section then drops.
   */
  lemma FoundWithinCatalog(catalog: seq<Store>, q: string)
    ensures multiset(Found(catalog, q)) <= multiset(catalog)
    ensures |Found(catalog, q)| <= |catalog|
  {
    var pc := ByPostcode(catalog, q);
    var rest := NameOnly(catalog, q);
    forall s ensures multiset(pc)[s] + multiset(rest)[s] <= multiset(catalog)[s] {
      PostcodeCount(catalog, q, s);
      NameOnlyCounts(catalog, q, s);
      NameCount(catalog, q, s);
      if PostcodeHit(q)(s) && s in catalog {
        assert s.name in PostcodeHitNames(catalog, q);
      }
    }
    assert multiset(Found(catalog, q)) == multiset(pc) + multiset(rest);
    SubMultisetSize(multiset(Found(catalog, q)), multiset(catalog));
  }

  lemma PostcodeCount(catalog: seq<Store>, q: string, s: Store)
    ensures multiset(ByPostcode(catalog, q))[s] == if PostcodeHit(q)(s) then multiset(catalog)[s] else 0
  {
    ByPostcodeSection(catalog, q);
    FilterMultiset(catalog, PostcodeHit(q), s);
  }

  lemma NameCount(catalog: seq<Store>, q: string, s: Store)
    ensures multiset(ByName(catalog, q))[s] == if NameHit(q)(s) then multiset(catalog)[s] else 0
  {
    ByNameSection(catalog, q);
    FilterMultiset(catalog, NameHit(q), s);
  }

  /** The names of the postcode section are the names of the catalog's postcode matches. */
  lemma PostcodeSectionNames(catalog: seq<Store>, q: string)
    ensures Names(ByPostcode(catalog, q)) == PostcodeHitNames(catalog, q)
  {
    ByPostcodeSection(catalog, q);
  }

  /**
   * Cross-section deduplication: a name match is kept exactly when its name is not the name
   * of any postcode match in the catalog, and the kept ones stay in name order.
   */
  lemma NameOnlySection(catalog: seq<Store>, q: string)
    ensures forall s :: s in NameOnly(catalog, q) <==>
      s in catalog && NameHit(q)(s) && s.name !in PostcodeHitNames(catalog, q)
    ensures IsSubsequence(NameOnly(catalog, q), ByName(catalog, q))
    ensures forall i, j :: (0 <= i < |ByPostcode(catalog, q)| && 0 <= j < |NameOnly(catalog, q)|
      ==> ByPostcode(catalog, q)[i].name != NameOnly(catalog, q)[j].name)
  {
    var names := Names(ByPostcode(catalog, q));
    ByNameSection(catalog, q);
    PostcodeSectionNames(catalog, q);
    forall s ensures s in NameOnly(catalog, q) <==> s in ByName(catalog, q) && s.name !in names {
      FilterMember(ByName(catalog, q), NameNotIn(names), s);
    }
    FilterIsSubsequence(ByName(catalog, q), NameNotIn(names));
    forall i, j | 0 <= i < |ByPostcode(catalog, q)| && 0 <= j < |NameOnly(catalog, q)|
      ensures ByPostcode(catalog, q)[i].name != NameOnly(catalog, q)[j].name
    {
      assert ByPostcode(catalog, q)[i].name in names;
    }
  }

  /**
   * What the merged list contains and in which order: a store is listed exactly when it
   * matches by postcode, or matches by name and no postcode match shares its name; the
   * postcode matches form its first `|ByPostcode|` entries and nothing after them matches by
   * postcode.
   */
  lemma FoundSpec(catalog: seq<Store>, q: string)
    ensures forall s :: s in Found(catalog, q) <==>
      s in catalog && (PostcodeHit(q)(s) || (NameHit(q)(s) && s.name !in PostcodeHitNames(catalog, q)))
    ensures forall i :: 0 <= i < |Found(catalog, q)| ==>
      (PostcodeHit(q)(Found(catalog, q)[i]) <==> i < |ByPostcode(catalog, q)|)
  {
    FoundMembers(catalog, q);
    FoundOrder(catalog, q);
  }

  lemma FoundMembers(catalog: seq<Store>, q: string)
    ensures forall s :: s in Found(catalog, q) <==>
      s in catalog && (PostcodeHit(q)(s) || (NameHit(q)(s) && s.name !in PostcodeHitNames(catalog, q)))
  {
    ByPostcodeSection(catalog, q);
    NameOnlySection(catalog, q);
    forall s ensures s in Found(catalog, q) <==> s in ByPostcode(catalog, q) || s in NameOnly(catalog, q) {
    }
  }

  lemma FoundOrder(catalog: seq<Store>, q: string)
    ensures forall i :: 0 <= i < |Found(catalog, q)| ==>
      (PostcodeHit(q)(Found(catalog, q)[i]) <==> i < |ByPostcode(catalog, q)|)
  {
    forall i | 0 <= i < |Found(catalog, q)|
      ensures PostcodeHit(q)(Found(catalog, q)[i]) <==> i < |ByPostcode(catalog, q)|
    {
      FoundEntry(catalog, q, i);
    }
  }

  lemma FoundEntry(catalog: seq<Store>, q: string, i: int)
    requires 0 <= i < |Found(catalog, q)|
    ensures PostcodeHit(q)(Found(catalog, q)[i]) <==> i < |ByPostcode(catalog, q)|
  {
    var pc := ByPostcode(catalog, q);
    var rest := NameOnly(catalog, q);
    var s := Found(catalog, q)[i];
    if i < |pc| {
      assert s == pc[i];
    } else {
      assert s == rest[i - |pc|];
      NameOnlySection(catalog, q);
      assert s in rest;
      assert s in catalog && s.name !in PostcodeHitNames(catalog, q);
    }
  }

  /**
   * When the catalog's names are pairwise distinct, no name occurs twice in the merged list.
   * Without that premise the list can repeat a name; see `DuplicateNamesSurvive`.
   */
  lemma FoundNamesDistinct(catalog: seq<Store>, q: string)
    requires DistinctBy(catalog, StoreName)
    ensures DistinctBy(Found(catalog, q), StoreName)
  {
    var pc := ByPostcode(catalog, q);
    var rest := NameOnly(catalog, q);
    SortDistinct(catalog, PostcodeKey, StoreName);
    FilterDistinct(SortBy(catalog, PostcodeKey), PostcodeHit(q), StoreName);
    SortDistinct(catalog, NameKey, StoreName);
    FilterDistinct(SortBy(catalog, NameKey), NameHit(q), StoreName);
    FilterDistinct(ByName(catalog, q), NameNotIn(Names(pc)), StoreName);
    NameOnlySection(catalog, q);
    var found := Found(catalog, q);
    forall i, j | 0 <= i < j < |found| ensures StoreName(found[i]) != StoreName(found[j]) {
      if j < |pc| {
        assert found[i] == pc[i] && found[j] == pc[j];
      } else if i >= |pc| {
        assert found[i] == rest[i - |pc|] && found[j] == rest[j - |pc|];
      } else {
        assert found[i] == pc[i] && found[j] == rest[j - |pc|];
      }
    }
  }

  /**
   * Asking for the whole merged list in one page returns it unchanged. When the list is empty
   * that page has size 0, which is invalid input, so the answer is the sentinel: its portion is
   * still the (empty) list, but its count is -1.
   */
  lemma WholeListPage(catalog: seq<Store>, q: string)
    requires q != []
    ensures Search(catalog, q, 0, |Found(catalog, q)|).portion == Found(catalog, q)
    ensures |Found(catalog, q)| == 0 ==> Search(catalog, q, 0, 0) == Sentinel
  {
  }

  /** A page starting at or past the end is empty but still reports the real count. */
  lemma PastTheEnd(catalog: seq<Store>, q: string, startWith: int, n: int)
    requires q != [] && n > 0
    ensures startWith >= |Found(catalog, q)| ==> Search(catalog, q, startWith, n) == SearchResult([], |Found(catalog, q)|)
  {
  }

  /** Two consecutive pages together form the page that spans both. */
  lemma PagesConcatenate(catalog: seq<Store>, q: string, startWith: int, n: int, m: int)
    requires ValidQuery(q, startWith, n) && m > 0
    ensures Search(catalog, q, startWith, n).portion + Search(catalog, q, startWith + n, m).portion
         == Search(catalog, q, startWith, n + m).portion
  {
    var a := Search(catalog, q, startWith, n).portion;
    var b := Search(catalog, q, startWith + n, m).portion;
    var c := Search(catalog, q, startWith, n + m).portion;
    assert |a + b| == |c|;
    forall k | 0 <= k < |c| ensures (a + b)[k] == c[k] {
      if k >= |a| {
        assert (a + b)[k] == b[k - |a|];
      }
    }
  }
}
