/**
 * The search on small hand-built catalogs: the shape of the "br" paging scenario, the
 * postcode spacing rule, and a repeated name surviving the merge.
 */
module SearchScenarios {
  import opened Seqs
  import opened Text
  import opened Sorting
  import opened StoreCatalog
  import opened MatchEngine
  import opened RequestArgs

  const Orpington := Store("Orpington", "BR5 3RP")
  const Bracknell := Store("Bracknell", "RG12 1EN")
  const Brentford := Store("Brentford", "TW8 8JW")
  const Broadstairs := Store("Broadstairs", "CT10 2AB")
  const TunbridgeWells := Store("Tunbridge_Wells", "TN2 3FB")
  const Hatfield := Store("Hatfield", "AL9 5JP")

  /** A catalog in no particular order, one store of which matches no query below. */
  const BrCatalog := [TunbridgeWells, Brentford, Hatfield, Orpington, Broadstairs, Bracknell]

  // Which stores match "BR", one fact per lemma to keep each proof small.

  lemma QueryHasNoSpace()
    ensures RemoveSpaces("BR") == "BR"
  {
  }

  lemma OrpingtonPostcodeHit()
    ensures PostcodeHit("BR")(Orpington)
  {
    QueryHasNoSpace();
    assert Upper("BR5 3RP") == "BR5 3RP";
    assert StartsWith(Upper("BR5 3RP"), "BR");
  }

  lemma TunbridgeWellsPostcodeMiss()
    ensures !PostcodeHit("BR")(TunbridgeWells)
  {
    QueryHasNoSpace();
    assert Upper("TN2 3FB") == "TN2 3FB";
    FirstCharAbsent("TN2 3FB", "BR");
  }

  lemma BrentfordPostcodeMiss()
    ensures !PostcodeHit("BR")(Brentford)
  {
    QueryHasNoSpace();
    assert Upper("TW8 8JW") == "TW8 8JW";
    FirstCharAbsent("TW8 8JW", "BR");
  }

  lemma HatfieldPostcodeMiss()
    ensures !PostcodeHit("BR")(Hatfield)
  {
    QueryHasNoSpace();
    assert Upper("AL9 5JP") == "AL9 5JP";
    FirstCharAbsent("AL9 5JP", "BR");
  }

  lemma BroadstairsPostcodeMiss()
    ensures !PostcodeHit("BR")(Broadstairs)
  {
    QueryHasNoSpace();
    assert Upper("CT10 2AB") == "CT10 2AB";
    FirstCharAbsent("CT10 2AB", "BR");
  }

  lemma BracknellPostcodeMiss()
    ensures !PostcodeHit("BR")(Bracknell)
  {
    QueryHasNoSpace();
    assert Upper("RG12 1EN") == "RG12 1EN";
    FirstCharAbsent("RG12 1EN", "BR");
  }

  lemma BracknellKey()
    ensures NameKey(Bracknell) == "BRACKNELL"
  {
  }

  lemma BrentfordKey()
    ensures NameKey(Brentford) == "BRENTFORD"
  {
  }

  lemma BroadstairsKey()
    ensures NameKey(Broadstairs) == "BROADSTAIRS"
  {
  }

  lemma TunbridgeWellsKey()
    ensures NameKey(TunbridgeWells) == "TUNBRIDGE_WELLS"
  {
  }

  lemma BracknellNameHit()
    ensures NameHit("BR")(Bracknell)
  {
    BracknellKey();
    assert StartsWith("BRACKNELL", "BR");
  }

  lemma BrentfordNameHit()
    ensures NameHit("BR")(Brentford)
  {
    BrentfordKey();
    assert StartsWith("BRENTFORD", "BR");
  }

  lemma BroadstairsNameHit()
    ensures NameHit("BR")(Broadstairs)
  {
    BroadstairsKey();
    assert StartsWith("BROADSTAIRS", "BR");
  }

  lemma TunbridgeWellsNameHit()
    ensures NameHit("BR")(TunbridgeWells)
  {
    var tw := "TUNBRIDGE_WELLS";
    TunbridgeWellsKey();
    assert StartsWith(tw[3..], "BR");
    assert Contains(tw[2..], "BR") && Contains(tw[1..], "BR");
  }

  lemma HatfieldNameMiss()
    ensures !NameHit("BR")(Hatfield)
  {
    assert Upper("Hatfield") == "HATFIELD";
    FirstCharAbsent("HATFIELD", "BR");
  }

  lemma OrpingtonNameMiss()
    ensures !NameHit("BR")(Orpington)
  {
    assert Upper("Orpington") == "ORPINGTON";
    FirstCharAbsent("ORPINGTON", "BR");
  }

  /** Of the catalog only Orpington's postcode contains "BR". */
  lemma BrPostcodeHits()
    ensures Filter(BrCatalog, PostcodeHit("BR")) == [Orpington]
  {
    var p := PostcodeHit("BR");
    OrpingtonPostcodeHit();
    TunbridgeWellsPostcodeMiss();
    BrentfordPostcodeMiss();
    HatfieldPostcodeMiss();
    BroadstairsPostcodeMiss();
    BracknellPostcodeMiss();
    FilterCons(Bracknell, [], p);
    FilterCons(Broadstairs, [Bracknell], p);
    FilterCons(Orpington, [Broadstairs, Bracknell], p);
    FilterCons(Hatfield, [Orpington, Broadstairs, Bracknell], p);
    FilterCons(Brentford, [Hatfield, Orpington, Broadstairs, Bracknell], p);
    FilterCons(TunbridgeWells, [Brentford, Hatfield, Orpington, Broadstairs, Bracknell], p);
  }

  /** Four names contain "BR"; Tunbridge_Wells in its middle. */
  lemma BrNameHits()
    ensures Filter(BrCatalog, NameHit("BR")) == [TunbridgeWells, Brentford, Broadstairs, Bracknell]
  {
    var p := NameHit("BR");
    TunbridgeWellsNameHit();
    BrentfordNameHit();
    HatfieldNameMiss();
    OrpingtonNameMiss();
    BroadstairsNameHit();
    BracknellNameHit();
    FilterCons(Bracknell, [], p);
    FilterCons(Broadstairs, [Bracknell], p);
    FilterCons(Orpington, [Broadstairs, Bracknell], p);
    FilterCons(Hatfield, [Orpington, Broadstairs, Bracknell], p);
    FilterCons(Brentford, [Hatfield, Orpington, Broadstairs, Bracknell], p);
    FilterCons(TunbridgeWells, [Brentford, Hatfield, Orpington, Broadstairs, Bracknell], p);
  }

  lemma NameOrderFacts()
    ensures !LexLe("BROADSTAIRS", "BRACKNELL")
    ensures !LexLe("BRENTFORD", "BRACKNELL")
    ensures LexLe("BRENTFORD", "BROADSTAIRS")
  {
  }

  lemma TunbridgeWellsSortsLast()
    ensures !LexLe("TUNBRIDGE_WELLS", "BRACKNELL")
    ensures !LexLe("TUNBRIDGE_WELLS", "BRENTFORD")
    ensures !LexLe("TUNBRIDGE_WELLS", "BROADSTAIRS")
  {
  }

  /** Insertion sort of three elements whose keys order them as `d`, `b`, `c`. */
  lemma SortThree(b: Store, c: Store, d: Store, key: Store -> string)
    requires !LexLe(key(c), key(d)) && !LexLe(key(b), key(d)) && LexLe(key(b), key(c))
    ensures SortBy([b, c, d], key) == [d, b, c]
  {
    assert [d][1..] == [];
    assert SortBy([d], key) == [d];
    assert [c, d][1..] == [d];
    InsertBehindHead(c, d, [], key);
    assert SortBy([c, d], key) == [d, c];
    assert [b, c, d][1..] == [c, d];
    InsertBehindHead(b, d, [c], key);
  }

  /** An element whose key is above all three keys goes last. */
  lemma InsertLast(a: Store, d: Store, b: Store, c: Store, key: Store -> string)
    requires !LexLe(key(a), key(d)) && !LexLe(key(a), key(b)) && !LexLe(key(a), key(c))
    ensures Insert(a, [d, b, c], key) == [d, b, c, a]
  {
    InsertBehindHead(a, c, [], key);
    assert Insert(a, [c], key) == [c, a];
    InsertBehindHead(a, b, [c], key);
    assert [b] + [c] == [b, c];
    assert Insert(a, [b, c], key) == [b, c, a];
    InsertBehindHead(a, d, [b, c], key);
    assert [d] + [b, c] == [d, b, c];
  }

  /** Adding an element whose key is above all three puts it last. */
  lemma SortFourReversing(a: Store, b: Store, c: Store, d: Store, key: Store -> string)
    requires !LexLe(key(c), key(d)) && !LexLe(key(b), key(d)) && LexLe(key(b), key(c))
    requires !LexLe(key(a), key(d)) && !LexLe(key(a), key(b)) && !LexLe(key(a), key(c))
    ensures SortBy([a, b, c, d], key) == [d, b, c, a]
  {
    SortThree(b, c, d, key);
    assert [a, b, c, d][1..] == [b, c, d];
    InsertLast(a, d, b, c, key);
  }

  /** The name matches sorted by upper-cased name. */
  lemma BrNamesSorted()
    ensures SortBy([TunbridgeWells, Brentford, Broadstairs, Bracknell], NameKey)
         == [Bracknell, Brentford, Broadstairs, TunbridgeWells]
  {
    BracknellKey();
    BrentfordKey();
    BroadstairsKey();
    TunbridgeWellsKey();
    NameOrderFacts();
    TunbridgeWellsSortsLast();
    SortFourReversing(TunbridgeWells, Brentford, Broadstairs, Bracknell, NameKey);
  }

  /** For "BR" the postcode match comes first, then the four name matches in name order. */
  lemma BrMerged()
    ensures Found(BrCatalog, "BR") == [Orpington, Bracknell, Brentford, Broadstairs, TunbridgeWells]
  {
    BrPostcodeSection();
    BrNameOnly();
    ConsFive(Orpington, Bracknell, Brentford, Broadstairs, TunbridgeWells);
  }

  lemma BrPostcodeSection()
    ensures ByPostcode(BrCatalog, "BR") == [Orpington]
  {
    BrPostcodeHits();
    ByPostcodeSection(BrCatalog, "BR");
    assert SortBy([Orpington], PostcodeKey) == [Orpington];
  }

  lemma BrNameSection()
    ensures ByName(BrCatalog, "BR") == [Bracknell, Brentford, Broadstairs, TunbridgeWells]
  {
    BrNameHits();
    BrNamesSorted();
    ByNameSection(BrCatalog, "BR");
  }

  lemma BrNameOnly()
    ensures NameOnly(BrCatalog, "BR") == [Bracknell, Brentford, Broadstairs, TunbridgeWells]
  {
    BrPostcodeSection();
    BrNameSection();
    OnlyOrpingtonName();
    FilterAll([Bracknell, Brentford, Broadstairs, TunbridgeWells], NameNotIn(Names([Orpington])));
  }

  lemma ConsFive(a: Store, b: Store, c: Store, d: Store, e: Store)
    ensures [a] + [b, c, d, e] == [a, b, c, d, e]
  {
  }

  /** None of the name matches is called Orpington. */
  lemma OnlyOrpingtonName()
    ensures forall i :: 0 <= i < 4 ==>
      NameNotIn(Names([Orpington]))([Bracknell, Brentford, Broadstairs, TunbridgeWells][i])
  {
    assert Names([Orpington]) == {"Orpington"};
  }

  /** Pages of three over a merged list of five. */
  lemma PagesOfFive(catalog: seq<Store>, q: string, a: Store, b: Store, c: Store, d: Store, e: Store)
    requires q != [] && Found(catalog, q) == [a, b, c, d, e]
    ensures Search(catalog, q, 0, 3) == SearchResult([a, b, c], 5)
    ensures Search(catalog, q, 3, 3) == SearchResult([d, e], 5)
    ensures Search(catalog, q, 5, 3) == SearchResult([], 5)
  {
    assert Search(catalog, q, 0, 3).portion == [a, b, c];
    assert Search(catalog, q, 3, 3).portion == [d, e];
  }

  /** The request argument `q=br` reaches the search as "BR". */
  lemma BrQueryArgument()
    ensures Upper(GetArg(["br"], "")) == "BR"
  {
    BrStripped();
    assert GetArg(["br"], "") == "br";
    BrUpper();
  }

  lemma BrStripped()
    ensures Strip("br") == "br"
  {
    StripKeepsTrimmed("br");
  }

  lemma BrUpper()
    ensures Upper("br") == "BR"
  {
  }

  /**
   * The three requests of the "br" scenario: a full first page, then the last two stores,
   * then an empty page, each reporting five matches in all.
   */
  lemma BrPages()
    ensures HandleSearch(BrCatalog, ["br"], 0, 3) == SearchResult([Orpington, Bracknell, Brentford], 5)
    ensures HandleSearch(BrCatalog, ["br"], 3, 3) == SearchResult([Broadstairs, TunbridgeWells], 5)
    ensures HandleSearch(BrCatalog, ["br"], 5, 3) == SearchResult([], 5)
  {
    BrQueryArgument();
    BrMerged();
    PagesOfFive(BrCatalog, "BR", Orpington, Bracknell, Brentford, Broadstairs, TunbridgeWells);
  }
}
