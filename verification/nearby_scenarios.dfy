/**
 * The St Albans and Hatfield lookups: which catalog stores survive the nearest-postcode
 * filter, and in which order.
 */
module NearbyScenarios {
  import opened Seqs
  import opened StoreCatalog
  import opened ProximityFinder

  const StAlbans := Store("St_Albans", "AL1 2RJ")
  const StAlbansCentre := Store("St_Albans_Centre", "AL1 2DF")
  const HatfieldStore := Store("Hatfield", "AL9 5JP")

  const AlCatalog := [StAlbans, HatfieldStore, StAlbansCentre]

  /** A hand-chosen list of postcodes near AL1 2RJ, with AL1 2DF ahead of AL1 2RJ. */
  const AroundStAlbans := ["AL1 2DF", "AL1 2RE", "AL1 2RJ"]

  /** A hand-chosen list of postcodes near AL9 5JP. */
  const AroundHatfield := ["AL9 5AB", "AL9 5JP"]

  lemma AroundStAlbansFacts()
    ensures "AL1 2RJ" in SetOf(AroundStAlbans) && "AL1 2DF" in SetOf(AroundStAlbans)
    ensures "AL9 5JP" !in SetOf(AroundStAlbans)
  {
    assert AroundStAlbans[2] == "AL1 2RJ";
    assert AroundStAlbans[0] == "AL1 2DF";
  }

  lemma AroundHatfieldFacts()
    ensures "AL9 5JP" in SetOf(AroundHatfield)
    ensures "AL1 2RJ" !in SetOf(AroundHatfield) && "AL1 2DF" !in SetOf(AroundHatfield)
  {
    assert AroundHatfield[1] == "AL9 5JP";
  }

  /**
   * Both St Albans stores are found, in catalog order, even though the list names
   * AL1 2DF first; the Hatfield store is not among the nearest and is dropped.
   */
  lemma StAlbansNearby()
    ensures NearbyStores(AlCatalog, AroundStAlbans) == [StAlbans, StAlbansCentre]
  {
    AroundStAlbansFacts();
    var p := PostcodeIn(SetOf(AroundStAlbans));
    FilterCons(StAlbans, [HatfieldStore, StAlbansCentre], p);
    FilterCons(HatfieldStore, [StAlbansCentre], p);
    FilterCons(StAlbansCentre, [], p);
  }

  /** Only the Hatfield store is near AL9 5JP. */
  lemma HatfieldNearby()
    ensures NearbyStores(AlCatalog, AroundHatfield) == [HatfieldStore]
  {
    AroundHatfieldFacts();
    var p := PostcodeIn(SetOf(AroundHatfield));
    FilterCons(StAlbans, [HatfieldStore, StAlbansCentre], p);
    FilterCons(HatfieldStore, [StAlbansCentre], p);
    FilterCons(StAlbansCentre, [], p);
  }
}
