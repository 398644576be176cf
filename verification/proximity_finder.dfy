/**
 * The last step of `get_nearby_stores`: given the nearest postcodes the geocoding service
 * returned, keep the catalog stores whose postcode is among them, in catalog order.
 */
module ProximityFinder {
  import opened Seqs
  import opened StoreCatalog

  function PostcodeIn(postcodes: set<string>): Store -> bool
  {
    (s: Store) => s.postcode in postcodes
  }

  /** The nearest-postcode list turned into a set, as the source does before filtering. */
  function SetOf(nearest: seq<string>): set<string>
  {
    set p | p in nearest
  }

  /**
   * A store is kept exactly when its postcode is one of the nearest postcodes, compared as
   * exact strings; the kept stores keep their catalog order, not the service's order, and a
   * store listed several times in the catalog is kept every time.
   */
  function NearbyStores(catalog: seq<Store>, nearest: seq<string>): (r: seq<Store>)
    ensures forall s :: s in r <==> s in catalog && s.postcode in nearest
    ensures forall s :: multiset(r)[s] == if s.postcode in nearest then multiset(catalog)[s] else 0
    ensures IsSubsequence(r, catalog)
    ensures nearest == [] ==> r == []
  {
    var r := Filter(catalog, PostcodeIn(SetOf(nearest)));
    NearbyMembers(catalog, nearest);
    FilterIsSubsequence(catalog, PostcodeIn(SetOf(nearest)));
    r
  }

  lemma NearbyMembers(catalog: seq<Store>, nearest: seq<string>)
    ensures forall s :: s in Filter(catalog, PostcodeIn(SetOf(nearest)))
                    <==> s in catalog && s.postcode in nearest
    ensures forall s :: multiset(Filter(catalog, PostcodeIn(SetOf(nearest))))[s]
                     == if s.postcode in nearest then multiset(catalog)[s] else 0
    ensures nearest == [] ==> Filter(catalog, PostcodeIn(SetOf(nearest))) == []
  {
    forall s ensures s in Filter(catalog, PostcodeIn(SetOf(nearest))) <==> s in catalog && s.postcode in nearest {
      FilterMember(catalog, PostcodeIn(SetOf(nearest)), s);
    }
    forall s ensures multiset(Filter(catalog, PostcodeIn(SetOf(nearest))))[s]
                  == if s.postcode in nearest then multiset(catalog)[s] else 0 {
      FilterMultiset(catalog, PostcodeIn(SetOf(nearest)), s);
    }
  }

  /**
   * Only the set of nearest postcodes matters: reordering the list or repeating entries in it
   * leaves the answer unchanged.
   */
  lemma {:induction false} OnlyTheSetMatters(catalog: seq<Store>, nearest: seq<string>, nearest': seq<string>)
    requires forall p :: p in nearest <==> p in nearest'
    ensures NearbyStores(catalog, nearest) == NearbyStores(catalog, nearest')
  {
    assert SetOf(nearest) == SetOf(nearest');
  }
}
