/**
 * Corner cases of the text search that follow from how the handler compares strings: only
 * the query loses its spaces before the postcode match, and duplicate names are removed only
 * across the two sections.
 */
module QueryEdgeCases {
  import opened Seqs
  import opened Text
  import opened Sorting
  import opened StoreCatalog
  import opened MatchEngine
  import opened SearchScenarios

  /** No placement of the six-character `needle` inside the seven-character `hay` fits. */
  lemma SixInSevenAbsent(hay: string, needle: string)
    requires |hay| == 7 && |needle| == 6
    requires hay[0..6] != needle && hay[1..7] != needle
    ensures !Contains(hay, needle)
  {
    ContainsIff(hay, needle);
    forall i ensures !OccursAt(hay, needle, i) {
      if i == 0 {
        assert hay[i..i + |needle|] == hay[0..6];
      } else if i == 1 {
        assert hay[i..i + |needle|] == hay[1..7];
      }
    }
  }

  lemma SpaceDropped(a: string, b: string)
    requires ' ' !in a && ' ' !in b
    ensures RemoveSpaces(a + [' '] + b) == a + b
  {
    RemoveSpacesAppend(a + [' '], b);
    RemoveSpacesAppend(a, [' ']);
  }

  lemma FullPostcodeQueryNeedle()
    ensures RemoveSpaces("BR5 3RP") == "BR53RP"
    ensures RemoveSpaces("BR53RP") == "BR53RP"
  {
    assert "BR5 3RP" == "BR5" + [' '] + "3RP";
    SpaceDropped("BR5", "3RP");
    assert "BR5" + "3RP" == "BR53RP";
  }

  lemma OrpingtonUpper()
    ensures Upper("BR5 3RP") == "BR5 3RP"
  {
  }

  /**
   * A query holding a store's whole postcode does not find it by postcode: the query's space
   * is removed but the stored postcode keeps its own, so "BR5 3RP" and "BR53RP" both miss
   * the store at "BR5 3RP".
   */
  lemma WholePostcodeMisses()
    ensures !PostcodeHit("BR5 3RP")(Orpington)
    ensures !PostcodeHit("BR53RP")(Orpington)
  {
    FullPostcodeQueryNeedle();
    OrpingtonUpper();
    OrpingtonLacksNeedle();
  }

  lemma OrpingtonLacksNeedle()
    ensures !Contains("BR5 3RP", "BR53RP")
  {
    var hay := "BR5 3RP";
    assert hay[0..6][3] == ' ';
    assert hay[1..7][0] == 'R';
    SixInSevenAbsent(hay, "BR53RP");
  }

  /** The outward part of the same postcode, which holds no space, does match. */
  lemma OutwardCodeHits()
    ensures PostcodeHit("BR5")(Orpington)
  {
    assert RemoveSpaces("BR5") == "BR5";
    OrpingtonUpper();
    assert StartsWith("BR5 3RP", "BR5");
  }

  const BromleyNorth := Store("Bromley", "BR1 1AA")
  const BromleySouth := Store("Bromley", "BR2 9ZZ")

  lemma BromleyPostcodeHits()
    ensures PostcodeHit("BR")(BromleyNorth) && PostcodeHit("BR")(BromleySouth)
  {
    assert RemoveSpaces("BR") == "BR";
    assert Upper("BR1 1AA") == "BR1 1AA";
    assert Upper("BR2 9ZZ") == "BR2 9ZZ";
    assert StartsWith("BR1 1AA", "BR");
    assert StartsWith("BR2 9ZZ", "BR");
  }

  lemma BromleyPostcodeOrder()
    ensures SortBy([BromleyNorth, BromleySouth], PostcodeKey) == [BromleyNorth, BromleySouth]
  {
    assert Upper("BR1 1AA") == "BR1 1AA";
    assert Upper("BR2 9ZZ") == "BR2 9ZZ";
    assert LexLe("BR1 1AA", "BR2 9ZZ");
  }

  /**
   * Two stores sharing a name that both match by postcode are both listed: the handler drops
   * a name only from the name section when the postcode section already holds it, so a
   * catalog with repeated names can produce repeated names in the answer.
   */
  lemma DuplicateNamesSurvive()
    ensures Found([BromleyNorth, BromleySouth], "BR") == [BromleyNorth, BromleySouth]
    ensures !DistinctBy(Found([BromleyNorth, BromleySouth], "BR"), StoreName)
  {
    var c := [BromleyNorth, BromleySouth];
    BromleyByPostcode();
    BromleyNameOnly();
    assert Found(c, "BR") == c + [];
  }

  lemma BromleyByPostcode()
    ensures ByPostcode([BromleyNorth, BromleySouth], "BR") == [BromleyNorth, BromleySouth]
  {
    var c := [BromleyNorth, BromleySouth];
    BromleyPostcodeHits();
    BromleyPostcodeOrder();
    FilterAll(c, PostcodeHit("BR"));
  }

  /** Every name-section store shares its name with the postcode section, so none is kept. */
  lemma BromleyNameOnly()
    ensures NameOnly([BromleyNorth, BromleySouth], "BR") == []
  {
    var c := [BromleyNorth, BromleySouth];
    BromleyByPostcode();
    NameOnlySection(c, "BR");
    if NameOnly(c, "BR") != [] {
      assert false;
    }
  }
}
