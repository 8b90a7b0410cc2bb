/**
 * The location condition factory: the top-level enumeration of territories
 * and the narrowing of a territory-only condition to its regions, both
 * computed from the game-data sheets.
 */
module LocationFactory {
  import opened Wrappers
  import opened Sheets
  import opened Linq
  import opened Locations

  function PlaceNameOf(t: TerritoryType): nat { t.placeName }

  function HasPlaceName(t: TerritoryType): bool { t.placeName != 0 }

  function MarkerRangeOf(m: Map): nat { m.mapMarkerRange }

  function PlaceNameSubtextOf(marker: MapMarker): nat { marker.placeNameSubtext }

  /** The territory rows that have a place name. */
  function NamedTerritories(data: GameData): seq<TerritoryType>
  {
    Where(data.territoryTypes, HasPlaceName)
  }

  /** The territory rows `TopLevel` enumerates: the first named row of every place name. */
  function TopLevelTerritories(data: GameData): seq<TerritoryType>
  {
    DistinctBy(NamedTerritories(data), PlaceNameOf)
  }

  /** `TopLevel`: one territory-only condition per distinct non-zero place-name id. */
  function TopLevel(data: GameData): (r: seq<LocationCondition>)
    ensures forall c :: c in r ==> c.regionOrSubAreaName.None?
  {
    Select(TopLevelTerritories(data), (t: TerritoryType) => FromIds(t.rowId))
  }

  /**
   * `TopLevel` emits, in order, the territory-only conditions of rows that have
   * a place name, of pairwise distinct place-name ids, the first row of each
   * id, and every non-zero place-name id of the sheet is represented.
   */
  lemma TopLevelSpec(data: GameData)
    ensures |TopLevel(data)| == |TopLevelTerritories(data)|
    ensures forall i :: 0 <= i < |TopLevel(data)| ==>
      TopLevel(data)[i] == LocationCondition(TopLevelTerritories(data)[i].rowId, None)
    ensures forall t :: t in TopLevelTerritories(data) ==> t in data.territoryTypes && t.placeName != 0
    ensures forall i, j :: 0 <= i < j < |TopLevelTerritories(data)| ==>
      TopLevelTerritories(data)[i].placeName != TopLevelTerritories(data)[j].placeName
    ensures forall i :: 0 <= i < |TopLevelTerritories(data)| ==>
      IndexOfKey(NamedTerritories(data), PlaceNameOf, TopLevelTerritories(data)[i].placeName) < |NamedTerritories(data)| &&
      TopLevelTerritories(data)[i] ==
      NamedTerritories(data)[IndexOfKey(NamedTerritories(data), PlaceNameOf, TopLevelTerritories(data)[i].placeName)]
    ensures forall t :: t in data.territoryTypes && t.placeName != 0 ==>
      t.placeName in Select(TopLevelTerritories(data), PlaceNameOf)
    ensures forall i, j :: 0 <= i < j < |TopLevelTerritories(data)| ==>
      IndexOfKey(NamedTerritories(data), PlaceNameOf, TopLevelTerritories(data)[i].placeName) <
      IndexOfKey(NamedTerritories(data), PlaceNameOf, TopLevelTerritories(data)[j].placeName)
  {
    DistinctBySpec(NamedTerritories(data), PlaceNameOf);
    forall t | t in data.territoryTypes || t in TopLevelTerritories(data)
      ensures t in NamedTerritories(data) <==> t in data.territoryTypes && t.placeName != 0
    {
      WhereMembers(data.territoryTypes, HasPlaceName, t);
    }
  }

  /** The filter of the `Map` sheet: the map belongs to `territory` (by raw id). */
  function OnTerritory(territory: nat): Map -> bool
  {
    (m: Map) => m.territoryType == territory
  }

  /** The marker ranges of the maps that belong to `territory`, as a set. */
  function MarkerRanges(maps: seq<Map>, territory: nat): set<nat>
  {
    ToHashSet(Select(Where(maps, OnTerritory(territory)), MarkerRangeOf))
  }

  lemma MarkerRangesSpec(maps: seq<Map>, territory: nat, x: nat)
    ensures x in MarkerRanges(maps, territory) <==>
      exists m :: m in maps && m.territoryType == territory && m.mapMarkerRange == x
  {
    var own := Where(maps, OnTerritory(territory));
    var ranges := Select(own, MarkerRangeOf);
    if x in MarkerRanges(maps, territory) {
      var i :| 0 <= i < |ranges| && ranges[i] == x;
      assert own[i] in own;
      WhereMembers(maps, OnTerritory(territory), own[i]);
    }
    if m :| m in maps && m.territoryType == territory && m.mapMarkerRange == x {
      WhereMembers(maps, OnTerritory(territory), m);
      var i :| 0 <= i < |own| && own[i] == m;
      assert ranges[i] == x;
    }
  }

  /** A marker of one of the territory's maps names the place `placeId`. */
  ghost predicate NamesPlaceOn(data: GameData, territory: nat, placeId: nat)
  {
    exists m, row, marker :: m in data.maps && row in data.mapMarkers && marker in row &&
      m.territoryType == territory && marker.rowId == m.mapMarkerRange && marker.placeNameSubtext == placeId
  }

  /** The filter of the flattened marker sheet: the marker is in one of `ranges` and names a place. */
  function Qualifies(ranges: set<nat>): MapMarker -> bool
  {
    (marker: MapMarker) => marker.rowId in ranges && marker.placeNameSubtext != 0
  }

  /** The flattened map markers that lie on one of the territory's maps and name a place. */
  function QualifyingMarkers(data: GameData, territory: nat): seq<MapMarker>
  {
    Where(Flatten(data.mapMarkers), Qualifies(MarkerRanges(data.maps, territory)))
  }

  /** The markers whose place names `Narrow` turns into regions. */
  function NarrowedMarkers(data: GameData, c: LocationCondition): seq<MapMarker>
  {
    DistinctBy(QualifyingMarkers(data, c.territory), PlaceNameSubtextOf)
  }

  /**
   * `Narrow`: the regions a territory-only condition can be narrowed to, one
   * per distinct place-name id of its qualifying markers, each a copy of
   * `search` with the region filled in. Anything else narrows to nothing.
   */
  function Narrow(data: GameData, search: Condition): (r: seq<LocationCondition>)
    ensures search.Other? ==> r == []
    ensures search.Location? && search.location.regionOrSubAreaName.Some? ==> r == []
  {
    match search
    case Other(_) => []
    case Location(c) =>
      if c.regionOrSubAreaName.Some? then []
      else
        Select(NarrowedMarkers(data, c),
               (marker: MapMarker) => c.(regionOrSubAreaName := Some(marker.placeNameSubtext)))
  }

  lemma NarrowIsSelect(data: GameData, c: LocationCondition)
    requires c.regionOrSubAreaName.None?
    ensures |Narrow(data, Location(c))| == |NarrowedMarkers(data, c)|
    ensures forall i :: 0 <= i < |Narrow(data, Location(c))| ==>
      Narrow(data, Location(c))[i] == LocationCondition(c.territory, Some(NarrowedMarkers(data, c)[i].placeNameSubtext))
  {
  }

  /** A qualifying marker names a non-zero place on one of the territory's maps. */
  lemma QualifyingMarkerNamesPlace(data: GameData, territory: nat, marker: MapMarker)
    requires marker in QualifyingMarkers(data, territory)
    ensures marker.placeNameSubtext != 0 && NamesPlaceOn(data, territory, marker.placeNameSubtext)
  {
    WhereMembers(Flatten(data.mapMarkers), Qualifies(MarkerRanges(data.maps, territory)), marker);
    FlattenMembers(data.mapMarkers, marker);
    var row :| row in data.mapMarkers && marker in row;
    MarkerRangesSpec(data.maps, territory, marker.rowId);
    var m :| m in data.maps && m.territoryType == territory && m.mapMarkerRange == marker.rowId;
  }

  lemma QualifyingMarkersSpec(data: GameData, territory: nat, placeId: nat)
    ensures placeId in Select(QualifyingMarkers(data, territory), PlaceNameSubtextOf) <==>
      placeId != 0 && NamesPlaceOn(data, territory, placeId)
  {
    var q := QualifyingMarkers(data, territory);
    var ids := Select(q, PlaceNameSubtextOf);
    if placeId in ids {
      var i :| 0 <= i < |ids| && ids[i] == placeId;
      assert q[i] in q;
      QualifyingMarkerNamesPlace(data, territory, q[i]);
    }
    if placeId != 0 && NamesPlaceOn(data, territory, placeId) {
      var m, row, marker :| m in data.maps && row in data.mapMarkers && marker in row &&
        m.territoryType == territory && marker.rowId == m.mapMarkerRange && marker.placeNameSubtext == placeId;
      MarkerRangesSpec(data.maps, territory, marker.rowId);
      FlattenMembers(data.mapMarkers, marker);
      WhereMembers(Flatten(data.mapMarkers), Qualifies(MarkerRanges(data.maps, territory)), marker);
      assert marker in q;
      var i :| 0 <= i < |q| && q[i] == marker;
      assert ids[i] == placeId;
    }
  }

  /** Every narrowing keeps the territory and sets a non-zero place-name id named on one of its maps. */
  lemma NarrowMemberSound(data: GameData, c: LocationCondition, n: LocationCondition)
    requires c.regionOrSubAreaName.None?
    requires n in Narrow(data, Location(c))
    ensures n.territory == c.territory && n.regionOrSubAreaName.Some? && n.regionOrSubAreaName.value != 0
    ensures NamesPlaceOn(data, c.territory, n.regionOrSubAreaName.value)
  {
    var d := NarrowedMarkers(data, c);
    var r := Narrow(data, Location(c));
    NarrowIsSelect(data, c);
    var i :| 0 <= i < |r| && r[i] == n;
    DistinctBySpec(QualifyingMarkers(data, c.territory), PlaceNameSubtextOf);
    assert d[i] in d;
    QualifyingMarkerNamesPlace(data, c.territory, d[i]);
  }

  /** Every non-zero place-name id named on one of the territory's maps has its narrowing. */
  lemma NarrowMemberComplete(data: GameData, c: LocationCondition, placeId: nat)
    requires c.regionOrSubAreaName.None?
    requires placeId != 0 && NamesPlaceOn(data, c.territory, placeId)
    ensures LocationCondition(c.territory, Some(placeId)) in Narrow(data, Location(c))
  {
    var q := QualifyingMarkers(data, c.territory);
    var d := NarrowedMarkers(data, c);
    var r := Narrow(data, Location(c));
    DistinctBySpec(q, PlaceNameSubtextOf);
    NarrowIsSelect(data, c);
    QualifyingMarkersSpec(data, c.territory, placeId);
    var k :| 0 <= k < |q| && Select(q, PlaceNameSubtextOf)[k] == placeId;
    assert q[k] in q;
    var i :| 0 <= i < |d| && Select(d, PlaceNameSubtextOf)[i] == placeId;
    assert d[i].placeNameSubtext == placeId;
    assert r[i] == LocationCondition(c.territory, Some(placeId));
  }

  /**
   * A territory-only condition narrows to exactly the conditions of the same
   * territory whose region is a non-zero place-name id named by a marker of
   * one of the territory's maps.
   */
  lemma NarrowMembers(data: GameData, c: LocationCondition, n: LocationCondition)
    requires c.regionOrSubAreaName.None?
    ensures n in Narrow(data, Location(c)) <==>
      n.territory == c.territory && n.regionOrSubAreaName.Some? && n.regionOrSubAreaName.value != 0 &&
      NamesPlaceOn(data, c.territory, n.regionOrSubAreaName.value)
  {
    if n in Narrow(data, Location(c)) {
      NarrowMemberSound(data, c, n);
    }
    if n.territory == c.territory && n.regionOrSubAreaName.Some? && n.regionOrSubAreaName.value != 0 &&
       NamesPlaceOn(data, c.territory, n.regionOrSubAreaName.value) {
      NarrowMemberComplete(data, c, n.regionOrSubAreaName.value);
    }
  }

  /**
   * The regions `Narrow` emits are pairwise distinct and appear in the order
   * in which their place-name ids first occur among the qualifying markers.
   */
  lemma NarrowDistinctInFirstOccurrenceOrder(data: GameData, c: LocationCondition)
    requires c.regionOrSubAreaName.None?
    ensures forall i, j :: 0 <= i < j < |Narrow(data, Location(c))| ==>
      Narrow(data, Location(c))[i].regionOrSubAreaName != Narrow(data, Location(c))[j].regionOrSubAreaName
    ensures forall i, j :: 0 <= i < j < |Narrow(data, Location(c))| ==>
      IndexOfKey(QualifyingMarkers(data, c.territory), PlaceNameSubtextOf,
                 Narrow(data, Location(c))[i].regionOrSubAreaName.value) <
      IndexOfKey(QualifyingMarkers(data, c.territory), PlaceNameSubtextOf,
                 Narrow(data, Location(c))[j].regionOrSubAreaName.value)
  {
    DistinctBySpec(QualifyingMarkers(data, c.territory), PlaceNameSubtextOf);
    NarrowIsSelect(data, c);
  }

  /** Narrowing is a two-step refinement: whatever `Narrow` emits narrows no further. */
  lemma NarrowTerminal(data: GameData, search: Condition, n: LocationCondition)
    requires n in Narrow(data, search)
    ensures search.Location? && search.location.regionOrSubAreaName.None?
    ensures n.regionOrSubAreaName.Some?
    ensures Narrow(data, Location(n)) == []
  {
  }

  /**
   * Every narrowing is more specific than the condition it came from: the
   * original is satisfied by it, and by everything that satisfies it.
   */
  lemma NarrowRefines(names: Names, data: GameData, search: Condition, n: LocationCondition, other: Condition)
    requires n in Narrow(data, search)
    ensures search.Location? && SatisfiedBy(names, search.location, Location(n))
    ensures SatisfiedBy(names, n, other) ==> SatisfiedBy(names, search.location, other)
  {
  }

  /** The label of a narrowing is the original's label followed by the region's display name. */
  lemma NarrowExtendsValueName(names: Names, data: GameData, search: Condition, n: LocationCondition)
    requires n in Narrow(data, search)
    ensures search.Location?
    ensures NarrowName(names, n) == names.placeDisplayName(n.regionOrSubAreaName.value)
    ensures ValueName(names, n) == ValueName(names, search.location) + ", " + NarrowName(names, n)
  {
  }

  /** The game data of the Lower Decks example below. */
  function LowerDecksData(): GameData
  {
    GameData(
      [TerritoryType(128, 28), TerritoryType(129, 29), TerritoryType(130, 0), TerritoryType(135, 29)],
      [Map(129, 14), Map(128, 13), Map(129, 15)],
      [[MapMarker(13, 40)], [MapMarker(14, 0), MapMarker(14, 51)], [MapMarker(15, 52), MapMarker(15, 51)]])
  }

  lemma LowerDecksRanges()
    ensures MarkerRanges(LowerDecksData().maps, 129) == {14, 15}
  {
    var maps := LowerDecksData().maps;
    forall x: nat ensures x in MarkerRanges(maps, 129) <==> x in {14, 15} {
      MarkerRangesSpec(maps, 129, x);
      assert x in {14, 15} ==> maps[if x == 14 then 0 else 2].mapMarkerRange == x;
    }
  }

  lemma LowerDecksFlattened()
    ensures Flatten(LowerDecksData().mapMarkers) ==
      [MapMarker(13, 40), MapMarker(14, 0), MapMarker(14, 51), MapMarker(15, 52), MapMarker(15, 51)]
  {
    var rows := LowerDecksData().mapMarkers;
    assert Flatten(rows[2..]) == rows[2];
    assert Flatten(rows[1..]) == rows[1] + rows[2];
  }

  lemma LowerDecksQualifying()
    ensures QualifyingMarkers(LowerDecksData(), 129) == [MapMarker(14, 51), MapMarker(15, 52), MapMarker(15, 51)]
  {
    var data := LowerDecksData();
    LowerDecksRanges();
    LowerDecksFlattened();
    var p := Qualifies(MarkerRanges(data.maps, 129));
    var kept := [MapMarker(14, 51), MapMarker(15, 52), MapMarker(15, 51)];
    assert p(kept[0]) && p(kept[1]) && p(kept[2]);
    WhereKeepsAll(kept, p);
    assert !p(MapMarker(14, 0));
    WhereSkipsFirst(MapMarker(14, 0), kept, p);
    assert 13 !in {14, 15};
    assert !p(MapMarker(13, 40));
    WhereSkipsFirst(MapMarker(13, 40), [MapMarker(14, 0)] + kept, p);
    assert [MapMarker(13, 40)] + ([MapMarker(14, 0)] + kept) == Flatten(data.mapMarkers);
  }

  lemma LowerDecksDistinct()
    ensures DistinctBy([MapMarker(14, 51), MapMarker(15, 52), MapMarker(15, 51)], PlaceNameSubtextOf) ==
      [MapMarker(14, 51), MapMarker(15, 52)]
  {
  }

  /**
   * Lower Decks (territory 129) has two maps, ranges 14 and 15, whose markers
   * name places 51 and 52 (51 twice, and one marker names no place); a marker
   * of another territory's map names 40. Narrowing yields 51 then 52.
   */
  lemma LowerDecksNarrowExample()
    ensures Narrow(LowerDecksData(), Location(LocationCondition(129, None))) ==
      [LocationCondition(129, Some(51)), LocationCondition(129, Some(52))]
  {
    LowerDecksQualifying();
    LowerDecksDistinct();
  }

  /**
   * Narrowing de-duplicates by place-name id, not by resolved name: when places
   * 51 and 52 resolve to the same name, Lower Decks still narrows to two
   * conditions, and each satisfies the other.
   */
  lemma NarrowDistinctByIdNotName(names: Names)
    requires names.placeName(51) == names.placeName(52)
    ensures |Narrow(LowerDecksData(), Location(LocationCondition(129, None)))| == 2
    ensures SatisfiedBy(names, Narrow(LowerDecksData(), Location(LocationCondition(129, None)))[0],
                        Location(Narrow(LowerDecksData(), Location(LocationCondition(129, None)))[1]))
    ensures SatisfiedBy(names, Narrow(LowerDecksData(), Location(LocationCondition(129, None)))[1],
                        Location(Narrow(LowerDecksData(), Location(LocationCondition(129, None)))[0]))
  {
    LowerDecksNarrowExample();
  }

  /** The enumeration of the same data keeps the first of the two territories named 29 and skips 130. */
  lemma LowerDecksTopLevelExample()
    ensures TopLevel(LowerDecksData()) == [LocationCondition(128, None), LocationCondition(129, None)]
  {
    LowerDecksNamed();
    assert TopLevelTerritories(LowerDecksData()) == [TerritoryType(128, 28), TerritoryType(129, 29)];
  }

  lemma LowerDecksNamed()
    ensures NamedTerritories(LowerDecksData()) ==
      [TerritoryType(128, 28), TerritoryType(129, 29), TerritoryType(135, 29)]
  {
    var s := LowerDecksData().territoryTypes;
    assert Where(s[3..], HasPlaceName) == [TerritoryType(135, 29)];
    assert Where(s[2..], HasPlaceName) == [TerritoryType(135, 29)];
    assert Where(s[1..], HasPlaceName) == [TerritoryType(129, 29), TerritoryType(135, 29)];
  }
}
