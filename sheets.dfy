/**
 * The host's game data, made a parameter: the rows of the three Excel sheets
 * that location conditions read, and the name lookups behind `ExcelId`.
 * Row ids are the sheets' unsigned row keys; no arithmetic is done on them.
 */
module Sheets {

  /** A row of the `TerritoryType` sheet: its row id and the row id of its `PlaceName`. */
  datatype TerritoryType = TerritoryType(rowId: nat, placeName: nat)

  /** A row of the `Map` sheet: the territory it belongs to and its map-marker range. */
  datatype Map = Map(territoryType: nat, mapMarkerRange: nat)

  /**
   * A subrow of the `MapMarker` sheet. `rowId` is the id of the row that holds
   * it, which is the marker range of the maps that use it.
   */
  datatype MapMarker = MapMarker(rowId: nat, placeNameSubtext: nat)

  /**
   * The sheets as the data manager hands them out. `mapMarkers` is the subrow
   * sheet: one sequence of subrows per row.
   */
  datatype GameData = GameData(
    territoryTypes: seq<TerritoryType>,
    maps: seq<Map>,
    mapMarkers: seq<seq<MapMarker>>)

  /**
   * Name resolution of `ExcelId<TerritoryType>` and `ExcelId<PlaceName>`:
   * `Name()` (canonical name, used for matching) and `DisplayName()` (label).
   * Many ids may resolve to the same name.
   */
  datatype Names = Names(
    territoryName: nat -> string,
    placeName: nat -> string,
    territoryDisplayName: nat -> string,
    placeDisplayName: nat -> string)
}
