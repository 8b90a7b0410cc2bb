/**
 * The location condition record: a territory and an optional region or
 * sub-area, its labels, its constructors, and the match test `SatisfiedBy`.
 */
module Locations {
  import opened Wrappers
  import opened Sheets

  /**
   * A location condition: a `TerritoryType` id and, optionally, the
   * `PlaceName` id of a region or sub-area inside it. Immutable.
   */
  datatype LocationCondition = LocationCondition(territory: nat, regionOrSubAreaName: Option<nat>)

  /**
   * Any condition of the framework. Conditions of every other kind are
   * compared with location conditions freely, so they are one variant here.
   */
  datatype Condition = Location(location: LocationCondition) | Other(kind: string)

  /** The territory of the default condition (Limsa Lominsa Upper Decks). */
  const DefaultTerritoryId: nat := 128

  /** The parameterless constructor: the default territory, no region. */
  function Default(): (c: LocationCondition)
    ensures c.territory == DefaultTerritoryId
    ensures c.regionOrSubAreaName == None
  {
    FromIds(DefaultTerritoryId)
  }

  /** The constructor from raw ids; the region id is optional. */
  function FromIds(territoryId: nat, regionOrSubAreaNameId: Option<nat> := None): (c: LocationCondition)
    ensures c.territory == territoryId
    ensures c.regionOrSubAreaName == regionOrSubAreaNameId
  {
    LocationCondition(territoryId, regionOrSubAreaNameId)
  }

  /**
   * The condition for the player's current position, given the client's
   * territory and the location manager's sub-area and region: the sub-area
   * is preferred because it is the more specific of the two.
   */
  function Current(territoryType: nat, subAreaName: Option<nat>, regionName: Option<nat>): (c: LocationCondition)
    ensures c.territory == territoryType
    ensures subAreaName.Some? ==> c.regionOrSubAreaName == subAreaName
    ensures subAreaName.None? ==> c.regionOrSubAreaName == regionName
  {
    LocationCondition(territoryType, if subAreaName.Some? then subAreaName else regionName)
  }

  /** The label: the territory's display name, then the region's if there is one. */
  function ValueName(names: Names, c: LocationCondition): string
  {
    match c.regionOrSubAreaName
    case None => names.territoryDisplayName(c.territory)
    case Some(region) => names.territoryDisplayName(c.territory) + ", " + names.placeDisplayName(region)
  }

  /** The short label: the region's display name if there is one, else the territory's. */
  function NarrowName(names: Names, c: LocationCondition): string
  {
    match c.regionOrSubAreaName
    case None => names.territoryDisplayName(c.territory)
    case Some(region) => names.placeDisplayName(region)
  }

  /** The full label always ends with the short one, after the territory's label when a region is set. */
  lemma ValueNameExtendsNarrowName(names: Names, c: LocationCondition)
    ensures c.regionOrSubAreaName.None? ==> ValueName(names, c) == NarrowName(names, c)
    ensures c.regionOrSubAreaName.Some? ==>
      ValueName(names, c) == names.territoryDisplayName(c.territory) + ", " + NarrowName(names, c)
    ensures NarrowName(names, c) ==
      ValueName(names, c)[|ValueName(names, c)| - |NarrowName(names, c)|..]
  {
  }

  /**
   * Does `other` satisfy this condition? Territories are compared by canonical
   * name, not by id; if this condition has no region any region of `other`
   * (or none) will do, otherwise the region names must be equal too.
   */
  function SatisfiedBy(names: Names, self: LocationCondition, other: Condition): (r: bool)
    ensures other.Other? ==> !r
    ensures other.Location? && names.territoryName(self.territory) != names.territoryName(other.location.territory)
      ==> !r
    ensures other.Location? && self.regionOrSubAreaName.None? ==>
      (r <==> names.territoryName(self.territory) == names.territoryName(other.location.territory))
    ensures other.Location? && self.regionOrSubAreaName.Some? && other.location.regionOrSubAreaName.None? ==> !r
    ensures other.Location? && self.regionOrSubAreaName.Some? && other.location.regionOrSubAreaName.Some? ==>
      (r <==> names.territoryName(self.territory) == names.territoryName(other.location.territory) &&
              names.placeName(self.regionOrSubAreaName.value) ==
              names.placeName(other.location.regionOrSubAreaName.value))
  {
    match other
    case Other(_) => false
    case Location(o) =>
      if names.territoryName(self.territory) != names.territoryName(o.territory) then false
      else if self.regionOrSubAreaName.None? then true
      else match o.regionOrSubAreaName
        case None => false
        case Some(otherRegion) => names.placeName(self.regionOrSubAreaName.value) == names.placeName(otherRegion)
  }

  /** Every location condition satisfies itself. */
  lemma SatisfiedByReflexive(names: Names, c: LocationCondition)
    ensures SatisfiedBy(names, c, Location(c))
  {
  }

  /** Satisfaction is transitive: a condition that satisfies `b` satisfies everything `b` is satisfied by. */
  lemma SatisfiedByTransitive(names: Names, a: LocationCondition, b: LocationCondition, c: Condition)
    requires SatisfiedBy(names, a, Location(b))
    requires SatisfiedBy(names, b, c)
    ensures SatisfiedBy(names, a, c)
  {
  }

  /** Only names matter: a condition can be replaced by one whose ids resolve to the same names. */
  lemma SatisfiedByNamesOnly(names: Names, a: LocationCondition, a': LocationCondition, other: Condition)
    requires names.territoryName(a.territory) == names.territoryName(a'.territory)
    requires a.regionOrSubAreaName.Some? <==> a'.regionOrSubAreaName.Some?
    requires a.regionOrSubAreaName.Some? ==>
      names.placeName(a.regionOrSubAreaName.value) == names.placeName(a'.regionOrSubAreaName.value)
    ensures SatisfiedBy(names, a, other) == SatisfiedBy(names, a', other)
  {
  }

  /** Only names matter on the other side too: `other` can be replaced by a condition with the same names. */
  lemma SatisfiedByOtherNamesOnly(names: Names, a: LocationCondition, b: LocationCondition, b': LocationCondition)
    requires names.territoryName(b.territory) == names.territoryName(b'.territory)
    requires b.regionOrSubAreaName.Some? <==> b'.regionOrSubAreaName.Some?
    requires b.regionOrSubAreaName.Some? ==>
      names.placeName(b.regionOrSubAreaName.value) == names.placeName(b'.regionOrSubAreaName.value)
    ensures SatisfiedBy(names, a, Location(b)) == SatisfiedBy(names, a, Location(b'))
  {
  }
}
