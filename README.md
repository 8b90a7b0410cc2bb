# MacroMate location conditions in Dafny

A model of the location condition of MacroMate, a game-client plugin that runs
macros when in-game conditions hold. A location condition names a territory
(a `TerritoryType` row, such as "Limsa Lominsa Lower Decks") and, optionally, a
region or sub-area inside it (a `PlaceName` row, such as "The Octant"). The
model covers:

- the record, its constructors (default, from ids, from the player's current
  position) and its two labels (`ValueName`, `NarrowName`);
- the match test `SatisfiedBy`: territories are compared by resolved canonical
  name, not by id; a territory-only condition accepts any region; a
  condition with a region also needs the region names to be equal;
  a non-location condition never satisfies it;
- the factory's `TopLevel` enumeration (one territory-only condition per
  distinct non-zero place-name id of the territory sheet, the first row of each)
  and its `Narrow` step (the place names of the map markers of the territory's
  maps, the first marker of each place-name id, each as a copy of the condition with
  the region set). Narrowing is a two-step refinement:
  territory-only, then territory and region, then nothing.

The host's data is a parameter. `Sheets.GameData` holds the `TerritoryType`,
`Map` and `MapMarker` sheets as sequences of records; the subrow sheet
`MapMarker` is a sequence of rows of subrows, which `Narrow` flattens as
`SelectMany` does. `Sheets.Names` holds the four name lookups of `ExcelId`
(`Name()` and `DisplayName()` for territories and places) as functions from
id to string, about which nothing is assumed. The LINQ operators used
(`Where`, `Select`, `SelectMany`, `ToHashSet`, `DistinctBy`) are in module
`Linq`; `DistinctBy` runs like the enumerator, walking the sequence with a set
of seen keys, and is proved equal to an independent reference definition:
the elements at first-occurrence positions, in order.

The code compares names when matching (line 53), but it narrows by raw territory
id (line 97) and de-duplicates regions and top-level territories by place-name
id (lines 79 and 107), not by resolved name. The model does what the code does.
`NarrowDistinctByIdNotName` shows the consequence: two place ids with one
name give two narrowings, and each satisfies the other.

Files: `wrappers.dfy` (Option), `linq.dfy` (sequence operators),
`sheets.dfy` (game data and names), `location_condition.dfy` (the record
and `SatisfiedBy`), `condition_factory.dfy` (`TopLevel`, `Narrow`, and
worked examples).

## Model

| member | source | states |
|---|---|---|
| Linq.WhereMembers | MacroMate/Conditions/LocationCondition.cs:104-106 | an element is kept by the filter iff it is in the input and passes the predicate |
| Linq.Select | MacroMate/Conditions/LocationCondition.cs:108-110 | same length as the input, each output the projection of the input at that position |
| Linq.FlattenMembers | MacroMate/Conditions/LocationCondition.cs:102-103 | an element is in the flattened marker sheet iff it is in one of its rows |
| Linq.DistinctByIsFirstOccurrences | MacroMate/Conditions/LocationCondition.cs:107 | the seen-set walk of `DistinctBy` equals the reference: the elements at first-occurrence positions, in order |
| Linq.DistinctBySpec | MacroMate/Conditions/LocationCondition.cs:107 | output elements come from the input, keys are pairwise distinct, every input key is represented, each output is the first input element with its key, and outputs are in first-occurrence order |
| Locations.Default | MacroMate/Conditions/LocationCondition.cs:25-26 | the default condition is territory 128 with no region |
| Locations.FromIds | MacroMate/Conditions/LocationCondition.cs:28-34 | the id constructor keeps the territory id and the optional region id as given, the region absent by default |
| Locations.Current | MacroMate/Conditions/LocationCondition.cs:36-42 | the current-position condition takes the client's territory, and the sub-area when there is one, otherwise the region (possibly none) |
| Locations.ValueNameExtendsNarrowName | MacroMate/Conditions/LocationCondition.cs:14-23 | without a region both labels are the territory's display name; with one, the full label is the territory's display name, ", ", then the short label, which is the region's display name |
| Locations.SatisfiedBy | MacroMate/Conditions/LocationCondition.cs:45-63 | false for a non-location condition; false when territory names differ; for a territory-only condition, true iff territory names are equal, whatever the other's region; false if the other has no region but this one does; with both regions, true iff both territory names and region names are equal |
| Locations.SatisfiedByReflexive | MacroMate/Conditions/LocationCondition.cs:53-62 | every location condition satisfies itself |
| Locations.SatisfiedByTransitive | MacroMate/Conditions/LocationCondition.cs:45-63 | if a condition is satisfied by b and b is satisfied by c, the condition is satisfied by c |
| Locations.SatisfiedByNamesOnly | MacroMate/Conditions/LocationCondition.cs:49-61 | two conditions whose ids resolve to the same names (and which agree on having a region) accept the same conditions |
| Locations.SatisfiedByOtherNamesOnly | MacroMate/Conditions/LocationCondition.cs:49-61 | two candidate conditions whose ids resolve to the same names (and which agree on having a region) are accepted by the same conditions |
| LocationFactory.TopLevel | MacroMate/Conditions/LocationCondition.cs:76-83 | every enumerated condition is territory-only |
| LocationFactory.TopLevelSpec | MacroMate/Conditions/LocationCondition.cs:76-83 | the enumeration is one territory-only condition per chosen row; chosen rows come from the sheet with a non-zero place-name id, have pairwise distinct place-name ids, each is the first named row with its id, they come in the sheet order of those first rows, and every non-zero place-name id of the sheet is represented |
| LocationFactory.MarkerRangesSpec | MacroMate/Conditions/LocationCondition.cs:96-98 | a range is in the set iff some map whose territory id is the condition's has that marker range |
| LocationFactory.QualifyingMarkerNamesPlace | MacroMate/Conditions/LocationCondition.cs:102-106 | a marker that passes the filter names a non-zero place and lies on a map whose territory id is the condition's |
| LocationFactory.QualifyingMarkersSpec | MacroMate/Conditions/LocationCondition.cs:102-106 | a place-name id occurs among the qualifying markers iff it is non-zero and a marker of one of the territory's maps names it |
| LocationFactory.Narrow | MacroMate/Conditions/LocationCondition.cs:85-91 | a non-location condition and a condition with its region already set narrow to nothing |
| LocationFactory.NarrowMemberSound | MacroMate/Conditions/LocationCondition.cs:96-110 | every narrowing keeps the territory and sets a non-zero region id named by a marker whose row id is the marker range of a map of that territory id |
| LocationFactory.NarrowMemberComplete | MacroMate/Conditions/LocationCondition.cs:96-110 | every non-zero place-name id of a qualifying marker has its narrowing |
| LocationFactory.NarrowMembers | MacroMate/Conditions/LocationCondition.cs:96-110 | a condition is a narrowing of a territory-only condition iff it has the same territory and a region that is a non-zero place-name id named on one of the territory's maps |
| LocationFactory.NarrowDistinctInFirstOccurrenceOrder | MacroMate/Conditions/LocationCondition.cs:102-110 | narrowings have pairwise distinct regions and come in the order in which their place-name ids first occur among the qualifying markers |
| LocationFactory.NarrowTerminal | MacroMate/Conditions/LocationCondition.cs:85-91 | only territory-only location conditions have narrowings; every narrowing has a region and narrows to nothing |
| LocationFactory.NarrowRefines | MacroMate/Conditions/LocationCondition.cs:108-109 | the original condition is satisfied by each of its narrowings, and by every condition that satisfies a narrowing |
| LocationFactory.NarrowExtendsValueName | MacroMate/Conditions/LocationCondition.cs:14-23 | a narrowing's short label is its region's display name and its full label is the original's label, ", ", then that name |
| LocationFactory.LowerDecksNarrowExample | MacroMate/Conditions/LocationCondition.cs:85-111 | on a small table Lower Decks narrows to exactly its two places, in marker order, skipping a repeated place, an unnamed marker and another territory's marker |
| LocationFactory.LowerDecksTopLevelExample | MacroMate/Conditions/LocationCondition.cs:76-83 | on the same table the enumeration skips the unnamed territory and keeps only the first of two territories with one place-name id |
| LocationFactory.NarrowDistinctByIdNotName | MacroMate/Conditions/LocationCondition.cs:107 | place ids 51 and 52 resolving to one name still give two narrowings, and each satisfies the other |

## Left out

- Host plugin lifecycle (`MacroMate/Plugin.cs`, `Env.Initialize` and `Env.Dispose`): no logic to model.
- Locations.Current: the client state it reads (`Env.ClientState`, `Env.PlayerLocationManager`) is passed in as parameters; only the sub-area-over-region choice is modelled.
- `ExcelId`, `Env.DataManager` and the Lumina sheet types are not part of this model. Name resolution is a set of arbitrary functions from ids to strings, and the sheets are input sequences.
- Locations.ValueName: `DisplayName()` is modelled as always giving a string. The `String.Join` over `WithoutNull` drops a null label, and `NarrowName`'s `??` falls back to the territory when the region's label is null; neither null case is modelled, because the nullability of `DisplayName()` is not defined in the code shown.
- The factory's label strings (`ConditionName`, `ExpressionName`), the `FromConditions` field projection and the `Factory`/`FactoryRef` plumbing: constant strings and field access with no logic.
- Row ids are `uint` in the source and unbounded naturals here. The code does no arithmetic on them. The `(uint)` cast of `MapMarkerRange` at line 98 is assumed to be value-preserving, that is, the Lumina column is taken to be unsigned and no wider than 32 bits; its declared type is not part of this model.
- `IEnumerable` laziness and `IValueCondition` typing: results are finite sequences of location conditions, produced eagerly.
