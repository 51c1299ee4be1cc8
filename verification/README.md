# Bus lanes and schedule re-anchoring in the Berlin MATSim scenario, in Dafny

This project models the discrete core of the "beelines" preparation and
analysis commands of the Berlin MATSim scenario. The commands work on a
road network, whose links are keyed by id and allow some transport modes,
and on a transit schedule made of stop facilities and of lines whose routes
have stops, a network route and departures. The modelled commands are:

- **ConvertNetworkModes** folds the modes `bus`, `rail`, `ferry` and `tram`
  of every link into the single mode `pt`.
- **AddBusLanes** runs in three steps:
  - it picks the OSM ways tagged as bus lanes;
  - it matches each way onto network links (`mapWayToNetworkLinks`) and
    adds a `pt`-only twin `<id>_bus_<i>` next to every matched car link;
  - it moves every stop facility onto the bus lane of its link and rewires
    every route's link list to the bus lanes.
- **DetachScheduleFile** re-anchors the stop facilities of an original
  schedule onto links of the original network, in two steps:
  - it transfers the bus station links of a prepared network onto the
    car-filtered original network (`transferLink`) and records which bus
    lines stop there (`computeTransferedFacilityMap`);
  - for each facility used by a bus line (`getUsingLines`), it picks the
    candidate link that shares a line with it and points most nearly in
    its current link's direction.
- **CoordToLinkTable** counts how many lines run over each link
  (`getBusUsageMap`) and maps counting-station streets to their nearest
  car link and its opposite link.
- **IdReferenceTables** builds the vehicle-to-line-name table and the
  facility-to-line-names table.

Every entity is an immutable datatype (`transit.dfy`). Java `HashMap`s and
`HashSet`s are visited in some iteration order, and the model fixes that
order as a `seq`. The geometric queries are the fields of a `Geometry`
value and are left uninterpreted:

- the nearest link;
- the opposite link;
- the links within a radius;
- the normalised dot product of two links;
- the angle check of `mapWayToNetworkLinks`.

These queries rest on MATSim, JTS and floating point arithmetic. The
perpendicular-distance check is the exception: it is modelled exactly as
the code computes it, in `link_distance.dfy`, next to the corrected check. Wherever the Java code throws (a `null` dereferenced,
`get(0)` on an empty list, an id already present in the network), the
model returns a `Failure` naming the reason. The contracts state exactly
when each operation fails; for the loop over the bus ways, the lemma
`SynthesizeBusLanesFails` does.

Files:

- `wrappers.dfy`: `Option` and `Result`.
- `strings.dfy`: Java's `contains`, `split` and the decimal rendering of an
  `int`.
- `tables.dfy`: `put`-in-a-loop and grouping into sets.
- `selection.dfy`: the seeded strict-`>` best-candidate loop shared by
  `transferLink` and `call()`.
- `transit.dfy`: the entities and the geometry queries.
- `link_distance.dfy`: the distance check.
- One file per command.

## Model

| member | source | states |
|---|---|---|
| ConvertNetworkModes.ConvertModes | src/main/java/org/matsim/prepare/beelines/ConvertNetworkModes.java:29-39 | a link allowing bus, rail, ferry or tram ends up allowing none of them and allowing `pt`; every other mode is kept as it was; a link allowing none of the four is left alone |
| ConvertNetworkModes.ConvertLink | src/main/java/org/matsim/prepare/beelines/ConvertNetworkModes.java:33-39 | only the allowed modes of the link change |
| ConvertNetworkModes.Convert | src/main/java/org/matsim/prepare/beelines/ConvertNetworkModes.java:28-41 | the network keeps its link ids and every link attribute except the modes; afterwards no link allows bus, rail, ferry or tram; untouched links are unchanged |
| ConvertNetworkModes.ConvertIdempotent | src/main/java/org/matsim/prepare/beelines/ConvertNetworkModes.java:28-41 | running the conversion on its own output changes nothing |
| AddBusLanes.TagMarksBusLane | src/main/java/org/matsim/prepare/beelines/AddBusLanes.java:86-104 | one tag marks a bus lane when its key contains `busway`, `bus:lanes` or `psv:lanes`; or contains `lanes:psv` or `lanes:bus` with a value other than `"0"`; or contains `cycleway` with the value `share_busway` |
| AddBusLanes.ScanTags | src/main/java/org/matsim/prepare/beelines/AddBusLanes.java:85-105 | the tag loop: tags are visited in order and the loop leaves at the first marking tag |
| AddBusLanes.ScanTagsFindsAnyMarkingTag | src/main/java/org/matsim/prepare/beelines/AddBusLanes.java:85-105 | the tag loop, which stops at the first hit, reports a bus way iff some tag marks a bus lane: the key contains `busway`, `bus:lanes` or `psv:lanes`; or it contains `lanes:psv` or `lanes:bus` and the value is not `"0"`; or it contains `cycleway` and the value is `share_busway` |
| AddBusLanes.ScanTagsOrderIndependent | src/main/java/org/matsim/prepare/beelines/AddBusLanes.java:85-105 | the verdict does not depend on the order in which the tag map is iterated |
| AddBusLanes.BusWays | src/main/java/org/matsim/prepare/beelines/AddBusLanes.java:69-106 | the collected bus ways are exactly the ways whose tag loop hits |
| AddBusLanes.AddLink | src/main/java/org/matsim/prepare/beelines/AddBusLanes.java:216-218 | adding to the result set: membership grows by exactly the link, and no link appears twice |
| AddBusLanes.Passes | src/main/java/org/matsim/prepare/beelines/AddBusLanes.java:181-210 | a candidate survives for the segment from start to end iff neither end is farther than 10 by the distance formula as the code writes it and the angle check accepts it |
| AddBusLanes.Visit | src/main/java/org/matsim/prepare/beelines/AddBusLanes.java:175-218 | one ordered pair of nodes: equal nodes are skipped; a missing nearest link throws; otherwise the result gains exactly the links matched by this pair: the candidate if both nodes pass the distance check as the code computes it and the angle check, and then also its opposite link |
| AddBusLanes.Row | src/main/java/org/matsim/prepare/beelines/AddBusLanes.java:174-219 | the inner loop throws iff some pair with the start node has no nearest link, and otherwise adds exactly the links matched by those pairs, under the same two checks |
| AddBusLanes.Sweep | src/main/java/org/matsim/prepare/beelines/AddBusLanes.java:173-220 | the outer loop: the same for every start node, with the distance check as the code computes it; links stay distinct and stay in the network |
| AddBusLanes.MapWayToNetworkLinks | src/main/java/org/matsim/prepare/beelines/AddBusLanes.java:164-222 | throws iff some ordered pair of distinct nodes has no nearest link; otherwise returns, each once, exactly the links matched by some ordered pair of distinct nodes of the way (distance check as the code computes it, angle check), all of them links of the network |
| AddBusLanes.ShortWayMatchesNothing | src/main/java/org/matsim/prepare/beelines/AddBusLanes.java:173-175 | a way with fewer than two nodes has no pair of distinct nodes and maps to no link |
| AddBusLanes.OppositeOfAcceptedIsMatched | src/main/java/org/matsim/prepare/beelines/AddBusLanes.java:216-218 | whenever a candidate is accepted, both it and its opposite link (when there is one) are in the result |
| LinkDistance.AsWrittenAcceptsDistantNode | src/main/java/org/matsim/prepare/beelines/AddBusLanes.java:191-194 | with the denominator as written, a node 12 away from the line of a 10-long link passes the 10-metre check, while the corrected check rejects it |
| LinkDistance.TooFarAsWritten | src/main/java/org/matsim/prepare/beelines/AddBusLanes.java:191-194 | the distance check as the code computes it, squared: the cross-product numerator against 10 times the root of `(x_2-y_1)^2 + (x_2-x_1)^2` |
| LinkDistance.FootDistance | src/main/java/org/matsim/prepare/beelines/AddBusLanes.java:191-192 | the corrected formula, squared, is the squared distance from the node to the foot of its perpendicular on the link's line |
| LinkDistance.TooFarIsPerpendicularDistance | src/main/java/org/matsim/prepare/beelines/AddBusLanes.java:181-195 | the corrected check rejects a node iff its perpendicular distance to the line through a non-degenerate link exceeds 10 |
| LinkDistance.DegenerateLinkRejectsNothing | src/main/java/org/matsim/prepare/beelines/AddBusLanes.java:191-194 | for a zero-length link the numerator is 0, so neither the check as written (0 over `|x_1-y_1|`) nor the corrected one (0/0) rejects a node |
| AddBusLanes.BusLaneIdInjective | src/main/java/org/matsim/prepare/beelines/AddBusLanes.java:122 | the id `<link>_bus_<i>` determines both the link id and the counter |
| AddBusLanes.BusLaneId | src/main/java/org/matsim/prepare/beelines/AddBusLanes.java:122 | the id of a bus lane: the link id, `_bus_`, then the counter in decimal |
| AddBusLanes.DuplicatesAreNeverKeys | src/main/java/org/matsim/prepare/beelines/AddBusLanes.java:118-125 | no bus lane id is itself a key of `normalLane2busLane`, since bus lanes allow only `pt` and keys are car links |
| AddBusLanes.DuplicatesAreDistinct | src/main/java/org/matsim/prepare/beelines/AddBusLanes.java:122-125 | two original links never share a bus lane |
| AddBusLanes.GrowsTransitive | src/main/java/org/matsim/prepare/beelines/AddBusLanes.java:113-128 | growth of the network and of `normalLane2busLane` composes over successive ways |
| AddBusLanes.DuplicateOne | src/main/java/org/matsim/prepare/beelines/AddBusLanes.java:121-126 | adding one bus lane keeps every old link and entry and keeps the network well keyed with every entry pointing to a bus lane copy of a car link |
| AddBusLanes.Eligible | src/main/java/org/matsim/prepare/beelines/AddBusLanes.java:119-120 | a link gets a bus lane iff it has none yet and it allows `car` |
| AddBusLanes.DuplicateForWay | src/main/java/org/matsim/prepare/beelines/AddBusLanes.java:117-127 | the loop over one way's links only adds links, each a bus lane of a new key, and keeps the invariant that every entry maps a car link to its bus lane |
| AddBusLanes.DuplicateForWayFails | src/main/java/org/matsim/prepare/beelines/AddBusLanes.java:117-127 | `addLink` throws iff some eligible link, numbered from the counter in order, gets a bus lane id already taken in the network |
| AddBusLanes.DuplicateForWayNumbers | src/main/java/org/matsim/prepare/beelines/AddBusLanes.java:117-126 | the j-th eligible link of the way gets the bus lane `<id>_bus_<j>`: same nodes, length and freespeed, capacity 1200, one lane, only `pt`, recorded in `normalLane2busLane` |
| AddBusLanes.SynthesizeBusLanes | src/main/java/org/matsim/prepare/beelines/AddBusLanes.java:113-128 | the loop over the bus ways keeps the network well keyed and only grows it by bus lanes of car links |
| AddBusLanes.SynthesizeSplit | src/main/java/org/matsim/prepare/beelines/AddBusLanes.java:113-128 | handling the first `w` ways and then the rest is handling all of them |
| AddBusLanes.SynthesizeBusLanesFails | src/main/java/org/matsim/prepare/beelines/AddBusLanes.java:113-128 | the loop throws iff some way is reached in a state where its matching throws or the id of the bus lane of one of its links to duplicate is already taken |
| AddBusLanes.SynthesisCoversMatchedCarLinks | src/main/java/org/matsim/prepare/beelines/AddBusLanes.java:113-128 | after the loop, every car link matched for a way, in the network as it stood when the way was reached, is a key of the map and its value is a bus lane duplicating it |
| AddBusLanes.SynthesisOnlyAddsBusLanes | src/main/java/org/matsim/prepare/beelines/AddBusLanes.java:108-128 | every old link is unchanged; every new link is the bus lane of an original car link, which maps to it; no bus lane is a key (that two keys never share a bus lane is DuplicatesAreDistinct) |
| AddBusLanes.RebaseFacility | src/main/java/org/matsim/prepare/beelines/AddBusLanes.java:133-135 | a facility on a link with a bus lane moves to that bus lane; any other facility is unchanged; id, coordinate and blocking flag never change |
| AddBusLanes.RebaseFacilities | src/main/java/org/matsim/prepare/beelines/AddBusLanes.java:132-136 | every facility is rebased, in place, and the set of facility ids is unchanged |
| AddBusLanes.RebaseIdempotent | src/main/java/org/matsim/prepare/beelines/AddBusLanes.java:131-136 | rebasing twice is rebasing once |
| AddBusLanes.FacilityOfRebased | src/main/java/org/matsim/prepare/beelines/AddBusLanes.java:132-144 | after rebasing, a stop resolves to the rebased facility, which is what the rerouting reads |
| AddBusLanes.RewireRoute | src/main/java/org/matsim/prepare/beelines/AddBusLanes.java:140-154 | throws iff the route has no stops; otherwise only the network route changes: its start and end links are the links of the first and last stop facility, and each inner link is replaced by its bus lane if it has one, keeping length and order |
| AddBusLanes.Substitute | src/main/java/org/matsim/prepare/beelines/AddBusLanes.java:149 | `getOrDefault`: the bus lane of a link that has one, the link itself otherwise |
| AddBusLanes.RewireRoutes | src/main/java/org/matsim/prepare/beelines/AddBusLanes.java:140-155 | fails iff some route has no stops; otherwise rewires every route in place |
| AddBusLanes.RewireLines | src/main/java/org/matsim/prepare/beelines/AddBusLanes.java:139-155 | fails iff some route of some line has no stops; otherwise each line keeps everything but its routes, which are rewired |
| AddBusLanes.Run | src/main/java/org/matsim/prepare/beelines/AddBusLanes.java:108-155 | the whole command throws iff the synthesis throws or some route has no stops; otherwise it returns the synthesised network, the facilities rebased and the lines rewired against the synthesised map |
| AddBusLanes.RunMovesScheduleOntoBusLanes | src/main/java/org/matsim/prepare/beelines/AddBusLanes.java:108-155 | what the command writes: old links unchanged; every new link is a bus lane of an original car link; every facility keeps all but its link, which is its old link or the new bus lane of that car link; routes keep their stops and the length of their inner link lists |
| DetachScheduleFile.UsingLines | src/main/java/org/matsim/prepare/beelines/DetachScheduleFile.java:261-283 | throws iff some line has no routes, or is a bus line stopping at the facility whose id splits into nothing; otherwise returns the names of exactly the bus lines that stop at the facility |
| DetachScheduleFile.SharesLine | src/main/java/org/matsim/prepare/beelines/DetachScheduleFile.java:107-111 | a candidate is considered only if it is a key of the transferred-facility table and its bus lines meet the lines using the facility |
| DetachScheduleFile.UsingLineNamesArePrefixes | src/main/java/org/matsim/prepare/beelines/DetachScheduleFile.java:273 | each name is the part of a bus line's id before its first `---`, or the whole id |
| DetachScheduleFile.TransferLink | src/main/java/org/matsim/prepare/beelines/DetachScheduleFile.java:204-253 | throws iff the nearest link is missing, or it points the wrong way and both radius searches find nothing; the nearest link is kept when its similarity is positive; otherwise the result is the first link of maximal positive similarity among the radius candidates, or the first candidate when none is positive |
| DetachScheduleFile.FallbackCandidates | src/main/java/org/matsim/prepare/beelines/DetachScheduleFile.java:225-233 | the links within 100 of the link; when there are none, the links within 100 of the nearest link found |
| Selection.SeededArgMaxFrom | src/main/java/org/matsim/prepare/beelines/DetachScheduleFile.java:235-252 | the strict-`>` loop seeded with the first candidate at score 0 picks the earliest eligible candidate of maximal positive score, or the first candidate when none scores above 0 |
| Selection.SeededArgMax | src/main/java/org/matsim/prepare/beelines/DetachScheduleFile.java:95-126 | the same, for the loop of `call()`, whose filter is the shared-line test |
| Selection.SeededArgMaxUnique | src/main/java/org/matsim/prepare/beelines/DetachScheduleFile.java:95-126 | at most one position satisfies that description, so it pins the choice down |
| DetachScheduleFile.BusStationLinkIds | src/main/java/org/matsim/prepare/beelines/DetachScheduleFile.java:169-175 | throws iff some prepared facility's link is missing from the prepared network; otherwise collects exactly the facility links that allow `bus` |
| DetachScheduleFile.TransferAll | src/main/java/org/matsim/prepare/beelines/DetachScheduleFile.java:181-185 | fails iff some bus station link fails to transfer; otherwise pairs each with its transferred link, in order |
| DetachScheduleFile.StopTargets | src/main/java/org/matsim/prepare/beelines/DetachScheduleFile.java:193-197 | throws iff some stop's link has no transferred counterpart; otherwise yields the transferred links of the stops |
| DetachScheduleFile.NamePairs | src/main/java/org/matsim/prepare/beelines/DetachScheduleFile.java:187-199 | lines without routes and non-bus lines are skipped; fails iff some bus line has an id that splits into nothing or a stop whose link was not transferred; otherwise pairs exactly the transferred links of each bus line's stops with its name |
| DetachScheduleFile.LineName | src/main/java/org/matsim/prepare/beelines/DetachScheduleFile.java:191 | the line name is the last piece of the line id split at `:`, absent when there is none |
| DetachScheduleFile.TransferedFacilityMap | src/main/java/org/matsim/prepare/beelines/DetachScheduleFile.java:163-202 | fails iff a facility link is unknown, a bus station link fails to transfer, or a bus line has an unusable id or a stop on a non-bus-station link; otherwise the keys are exactly the transferred bus station links and a name is in a key's set iff a bus line of that name stops on a bus station link transferring to it |
| DetachScheduleFile.TransferFailures | src/main/java/org/matsim/prepare/beelines/DetachScheduleFile.java:181-185 | the transfer loop fails iff some bus station link that carries a facility fails to transfer |
| DetachScheduleFile.P2OKeys | src/main/java/org/matsim/prepare/beelines/DetachScheduleFile.java:179-185 | `preparedLink2OriginalLink` is keyed by exactly the bus station links that carry a facility |
| DetachScheduleFile.P2OValues | src/main/java/org/matsim/prepare/beelines/DetachScheduleFile.java:182-184 | ... and maps each to its transferred link |
| DetachScheduleFile.TableFacts | src/main/java/org/matsim/prepare/beelines/DetachScheduleFile.java:183-196 | the table's keys are the transferred links, and each set holds exactly the names paired with its key |
| DetachScheduleFile.Candidates | src/main/java/org/matsim/prepare/beelines/DetachScheduleFile.java:83-87 | the candidate list is never empty: the table links in the 100-metre radius if any, else the nearest filtered link, whose absence throws |
| DetachScheduleFile.DetachFacility | src/main/java/org/matsim/prepare/beelines/DetachScheduleFile.java:75-131 | a facility no bus line uses is left alone; otherwise failure iff `getUsingLines` throws, its current link is unknown, or it has no candidate; the replacement keeps the id, coordinate and blocking flag, and its link is the seeded best candidate among those sharing a line with it |
| DetachScheduleFile.DetachAll | src/main/java/org/matsim/prepare/beelines/DetachScheduleFile.java:73-132 | fails iff some facility fails; otherwise each facility is replaced in place |
| DetachScheduleFile.Run | src/main/java/org/matsim/prepare/beelines/DetachScheduleFile.java:69-134 | throws iff building the transferred-facility table throws or some facility fails; otherwise every facility is replaced in place by its `DetachFacility` result over that table, the lines are unchanged, and facilities no bus line uses are unchanged |
| CoordToLinkTable.RoutesLinks | src/main/java/org/matsim/analysis/beelines/CoordToLinkTable.java:112-113 | the links a line runs over are exactly the inner links of its routes |
| CoordToLinkTable.AddLine | src/main/java/org/matsim/analysis/beelines/CoordToLinkTable.java:110-119 | one line adds its links to the map |
| CoordToLinkTable.BusUsageMap | src/main/java/org/matsim/analysis/beelines/CoordToLinkTable.java:106-123 | the method computes the usage map of the lines |
| CoordToLinkTable.CountLine | src/main/java/org/matsim/analysis/beelines/CoordToLinkTable.java:110-120 | one line counts each of its links once, however many routes use it |
| CoordToLinkTable.CountRoute | src/main/java/org/matsim/analysis/beelines/CoordToLinkTable.java:113-119 | the loop over one route's links counts exactly the links not yet checked for this line |
| CoordToLinkTable.UsageKeys | src/main/java/org/matsim/analysis/beelines/CoordToLinkTable.java:106-123 | a link has an entry iff some line runs over it |
| CoordToLinkTable.UsageCountsLines | src/main/java/org/matsim/analysis/beelines/CoordToLinkTable.java:106-123 | a link's count is the number of lines running over it, between 1 and the number of lines |
| CoordToLinkTable.StreetEntry | src/main/java/org/matsim/analysis/beelines/CoordToLinkTable.java:77-83 | throws iff the nearest car link is missing; otherwise the entry holds it and its opposite link, if any |
| CoordToLinkTable.StreetPairs | src/main/java/org/matsim/analysis/beelines/CoordToLinkTable.java:71-84 | fails iff some station has no nearest car link; otherwise one entry per record, in order |
| CoordToLinkTable.StreetTable | src/main/java/org/matsim/analysis/beelines/CoordToLinkTable.java:70-84 | fails iff some station has no nearest car link; otherwise the keys are exactly the street names |
| CoordToLinkTable.StreetTableLastWins | src/main/java/org/matsim/analysis/beelines/CoordToLinkTable.java:80-82 | a street's entry is the one of the last record on that street |
| IdReferenceTables.RouteVehicles | src/main/java/org/matsim/analysis/beelines/IdReferenceTables.java:39-42 | the vehicles of the departures of the routes |
| IdReferenceTables.VehiclePairsMembers | src/main/java/org/matsim/analysis/beelines/IdReferenceTables.java:36-42 | a vehicle is paired with a name iff a line of that name has a departure using it |
| IdReferenceTables.VehicleTableKeys | src/main/java/org/matsim/analysis/beelines/IdReferenceTables.java:34-42 | a vehicle has an entry iff some departure uses it |
| IdReferenceTables.VehicleTableLastLine | src/main/java/org/matsim/analysis/beelines/IdReferenceTables.java:36-42 | a vehicle's entry is the name of the last line using it |
| IdReferenceTables.VehicleTable | src/main/java/org/matsim/analysis/beelines/IdReferenceTables.java:34-42 | `vehicleId2lineName`: `put(vehicle, name)` for every departure of every route of every line, in iteration order |
| IdReferenceTables.FacilityPairs | src/main/java/org/matsim/analysis/beelines/IdReferenceTables.java:43-46 | a facility is paired with a name iff a line of that name stops at it |
| IdReferenceTables.FacilityTable | src/main/java/org/matsim/analysis/beelines/IdReferenceTables.java:35-47 | `facilityId2lineName`: for every stop of every route of every line, `putIfAbsent` then `add` of the line name |
| IdReferenceTables.FacilityTableKeys | src/main/java/org/matsim/analysis/beelines/IdReferenceTables.java:35-48 | a facility has an entry iff some line stops at it |
| IdReferenceTables.FacilityTableIsStoppingLines | src/main/java/org/matsim/analysis/beelines/IdReferenceTables.java:35-48 | a stopped-at facility's set holds exactly the names of the lines stopping there and is never empty |
| Tables.PutAllLastWins | src/main/java/org/matsim/analysis/beelines/CoordToLinkTable.java:80-82 | `put` in a loop: a key ends with the value of its last pair |
| Tables.PutAll | src/main/java/org/matsim/analysis/beelines/CoordToLinkTable.java:80-82 | `put` in a loop: the keys afterwards are the keys before plus every key of a pair |
| Tables.AddAll | src/main/java/org/matsim/analysis/beelines/IdReferenceTables.java:44-45 | `putIfAbsent` then `add` in a loop: a key's set is the set of values paired with it |
| Strings.JavaSplit | src/main/java/org/matsim/prepare/beelines/DetachScheduleFile.java:191 | Java's `String.split` with a literal separator: no occurrence gives the whole string; otherwise the pieces between occurrences, with trailing empty pieces removed |
| Strings.SplitFirst | src/main/java/org/matsim/prepare/beelines/DetachScheduleFile.java:273 | `split(sep)[0]`: the first piece, absent (Java throws) only when every piece is empty |
| Strings.SplitLast | src/main/java/org/matsim/prepare/beelines/DetachScheduleFile.java:191 | `split(sep)[length-1]`: the last piece, absent (Java throws) only when every piece is empty |
| Strings.SplitFirstIsTextBeforeFirstSeparator | src/main/java/org/matsim/prepare/beelines/DetachScheduleFile.java:273 | `split(sep)[0]` is the text before the first separator, or the whole id; it exists whenever the id does not start with the separator (it may also exist when it does) |
| Strings.SplitLastIsTextAfterLastSeparator | src/main/java/org/matsim/prepare/beelines/DetachScheduleFile.java:191 | `split(sep)[length-1]` is the separator-free text after the last separator when the id does not end with it |
| Strings.NatToStringInjective | src/main/java/org/matsim/prepare/beelines/AddBusLanes.java:122 | different counters render as different decimal strings |
| Strings.NatToString | src/main/java/org/matsim/prepare/beelines/AddBusLanes.java:122 | the decimal rendering of the counter: non-empty, digits only, a single digit exactly below 10 |
| Transit.NearestLink | src/main/java/org/matsim/prepare/beelines/AddBusLanes.java:177 | `getNearestLinkExactly`: succeeds iff the nearest-link query names a link of the network, and then returns that link |
| Transit.OppositeLink | src/main/java/org/matsim/prepare/beelines/AddBusLanes.java:217 | `findLinkInOppositeDirection`: the opposite link when the query names a link of the network, absent (Java `null`) otherwise |

## Left out

- File I/O, command-line options, console output, the CSV writers, and `writeNetwork`/`TransitScheduleWriter`: the model goes from the parsed inputs to the values that would be written.
- Coordinate transformations: WGS84 to the scenario's CRS for OSM nodes and counting stations. `mapWayToNetworkLinks` re-projects the way's nodes in place on every call, so a node shared by two ways is transformed twice, and so is the first node of a closed way, which the way lists again as its last node, within a single call. The model takes coordinates as already projected and does not model that double transformation.
- The angle check of `mapWayToNetworkLinks` (`Math.acos`, degrees, threshold 5): it is the uninterpreted `aligned` query.
- The nearest-link, opposite-link, radius-search and dot-product queries: they are uninterpreted. In particular, the model does not require the radius search to return links of the collection it searched.
- SynthesizeBusLanes: both loops run in an order the program does not use. The ways are handled in input order, whereas the program iterates the `HashSet` `busWays` in hash order; the links of a way are duplicated in the insertion order of the model's pair sweep, whereas the program iterates that `HashSet` in hash order too. The order of the ways decides which grown network each way is matched against and which way claims a shared link first; the order of the links decides which link gets which `_bus_<i>` and whether an id collides (for instance when the command runs on its own output). The growth and coverage lemmas hold for any order of the links, and `SynthesizeBusLanesFails` and `SynthesisCoversMatchedCarLinks` for whatever order the ways are given in.
- SynthesizeBusLanes: its own contract states only the growth invariant. Which links get bus lanes is stated by `SynthesisCoversMatchedCarLinks`, and when it throws by `SynthesizeBusLanesFails`.
- DetachFacility: the program builds the replacement facility from the id, coordinate and blocking flag alone, so the written facility loses its name, stop-area id and attributes. The `Facility` record has none of these fields, so the model does not show that loss.
- Floating point: reals stand for doubles. A NaN similarity (from a zero-length link) fails every `>` the code makes, just as a score of 0 does.
- `filterCityStreets`: it removes motorway links from the original network as a side effect and builds the car sub-network. Both networks are inputs of `DetachScheduleFile.Run`, in the state the filter leaves them.
- `TransitScheduleUtils.createQuadTreeOfTransitStopFacilities`, called in the first loop of `computeTransferedFacilityMap`: its result is discarded.
- `preparedLink2OriginalLink` is keyed by the prepared link's id rather than by the link object. Link objects of one network are identified by their ids, so this is equivalent.
- `getUsingLines` compares stop facilities by identity; the model compares facility ids, which identify facilities within a schedule.
- The order of facilities after `removeStopFacility`/`addStopFacility`: the model keeps each replacement at its original position.
- Routes whose network route is `null`, `null` line names or vehicle ids, and stop facilities whose link id is `null` (for which `DetachScheduleFile` throws in `call()` and in `computeTransferedFacilityMap`): every route has a network route, every name is a string and every facility has a link id.
- The analysis commands (bus delay, congestion, modal share, travel times), `NetworkCarFilter` and `RunWithMappedTransit`: they are not part of this model.
- `linkId2busUsages.get(...)` while writing the street table: an absent link prints `null`, which only affects the CSV text.
- The counters and warnings `AddBusLanes` prints (`noLinkFoundWarning`, "Found n links"): output only.

## Findings

| source | as written | input that shows it | evidently intended | confidence | as-written member | corrected member |
|---|---|---|---|---|---|---|
| src/main/java/org/matsim/prepare/beelines/AddBusLanes.java:191-192 | the denominator of the point-to-line distance is `sqrt((x_2-y_1)^2 + (x_2-x_1)^2)`, mixing an x and a y coordinate | link from (0,0) to (10,0), way node at (5,12): the node is 12 from the line, but the formula divides 120 by the square root of 200, about 8.5, so the candidate passes the 10-metre check; with projected Berlin coordinates, x_2-y_1 is in the millions and the check practically never rejects | `sqrt((y_2-y_1)^2 + (x_2-x_1)^2)`, the link's length, so the check compares the true perpendicular distance with 10 | high; not executed | LinkDistance.AsWrittenAcceptsDistantNode | LinkDistance.TooFarIsPerpendicularDistance |

The matching itself (`AddBusLanes.Passes`) uses the check as written, so the
modelled commands add the bus lanes the program adds; the corrected check is
stated and proved on its own.
