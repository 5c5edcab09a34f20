# A* search state container, in Dafny

This project models `AStarState`, the bookkeeping container behind an A* path search
over a 2-D map. It holds two maps keyed by location:

- `open` holds waypoints that have been discovered but not yet processed;
- `closed` holds waypoints that have been processed.

It offers five operations:

- a linear scan for the open waypoint with the lowest total cost;
- a conditional insert that keeps the cheaper cost-so-far per location;
- a count of open waypoints;
- a move of one waypoint from open to closed;
- a closed-membership test.

Files:

- `waypoints.dfy` (module `Waypoints`) defines the value types. `Location` is an abstract
  type with equality: the container only uses locations as map keys. `Waypoint` has a
  location, a cost-so-far (`previousCost`) and an estimate to the goal
  (`heuristicCost`); its `TotalCost()` is their sum. The file also holds `Option` and `DoubleMaxValue`. That constant is Java's
  `Double.MAX_VALUE` (2^1024 − 2^971) written out exactly, and it seeds the minimum scan.
- `state_model.dfy` (module `StateModel`) is the container as a value. `State` has
  `open` and `closed` maps. Every operation is a pure function from the old state to the
  new one, except the minimum scan, which is a method with a loop. The module also states
  the invariants: `Disjoint` (no location both open and closed) and `KeyedByLocation`
  (every key equals its waypoint's location).
- `state_properties.dfy` (module `StateProperties`) holds the properties that relate
  several calls. These cover cost monotonicity under any sequence of inserts, invariant
  preservation, idempotent closing, counts, and runs of inserts and closes under the
  caller's discipline of never offering a closed location.
- `state_object.dfy` (module `StateObject`) is the class `AStarState` with two mutable
  map fields, mirroring the Java object. Each method delegates to the value-level
  operation and states its effect with `old(...)` and framing clauses.

A hash map's iteration order is outside the container's control, so the minimum scan
takes it as a parameter `order`: any sequence listing each open key exactly once. The scan
keeps a candidate only when it is strictly cheaper than the best so far. The contract
therefore says the result is minimal, and that it is the first minimal waypoint in that
order.

The source seeds the scan with `Double.MAX_VALUE` (AStarState.java:51) and replaces the
best only on a strictly lower cost. So it returns null both when `open` is empty, the one
case its doc comment names (AStarState.java:41), and when every open waypoint's total cost
is at least that value. The model keeps this behaviour: `GetMinOpenWaypoint` returns `None`
exactly when no open cost is below the sentinel. Its contract also states that, when every
cost is below the sentinel, `None` comes back exactly when `open` is empty.

The constructor rejects a null map by throwing `NullPointerException` (AStarState.java:26).
The model leaves that check out (see below).

## Model

| member | source | states |
|---|---|---|
| StateModel.Init | zinovev_lab_3/AStarState.java:14-29 | a new container has no open and no closed waypoints and satisfies the disjointness and key/location invariants |
| StateModel.GetMinOpenWaypoint | zinovev_lab_3/AStarState.java:42-67 | for any iteration order over the open keys: no result exactly when no open total cost is below Double.MAX_VALUE, which, when every cost is below it, is exactly when the open count is zero; otherwise the result is a waypoint stored in open, its total cost is at most every open waypoint's total cost, and every waypoint visited before it costs strictly more (first minimum wins) |
| StateModel.NumOpenWaypoints | zinovev_lab_3/AStarState.java:99-102 | the count is the number of distinct open locations, and it is zero exactly when no location is open |
| StateModel.IsLocationClosed | zinovev_lab_3/AStarState.java:120-123 | true exactly when the location is a key of closed; in a state where no location is both open and closed, a location that tests closed is not open |
| StateModel.AddOpenWaypoint | zinovev_lab_3/AStarState.java:77-95 | a new location is always stored and reported true; an open location is replaced, and true reported, exactly when the candidate's previous cost is strictly lower; a false report leaves the whole state unchanged; closed is never touched |
| StateModel.CloseWaypoint | zinovev_lab_3/AStarState.java:108-114 | afterwards loc is not open; if loc was open its waypoint is now the closed entry for loc; every other key of both maps keeps its presence and its waypoint; if loc was not open nothing changes |
| StateProperties.AddNeverRaisesCost | zinovev_lab_3/AStarState.java:79-93 | an insert never removes an open location nor raises its stored previous cost, and leaves the candidate's location open with a stored cost no higher than the candidate's |
| StateProperties.NumOpenAfterAdd | zinovev_lab_3/AStarState.java:79-102 | the open count grows by one when the offered location was not open and is unchanged otherwise |
| StateProperties.AddKeepsValid | zinovev_lab_3/AStarState.java:79-83 | an insert keeps disjointness and key/location agreement provided the candidate's location is not closed |
| StateProperties.AddCanReopenClosed | zinovev_lab_3/AStarState.java:79-83 | for every state and candidate whose location is closed, the insert leaves that location both open and closed, because the insert never consults closed |
| StateProperties.AddAllKeepsCheapest | zinovev_lab_3/AStarState.java:77-95 | after any sequence of insert attempts each open location holds a waypoint it held before or was offered, whose previous cost is at most every cost offered or held for it; closed is unchanged |
| StateProperties.CloseKeepsValid | zinovev_lab_3/AStarState.java:108-114 | closing keeps disjointness and key/location agreement |
| StateProperties.CloseIdempotent | zinovev_lab_3/AStarState.java:108-114 | closing the same location twice equals closing it once |
| StateProperties.ClosedAfterClose | zinovev_lab_3/AStarState.java:108-123 | after closing loc, a location tests as closed exactly when it was closed before, or it is loc and loc was open |
| StateProperties.NumOpenAfterClose | zinovev_lab_3/AStarState.java:99-114 | in every state, closing an open location lowers the open count by one, and closing any other location leaves it unchanged |
| StateProperties.ClosedCountAfterClose | zinovev_lab_3/AStarState.java:108-114 | on a state where no location is both open and closed, closing an open location raises the closed count by one, so the total of both counts is preserved; closing any other location changes neither count |
| StateProperties.RunKeepsValid | zinovev_lab_3/AStarState.java:77-114 | any sequence of inserts and closes that never offers a closed location keeps both invariants, and every closed location stays closed with the same waypoint |
| StateObject.AStarState.constructor | zinovev_lab_3/AStarState.java:14-29 | a new object starts with empty open and closed maps |
| StateObject.AStarState.GetMinOpenWaypoint | zinovev_lab_3/AStarState.java:42-67 | the object-level scan reads only: it returns a minimal open waypoint, or none exactly when no open cost is below the sentinel, which, when every cost is below it, is exactly when open is empty |
| StateObject.AStarState.AddOpenWaypoint | zinovev_lab_3/AStarState.java:77-95 | the object-level insert changes only `open`, to the old map updated at the candidate's location when it reports true, and to the old map otherwise |
| StateObject.AStarState.NumOpenWaypoints | zinovev_lab_3/AStarState.java:99-102 | the count equals the number of open keys |
| StateObject.AStarState.CloseWaypoint | zinovev_lab_3/AStarState.java:108-114 | the object-level move removes loc from `open` and records its old waypoint in `closed`, or changes nothing when loc was not open |
| StateObject.AStarState.IsLocationClosed | zinovev_lab_3/AStarState.java:120-123 | the object-level test reads only and answers whether loc is a key of `closed` |

## Left out

- `getMap()` and the `Map2D` field: the map the search navigates is not part of this model. The container only stores it and hands it back.
- The constructor's null-map check, which throws `NullPointerException`: Dafny has no null argument here, so the model omits the check.
- Floating-point semantics of the `double` costs are not modelled: costs are exact reals. NaN, infinities and rounding in the sum `previousCost + heuristicCost` are therefore absent. The exact value of `Double.MAX_VALUE` is kept as the scan's starting bound.
- Null waypoints and null locations are not modelled: `Waypoint` and `Location` are plain values here. The source's null paths are therefore dropped. `addOpenWaypoint(null)` throws `NullPointerException` when it reads the location (AStarState.java:79). `closeWaypoint(null)` is a no-op and `isLocationClosed(null)` returns false, because a `HashMap` accepts null keys.
- `Waypoint` and `Location` are not part of this model beyond what the container uses. The waypoint's predecessor link is omitted because the container never reads it. Location hashing is reduced to value equality.
- Hash map iteration order is a parameter of the minimum scan, not a computed order.
- The search loop is not part of this model: neighbour expansion, the goal test and path reconstruction are out. The only trace of it is the discipline assumed by `RunKeepsValid`, that the loop never offers a closed location.
