/** The A* state container as a mutable object, like the Java class: two maps held in
    fields and changed in place. Each method delegates to the value-level operation in
    StateModel and states its effect on the fields, including what it leaves alone. */
module StateObject {
  import opened Waypoints
  import StateModel

  class AStarState {
    var open: map<Location, Waypoint>
    var closed: map<Location, Waypoint>

    /** The current contents as a value. */
    function Snapshot(): (s: StateModel.State)
      reads this
    {
      StateModel.State(open, closed)
    }

    /** A fresh container: nothing open, nothing closed. */
    constructor ()
      ensures open == map[] && closed == map[]
    {
      open := map[];
      closed := map[];
    }

    /** The cheapest open waypoint, visiting the open keys in `order`; reads only. */
    method GetMinOpenWaypoint(order: seq<Location>) returns (r: Option<Waypoint>)
      requires StateModel.EnumeratesKeys(order, open)
      ensures r.None? <==> forall l :: l in open ==> open[l].TotalCost() >= DoubleMaxValue
      ensures (forall l :: l in open ==> open[l].TotalCost() < DoubleMaxValue) ==>
                (r.None? <==> |open| == 0)
      ensures r.Some? ==> r.value in open.Values
      ensures r.Some? ==> forall l :: l in open ==> r.value.TotalCost() <= open[l].TotalCost()
    {
      r := StateModel.GetMinOpenWaypoint(Snapshot(), order);
    }

    /** Offers `w` to the open set; the closed set is untouched. */
    method AddOpenWaypoint(w: Waypoint) returns (added: bool)
      modifies this
      ensures closed == old(closed)
      ensures added <==> w.location !in old(open) || w.previousCost < old(open)[w.location].previousCost
      ensures open == if added then old(open)[w.location := w] else old(open)
    {
      var outcome := StateModel.AddOpenWaypoint(Snapshot(), w);
      open := outcome.state.open;
      added := outcome.added;
    }

    /** The number of open waypoints. */
    method NumOpenWaypoints() returns (n: int)
      ensures n == |open|
    {
      n := StateModel.NumOpenWaypoints(Snapshot());
    }

    /** Moves the waypoint at `loc` from open to closed; no effect when `loc` is not open. */
    method CloseWaypoint(loc: Location)
      modifies this
      ensures loc !in open
      ensures loc in old(open) ==> closed == old(closed)[loc := old(open)[loc]]
      ensures loc in old(open) ==> open == old(open) - {loc}
      ensures loc !in old(open) ==> open == old(open) && closed == old(closed)
    {
      var next := StateModel.CloseWaypoint(Snapshot(), loc);
      open, closed := next.open, next.closed;
    }

    /** Whether `loc` has been processed; reads only. */
    method IsLocationClosed(loc: Location) returns (b: bool)
      ensures b <==> loc in closed
    {
      b := StateModel.IsLocationClosed(Snapshot(), loc);
    }
  }
}
