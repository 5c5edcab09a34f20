/** The bookkeeping state of an A* search as a value: the open waypoints (discovered,
    not yet processed) and the closed waypoints (processed), each keyed by location.
    Every operation of the Java class is a function from the old state to the new one,
    except the minimum scan, which is a method with a loop. */
module StateModel {
  import opened Waypoints

  datatype State = State(open: map<Location, Waypoint>, closed: map<Location, Waypoint>)

  /** Result of an insert attempt: the new state and whether the candidate was stored. */
  datatype AddOutcome = AddOutcome(state: State, added: bool)

  /** Each key names the location of the waypoint stored under it. */
  ghost predicate KeyedByLocation(m: map<Location, Waypoint>)
  {
    forall l :: l in m ==> m[l].location == l
  }

  /** No location is both open and closed. */
  ghost predicate Disjoint(s: State)
  {
    forall l :: l in s.open ==> l !in s.closed
  }

  /** The invariants the container keeps while its caller never reopens a closed location. */
  ghost predicate Valid(s: State)
  {
    && Disjoint(s)
    && KeyedByLocation(s.open)
    && KeyedByLocation(s.closed)
  }

  /** The state a new container starts in: nothing discovered, nothing processed. */
  function Init(): (s: State)
    ensures Valid(s)
    ensures |s.open| == 0 && |s.closed| == 0
  {
    State(map[], map[])
  }

  /** Number of open waypoints; the search loop reads 0 as "goal unreachable". */
  function NumOpenWaypoints(s: State): (n: nat)
    ensures n == |s.open.Keys|
    ensures n == 0 <==> forall l :: l !in s.open
  {
    |s.open|
  }

  /** Whether the location has already been processed. In a partitioned state a closed
      location is never open. */
  function IsLocationClosed(s: State, loc: Location): (b: bool)
    ensures b <==> loc in s.closed.Keys
    ensures b && Disjoint(s) ==> loc !in s.open
  {
    loc in s.closed
  }

  /** Offers a waypoint to the open set: it is stored when its location is not open yet,
      or when it reaches that location more cheaply than the stored waypoint does.
      The closed set is neither consulted nor changed. */
  function AddOpenWaypoint(s: State, w: Waypoint): (r: AddOutcome)
    ensures r.state.closed == s.closed
    ensures w.location !in s.open ==> r.added
    ensures w.location in s.open ==>
              (r.added <==> w.previousCost < s.open[w.location].previousCost)
    ensures r.added ==> r.state.open == s.open[w.location := w]
    ensures !r.added ==> r.state == s
  {
    var loc := w.location;
    if loc !in s.open then
      AddOutcome(s.(open := s.open[loc := w]), true)
    else if w.previousCost < s.open[loc].previousCost then
      AddOutcome(s.(open := s.open[loc := w]), true)
    else
      AddOutcome(s, false)
  }

  /** Moves the waypoint at `loc` from the open set to the closed set; does nothing when
      `loc` is not open. */
  function CloseWaypoint(s: State, loc: Location): (r: State)
    ensures loc !in r.open
    ensures loc in s.open ==> loc in r.closed && r.closed[loc] == s.open[loc]
    ensures loc !in s.open ==> r == s
    ensures forall l :: l != loc ==> (l in r.open <==> l in s.open)
    ensures forall l :: l != loc && l in s.open ==> r.open[l] == s.open[l]
    ensures forall l :: l != loc ==> (l in r.closed <==> l in s.closed)
    ensures forall l :: l != loc && l in s.closed ==> r.closed[l] == s.closed[l]
  {
    if loc in s.open then
      State(s.open - {loc}, s.closed[loc := s.open[loc]])
    else
      s
  }

  /** `order` lists every key of `m` exactly once, as an iteration over its key set does. */
  ghost predicate EnumeratesKeys(order: seq<Location>, m: map<Location, Waypoint>)
  {
    && (forall l :: l in m <==> l in order)
    && (forall i, j :: 0 <= i < j < |order| ==> order[i] != order[j])
  }

  /** The open waypoint with the lowest total cost, found by one pass over the open set.
      The pass visits the keys in the order `order` (a hash map's iteration order, which
      the container does not control) and keeps the first waypoint whose cost is strictly
      below the best seen so far, starting from the largest finite double. So no result is
      given exactly when no open waypoint costs less than that start value; when every
      cost is below it, that is exactly when the open set is empty. */
  method GetMinOpenWaypoint(s: State, order: seq<Location>) returns (r: Option<Waypoint>)
    requires EnumeratesKeys(order, s.open)
    ensures r.None? <==> forall l :: l in s.open ==> s.open[l].TotalCost() >= DoubleMaxValue
    ensures (forall l :: l in s.open ==> s.open[l].TotalCost() < DoubleMaxValue) ==>
              (r.None? <==> NumOpenWaypoints(s) == 0)
    ensures r.Some? ==> r.value in s.open.Values && r.value.TotalCost() < DoubleMaxValue
    ensures r.Some? ==> forall l :: l in s.open ==> r.value.TotalCost() <= s.open[l].TotalCost()
    ensures r.Some? ==>
              exists k :: 0 <= k < |order| && s.open[order[k]] == r.value &&
                forall j :: 0 <= j < k ==> r.value.TotalCost() < s.open[order[j]].TotalCost()
  {
    if NumOpenWaypoints(s) == 0 {
      return None;
    }
    var best: Option<Waypoint> := None;
    var bestCost := DoubleMaxValue;
    ghost var bestIndex := 0;
    var i := 0;
    while i < |order|
      invariant 0 <= i <= |order|
      invariant forall j :: 0 <= j < i ==> bestCost <= s.open[order[j]].TotalCost()
      invariant best.None? ==> bestCost == DoubleMaxValue
      invariant best.Some? ==>
                  && bestCost == best.value.TotalCost() < DoubleMaxValue
                  && 0 <= bestIndex < i
                  && s.open[order[bestIndex]] == best.value
                  && forall j :: 0 <= j < bestIndex ==> bestCost < s.open[order[j]].TotalCost()
    {
      var current := s.open[order[i]];
      if current.TotalCost() < bestCost {
        best := Some(current);
        bestCost := current.TotalCost();
        bestIndex := i;
      }
      i := i + 1;
    }
    r := best;
    if r.Some? {
      assert s.open[order[bestIndex]] == r.value;
    }
  }
}
