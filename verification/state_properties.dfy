/** Properties of the A* state container that relate several calls, or a call to the
    invariants the container keeps. */
module StateProperties {
  import opened Waypoints
  import opened StateModel

  // ---------------------------------------------------------------------------
  // Insertion
  // ---------------------------------------------------------------------------

  /** An insert attempt never raises the cost stored at any open location, never drops an
      open location, and leaves the candidate's location stored at a cost no higher than
      the candidate's own. */
  lemma AddNeverRaisesCost(s: State, w: Waypoint)
    ensures var r := AddOpenWaypoint(s, w).state;
      && (forall l :: l in s.open ==> l in r.open && r.open[l].previousCost <= s.open[l].previousCost)
      && w.location in r.open
      && r.open[w.location].previousCost <= w.previousCost
  {
  }

  /** An insert changes the number of open waypoints only when the location is new, and
      then by one. */
  lemma NumOpenAfterAdd(s: State, w: Waypoint)
    ensures var r := AddOpenWaypoint(s, w).state;
      NumOpenWaypoints(r) == (if w.location in s.open then NumOpenWaypoints(s) else NumOpenWaypoints(s) + 1)
  {
  }

  /** An insert keeps the invariants provided the candidate's location is not closed; the
      container itself does not check this. */
  lemma AddKeepsValid(s: State, w: Waypoint)
    requires Valid(s)
    requires !IsLocationClosed(s, w.location)
    ensures Valid(AddOpenWaypoint(s, w).state)
  {
  }

  /** Without that caller discipline the partition breaks: offering a waypoint for a
      closed location always leaves the location both open and closed. */
  lemma AddCanReopenClosed(s: State, w: Waypoint)
    requires IsLocationClosed(s, w.location)
    ensures var r := AddOpenWaypoint(s, w).state;
      && w.location in r.open
      && IsLocationClosed(r, w.location)
      && !Disjoint(r)
  {
  }

  /** The state after offering the candidates `ws` one after the other. */
  function AddAll(s: State, ws: seq<Waypoint>): (r: State)
    decreases |ws|
  {
    if |ws| == 0 then s else AddAll(AddOpenWaypoint(s, ws[0]).state, ws[1..])
  }

  /** After any run of insert attempts, every location that was open or offered is open,
      its stored cost is no higher than any cost it was offered or held before, the stored
      waypoint is one it held before or one it was offered, and the closed set is as it was. */
  lemma {:induction false} AddAllKeepsCheapest(s: State, ws: seq<Waypoint>)
    ensures var r := AddAll(s, ws);
      && r.closed == s.closed
      && (forall l :: l in s.open ==> l in r.open && r.open[l].previousCost <= s.open[l].previousCost)
      && (forall i :: 0 <= i < |ws| ==>
            ws[i].location in r.open && r.open[ws[i].location].previousCost <= ws[i].previousCost)
      && (forall l :: l in r.open ==>
            (l in s.open && r.open[l] == s.open[l]) || exists i :: 0 <= i < |ws| && ws[i] == r.open[l])
    decreases |ws|
  {
    if |ws| > 0 {
      var s1 := AddOpenWaypoint(s, ws[0]).state;
      var tail := ws[1..];
      var r := AddAll(s1, tail);
      assert r == AddAll(s, ws);
      AddNeverRaisesCost(s, ws[0]);
      AddAllKeepsCheapest(s1, tail);
      forall i | 0 <= i < |ws|
        ensures ws[i].location in r.open && r.open[ws[i].location].previousCost <= ws[i].previousCost
      {
        if i > 0 {
          assert ws[i] == tail[i - 1];
        }
      }
      forall l | l in r.open
        ensures (l in s.open && r.open[l] == s.open[l]) || exists i :: 0 <= i < |ws| && ws[i] == r.open[l]
      {
        if exists j :: 0 <= j < |tail| && tail[j] == r.open[l] {
          var j :| 0 <= j < |tail| && tail[j] == r.open[l];
          assert ws[j + 1] == r.open[l];
        } else if l in s1.open && r.open[l] == s1.open[l] && s1.open[l] == ws[0] {
          assert ws[0] == r.open[l];
        }
      }
    }
  }

  // ---------------------------------------------------------------------------
  // Closing
  // ---------------------------------------------------------------------------

  /** Closing keeps the invariants. */
  lemma CloseKeepsValid(s: State, loc: Location)
    requires Valid(s)
    ensures Valid(CloseWaypoint(s, loc))
  {
  }

  /** Closing the same location twice has the effect of closing it once. */
  lemma CloseIdempotent(s: State, loc: Location)
    ensures CloseWaypoint(CloseWaypoint(s, loc), loc) == CloseWaypoint(s, loc)
  {
  }

  /** After closing `loc`, a location is closed exactly when it was closed before or it is
      `loc` and `loc` was open. */
  lemma ClosedAfterClose(s: State, loc: Location, l: Location)
    ensures IsLocationClosed(CloseWaypoint(s, loc), l) <==>
              (IsLocationClosed(s, l) || (l == loc && loc in s.open))
  {
  }

  /** Closing an open location leaves one fewer open waypoint; closing any other location
      leaves the count as it was. */
  lemma NumOpenAfterClose(s: State, loc: Location)
    ensures var r := CloseWaypoint(s, loc);
      NumOpenWaypoints(r) == (if loc in s.open then NumOpenWaypoints(s) - 1 else NumOpenWaypoints(s))
  {
  }

  /** In a partitioned state, closing an open location adds one closed waypoint, so no
      waypoint is lost. Without the partition the move may overwrite a closed entry for the
      same location, and the closed count stays as it was. */
  lemma ClosedCountAfterClose(s: State, loc: Location)
    requires Disjoint(s)
    ensures var r := CloseWaypoint(s, loc);
      && |r.closed| == (if loc in s.open then |s.closed| + 1 else |s.closed|)
      && |r.open| + |r.closed| == |s.open| + |s.closed|
  {
  }

  // ---------------------------------------------------------------------------
  // Whole runs of the search loop
  // ---------------------------------------------------------------------------

  /** The two mutations the search loop drives. */
  datatype Op = Add(w: Waypoint) | Close(loc: Location)

  function Apply(s: State, op: Op): (r: State)
  {
    match op
    case Add(w) => AddOpenWaypoint(s, w).state
    case Close(loc) => CloseWaypoint(s, loc)
  }

  function Run(s: State, ops: seq<Op>): (r: State)
    decreases |ops|
  {
    if |ops| == 0 then s else Run(Apply(s, ops[0]), ops[1..])
  }

  /** The caller's discipline: no waypoint is offered for a location that is closed at the
      time of the offer. */
  ghost predicate Disciplined(s: State, ops: seq<Op>)
    decreases |ops|
  {
    |ops| == 0 ||
    ((ops[0].Add? ==> !IsLocationClosed(s, ops[0].w.location)) && Disciplined(Apply(s, ops[0]), ops[1..]))
  }

  /** Under that discipline every run keeps the invariants (so no location is ever both open
      and closed), and the closed set only grows: a closed location stays closed with the
      same waypoint. */
  lemma {:induction false} RunKeepsValid(s: State, ops: seq<Op>)
    requires Valid(s)
    requires Disciplined(s, ops)
    ensures Valid(Run(s, ops))
    ensures forall l :: l in s.closed ==> l in Run(s, ops).closed && Run(s, ops).closed[l] == s.closed[l]
    decreases |ops|
  {
    if |ops| > 0 {
      var s1 := Apply(s, ops[0]);
      match ops[0] {
        case Add(w) => AddKeepsValid(s, w);
        case Close(loc) => CloseKeepsValid(s, loc);
      }
      RunKeepsValid(s1, ops[1..]);
    }
  }
}
