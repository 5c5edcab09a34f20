/** Value types the A* state container stores: grid locations, waypoints and an
    optional result. Only equality of locations is ever used by the container. */
module Waypoints {

  /** A map coordinate. Its shape is not part of this model: the container only compares
      locations for equality, using them as map keys. */
  type Location(==, !new)

  /** One discovered point of a candidate path: where it sits, the cost paid to reach it
      from the start, and the estimated remaining cost to the goal. */
  datatype Waypoint = Waypoint(location: Location, previousCost: real, heuristicCost: real)
  {
    /** Estimated cost of a complete path through this waypoint. */
    function TotalCost(): (c: real)
    {
      previousCost + heuristicCost
    }
  }

  /** A value or its absence; `None` plays the role of a null reference. */
  datatype Option<T> = None | Some(value: T)

  /** Largest finite double, 2^1024 - 2^971, written out exactly. It seeds the best cost
      in the minimum scan. */
  const DoubleMaxValue: real := 179769313486231570814527423731704356798070567525844996598917476803157260780028538760589558632766878171540458953514382464234321326889464182768467546703537516986049910576551282076245490090389328944075868508455133942304583236903222948165808559332123348274797826204144723168738177180919299881250404026184124858368.0
}
