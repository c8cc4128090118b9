/** One ant: the record of a single tour under construction. */
module Ants {

  class Ant {
    var startingCity: nat
    var currentCity: nat
    /** Distance walked so far, not counting the way back to the start. */
    var distance: int
    var visitedCities: seq<nat>

    /** The ant stands on the last city of its route. */
    predicate AtLastVisited()
      reads this
    {
      |visitedCities| >= 1 && currentCity == visitedCities[|visitedCities| - 1]
    }

    /** A new ant stands on its starting city, has visited only that city
        and has walked nothing. */
    constructor (startingCity: nat)
      ensures this.startingCity == startingCity && currentCity == startingCity
      ensures distance == 0 && visitedCities == [startingCity]
      ensures AtLastVisited()
    {
      this.startingCity := startingCity;
      currentCity := startingCity;
      distance := 0;
      visitedCities := [startingCity];
    }

    /** Walks to `newCity` along an edge of length `distance`. */
    method Move(newCity: nat, distance: int)
      modifies this
      ensures currentCity == newCity
      ensures visitedCities == old(visitedCities) + [newCity]
      ensures this.distance == old(this.distance) + distance
      ensures startingCity == old(startingCity)
      ensures AtLastVisited()
    {
      currentCity := newCity;
      visitedCities := visitedCities + [newCity];
      this.distance := this.distance + distance;
    }
  }
}
