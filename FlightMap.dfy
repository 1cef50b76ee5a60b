/**
 The page's shared state: the airport lookup, the set of airports with
 traffic and the route table, filled in place by the two ingestion passes
 and read by the sidebar.
 */
module FlightMap {
  import opened Keys
  import opened Aggregation

  class FlightData {
    /** Airport code to airport record. */
    var airportInfo: map<string, Airport>
    /** Every departure or arrival code seen so far. */
    var airportsVisited: set<string>
    /** Directional route key to its flights. */
    var paths: RouteTable

    /** The airport records loaded so far, in order. */
    ghost var airportsLoaded: seq<Airport>
    /** The flight records ingested so far, in order. */
    ghost var flightsLoaded: seq<Flight>

    /** The three containers are exactly what the loaded records produce from empty ones. */
    ghost predicate Valid()
      reads this
    {
      && airportInfo == AddAirports(map[], airportsLoaded)
      && paths == AddFlights(map[], flightsLoaded)
      && airportsVisited == Endpoints(flightsLoaded)
    }

    /** All three containers start empty. */
    constructor ()
      ensures Valid()
      ensures airportsLoaded == [] && flightsLoaded == []
      ensures airportInfo == map[] && airportsVisited == {} && paths == map[]
    {
      airportInfo, airportsVisited, paths := map[], {}, map[];
      airportsLoaded, flightsLoaded := [], [];
    }

    /** Records every airport under its code, a later record replacing an earlier one. */
    method BuildAirportData(airports: seq<Airport>)
      requires Valid()
      modifies this
      ensures Valid()
      ensures airportInfo == AddAirports(old(airportInfo), airports)
      ensures airportsLoaded == old(airportsLoaded) + airports
      ensures flightsLoaded == old(flightsLoaded)
      ensures paths == old(paths) && airportsVisited == old(airportsVisited)
    {
      var i := 0;
      while i < |airports|
        invariant 0 <= i <= |airports|
        invariant airportInfo == AddAirports(old(airportInfo), airports[..i])
        invariant paths == old(paths) && airportsVisited == old(airportsVisited)
        invariant airportsLoaded == old(airportsLoaded) && flightsLoaded == old(flightsLoaded)
      {
        var airport := airports[i];
        assert airports[..i + 1][..i] == airports[..i];
        airportInfo := airportInfo[airport.abbrev := airport];
        i := i + 1;
      }
      assert airports[..i] == airports;
      AddAirportsAppend(map[], airportsLoaded, airports);
      airportsLoaded := airportsLoaded + airports;
    }

    /**
     Appends every flight to the bucket of its directional key, creating the
     bucket when missing, and records both of its codes as visited.
     */
    method BuildFlightData(flights: seq<Flight>)
      requires Valid()
      modifies this
      ensures Valid()
      ensures paths == AddFlights(old(paths), flights)
      ensures airportsVisited == old(airportsVisited) + Endpoints(flights)
      ensures flightsLoaded == old(flightsLoaded) + flights
      ensures airportsLoaded == old(airportsLoaded) && airportInfo == old(airportInfo)
    {
      var i := 0;
      while i < |flights|
        invariant 0 <= i <= |flights|
        invariant paths == AddFlights(old(paths), flights[..i])
        invariant airportsVisited == old(airportsVisited) + Endpoints(flights[..i])
        invariant airportInfo == old(airportInfo)
        invariant airportsLoaded == old(airportsLoaded) && flightsLoaded == old(flightsLoaded)
      {
        IngestFlight(flights[i]);
        assert flights[..i + 1] == flights[..i] + [flights[i]];
        AddFlightsSnoc(old(paths), flights[..i], flights[i]);
        EndpointsSnoc(flights[..i], flights[i]);
        i := i + 1;
      }
      assert flights[..i] == flights;
      AddFlightsAppend(map[], flightsLoaded, flights);
      EndpointsAppend(flightsLoaded, flights);
      flightsLoaded := flightsLoaded + flights;
    }

    /**
     The step applied to each flight: append it to the bucket of its
     directional key, or start that bucket with it, and mark both of its
     codes visited. The bucket of the reverse key is left alone.
     */
    method IngestFlight(flight: Flight)
      modifies this`paths, this`airportsVisited
      ensures paths == AddFlight(old(paths), flight)
      ensures airportsVisited == old(airportsVisited) + {flight.departureAirport, flight.arrivalAirport}
    {
      var key := MakeKey(flight.departureAirport, flight.arrivalAirport);
      if key in paths {
        paths := paths[key := paths[key] + [flight]];
      } else {
        paths := paths[key := [flight]];
      }
      airportsVisited := airportsVisited + {flight.departureAirport};
      airportsVisited := airportsVisited + {flight.arrivalAirport};
    }

    /**
     The flights listed for a route: those of the reverse key, then those of
     the key itself. They are the ingested flights of the two directions in
     input order, as many as the route's count.
     */
    method DisplayFlights(path: string) returns (flights: seq<Flight>)
      requires Valid() && Separator in path
      ensures flights == OnRoute(flightsLoaded, ReversePath(path)) + OnRoute(flightsLoaded, path)
      ensures |flights| == RouteCount(paths, path)
    {
      flights := [];
      var reverse := ReversePath(path);
      if reverse in paths {
        flights := flights + paths[reverse];
      }
      assert flights == Bucket(paths, reverse);
      if path in paths {
        flights := flights + paths[path];
      }
      assert flights == Bucket(paths, reverse) + Bucket(paths, path);
      BucketAfterIngest(map[], flightsLoaded, reverse);
      BucketAfterIngest(map[], flightsLoaded, path);
    }
  }
}
