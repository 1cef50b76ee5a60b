/**
 The records of the two datasets and the route-aggregation bookkeeping as
 values: the airport lookup and the route table each described as a fold of
 the ingestion step over the input, the reverse-aware queries the renderer
 and the sidebar use, and what the folds produce.
 */
module Aggregation {
  import opened Wrappers
  import opened Keys

  /** One airport of the airport dataset: its code, its display name and its position. */
  datatype Airport = Airport(abbrev: string, name: string, lng: real, lat: real)

  /** One flight of the flight dataset; the aircraft type is optional. */
  datatype Flight = Flight(
    airline: string,
    number: string,
    departureAirport: string,
    arrivalAirport: string,
    plane: Option<string>)

  /** Route key to the flights stored under exactly that direction, in input order. */
  type RouteTable = map<string, seq<Flight>>

  /** The directional key a flight is stored under. */
  function RouteKey(f: Flight): string {
    MakeKey(f.departureAirport, f.arrivalAirport)
  }

  /** Both codes of the flight can be embedded in a route key. */
  predicate HasCodes(f: Flight) {
    IsCode(f.departureAirport) && IsCode(f.arrivalAirport)
  }

  // ----- Airport lookup -----

  /** The lookup after recording each airport under its code, in order. */
  function AddAirports(info: map<string, Airport>, airports: seq<Airport>): map<string, Airport>
    decreases |airports|
  {
    if airports == [] then info
    else
      var last := airports[|airports| - 1];
      AddAirports(info, airports[..|airports| - 1])[last.abbrev := last]
  }

  /** Loading two lists in turn is loading their concatenation. */
  lemma {:induction false} AddAirportsAppend(info: map<string, Airport>, a: seq<Airport>, b: seq<Airport>)
    ensures AddAirports(info, a + b) == AddAirports(AddAirports(info, a), b)
    decreases |b|
  {
    if b == [] {
      assert a + b == a;
    } else {
      var ab := a + b;
      assert ab[..|ab| - 1] == a + b[..|b| - 1];
      assert ab[|ab| - 1] == b[|b| - 1];
      AddAirportsAppend(info, a, b[..|b| - 1]);
    }
  }

  /** An airport that no later airport shares a code with is what the lookup holds for that code. */
  lemma {:induction false} AirportLastWriteWins(info: map<string, Airport>, airports: seq<Airport>, i: int)
    requires 0 <= i < |airports|
    requires forall j :: i < j < |airports| ==> airports[j].abbrev != airports[i].abbrev
    ensures airports[i].abbrev in AddAirports(info, airports)
    ensures AddAirports(info, airports)[airports[i].abbrev] == airports[i]
    decreases |airports|
  {
    if i < |airports| - 1 {
      var prefix := airports[..|airports| - 1];
      AirportLastWriteWins(info, prefix, i);
    }
  }

  /** A code that no loaded airport carries keeps its previous entry, or its absence. */
  lemma {:induction false} AirportUntouched(info: map<string, Airport>, airports: seq<Airport>, code: string)
    requires forall j :: 0 <= j < |airports| ==> airports[j].abbrev != code
    ensures code in AddAirports(info, airports) <==> code in info
    ensures code in info ==> AddAirports(info, airports)[code] == info[code]
    decreases |airports|
  {
    if airports != [] {
      AirportUntouched(info, airports[..|airports| - 1], code);
    }
  }

  // ----- Route table -----

  /** The flights of a route key, none when the table has no entry for it. */
  function Bucket(paths: RouteTable, k: string): seq<Flight> {
    if k in paths then paths[k] else []
  }

  /**
   One ingestion step: the flight is appended to the bucket of its own
   directional key, which is created when missing; no other bucket changes.
   */
  function AddFlight(paths: RouteTable, f: Flight): RouteTable {
    var key := RouteKey(f);
    if key in paths then paths[key := paths[key] + [f]] else paths[key := [f]]
  }

  /** Both branches of the ingestion step append to the flight's own bucket and to no other. */
  lemma AddFlightBucket(paths: RouteTable, f: Flight, k: string)
    ensures k in AddFlight(paths, f) <==> k in paths || k == RouteKey(f)
    ensures Bucket(AddFlight(paths, f), k) == Bucket(paths, k) + (if k == RouteKey(f) then [f] else [])
  {
  }

  /** The table after ingesting each flight in order. */
  function AddFlights(paths: RouteTable, flights: seq<Flight>): RouteTable
    decreases |flights|
  {
    if flights == [] then paths
    else AddFlight(AddFlights(paths, flights[..|flights| - 1]), flights[|flights| - 1])
  }

  /** Ingesting two lists in turn is ingesting their concatenation. */
  lemma {:induction false} AddFlightsAppend(paths: RouteTable, a: seq<Flight>, b: seq<Flight>)
    ensures AddFlights(paths, a + b) == AddFlights(AddFlights(paths, a), b)
    decreases |b|
  {
    if b == [] {
      assert a + b == a;
    } else {
      var ab := a + b;
      assert ab[..|ab| - 1] == a + b[..|b| - 1];
      assert ab[|ab| - 1] == b[|b| - 1];
      AddFlightsAppend(paths, a, b[..|b| - 1]);
    }
  }

  /** Ingesting one more flight is one more ingestion step. */
  lemma AddFlightsSnoc(paths: RouteTable, flights: seq<Flight>, f: Flight)
    ensures AddFlights(paths, flights + [f]) == AddFlight(AddFlights(paths, flights), f)
  {
  }

  /** The flights of a list whose key is `k`, in list order. */
  function OnRoute(flights: seq<Flight>, k: string): (r: seq<Flight>)
    ensures |r| <= |flights|
    ensures forall f :: f in r <==> f in flights && RouteKey(f) == k
    decreases |flights|
  {
    if flights == [] then []
    else
      var prefix, last := flights[..|flights| - 1], flights[|flights| - 1];
      assert flights == prefix + [last];
      var rest := OnRoute(prefix, k);
      if RouteKey(last) == k then rest + [last] else rest
  }

  /**
   After ingestion each bucket is its old contents followed by the new
   flights of exactly that key, in input order; a key has an entry exactly
   when it had one or some new flight has that key.
   */
  lemma {:induction false} BucketAfterIngest(paths: RouteTable, flights: seq<Flight>, k: string)
    ensures Bucket(AddFlights(paths, flights), k) == Bucket(paths, k) + OnRoute(flights, k)
    ensures k in AddFlights(paths, flights) <==> k in paths || OnRoute(flights, k) != []
    decreases |flights|
  {
    if flights == [] {
      assert Bucket(paths, k) + [] == Bucket(paths, k);
    } else {
      var prefix := flights[..|flights| - 1];
      BucketAfterIngest(paths, prefix, k);
      AddFlightBucket(AddFlights(paths, prefix), flights[|flights| - 1], k);
      if RouteKey(flights[|flights| - 1]) == k {
        assert Bucket(paths, k) + OnRoute(prefix, k) + [flights[|flights| - 1]]
            == Bucket(paths, k) + (OnRoute(prefix, k) + [flights[|flights| - 1]]);
      }
    }
  }

  /**
   The table built from nothing: every bucket holds exactly the flights of
   its key in input order and is non-empty, and a key is present exactly
   when some flight has it.
   */
  lemma IngestedTable(flights: seq<Flight>)
    ensures forall k :: k in AddFlights(map[], flights) ==>
      AddFlights(map[], flights)[k] == OnRoute(flights, k) && AddFlights(map[], flights)[k] != []
    ensures forall k :: k in AddFlights(map[], flights) <==> exists f :: f in flights && RouteKey(f) == k
  {
    var t := AddFlights(map[], flights);
    forall k
      ensures k in t ==> t[k] == OnRoute(flights, k) && t[k] != []
      ensures k in t <==> exists f :: f in flights && RouteKey(f) == k
    {
      BucketAfterIngest(map[], flights, k);
      if k in t {
        assert t[k] == Bucket(t, k);
      }
      if f :| f in flights && RouteKey(f) == k {
        assert f in OnRoute(flights, k);
      }
    }
  }

  /**
   A flight whose two codes differ is stored under its own key and never
   under the key of the opposite direction.
   */
  lemma NotInReverseBucket(flights: seq<Flight>, f: Flight)
    requires f in flights && HasCodes(f)
    requires f.departureAirport != f.arrivalAirport
    ensures f in Bucket(AddFlights(map[], flights), RouteKey(f))
    ensures f !in Bucket(AddFlights(map[], flights), MakeKey(f.arrivalAirport, f.departureAirport))
  {
    var reverse := MakeKey(f.arrivalAirport, f.departureAirport);
    BucketAfterIngest(map[], flights, RouteKey(f));
    BucketAfterIngest(map[], flights, reverse);
    assert Bucket(map[], RouteKey(f)) == [] && Bucket(map[], reverse) == [];
    if RouteKey(f) == reverse {
      SplitMakeKey(f.departureAirport, f.arrivalAirport);
      SplitMakeKey(f.arrivalAirport, f.departureAirport);
    }
  }

  /** Every flight stored anywhere in the table, with its multiplicity. */
  ghost function Stored(paths: RouteTable): multiset<Flight>
    decreases |paths|
  {
    if paths == map[] then multiset{}
    else
      var k :| k in paths;
      assert (paths - {k}).Keys == paths.Keys - {k};
      Stored(paths - {k}) + multiset(paths[k])
  }

  /** Whichever key is taken out first, the table stores the same flights. */
  lemma {:induction false} StoredRemove(paths: RouteTable, k: string)
    requires k in paths
    ensures Stored(paths) == Stored(paths - {k}) + multiset(paths[k])
    decreases |paths|, 1
  {
    var j :| j in paths && Stored(paths) == Stored(paths - {j}) + multiset(paths[j]);
    if j != k {
      StoredSwap(paths, j, k);
    }
  }

  /** The inductive step of StoredRemove: taking out `j` first or `k` first agrees. */
  lemma {:induction false} StoredSwap(paths: RouteTable, j: string, k: string)
    requires j in paths && k in paths && j != k
    ensures Stored(paths - {j}) + multiset(paths[j]) == Stored(paths - {k}) + multiset(paths[k])
    decreases |paths|, 0
  {
    var withoutJ, withoutK := paths - {j}, paths - {k};
    assert withoutJ.Keys == paths.Keys - {j} && withoutK.Keys == paths.Keys - {k};
    StoredRemove(withoutJ, k);
    StoredRemove(withoutK, j);
    assert withoutJ - {k} == withoutK - {j};
  }

  /** Replacing the bucket of a key replaces its flights among the stored ones. */
  lemma StoredUpdate(paths: RouteTable, key: string, bucket: seq<Flight>)
    ensures Stored(paths[key := bucket]) == Stored(paths - {key}) + multiset(bucket)
  {
    var r := paths[key := bucket];
    StoredRemove(r, key);
    assert r - {key} == paths - {key};
  }

  /** One ingestion step stores exactly one more copy of the flight. */
  lemma StoredAddFlight(paths: RouteTable, f: Flight)
    ensures Stored(AddFlight(paths, f)) == Stored(paths) + multiset{f}
  {
    var key := RouteKey(f);
    if key in paths {
      StoredUpdate(paths, key, paths[key] + [f]);
      StoredRemove(paths, key);
      assert multiset(paths[key] + [f]) == multiset(paths[key]) + multiset{f};
    } else {
      StoredUpdate(paths, key, [f]);
      assert paths - {key} == paths;
    }
  }

  /**
   Ingestion neither loses nor duplicates a flight: the table stores the
   flights it held before plus the ingested ones, so the bucket lengths add
   up to the number of flights ingested.
   */
  lemma {:induction false} StoredAfterIngest(paths: RouteTable, flights: seq<Flight>)
    ensures Stored(AddFlights(paths, flights)) == Stored(paths) + multiset(flights)
    decreases |flights|
  {
    if flights != [] {
      var prefix, last := flights[..|flights| - 1], flights[|flights| - 1];
      assert flights == prefix + [last];
      StoredAfterIngest(paths, prefix);
      AddFlightsSnoc(paths, prefix, last);
      StoredAddFlight(AddFlights(paths, prefix), last);
    }
  }

  // ----- Visited airports -----

  /** Every departure and arrival code of the flights. */
  function Endpoints(flights: seq<Flight>): set<string> {
    (set f | f in flights :: f.departureAirport) + (set f | f in flights :: f.arrivalAirport)
  }

  /** The codes of a concatenation are the codes of its two parts. */
  lemma EndpointsAppend(a: seq<Flight>, b: seq<Flight>)
    ensures Endpoints(a + b) == Endpoints(a) + Endpoints(b)
  {
  }

  /** One more flight adds its two codes. */
  lemma EndpointsSnoc(flights: seq<Flight>, f: Flight)
    ensures Endpoints(flights + [f]) == Endpoints(flights) + {f.departureAirport, f.arrivalAirport}
  {
  }

  // ----- Reverse-aware queries -----

  /**
   The number of flights drawn on the line of key `k`: those of its bucket
   and those of the bucket of the reverse key, an absent bucket counting as
   none.
   */
  function RouteCount(paths: RouteTable, k: string): nat
    requires Separator in k
  {
    |Bucket(paths, k)| + |Bucket(paths, ReversePath(k))|
  }

  /** The count of a well-formed key equals the count of its reverse. */
  lemma RouteCountSymmetric(paths: RouteTable, k: string)
    requires IsRouteKey(k)
    ensures Separator in k && Separator in ReversePath(k)
    ensures RouteCount(paths, k) == RouteCount(paths, ReversePath(k))
  {
    ReversePathInvolutive(k);
  }

  /**
   On the table built from a list of flights, the count of the key of two
   codes is the number of flights from the first to the second plus the
   number from the second to the first.
   */
  lemma RouteCountIngested(flights: seq<Flight>, dep: string, arr: string)
    requires IsCode(dep) && IsCode(arr)
    ensures Separator in MakeKey(dep, arr)
    ensures RouteCount(AddFlights(map[], flights), MakeKey(dep, arr))
         == |OnRoute(flights, MakeKey(dep, arr))| + |OnRoute(flights, MakeKey(arr, dep))|
  {
    ReverseMakeKey(dep, arr);
    BucketAfterIngest(map[], flights, MakeKey(dep, arr));
    BucketAfterIngest(map[], flights, MakeKey(arr, dep));
  }

  /**
   A route from an airport to itself is its own reverse, so its flights are
   counted twice.
   */
  lemma SelfRouteCountedTwice(paths: RouteTable, code: string)
    requires IsCode(code)
    ensures Separator in MakeKey(code, code)
    ensures RouteCount(paths, MakeKey(code, code)) == 2 * |Bucket(paths, MakeKey(code, code))|
  {
    ReverseMakeKey(code, code);
  }

  /**
   Two flights from `a` to `b` around one from `b` to `a`: both directions
   count all three, the reverse bucket holds the middle one and the forward
   bucket the other two in input order.
   */
  lemma OppositeFlights(a: string, b: string, out1: Flight, back: Flight, out2: Flight)
    requires IsCode(a) && IsCode(b) && a != b
    requires RouteKey(out1) == RouteKey(out2) == MakeKey(a, b) && RouteKey(back) == MakeKey(b, a)
    ensures Separator in MakeKey(a, b) && Separator in MakeKey(b, a)
    ensures RouteCount(AddFlights(map[], [out1, back, out2]), MakeKey(a, b)) == 3
    ensures RouteCount(AddFlights(map[], [out1, back, out2]), MakeKey(b, a)) == 3
    ensures Bucket(AddFlights(map[], [out1, back, out2]), MakeKey(b, a)) == [back]
    ensures Bucket(AddFlights(map[], [out1, back, out2]), MakeKey(a, b)) == [out1, out2]
  {
    var flights := [out1, back, out2];
    var k, r := MakeKey(a, b), MakeKey(b, a);
    SplitMakeKey(a, b);
    SplitMakeKey(b, a);
    assert k != r;
    RouteCountIngested(flights, a, b);
    RouteCountIngested(flights, b, a);
    BucketAfterIngest(map[], flights, k);
    BucketAfterIngest(map[], flights, r);
    OnRouteOpposite(k, r, out1, back, out2);
  }

  /** Filtering the three flights of the scenario by either key. */
  lemma OnRouteOpposite(k: string, r: string, out1: Flight, back: Flight, out2: Flight)
    requires k != r && RouteKey(out1) == RouteKey(out2) == k && RouteKey(back) == r
    ensures OnRoute([out1, back, out2], k) == [out1, out2]
    ensures OnRoute([out1, back, out2], r) == [back]
  {
    assert [out1, back, out2][..2] == [out1, back] && [out1, back][..1] == [out1] && [out1][..0] == [];
    assert OnRoute([out1], k) == [out1] && OnRoute([out1], r) == [];
    assert OnRoute([out1, back], k) == [out1] && OnRoute([out1, back], r) == [back];
  }

  /** The same with JFK and LAX, on the literal keys. */
  lemma JfkLaxScenario(out1: Flight, back: Flight, out2: Flight)
    requires out1.departureAirport == out2.departureAirport == back.arrivalAirport == "JFK"
    requires out1.arrivalAirport == out2.arrivalAirport == back.departureAirport == "LAX"
    ensures Separator in "JFK-LAX" && Separator in "LAX-JFK"
    ensures RouteCount(AddFlights(map[], [out1, back, out2]), "JFK-LAX") == 3
    ensures RouteCount(AddFlights(map[], [out1, back, out2]), "LAX-JFK") == 3
  {
    assert MakeKey("JFK", "LAX") == "JFK-LAX" && MakeKey("LAX", "JFK") == "LAX-JFK";
    assert "JFK" != "LAX";
    OppositeFlights("JFK", "LAX", out1, back, out2);
  }
}
