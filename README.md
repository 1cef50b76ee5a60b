# Flight-route aggregation, modelled in Dafny

The flight tracker draws one line per airport pair on a map and lists the
flights of a route in a sidebar. Behind the drawing sits a small piece of
bookkeeping in `map.js`, and this project models it:

- an **airport lookup** from airport code (`abbrev`) to airport record, filled by `buildAirportData`;
- a **route table** from the directional key `"<departure>-<arrival>"` to the flights with exactly that key, in input order, filled by `buildFlightData`;
- the **visited set** of every departure and arrival code, filled by `buildFlightData` too;
- the **key helpers** `splitPath` (split on `-`) and `reversePath` (swap the two codes);
- the two **reverse-aware queries**:
  - the flight count that sets a line's weight (`map.js:99`): the key's bucket plus the reverse key's bucket;
  - the sidebar's flight list (`map.js:152-154`): the reverse bucket, then the forward bucket.

Modules:

- `Keys` (`Keys.dfy`): route keys.
  - `Split` is a script engine's `split` on one character: empty pieces are kept, and there is one piece more than there are separators.
  - `SplitPath`, `MakeKey` and `ReversePath` are the source's helpers.
  - `ReversePath` requires a separator in the key. With two or more pieces, the source swaps the first two and drops the rest; the model does the same. With one piece, the source would produce the text `undefined-<key>`; the model does not allow that input.
- `Aggregation` (`Aggregation.dfy`): the records as datatypes and the bookkeeping as values.
  - `AddAirports` and `AddFlights` fold the per-record step over the input. `AddFlight` is one step of `buildFlightData`: append to the bucket of the flight's own key, or start that bucket.
  - `OnRoute` is the independent description of a bucket: the input flights with that key, in input order.
  - `Stored` is the multiset of all stored flights. Its size is the sum of the bucket lengths.
  - `Endpoints` is the set of all departure and arrival codes.
  - `RouteCount` is the count at `map.js:99`.
- `FlightMap` (`FlightMap.dfy`): class `FlightData`, which holds the source's three module-level containers (`airportInfo`, `airportsVisited`, `paths`).
  - `BuildAirportData` and `BuildFlightData` update those fields in loops. Each is proved against the fold, and each keeps the invariant `Valid()`: the containers are what the loaded records produce from empty ones.
  - `DisplayFlights` builds the sidebar list.

Several results hold for flights whose codes have no `-` (`HasCodes`, `IsCode`):

- Every flight lands in the bucket of its own key, in input order.
- A flight is never stored in the reverse bucket. The reverse-merge branch at `map.js:64-65` is commented out.
- No flight is lost or duplicated: the stored multiset equals the ingested one.
- A bucket is never empty, and a key is present exactly when some flight has it.
- `reversePath` reverses a key with one separator and gives it back when applied twice.
- The line count is the same for a key and its reverse.
- The sidebar list is the flights of both directions, as many as the line count.

The source also counts a route from an airport to itself twice. The key `X-X` is its own reverse, so `map.js:99` adds that bucket to itself, and the sidebar lists each of its flights twice (`SelfRouteCountedTwice`). The model keeps this behaviour.

## Model

| member | source | states |
|---|---|---|
| `Keys.Split` | map.js:170-172 | splitting always yields at least one piece, also for the empty string |
| `Keys.SplitPiecesFree` | map.js:170-172 | no piece produced by `split` holds the separator |
| `Keys.SplitJoin` | map.js:170-172 | joining the pieces with the separator gives the original key back, so nothing is lost in splitting |
| `Keys.SplitAtSeparator` | map.js:170-172 | a key holding a separator splits into at least two pieces, so `reversePath`'s destructuring finds both codes |
| `Keys.SplitSingle` | map.js:170-172 | a string without a separator splits into itself alone |
| `Keys.SplitMakeKey` | map.js:170-172 | splitting the key built at map.js:60 from two separator-free codes gives exactly `[dep, arr]` |
| `Keys.MakeKeyIsRouteKey` | map.js:60 | the key built from two separator-free codes has exactly one separator |
| `Keys.ReversePath` | map.js:165-168 | the reversed key again holds a separator, so it can itself be reversed |
| `Keys.ReverseMakeKey` | map.js:165-168 | reversing the key of `dep` and `arr` gives the key of `arr` and `dep` |
| `Keys.RouteKeyParts` | map.js:165-172 | a key with one separator splits into two separator-free codes, and it is the key of those two codes |
| `Keys.ReversePathInvolutive` | map.js:165-168 | for a key with exactly one separator, the reverse is again such a key, and reversing twice gives the key back |
| `Aggregation.AddAirportsAppend` | map.js:52-56 | loading two lists of airports in turn equals loading their concatenation |
| `Aggregation.AirportLastWriteWins` | map.js:52-56 | after loading, a code maps to the last airport in input order that carries it |
| `Aggregation.AirportUntouched` | map.js:52-56 | a code that no loaded airport carries keeps its earlier entry, or stays absent |
| `Aggregation.AddFlightBucket` | map.js:62-67 | both branches of the step append the flight to its own key's bucket (creating it when absent), and no other key is added or changed |
| `Aggregation.AddFlightsSnoc` | map.js:59-68 | ingesting one more flight applies one more step to the table |
| `Aggregation.AddFlightsAppend` | map.js:58-73 | ingesting two lists in turn equals ingesting their concatenation |
| `Aggregation.OnRoute` | map.js:59-68 | a flight is among the flights of key `k` exactly when it is among the input flights and its own key is `k` |
| `Aggregation.BucketAfterIngest` | map.js:59-68 | each bucket becomes its old contents followed by the new flights of exactly that key, in input order, and a key is present exactly when it was before or some new flight has it |
| `Aggregation.IngestedTable` | map.js:62-67 | on a table built from nothing, every bucket holds exactly its key's flights in input order and is non-empty, and a key is present exactly when some flight has that departure-arrival pair |
| `Aggregation.NotInReverseBucket` | map.js:61-67 | a flight whose two codes differ is in its own key's bucket and never in the reverse key's bucket |
| `Aggregation.StoredRemove` | map.js:62-67 | the stored flights are those of any one bucket plus those of the rest of the table, whichever bucket is taken first |
| `Aggregation.StoredSwap` | map.js:62-67 | taking two different buckets out in either order leaves the same stored flights |
| `Aggregation.StoredUpdate` | map.js:62-67 | replacing a key's bucket replaces exactly that bucket's flights among the stored ones |
| `Aggregation.StoredAddFlight` | map.js:62-67 | one step stores exactly one more copy of the flight and nothing else |
| `Aggregation.StoredAfterIngest` | map.js:58-73 | ingestion neither loses nor duplicates a flight: the stored multiset grows by exactly the ingested flights, so the bucket lengths add up to the number of flights |
| `Aggregation.EndpointsAppend` | map.js:70-71 | the codes of two lists together are the codes of each |
| `Aggregation.EndpointsSnoc` | map.js:70-71 | one more flight adds exactly its departure and arrival codes to the visited codes |
| `Aggregation.RouteCountSymmetric` | map.js:99 | the line count of a key with one separator equals the count of its reverse key |
| `Aggregation.RouteCountIngested` | map.js:99 | on a table built from a list, the count for the key of two codes is the number of flights from the first to the second plus the number from the second to the first |
| `Aggregation.SelfRouteCountedTwice` | map.js:99 | a route from an airport to itself is its own reverse, so its count is twice its bucket length |
| `Aggregation.OnRouteOpposite` | map.js:59-68 | filtering two outbound flights around one return flight by either key keeps the flights of that key in order |
| `Aggregation.OppositeFlights` | map.js:99 | two flights `a`→`b` around one `b`→`a`: both directions count 3, the reverse bucket holds the middle flight and the forward bucket the other two in order |
| `Aggregation.JfkLaxScenario` | map.js:99 | with JFK and LAX, both `JFK-LAX` and `LAX-JFK` count 3 |
| `FlightMap.FlightData.constructor` | map.js:1-3 | the airport lookup, the visited set and the route table start empty, and the invariant holds |
| `FlightMap.FlightData.BuildAirportData` | map.js:52-56 | the lookup becomes the old lookup with each airport recorded under its code in order; the invariant holds and the flight state is unchanged |
| `FlightMap.FlightData.BuildFlightData` | map.js:58-73 | the table becomes the old table with every flight ingested in order, the visited set gains exactly the flights' codes, the invariant holds and the airport lookup is unchanged |
| `FlightMap.FlightData.IngestFlight` | map.js:59-72 | one step of the loop: the table takes one ingestion step for the flight, and both of its codes are added to the visited set |
| `FlightMap.FlightData.DisplayFlights` | map.js:152-154 | the list is the ingested flights of the reverse key, then those of the key, each in input order, and its length equals the line count of `map.js:99` |

## Left out

- `getAndParseData`, `getFlights`, `getAirports` (map.js:10-50) are left out: network fetches, promises and console logging. The model's inputs are the two decoded lists.
- `plotAirports` and `plotPaths` (map.js:75-120) are left out: they make map-widget marker and polyline calls. Their one piece of logic, the count at map.js:99, is `RouteCount`. The stroke weight `numFlights * 2` is not modelled.
- `animateCircles` (map.js:122-136) is left out: it uses animation-frame timing and floating-point offsets.
- `flightTemplate` and the DOM parts of `displayFlights` (map.js:140-150, 156) are left out: text templating and node removal. Only the list assembly at map.js:152-154 is modelled.
- `getAirportLatLng` (map.js:160-163) is left out: it reads floating-point coordinates. The airport record keeps `lng` and `lat` as reals, but no lookup of them is modelled. The source throws when the code is missing.
- `airportMarkers` and `pathPolylines` are left out: they hold only widget objects.
- The reverse key computed at map.js:61 is not computed by the model. Only the commented-out branch at map.js:64-65 read it.
- `Keys.ReversePath` does not model the result `"undefined-<key>"` for a key without `-`. In the source that result comes from destructuring a one-piece split. The model requires a separator instead.
- There is no defined failure for a malformed key or a missing airport code. The source defines none, and the model follows the code.
- `Aggregation.RouteCount` reads the forward bucket as empty when the key is absent. The source evaluates the count only for keys the table holds.
- Lemmas about splitting and reversing keys require codes without `-`. A code containing `-` yields a key that does not split back into its two codes.
- The model does not cover iteration order of the maps and the set. It affects only the order in which markers and lines are drawn.
- The source mutates the bucket array in place with `push`. The model instead replaces the table entry with the extended sequence. No other reference to that array is kept, so the visible result is the same.
- The flight number is modelled as a string. Its type in the dataset is not shown in the source.
