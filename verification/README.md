# Bus tracker fleet model

A Dafny model of the simulated fleet state of the Bus-Tracker demo web
application (`app.py`). The application keeps a static catalog of city groups
and routes (`BUS_ROUTES`), creates three simulated buses per route at start-up
(`initialize_bus_locations`), moves a bus one stop forward with a 30% chance
whenever its detail endpoint is read (`api_bus_detail`), lists the store
filtered by city and route id (`api_buses`), looks a route up across all
cities for the tracking page (`track_route`) and checks a city key for the
city page (`route_view`).

The model is functional: the store is a `map<string, Bus>` passed in and
returned, records are immutable datatypes, and every random draw or clock
reading is an explicit argument constrained to the range the source's call
yields:

- `random.random() < 0.3`, the new ETA and the new time stamp of a detail
  request are one `Move`: `Stay` (flip failed) or `Go(eta, stamp)`, with
  `2 <= eta <= 15` (`ValidMove`);
- the stop index, ETA, status and time stamp drawn for each bus at start-up
  are `draw(busId)`, with the index a valid stop index of the bus's route and
  the ETA in `[2, 15]` (`ValidDraws`); the status is a three-valued datatype,
  so `random.choice` needs no constraint;
- time stamps are opaque strings.

Files and modules:

- `replies.dfy` (`Replies`): the found/not-found reply and the optional query
  parameter.
- `catalog.dfy` (`RouteCatalog`): routes, city groups, the literal catalog,
  the route search of the tracking page, and the well-formedness facts of the
  literal catalog (non-empty stop lists, unique city keys, unique route ids).
- `bus.dfy` (`Buses`): the bus record, its validity invariant, the simulation
  step and runs of steps, with the cycling lemmas.
- `fleet.dfy` (`Fleet`): bus ids, start-up initialisation, the detail request,
  sequences of detail requests, and the fleet invariant they keep.
- `api.dfy` (`Api`): the city page lookup, the tracking page and the bus
  collection filter.
- `startup.dfy` (`Startup`): the same facts instantiated on the literal
  catalog.

`random.randint(0, len(stops) - 1)` includes both ends, so any valid stop
index can be drawn at start-up.

Python's `%` floors and Dafny's is Euclidean; they agree here because every
operand (`index + 1`, the number of stops) is non-negative.

## Model

| member | source | states |
|---|---|---|
| RouteCatalog.FindRoute | app.py:86-98 | Not-found exactly when no route of any city carries the id; otherwise the route and city key at the first matching position, scanning cities in order and routes within a city in order |
| RouteCatalog.FirstMatchIsTheRoute | app.py:88-95 | When route ids are unique, the first match of the search is the one route with that id, in its own city |
| RouteCatalog.BusRoutesNonEmptyStops | app.py:9-41 | Every route of the literal catalog has at least one stop |
| RouteCatalog.BusRoutesUniqueCityKeys | app.py:9-41 | The literal catalog's city keys are pairwise distinct |
| RouteCatalog.BusRoutesUniqueRouteIds | app.py:9-41 | A route id of the literal catalog names exactly one route in exactly one city |
| Buses.Step | app.py:130-139 | A failed flip leaves the record unchanged; a successful one yields a valid record (index in range, current and next stop derived from it, ETA in range), moves the index to its successor modulo the stop count (to 0 from an index past the end), sets the drawn ETA and time stamp, and keeps route id, route name, stops, city and status |
| Buses.StepMany | app.py:128-141 | Repeated requests keep route data and status; with no successful flip the record is unchanged, and after any successful flip (or from a valid record) it is valid |
| Buses.StepManyIndex | app.py:131-135 | From a valid index i, the index after a run of requests is (i + number of successful flips) mod the stop count |
| Buses.AlwaysGoAdvancesByCount | app.py:131-135 | With every flip succeeding, n requests take index i to (i + n) mod the stop count |
| Buses.EveryStopReached | app.py:131-137 | From a valid record, every stop j is reached (index and current stop) after (j - i) mod the stop count successful requests: the index cycles through all stops |
| Fleet.BusKey | app.py:51 | A bus id is the route id, a dash, and one character for the instance number |
| Fleet.BusKeyInjective | app.py:50-51 | Two bus ids are equal exactly when route id and instance number are equal |
| Fleet.NewBus | app.py:53-65 | A record created from fitting draws is valid and carries the route's id, name and stops, the city key and the drawn index, ETA, status and time stamp |
| Fleet.PlaceRoute | app.py:50-65 | Writing a route's three buses adds exactly that route's three ids, stores at each the record drawn for it, and leaves every other entry unchanged |
| Fleet.PlaceRoutesKeys | app.py:49-65 | After placing a city's routes, the store holds the earlier ids plus exactly the bus ids of those routes |
| Fleet.PlaceRoutesValues | app.py:49-65 | After placing a city's routes, each entry is the earlier one or the record drawn for one of those routes |
| Fleet.PlaceCitiesSpec | app.py:48-65 | After placing city groups, the store holds the earlier ids plus exactly the bus ids of their routes, each entry the earlier one or a record drawn for one of their routes in its own city |
| Fleet.InitialFleet | app.py:46-65 | The start-up store holds exactly the ids route-id-dash-1..3 of every catalog route, each record drawn for one of its catalog routes |
| Fleet.InitialRecord | app.py:48-65 | With unique route ids, the start-up record of instance i of route r is the record drawn for r in its own city |
| Fleet.InitialFleetInvariant | app.py:46-65 | The start-up store satisfies the fleet invariant: exactly the catalog's bus ids, each record valid and carrying its route's data and city key |
| Fleet.Detail | app.py:122-141 | An unknown id gets not-found with the store unchanged; a known id is stepped and returned; a failed flip changes nothing; no id is added or removed and no other record changes |
| Fleet.StepStaysOnRoute | app.py:130-139 | A step keeps a valid record valid and on the catalog route its id belongs to |
| Fleet.DetailPreservesInvariant | app.py:121-141 | A detail request keeps the fleet invariant |
| Fleet.Run | app.py:121-141 | Any sequence of detail requests keeps the set of bus ids |
| Fleet.RunPreservesInvariant | app.py:121-141 | Any sequence of detail requests keeps the fleet invariant |
| Fleet.RunKeepsThreeBuses | app.py:46-65 | For any catalog, after start-up and any sequence of detail requests, every catalog route has exactly three buses |
| Fleet.OnRoute | app.py:101 | The selection holds exactly the store's entries whose route id matches, with their records |
| Fleet.RouteHasThreeBuses | app.py:48-51 | Under the fleet invariant, a catalog route has exactly its three bus ids in the store, and an id no route carries has none |
| Fleet.UnknownRouteHasNoBus | app.py:124-125 | Under the fleet invariant, no bus id of a route missing from the catalog is in the store |
| Fleet.KeyOfSameRoute | app.py:51 | A bus id belongs to the buses of at most one route id |
| Fleet.PollingStepsOneBus | app.py:121-141 | Polling one bus n times steps it once per request and leaves every other record as it was |
| Api.CityView | app.py:76-80 | Found exactly when some city group has the key, and then a group of the catalog with that key |
| Api.CityViewIsTheGroup | app.py:78-80 | With unique city keys, the city page shows the group with that key |
| Api.Track | app.py:82-103 | Not-found exactly when no route has the id; otherwise the first matching route and its city, with exactly the store's records on that route |
| Api.InCity | app.py:114 | The selection holds exactly the store's entries whose city matches, with their records |
| Api.ListBuses | app.py:106-119 | The listing is a sub-map of the store holding exactly the entries matching the city when a non-empty city is given and the route id when a non-empty route id is given |
| Api.ListWithoutFilters | app.py:111-119 | With no non-empty filter the listing is the whole store |
| Api.ListIsIntersection | app.py:113-117 | Both filters together list the intersection of what each lists alone |
| Api.ListByRouteIsTracked | app.py:116-117 | Listing by a non-empty route id gives exactly the records the tracking page selects |
| Api.ListByCityStaysInCity | app.py:113-114 | Under the fleet invariant, every bus listed for a city rides a route of that city's group |
| Startup.FirstStopDrawsFit | app.py:53 | Draws placing every bus at its first stop fit the literal catalog, so start-up can run on it |
| Startup.RoutesKeepThreeBuses | app.py:48-68 | On the literal catalog, after start-up and any sequence of detail requests, each route has exactly three buses |
| Startup.T1IsTracked | app.py:88-93 | Route T1 is the first match for id T1, found in city trichy |
| Startup.UnknownBusNotFound | app.py:124-125 | Bus UNKNOWN-1 is not in the start-up store and its detail request is answered not-found |
| Startup.CityPages | app.py:78-80 | The city page is found exactly for the four catalog city keys |

## Left out

- Flask routing, `render_template`, `jsonify` and HTTP status codes: the model keeps only the found/not-found outcome of each handler.
- The home page (`index`): it renders the catalog and makes no decision.
- `random.randint`, `random.choice`, `random.random` and `datetime.now`: replaced by explicit, range-constrained arguments; probabilities (the 30% flip, uniform choices) are not modelled.
- Insertion order of Python dictionaries: the store is a map, so the listing and the tracking page's bus list are modelled as maps keyed by bus id, without order.
- Process-wide mutable state and multi-worker deployment: the store is a value passed in and returned.
- InitialFleet: a catalog route with no stops makes the source's `random.randint(0, -1)` raise; the model's draw constraint excludes such catalogs instead of modelling the exception (the literal catalog has none).
- InitialFleet: the draws are a function of the bus id; with duplicate route ids the source draws again for the overwriting record, which the model's single draw per id does not distinguish (the literal catalog has unique ids).
- Step: the model requires a non-empty stop list and a non-negative index when the flip succeeds. On an empty stop list the source raises `IndexError` when it reads the first stop; start-up already raises for such a route, so no reachable record has one. A negative index is never produced by start-up; it would reach Python's negative indexing.
- Track: the source tests `if route_info:`, which is always true for a found route dictionary; the model treats every found route as found.
