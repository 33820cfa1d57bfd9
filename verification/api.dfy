/** The decisions the HTTP handlers make over the catalog and the store:
    the city page lookup, the route tracking page and the bus collection
    filter. Rendering and JSON encoding are not modelled. */
module Api {
  import opened Replies
  import opened RouteCatalog
  import opened Buses
  import opened Fleet

  /** `route_view`: the city group for a city key, or not-found. */
  function CityView(cat: Catalog, city: string): (r: Reply<CityGroup>)
    ensures r.Found? <==> HasCity(cat, city)
    ensures r.Found? ==> r.value in cat && r.value.key == city
  {
    if cat == [] then NotFound
    else if cat[0].key == city then Found(cat[0])
    else
      var r := CityView(cat[1..], city);
      assert forall g :: g in cat[1..] ==> g in cat;
      assert HasCity(cat[1..], city) <==> HasCity(cat, city);
      r
  }

  /** With city keys unique, the city page shows the one group with that key. */
  lemma CityViewIsTheGroup(cat: Catalog, g: CityGroup)
    requires UniqueCityKeys(cat) && g in cat
    ensures CityView(cat, g.key) == Found(g)
  {
  }

  /** What the route tracking page shows. */
  datatype TrackView = TrackView(route: Route, city: string, buses: Store)

  /** `track_route`: the first route with the id, its city, and the store's
      records on that route; not-found when no route carries the id. */
  method Track(cat: Catalog, store: Store, id: string) returns (r: Reply<TrackView>, ghost ci: int, ghost ri: int)
    ensures r.NotFound? <==> !HasRouteId(cat, id)
    ensures r.Found? ==> FirstMatchAt(cat, id, ci, ri)
                         && r.value.city == cat[ci].key && r.value.route == cat[ci].routes[ri]
    ensures r.Found? ==> r.value.buses == OnRoute(store, id)
  {
    var found;
    found, ci, ri := FindRoute(cat, id);
    match found
    case NotFound =>
      return NotFound, ci, ri;
    case Found(loc) =>
      return Found(TrackView(loc.route, loc.city, OnRoute(store, id))), ci, ri;
  }

  /** A query parameter filters only when present and non-empty, as Python's
      truth test on `request.args.get` decides. */
  predicate Given(p: Option<string>) {
    p.Some? && p.value != ""
  }

  /** The records of the store whose `city` is `city`. */
  function InCity(store: Store, city: string): (s: Store)
    ensures forall k :: k in s <==> k in store && store[k].city == city
    ensures forall k :: k in s ==> s[k] == store[k]
  {
    map k | k in store && store[k].city == city :: store[k]
  }

  /** `api_buses`: the store filtered first by city, then by route id. */
  function ListBuses(store: Store, city: Option<string>, routeId: Option<string>): (s: Store)
    ensures forall k :: k in s <==> k in store
                                    && (Given(city) ==> store[k].city == city.value)
                                    && (Given(routeId) ==> store[k].routeId == routeId.value)
    ensures forall k :: k in s ==> s[k] == store[k]
  {
    var byCity := if Given(city) then InCity(store, city.value) else store;
    if Given(routeId) then OnRoute(byCity, routeId.value) else byCity
  }

  /** Without filters the whole store is listed. */
  lemma ListWithoutFilters(store: Store, city: Option<string>, routeId: Option<string>)
    requires !Given(city) && !Given(routeId)
    ensures ListBuses(store, city, routeId) == store
  {
    var s := ListBuses(store, city, routeId);
    assert s.Keys == store.Keys;
  }

  /** Both filters together list the records each filter lists on its own. */
  lemma ListIsIntersection(store: Store, city: Option<string>, routeId: Option<string>)
    ensures ListBuses(store, city, routeId).Keys
            == ListBuses(store, city, None).Keys * ListBuses(store, None, routeId).Keys
  {
  }

  /** The route filter of the listing selects what the tracking page shows. */
  lemma ListByRouteIsTracked(store: Store, id: string)
    requires id != ""
    ensures ListBuses(store, None, Some(id)) == OnRoute(store, id)
  {
    assert ListBuses(store, None, Some(id)).Keys == OnRoute(store, id).Keys;
  }

  /** Listing by city only returns buses of routes of that city. */
  lemma ListByCityStaysInCity(cat: Catalog, store: Store, city: string)
    requires FleetInvariant(cat, store) && city != ""
    ensures forall k :: k in ListBuses(store, Some(city), None) ==>
              exists g, r :: g in cat && g.key == city && r in g.routes && store[k].routeId == r.id
  {
    forall k | k in ListBuses(store, Some(city), None)
      ensures exists g, r :: g in cat && g.key == city && r in g.routes && store[k].routeId == r.id
    {
      assert OnCatalogRoute(cat, k, store[k]);
    }
  }
}
