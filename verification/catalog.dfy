/** The static route catalog (`BUS_ROUTES`): city groups, each holding an ordered
    list of routes, each route an ordered list of stop names. */
module RouteCatalog {
  import opened Replies

  datatype Route = Route(id: string, name: string, stops: seq<string>)

  /** One entry of the catalog: the city key, its display name and its routes. */
  datatype CityGroup = CityGroup(key: string, name: string, routes: seq<Route>)

  /** The catalog keeps the order in which the city groups are listed. */
  type Catalog = seq<CityGroup>

  /** Where `track_route` found a route: the city key and the route itself. */
  datatype Located = Located(city: string, route: Route)

  const BusRoutes: Catalog := [
    CityGroup("trichy", "Trichy", [
      Route("T1", "Trichy - Central Station", ["Central Bus Stand", "Railway Station", "Airport", "BHEL Township"]),
      Route("T2", "Trichy - Srirangam", ["Central Bus Stand", "Srirangam Temple", "Rockfort", "Main Guard Gate"]),
      Route("T3", "Trichy - Airport", ["Central Bus Stand", "Airport", "BHEL Township", "Thanjavur Road"])
    ]),
    CityGroup("coimbatore", "Coimbatore", [
      Route("C1", "Trichy - Coimbatore", ["Trichy Central", "Karur", "Erode", "Coimbatore Central"]),
      Route("C2", "Coimbatore - Mettupalayam", ["Coimbatore Central", "Gandhipuram", "Mettupalayam"])
    ]),
    CityGroup("chennai", "Chennai", [
      Route("CH1", "Trichy - Chennai", ["Trichy Central", "Villupuram", "Chengalpattu", "Chennai Central"]),
      Route("CH2", "Chennai - Airport", ["Chennai Central", "T.Nagar", "Airport"])
    ]),
    CityGroup("trichy_areas", "Inside Trichy Areas", [
      Route("TA1", "Central - Srirangam", ["Central Bus Stand", "Woraiyur", "Srirangam", "Tiruvanaikoil"]),
      Route("TA2", "Central - Rockfort", ["Central Bus Stand", "Main Guard Gate", "Rockfort", "Chathiram Bus Stand"]),
      Route("TA3", "Central - BHEL", ["Central Bus Stand", "BHEL Township", "Thuvakudi", "Golden Rock"]),
      Route("TA4", "Central - Airport", ["Central Bus Stand", "Airport", "Thanjavur Road", "Ponmalai"])
    ])
  ]

  /** Some city group of the catalog carries the key `city`. */
  predicate HasCity(cat: Catalog, city: string) {
    exists g :: g in cat && g.key == city
  }

  /** Some route of some city group carries the id `id`. */
  predicate HasRouteId(cat: Catalog, id: string) {
    exists g, r :: g in cat && r in g.routes && r.id == id
  }

  /** City keys are dictionary keys: no two groups share one. */
  predicate UniqueCityKeys(cat: Catalog) {
    forall g, h :: g in cat && h in cat && g.key == h.key ==> g == h
  }

  /** A route id names one route of one city group. */
  predicate UniqueRouteIds(cat: Catalog) {
    forall g, r, h, s :: g in cat && r in g.routes && h in cat && s in h.routes && r.id == s.id ==> g == h && r == s
  }

  /** Every route has at least one stop. */
  predicate NonEmptyStops(cat: Catalog) {
    forall g, r :: g in cat && r in g.routes ==> |r.stops| > 0
  }

  /** Position (ci, ri) holds the first route with id `id` when scanning the
      city groups in order and, within a group, the routes in order. */
  predicate FirstMatchAt(cat: Catalog, id: string, ci: int, ri: int) {
    && 0 <= ci < |cat|
    && 0 <= ri < |cat[ci].routes|
    && cat[ci].routes[ri].id == id
    && (forall cj, rj :: 0 <= cj < ci && 0 <= rj < |cat[cj].routes| ==> cat[cj].routes[rj].id != id)
    && (forall rj :: 0 <= rj < ri ==> cat[ci].routes[rj].id != id)
  }

  /** The route search of `track_route`: cities in order, then routes in order,
      the first route whose id equals `id` wins. */
  method FindRoute(cat: Catalog, id: string) returns (r: Reply<Located>, ghost ci: int, ghost ri: int)
    ensures r.NotFound? <==> !HasRouteId(cat, id)
    ensures r.Found? ==> FirstMatchAt(cat, id, ci, ri) && r.value == Located(cat[ci].key, cat[ci].routes[ri])
  {
    var c := 0;
    while c < |cat|
      invariant 0 <= c <= |cat|
      invariant forall cj, rj :: 0 <= cj < c && 0 <= rj < |cat[cj].routes| ==> cat[cj].routes[rj].id != id
    {
      var routes := cat[c].routes;
      var k := 0;
      while k < |routes|
        invariant 0 <= k <= |routes|
        invariant forall rj :: 0 <= rj < k ==> routes[rj].id != id
      {
        if routes[k].id == id {
          return Found(Located(cat[c].key, routes[k])), c, k;
        }
        k := k + 1;
      }
      c := c + 1;
    }
    return NotFound, 0, 0;
  }

  /** With unique route ids the first match is the one route carrying the id. */
  lemma FirstMatchIsTheRoute(cat: Catalog, id: string, ci: int, ri: int, g: CityGroup, r: Route)
    requires UniqueRouteIds(cat)
    requires FirstMatchAt(cat, id, ci, ri)
    requires g in cat && r in g.routes && r.id == id
    ensures cat[ci] == g && cat[ci].routes[ri] == r
  {
    assert cat[ci] in cat && cat[ci].routes[ri] in cat[ci].routes;
  }

  /** Every route of the literal catalog has stops. */
  lemma BusRoutesNonEmptyStops()
    ensures NonEmptyStops(BusRoutes)
  {
  }

  /** The literal catalog's city keys are distinct. */
  lemma BusRoutesUniqueCityKeys()
    ensures UniqueCityKeys(BusRoutes)
  {
  }

  /** The literal catalog's route ids are distinct. */
  lemma BusRoutesUniqueRouteIds()
    ensures UniqueRouteIds(BusRoutes)
  {
    BusRoutesHomes();
    BusRoutesUniqueCityKeys();
    UniqueIdsFromHomes(BusRoutes, HomeOf);
  }

  lemma BusRoutesHomes()
    ensures forall g, r :: g in BusRoutes && r in g.routes ==> HomeOf(r.id) == Found(Located(g.key, r))
  {
    forall g, r | g in BusRoutes && r in g.routes
      ensures HomeOf(r.id) == Found(Located(g.key, r))
    {
      GroupHomes(IndexOf(g), r);
    }
  }

  /** A catalog whose route ids each determine their home has unique route ids. */
  lemma UniqueIdsFromHomes(cat: Catalog, home: string -> Reply<Located>)
    requires forall g, r :: g in cat && r in g.routes ==> home(r.id) == Found(Located(g.key, r))
    requires UniqueCityKeys(cat)
    ensures UniqueRouteIds(cat)
  {
  }

  /** The position of a city group in the literal catalog. */
  function IndexOf(g: CityGroup): (k: int)
    requires g in BusRoutes
    ensures 0 <= k < |BusRoutes| && BusRoutes[k] == g
  {
    if g == BusRoutes[0] then 0
    else if g == BusRoutes[1] then 1
    else if g == BusRoutes[2] then 2
    else 3
  }

  lemma GroupHomes(k: int, r: Route)
    requires 0 <= k < |BusRoutes| && r in BusRoutes[k].routes
    ensures HomeOf(r.id) == Found(Located(BusRoutes[k].key, r))
  {
    if k == 0 {
    } else if k == 1 {
    } else if k == 2 {
    } else {
    }
  }

  /** The city key and route that each route id of the literal catalog
      names; not-found for any other id. */
  function HomeOf(id: string): Reply<Located>
  {
    var t := BusRoutes[0].routes;
    var c := BusRoutes[1].routes;
    var ch := BusRoutes[2].routes;
    var ta := BusRoutes[3].routes;
    if id == "T1" then Found(Located("trichy", t[0]))
    else if id == "T2" then Found(Located("trichy", t[1]))
    else if id == "T3" then Found(Located("trichy", t[2]))
    else if id == "C1" then Found(Located("coimbatore", c[0]))
    else if id == "C2" then Found(Located("coimbatore", c[1]))
    else if id == "CH1" then Found(Located("chennai", ch[0]))
    else if id == "CH2" then Found(Located("chennai", ch[1]))
    else if id == "TA1" then Found(Located("trichy_areas", ta[0]))
    else if id == "TA2" then Found(Located("trichy_areas", ta[1]))
    else if id == "TA3" then Found(Located("trichy_areas", ta[2]))
    else if id == "TA4" then Found(Located("trichy_areas", ta[3]))
    else NotFound
  }
}
