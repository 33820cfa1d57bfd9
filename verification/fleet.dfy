/** The fleet state store: the map from bus id to bus record, its
    initialisation from the catalog and the detail request that advances one
    bus. */
module Fleet {
  import opened Replies
  import opened RouteCatalog
  import opened Buses

  type Store = map<string, Bus>

  /** The decimal text of a one-digit instance number. */
  function InstanceLabel(i: int): (s: string)
    requires 1 <= i <= 9
    ensures |s| == 1 && s[0] as int == '0' as int + i
  {
    [('0' as int + i) as char]
  }

  /** The bus id `"{route_id}-{i}"` of instance `i` of a route. */
  function BusKey(routeId: string, i: int): (k: string)
    requires 1 <= i <= 3
    ensures |k| == |routeId| + 2 && k[..|routeId|] == routeId && k[|routeId|] == '-'
    ensures k[|routeId| + 1] as int == '0' as int + i
  {
    routeId + "-" + InstanceLabel(i)
  }

  /** The last character of a bus id is the instance digit "1", "2" or "3". */
  lemma BusKeyDigit(routeId: string, i: int)
    requires 1 <= i <= 3
    ensures BusKey(routeId, i)[|routeId| + 1] == "123"[i - 1]
  {
  }

  /** Bus ids name their route and instance: different pairs give different ids. */
  lemma BusKeyInjective(a: string, i: int, b: string, j: int)
    requires 1 <= i <= 3 && 1 <= j <= 3
    ensures BusKey(a, i) == BusKey(b, j) <==> a == b && i == j
  {
    if BusKey(a, i) == BusKey(b, j) {
      var k := BusKey(a, i);
      assert a == k[..|a|] == b;
      assert k[|a| + 1] == InstanceLabel(i)[0] == InstanceLabel(j)[0];
    }
  }

  /** `k` is the id of one of the three buses of route `id`. */
  predicate IsKeyOf(id: string, k: string) {
    k == BusKey(id, 1) || k == BusKey(id, 2) || k == BusKey(id, 3)
  }

  lemma InstanceKeyIsKeyOf(id: string, i: int)
    requires 1 <= i <= 3
    ensures IsKeyOf(id, BusKey(id, i))
  {
    if i == 1 {
    } else if i == 2 {
    } else {
    }
  }

  /** `k` is the id of a bus of some route of the catalog. */
  predicate IsFleetKey(cat: Catalog, k: string) {
    exists g, r :: g in cat && r in g.routes && IsKeyOf(r.id, k)
  }

  /** The random draws made for one bus at start-up: `random.randint` for the
      stop index and the ETA, `random.choice` for the status, and the clock. */
  datatype Draw = Draw(stopIndex: int, eta: int, status: Status, stamp: Timestamp)

  /** The draws lie in the ranges `random.randint` yields for route `r`. */
  predicate Fits(d: Draw, r: Route) {
    0 <= d.stopIndex < |r.stops| && ValidEta(d.eta)
  }

  /** The draws for every bus of the catalog fit the bus's route. */
  predicate ValidDraws(cat: Catalog, draw: string -> Draw) {
    forall g, r, i :: g in cat && r in g.routes && 1 <= i <= 3 ==> Fits(draw(BusKey(r.id, i)), r)
  }

  /** A new bus record for route `r` of city `city`. */
  function NewBus(city: string, r: Route, d: Draw): (b: Bus)
    requires Fits(d, r)
    ensures Valid(b)
    ensures b.routeId == r.id && b.routeName == r.name && b.stops == r.stops && b.city == city
    ensures b.currentStopIndex == d.stopIndex && b.eta == d.eta
    ensures b.status == d.status && b.lastUpdated == d.stamp
  {
    var i := d.stopIndex;
    Bus(r.id, r.name, r.stops[i], i, r.stops[(i + 1) % |r.stops|], r.stops, city, d.eta, d.status, d.stamp)
  }

  /** The three buses of one route, written into the store in instance order
      (a later write to the same id replaces the earlier one). */
  function PlaceRoute(city: string, r: Route, draw: string -> Draw, acc: Store): (s: Store)
    requires forall i :: 1 <= i <= 3 ==> Fits(draw(BusKey(r.id, i)), r)
    ensures forall k :: k in s <==> k in acc || IsKeyOf(r.id, k)
    ensures forall k :: k in s && IsKeyOf(r.id, k) ==> s[k] == NewBus(city, r, draw(k))
    ensures forall k :: k in s && !IsKeyOf(r.id, k) ==> s[k] == acc[k]
  {
    var k1 := BusKey(r.id, 1);
    var k2 := BusKey(r.id, 2);
    var k3 := BusKey(r.id, 3);
    acc[k1 := NewBus(city, r, draw(k1))][k2 := NewBus(city, r, draw(k2))][k3 := NewBus(city, r, draw(k3))]
  }

  /** The routes of one city group, in order. */
  function PlaceRoutes(city: string, rs: seq<Route>, draw: string -> Draw, acc: Store): Store
    requires forall r, i :: r in rs && 1 <= i <= 3 ==> Fits(draw(BusKey(r.id, i)), r)
    decreases |rs|
  {
    if rs == [] then acc
    else PlaceRoutes(city, rs[1..], draw, PlaceRoute(city, rs[0], draw, acc))
  }

  /** The city groups, in catalog order. */
  function PlaceCities(cs: Catalog, draw: string -> Draw, acc: Store): Store
    requires ValidDraws(cs, draw)
    decreases |cs|
  {
    if cs == [] then acc
    else
      assert forall r, i :: r in cs[0].routes && 1 <= i <= 3 ==> Fits(draw(BusKey(r.id, i)), r) by {
        assert cs[0] in cs;
      }
      PlaceCities(cs[1..], draw, PlaceRoutes(cs[0].key, cs[0].routes, draw, acc))
  }

  /** `initialize_bus_locations`: three buses per route of the catalog. */
  function InitialFleet(cat: Catalog, draw: string -> Draw): (s: Store)
    requires ValidDraws(cat, draw)
    ensures forall k :: k in s <==> IsFleetKey(cat, k)
    ensures forall k :: k in s ==> Drawn(cat, draw, k, s[k])
  {
    PlaceCitiesSpec(cat, draw, map[]);
    PlaceCities(cat, draw, map[])
  }

  /** `b` is the record built at start-up for id `k` from a route of the catalog. */
  predicate Drawn(cat: Catalog, draw: string -> Draw, k: string, b: Bus) {
    exists g, r :: g in cat && r in g.routes && IsKeyOf(r.id, k) && Fits(draw(k), r)
                   && b == NewBus(g.key, r, draw(k))
  }

  /** `b` is the record built at start-up for id `k` from a route of city `city`. */
  predicate DrawnIn(city: string, rs: seq<Route>, draw: string -> Draw, k: string, b: Bus) {
    exists r :: r in rs && IsKeyOf(r.id, k) && Fits(draw(k), r) && b == NewBus(city, r, draw(k))
  }

  /** Placing routes adds exactly the ids of their buses. */
  lemma {:induction false} PlaceRoutesKeys(city: string, rs: seq<Route>, draw: string -> Draw, acc: Store)
    requires forall r, i :: r in rs && 1 <= i <= 3 ==> Fits(draw(BusKey(r.id, i)), r)
    ensures forall k :: k in PlaceRoutes(city, rs, draw, acc) <==>
              k in acc || exists r :: r in rs && IsKeyOf(r.id, k)
    decreases |rs|
  {
    if rs != [] {
      var r0 := rs[0];
      var acc1 := PlaceRoute(city, r0, draw, acc);
      assert forall r :: r in rs[1..] ==> r in rs;
      PlaceRoutesKeys(city, rs[1..], draw, acc1);
      var res := PlaceRoutes(city, rs, draw, acc);
      assert res == PlaceRoutes(city, rs[1..], draw, acc1);
      forall k
        ensures k in res <==> k in acc || exists r :: r in rs && IsKeyOf(r.id, k)
      {
        RouteStepKey(rs, acc, acc1, res, k);
      }
    }
  }

  /** One id of the store after placing `rs`, given what placing the first
      route and then the rest each add. */
  lemma RouteStepKey(rs: seq<Route>, acc: Store, acc1: Store, res: Store, k: string)
    requires rs != []
    requires k in acc1 <==> k in acc || IsKeyOf(rs[0].id, k)
    requires k in res <==> k in acc1 || exists r :: r in rs[1..] && IsKeyOf(r.id, k)
    ensures k in res <==> k in acc || exists r :: r in rs && IsKeyOf(r.id, k)
  {
    if k in res && k !in acc {
      if k in acc1 {
        assert rs[0] in rs;
      } else {
        var r :| r in rs[1..] && IsKeyOf(r.id, k);
        assert r in rs;
      }
    }
    if k !in acc && exists r :: r in rs && IsKeyOf(r.id, k) {
      var r :| r in rs && IsKeyOf(r.id, k);
      if r != rs[0] {
        assert r in rs[1..];
      }
    }
  }

  /** Placing routes keeps the accumulator's records or writes records drawn
      for one of the routes. */
  lemma {:induction false} PlaceRoutesValues(city: string, rs: seq<Route>, draw: string -> Draw, acc: Store)
    requires forall r, i :: r in rs && 1 <= i <= 3 ==> Fits(draw(BusKey(r.id, i)), r)
    ensures forall k :: k in PlaceRoutes(city, rs, draw, acc) ==>
              (k in acc && PlaceRoutes(city, rs, draw, acc)[k] == acc[k])
              || DrawnIn(city, rs, draw, k, PlaceRoutes(city, rs, draw, acc)[k])
    decreases |rs|
  {
    if rs != [] {
      assert forall r :: r in rs[1..] ==> r in rs;
      PlaceRoutesValues(city, rs[1..], draw, PlaceRoute(city, rs[0], draw, acc));
      forall k | k in PlaceRoutes(city, rs, draw, acc)
        ensures (k in acc && PlaceRoutes(city, rs, draw, acc)[k] == acc[k])
                || DrawnIn(city, rs, draw, k, PlaceRoutes(city, rs, draw, acc)[k])
      {
        RouteStepValue(city, rs, draw, acc, k);
      }
    }
  }

  /** One value of the store after placing `rs`: from the accumulator, from
      the first route, or from a later one. */
  lemma RouteStepValue(city: string, rs: seq<Route>, draw: string -> Draw, acc: Store, k: string)
    requires rs != []
    requires forall r, i :: r in rs && 1 <= i <= 3 ==> Fits(draw(BusKey(r.id, i)), r)
    requires k in PlaceRoutes(city, rs, draw, acc)
    requires forall k :: k in PlaceRoutes(city, rs[1..], draw, PlaceRoute(city, rs[0], draw, acc)) ==>
              (k in PlaceRoute(city, rs[0], draw, acc)
               && PlaceRoutes(city, rs[1..], draw, PlaceRoute(city, rs[0], draw, acc))[k] == PlaceRoute(city, rs[0], draw, acc)[k])
              || DrawnIn(city, rs[1..], draw, k, PlaceRoutes(city, rs[1..], draw, PlaceRoute(city, rs[0], draw, acc))[k])
    ensures (k in acc && PlaceRoutes(city, rs, draw, acc)[k] == acc[k])
            || DrawnIn(city, rs, draw, k, PlaceRoutes(city, rs, draw, acc)[k])
  {
    var r0 := rs[0];
    var acc1 := PlaceRoute(city, r0, draw, acc);
    var res := PlaceRoutes(city, rs, draw, acc);
    assert res == PlaceRoutes(city, rs[1..], draw, acc1);
    if !(k in acc1 && res[k] == acc1[k]) {
      var r :| r in rs[1..] && IsKeyOf(r.id, k) && Fits(draw(k), r) && res[k] == NewBus(city, r, draw(k));
      assert r in rs;
    } else if IsKeyOf(r0.id, k) {
      assert res[k] == NewBus(city, r0, draw(k));
      assert r0 in rs;
      assert Fits(draw(k), r0);
    }
  }

  lemma {:induction false} PlaceCitiesSpec(cs: Catalog, draw: string -> Draw, acc: Store)
    requires ValidDraws(cs, draw)
    ensures forall k :: k in PlaceCities(cs, draw, acc) <==> k in acc || IsFleetKey(cs, k)
    ensures forall k :: k in PlaceCities(cs, draw, acc) ==>
              (k in acc && PlaceCities(cs, draw, acc)[k] == acc[k])
              || Drawn(cs, draw, k, PlaceCities(cs, draw, acc)[k])
    decreases |cs|
  {
    if cs != [] {
      var g0 := cs[0];
      assert g0 in cs;
      var acc1 := PlaceRoutes(g0.key, g0.routes, draw, acc);
      PlaceRoutesKeys(g0.key, g0.routes, draw, acc);
      PlaceRoutesValues(g0.key, g0.routes, draw, acc);
      assert forall g :: g in cs[1..] ==> g in cs;
      PlaceCitiesSpec(cs[1..], draw, acc1);
      var res := PlaceCities(cs, draw, acc);
      assert res == PlaceCities(cs[1..], draw, acc1);
      forall k
        ensures k in res <==> k in acc || IsFleetKey(cs, k)
      {
        if IsFleetKey(cs, k) && k !in acc {
          var g, r :| g in cs && r in g.routes && IsKeyOf(r.id, k);
          if g == g0 {
            assert k in acc1;
          } else {
            assert g in cs[1..];
          }
        }
      }
      forall k | k in res
        ensures (k in acc && res[k] == acc[k]) || Drawn(cs, draw, k, res[k])
      {
        if !(k in acc1 && res[k] == acc1[k]) {
          var g, r :| g in cs[1..] && r in g.routes && IsKeyOf(r.id, k) && Fits(draw(k), r)
                      && res[k] == NewBus(g.key, r, draw(k));
          assert g in cs;
        } else if !(k in acc && res[k] == acc[k]) {
          var r :| r in g0.routes && IsKeyOf(r.id, k) && Fits(draw(k), r) && res[k] == NewBus(g0.key, r, draw(k));
        }
      }
    }
  }

  /** With unique route ids, the record of instance `i` of route `r` is the
      one drawn for `r` itself, in its own city. */
  lemma InitialRecord(cat: Catalog, draw: string -> Draw, g: CityGroup, r: Route, i: int)
    requires ValidDraws(cat, draw) && UniqueRouteIds(cat)
    requires g in cat && r in g.routes && 1 <= i <= 3
    ensures BusKey(r.id, i) in InitialFleet(cat, draw)
    ensures InitialFleet(cat, draw)[BusKey(r.id, i)] == NewBus(g.key, r, draw(BusKey(r.id, i)))
  {
    var k := BusKey(r.id, i);
    var store := InitialFleet(cat, draw);
    InstanceKeyIsKeyOf(r.id, i);
    assert k in store;
    assert Drawn(cat, draw, k, store[k]);
    var h, s :| h in cat && s in h.routes && IsKeyOf(s.id, k) && Fits(draw(k), s)
                && store[k] == NewBus(h.key, s, draw(k));
    KeyOfSameRoute(s.id, r.id, k);
    assert h == g && s == r;
  }

  /** Record `b` under id `k` belongs to a route of the catalog: its id is
      one of that route's bus ids and it carries that route's data. */
  predicate OnCatalogRoute(cat: Catalog, k: string, b: Bus) {
    exists g, r :: g in cat && r in g.routes && IsKeyOf(r.id, k)
                   && b.routeId == r.id && b.routeName == r.name && b.stops == r.stops && b.city == g.key
  }

  /** What holds of the store at every moment: exactly the catalog's bus ids,
      each record positioned on its own route. */
  ghost predicate FleetInvariant(cat: Catalog, store: Store) {
    && (forall k :: k in store <==> IsFleetKey(cat, k))
    && (forall k :: k in store ==> Valid(store[k]) && OnCatalogRoute(cat, k, store[k]))
  }

  lemma InitialFleetInvariant(cat: Catalog, draw: string -> Draw)
    requires ValidDraws(cat, draw)
    ensures FleetInvariant(cat, InitialFleet(cat, draw))
  {
    var store := InitialFleet(cat, draw);
    forall k | k in store
      ensures Valid(store[k]) && OnCatalogRoute(cat, k, store[k])
    {
      var g, r :| g in cat && r in g.routes && IsKeyOf(r.id, k) && Fits(draw(k), r)
                  && store[k] == NewBus(g.key, r, draw(k));
    }
  }

  /** The reply of the bus detail endpoint, together with the store after it. */
  datatype Response = Response(store: Store, reply: Reply<Bus>)

  /** `api_bus_detail`: an unknown id is answered with not-found before any
      draw; a known bus takes one simulation step and is returned. */
  function Detail(store: Store, id: string, m: Move): (out: Response)
    requires ValidMove(m)
    requires id in store && m.Go? ==> Steppable(store[id])
    ensures out.store.Keys == store.Keys
    ensures id !in store ==> out == Response(store, NotFound)
    ensures m.Stay? ==> out.store == store
    ensures id in store ==> out.reply == Found(out.store[id]) && out.store[id] == Step(store[id], m)
    ensures forall k :: k in store && k != id ==> out.store[k] == store[k]
  {
    if id !in store then Response(store, NotFound)
    else
      var b := Step(store[id], m);
      Response(store[id := b], Found(b))
  }

  lemma DetailPreservesInvariant(cat: Catalog, store: Store, id: string, m: Move)
    requires FleetInvariant(cat, store) && ValidMove(m)
    ensures FleetInvariant(cat, Detail(store, id, m).store)
  {
    var after := Detail(store, id, m).store;
    if id in store {
      StepStaysOnRoute(cat, id, store[id], m);
      forall k | k in after
        ensures Valid(after[k]) && OnCatalogRoute(cat, k, after[k])
      {
        if k != id {
          assert after[k] == store[k];
        }
      }
    }
  }

  /** A step keeps a valid record valid and on the route it was on. */
  lemma StepStaysOnRoute(cat: Catalog, k: string, b: Bus, m: Move)
    requires Valid(b) && OnCatalogRoute(cat, k, b) && ValidMove(m)
    ensures Valid(Step(b, m)) && OnCatalogRoute(cat, k, Step(b, m))
  {
    var c := Step(b, m);
    var g, r :| g in cat && r in g.routes && IsKeyOf(r.id, k)
                && b.routeId == r.id && b.routeName == r.name && b.stops == r.stops && b.city == g.key;
    assert c.routeId == r.id && c.routeName == r.name && c.stops == r.stops && c.city == g.key;
  }

  /** One call of the bus detail endpoint with the draws it made. */
  datatype Request = Request(busId: string, move: Move)

  predicate AllSteppable(store: Store) {
    forall k :: k in store ==> Steppable(store[k])
  }

  /** The store after a sequence of bus detail requests, in order. */
  function Run(store: Store, reqs: seq<Request>): (s: Store)
    requires AllSteppable(store)
    requires forall q :: q in reqs ==> ValidMove(q.move)
    ensures s.Keys == store.Keys && AllSteppable(s)
    decreases |reqs|
  {
    if reqs == [] then store
    else Run(Detail(store, reqs[0].busId, reqs[0].move).store, reqs[1..])
  }

  lemma {:induction false} RunPreservesInvariant(cat: Catalog, store: Store, reqs: seq<Request>)
    requires FleetInvariant(cat, store)
    requires forall q :: q in reqs ==> ValidMove(q.move)
    ensures AllSteppable(store)
    ensures FleetInvariant(cat, Run(store, reqs))
    decreases |reqs|
  {
    if reqs != [] {
      DetailPreservesInvariant(cat, store, reqs[0].busId, reqs[0].move);
      assert forall q :: q in reqs[1..] ==> q in reqs;
      RunPreservesInvariant(cat, Detail(store, reqs[0].busId, reqs[0].move).store, reqs[1..]);
    }
  }

  /** The records of the store whose `route_id` is `id`. */
  function OnRoute(store: Store, id: string): (s: Store)
    ensures forall k :: k in s <==> k in store && store[k].routeId == id
    ensures forall k :: k in s ==> s[k] == store[k]
  {
    map k | k in store && store[k].routeId == id :: store[k]
  }

  /** From start-up through any sequence of detail requests, every route of
      the catalog has exactly three buses. */
  lemma RunKeepsThreeBuses(cat: Catalog, draw: string -> Draw, reqs: seq<Request>)
    requires ValidDraws(cat, draw)
    requires forall q :: q in reqs ==> ValidMove(q.move)
    ensures AllSteppable(InitialFleet(cat, draw))
    ensures forall id :: HasRouteId(cat, id) ==> |OnRoute(Run(InitialFleet(cat, draw), reqs), id)| == 3
  {
    var store := InitialFleet(cat, draw);
    InitialFleetInvariant(cat, draw);
    RunPreservesInvariant(cat, store, reqs);
    forall id | HasRouteId(cat, id)
      ensures |OnRoute(Run(store, reqs), id)| == 3
    {
      RouteHasThreeBuses(cat, Run(store, reqs), id);
    }
  }

  /** At every moment each route of the catalog has exactly its three buses,
      and an id that no route carries has none. */
  lemma RouteHasThreeBuses(cat: Catalog, store: Store, id: string)
    requires FleetInvariant(cat, store)
    ensures HasRouteId(cat, id) ==> OnRoute(store, id).Keys == {BusKey(id, 1), BusKey(id, 2), BusKey(id, 3)}
    ensures HasRouteId(cat, id) ==> |OnRoute(store, id)| == 3
    ensures !HasRouteId(cat, id) ==> OnRoute(store, id) == map[]
  {
    SelectedAreRouteBuses(cat, store, id);
    if HasRouteId(cat, id) {
      RouteBusesAreSelected(cat, store, id);
      ThreeBusKeys(id);
    } else {
      assert OnRoute(store, id).Keys == {};
    }
  }

  /** A record on route `id` sits under one of that route's bus ids, and
      the route is in the catalog. */
  lemma SelectedAreRouteBuses(cat: Catalog, store: Store, id: string)
    requires FleetInvariant(cat, store)
    ensures forall k :: k in OnRoute(store, id) ==> IsKeyOf(id, k) && HasRouteId(cat, id)
  {
    forall k | k in OnRoute(store, id)
      ensures IsKeyOf(id, k) && HasRouteId(cat, id)
    {
      assert OnCatalogRoute(cat, k, store[k]);
      var g, r :| g in cat && r in g.routes && IsKeyOf(r.id, k) && store[k].routeId == r.id;
    }
  }

  /** Each of the three bus ids of a catalog route holds a record on that route. */
  lemma RouteBusesAreSelected(cat: Catalog, store: Store, id: string)
    requires FleetInvariant(cat, store) && HasRouteId(cat, id)
    ensures forall k :: IsKeyOf(id, k) ==> k in OnRoute(store, id)
  {
    var g, r :| g in cat && r in g.routes && r.id == id;
    forall k | IsKeyOf(id, k)
      ensures k in OnRoute(store, id)
    {
      assert IsFleetKey(cat, k);
      assert OnCatalogRoute(cat, k, store[k]);
      var h, s :| h in cat && s in h.routes && IsKeyOf(s.id, k) && store[k].routeId == s.id;
      KeyOfSameRoute(s.id, id, k);
    }
  }

  /** The three bus ids of a route are distinct. */
  lemma ThreeBusKeys(id: string)
    ensures |{BusKey(id, 1), BusKey(id, 2), BusKey(id, 3)}| == 3
  {
    BusKeyInjective(id, 1, id, 2);
    BusKeyInjective(id, 1, id, 3);
    BusKeyInjective(id, 2, id, 3);
  }

  /** The ids of a route missing from the catalog are not in the store. */
  lemma UnknownRouteHasNoBus(cat: Catalog, store: Store, id: string, i: int)
    requires FleetInvariant(cat, store) && !HasRouteId(cat, id) && 1 <= i <= 3
    ensures BusKey(id, i) !in store
  {
    if BusKey(id, i) in store {
      var g, r :| g in cat && r in g.routes && IsKeyOf(r.id, BusKey(id, i));
      InstanceKeyIsKeyOf(id, i);
      KeyOfSameRoute(r.id, id, BusKey(id, i));
      assert false;
    }
  }

  /** A bus id is the id of at most one route's buses. */
  lemma KeyOfSameRoute(a: string, b: string, k: string)
    requires IsKeyOf(a, k) && IsKeyOf(b, k)
    ensures a == b
  {
    forall i, j | 1 <= i <= 3 && 1 <= j <= 3
      ensures BusKey(a, i) == BusKey(b, j) ==> a == b
    {
      BusKeyInjective(a, i, b, j);
    }
  }

  /** Repeated detail requests for the same bus id. */
  function Polls(id: string, ms: seq<Move>): (qs: seq<Request>)
    ensures |qs| == |ms|
    ensures forall j :: 0 <= j < |ms| ==> qs[j] == Request(id, ms[j])
  {
    seq(|ms|, j requires 0 <= j < |ms| => Request(id, ms[j]))
  }

  /** Polling one bus applies the simulation step to it once per request and
      leaves every other record alone. */
  lemma {:induction false} PollingStepsOneBus(store: Store, id: string, ms: seq<Move>)
    requires id in store && AllSteppable(store)
    requires forall m :: m in ms ==> ValidMove(m)
    ensures forall q :: q in Polls(id, ms) ==> ValidMove(q.move)
    ensures Run(store, Polls(id, ms))[id] == StepMany(store[id], ms)
    ensures forall k :: k in store && k != id ==> Run(store, Polls(id, ms))[k] == store[k]
    decreases |ms|
  {
    var qs := Polls(id, ms);
    forall q | q in qs
      ensures ValidMove(q.move)
    {
      var j :| 0 <= j < |qs| && qs[j] == q;
      assert ms[j] in ms;
    }
    if ms != [] {
      var s1 := Detail(store, id, ms[0]).store;
      assert Polls(id, ms[1..]) == qs[1..];
      assert forall m :: m in ms[1..] ==> m in ms;
      PollingStepsOneBus(s1, id, ms[1..]);
    }
  }
}
