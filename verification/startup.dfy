/** The application as it starts: the literal catalog, the store built from
    it, and facts about both on that catalog. */
module Startup {
  import opened Replies
  import opened RouteCatalog
  import opened Buses
  import opened Fleet
  import opened Api

  /** Draws that put every bus at its first stop: they fit every route of
      the literal catalog, so initialisation can run on it. */
  lemma FirstStopDrawsFit(stamp: Timestamp)
    ensures ValidDraws(BusRoutes, (k: string) => Draw(0, 2, OnTime, stamp))
  {
    BusRoutesNonEmptyStops();
  }

  /** After start-up and after any sequence of bus detail requests, every
      route of the catalog has exactly three buses; T1 among them. */
  lemma RoutesKeepThreeBuses(draw: string -> Draw, reqs: seq<Request>)
    requires ValidDraws(BusRoutes, draw)
    requires forall q :: q in reqs ==> ValidMove(q.move)
    ensures AllSteppable(InitialFleet(BusRoutes, draw))
    ensures forall id :: HasRouteId(BusRoutes, id) ==>
              |OnRoute(Run(InitialFleet(BusRoutes, draw), reqs), id)| == 3
    ensures |OnRoute(Run(InitialFleet(BusRoutes, draw), reqs), "T1")| == 3
  {
    RunKeepsThreeBuses(BusRoutes, draw, reqs);
    T1KeepsThreeBuses(draw, reqs);
  }

  /** Route T1 has three buses after any sequence of detail requests. */
  lemma T1KeepsThreeBuses(draw: string -> Draw, reqs: seq<Request>)
    requires ValidDraws(BusRoutes, draw)
    requires forall q :: q in reqs ==> ValidMove(q.move)
    ensures |OnRoute(Run(InitialFleet(BusRoutes, draw), reqs), "T1")| == 3
  {
    RunKeepsThreeBuses(BusRoutes, draw, reqs);
    assert HasRouteId(BusRoutes, "T1") by {
      assert BusRoutes[0] in BusRoutes && BusRoutes[0].routes[0] in BusRoutes[0].routes;
    }
  }

  /** Route T1 is in the catalog, in city "trichy". */
  lemma T1IsTracked()
    ensures HasRouteId(BusRoutes, "T1")
    ensures FirstMatchAt(BusRoutes, "T1", 0, 0) && BusRoutes[0].key == "trichy"
  {
    assert BusRoutes[0] in BusRoutes && BusRoutes[0].routes[0] in BusRoutes[0].routes;
  }

  /** No route has the id "UNKNOWN", so bus "UNKNOWN-1" is not in the store
      and its detail request is answered with not-found. */
  lemma UnknownBusNotFound(draw: string -> Draw, m: Move)
    requires ValidDraws(BusRoutes, draw) && ValidMove(m)
    ensures "UNKNOWN-1" !in InitialFleet(BusRoutes, draw)
    ensures Detail(InitialFleet(BusRoutes, draw), "UNKNOWN-1", m).reply == NotFound
  {
    var store := InitialFleet(BusRoutes, draw);
    InitialFleetInvariant(BusRoutes, draw);
    ShortRouteIds();
    assert !HasRouteId(BusRoutes, "UNKNOWN");
    UnknownKey();
    UnknownRouteHasNoBus(BusRoutes, store, "UNKNOWN", 1);
  }

  lemma UnknownKey()
    ensures BusKey("UNKNOWN", 1) == "UNKNOWN-1"
  {
    var k := BusKey("UNKNOWN", 1);
    assert InstanceLabel(1) == "1";
    forall i | 0 <= i < 9
      ensures k[i] == "UNKNOWN-1"[i]
    {
    }
  }

  /** The catalog's route ids have at most three characters. */
  lemma ShortRouteIds()
    ensures forall g, r :: g in BusRoutes && r in g.routes ==> |r.id| <= 3
  {
  }

  /** The city page exists for the four city keys and no other. */
  lemma CityPages(city: string)
    ensures CityView(BusRoutes, city).Found?
            <==> city in {"trichy", "coimbatore", "chennai", "trichy_areas"}
  {
  }
}
