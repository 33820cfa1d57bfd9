/** One simulated bus record and the simulation step applied to it by the
    bus detail endpoint. */
module Buses {

  datatype Status = OnTime | Delayed | Early

  /** An ISO-8601 time stamp, kept opaque: the clock is outside the model. */
  type Timestamp = string

  /** The record the store keeps per bus id. `route_name`, `stops` and `city`
      are copies taken from the catalog when the bus is created. */
  datatype Bus = Bus(
    routeId: string,
    routeName: string,
    currentStop: string,
    currentStopIndex: int,
    nextStop: string,
    stops: seq<string>,
    city: string,
    eta: int,
    status: Status,
    lastUpdated: Timestamp)

  /** The outcome of the random draws of one detail request: either the 30%
      coin flip failed (`Stay`), or it succeeded and a fresh ETA and time stamp
      were drawn (`Go`). */
  datatype Move = Stay | Go(eta: int, stamp: Timestamp)

  /** `random.randint(2, 15)` only yields ETAs from 2 to 15 minutes. */
  predicate ValidEta(eta: int) {
    2 <= eta <= 15
  }

  predicate ValidMove(m: Move) {
    m.Go? ==> ValidEta(m.eta)
  }

  /** The record is positioned on its route: the index is a valid stop index,
      the current and next stop are the ones the index names (the next one
      wrapping to the first stop), and the ETA is in range. */
  predicate Valid(b: Bus) {
    && |b.stops| > 0
    && 0 <= b.currentStopIndex < |b.stops|
    && b.currentStop == b.stops[b.currentStopIndex]
    && b.nextStop == b.stops[(b.currentStopIndex + 1) % |b.stops|]
    && ValidEta(b.eta)
  }

  /** What the step needs to index the stops without failing. */
  predicate Steppable(b: Bus) {
    |b.stops| > 0 && b.currentStopIndex >= 0
  }

  /** The step leaves the route, the copies taken from the catalog and the
      status as they were. */
  predicate SameRoute(b: Bus, c: Bus) {
    && c.routeId == b.routeId
    && c.routeName == b.routeName
    && c.stops == b.stops
    && c.city == b.city
    && c.status == b.status
  }

  /** The movement block of the bus detail endpoint. */
  function Step(b: Bus, m: Move): (r: Bus)
    requires ValidMove(m)
    requires m.Go? ==> Steppable(b)
    ensures m.Stay? ==> r == b
    ensures m.Go? ==> Valid(r) && SameRoute(b, r)
    ensures m.Go? ==> r.eta == m.eta && r.lastUpdated == m.stamp
    ensures m.Go? && b.currentStopIndex < |b.stops| ==>
              r.currentStopIndex == (b.currentStopIndex + 1) % |b.stops|
    ensures m.Go? && b.currentStopIndex >= |b.stops| ==> r.currentStopIndex == 0
  {
    match m
    case Stay => b
    case Go(eta, stamp) =>
      var i := if b.currentStopIndex < |b.stops| - 1 then b.currentStopIndex + 1 else 0;
      b.(currentStopIndex := i,
         currentStop := b.stops[i],
         nextStop := b.stops[(i + 1) % |b.stops|],
         eta := eta,
         lastUpdated := stamp)
  }

  /** The number of moves whose coin flip succeeded. */
  function GoCount(ms: seq<Move>): nat
  {
    if ms == [] then 0 else (if ms[0].Go? then 1 else 0) + GoCount(ms[1..])
  }

  /** The bus after one detail request per move, in order. */
  function StepMany(b: Bus, ms: seq<Move>): (r: Bus)
    requires Steppable(b)
    requires forall m :: m in ms ==> ValidMove(m)
    ensures Steppable(r) && SameRoute(b, r)
    ensures GoCount(ms) == 0 ==> r == b
    ensures GoCount(ms) > 0 || Valid(b) ==> Valid(r)
    decreases |ms|
  {
    if ms == [] then b else StepMany(Step(b, ms[0]), ms[1..])
  }

  /** Starting from a valid index, the index after a run of requests is the
      starting index advanced by the number of successful flips, modulo the
      number of stops. */
  lemma {:induction false} StepManyIndex(b: Bus, ms: seq<Move>)
    requires Steppable(b) && b.currentStopIndex < |b.stops|
    requires forall m :: m in ms ==> ValidMove(m)
    ensures StepMany(b, ms).currentStopIndex == (b.currentStopIndex + GoCount(ms)) % |b.stops|
    decreases |ms|
  {
    if ms == [] {
      ModUnique(b.currentStopIndex, |b.stops|, 0, b.currentStopIndex);
    } else {
      var c := Step(b, ms[0]);
      var rest := ms[1..];
      assert forall m :: m in rest ==> m in ms;
      var k := GoCount(rest);
      var g := GoCount(ms);
      assert g == (if ms[0].Go? then 1 else 0) + k;
      assert StepMany(b, ms) == StepMany(c, rest);
      StepManyIndex(c, rest);
      StepThenAdvance(b, ms[0], k);
      assert b.currentStopIndex + (if ms[0].Go? then 1 else 0) + k == b.currentStopIndex + g;
    }
  }

  /** One step followed by k successful ones lands where 1 + k (or k, when
      the flip failed) successful steps from the start would. */
  lemma StepThenAdvance(b: Bus, m: Move, k: nat)
    requires Steppable(b) && b.currentStopIndex < |b.stops| && ValidMove(m)
    ensures (Step(b, m).currentStopIndex + k) % |b.stops|
            == (b.currentStopIndex + (if m.Go? then 1 else 0) + k) % |b.stops|
  {
    if m.Go? {
      ModSuccessor(b.currentStopIndex, k, |b.stops|);
    }
  }

  lemma ModSuccessor(i: int, k: nat, n: int)
    requires 0 <= i < n
    ensures ((i + 1) % n + k) % n == (i + 1 + k) % n
  {
    var s := i + 1;
    if s == n {
      ModUnique(s, n, 1, 0);
      ShiftMod(k, n);
      assert (s % n + k) % n == k % n;
    } else {
      ModUnique(s, n, 0, s);
      assert s % n == s;
    }
  }

  lemma ShiftMod(k: int, n: int)
    requires n > 0 && k >= 0
    ensures (n + k) % n == k % n
  {
    ModUnique(n + k, n, k / n + 1, k % n);
  }

  /** Euclidean division has one remainder. */
  lemma ModUnique(a: int, n: int, q: int, r: int)
    requires n > 0 && a == q * n + r && 0 <= r < n
    ensures a % n == r
  {
    var q' := a / n;
    if q > q' {
      MulAtLeast(q - q', n);
    } else if q < q' {
      MulAtLeast(q' - q, n);
    }
  }

  lemma MulAtLeast(d: int, n: int)
    requires d >= 1 && n > 0
    ensures d * n >= n
  {
  }

  /** With every flip succeeding, n requests move the bus n stops forward. */
  lemma AlwaysGoAdvancesByCount(b: Bus, ms: seq<Move>)
    requires Steppable(b) && b.currentStopIndex < |b.stops|
    requires forall m :: m in ms ==> m.Go? && ValidEta(m.eta)
    ensures StepMany(b, ms).currentStopIndex == (b.currentStopIndex + |ms|) % |b.stops|
  {
    AllGoCount(ms);
    StepManyIndex(b, ms);
  }

  lemma {:induction false} AllGoCount(ms: seq<Move>)
    requires forall m :: m in ms ==> m.Go?
    ensures GoCount(ms) == |ms|
  {
    if ms != [] {
      assert forall m :: m in ms[1..] ==> m in ms;
      AllGoCount(ms[1..]);
    }
  }

  /** The index cycles through every stop: from any valid index, any stop `j`
      is reached after (j - i) mod |stops| successful requests. */
  lemma EveryStopReached(b: Bus, ms: seq<Move>, j: int)
    requires Valid(b)
    requires 0 <= j < |b.stops|
    requires forall m :: m in ms ==> m.Go? && ValidEta(m.eta)
    requires |ms| == (j - b.currentStopIndex) % |b.stops|
    ensures StepMany(b, ms).currentStopIndex == j
    ensures StepMany(b, ms).currentStop == b.stops[j]
  {
    AlwaysGoAdvancesByCount(b, ms);
    ForwardDistance(b.currentStopIndex, j, |b.stops|);
    if ms != [] {
      AllGoCount(ms);
    }
  }

  /** Moving (j - i) mod n places forward from i lands on j. */
  lemma ForwardDistance(i: int, j: int, n: int)
    requires 0 <= i < n && 0 <= j < n
    ensures (i + (j - i) % n) % n == j
  {
    ModUnique(j, n, 0, j);
    if i <= j {
      ModUnique(j - i, n, 0, j - i);
    } else {
      ModUnique(j - i, n, -1, j - i + n);
      ShiftMod(j, n);
      assert i + (j - i + n) == n + j;
    }
  }
}
