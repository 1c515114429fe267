/** The ephemeral liveness view of other nodes (`crdt/liveness.rs`). */
module Liveness {
  import opened Basics

  datatype EgressAd = EgressAd(healthy: bool, cost: int)

  datatype Seen = Seen(incarnation: U64, counter: U64, receivedAtMs: U64, egress: Option<EgressAd>)

  datatype Arrival = Arrival(nodeId: string, incarnation: U64, counter: U64, egress: Option<EgressAd>, nowMs: U64)

  type View = map<string, Seen>

  predicate SupersededBy(s: Seen, incarnation: U64, counter: U64) {
    incarnation > s.incarnation || (incarnation == s.incarnation && counter > s.counter)
  }

  function AgeMs(v: View, id: string, nowMs: U64): (r: Option<U64>) {
    if id in v then Some(SaturatingSub(nowMs, v[id].receivedAtMs)) else None
  }

  predicate Stale(v: View, thresholdMs: U64, id: string, nowMs: U64) {
    var age := AgeMs(v, id, nowMs);
    age.None? || age.value > thresholdMs
  }

  predicate HardExpired(v: View, expiryMs: U64, id: string, nowMs: U64) {
    var age := AgeMs(v, id, nowMs);
    age.Some? && age.value > expiryMs
  }

  /** Nodes that are not stale and whose last accepted beacon advertised a healthy uplink. */
  function Gateways(v: View, thresholdMs: U64, nowMs: U64): (g: map<string, EgressAd>) {
    map id | id in v && !Stale(v, thresholdMs, id, nowMs) && v[id].egress.Some? && v[id].egress.value.healthy
      :: v[id].egress.value
  }

  function ToSeen(a: Arrival): (s: Seen) {
    Seen(a.incarnation, a.counter, a.nowMs, a.egress)
  }

  predicate Accepts(v: View, a: Arrival) {
    a.nodeId in v ==> SupersededBy(v[a.nodeId], a.incarnation, a.counter)
  }

  function Observed(v: View, a: Arrival): (v': View) {
    if Accepts(v, a) then v[a.nodeId := ToSeen(a)] else v
  }

  class LivenessTracker {
    var seen: View
    const staleThresholdMs: U64
    const hardExpiryMs: U64

    constructor (staleThresholdMs: U64, hardExpiryMs: U64)
      ensures seen == map[]
      ensures this.staleThresholdMs == staleThresholdMs && this.hardExpiryMs == hardExpiryMs
    {
      seen := map[];
      this.staleThresholdMs, this.hardExpiryMs := staleThresholdMs, hardExpiryMs;
    }

    method ObserveWithEgress(a: Arrival) returns (accepted: bool)
      modifies this
      ensures accepted == Accepts(old(seen), a)
      ensures seen == Observed(old(seen), a)
    {
      if a.nodeId in seen && !SupersededBy(seen[a.nodeId], a.incarnation, a.counter) {
        return false;
      }
      seen := seen[a.nodeId := Seen(a.incarnation, a.counter, a.nowMs, a.egress)];
      return true;
    }

    /** Refresh a node's arrival time without a beacon; its known beacon is kept. */
    method Touch(id: string, nowMs: U64)
      modifies this
      ensures seen.Keys == old(seen).Keys + {id}
      ensures forall o :: o in old(seen) && o != id ==> seen[o] == old(seen)[o]
      ensures seen[id] == if id in old(seen) then old(seen)[id].(receivedAtMs := nowMs) else Seen(0, 0, nowMs, None)
      ensures forall t: U64 :: nowMs <= t <= nowMs + staleThresholdMs ==> !Stale(seen, staleThresholdMs, id, t)
    {
      if id in seen {
        seen := seen[id := seen[id].(receivedAtMs := nowMs)];
      } else {
        seen := seen[id := Seen(0, 0, nowMs, None)];
      }
    }

    method Forget(id: string)
      modifies this
      ensures seen == old(seen) - {id}
    {
      seen := seen - {id};
    }

    function LastSeenMs(id: string): (r: Option<U64>)
      reads this
    {
      if id in seen then Some(seen[id].receivedAtMs) else None
    }

    predicate IsStale(id: string, nowMs: U64)
      reads this
    {
      Stale(seen, staleThresholdMs, id, nowMs)
    }

    predicate IsHardExpired(id: string, nowMs: U64)
      reads this
    {
      HardExpired(seen, hardExpiryMs, id, nowMs)
    }

    function LiveGateways(nowMs: U64): (g: map<string, EgressAd>)
      reads this
    {
      Gateways(seen, staleThresholdMs, nowMs)
    }
  }

  // ----- Deliveries with loss, duplication and reordering ----------------------------------

  ghost function After(v: View, xs: seq<Arrival>): View {
    if xs == [] then v else Observed(After(v, xs[..|xs| - 1]), xs[|xs| - 1])
  }

  /** `a` carries a strictly later beacon than `b`. */
  ghost predicate Newer(a: Arrival, b: Arrival) {
    SupersededBy(ToSeen(b), a.incarnation, a.counter)
  }

  /** `xs[i]` is the first arrival of the greatest beacon `id` was heard with. */
  ghost predicate FirstOfGreatest(xs: seq<Arrival>, id: string, i: nat) {
    && i < |xs| && xs[i].nodeId == id
    && (forall j :: 0 <= j < |xs| && xs[j].nodeId == id ==> !Newer(xs[j], xs[i]))
    && (forall j :: 0 <= j < i && xs[j].nodeId == id ==> Newer(xs[i], xs[j]))
  }

  lemma {:induction false} NeverHeard(xs: seq<Arrival>, id: string)
    requires forall j :: 0 <= j < |xs| ==> xs[j].nodeId != id
    ensures id !in After(map[], xs)
  {
    if xs != [] { NeverHeard(xs[..|xs| - 1], id); }
  }

  /** Whatever was lost, duplicated or reordered, the tracker holds the greatest beacon delivered, with
      its egress advertisement and the time it first arrived. */
  lemma {:induction false} GreatestBeaconIsHeld(xs: seq<Arrival>, id: string) returns (i: nat)
    requires exists j :: 0 <= j < |xs| && xs[j].nodeId == id
    ensures FirstOfGreatest(xs, id, i)
    ensures id in After(map[], xs) && After(map[], xs)[id] == ToSeen(xs[i])
  {
    var k := |xs| - 1;
    var before := xs[..k];
    if exists j :: 0 <= j < k && before[j].nodeId == id {
      i := GreatestBeaconIsHeld(before, id);
      assert forall j :: 0 <= j < k ==> before[j] == xs[j];
      if xs[k].nodeId == id && Newer(xs[k], xs[i]) {
        i := k;
      }
    } else {
      assert forall j :: 0 <= j < k ==> before[j] == xs[j];
      NeverHeard(before, id);
      i := k;
    }
  }

  datatype Beacon = Beacon(nodeId: string, incarnation: U64, counter: U64, egress: Option<EgressAd>)

  ghost function ToBeacon(a: Arrival): Beacon {
    Beacon(a.nodeId, a.incarnation, a.counter, a.egress)
  }

  /** The beacons heard, whenever and however often. */
  ghost function Heard(xs: seq<Arrival>): set<Beacon> {
    set j | 0 <= j < |xs| :: ToBeacon(xs[j])
  }

  ghost predicate SameStamp(a: Beacon, b: Beacon) {
    a.nodeId == b.nodeId && a.incarnation == b.incarnation && a.counter == b.counter
  }

  /** An origin emits one beacon per (incarnation, counter). */
  ghost predicate OneBeaconPerStamp(heard: set<Beacon>) {
    forall a, b :: a in heard && b in heard && SameStamp(a, b) ==> a == b
  }

  ghost predicate NewerBeacon(a: Beacon, b: Beacon) {
    a.incarnation > b.incarnation || (a.incarnation == b.incarnation && a.counter > b.counter)
  }

  /** What is held of `id` is its greatest beacon among those heard. */
  lemma HeldIsGreatestHeard(xs: seq<Arrival>, id: string) returns (b: Beacon)
    requires id in After(map[], xs)
    ensures b in Heard(xs) && b.nodeId == id
    ensures forall o :: o in Heard(xs) && o.nodeId == id ==> !NewerBeacon(o, b)
    ensures var s := After(map[], xs)[id];
            s.incarnation == b.incarnation && s.counter == b.counter && s.egress == b.egress
  {
    if forall j :: 0 <= j < |xs| ==> xs[j].nodeId != id { NeverHeard(xs, id); }
    var i := GreatestBeaconIsHeld(xs, id);
    b := ToBeacon(xs[i]);
  }

  lemma HeardMeansHeld(xs: seq<Arrival>, b: Beacon)
    requires b in Heard(xs)
    ensures b.nodeId in After(map[], xs)
  {
    var j :| 0 <= j < |xs| && ToBeacon(xs[j]) == b;
    var i := GreatestBeaconIsHeld(xs, b.nodeId);
  }

  /** Two nodes that heard the same beacons, in any order, hold the same beacon of every origin. */
  lemma OrderInsensitive(xs: seq<Arrival>, ys: seq<Arrival>, id: string)
    requires Heard(xs) == Heard(ys) && OneBeaconPerStamp(Heard(xs))
    ensures id in After(map[], xs) <==> id in After(map[], ys)
    ensures id in After(map[], xs) ==>
              var x, y := After(map[], xs)[id], After(map[], ys)[id];
              x.incarnation == y.incarnation && x.counter == y.counter && x.egress == y.egress
  {
    if id in After(map[], xs) {
      var b := HeldIsGreatestHeard(xs, id);
      HeardMeansHeld(ys, b);
    }
    if id in After(map[], ys) {
      var c := HeldIsGreatestHeard(ys, id);
      HeardMeansHeld(xs, c);
      var b := HeldIsGreatestHeard(xs, id);
      assert !NewerBeacon(b, c) && !NewerBeacon(c, b);
    }
  }

  /** Once an origin's latest beacon has been accepted, no replay of it or of older ones changes what is
      held, its arrival time included. */
  lemma {:induction false} ReplaysChangeNothing(v: View, xs: seq<Arrival>, id: string)
    requires id in v
    requires forall j :: 0 <= j < |xs| && xs[j].nodeId == id ==> !SupersededBy(v[id], xs[j].incarnation, xs[j].counter)
    ensures id in After(v, xs) && After(v, xs)[id] == v[id]
  {
    if xs != [] { ReplaysChangeNothing(v, xs[..|xs| - 1], id); }
  }

  lemma FirstOfGreatestIsUnique(xs: seq<Arrival>, id: string, i: nat, j: nat)
    requires FirstOfGreatest(xs, id, i) && FirstOfGreatest(xs, id, j)
    ensures i == j
  {
  }

  /** `xs[i]` is the first arrival of the greatest beacon of `id`, at most `limitMs` before `t`. */
  ghost predicate HeardWithin(xs: seq<Arrival>, id: string, i: nat, limitMs: U64, t: U64) {
    FirstOfGreatest(xs, id, i) && t - xs[i].nowMs <= limitMs
  }

  ghost predicate HeardLongAgo(xs: seq<Arrival>, id: string, i: nat, limitMs: U64, t: U64) {
    FirstOfGreatest(xs, id, i) && t - xs[i].nowMs > limitMs
  }

  /** A gateway's advertisement, heard in time. */
  ghost predicate AdvertisedWithin(xs: seq<Arrival>, id: string, i: nat, limitMs: U64, t: U64) {
    HeardWithin(xs, id, i, limitMs, t) && xs[i].egress.Some? && xs[i].egress.value.healthy
  }

  lemma HeardIsHeld(xs: seq<Arrival>, id: string, i: nat)
    requires FirstOfGreatest(xs, id, i)
    ensures id in After(map[], xs) && After(map[], xs)[id] == ToSeen(xs[i])
  {
    var j := GreatestBeaconIsHeld(xs, id);
    FirstOfGreatestIsUnique(xs, id, i, j);
  }

  lemma HeldWasHeard(xs: seq<Arrival>, id: string) returns (i: nat)
    requires id in After(map[], xs)
    ensures FirstOfGreatest(xs, id, i)
  {
    if forall j :: 0 <= j < |xs| ==> xs[j].nodeId != id { NeverHeard(xs, id); }
    i := GreatestBeaconIsHeld(xs, id);
  }

  /** Who is stale and who is long dead after any deliveries, read off the deliveries: by when the greatest
      beacon heard first arrived. */
  lemma SilenceIff(xs: seq<Arrival>, id: string, limitMs: U64, t: U64)
    ensures Stale(After(map[], xs), limitMs, id, t) <==> !exists i: nat :: HeardWithin(xs, id, i, limitMs, t)
    ensures HardExpired(After(map[], xs), limitMs, id, t) <==> exists i: nat :: HeardLongAgo(xs, id, i, limitMs, t)
  {
    forall i: nat | FirstOfGreatest(xs, id, i)
      ensures id in After(map[], xs) && After(map[], xs)[id] == ToSeen(xs[i])
    {
      HeardIsHeld(xs, id, i);
    }
    if id in After(map[], xs) {
      var i := HeldWasHeard(xs, id);
      assert HeardWithin(xs, id, i, limitMs, t) || HeardLongAgo(xs, id, i, limitMs, t);
    }
  }

  /** Who is a live gateway after any deliveries: whose greatest beacon first arrived in time and advertises a
      healthy uplink, which is the one reported. */
  lemma GatewaysIff(xs: seq<Arrival>, id: string, limitMs: U64, t: U64)
    ensures var g := Gateways(After(map[], xs), limitMs, t);
            && (id in g <==> exists i: nat :: AdvertisedWithin(xs, id, i, limitMs, t))
            && (forall i: nat :: AdvertisedWithin(xs, id, i, limitMs, t) ==> id in g && xs[i].egress == Some(g[id]))
  {
    forall i: nat | FirstOfGreatest(xs, id, i)
      ensures id in After(map[], xs) && After(map[], xs)[id] == ToSeen(xs[i])
    {
      HeardIsHeld(xs, id, i);
    }
    if id in Gateways(After(map[], xs), limitMs, t) {
      var i := HeldWasHeard(xs, id);
      assert AdvertisedWithin(xs, id, i, limitMs, t);
    }
  }

  /** A silent gateway leaves the live set for good, whatever is replayed. */
  lemma {:induction false} SilentGatewayExpires(v: View, xs: seq<Arrival>, id: string, thresholdMs: U64, t: U64)
    requires id in v && t > v[id].receivedAtMs + thresholdMs
    requires forall j :: 0 <= j < |xs| && xs[j].nodeId == id ==> !SupersededBy(v[id], xs[j].incarnation, xs[j].counter)
    ensures id !in Gateways(After(v, xs), thresholdMs, t)
  {
    ReplaysChangeNothing(v, xs, id);
  }

  /** A gateway that withdraws its uplink, or reports it unhealthy, is out at once, and no older advertisement
      brings it back. */
  lemma WithdrawnGatewayStaysOut(v: View, withdrawal: Arrival, xs: seq<Arrival>, thresholdMs: U64, t: U64)
    requires Accepts(v, withdrawal) && (withdrawal.egress == None || !withdrawal.egress.value.healthy)
    requires forall j :: 0 <= j < |xs| && xs[j].nodeId == withdrawal.nodeId ==> !Newer(xs[j], withdrawal)
    ensures withdrawal.nodeId !in Gateways(After(Observed(v, withdrawal), xs), thresholdMs, t)
  {
    ReplaysChangeNothing(Observed(v, withdrawal), xs, withdrawal.nodeId);
  }
}
