/** Holding one client subnet claim per node (`partition_claims`, `claim_and_publish` and
    `release_claim` in `mjolnir-meshd.rs`). */
module Claims {
  import opened Basics
  import opened HybridClock
  import opened Alloc
  import opened NetText

  /** An IPv6 network is never looked into here; its text always holds a colon. */
  type V6Text = s: string | ':' in s witness ":"

  datatype IpNet = V4(net: Net) | V6(text: V6Text)

  datatype SubnetClaim = SubnetClaim(cidr: IpNet, owner: string, siteName: Option<string>, claimedAt: Hlc)

  datatype Gossip = ClaimUpdate(cidr: string, entry: SubnetClaim) | ClaimRelease(released: string, stamp: Hlc)

  type Store = map<string, SubnetClaim>

  /** 10.42.0.0/16 */
  const MESH_SPACE := Net(0x0A2A_0000, 16)
  const CLIENT_PREFIX_LEN: Plen := 24

  function Printed(cidr: IpNet): (s: string) {
    match cidr
    case V4(net) => PrintNet(net)
    case V6(text) => text
  }

  /** A claim on a single backhaul address rather than on a client subnet: inside 10.254.0.0/16. */
  predicate InBackhaulBlock(n: Net) {
    n.plen >= 16 && Network(n) / 0x1_0000 == 0x0AFE
  }

  /** A claim on addresses of the backhaul block. */
  ghost predicate BackhaulClaim(c: SubnetClaim) {
    c.cidr.V4? && Contains(Net(0x0AFE_0000, 16), c.cidr.net)
  }

  predicate IsClient(c: SubnetClaim) {
    c.cidr.V4? && !InBackhaulBlock(c.cidr.net)
  }

  ghost predicate KeyedByCidr(s: Store) {
    forall k :: k in s ==> k == Printed(s[k].cidr)
  }

  function OwnKeys(s: Store, self: string): (ks: set<string>) {
    set k | k in s && s[k].owner == self && IsClient(s[k])
  }

  function ForeignNets(s: Store, self: string): (ns: set<Net>) {
    set k | k in s && s[k].owner != self && IsClient(s[k]) :: s[k].cidr.net
  }

  /** `k` is a key of `keys` whose claim no other claim of `keys` precedes. */
  ghost predicate Senior(s: Store, keys: set<string>, k: string) {
    k in keys && forall j :: j in keys && j in s && k in s ==> !Before(s[j].claimedAt, s[k].claimedAt)
  }

  lemma SeniorExists(s: Store, keys: set<string>) returns (k: string)
    requires keys != {} && keys <= s.Keys
    ensures Senior(s, keys, k)
  {
    var none := Hlc(0, 0, "");
    k := EarliestExists(keys, k => if k in s then s[k].claimedAt else none);
  }

  /** `order` lists `keys`, each once, no claim before one that precedes it. */
  ghost predicate BySeniority(s: Store, keys: set<string>, order: seq<string>) {
    && keys <= s.Keys && (forall k :: k in order <==> k in keys) && (forall i :: 0 <= i < |order| ==> order[i] in s)
    && (forall i, j :: 0 <= i < j < |order| ==>
          order[i] != order[j] && !Before(s[order[j]].claimedAt, s[order[i]].claimedAt))
  }

  lemma SenioritySnoc(s: Store, keys: set<string>, order: seq<string>, k: string)
    requires BySeniority(s, keys, order) && k in s && k !in keys
    requires forall i :: 0 <= i < |order| ==> !Before(s[k].claimedAt, s[order[i]].claimedAt)
    ensures BySeniority(s, keys + {k}, order + [k])
  {
    forall i | 0 <= i < |order| ensures order[i] != k {
      assert order[i] in order;
    }
  }

  lemma FirstIsEarliest(s: Store, keys: set<string>, order: seq<string>)
    requires BySeniority(s, keys, order) && order != []
    ensures forall k :: k in keys ==> !Before(s[k].claimedAt, s[order[0]].claimedAt)
  {
    forall k | k in keys ensures !Before(s[k].claimedAt, s[order[0]].claimedAt) {
      assert k in order;
      HlcOrder(s[k].claimedAt, s[k].claimedAt);
    }
  }

  /** `own` and `order` hold the keys taken from `keys` so far, none of which a remaining one precedes. */
  ghost predicate Sorting(
    s: Store, keys: set<string>, rest: set<string>, own: seq<(Net, SubnetClaim)>, order: seq<string>)
  {
    && rest <= keys && BySeniority(s, keys - rest, order) && |own| == |order|
    && (forall i, k :: 0 <= i < |order| && k in rest && k in s ==> !Before(s[k].claimedAt, s[order[i]].claimedAt))
    && (forall i :: 0 <= i < |own| ==> own[i].1 == s[order[i]] && s[order[i]].cidr == V4(own[i].0))
  }

  lemma SortingStep(s: Store, keys: set<string>, rest: set<string>, own: seq<(Net, SubnetClaim)>, order: seq<string>,
                    k: string)
    requires keys <= s.Keys && Sorting(s, keys, rest, own, order) && Senior(s, rest, k) && s[k].cidr.V4?
    ensures Sorting(s, keys, rest - {k}, own + [(s[k].cidr.net, s[k])], order + [k])
  {
    SenioritySnoc(s, keys - rest, order, k);
    assert keys - rest + {k} == keys - (rest - {k});
  }

  method PickSenior(s: Store, keys: set<string>) returns (k: string)
    requires keys != {} && keys <= s.Keys
    ensures Senior(s, keys, k)
  {
    ghost var earliest := SeniorExists(s, keys);
    k :| k in keys && forall j :: j in keys ==> !Before(s[j].claimedAt, s[k].claimedAt);
  }

  /** The own client claims by seniority, as sorting the unordered store leaves them. */
  method SortOwn(s: Store, self: string) returns (own: seq<(Net, SubnetClaim)>, ghost order: seq<string>)
    ensures BySeniority(s, OwnKeys(s, self), order) && |own| == |order|
    ensures forall i :: 0 <= i < |own| ==> own[i].1 == s[order[i]] && s[order[i]].cidr == V4(own[i].0)
  {
    var rest := OwnKeys(s, self);
    own, order := [], [];
    while rest != {}
      invariant Sorting(s, OwnKeys(s, self), rest, own, order)
      decreases |rest|
    {
      var k := PickSenior(s, rest);
      SortingStep(s, OwnKeys(s, self), rest, own, order, k);
      own, order := own + [(s[k].cidr.net, s[k])], order + [k];
      rest := rest - {k};
    }
    assert OwnKeys(s, self) - rest == OwnKeys(s, self);
  }

  /** The senior own claim, the nets of the other own claims by seniority, and the nets other nodes hold. */
  method PartitionClaims(s: Store, self: string)
    returns (keep: Option<(Net, SubnetClaim)>, extras: seq<Net>, foreign: set<Net>, ghost order: seq<string>)
    ensures BySeniority(s, OwnKeys(s, self), order)
    ensures order == [] ==> keep == None && extras == []
    ensures order != [] ==> && keep.Some? && keep.value.1 == s[order[0]] && s[order[0]].cidr == V4(keep.value.0)
                            && |extras| == |order| - 1
                            && forall i :: 0 <= i < |extras| ==> s[order[i + 1]].cidr == V4(extras[i])
    ensures keep.Some? ==> forall k :: k in OwnKeys(s, self) ==> !Before(s[k].claimedAt, keep.value.1.claimedAt)
    ensures foreign == ForeignNets(s, self)
  {
    var own;
    own, order := SortOwn(s, self);
    foreign := ForeignNets(s, self);
    keep, extras := None, [];
    if own != [] {
      keep := Some(own[0]);
      FirstIsEarliest(s, OwnKeys(s, self), order);
      for i := 1 to |own|
        invariant |extras| == i - 1
        invariant forall j :: 0 <= j < |extras| ==> s[order[j + 1]].cidr == V4(extras[j])
      {
        extras := extras + [own[i].0];
      }
    }
  }

  class ClaimStore {
    var claims: Store
    var outbox: seq<Gossip>
    var gateway: Option<Net>

    constructor (claims: Store)
      ensures this.claims == claims && outbox == [] && gateway == None
    {
      this.claims, outbox, gateway := claims, [], None;
    }

    method ReleaseClaim(net: Net, stamp: Hlc)
      modifies this`claims, this`outbox
      ensures claims == old(claims) - {PrintNet(net)}
      ensures outbox == old(outbox) + [ClaimRelease(PrintNet(net), stamp)]
    {
      claims := claims - {PrintNet(net)};
      outbox := outbox + [ClaimRelease(PrintNet(net), stamp)];
    }

    /** Keep the senior own claim and release the others; with none, claim the largest subnet from /24
        down to /30 that fits around the other nodes' claims. `clock(i)` is the i-th stamp read. */
    method ClaimAndPublish(self: string, hash: u64, clock: nat -> Hlc)
      requires KeyedByCidr(claims)
      modifies this
      ensures KeyedByCidr(claims)
      // A node that held claims keeps exactly one of its most senior ones; it releases the others by seniority.
      ensures old(OwnKeys(claims, self)) != {} ==>
                exists order ::
                  && order != [] && KeepsSenior(old(claims), claims, self, order)
                  && gateway == Some(claims[order[0]].cidr.net)
                  && outbox == old(outbox) + Releases(order[1..], clock) + [ClaimUpdate(order[0], claims[order[0]])]
      // A node that held none and finds no room changes nothing.
      ensures old(OwnKeys(claims, self)) == {} && !AnyFree(MESH_SPACE, 30, old(ForeignNets(claims, self))) ==>
                claims == old(claims) && outbox == old(outbox) && gateway == old(gateway)
      // A node that held none and finds room gains one claim, recorded and announced.
      ensures old(OwnKeys(claims, self)) == {} && AnyFree(MESH_SPACE, 30, old(ForeignNets(claims, self))) ==>
                exists net :: FreshClaim(old(claims), claims, self, hash, clock(0), net)
                              && gateway == Some(net)
                              && outbox == old(outbox) + [ClaimUpdate(PrintNet(net), claims[PrintNet(net)])]
      // Foreign and backhaul claims are untouched either way.
      ensures forall k :: k in old(claims) && k !in old(OwnKeys(claims, self)) ==>
                k in claims && claims[k] == old(claims)[k]
      // In particular no claim inside 10.254.0.0/16 is changed, kept as the client claim, announced or released.
      ensures forall k :: k in old(claims) && BackhaulClaim(old(claims)[k]) ==>
                k in claims && claims[k] == old(claims)[k]
      ensures gateway == old(gateway) || (gateway.Some? && !Contains(Net(0x0AFE_0000, 16), gateway.value))
      ensures old(outbox) <= outbox && SparesBackhaul(old(claims), outbox[|old(outbox)|..])
    {
      var keep, extras, foreign, order := PartitionClaims(claims, self);
      ghost var before := claims;
      ReleaseAll(extras, clock);
      if keep.Some? {
        var (net, claim) := keep.value;
        ReleasedAreTheOthers(before, self, order, extras);
        KeptIsSenior(before, self, order);
        assert claims == Kept(before, self, order);
        KeepingSpares(before, self, order, clock);
        Assoc(old(outbox), Releases(order[1..], clock), [ClaimUpdate(PrintNet(net), claim)]);
        Announce(net, claim);
      } else {
        assert claims == before;
        ClaimFresh(self, hash, clock(0), foreign);
        forall k | k in before && BackhaulClaim(before[k]) ensures k !in OwnKeys(before, self) {
          OwnKeysIff(before, self, k);
        }
        if AnyFree(MESH_SPACE, 30, foreign) { BackhaulIff(gateway.value); }
      }
    }

    method Announce(net: Net, claim: SubnetClaim)
      modifies this`outbox, this`gateway
      ensures outbox == old(outbox) + [ClaimUpdate(PrintNet(net), claim)] && gateway == Some(net)
    {
      outbox := outbox + [ClaimUpdate(PrintNet(net), claim)];
      gateway := Some(net);
    }

    method ReleaseAll(extras: seq<Net>, clock: nat -> Hlc)
      modifies this`claims, this`outbox
      ensures claims == old(claims) - Listed(PrintAll(extras))
      ensures outbox == old(outbox) + Releases(PrintAll(extras), clock)
    {
      for i := 0 to |extras|
        invariant Released(old(claims), old(outbox), claims, outbox, extras[..i], clock)
      {
        ReleasedSnoc(old(claims), old(outbox), claims, outbox, extras[..i], extras[i], clock);
        assert extras[..i + 1] == extras[..i] + [extras[i]];
        ReleaseClaim(extras[i], clock(i));
      }
      assert extras[..|extras|] == extras;
    }

    method ClaimFresh(self: string, hash: u64, now: Hlc, foreign: set<Net>)
      requires KeyedByCidr(claims) && OwnKeys(claims, self) == {} && foreign == ForeignNets(claims, self)
      modifies this
      ensures KeyedByCidr(claims)
      ensures !AnyFree(MESH_SPACE, 30, foreign) ==>
                claims == old(claims) && outbox == old(outbox) && gateway == old(gateway)
      ensures AnyFree(MESH_SPACE, 30, foreign) ==>
                && gateway.Some? && FreshClaim(old(claims), claims, self, hash, now, gateway.value)
                && outbox == old(outbox) + [ClaimUpdate(PrintNet(gateway.value), claims[PrintNet(gateway.value)])]
    {
      var picked := PickSubnetOrSmaller(hash, foreign, MESH_SPACE, CLIENT_PREFIX_LEN);
      if picked.None? {
        return;
      }
      var net := picked.value;
      FreshKeyIsNew(claims, self, hash, net);
      var claim := SubnetClaim(V4(net), self, None, now);
      claims := claims[PrintNet(net) := claim];
      Announce(net, claim);
      assert OwnKeys(claims, self) == {PrintNet(net)};
    }
  }

  function PrintAll(nets: seq<Net>): (keys: seq<string>)
    ensures |keys| == |nets| && forall i :: 0 <= i < |nets| ==> keys[i] == PrintNet(nets[i])
  {
    seq(|nets|, i requires 0 <= i < |nets| => PrintNet(nets[i]))
  }

  /** A release of each key in turn, each with its own stamp. */
  function Releases(keys: seq<string>, clock: nat -> Hlc): (r: seq<Gossip>) {
    if keys == [] then []
    else
      var n := |keys| - 1;
      Releases(keys[..n], clock) + [ClaimRelease(keys[n], clock(n))]
  }

  /** The i-th release names the i-th key and carries the i-th stamp read. */
  lemma {:induction false} ReleaseAt(keys: seq<string>, clock: nat -> Hlc, i: nat)
    requires i < |keys|
    ensures |Releases(keys, clock)| == |keys| && Releases(keys, clock)[i] == ClaimRelease(keys[i], clock(i))
    decreases |keys|
  {
    var n := |keys| - 1;
    if n > 0 { ReleaseAt(keys[..n], clock, if i < n then i else 0); }
  }

  lemma ReleasesSnoc(nets: seq<Net>, n: Net, clock: nat -> Hlc)
    ensures Releases(PrintAll(nets + [n]), clock) ==
            Releases(PrintAll(nets), clock) + [ClaimRelease(PrintNet(n), clock(|nets|))]
    ensures Listed(PrintAll(nets + [n])) == Listed(PrintAll(nets)) + {PrintNet(n)}
  {
    var keys := PrintAll(nets + [n]);
    assert keys[..|nets|] == PrintAll(nets);
    assert keys == PrintAll(nets) + [PrintNet(n)];
  }

  /** What releasing `nets` in turn makes of a store and its outbox. */
  ghost predicate Released(claims: Store, outbox: seq<Gossip>, claims': Store, outbox': seq<Gossip>, nets: seq<Net>,
                           clock: nat -> Hlc) {
    claims' == claims - Listed(PrintAll(nets)) && outbox' == outbox + Releases(PrintAll(nets), clock)
  }

  lemma ReleasedSnoc(claims: Store, outbox: seq<Gossip>, claims': Store, outbox': seq<Gossip>, nets: seq<Net>, n: Net,
                     clock: nat -> Hlc)
    requires Released(claims, outbox, claims', outbox', nets, clock)
    ensures Released(claims, outbox, claims' - {PrintNet(n)}, outbox' + [ClaimRelease(PrintNet(n), clock(|nets|))],
                     nets + [n], clock)
  {
    var key := PrintNet(n);
    ReleasesSnoc(nets, n, clock);
    RemoveOneMore(claims, Listed(PrintAll(nets)), key);
    Assoc(outbox, Releases(PrintAll(nets), clock), [ClaimRelease(key, clock(|nets|))]);
  }

  lemma RemoveOneMore(m: Store, keys: set<string>, k: string)
    ensures (m - keys) - {k} == m - (keys + {k})
  {
  }

  ghost function Listed(keys: seq<string>): set<string> {
    set k | k in keys
  }

  ghost function Kept(before: Store, self: string, order: seq<string>): Store
    requires order != []
  {
    before - (OwnKeys(before, self) - {order[0]})
  }

  /** Of the own claims of `before`, listed by seniority, `after` keeps the first; nothing else changes. */
  ghost predicate KeepsSenior(before: Store, after: Store, self: string, order: seq<string>) {
    && order != [] && BySeniority(before, OwnKeys(before, self), order)
    && after == Kept(before, self, order) && OwnKeys(after, self) == {order[0]}
  }

  lemma KeptIsSenior(before: Store, self: string, order: seq<string>)
    requires order != [] && BySeniority(before, OwnKeys(before, self), order)
    ensures KeepsSenior(before, Kept(before, self, order), self, order)
  {
    assert order[0] in order;
  }

  lemma ReleasedAreTheOthers(s: Store, self: string, order: seq<string>, extras: seq<Net>)
    requires KeyedByCidr(s) && order != [] && BySeniority(s, OwnKeys(s, self), order) && |extras| == |order| - 1
    requires forall i :: 0 <= i < |extras| ==> s[order[i + 1]].cidr == V4(extras[i])
    ensures PrintAll(extras) == order[1..]
    ensures Listed(order[1..]) == OwnKeys(s, self) - {order[0]}
  {
    forall i | 0 <= i < |extras| ensures PrintNet(extras[i]) == order[i + 1] {
      assert order[i + 1] in order;
    }
    assert order == [order[0]] + order[1..];
    forall i | 0 <= i < |order[1..]| ensures order[1..][i] != order[0] {
      assert order[1..][i] == order[i + 1];
    }
  }

  /** `after` is `before` plus one new claim by `self`, of the largest size from /24 to /30 that was
      free, at the first free slot from the hashed one, disjoint from every other client claim. */
  ghost predicate FreshClaim(before: Store, after: Store, self: string, hash: u64, now: Hlc, net: Net) {
    && PrintNet(net) !in before
    && after == before[PrintNet(net) := SubnetClaim(V4(net), self, None, now)]
    && OwnKeys(after, self) == {PrintNet(net)}
    && 24 <= net.plen <= 30 && Contains(Net(0x0A2A_0000, 16), net)
    && FirstFreeFrom(net, hash as int, MESH_SPACE, net.plen, ForeignNets(before, self))
    && (forall p: Plen :: 24 <= p < net.plen ==> !AnyFree(MESH_SPACE, p, ForeignNets(before, self)))
    && (forall k :: k in before && before[k].cidr.V4? ==> Disjoint(before[k].cidr.net, net))
  }

  lemma SixteenBits()
    ensures Size(16) == 0x1_0000
  {
    assert Pow2(8) == 256;
    ScaleTwice(1, 8, 8);
    ScaleIsProduct(256, 8);
  }

  /** A /16 written with its last two octets zero spans just those. */
  lemma SixteenShape(high: nat)
    requires high < 0x1_0000
    ensures var n := Net(high * 0x1_0000, 16);
            Size(16) == 0x1_0000 && Network(n) == high * 0x1_0000 && Last(n) == high * 0x1_0000 + 0xFFFF
  {
    SixteenBits();
    var a := high * 0x1_0000;
    var q := Shift(a, 16);
    ShiftRoundsDown(a, 16);
    ScaleIsProduct(q, 16);
  }

  /** Client subnets are /24s of 10.42.0.0/16. */
  lemma ClientSubnets()
    ensures CLIENT_PREFIX_LEN == 24 && MESH_SPACE == Net(0x0A2A_0000, 16)
  {
  }

  lemma MeshSpaceShape()
    ensures Network(MESH_SPACE) == 0x0A2A_0000 && Last(MESH_SPACE) == 0x0A2A_FFFF
  {
    SixteenShape(0x0A2A);
  }

  /** The test for backhaul claims is containment in 10.254.0.0/16, that is, that all addresses lie between
      10.254.0.0 and 10.254.255.255. */
  lemma BackhaulIff(n: Net)
    ensures InBackhaulBlock(n) <==> Contains(Net(0x0AFE_0000, 16), n)
    ensures InBackhaulBlock(n) <==> forall x :: In(x, n) ==> 0x0AFE_0000 <= x <= 0x0AFE_FFFF
  {
    var block := Net(0x0AFE_0000, 16);
    SixteenShape(0x0AFE);
    PowIsPositive(32 - n.plen);
    assert In(Network(n), n) && In(Last(n), n);
    if n.plen >= 16 {
      PowersGrow(32 - n.plen, 16);
      if Network(n) / 0x1_0000 == 0x0AFE { SharedAddressNests(block, n, Network(n)); }
    } else {
      PowersGrow(17, 32 - n.plen);
      assert Pow2(17) == 2 * Pow2(16);
    }
  }

  lemma IsClientIff(c: SubnetClaim)
    ensures IsClient(c) <==> c.cidr.V4? && !BackhaulClaim(c)
  {
    if c.cidr.V4? { BackhaulIff(c.cidr.net); }
  }

  /** The own client claims are the own IPv4 claims outside the backhaul block. */
  lemma OwnKeysIff(s: Store, self: string, k: string)
    ensures k in OwnKeys(s, self) <==> k in s && s[k].owner == self && s[k].cidr.V4? && !BackhaulClaim(s[k])
  {
    if k in s { IsClientIff(s[k]); }
  }

  /** No message announces or releases a backhaul claim. */
  ghost predicate SparesBackhaul(before: Store, gossip: seq<Gossip>) {
    forall i :: 0 <= i < |gossip| ==>
      match gossip[i]
      case ClaimUpdate(_, entry) => !BackhaulClaim(entry)
      case ClaimRelease(key, _) => key in before && !BackhaulClaim(before[key])
  }

  lemma {:induction false} ReleasesSpare(before: Store, self: string, keys: seq<string>, clock: nat -> Hlc)
    requires forall k :: k in keys ==> k in OwnKeys(before, self)
    ensures SparesBackhaul(before, Releases(keys, clock))
  {
    if keys != [] {
      var n := |keys| - 1;
      ReleasesSpare(before, self, keys[..n], clock);
      assert keys[n] in keys;
      OwnKeysIff(before, self, keys[n]);
    }
  }

  /** Keeping the senior claim leaves the backhaul claims alone. */
  lemma KeepingSpares(before: Store, self: string, order: seq<string>, clock: nat -> Hlc)
    requires order != [] && BySeniority(before, OwnKeys(before, self), order)
    ensures SparesBackhaul(before, Releases(order[1..], clock) + [ClaimUpdate(order[0], before[order[0]])])
    ensures before[order[0]].cidr.V4? && !BackhaulClaim(before[order[0]])
    ensures forall k :: k in before && BackhaulClaim(before[k]) ==> k !in OwnKeys(before, self)
  {
    assert order[0] in order;
    OwnKeysIff(before, self, order[0]);
    forall k | k in order[1..] ensures k in OwnKeys(before, self) {
      assert k in order;
    }
    ReleasesSpare(before, self, order[1..], clock);
    forall k | k in before && BackhaulClaim(before[k]) ensures k !in OwnKeys(before, self) {
      OwnKeysIff(before, self, k);
    }
  }

  /** A block of the mesh space shares no address with the backhaul block. */
  lemma MeshIsNotBackhaul(net: Net, other: Net)
    requires Contains(MESH_SPACE, net)
    ensures !InBackhaulBlock(net)
    ensures InBackhaulBlock(other) ==> Disjoint(other, net)
  {
    MeshSpaceShape();
    PowIsPositive(32 - net.plen);
    if InBackhaulBlock(other) {
      PowersGrow(32 - other.plen, 16);
      SixteenShape(0);
    }
  }

  lemma FreshKeyIsNew(s: Store, self: string, hash: u64, net: Net)
    requires KeyedByCidr(s) && OwnKeys(s, self) == {}
    requires FirstFreeFrom(net, hash as int, MESH_SPACE, net.plen, ForeignNets(s, self))
    ensures PrintNet(net) !in s && Contains(MESH_SPACE, net) && !InBackhaulBlock(net)
    ensures forall k :: k in s && s[k].cidr.V4? ==> Disjoint(s[k].cidr.net, net)
  {
    FirstFreeIsFree(net, hash as int, MESH_SPACE, net.plen, ForeignNets(s, self));
    MeshIsNotBackhaul(net, net);
    PowIsPositive(32 - net.plen);
    forall k | k in s && s[k].cidr.V4? ensures Disjoint(s[k].cidr.net, net) {
      MeshIsNotBackhaul(net, s[k].cidr.net);
      if IsClient(s[k]) {
        assert k !in OwnKeys(s, self);
        assert s[k].cidr.net in ForeignNets(s, self);
      }
    }
    var key := PrintNet(net);
    if key in s {
      match s[key].cidr
      case V4(n) =>
        PrintNetInjective(n, net);
        assert In(Network(net), net);
      case V6(text) =>
        PrintNetHasNoColon(net);
    }
  }
}
