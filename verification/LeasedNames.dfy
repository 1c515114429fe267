/** Key-owned leased names and their merge (`crdt/leased_name.rs`). */
module LeasedNames {
  import opened Basics
  import opened HybridClock

  const LEASE_TTL_MS: U64 := 60 * 60 * 1000

  datatype IpAddr = V4(addr: int) | V6(addr6: int)

  datatype LeasedName = LeasedName(
    owner: string,
    sig: string,
    challenge: string,
    ip: IpAddr,
    port: int,
    scheme: Option<string>,
    firstClaimedAt: Hlc,
    renewedAt: Hlc)

  datatype MergeResult<+T> = Inserted | Updated | Unchanged | Conflict(winner: T, loser: T)

  function LeaseExpiryMs(e: LeasedName): (t: U64) {
    SaturatingAdd(e.renewedAt.wallClock, LEASE_TTL_MS)
  }

  predicate IsExpired(e: LeasedName, nowMs: U64) {
    nowMs > LeaseExpiryMs(e)
  }

  /** A lease lasts an hour from its renewal, or for ever where that is past the last stamp. */
  lemma LeaseLastsAnHour(e: LeasedName, nowMs: U64)
    ensures IsExpired(e, nowMs) <==> nowMs - e.renewedAt.wallClock > 3_600_000
  {
  }

  /** Which of two claims by different keys holds, from the two records alone: (winner, loser). */
  function CrossOwnerWinner(a: LeasedName, b: LeasedName): (r: (LeasedName, LeasedName)) {
    var (incumbent, challenger) :=
      if !Before(b.firstClaimedAt, a.firstClaimedAt) then (a, b) else (b, a);
    if challenger.firstClaimedAt.wallClock > LeaseExpiryMs(incumbent)
    then (challenger, incumbent)
    else (incumbent, challenger)
  }

  function Merge(existing: Option<LeasedName>, incoming: LeasedName): (r: MergeResult<LeasedName>) {
    match existing
    case None => Inserted
    case Some(e) =>
      if e.owner == incoming.owner then
        if Before(e.renewedAt, incoming.renewedAt) then Updated else Unchanged
      else
        var (winner, loser) := CrossOwnerWinner(e, incoming);
        Conflict(winner, loser)
  }

  /** What the merge reports: a first record, a newer renewal of the same key, nothing new, or the two sides of a
      conflict between keys. */
  lemma MergeReports(existing: Option<LeasedName>, incoming: LeasedName)
    ensures var r := Merge(existing, incoming);
            && (r.Inserted? <==> existing.None?)
            && (r.Conflict? <==> existing.Some? && existing.value.owner != incoming.owner)
            && (r.Updated? <==> existing.Some? && existing.value.owner == incoming.owner
                                && Before(existing.value.renewedAt, incoming.renewedAt))
            && (r.Conflict? ==> && multiset{r.winner, r.loser} == multiset{existing.value, incoming}
                                && r.winner == Applied(existing, incoming))
  {
  }

  /** The record a name holds once `incoming` has been applied to it. */
  function Applied(existing: Option<LeasedName>, incoming: LeasedName): (r: LeasedName) {
    match Merge(existing, incoming)
    case Inserted => incoming
    case Updated => incoming
    case Unchanged => existing.value
    case Conflict(winner, _) => winner
  }

  /** The directory a node holds, updated in place. */
  class NameBook {
    var entries: map<string, LeasedName>

    constructor ()
      ensures entries == map[]
    {
      entries := map[];
    }

    function Get(name: string): (e: Option<LeasedName>)
      reads this
    {
      if name in entries then Some(entries[name]) else None
    }

    method Apply(name: string, incoming: LeasedName) returns (result: MergeResult<LeasedName>)
      modifies this
      ensures result == Merge(old(Get(name)), incoming)
      ensures entries == old(entries)[name := Applied(old(Get(name)), incoming)]
    {
      result := Merge(Get(name), incoming);
      match result
      case Inserted => entries := entries[name := incoming];
      case Updated => entries := entries[name := incoming];
      case Conflict(winner, _) =>
        if winner.owner == incoming.owner && winner == incoming {
          entries := entries[name := incoming];
        } else {
          entries := entries[name := winner];
        }
      case Unchanged =>
    }
  }

  // ----- Which record should win -----------------------------------------------------------

  /** `w` holds against `x`: a newer renewal of the same key; or a rival whose first claim fell
      inside `w`'s lease; or a claim first made strictly after `x`'s lease had lapsed; or, of two claims first
      made at once, the one whose lease was then alive against one whose lease was not. */
  ghost predicate Beats(w: LeasedName, x: LeasedName) {
    if w.owner == x.owner then
      Before(x.renewedAt, w.renewedAt)
    else if Before(w.firstClaimedAt, x.firstClaimedAt) then
      x.firstClaimedAt.wallClock <= LeaseExpiryMs(w)
    else if Before(x.firstClaimedAt, w.firstClaimedAt) then
      w.firstClaimedAt.wallClock > LeaseExpiryMs(x)
    else
      x.firstClaimedAt.wallClock <= LeaseExpiryMs(w) && w.firstClaimedAt.wallClock > LeaseExpiryMs(x)
  }

  /** The stamps do not tell the two records apart: one key, one renewal stamp; or two keys, one first claim,
      and both leases alive or both lapsed at that moment. */
  ghost predicate Tied(x: LeasedName, y: LeasedName) {
    && x != y
    && if x.owner == y.owner then x.renewedAt == y.renewedAt
       else && x.firstClaimedAt == y.firstClaimedAt
            && (IsExpired(x, x.firstClaimedAt.wallClock) <==> IsExpired(y, x.firstClaimedAt.wallClock))
  }

  ghost predicate NoTies(claims: set<LeasedName>) {
    forall x, y :: x in claims && y in claims ==> !Tied(x, y)
  }

  ghost predicate DominatesAll(w: LeasedName, claims: set<LeasedName>) {
    forall x :: x in claims ==> x == w || Beats(w, x)
  }

  ghost predicate HasDominator(claims: set<LeasedName>) {
    exists w {:trigger DominatesAll(w, claims)} :: w in claims && DominatesAll(w, claims)
  }

  /** Each key keeps the one first claim it started with. */
  ghost predicate OneTenurePerKey(claims: set<LeasedName>) {
    forall x, y :: x in claims && y in claims && x.owner == y.owner ==> x.firstClaimedAt == y.firstClaimedAt
  }

  /** Of two different records one beats the other, and not both, or they are tied. */
  lemma BeatsOrTied(x: LeasedName, y: LeasedName)
    ensures !(Beats(x, y) && Beats(y, x)) && !Beats(x, x)
    ensures x != y ==> (Tied(x, y) <==> !Beats(x, y) && !Beats(y, x))
  {
    HlcOrder(x.firstClaimedAt, y.firstClaimedAt);
    HlcOrder(y.firstClaimedAt, x.firstClaimedAt);
    HlcOrder(x.renewedAt, y.renewedAt);
    HlcOrder(y.renewedAt, x.renewedAt);
    HlcOrder(x.renewedAt, x.renewedAt);
  }

  /** The merge ends in `w` whichever of the two records arrived first exactly when `w` beats the other. */
  lemma MergeFollowsBeats(w: LeasedName, x: LeasedName)
    ensures Applied(Some(w), x) == w && Applied(Some(x), w) == w <==> w == x || Beats(w, x)
  {
    HlcOrder(w.firstClaimedAt, x.firstClaimedAt);
    HlcOrder(x.firstClaimedAt, w.firstClaimedAt);
    HlcOrder(w.renewedAt, x.renewedAt);
    HlcOrder(x.renewedAt, w.renewedAt);
  }

  /** The verdict between two keys does not depend on arrival order exactly when their first claims
      differ, or they tie and exactly one of the two leases had lapsed by that shared first claim. */
  lemma VerdictIsSymmetricIff(a: LeasedName, b: LeasedName)
    requires a.owner != b.owner
    ensures Applied(Some(a), b) == Applied(Some(b), a) <==>
            || a.firstClaimedAt != b.firstClaimedAt
            || (IsExpired(a, a.firstClaimedAt.wallClock) <==> !IsExpired(b, a.firstClaimedAt.wallClock))
  {
    HlcOrder(a.firstClaimedAt, b.firstClaimedAt);
    HlcOrder(b.firstClaimedAt, a.firstClaimedAt);
  }

  /** The verdict on a tie goes to whichever record the node held first. */
  lemma TiedClaimsKeepTheFirst(a: LeasedName, b: LeasedName)
    requires a.owner != b.owner && a.firstClaimedAt == b.firstClaimedAt
    requires !IsExpired(a, a.firstClaimedAt.wallClock) && !IsExpired(b, a.firstClaimedAt.wallClock)
    ensures Applied(Some(a), b) == a && Applied(Some(b), a) == b && !Converges({a, b})
  {
    HlcOrder(a.firstClaimedAt, b.firstClaimedAt);
    HeldOfTwo(a, b);
    HeldOfTwo(b, a);
    assert Delivers([a, b], {a, b}) && Delivers([b, a], {a, b});
  }

  // ----- Delivery --------------------------------------------------------------------------

  /** The record held after the deliveries `ds`, in that order, to a node that knew nothing. */
  ghost function Held(ds: seq<LeasedName>): Option<LeasedName> {
    if ds == [] then None else Some(Applied(Held(ds[..|ds| - 1]), ds[|ds| - 1]))
  }

  /** `ds` delivers every record of `claims` and nothing else, in any order, with any repetition. */
  ghost predicate Delivers(ds: seq<LeasedName>, claims: set<LeasedName>) {
    forall x :: x in ds <==> x in claims
  }

  ghost predicate Converges(claims: set<LeasedName>) {
    forall ds, es :: Delivers(ds, claims) && Delivers(es, claims) ==> Held(ds) == Held(es)
  }

  lemma {:induction false} HeldWasDelivered(ds: seq<LeasedName>)
    requires ds != []
    ensures Held(ds).Some? && Held(ds).value in ds
  {
    var before := ds[..|ds| - 1];
    assert ds == before + [ds[|ds| - 1]];
    if before != [] {
      HeldWasDelivered(before);
    }
  }

  lemma {:induction false} DominatorIsHeld(ds: seq<LeasedName>, w: LeasedName)
    requires w in ds && forall x :: x in ds ==> x == w || Beats(w, x)
    ensures Held(ds) == Some(w)
  {
    var before, last := ds[..|ds| - 1], ds[|ds| - 1];
    assert ds == before + [last];
    if w in before {
      DominatorIsHeld(before, w);
      if last != w {
        MergeFollowsBeats(w, last);
      } else {
        HlcOrder(w.renewedAt, w.renewedAt);
      }
    } else {
      assert last == w;
      if before != [] {
        HeldWasDelivered(before);
        MergeFollowsBeats(w, Held(before).value);
      }
    }
  }

  lemma HeldSnoc(ds: seq<LeasedName>, y: LeasedName)
    ensures Held(ds + [y]) == Some(Applied(Held(ds), y))
  {
    assert (ds + [y])[..|ds|] == ds;
  }

  lemma DominatedConverges(claims: set<LeasedName>, w: LeasedName)
    requires w in claims && DominatesAll(w, claims)
    ensures Converges(claims)
  {
    forall ds | Delivers(ds, claims) ensures Held(ds) == Some(w) {
      DominatorIsHeld(ds, w);
    }
  }

  lemma ListedRecordHeld(claims: set<LeasedName>) returns (ds: seq<LeasedName>, x: LeasedName)
    requires claims != {}
    ensures Delivers(ds, claims) && x in claims && Held(ds) == Some(x)
  {
    ds := ListSet(claims);
    var first :| first in claims;
    assert first in ds;
    HeldWasDelivered(ds);
    x := Held(ds).value;
  }

  /** A record that is not held and does not arrive again is not held later. */
  lemma {:induction false} NeverReturns(ds: seq<LeasedName>, rest: seq<LeasedName>, w: LeasedName)
    requires ds != [] && Held(ds) != Some(w) && w !in rest
    ensures Held(ds + rest) != Some(w)
  {
    if rest == [] {
      assert ds + rest == ds;
    } else {
      var k := |rest| - 1;
      NeverReturns(ds, rest[..k], w);
      assert ds + rest == ds + rest[..k] + [rest[k]];
      HeldSnoc(ds + rest[..k], rest[k]);
      HeldWasDelivered(ds + rest[..k]);
    }
  }

  /** What all deliveries end in beats all other records: one that displaces it could come last, and one
      that keeps it out could come first. */
  lemma AgreedRecordBeats(claims: set<LeasedName>, ds: seq<LeasedName>, w: LeasedName, x: LeasedName)
    requires Converges(claims) && Delivers(ds, claims) && Held(ds) == Some(w) && w in claims && x in claims
    ensures x == w || Beats(w, x)
  {
    if x != w {
      HeldSnoc(ds, x);
      assert Delivers(ds + [x], claims);
      var others := ListSet(claims - {w});
      var es := [x, w] + others;
      assert Delivers(es, claims);
      HeldOfTwo(x, w);
      if Applied(Some(x), w) != w { NeverReturns([x, w], others, w); }
      MergeFollowsBeats(w, x);
    }
  }

  /** Exact condition for convergence: any records, any keys, any order and repetition of delivery. */
  lemma ConvergesIffDominated(claims: set<LeasedName>)
    requires claims != {}
    ensures Converges(claims) <==> HasDominator(claims)
  {
    if HasDominator(claims) {
      var w :| w in claims && DominatesAll(w, claims);
      DominatedConverges(claims, w);
    }
    if Converges(claims) {
      var ds, w := ListedRecordHeld(claims);
      forall x | x in claims ensures x == w || Beats(w, x) {
        AgreedRecordBeats(claims, ds, w, x);
      }
      assert DominatesAll(w, claims);
    }
  }

  /** Two tied records, delivered alone, end in whichever came first. */
  lemma TiedDiverge(x: LeasedName, y: LeasedName)
    requires Tied(x, y)
    ensures !Converges({x, y})
  {
    BeatsOrTied(x, y);
    ConvergesIffDominated({x, y});
  }

  /** Two keys, any number of renewals each, one tenure per key: every delivery of the same records
      ends in the later claimant's newest record if it was first claimed past the lease of the earlier
      claimant's newest renewal, and otherwise in the earlier claimant's newest record. */
  lemma TwoOwnersConverge(ds: seq<LeasedName>, a: LeasedName, b: LeasedName)
    requires NoTies(set x | x in ds) && OneTenurePerKey(set x | x in ds)
    requires a in ds && b in ds && Before(a.firstClaimedAt, b.firstClaimedAt)
    requires forall x :: x in ds ==> x.owner == a.owner || x.owner == b.owner
    requires forall x :: x in ds && x.owner == a.owner ==> !Before(a.renewedAt, x.renewedAt)
    requires forall x :: x in ds && x.owner == b.owner ==> !Before(b.renewedAt, x.renewedAt)
    ensures Held(ds) == Some(if b.firstClaimedAt.wallClock > LeaseExpiryMs(a) then b else a)
  {
    HlcOrder(a.firstClaimedAt, b.firstClaimedAt);
    HlcOrder(a.firstClaimedAt, a.firstClaimedAt);
    var w := if b.firstClaimedAt.wallClock > LeaseExpiryMs(a) then b else a;
    forall x | x in ds && x != w ensures Beats(w, x) {
      assert !Tied(w, x);
      HlcOrder(x.renewedAt, a.renewedAt);
      HlcOrder(x.renewedAt, b.renewedAt);
    }
    DominatorIsHeld(ds, w);
  }

  // ----- Three and more keys ---------------------------------------------------------------

  /** Three keys: `b` was claimed during `a`'s lease, and `c` after `a`'s lease but during `b`'s. Then `a`
      beats `b`, `b` beats `c` and `c` beats `a`. */
  ghost predicate GapTriple(a: LeasedName, b: LeasedName, c: LeasedName) {
    && a.owner != b.owner && b.owner != c.owner && a.owner != c.owner
    && Before(a.firstClaimedAt, b.firstClaimedAt)
    && Before(b.firstClaimedAt, c.firstClaimedAt)
    && b.firstClaimedAt.wallClock <= LeaseExpiryMs(a) < c.firstClaimedAt.wallClock <= LeaseExpiryMs(b)
  }

  /** Two keys: an older record of a key holds against a rival that holds against a newer record of that
      key. The newer record beats the older one, so the three form a circle; the key has two first claims. */
  ghost predicate TenureTriple(older: LeasedName, rival: LeasedName, newer: LeasedName) {
    && older.owner == newer.owner && older.owner != rival.owner
    && Before(older.renewedAt, newer.renewedAt)
    && Beats(older, rival) && Beats(rival, newer)
  }

  ghost predicate HasGapTriple(claims: set<LeasedName>) {
    exists a, b, c :: a in claims && b in claims && c in claims && GapTriple(a, b, c)
  }

  ghost predicate HasTenureTriple(claims: set<LeasedName>) {
    exists a, b, c :: a in claims && b in claims && c in claims && TenureTriple(a, b, c)
  }

  /** Neither way for three claims to beat one another in a circle. */
  ghost predicate Acyclic(claims: set<LeasedName>) {
    !HasGapTriple(claims) && !HasTenureTriple(claims)
  }

  lemma GapTripleIsCycle(a: LeasedName, b: LeasedName, c: LeasedName)
    requires GapTriple(a, b, c)
    ensures Beats(a, b) && Beats(b, c) && Beats(c, a)
  {
    HlcTransitive(a.firstClaimedAt, b.firstClaimedAt, c.firstClaimedAt);
    HlcOrder(c.firstClaimedAt, a.firstClaimedAt);
    HlcOrder(a.firstClaimedAt, c.firstClaimedAt);
  }

  /** A newer renewal of a tenure loses to no rival that an older renewal of it beat. */
  lemma RenewalKeepsWins(newer: LeasedName, older: LeasedName, rival: LeasedName)
    requires newer.owner == older.owner && older.owner != rival.owner
    requires newer.firstClaimedAt == older.firstClaimedAt
    requires Before(older.renewedAt, newer.renewedAt) && Beats(older, rival)
    ensures Beats(newer, rival)
  {
    HlcOrder(older.renewedAt, newer.renewedAt);
  }

  /** Where every key keeps one first claim only three keys can form a circle. */
  lemma OneTenureExcludesTenureTriples(claims: set<LeasedName>)
    requires OneTenurePerKey(claims)
    ensures !HasTenureTriple(claims)
  {
    forall a, b, c | a in claims && b in claims && c in claims ensures !TenureTriple(a, b, c) {
      if TenureTriple(a, b, c) {
        RenewalKeepsWins(c, a, b);
        BeatsOrTied(c, b);
      }
    }
  }

  /** A tenure triple read off the stamps. Either the rival was claimed inside the older record's lease and
      the key claimed anew inside the rival's; or the newer record continues a tenure begun inside the rival's
      lease, and the older one a tenure begun after it. */
  lemma TenureTripleIff(older: LeasedName, rival: LeasedName, newer: LeasedName)
    requires older.owner == newer.owner && older.owner != rival.owner && Before(older.renewedAt, newer.renewedAt)
    requires older.firstClaimedAt.wallClock <= older.renewedAt.wallClock
    ensures TenureTriple(older, rival, newer) <==>
            && Before(rival.firstClaimedAt, newer.firstClaimedAt)
            && newer.firstClaimedAt.wallClock <= LeaseExpiryMs(rival)
            && (|| (&& Before(older.firstClaimedAt, rival.firstClaimedAt)
                    && rival.firstClaimedAt.wallClock <= LeaseExpiryMs(older))
                || LeaseExpiryMs(rival) < older.firstClaimedAt.wallClock)
  {
    HlcOrder(older.renewedAt, newer.renewedAt);
    HlcOrder(older.firstClaimedAt, rival.firstClaimedAt);
    HlcOrder(rival.firstClaimedAt, older.firstClaimedAt);
    HlcOrder(rival.firstClaimedAt, newer.firstClaimedAt);
    HlcOrder(newer.firstClaimedAt, rival.firstClaimedAt);
  }

  /** With the earliest first claim at `a`, the winners among three keys form a cycle only as a gap. */
  lemma CycleOfThreeKeys(a: LeasedName, b: LeasedName, c: LeasedName)
    requires a.owner != b.owner && b.owner != c.owner && a.owner != c.owner
    requires Before(a.firstClaimedAt, b.firstClaimedAt) && Before(a.firstClaimedAt, c.firstClaimedAt)
    requires Beats(a, b) && Beats(b, c) && Beats(c, a)
    ensures GapTriple(a, b, c)
  {
    HlcOrder(a.firstClaimedAt, b.firstClaimedAt);
    HlcOrder(b.firstClaimedAt, c.firstClaimedAt);
    HlcOrder(a.firstClaimedAt, c.firstClaimedAt);
    HlcOrder(c.firstClaimedAt, b.firstClaimedAt);
  }

  /** Three keys in a circle have a gap triple among their three rotations. */
  lemma ThreeKeyCycle(x: LeasedName, y: LeasedName, z: LeasedName)
    requires x.owner != y.owner && y.owner != z.owner && x.owner != z.owner
    requires Beats(x, y) && Beats(y, z) && Beats(z, x)
    ensures GapTriple(x, y, z) || GapTriple(y, z, x) || GapTriple(z, x, y)
  {
    HlcOrder(x.firstClaimedAt, y.firstClaimedAt);
    HlcOrder(y.firstClaimedAt, z.firstClaimedAt);
    HlcOrder(z.firstClaimedAt, x.firstClaimedAt);
    if Before(x.firstClaimedAt, y.firstClaimedAt) && Before(x.firstClaimedAt, z.firstClaimedAt) {
      CycleOfThreeKeys(x, y, z);
    } else if Before(y.firstClaimedAt, x.firstClaimedAt) && Before(y.firstClaimedAt, z.firstClaimedAt) {
      CycleOfThreeKeys(y, z, x);
    } else {
      HlcOrder(z.firstClaimedAt, y.firstClaimedAt);
      HlcOrder(y.firstClaimedAt, x.firstClaimedAt);
      HlcOrder(x.firstClaimedAt, z.firstClaimedAt);
      if Before(x.firstClaimedAt, y.firstClaimedAt) {
        HlcTransitive(z.firstClaimedAt, x.firstClaimedAt, y.firstClaimedAt);
      } else {
        HlcTransitive(z.firstClaimedAt, y.firstClaimedAt, x.firstClaimedAt);
      }
      CycleOfThreeKeys(z, x, y);
    }
  }

  /** Every circle of three records, whatever their keys and stamps, is a gap or a tenure triple. */
  lemma CycleIsTriple(x: LeasedName, y: LeasedName, z: LeasedName)
    requires Beats(x, y) && Beats(y, z) && Beats(z, x)
    ensures !Acyclic({x, y, z})
  {
    if x.owner == y.owner && y.owner == z.owner {
      HlcTransitive(z.renewedAt, y.renewedAt, x.renewedAt);
      HlcOrder(z.renewedAt, x.renewedAt);
    } else if x.owner == y.owner {
      assert TenureTriple(y, z, x);
    } else if y.owner == z.owner {
      assert TenureTriple(z, x, y);
    } else if x.owner == z.owner {
      assert TenureTriple(x, y, z);
    } else {
      ThreeKeyCycle(x, y, z);
    }
  }

  lemma PartIsAcyclic(claims: set<LeasedName>, part: set<LeasedName>)
    requires Acyclic(claims) && part <= claims
    ensures Acyclic(part)
  {
  }

  /** Without such a triple, no three records beat one another in a circle. */
  lemma NoCycle(claims: set<LeasedName>, x: LeasedName, y: LeasedName, z: LeasedName)
    requires x in claims && y in claims && z in claims && Acyclic(claims)
    requires Beats(x, y) && Beats(y, z)
    ensures !Beats(z, x)
  {
    PartIsAcyclic(claims, {x, y, z});
    if Beats(z, x) { CycleIsTriple(x, y, z); }
  }

  /** Without ties and such triples the winner relation is a strict total order on the claims. */
  lemma BeatsIsStrictTotalOrder(claims: set<LeasedName>, x: LeasedName, y: LeasedName, z: LeasedName)
    requires NoTies(claims) && x in claims && y in claims && z in claims && Acyclic(claims)
    ensures !Beats(x, x)
    ensures x == y || (Beats(x, y) <==> !Beats(y, x))
    ensures Beats(x, y) && Beats(y, z) ==> Beats(x, z)
  {
    BeatsOrTied(x, y);
    if Beats(x, y) && Beats(y, z) {
      NoCycle(claims, x, y, z);
      BeatsOrTied(x, z);
    }
  }

  lemma {:induction false} DominatorExists(claims: set<LeasedName>, part: set<LeasedName>) returns (w: LeasedName)
    requires NoTies(claims) && Acyclic(claims) && part <= claims && part != {}
    ensures w in part && DominatesAll(w, part)
  {
    var x :| x in part;
    if part == {x} {
      w := x;
    } else {
      var v := DominatorExists(claims, part - {x});
      BeatsOrTied(v, x);
      w := if Beats(v, x) then v else x;
      forall y | y in part && y != w ensures Beats(w, y) {
        if w == x && y != v {
          BeatsIsStrictTotalOrder(claims, x, v, y);
        }
      }
    }
  }

  /** Three records in a circle, delivered alone, end in different records. */
  lemma CycleDiverges(a: LeasedName, b: LeasedName, c: LeasedName)
    requires Beats(a, b) && Beats(b, c) && Beats(c, a)
    ensures !Converges({a, b, c})
  {
    CycleHoldsTheLast(a, b, c);
    BeatsOrTied(a, b);
    assert Delivers([b, c, a], {a, b, c}) && Delivers([c, a, b], {a, b, c});
  }

  lemma DeliveredIsClaimed(ds: seq<LeasedName>, part: set<LeasedName>)
    requires Delivers(ds, part) && ds != []
    ensures part != {}
  {
    assert ds[0] in ds;
  }

  lemma AcyclicConverges(claims: set<LeasedName>, part: set<LeasedName>)
    requires NoTies(claims) && Acyclic(claims) && part <= claims
    ensures Converges(part)
  {
    if part == {} {
      forall ds | Delivers(ds, part) ensures Held(ds) == None {
        if ds != [] { DeliveredIsClaimed(ds, part); }
      }
    } else {
      var w := DominatorExists(claims, part);
      DominatedConverges(part, w);
    }
  }

  lemma DivergingPart(claims: set<LeasedName>) returns (part: set<LeasedName>)
    requires !NoTies(claims) || !Acyclic(claims)
    ensures part <= claims && !Converges(part)
  {
    if !NoTies(claims) {
      var x, y :| x in claims && y in claims && Tied(x, y);
      TiedDiverge(x, y);
      part := {x, y};
    } else if HasGapTriple(claims) {
      var a, b, c :| a in claims && b in claims && c in claims && GapTriple(a, b, c);
      GapTripleIsCycle(a, b, c);
      CycleDiverges(a, b, c);
      part := {a, b, c};
    } else {
      var a, b, c :| a in claims && b in claims && c in claims && TenureTriple(a, b, c);
      CycleDiverges(a, b, c);
      part := {a, b, c};
    }
  }

  /** Exact condition for any records: all nodes that received the same of them agree, whichever those are,
      if and only if no two are tied and no three form a circle, which takes a gap between three keys or two
      tenures of one of two keys. */
  lemma EveryPartConvergesIffAcyclic(claims: set<LeasedName>)
    ensures (forall part :: part <= claims ==> Converges(part)) <==> NoTies(claims) && Acyclic(claims)
  {
    if NoTies(claims) && Acyclic(claims) {
      forall part | part <= claims ensures Converges(part) {
        AcyclicConverges(claims, part);
      }
    } else {
      var part := DivergingPart(claims);
    }
  }

  /** Of three records in a circle a node can be made to hold any: the last to arrive. */
  lemma CycleHoldsTheLast(a: LeasedName, b: LeasedName, c: LeasedName)
    requires Beats(a, b) && Beats(b, c) && Beats(c, a)
    ensures Held([b, c, a]) == Some(a) && Held([c, a, b]) == Some(b) && Held([a, b, c]) == Some(c)
  {
    MergeFollowsBeats(a, b);
    MergeFollowsBeats(b, c);
    MergeFollowsBeats(c, a);
    HeldOfThree(b, c, a);
    HeldOfThree(c, a, b);
    HeldOfThree(a, b, c);
  }

  /** For two keys, ties and tenure triples are the only obstacles. */
  lemma TwoKeysConvergeIffNoTenureTriple(claims: set<LeasedName>, p: string, q: string)
    requires forall x :: x in claims ==> x.owner == p || x.owner == q
    ensures (forall part :: part <= claims ==> Converges(part)) <==> NoTies(claims) && !HasTenureTriple(claims)
  {
    EveryPartConvergesIffAcyclic(claims);
    assert !HasGapTriple(claims);
  }

  /** Two keys can disagree: a renewal unseen by the rival's node, then a new claim of the former owner on a
      node that had not seen the rival's renewal. The held record is whichever arrived last. */
  lemma TwoKeysCanDisagree() returns (older: LeasedName, rival: LeasedName, newer: LeasedName)
    ensures NoTies({older, rival, newer}) && TenureTriple(older, rival, newer)
    ensures Held([rival, newer, older]) == Some(older)
    ensures Held([newer, older, rival]) == Some(rival)
    ensures Held([older, rival, newer]) == Some(newer)
  {
    var t := LEASE_TTL_MS;
    older := LeasedName("k", "", "", V4(1), 80, None, Hlc(0, 0, "n"), Hlc(t, 0, "n"));
    rival := LeasedName("l", "", "", V4(2), 80, None, Hlc(t + 1, 0, "o"), Hlc(2 * t, 0, "o"));
    newer := LeasedName("k", "", "", V4(1), 80, None, Hlc(2 * t + 2, 0, "p"), Hlc(2 * t + 2, 0, "p"));
    CycleHoldsTheLast(older, rival, newer);
  }

  /** They can also disagree when nobody lost the name: the key claims at once on a node that has not heard of
      the rival, and again on one whose record of the rival has lapsed, and then renews on the first. */
  lemma TwoTenuresCanDisagree() returns (older: LeasedName, rival: LeasedName, newer: LeasedName)
    ensures NoTies({older, rival, newer}) && TenureTriple(older, rival, newer)
    ensures Before(newer.firstClaimedAt, older.firstClaimedAt)
    ensures Held([rival, newer, older]) == Some(older)
    ensures Held([newer, older, rival]) == Some(rival)
    ensures Held([older, rival, newer]) == Some(newer)
  {
    var t := LEASE_TTL_MS;
    rival := LeasedName("l", "", "", V4(2), 80, None, Hlc(0, 0, "n"), Hlc(0, 0, "n"));
    older := LeasedName("k", "", "", V4(1), 80, None, Hlc(t + 1, 0, "n"), Hlc(t + 1, 0, "n"));
    newer := LeasedName("k", "", "", V4(1), 80, None, Hlc(t, 0, "o"), Hlc(t + 2, 0, "o"));
    CycleHoldsTheLast(older, rival, newer);
  }

  /** The gap condition is needed: three one-record keys whose verdict depends on the last arrival. */
  lemma ThreeKeysCanDisagree() returns (a: LeasedName, b: LeasedName, c: LeasedName)
    ensures NoTies({a, b, c}) && GapTriple(a, b, c)
    ensures Held([b, c, a]) == Some(a)
    ensures Held([c, a, b]) == Some(b)
    ensures Held([a, b, c]) == Some(c)
  {
    var t := LEASE_TTL_MS;
    a := LeasedName("ka", "", "", V4(1), 80, None, Hlc(0, 0, "n"), Hlc(0, 0, "n"));
    b := LeasedName("kb", "", "", V4(2), 80, None, Hlc(10, 0, "o"), Hlc(20, 0, "o"));
    c := LeasedName("kc", "", "", V4(3), 80, None, Hlc(t + 10, 0, "p"), Hlc(t + 10, 0, "p"));
    GapTripleIsCycle(a, b, c);
    CycleHoldsTheLast(a, b, c);
  }

  lemma HeldOfTwo(x: LeasedName, y: LeasedName)
    ensures Held([x, y]) == Some(Applied(Some(x), y))
  {
    HeldSnoc([], x);
    HeldSnoc([x], y);
    assert [] + [x] == [x] && [x] + [y] == [x, y];
  }

  lemma HeldOfThree(x: LeasedName, y: LeasedName, z: LeasedName)
    ensures Held([x, y, z]) == Some(Applied(Some(Applied(Some(x), y)), z))
  {
    HeldOfTwo(x, y);
    HeldSnoc([x, y], z);
    assert [x, y] + [z] == [x, y, z];
  }

  // ----- The whole book --------------------------------------------------------------------

  datatype Announcement = Announcement(name: string, claim: LeasedName)

  ghost function BookAfter(ds: seq<Announcement>): map<string, LeasedName> {
    if ds == [] then map[]
    else
      var book, last := BookAfter(ds[..|ds| - 1]), ds[|ds| - 1];
      var held := if last.name in book then Some(book[last.name]) else None;
      book[last.name := Applied(held, last.claim)]
  }

  ghost function ClaimsOn(ds: seq<Announcement>, name: string): seq<LeasedName> {
    if ds == [] then []
    else
      var rest, last := ClaimsOn(ds[..|ds| - 1], name), ds[|ds| - 1];
      if last.name == name then rest + [last.claim] else rest
  }

  lemma {:induction false} BookIsPerName(ds: seq<Announcement>, name: string)
    ensures Held(ClaimsOn(ds, name)) == if name in BookAfter(ds) then Some(BookAfter(ds)[name]) else None
  {
    if ds != [] {
      BookIsPerName(ds[..|ds| - 1], name);
      var rest, last := ClaimsOn(ds[..|ds| - 1], name), ds[|ds| - 1];
      if last.name == name {
        assert (rest + [last.claim])[..|rest|] == rest;
      }
    }
  }

  lemma {:induction false} ClaimsOnMembers(ds: seq<Announcement>, name: string, claim: LeasedName)
    ensures claim in ClaimsOn(ds, name) <==> Announcement(name, claim) in ds
  {
    if ds != [] {
      ClaimsOnMembers(ds[..|ds| - 1], name, claim);
      assert ds == ds[..|ds| - 1] + [ds[|ds| - 1]];
    }
  }

  /** Two nodes that heard the same announcements, in whatever order and however often, hold equal
      books, provided no name's claims contain a tie, a gap triple or a tenure triple. */
  lemma BooksConverge(ds: seq<Announcement>, es: seq<Announcement>)
    requires forall d :: d in ds <==> d in es
    requires forall name :: NoTies(set x | x in ClaimsOn(ds, name))
    requires forall name :: Acyclic(set x | x in ClaimsOn(ds, name))
    ensures BookAfter(ds) == BookAfter(es)
  {
    forall name
      ensures name in BookAfter(ds) <==> name in BookAfter(es)
      ensures name in BookAfter(ds) ==> BookAfter(ds)[name] == BookAfter(es)[name]
    {
      BookIsPerName(ds, name);
      BookIsPerName(es, name);
      var xs, ys := ClaimsOn(ds, name), ClaimsOn(es, name);
      var claims := set x | x in xs;
      forall x ensures x in xs <==> x in ys {
        ClaimsOnMembers(ds, name, x);
        ClaimsOnMembers(es, name, x);
      }
      AcyclicConverges(claims, claims);
      assert Delivers(xs, claims) && Delivers(ys, claims);
    }
  }
}
