/** Choosing gossip bootstrap candidates (`bootstrap.rs`). */
module Bootstrap {
  import opened Basics
  import opened Liveness
  import Text

  datatype Ranked = Ranked(id: string, recency: U64)

  /** Most recent first, id as the tiebreak. */
  predicate Precedes(a: Ranked, b: Ranked) {
    a.recency > b.recency || (a.recency == b.recency && Text.Less(a.id, b.id))
  }

  function Insert(x: Ranked, s: seq<Ranked>): (r: seq<Ranked>) {
    if s != [] && Precedes(s[0], x) then [s[0]] + Insert(x, s[1..]) else [x] + s
  }

  function Sort(s: seq<Ranked>): (r: seq<Ranked>) {
    if s == [] then [] else Insert(s[0], Sort(s[1..]))
  }

  ghost predicate Sorted(s: seq<Ranked>) {
    forall i, j :: 0 <= i < j < |s| ==> !Precedes(s[j], s[i])
  }

  lemma PrecedesIsTotal(a: Ranked, b: Ranked)
    ensures !Precedes(a, a) && (Precedes(a, b) ==> !Precedes(b, a))
    ensures a == b || Precedes(a, b) || Precedes(b, a)
  {
    Text.LessIsStrict(a.id, b.id);
  }

  lemma NotPrecedesIsTransitive(a: Ranked, b: Ranked, c: Ranked)
    requires !Precedes(b, a) && !Precedes(c, b)
    ensures !Precedes(c, a)
  {
    PrecedesIsTotal(a, b);
    PrecedesIsTotal(b, c);
    if a.recency == b.recency && b.recency == c.recency && a != b && b != c {
      Text.LessIsTransitive(a.id, b.id, c.id);
      Text.LessIsStrict(a.id, c.id);
    }
  }

  lemma HeadAndTail<T>(a: seq<T>)
    requires a != []
    ensures a == [a[0]] + a[1..] && multiset(a) == multiset{a[0]} + multiset(a[1..])
  {
    assert a == [a[0]] + a[1..];
  }

  lemma SortedCons(x: Ranked, s: seq<Ranked>)
    requires Sorted(s) && forall j :: 0 <= j < |s| ==> !Precedes(s[j], x)
    ensures Sorted([x] + s)
  {
  }

  lemma {:induction false} InsertSorts(x: Ranked, s: seq<Ranked>)
    requires Sorted(s)
    ensures Sorted(Insert(x, s)) && multiset(Insert(x, s)) == multiset(s) + multiset{x}
  {
    if s != [] && Precedes(s[0], x) {
      var t := Insert(x, s[1..]);
      InsertSorts(x, s[1..]);
      HeadAndTail(s);
      PrecedesIsTotal(s[0], x);
      forall j | 0 <= j < |t| ensures !Precedes(t[j], s[0]) {
        assert t[j] in multiset(t);
        assert t[j] == x || t[j] in s[1..];
      }
      SortedCons(s[0], t);
    } else if s != [] {
      forall j | 0 <= j < |s| ensures !Precedes(s[j], x) {
        PrecedesIsTotal(s[j], s[j]);
        NotPrecedesIsTransitive(x, s[0], s[j]);
      }
      SortedCons(x, s);
    }
  }

  lemma {:induction false} SortSorts(s: seq<Ranked>)
    ensures Sorted(Sort(s)) && multiset(Sort(s)) == multiset(s)
  {
    if s != [] {
      SortSorts(s[1..]);
      InsertSorts(s[0], Sort(s[1..]));
      HeadAndTail(s);
    }
  }

  lemma HeadIsLeast(a: seq<Ranked>, x: Ranked)
    requires Sorted(a) && x in a
    ensures !Precedes(x, a[0])
  {
    PrecedesIsTotal(x, x);
  }

  /** A collection has one sorted listing. */
  lemma {:induction false} SortedIsUnique(a: seq<Ranked>, b: seq<Ranked>)
    requires Sorted(a) && Sorted(b) && multiset(a) == multiset(b)
    ensures a == b
  {
    assert |a| == |multiset(a)| && |b| == |multiset(b)|;
    if a != [] {
      assert a[0] in multiset(b) && b[0] in multiset(a);
      HeadIsLeast(a, b[0]);
      HeadIsLeast(b, a[0]);
      PrecedesIsTotal(a[0], b[0]);
      HeadAndTail(a);
      HeadAndTail(b);
      assert multiset(a[1..]) == multiset(b[1..]) by {
        assert multiset(a[1..]) == multiset(a) - multiset{a[0]};
        assert multiset(b[1..]) == multiset(b) - multiset{a[0]};
      }
      SortedIsUnique(a[1..], b[1..]);
    }
  }

  // ----- Specification ---------------------------------------------------------------------

  ghost function RecentOf(ids: set<string>, v: View, hardMs: U64, nowMs: U64): set<Ranked> {
    set id | id in ids && id in v && !HardExpired(v, hardMs, id, nowMs) :: Ranked(id, v[id].receivedAtMs)
  }

  ghost function DiskOf(ids: set<string>, book: map<string, U64>, v: View): set<Ranked> {
    set id | id in ids && id in book && id !in v :: Ranked(id, book[id])
  }

  function ClaimRecency(v: View, id: string): (r: U64) {
    if id in v then v[id].receivedAtMs else 0
  }

  function RankClaim(owner: string, v: View, hardMs: U64, nowMs: U64): (r: seq<Ranked>) {
    if HardExpired(v, hardMs, owner, nowMs) then [] else [Ranked(owner, ClaimRecency(v, owner))]
  }

  function RankClaims(owners: seq<string>, v: View, hardMs: U64, nowMs: U64): (r: seq<Ranked>) {
    if owners == [] then []
    else RankClaim(owners[0], v, hardMs, nowMs) + RankClaims(owners[1..], v, hardMs, nowMs)
  }

  function Ids(s: seq<Ranked>): (r: seq<string>)
    ensures |r| == |s| && forall i :: 0 <= i < |s| ==> r[i] == s[i].id
  {
    seq(|s|, i requires 0 <= i < |s| => s[i].id)
  }

  /** The ids of `s` in order of first appearance, without `self`. */
  ghost function Dedup(s: seq<string>, self: string): seq<string> {
    if s == [] then []
    else
      var d, x := Dedup(s[..|s| - 1], self), s[|s| - 1];
      if x == self || x in d then d else d + [x]
  }

  ghost function Take(s: seq<string>, cap: nat): seq<string> {
    if |s| <= cap then s else s[..cap]
  }

  /** The four tiers, each already ordered. */
  datatype Tiers = Tiers(roster: seq<string>, recent: seq<Ranked>, disk: seq<Ranked>, claims: seq<Ranked>)

  function Chain(t: Tiers): (r: seq<string>) {
    t.roster + Ids(t.recent) + Ids(t.disk) + Ids(t.claims)
  }

  /** `t` holds the tiers of these inputs; the address book maps each id to the time it was announced. */
  ghost predicate TiersOf(t: Tiers, roster: seq<string>, book: map<string, U64>, owners: seq<string>,
                          v: View, hardMs: U64, nowMs: U64) {
    && t.roster == roster
    && Sorted(t.recent) && multiset(t.recent) == multiset(RecentOf(book.Keys, v, hardMs, nowMs))
    && Sorted(t.disk) && multiset(t.disk) == multiset(DiskOf(book.Keys, book, v))
    && Sorted(t.claims) && multiset(t.claims) == multiset(RankClaims(owners, v, hardMs, nowMs))
  }

  // ----- The method ------------------------------------------------------------------------

  /** Split the address book by whether its ids were heard this run, dropping long-dead ones. The book is
      walked in no particular order. */
  method SplitBook(book: map<string, U64>, tracker: LivenessTracker, nowMs: U64)
    returns (recent: seq<Ranked>, disk: seq<Ranked>)
    ensures multiset(recent) == multiset(RecentOf(book.Keys, tracker.seen, tracker.hardExpiryMs, nowMs))
    ensures multiset(disk) == multiset(DiskOf(book.Keys, book, tracker.seen))
  {
    recent, disk := [], [];
    var todo, v, hardMs := book.Keys, tracker.seen, tracker.hardExpiryMs;
    ghost var done: set<string> := {};
    while todo != {}
      invariant done == book.Keys - todo && todo <= book.Keys
      invariant multiset(recent) == multiset(RecentOf(done, v, hardMs, nowMs))
      invariant multiset(disk) == multiset(DiskOf(done, book, v))
      decreases |todo|
    {
      var id :| id in todo;
      AddOne(done, id, book, v, hardMs, nowMs);
      todo, done := todo - {id}, done + {id};
      if !tracker.IsHardExpired(id, nowMs) {
        var seenAt := tracker.LastSeenMs(id);
        if seenAt.Some? {
          recent := recent + [Ranked(id, seenAt.value)];
        } else {
          disk := disk + [Ranked(id, book[id])];
        }
      }
    }
    assert done == book.Keys;
  }

  lemma AddOne(done: set<string>, id: string, book: map<string, U64>, v: View, hardMs: U64, nowMs: U64)
    requires id !in done && id in book
    ensures multiset(RecentOf(done + {id}, v, hardMs, nowMs)) ==
            multiset(RecentOf(done, v, hardMs, nowMs))
            + (if id in v && !HardExpired(v, hardMs, id, nowMs)
               then multiset{Ranked(id, v[id].receivedAtMs)} else multiset{})
    ensures multiset(DiskOf(done + {id}, book, v)) ==
            multiset(DiskOf(done, book, v)) + (if id !in v then multiset{Ranked(id, book[id])} else multiset{})
  {
    var r, d := RecentOf(done, v, hardMs, nowMs), DiskOf(done, book, v);
    if id in v && !HardExpired(v, hardMs, id, nowMs) {
      assert RecentOf(done + {id}, v, hardMs, nowMs) == r + {Ranked(id, v[id].receivedAtMs)};
    } else {
      assert RecentOf(done + {id}, v, hardMs, nowMs) == r;
    }
    if id !in v {
      assert DiskOf(done + {id}, book, v) == d + {Ranked(id, book[id])};
    } else {
      assert DiskOf(done + {id}, book, v) == d;
    }
  }

  /** Walk the chained tiers, skipping self and repeats, up to the cap. */
  method FirstDistinct(chain: seq<string>, self: string, cap: nat) returns (ordered: seq<string>)
    ensures ordered == Take(Dedup(chain, self), cap)
  {
    ordered := [];
    if cap == 0 {
      return;
    }
    var seen: set<string> := {};
    var i := 0;
    while i < |chain| && |ordered| < cap
      invariant 0 <= i <= |chain|
      invariant |ordered| <= cap && ordered == Dedup(chain[..i], self)
      invariant seen == set x | x in ordered
      decreases |chain| - i
    {
      assert chain[..i + 1][..i] == chain[..i];
      var id := chain[i];
      i := i + 1;
      if id != self && id !in seen {
        seen := seen + {id};
        ordered := ordered + [id];
      }
    }
    DedupIsMonotone(chain, self, i);
  }

  /** `ranking` is the first `cap` ids of the inputs' tiers chained, without self and without repeats. */
  ghost predicate IsRanking(ranking: seq<string>, roster: seq<string>, book: map<string, U64>, owners: seq<string>,
                            v: View, hardMs: U64, nowMs: U64, self: string, cap: nat) {
    exists t :: TiersOf(t, roster, book, owners, v, hardMs, nowMs) && ranking == Take(Dedup(Chain(t), self), cap)
  }

  method RankBootstrapCandidates(roster: seq<string>, book: map<string, U64>, owners: seq<string>,
                                 tracker: LivenessTracker, self: string, nowMs: U64, cap: nat)
    returns (ordered: seq<string>)
    ensures IsRanking(ordered, roster, book, owners, tracker.seen, tracker.hardExpiryMs, nowMs, self, cap)
  {
    var recent, disk := SplitBook(book, tracker, nowMs);
    var claims := RankClaims(owners, tracker.seen, tracker.hardExpiryMs, nowMs);
    SortSorts(recent);
    SortSorts(disk);
    SortSorts(claims);
    var tiers := Tiers(roster, Sort(recent), Sort(disk), Sort(claims));
    assert TiersOf(tiers, roster, book, owners, tracker.seen, tracker.hardExpiryMs, nowMs);
    ordered := FirstDistinct(Chain(tiers), self, cap);
  }

  // ----- What the ranking is ---------------------------------------------------------------

  lemma {:induction false} DedupIsMonotone(s: seq<string>, self: string, i: nat)
    requires i <= |s|
    ensures Dedup(s[..i], self) <= Dedup(s, self)
    ensures i == |s| ==> Dedup(s[..i], self) == Dedup(s, self)
    decreases |s|
  {
    if i == |s| {
      assert s[..i] == s;
    } else {
      DedupIsMonotone(s[..|s| - 1], self, i);
      assert s[..|s| - 1][..i] == s[..i];
    }
  }

  lemma {:induction false} DedupContents(s: seq<string>, self: string, x: string)
    ensures x in Dedup(s, self) <==> x in s && x != self
  {
    if s != [] {
      DedupContents(s[..|s| - 1], self, x);
      assert s == s[..|s| - 1] + [s[|s| - 1]];
    }
  }

  lemma {:induction false} DedupHasNoDuplicates(s: seq<string>, self: string)
    ensures forall i, j :: 0 <= i < j < |Dedup(s, self)| ==> Dedup(s, self)[i] != Dedup(s, self)[j]
  {
    if s != [] { DedupHasNoDuplicates(s[..|s| - 1], self); }
  }

  /** Where two ids of the result come from: the later one's first appearance follows the earlier one. */
  lemma {:induction false} DedupKeepsOrder(s: seq<string>, self: string, i: nat, j: nat) returns (a: nat, b: nat)
    requires i < j < |Dedup(s, self)|
    ensures a < b < |s| && s[a] == Dedup(s, self)[i] && s[b] == Dedup(s, self)[j] && s[b] !in s[..b]
  {
    var k := |s| - 1;
    var before, d := s[..k], Dedup(s[..k], self);
    if j < |d| {
      a, b := DedupKeepsOrder(before, self, i, j);
      assert before[..b] == s[..b];
    } else {
      b := k;
      DedupContents(before, self, s[k]);
      DedupContents(before, self, d[i]);
      a :| 0 <= a < k && before[a] == d[i];
    }
  }

  /** Tier 4 lists `x` as often as the owner list names its id, when the id is eligible and so ranked. */
  lemma {:induction false} RankClaimsCount(a: seq<string>, v: View, hardMs: U64, nowMs: U64, x: Ranked)
    ensures multiset(RankClaims(a, v, hardMs, nowMs))[x] ==
            if RankClaim(x.id, v, hardMs, nowMs) == [x] then multiset(a)[x.id] else 0
  {
    if a != [] {
      RankClaimsCount(a[1..], v, hardMs, nowMs, x);
      HeadAndTail(a);
      var head, tail := RankClaim(a[0], v, hardMs, nowMs), RankClaims(a[1..], v, hardMs, nowMs);
      assert multiset(head + tail)[x] == multiset(head)[x] + multiset(tail)[x];
    }
  }

  lemma RankClaimsOfPermutation(a: seq<string>, b: seq<string>, v: View, hardMs: U64, nowMs: U64)
    requires multiset(a) == multiset(b)
    ensures multiset(RankClaims(a, v, hardMs, nowMs)) == multiset(RankClaims(b, v, hardMs, nowMs))
  {
    var p, q := multiset(RankClaims(a, v, hardMs, nowMs)), multiset(RankClaims(b, v, hardMs, nowMs));
    forall x ensures p[x] == q[x] {
      RankClaimsCount(a, v, hardMs, nowMs, x);
      RankClaimsCount(b, v, hardMs, nowMs, x);
    }
  }

  /** The tiers, and so the ranking, do not depend on the order of the claim-owner list nor on the order
      in which the address book is walked. */
  lemma TiersAreUnique(s: Tiers, t: Tiers, roster: seq<string>, book: map<string, U64>,
                       owners: seq<string>, permuted: seq<string>, v: View, hardMs: U64, nowMs: U64)
    requires TiersOf(s, roster, book, owners, v, hardMs, nowMs)
    requires TiersOf(t, roster, book, permuted, v, hardMs, nowMs)
    requires multiset(owners) == multiset(permuted)
    ensures s == t
  {
    RankClaimsOfPermutation(owners, permuted, v, hardMs, nowMs);
    SortedIsUnique(s.recent, t.recent);
    SortedIsUnique(s.disk, t.disk);
    SortedIsUnique(s.claims, t.claims);
  }

  /** For permuted claim owners the ranking is the same, and a smaller cap gives a prefix. */
  lemma RankingIsUnique(a: seq<string>, b: seq<string>, roster: seq<string>, book: map<string, U64>,
                        owners: seq<string>, permuted: seq<string>, v: View, hardMs: U64, nowMs: U64,
                        self: string, cap: nat, larger: nat)
    requires IsRanking(a, roster, book, owners, v, hardMs, nowMs, self, cap)
    requires IsRanking(b, roster, book, permuted, v, hardMs, nowMs, self, larger)
    requires multiset(owners) == multiset(permuted) && cap <= larger
    ensures a == Take(b, cap)
  {
    var s :| TiersOf(s, roster, book, owners, v, hardMs, nowMs) && a == Take(Dedup(Chain(s), self), cap);
    var t :| TiersOf(t, roster, book, permuted, v, hardMs, nowMs) && b == Take(Dedup(Chain(t), self), larger);
    TiersAreUnique(s, t, roster, book, owners, permuted, v, hardMs, nowMs);
    TakeTwice(Dedup(Chain(t), self), cap, larger);
  }

  lemma TakeTwice(s: seq<string>, cap: nat, larger: nat)
    requires cap <= larger
    ensures Take(Take(s, larger), cap) == Take(s, cap)
  {
  }

  lemma TierMembers(t: Tiers, roster: seq<string>, book: map<string, U64>, owners: seq<string>,
                    v: View, hardMs: U64, nowMs: U64, x: Ranked)
    requires TiersOf(t, roster, book, owners, v, hardMs, nowMs)
    ensures x in t.recent <==> x.id in book && x.id in v && !HardExpired(v, hardMs, x.id, nowMs)
                               && x.recency == v[x.id].receivedAtMs
    ensures x in t.disk <==> x.id in book && x.id !in v && x.recency == book[x.id]
    ensures x in t.claims <==> x.id in owners && !HardExpired(v, hardMs, x.id, nowMs)
                               && x.recency == ClaimRecency(v, x.id)
  {
    RankClaimsCount(owners, v, hardMs, nowMs, x);
    assert x.id in owners <==> x.id in multiset(owners);
    assert x in t.recent <==> x in multiset(t.recent);
    assert x in t.disk <==> x in multiset(t.disk);
    assert x in t.claims <==> x in multiset(t.claims);
    assert x in t.claims <==> x in multiset(RankClaims(owners, v, hardMs, nowMs));
  }

  lemma IdsMembers(s: seq<Ranked>, id: string)
    ensures id in Ids(s) <==> exists x :: x in s && x.id == id
  {
    if id in Ids(s) {
      var i :| 0 <= i < |s| && Ids(s)[i] == id;
      assert s[i] in s;
    }
    if x :| x in s && x.id == id {
      var i :| 0 <= i < |s| && s[i] == x;
      assert Ids(s)[i] == id;
    }
  }

  /** Exactly the roster and the address-book and claim-owner ids that are not hard-expired, less self,
      each once. */
  lemma RankingContents(t: Tiers, roster: seq<string>, book: map<string, U64>, owners: seq<string>,
                        v: View, hardMs: U64, nowMs: U64, self: string, id: string)
    requires TiersOf(t, roster, book, owners, v, hardMs, nowMs)
    ensures id in Dedup(Chain(t), self) <==>
            && id != self
            && (id in roster || ((id in book || id in owners) && !HardExpired(v, hardMs, id, nowMs)))
    ensures forall i, j :: 0 <= i < j < |Dedup(Chain(t), self)| ==> Dedup(Chain(t), self)[i] != Dedup(Chain(t), self)[j]
  {
    DedupHasNoDuplicates(Chain(t), self);
    DedupContents(Chain(t), self, id);
    IdsMembers(t.recent, id);
    IdsMembers(t.disk, id);
    IdsMembers(t.claims, id);
    forall x: Ranked | x.id == id {
      TierMembers(t, roster, book, owners, v, hardMs, nowMs, x);
    }
    if id in v { TierMembers(t, roster, book, owners, v, hardMs, nowMs, Ranked(id, v[id].receivedAtMs)); }
    if id in book { TierMembers(t, roster, book, owners, v, hardMs, nowMs, Ranked(id, book[id])); }
    TierMembers(t, roster, book, owners, v, hardMs, nowMs, Ranked(id, ClaimRecency(v, id)));
  }

  /** The tier an id belongs to, and the key it is ordered by within tiers 1 to 3. */
  ghost function TierOf(id: string, roster: seq<string>, book: map<string, U64>, v: View): nat {
    if id in roster then 0 else if id in book && id in v then 1 else if id in book then 2 else 3
  }

  ghost function KeyOf(id: string, book: map<string, U64>, v: View): Ranked {
    Ranked(id, if id in v then v[id].receivedAtMs else if id in book then book[id] else 0)
  }

  /** The tier whose part of the chain holds position `b`. */
  ghost function PartOf(t: Tiers, b: nat): nat {
    if b < |t.roster| then 0
    else if b < |t.roster| + |t.recent| then 1
    else if b < |t.roster| + |t.recent| + |t.disk| then 2 else 3
  }

  lemma ChainAt(t: Tiers, b: nat)
    requires b < |Chain(t)|
    ensures |Chain(t)| == |t.roster| + |t.recent| + |t.disk| + |t.claims|
    ensures var r, s, d := |t.roster|, |t.recent|, |t.disk|;
            Chain(t)[b] == if b < r then t.roster[b] else if b < r + s then t.recent[b - r].id
                           else if b < r + s + d then t.disk[b - r - s].id else t.claims[b - r - s - d].id
  {
  }

  /** An id found in part `n` belongs to tier `n` or an earlier one; at its first appearance, exactly `n`. */
  lemma PartBoundsTier(t: Tiers, roster: seq<string>, book: map<string, U64>, owners: seq<string>,
                       v: View, hardMs: U64, nowMs: U64, b: nat)
    requires TiersOf(t, roster, book, owners, v, hardMs, nowMs) && b < |Chain(t)|
    ensures TierOf(Chain(t)[b], roster, book, v) <= PartOf(t, b)
    ensures Chain(t)[b] !in Chain(t)[..b] ==> TierOf(Chain(t)[b], roster, book, v) == PartOf(t, b)
  {
    ChainAt(t, b);
    var id, r, s, d := Chain(t)[b], |t.roster|, |t.recent|, |t.disk|;
    if b >= r {
      var x := if b < r + s then t.recent[b - r] else if b < r + s + d then t.disk[b - r - s]
               else t.claims[b - r - s - d];
      assert b < r + s ==> x in t.recent;
      assert r + s <= b < r + s + d ==> x in t.disk;
      assert r + s + d <= b ==> x in t.claims;
      TierMembers(t, roster, book, owners, v, hardMs, nowMs, x);
      if id !in Chain(t)[..b] {
        EarlierPartsLackIt(t, roster, book, owners, v, hardMs, nowMs, b, x);
      }
    }
  }

  /** An unexpired address-book id stands in tier 2 or 3's part of the chain. */
  lemma BookIdIsEarly(t: Tiers, roster: seq<string>, book: map<string, U64>, owners: seq<string>,
                      v: View, hardMs: U64, nowMs: U64, id: string, b: nat)
    requires TiersOf(t, roster, book, owners, v, hardMs, nowMs)
    requires id in book && !HardExpired(v, hardMs, id, nowMs)
    requires |t.roster| + |t.recent| + |t.disk| <= b <= |Chain(t)|
    ensures id in Chain(t)[..b]
  {
    var c, r, s, d := Chain(t), |t.roster|, |t.recent|, |t.disk|;
    var y := Ranked(id, if id in v then v[id].receivedAtMs else book[id]);
    TierMembers(t, roster, book, owners, v, hardMs, nowMs, y);
    if id in v {
      var k :| 0 <= k < s && t.recent[k] == y;
      assert c[..b][r + k] == id;
    } else {
      var k :| 0 <= k < d && t.disk[k] == y;
      assert c[..b][r + s + k] == id;
    }
  }

  lemma EarlierPartsLackIt(t: Tiers, roster: seq<string>, book: map<string, U64>, owners: seq<string>,
                           v: View, hardMs: U64, nowMs: U64, b: nat, x: Ranked)
    requires TiersOf(t, roster, book, owners, v, hardMs, nowMs) && |t.roster| <= b < |Chain(t)|
    requires x.id == Chain(t)[b] && x.id !in Chain(t)[..b]
    requires b >= |t.roster| + |t.recent| + |t.disk| ==> x in t.claims
    ensures x.id !in roster
    ensures b >= |t.roster| + |t.recent| + |t.disk| ==> x.id !in book
  {
    forall a | 0 <= a < |t.roster| ensures roster[a] != x.id {
      assert Chain(t)[..b][a] == roster[a];
    }
    TierMembers(t, roster, book, owners, v, hardMs, nowMs, x);
    if b >= |t.roster| + |t.recent| + |t.disk| && x.id in book {
      BookIdIsEarly(t, roster, book, owners, v, hardMs, nowMs, x.id, b);
    }
  }

  /** The ranked entry at position `b` of the chain, past the roster. */
  ghost function EntryAt(t: Tiers, b: nat): Ranked
    requires |t.roster| <= b < |Chain(t)|
  {
    ChainAt(t, b);
    var r, s, d := |t.roster|, |t.recent|, |t.disk|;
    if b < r + s then t.recent[b - r] else if b < r + s + d then t.disk[b - r - s] else t.claims[b - r - s - d]
  }

  lemma EntryIsKey(t: Tiers, roster: seq<string>, book: map<string, U64>, owners: seq<string>,
                   v: View, hardMs: U64, nowMs: U64, b: nat)
    requires TiersOf(t, roster, book, owners, v, hardMs, nowMs) && b < |Chain(t)|
    requires PartOf(t, b) == TierOf(Chain(t)[b], roster, book, v) != 0
    ensures EntryAt(t, b) == KeyOf(Chain(t)[b], book, v)
  {
    ChainAt(t, b);
    var x, n := EntryAt(t, b), PartOf(t, b);
    assert n == 1 ==> x in t.recent;
    assert n == 2 ==> x in t.disk;
    assert n == 3 ==> x in t.claims;
    TierMembers(t, roster, book, owners, v, hardMs, nowMs, x);
  }

  lemma SamePartIsOrdered(t: Tiers, a: nat, b: nat)
    requires Sorted(t.recent) && Sorted(t.disk) && Sorted(t.claims)
    requires |t.roster| <= a < b < |Chain(t)| && PartOf(t, a) == PartOf(t, b)
    ensures !Precedes(EntryAt(t, b), EntryAt(t, a))
  {
    ChainAt(t, a);
    ChainAt(t, b);
  }

  /** The ranking follows the tiers; within the tiers ordered by recency, it follows the order on keys. */
  lemma RankingFollowsTiers(t: Tiers, roster: seq<string>, book: map<string, U64>, owners: seq<string>,
                            v: View, hardMs: U64, nowMs: U64, self: string, i: nat, j: nat)
    requires TiersOf(t, roster, book, owners, v, hardMs, nowMs)
    requires i < j < |Dedup(Chain(t), self)|
    ensures var x, y := Dedup(Chain(t), self)[i], Dedup(Chain(t), self)[j];
            && TierOf(x, roster, book, v) <= TierOf(y, roster, book, v)
            && (TierOf(x, roster, book, v) == TierOf(y, roster, book, v) != 0 ==>
                  Precedes(KeyOf(x, book, v), KeyOf(y, book, v)))
            && (TierOf(y, roster, book, v) == 0 ==>
                  exists a, b :: 0 <= a < b < |roster| && roster[a] == x && roster[b] == y && y !in roster[..b])
  {
    var c := Chain(t);
    var a, b := DedupKeepsOrder(c, self, i, j);
    DedupHasNoDuplicates(c, self);
    PartBoundsTier(t, roster, book, owners, v, hardMs, nowMs, a);
    PartBoundsTier(t, roster, book, owners, v, hardMs, nowMs, b);
    ChainAt(t, a);
    ChainAt(t, b);
    if PartOf(t, b) == 0 {
      assert roster[a] == c[a] && roster[b] == c[b] && c[..b] == roster[..b];
    } else if PartOf(t, a) == PartOf(t, b) && TierOf(c[a], roster, book, v) == PartOf(t, a) {
      SamePartIsOrdered(t, a, b);
      EntryIsKey(t, roster, book, owners, v, hardMs, nowMs, a);
      EntryIsKey(t, roster, book, owners, v, hardMs, nowMs, b);
      PrecedesIsTotal(EntryAt(t, a), EntryAt(t, b));
    }
  }

  /** When an id was last heard of: in this run, or according to the address book, or never. */
  ghost function LastHeardOf(id: string, book: map<string, U64>, v: View): U64 {
    if id in v then v[id].receivedAtMs else if id in book then book[id] else 0
  }

  /** Within each tier below the roster the most recently heard of comes first, and of equals the id that
      comes first as text. */
  lemma MostRecentFirst(t: Tiers, roster: seq<string>, book: map<string, U64>, owners: seq<string>,
                        v: View, hardMs: U64, nowMs: U64, self: string, i: nat, j: nat)
    requires TiersOf(t, roster, book, owners, v, hardMs, nowMs) && i < j < |Dedup(Chain(t), self)|
    ensures var x, y := Dedup(Chain(t), self)[i], Dedup(Chain(t), self)[j];
            TierOf(x, roster, book, v) == TierOf(y, roster, book, v) != 0 ==>
              && LastHeardOf(x, book, v) >= LastHeardOf(y, book, v)
              && (LastHeardOf(x, book, v) == LastHeardOf(y, book, v) ==> exists k: nat :: Text.DiffersAt(x, y, k))
  {
    RankingFollowsTiers(t, roster, book, owners, v, hardMs, nowMs, self, i, j);
    Text.LessIff(Dedup(Chain(t), self)[i], Dedup(Chain(t), self)[j]);
  }

  // ----- Only the set of claim owners matters --------------------------------------------------

  ghost function FirstIn(s: seq<string>, x: string): nat {
    if s == [] || s[0] == x then 0 else 1 + FirstIn(s[1..], x)
  }

  lemma {:induction false} FirstInBounds(s: seq<string>, x: string, k: nat)
    requires k < |s| && s[k] == x
    ensures FirstIn(s, x) <= k && (x !in s[..k] ==> FirstIn(s, x) == k)
  {
    if s[0] != x {
      FirstInBounds(s[1..], x, k - 1);
      assert s[..k] == [s[0]] + s[1..][..k - 1];
    } else if k > 0 {
      assert s[..k][0] == x;
    }
  }

  /** The order of the ranking: by tier; in the roster by first mention; elsewhere by recency and id. */
  ghost predicate Ahead(x: string, y: string, roster: seq<string>, book: map<string, U64>, v: View) {
    var i, j := TierOf(x, roster, book, v), TierOf(y, roster, book, v);
    || i < j
    || (i == j == 0 && FirstIn(roster, x) < FirstIn(roster, y))
    || (i == j != 0 && Precedes(KeyOf(x, book, v), KeyOf(y, book, v)))
  }

  lemma AheadIsAsymmetric(x: string, y: string, roster: seq<string>, book: map<string, U64>, v: View)
    requires Ahead(x, y, roster, book, v)
    ensures !Ahead(y, x, roster, book, v)
  {
    PrecedesIsTotal(KeyOf(x, book, v), KeyOf(y, book, v));
  }

  ghost predicate InOrder(r: seq<string>, roster: seq<string>, book: map<string, U64>, v: View) {
    forall i, j :: 0 <= i < j < |r| ==> Ahead(r[i], r[j], roster, book, v)
  }

  lemma RankingInOrder(t: Tiers, roster: seq<string>, book: map<string, U64>, owners: seq<string>,
                       v: View, hardMs: U64, nowMs: U64, self: string)
    requires TiersOf(t, roster, book, owners, v, hardMs, nowMs)
    ensures InOrder(Dedup(Chain(t), self), roster, book, v)
  {
    var r := Dedup(Chain(t), self);
    forall i, j | 0 <= i < j < |r| ensures Ahead(r[i], r[j], roster, book, v) {
      RankingFollowsTiers(t, roster, book, owners, v, hardMs, nowMs, self, i, j);
      if TierOf(r[j], roster, book, v) == 0 {
        var a, b :| 0 <= a < b < |roster| && roster[a] == r[i] && roster[b] == r[j] && r[j] !in roster[..b];
        FirstInBounds(roster, r[i], a);
        FirstInBounds(roster, r[j], b);
      }
    }
  }

  /** A set of ids has one listing in order. */
  lemma {:induction false} OrderedListingIsUnique(a: seq<string>, b: seq<string>, roster: seq<string>,
                                                  book: map<string, U64>, v: View)
    requires InOrder(a, roster, book, v) && InOrder(b, roster, book, v) && forall x :: x in a <==> x in b
    ensures a == b
  {
    if a == [] || b == [] {
      FirstIsMember(a);
      FirstIsMember(b);
    } else {
      SameHead(a, b, roster, book, v);
      TailsAgree(a, b, roster, book, v);
      OrderedListingIsUnique(a[1..], b[1..], roster, book, v);
      assert a == [a[0]] + a[1..] && b == [b[0]] + b[1..];
    }
  }

  lemma FirstIsMember(s: seq<string>)
    ensures s == [] || s[0] in s
  {
  }

  lemma SameHead(a: seq<string>, b: seq<string>, roster: seq<string>, book: map<string, U64>, v: View)
    requires InOrder(a, roster, book, v) && InOrder(b, roster, book, v) && a != [] && b != []
    requires forall x :: x in a <==> x in b
    ensures a[0] == b[0]
  {
    assert a[0] in b && b[0] in a;
    var j :| 0 <= j < |b| && b[j] == a[0];
    var i :| 0 <= i < |a| && a[i] == b[0];
    if i > 0 && j > 0 { AheadIsAsymmetric(a[0], b[0], roster, book, v); }
  }

  lemma TailsAgree(a: seq<string>, b: seq<string>, roster: seq<string>, book: map<string, U64>, v: View)
    requires InOrder(a, roster, book, v) && InOrder(b, roster, book, v) && a != [] && b != [] && a[0] == b[0]
    requires forall x :: x in a <==> x in b
    ensures forall x :: x in a[1..] <==> x in b[1..]
  {
    HeadIsNotRepeated(a, roster, book, v);
    HeadIsNotRepeated(b, roster, book, v);
    assert a == [a[0]] + a[1..] && b == [b[0]] + b[1..];
  }

  lemma HeadIsNotRepeated(a: seq<string>, roster: seq<string>, book: map<string, U64>, v: View)
    requires InOrder(a, roster, book, v) && a != []
    ensures forall x :: x in a[1..] <==> x in a && x != a[0]
  {
    assert a == [a[0]] + a[1..];
    forall k | 0 < k < |a| ensures a[k] != a[0] {
      assert Ahead(a[0], a[k], roster, book, v);
      PrecedesIsTotal(KeyOf(a[0], book, v), KeyOf(a[0], book, v));
    }
  }

  /** The ranking depends on the claim owners only as a set: repeated owners change nothing. */
  lemma RankingDependsOnOwnerSet(a: seq<string>, b: seq<string>, roster: seq<string>, book: map<string, U64>,
                                 owners: seq<string>, others: seq<string>, v: View, hardMs: U64, nowMs: U64,
                                 self: string, cap: nat)
    requires IsRanking(a, roster, book, owners, v, hardMs, nowMs, self, cap)
    requires IsRanking(b, roster, book, others, v, hardMs, nowMs, self, cap)
    requires forall id :: id in owners <==> id in others
    ensures a == b
  {
    var s :| TiersOf(s, roster, book, owners, v, hardMs, nowMs) && a == Take(Dedup(Chain(s), self), cap);
    var t :| TiersOf(t, roster, book, others, v, hardMs, nowMs) && b == Take(Dedup(Chain(t), self), cap);
    UncappedDependsOnOwnerSet(s, t, roster, book, owners, others, v, hardMs, nowMs, self);
  }

  lemma UncappedDependsOnOwnerSet(s: Tiers, t: Tiers, roster: seq<string>, book: map<string, U64>,
                                  owners: seq<string>, others: seq<string>, v: View, hardMs: U64, nowMs: U64,
                                  self: string)
    requires TiersOf(s, roster, book, owners, v, hardMs, nowMs) && TiersOf(t, roster, book, others, v, hardMs, nowMs)
    requires forall id :: id in owners <==> id in others
    ensures Dedup(Chain(s), self) == Dedup(Chain(t), self)
  {
    RankingInOrder(s, roster, book, owners, v, hardMs, nowMs, self);
    RankingInOrder(t, roster, book, others, v, hardMs, nowMs, self);
    forall id ensures id in Dedup(Chain(s), self) <==> id in Dedup(Chain(t), self) {
      RankingContents(s, roster, book, owners, v, hardMs, nowMs, self, id);
      RankingContents(t, roster, book, others, v, hardMs, nowMs, self, id);
    }
    OrderedListingIsUnique(Dedup(Chain(s), self), Dedup(Chain(t), self), roster, book, v);
  }
}
