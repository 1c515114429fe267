/** Ingesting name claims from the local spool (`ingest_name_claim_spool` in `mjolnir-meshd.rs`). */
module NameIngest {
  import opened Basics
  import opened HybridClock
  import opened LeasedNames
  import Text

  type Book = map<string, LeasedName>

  datatype SpoolClaim = SpoolClaim(
    pubkey: string,
    sig: string,
    challenge: string,
    name: string,
    port: int,
    ip: Option<IpAddr>,
    scheme: Option<string>)

  datatype SpoolFile = Malformed | Parsed(claim: SpoolClaim)

  // ----- Specification ---------------------------------------------------------------------

  ghost predicate LiveOwned(book: Book, name: string, pubkey: string, nowMs: U64) {
    name in book && book[name].owner == pubkey && !IsExpired(book[name], nowMs)
  }

  /** The entry a claim asks for: the key's tenure on the name is kept across renewals. */
  ghost function Entry(book: Book, c: SpoolClaim, ip: IpAddr, now: Hlc): LeasedName {
    var first := if c.name in book && book[c.name].owner == c.pubkey
                 then book[c.name].firstClaimedAt else now;
    LeasedName(c.pubkey, c.sig, c.challenge, ip, c.port, c.scheme, first, now)
  }

  /** `n` is the first name, in key order, that `pubkey` holds live. */
  ghost predicate FirstLive(book: Book, n: string, pubkey: string, nowMs: U64) {
    && LiveOwned(book, n, pubkey, nowMs)
    && forall m :: LiveOwned(book, m, pubkey, nowMs) ==> !Text.Less(m, n)
  }

  /** A claim is considered unless it is malformed, has no target or a bad name, or the first live
      name of its key is a different one. */
  ghost predicate Admitted(book: Book, f: SpoolFile, now: Hlc, validName: string -> bool) {
    && f.Parsed? && f.claim.ip.Some? && validName(f.claim.name)
    && forall n :: FirstLive(book, n, f.claim.pubkey, now.wallClock) ==> n == f.claim.name
  }

  ghost function EntryAt(book: Book, name: string): Option<LeasedName> {
    if name in book then Some(book[name]) else None
  }

  ghost function IngestOne(book: Book, f: SpoolFile, now: Hlc, validName: string -> bool): Book {
    if Admitted(book, f, now, validName) then
      var e := Entry(book, f.claim, f.claim.ip.value, now);
      book[f.claim.name := Applied(EntryAt(book, f.claim.name), e)]
    else book
  }

  ghost function IngestAll(book: Book, fs: seq<SpoolFile>, clock: seq<Hlc>, validName: string -> bool): Book
    requires |fs| == |clock|
  {
    if fs == [] then book
    else
      var k := |fs| - 1;
      IngestOne(IngestAll(book, fs[..k], clock[..k], validName), fs[k], clock[k], validName)
  }

  /** No key owns two names that are both unexpired at `t`. */
  ghost predicate OneLiveName(book: Book, t: U64) {
    forall m, n, k :: LiveOwned(book, m, k, t) && LiveOwned(book, n, k, t) ==> m == n
  }

  // ----- The sweep -------------------------------------------------------------------------

  /** First name, in key order, that `pubkey` holds live. */
  method NameOwnedBy(book: Book, pubkey: string, nowMs: U64) returns (r: Option<string>)
    ensures r.None? <==> forall n :: !LiveOwned(book, n, pubkey, nowMs)
    ensures r.Some? ==> FirstLive(book, r.value, pubkey, nowMs)
    ensures r.Some? ==> forall m :: LiveOwned(book, m, pubkey, nowMs) ==> m == r.value || Text.Less(r.value, m)
  {
    r := None;
    var todo := book.Keys;
    while todo != {}
      invariant todo <= book.Keys
      invariant r.None? ==> forall n :: LiveOwned(book, n, pubkey, nowMs) ==> n in todo
      invariant r.Some? ==> && LiveOwned(book, r.value, pubkey, nowMs)
                            && forall n :: LiveOwned(book, n, pubkey, nowMs) && n !in todo ==> !Text.Less(n, r.value)
      decreases |todo|
    {
      var n :| n in todo;
      todo := todo - {n};
      if book[n].owner == pubkey && !IsExpired(book[n], nowMs) {
        assert LiveOwned(book, n, pubkey, nowMs);
        Text.LessIsStrict(n, n);
        if r.None? {
          r := Some(n);
        } else {
          Text.LessIsStrict(n, r.value);
          if Text.Less(n, r.value) {
            forall m | LiveOwned(book, m, pubkey, nowMs) && m !in todo ensures !Text.Less(m, n) {
              if m != n && Text.Less(m, n) {
                Text.LessIsTransitive(m, n, r.value);
              }
            }
            r := Some(n);
          }
        }
      }
    }
    if r.Some? {
      forall m | LiveOwned(book, m, pubkey, nowMs) ensures m == r.value || Text.Less(r.value, m) {
        Text.LessIsStrict(m, r.value);
      }
    }
  }

  lemma FirstLiveIsUnique(book: Book, n: string, pubkey: string, nowMs: U64)
    requires FirstLive(book, n, pubkey, nowMs)
    ensures forall m :: FirstLive(book, m, pubkey, nowMs) ==> m == n
  {
    forall m | FirstLive(book, m, pubkey, nowMs) ensures m == n {
      Text.LessIsStrict(m, n);
    }
  }

  /** The book once the first `n` files of the sweep have been ingested. */
  ghost function BookAt(book: Book, fs: seq<SpoolFile>, clock: seq<Hlc>, validName: string -> bool, n: nat): Book
    requires n <= |fs| == |clock|
  {
    IngestAll(book, fs[..n], clock[..n], validName)
  }

  /** The entry is the key's own: its signature over its challenge, its target and scheme. */
  predicate Carries(e: LeasedName, c: SpoolClaim) {
    && e.owner == c.pubkey && e.sig == c.sig && e.challenge == c.challenge
    && c.ip == Some(e.ip) && e.port == c.port && e.scheme == c.scheme
  }

  /** `a` announces the entry of the i-th file, which the book then holds. */
  ghost predicate FromFile(
    a: Announcement, book: Book, fs: seq<SpoolFile>, clock: seq<Hlc>, validName: string -> bool, i: nat)
    requires i < |fs| == |clock|
  {
    && fs[i].Parsed? && fs[i].claim.name == a.name
    && Carries(a.claim, fs[i].claim) && a.claim.renewedAt == clock[i]
    && a.name in BookAt(book, fs, clock, validName, i + 1)
    && BookAt(book, fs, clock, validName, i + 1)[a.name] == a.claim
  }

  ghost predicate ChangesBook(book: Book, fs: seq<SpoolFile>, clock: seq<Hlc>, validName: string -> bool, i: nat)
    requires i < |fs| == |clock|
  {
    BookAt(book, fs, clock, validName, i + 1) != BookAt(book, fs, clock, validName, i)
  }

  /** Some announcement is that of the i-th file. */
  ghost predicate Broadcast(
    applied: seq<Announcement>, book: Book, fs: seq<SpoolFile>, clock: seq<Hlc>, validName: string -> bool, i: nat)
    requires i < |fs| == |clock|
  {
    exists a :: a in applied && FromFile(a, book, fs, clock, validName, i)
  }

  /** What has been broadcast once the first `n` files are through. */
  ghost predicate BroadcastSoFar(
    applied: seq<Announcement>, book: Book, fs: seq<SpoolFile>, clock: seq<Hlc>, validName: string -> bool, n: nat)
    requires n <= |fs| == |clock|
  {
    && (forall a :: a in applied ==> exists i :: 0 <= i < n && FromFile(a, book, fs, clock, validName, i))
    && (forall i :: 0 <= i < n && ChangesBook(book, fs, clock, validName, i) ==>
          Broadcast(applied, book, fs, clock, validName, i))
  }

  lemma BroadcastNext(applied: seq<Announcement>, out: Option<Announcement>, book: Book, fs: seq<SpoolFile>,
                      clock: seq<Hlc>, validName: string -> bool, n: nat)
    requires n < |fs| == |clock| && BroadcastSoFar(applied, book, fs, clock, validName, n)
    requires out.Some? ==> FromFile(out.value, book, fs, clock, validName, n)
    requires out.None? ==> !ChangesBook(book, fs, clock, validName, n)
    ensures BroadcastSoFar(applied + if out.Some? then [out.value] else [], book, fs, clock, validName, n + 1)
  {
    var more := applied + if out.Some? then [out.value] else [];
    forall i | 0 <= i < n && Broadcast(applied, book, fs, clock, validName, i)
      ensures Broadcast(more, book, fs, clock, validName, i)
    {
      var a :| a in applied && FromFile(a, book, fs, clock, validName, i);
      assert a in more;
    }
    if out.Some? { assert out.value in more; }
  }

  lemma BookAtNext(book: Book, fs: seq<SpoolFile>, clock: seq<Hlc>, validName: string -> bool, n: nat)
    requires n < |fs| == |clock|
    ensures BookAt(book, fs, clock, validName, n + 1) ==
            IngestOne(BookAt(book, fs, clock, validName, n), fs[n], clock[n], validName)
  {
    assert fs[..n + 1][..n] == fs[..n] && clock[..n + 1][..n] == clock[..n];
  }

  /** One sweep over the spool. `clock[i]` is the stamp read for the i-th file. What is broadcast are
      entries the book then holds, and every file that changed the book is broadcast. */
  method IngestSpool(book: NameBook, fs: seq<SpoolFile>, clock: seq<Hlc>, validName: string -> bool)
    returns (applied: seq<Announcement>)
    requires |fs| == |clock|
    modifies book
    ensures book.entries == IngestAll(old(book.entries), fs, clock, validName)
    ensures forall a :: a in applied ==>
              exists i :: 0 <= i < |fs| && FromFile(a, old(book.entries), fs, clock, validName, i)
    ensures forall i :: 0 <= i < |fs| && ChangesBook(old(book.entries), fs, clock, validName, i) ==>
              Broadcast(applied, old(book.entries), fs, clock, validName, i)
  {
    applied := [];
    ghost var start := book.entries;
    var i := 0;
    while i < |fs|
      invariant 0 <= i <= |fs|
      invariant book.entries == BookAt(start, fs, clock, validName, i)
      invariant BroadcastSoFar(applied, start, fs, clock, validName, i)
    {
      BookAtNext(start, fs, clock, validName, i);
      var out := IngestFile(book, fs[i], clock[i], validName);
      BroadcastNext(applied, out, start, fs, clock, validName, i);
      if out.Some? {
        applied := applied + [out.value];
      } else {
        assert applied + [] == applied;
      }
      i := i + 1;
    }
    assert fs[..|fs|] == fs && clock[..|fs|] == clock;
  }

  method IngestFile(book: NameBook, f: SpoolFile, now: Hlc, validName: string -> bool)
    returns (out: Option<Announcement>)
    modifies book
    ensures book.entries == IngestOne(old(book.entries), f, now, validName)
    ensures out.Some? ==>
              && f.Parsed? && out.value.name == f.claim.name
              && Carries(out.value.claim, f.claim) && out.value.claim.renewedAt == now
              && out.value.name in book.entries && book.entries[out.value.name] == out.value.claim
    ensures out.None? ==> book.entries == old(book.entries)
  {
    out := None;
    if f.Malformed? || f.claim.ip.None? || !validName(f.claim.name) {
      return;
    }
    var c := f.claim;
    var owned := NameOwnedBy(book.entries, c.pubkey, now.wallClock);
    if owned.Some? {
      FirstLiveIsUnique(book.entries, owned.value, c.pubkey, now.wallClock);
      if owned.value != c.name {
        return;
      }
    }
    var first := now;
    if c.name in book.entries && book.entries[c.name].owner == c.pubkey {
      first := book.entries[c.name].firstClaimedAt;
    }
    var entry := LeasedName(c.pubkey, c.sig, c.challenge, c.ip.value, c.port, c.scheme, first, now);
    var result := book.Apply(c.name, entry);
    match result
    case Inserted => out := Some(Announcement(c.name, entry));
    case Updated => out := Some(Announcement(c.name, entry));
    case Conflict(winner, _) =>
      if winner.owner == c.pubkey {
        out := Some(Announcement(c.name, entry));
      }
    case Unchanged =>
  }

  // ----- Runs of sweeps --------------------------------------------------------------------

  /** The stamps one node reads: its own id, counter zero, a clock that never goes back. */
  ghost predicate LocalClock(clock: seq<Hlc>, self: string, start: U64) {
    && (forall i :: 0 <= i < |clock| ==> clock[i].nodeId == self && clock[i].counter == 0)
    && (forall i :: 0 <= i < |clock| ==> start <= clock[i].wallClock)
    && (forall i, j :: 0 <= i < j < |clock| ==> clock[i].wallClock <= clock[j].wallClock)
  }

  /** What the book of a node fed only by its own sweeps satisfies at time `t`. */
  ghost predicate LocalBook(book: Book, self: string, t: U64) {
    && OneLiveName(book, t)
    && forall n :: n in book ==>
         && book[n].firstClaimedAt.nodeId == self && book[n].firstClaimedAt.counter == 0
         && book[n].firstClaimedAt.wallClock <= t
  }

  lemma OneLiveNameLater(book: Book, t: U64, u: U64)
    requires OneLiveName(book, t) && t <= u
    ensures OneLiveName(book, u)
  {
    forall m, n, k | LiveOwned(book, m, k, u) && LiveOwned(book, n, k, u) ensures m == n {
      assert LiveOwned(book, m, k, t) && LiveOwned(book, n, k, t);
    }
  }

  /** Under the rule, an admitted key holds no live name but the one it claims. */
  lemma AdmittedHoldsNothingElse(book: Book, f: SpoolFile, now: Hlc, validName: string -> bool, n: string)
    requires OneLiveName(book, now.wallClock) && Admitted(book, f, now, validName)
    requires LiveOwned(book, n, f.claim.pubkey, now.wallClock)
    ensures n == f.claim.name
  {
    Text.LessIsStrict(n, n);
    assert FirstLive(book, n, f.claim.pubkey, now.wallClock);
  }

  /** What is held live after an admitted claim was so before, or is the claim itself. */
  lemma LiveAfterIngest(book: Book, f: SpoolFile, now: Hlc, validName: string -> bool, m: string, k: string)
    requires Admitted(book, f, now, validName) && LiveOwned(IngestOne(book, f, now, validName), m, k, now.wallClock)
    ensures LiveOwned(book, m, k, now.wallClock) || (m == f.claim.name && k == f.claim.pubkey)
  {
  }

  lemma IngestKeepsOneLiveName(book: Book, f: SpoolFile, now: Hlc, validName: string -> bool)
    requires OneLiveName(book, now.wallClock)
    ensures OneLiveName(IngestOne(book, f, now, validName), now.wallClock)
  {
    if Admitted(book, f, now, validName) {
      var after, t := IngestOne(book, f, now, validName), now.wallClock;
      forall m, n, k | LiveOwned(after, m, k, t) && LiveOwned(after, n, k, t) ensures m == n {
        LiveAfterIngest(book, f, now, validName, m, k);
        LiveAfterIngest(book, f, now, validName, n, k);
        if k == f.claim.pubkey {
          if LiveOwned(book, m, k, t) { AdmittedHoldsNothingElse(book, f, now, validName, m); }
          if LiveOwned(book, n, k, t) { AdmittedHoldsNothingElse(book, f, now, validName, n); }
        }
      }
    }
  }

  lemma IngestKeepsLocalBook(book: Book, f: SpoolFile, now: Hlc, validName: string -> bool, self: string)
    requires LocalBook(book, self, now.wallClock) && now.nodeId == self && now.counter == 0
    ensures LocalBook(IngestOne(book, f, now, validName), self, now.wallClock)
  {
    IngestKeepsOneLiveName(book, f, now, validName);
  }

  /** One local ingest step, seen from one name: a key that stays the owner keeps its first claim, and a
      live lease keeps its owner and is never shortened. */
  lemma IngestStep(book: Book, f: SpoolFile, now: Hlc, validName: string -> bool, self: string, n: string)
    requires LocalBook(book, self, now.wallClock) && now.nodeId == self && now.counter == 0 && n in book
    ensures n in IngestOne(book, f, now, validName)
    ensures var after := IngestOne(book, f, now, validName)[n];
            && (after.owner == book[n].owner ==> after.firstClaimedAt == book[n].firstClaimedAt)
            && (!IsExpired(book[n], now.wallClock) ==>
                  after.owner == book[n].owner && LeaseExpiryMs(after) >= LeaseExpiryMs(book[n]))
  {
    if Admitted(book, f, now, validName) && f.claim.name == n {
      HlcOrder(book[n].firstClaimedAt, now);
      HlcOrder(book[n].renewedAt, now);
      Text.LessIsStrict(self, self);
    }
  }

  /** One live name per key, at every moment of every run of local sweeps with a clock that never goes
      back; ingest steps are prefixes of such runs. */
  lemma {:induction false} OneLiveNamePerKey(
    book: Book, fs: seq<SpoolFile>, clock: seq<Hlc>, validName: string -> bool, self: string, start: U64, t: U64)
    requires |fs| == |clock| && LocalBook(book, self, start) && LocalClock(clock, self, start)
    requires start <= t && forall i :: 0 <= i < |clock| ==> clock[i].wallClock <= t
    ensures LocalBook(IngestAll(book, fs, clock, validName), self, t)
  {
    if fs == [] {
      OneLiveNameLater(book, start, t);
    } else {
      var k := |fs| - 1;
      OneLiveNamePerKey(book, fs[..k], clock[..k], validName, self, start, clock[k].wallClock);
      IngestKeepsLocalBook(IngestAll(book, fs[..k], clock[..k], validName), fs[k], clock[k], validName, self);
      OneLiveNameLater(IngestAll(book, fs, clock, validName), clock[k].wallClock, t);
    }
  }

  /** `owner` holds `n` after every prefix of the run. */
  ghost predicate OwnedThroughout(
    book: Book, fs: seq<SpoolFile>, clock: seq<Hlc>, validName: string -> bool, n: string, owner: string)
    requires |fs| == |clock|
  {
    && n in IngestAll(book, fs, clock, validName)
    && IngestAll(book, fs, clock, validName)[n].owner == owner
    && (fs != [] ==> OwnedThroughout(book, fs[..|fs| - 1], clock[..|fs| - 1], validName, n, owner))
  }

  /** A key that owns a name throughout a run keeps the first claim it started with. */
  lemma {:induction false} TenureIsKept(
    book: Book, fs: seq<SpoolFile>, clock: seq<Hlc>, validName: string -> bool, self: string, start: U64, n: string)
    requires |fs| == |clock| && LocalBook(book, self, start) && LocalClock(clock, self, start) && n in book
    requires OwnedThroughout(book, fs, clock, validName, n, book[n].owner)
    ensures IngestAll(book, fs, clock, validName)[n].firstClaimedAt == book[n].firstClaimedAt
  {
    if fs != [] {
      var k := |fs| - 1;
      TenureIsKept(book, fs[..k], clock[..k], validName, self, start, n);
      OneLiveNamePerKey(book, fs[..k], clock[..k], validName, self, start, clock[k].wallClock);
      IngestStep(IngestAll(book, fs[..k], clock[..k], validName), fs[k], clock[k], validName, self, n);
    }
  }

  /** A live lease is never taken over by another key's spool claim, nor shortened. */
  lemma {:induction false} LiveLeaseIsSafe(
    book: Book, fs: seq<SpoolFile>, clock: seq<Hlc>, validName: string -> bool, self: string, start: U64, n: string)
    requires |fs| == |clock| && LocalBook(book, self, start) && LocalClock(clock, self, start) && n in book
    requires forall i :: 0 <= i < |clock| ==> !IsExpired(book[n], clock[i].wallClock)
    ensures n in IngestAll(book, fs, clock, validName)
    ensures IngestAll(book, fs, clock, validName)[n].owner == book[n].owner
    ensures LeaseExpiryMs(IngestAll(book, fs, clock, validName)[n]) >= LeaseExpiryMs(book[n])
  {
    if fs != [] {
      var k := |fs| - 1;
      LiveLeaseIsSafe(book, fs[..k], clock[..k], validName, self, start, n);
      OneLiveNamePerKey(book, fs[..k], clock[..k], validName, self, start, clock[k].wallClock);
      IngestStep(IngestAll(book, fs[..k], clock[..k], validName), fs[k], clock[k], validName, self, n);
    }
  }

  // ----- Local sweeps and gossip together --------------------------------------------------

  /** A spool file ingested here, or a claim of another node merged on arrival. */
  datatype Event = Local(file: SpoolFile, now: Hlc) | Arrived(name: string, claim: LeasedName, atMs: U64)

  ghost function TimeOf(e: Event): U64 {
    match e
    case Local(_, now) => now.wallClock
    case Arrived(_, _, atMs) => atMs
  }

  ghost function AfterEvent(book: Book, e: Event, validName: string -> bool): Book {
    match e
    case Local(file, now) => IngestOne(book, file, now, validName)
    case Arrived(name, claim, _) => book[name := Applied(EntryAt(book, name), claim)]
  }

  /** An arriving live claim is taken over while its key holds another name live. */
  ghost predicate Doubles(book: Book, e: Event) {
    && e.Arrived? && Applied(EntryAt(book, e.name), e.claim) == e.claim && !IsExpired(e.claim, e.atMs)
    && exists n :: n != e.name && LiveOwned(book, n, e.claim.owner, e.atMs)
  }

  /** From a book with one live name per key, a step keeps the rule if and only if it is not such an
      arrival. */
  lemma StepKeepsRuleIff(book: Book, e: Event, validName: string -> bool)
    requires OneLiveName(book, TimeOf(e))
    ensures OneLiveName(AfterEvent(book, e, validName), TimeOf(e)) <==> !Doubles(book, e)
  {
    if e.Local? {
      IngestKeepsOneLiveName(book, e.file, e.now, validName);
    } else {
      ArrivalKeepsRuleIff(book, e, validName);
    }
  }

  lemma ArrivalKeepsRuleIff(book: Book, e: Event, validName: string -> bool)
    requires e.Arrived? && OneLiveName(book, e.atMs)
    ensures OneLiveName(AfterEvent(book, e, validName), e.atMs) <==> !Doubles(book, e)
  {
    var after, t := AfterEvent(book, e, validName), e.atMs;
    forall m, k | m != e.name ensures LiveOwned(after, m, k, t) <==> LiveOwned(book, m, k, t) {
    }
    if Doubles(book, e) {
      var n :| n != e.name && LiveOwned(book, n, e.claim.owner, t);
      assert LiveOwned(after, e.name, e.claim.owner, t) && LiveOwned(after, n, e.claim.owner, t);
    } else {
      forall m, n, k | LiveOwned(after, m, k, t) && LiveOwned(after, n, k, t) ensures m == n {
        if after[e.name] != e.claim {
          assert LiveOwned(book, m, k, t) && LiveOwned(book, n, k, t);
        }
      }
    }
  }

  ghost function BookAfterEvents(book: Book, es: seq<Event>, validName: string -> bool): Book {
    if es == [] then book
    else AfterEvent(BookAfterEvents(book, es[..|es| - 1], validName), es[|es| - 1], validName)
  }

  /** The rule holds after every event of the run, at the time of that event. */
  ghost predicate RuleThroughout(book: Book, es: seq<Event>, validName: string -> bool) {
    es == [] || (&& RuleThroughout(book, es[..|es| - 1], validName)
                 && OneLiveName(BookAfterEvents(book, es, validName), TimeOf(es[|es| - 1])))
  }

  ghost predicate NeverDoubles(book: Book, es: seq<Event>, validName: string -> bool) {
    es == [] || (&& NeverDoubles(book, es[..|es| - 1], validName)
                 && !Doubles(BookAfterEvents(book, es[..|es| - 1], validName), es[|es| - 1]))
  }

  ghost predicate TimesFrom(start: U64, es: seq<Event>) {
    && (forall i :: 0 <= i < |es| ==> start <= TimeOf(es[i]))
    && (forall i, j :: 0 <= i < j < |es| ==> TimeOf(es[i]) <= TimeOf(es[j]))
  }

  /** Over every run of local sweeps and arrivals at times that never go back, the rule holds throughout
      if and only if no arrival gives a key its second live name. */
  lemma {:induction false} RuleIffNeverDoubles(book: Book, es: seq<Event>, validName: string -> bool, start: U64)
    requires OneLiveName(book, start) && TimesFrom(start, es)
    ensures RuleThroughout(book, es, validName) <==> NeverDoubles(book, es, validName)
  {
    if es != [] {
      var k := |es| - 1;
      var init, last := es[..k], es[k];
      RuleIffNeverDoubles(book, init, validName, start);
      if RuleThroughout(book, init, validName) {
        var before := BookAfterEvents(book, init, validName);
        OneLiveNameLater(before, if k == 0 then start else TimeOf(es[k - 1]), TimeOf(last));
        StepKeepsRuleIff(before, last, validName);
      }
    }
  }

  /** Such an arrival happens: a key's claim on a second name, from a node that had not heard of the first. */
  lemma ArrivalCanDouble(validName: string -> bool) returns (es: seq<Event>)
    ensures |es| == 2 && TimesFrom(0, es) && !RuleThroughout(map[], es, validName)
  {
    var e := LeasedName("k", "", "", V4(1), 80, None, Hlc(0, 0, "n"), Hlc(0, 0, "n"));
    var f := e.(firstClaimedAt := Hlc(0, 0, "o"), renewedAt := Hlc(0, 0, "o"));
    es := [Arrived("a", e, 0), Arrived("b", f, 0)];
    assert es[..1] == [es[0]] && es[..1][..0] == [];
    assert BookAfterEvents(map[], es[..1], validName) == map["a" := e];
    assert LiveOwned(map["a" := e], "a", "k", 0) && "a" != "b";
    assert Doubles(map["a" := e], es[1]);
    assert OneLiveName(map[], 0);
    RuleIffNeverDoubles(map[], es, validName, 0);
  }

  // ----- The records on which two keys disagree are ones that nodes issue -----------------------

  function ClaimBy(key: string, name: string, addr: int): (f: SpoolFile) {
    Parsed(SpoolClaim(key, "", "", name, 80, Some(V4(addr)), None))
  }

  ghost function At(wallClock: U64, node: string): Hlc {
    Hlc(wallClock, 0, node)
  }

  predicate AnyName(name: string) {
    true
  }

  /** What a node holding `held` on the name issues when `key` claims it: the entry asked for, once held. */
  ghost predicate Issues(held: Option<LeasedName>, key: string, addr: int, now: Hlc, issued: LeasedName) {
    var book: Book, f := if held.Some? then map["x" := held.value] else map[], ClaimBy(key, "x", addr);
    && Admitted(book, f, now, AnyName)
    && issued == Entry(book, f.claim, V4(addr), now) && IngestOne(book, f, now, AnyName) == map["x" := issued]
  }

  /** The record of such a claim: a key that is the owner there keeps its first claim. */
  ghost function Claimed(held: Option<LeasedName>, key: string, addr: int, now: Hlc): LeasedName {
    LeasedName(key, "", "", V4(addr), 80, None,
               if held.Some? && held.value.owner == key then held.value.firstClaimedAt else now, now)
  }

  /** A node issues that record and no other, exactly when the merge takes it. */
  lemma IssuesIff(held: Option<LeasedName>, key: string, addr: int, now: Hlc, issued: LeasedName)
    ensures Issues(held, key, addr, now, issued) <==>
            issued == Claimed(held, key, addr, now) && Applied(held, issued) == issued
  {
    var book: Book, f := if held.Some? then map["x" := held.value] else map[], ClaimBy(key, "x", addr);
    assert Entry(book, f.claim, V4(addr), now) == Claimed(held, key, addr, now);
    assert EntryAt(book, "x") == held;
    assert Admitted(book, f, now, AnyName);
    var after: Book := map["x" := issued];
    assert after["x"] == issued;
    assert book["x" := issued] == after;
  }

  /** Each record of `TwoKeysCanDisagree` is one a node issues and announces, from what a partition left it:
      the first claim and its renewal on one node; the rival's claim and its renewal on a second, where only
      the first claim was known; and the new claim on a third, where the rival's renewal was not known. */
  lemma ReclaimIsIssued(a: string, b: string, c: string)
    returns (first: LeasedName, older: LeasedName, taken: LeasedName, rival: LeasedName, newer: LeasedName)
    ensures Issues(None, "k", 1, At(0, a), first)
    ensures Issues(Some(first), "k", 1, At(LEASE_TTL_MS, a), older)
    ensures Issues(Some(first), "l", 2, At(LEASE_TTL_MS + 1, b), taken)
    ensures Issues(Some(taken), "l", 2, At(2 * LEASE_TTL_MS, b), rival)
    ensures Issues(Some(taken), "k", 1, At(2 * LEASE_TTL_MS + 2, c), newer)
    ensures TenureTriple(older, rival, newer)
  {
    var t := LEASE_TTL_MS;
    first := Claimed(None, "k", 1, At(0, a));
    older := Claimed(Some(first), "k", 1, At(t, a));
    taken := Claimed(Some(first), "l", 2, At(t + 1, b));
    rival := Claimed(Some(taken), "l", 2, At(2 * t, b));
    newer := Claimed(Some(taken), "k", 1, At(2 * t + 2, c));
    IssuesIff(None, "k", 1, At(0, a), first);
    IssuesIff(Some(first), "k", 1, At(t, a), older);
    IssuesIff(Some(first), "l", 2, At(t + 1, b), taken);
    IssuesIff(Some(taken), "l", 2, At(2 * t, b), rival);
    IssuesIff(Some(taken), "k", 1, At(2 * t + 2, c), newer);
  }

  /** So is each record of `TwoTenuresCanDisagree`: the rival's claim; the key's claim where it was not known,
      and where it had lapsed; and the renewal of the earlier of the two. */
  lemma TwoTenuresAreIssued(here: string, there: string)
    returns (rival: LeasedName, early: LeasedName, older: LeasedName, newer: LeasedName)
    ensures Issues(None, "l", 2, At(0, there), rival)
    ensures Issues(None, "k", 1, At(LEASE_TTL_MS, here), early)
    ensures Issues(Some(rival), "k", 1, At(LEASE_TTL_MS + 1, there), older)
    ensures Issues(Some(early), "k", 1, At(LEASE_TTL_MS + 2, here), newer)
    ensures TenureTriple(older, rival, newer) && Before(newer.firstClaimedAt, older.firstClaimedAt)
  {
    var t := LEASE_TTL_MS;
    rival := Claimed(None, "l", 2, At(0, there));
    early := Claimed(None, "k", 1, At(t, here));
    older := Claimed(Some(rival), "k", 1, At(t + 1, there));
    newer := Claimed(Some(early), "k", 1, At(t + 2, here));
    IssuesIff(None, "l", 2, At(0, there), rival);
    IssuesIff(None, "k", 1, At(t, here), early);
    IssuesIff(Some(rival), "k", 1, At(t + 1, there), older);
    IssuesIff(Some(early), "k", 1, At(t + 2, here), newer);
  }
}
