/** The expiry sweep over the service lane and its tombstones (`sweep_stale_lanes` in `mjolnir-meshd.rs`). */
module LaneSweep {
  import opened Basics
  import opened Liveness
  import opened LeasedNames
  import opened MeshDns

  /** The book without the entries of owners silent past the hard expiry. */
  ghost function Swept(book: ServiceBook, v: View, hardMs: U64, nowMs: U64): ServiceBook {
    map n | n in book && !HardExpired(v, hardMs, book[n].owner, nowMs) :: book[n]
  }

  /** First-seen stamps once every present tombstone has one. */
  ghost function Stamped(present: set<string>, observed: map<string, U64>, nowMs: U64): map<string, U64> {
    map n | n in present + observed.Keys :: if n in observed then observed[n] else nowMs
  }

  /** The tombstones that outlive a sweep. */
  ghost function Kept(present: set<string>, observed: map<string, U64>, nowMs: U64, retentionMs: U64): set<string> {
    set n | n in present && SaturatingSub(nowMs, Stamped(present, observed, nowMs)[n]) <= retentionMs
  }

  /** The stamps that outlive a sweep: those of the kept tombstones. */
  ghost function Restamped(
    present: set<string>, observed: map<string, U64>, nowMs: U64, retentionMs: U64): map<string, U64>
  {
    map n | n in Kept(present, observed, nowMs, retentionMs) :: Stamped(present, observed, nowMs)[n]
  }

  class Lanes {
    var services: ServiceBook
    var tombstones: set<string>
    var observed: map<string, U64>

    constructor (services: ServiceBook, tombstones: set<string>)
      ensures this.services == services && this.tombstones == tombstones && observed == map[]
    {
      this.services, this.tombstones, observed := services, tombstones, map[];
    }

    method ExpireServices(tracker: LivenessTracker, nowMs: U64) returns (changed: bool)
      modifies this`services
      ensures services == Swept(old(services), tracker.seen, tracker.hardExpiryMs, nowMs)
      ensures changed <==> services != old(services)
    {
      var book := services;
      var expired := set n | n in book && tracker.IsHardExpired(book[n].owner, nowMs);
      services := services - expired;
      changed := expired != {};
      if changed {
        var n :| n in expired;
        assert n !in services;
      }
    }

    /** Stamp every tombstone that has no first-seen time yet. */
    method StampAll(nowMs: U64)
      modifies this`observed
      ensures forall n :: n in observed <==> n in old(observed) || n in tombstones
      ensures forall n :: n in observed ==> observed[n] == if n in old(observed) then old(observed)[n] else nowMs
    {
      var todo := tombstones;
      while todo != {}
        invariant todo <= tombstones
        invariant forall n :: n in observed <==> n in old(observed) || n in tombstones - todo
        invariant forall n :: n in observed ==> observed[n] == if n in old(observed) then old(observed)[n] else nowMs
        decreases |todo|
      {
        var name :| name in todo;
        todo := todo - {name};
        if name !in observed {
          observed := observed[name := nowMs];
        }
      }
    }

    method CollectTombstones(nowMs: U64, retentionMs: U64) returns (changed: bool)
      modifies this`tombstones, this`observed
      ensures tombstones == Kept(old(tombstones), old(observed), nowMs, retentionMs)
      ensures observed == Restamped(old(tombstones), old(observed), nowMs, retentionMs)
      ensures changed <==> tombstones != old(tombstones)
    {
      StampAll(nowMs);
      var stamps := observed;
      assert stamps == Stamped(old(tombstones), old(observed), nowMs);
      var gc := set n | n in tombstones && SaturatingSub(nowMs, stamps[n]) > retentionMs;
      tombstones := tombstones - gc;
      observed := map n | n in stamps && n in tombstones :: stamps[n];
      changed := gc != {};
    }

    /** One sweep; `changed` says whether the persisted state has to be rewritten. */
    method Sweep(tracker: LivenessTracker, nowMs: U64, retentionMs: U64) returns (changed: bool)
      modifies this
      ensures services == Swept(old(services), tracker.seen, tracker.hardExpiryMs, nowMs)
      ensures tombstones == Kept(old(tombstones), old(observed), nowMs, retentionMs)
      ensures observed == Restamped(old(tombstones), old(observed), nowMs, retentionMs)
      ensures changed <==> services != old(services) || tombstones != old(tombstones)
    {
      changed := ExpireServices(tracker, nowMs);
      var collected := CollectTombstones(nowMs, retentionMs);
      changed := changed || collected;
    }
  }

  // ----- The sweep is invisible to readers -------------------------------------------------

  /** Nothing that arrives is a newer beacon of an owner whose entry the sweep removed. */
  ghost predicate RemovedOwnersStaySilent(book: ServiceBook, v: View, hardMs: U64, nowMs: U64, xs: seq<Arrival>) {
    forall n, j :: n in book && HardExpired(v, hardMs, book[n].owner, nowMs)
                   && 0 <= j < |xs| && xs[j].nodeId == book[n].owner
                   ==> !SupersededBy(v[book[n].owner], xs[j].incarnation, xs[j].counter)
  }

  /** The book once entries have been dropped and others put, by whatever messages arrive later. */
  ghost function Edited(book: ServiceBook, dropped: set<string>, put: ServiceBook): ServiceBook {
    (book - dropped) + put
  }

  /** No later message publishes a name the sweep removed. */
  ghost predicate SparesRemoved(book: ServiceBook, v: View, hardMs: U64, nowMs: U64, put: ServiceBook) {
    forall n :: n in put && n in book ==> n in Swept(book, v, hardMs, nowMs)
  }

  lemma LiveEntryUnchanged(book: ServiceBook, v: View, staleMs: U64, hardMs: U64, nowMs: U64, dropped: set<string>,
                           put: ServiceBook, xs: seq<Arrival>, t: U64, name: string)
    requires hardMs >= staleMs && nowMs <= t && RemovedOwnersStaySilent(book, v, hardMs, nowMs, xs)
    requires SparesRemoved(book, v, hardMs, nowMs, put)
    ensures LiveEntry(Edited(Swept(book, v, hardMs, nowMs), dropped, put), After(v, xs), staleMs, t, name)
            == LiveEntry(Edited(book, dropped, put), After(v, xs), staleMs, t, name)
  {
    var key := BookKey(name);
    if key.Some? && key.value in book && HardExpired(v, hardMs, book[key.value].owner, nowMs) {
      ReplaysChangeNothing(v, xs, book[key.value].owner);
    }
  }

  /** A composite of three tables that agree with three others on one name replies the same about it. */
  lemma SameReply(a: NameTable, b: NameTable, b': NameTable, c: NameTable, q: Question)
    requires b.lookupA(q.name) == b'.lookupA(q.name) && b.lookupSrv(q.name) == b'.lookupSrv(q.name)
    requires b.lookupTxt(q.name) == b'.lookupTxt(q.name) && b.knows(q.name) == b'.knows(q.name)
    ensures ReplyTo(Some(q), CompositeTable([a, b, c])) == ReplyTo(Some(q), CompositeTable([a, b', c]))
  {
    CompositeOfThree(a, b, c, q);
    CompositeOfThree(a, b', c, q);
    assert Responds(b, q) <==> Responds(b', q);
    assert Found(b, q) == Found(b', q);
  }

  /** With hard expiry no shorter than the stale threshold, every question gets the same reply with and
      without the sweep: at the sweep, and at every later time until a removed owner's next newer beacon or
      the next publish of a removed name, whatever other names are published or withdrawn meanwhile. */
  lemma SweepIsInvisible(
    gateway: Option<int>, book: ServiceBook, v: View, staleMs: U64, hardMs: U64, nowMs: U64, dropped: set<string>,
    put: ServiceBook, xs: seq<Arrival>, t: U64, leased: map<string, LeasedName>, wallMs: U64, q: Question)
    requires hardMs >= staleMs && nowMs <= t && RemovedOwnersStaySilent(book, v, hardMs, nowMs, xs)
    requires SparesRemoved(book, v, hardMs, nowMs, put)
    ensures var swept, kept := Edited(Swept(book, v, hardMs, nowMs), dropped, put), Edited(book, dropped, put);
            ReplyTo(Some(q), DaemonTable(gateway, swept, After(v, xs), staleMs, t, leased, wallMs))
            == ReplyTo(Some(q), DaemonTable(gateway, kept, After(v, xs), staleMs, t, leased, wallMs))
  {
    LiveEntryUnchanged(book, v, staleMs, hardMs, nowMs, dropped, put, xs, t, q.name);
    SameReply(WellKnownTable(gateway),
              ServiceTable(Edited(Swept(book, v, hardMs, nowMs), dropped, put), After(v, xs), staleMs, t),
              ServiceTable(Edited(book, dropped, put), After(v, xs), staleMs, t),
              LeasedNameTable(leased, wallMs), q);
  }

  /** With these thresholds the question gets the same reply before and after a sweep at `nowMs`. */
  ghost predicate HidesSweep(staleMs: U64, hardMs: U64, gateway: Option<int>, book: ServiceBook, v: View, nowMs: U64,
                             leased: map<string, LeasedName>, wallMs: U64, q: Question) {
    ReplyTo(Some(q), DaemonTable(gateway, Swept(book, v, hardMs, nowMs), v, staleMs, nowMs, leased, wallMs))
    == ReplyTo(Some(q), DaemonTable(gateway, book, v, staleMs, nowMs, leased, wallMs))
  }

  /** These thresholds hide every sweep from every reader at the moment it runs, whatever else is served. */
  ghost predicate HidesEverySweep(staleMs: U64, hardMs: U64) {
    forall gateway: Option<int>, book: ServiceBook, v: View, nowMs: U64, leased: map<string, LeasedName>, wallMs: U64,
           q: Question ::
      HidesSweep(staleMs, hardMs, gateway, book, v, nowMs, leased, wallMs, q)
  }

  /** An entry whose owner is past the hard expiry and not yet stale answers before the sweep only. */
  lemma VisibleEntry(staleMs: U64, hardMs: U64, nowMs: U64, book: ServiceBook, v: View, name: string)
    requires hardMs < staleMs && nowMs == hardMs + 1 && BookKey(name) == Some("x")
    requires book == map["x" := ServiceEntry("o", V4(1), 80, map[])] && v == map["o" := Seen(0, 0, 0, None)]
    ensures LiveEntry(book, v, staleMs, nowMs, name) == Some(book["x"])
    ensures LiveEntry(Swept(book, v, hardMs, nowMs), v, staleMs, nowMs, name) == None
  {
    assert HardExpired(v, hardMs, "o", nowMs) && !Stale(v, staleMs, "o", nowMs);
  }

  lemma KeyOfX()
    ensures BookKey("x.mesh") == Some("x")
  {
    var name := "x.mesh";
    assert TrimDots(name) == name;
    assert name[|name| - 5..] == ".mesh" && name[..|name| - 5] == "x";
  }

  /** With no gateway and no leased names, an SRV question sees the service table alone. */
  lemma OnlyServices(book: ServiceBook, v: View, staleMs: U64, nowMs: U64, q: Question)
    requires q == Question("x.mesh", QSRV)
    ensures var e := LiveEntry(book, v, staleMs, nowMs, q.name);
            ReplyTo(Some(q), DaemonTable(None, book, v, staleMs, nowMs, map[], 0)).answers ==
            if e.Some? && e.value.port != 0 then [SrvRecord(e.value.port)] else []
  {
    NotWellKnown();
    var a, b, c := WellKnownTable(None), ServiceTable(book, v, staleMs, nowMs), LeasedNameTable(map[], 0);
    CompositeOfThree(a, b, c, q);
    assert !Responds(a, q) && !Responds(c, q);
  }

  lemma Unedited(book: ServiceBook)
    ensures Edited(book, {}, map[]) == book
  {
  }

  lemma VisibleSweepExists(staleMs: U64, hardMs: U64)
    requires hardMs < staleMs
    ensures !HidesEverySweep(staleMs, hardMs)
  {
    var book: ServiceBook, v: View := map["x" := ServiceEntry("o", V4(1), 80, map[])], map["o" := Seen(0, 0, 0, None)];
    var nowMs: U64, q := hardMs + 1, Question("x.mesh", QSRV);
    KeyOfX();
    VisibleEntry(staleMs, hardMs, nowMs, book, v, q.name);
    OnlyServices(book, v, staleMs, nowMs, q);
    OnlyServices(Swept(book, v, hardMs, nowMs), v, staleMs, nowMs, q);
    assert !HidesSweep(staleMs, hardMs, None, book, v, nowMs, map[], 0, q);
  }

  lemma NotWellKnown()
    ensures !IsWellKnown("x.mesh")
  {
    var name := "x.mesh";
    assert TrimDots(name) == name;
    var l := Lower(name);
    assert l[..|l| - 5] == ['x'];
    assert Lower(['x'])[0] == 'x';
  }

  /** Exactly the thresholds with hard expiry no shorter than the stale threshold hide every sweep. */
  lemma HidesEverySweepIff(staleMs: U64, hardMs: U64)
    ensures HidesEverySweep(staleMs, hardMs) <==> hardMs >= staleMs
  {
    if hardMs >= staleMs {
      forall gateway: Option<int>, book: ServiceBook, v: View, nowMs: U64, leased: map<string, LeasedName>,
             wallMs: U64, q: Question
        ensures HidesSweep(staleMs, hardMs, gateway, book, v, nowMs, leased, wallMs, q)
      {
        SweepIsInvisible(gateway, book, v, staleMs, hardMs, nowMs, {}, map[], [], nowMs, leased, wallMs, q);
        Unedited(book);
        Unedited(Swept(book, v, hardMs, nowMs));
      }
    } else {
      VisibleSweepExists(staleMs, hardMs);
    }
  }

  // ----- Tombstone retention over runs -----------------------------------------------------

  /** One sweep of a run: its time, and the tombstones present when it starts. Between sweeps any
      tombstones may appear or be revived. */
  datatype Round = Round(nowMs: U64, present: set<string>)

  ghost function ObservedAfter(rs: seq<Round>, retentionMs: U64): map<string, U64> {
    if rs == [] then map[]
    else
      var last := rs[|rs| - 1];
      Restamped(last.present, ObservedAfter(rs[..|rs| - 1], retentionMs), last.nowMs, retentionMs)
  }

  ghost function KeptAfter(rs: seq<Round>, retentionMs: U64): set<string> {
    if rs == [] then {}
    else
      var last := rs[|rs| - 1];
      Kept(last.present, ObservedAfter(rs[..|rs| - 1], retentionMs), last.nowMs, retentionMs)
  }

  /** Stamps cover exactly the remaining tombstones. */
  lemma StampsCoverKept(rs: seq<Round>, retentionMs: U64)
    ensures ObservedAfter(rs, retentionMs).Keys == KeptAfter(rs, retentionMs)
  {
  }

  /** The tombstones kept by the m-th sweep of a run. */
  ghost function KeptBy(rs: seq<Round>, retentionMs: U64, m: nat): set<string>
    requires m <= |rs|
  {
    KeptAfter(rs[..m], retentionMs)
  }

  /** `name` was kept by every sweep from number `j` to the last but one, and is present at the last. */
  ghost predicate HeldSince(rs: seq<Round>, retentionMs: U64, name: string, j: nat) {
    && j < |rs| && name in rs[|rs| - 1].present
    && forall m :: j < m < |rs| ==> name in KeptBy(rs, retentionMs, m)
  }

  ghost predicate TimesNonDecreasing(rs: seq<Round>) {
    forall i, j :: 0 <= i < j < |rs| ==> rs[i].nowMs <= rs[j].nowMs
  }

  /** The stamp a kept tombstone carries is the time of the sweep its unbroken stay began with. */
  lemma {:induction false} StampIsStart(rs: seq<Round>, retentionMs: U64, name: string) returns (start: nat)
    requires rs != [] && name in KeptAfter(rs, retentionMs)
    ensures HeldSince(rs, retentionMs, name, start)
    ensures name !in KeptBy(rs, retentionMs, start)
    ensures name in ObservedAfter(rs, retentionMs) && ObservedAfter(rs, retentionMs)[name] == rs[start].nowMs
  {
    var k := |rs| - 1;
    StampsCoverKept(rs[..k], retentionMs);
    if k > 0 && name in KeptAfter(rs[..k], retentionMs) {
      start := StampIsStart(rs[..k], retentionMs, name);
      HeldSinceExtends(rs, retentionMs, name, start);
      assert rs[..k][..start] == rs[..start];
    } else {
      start := k;
    }
  }

  lemma HeldSinceExtends(rs: seq<Round>, retentionMs: U64, name: string, j: nat)
    requires |rs| >= 2 && HeldSince(rs[..|rs| - 1], retentionMs, name, j)
    requires name in KeptAfter(rs[..|rs| - 1], retentionMs) && name in rs[|rs| - 1].present
    ensures HeldSince(rs, retentionMs, name, j)
  {
    var k := |rs| - 1;
    forall m | j < m < |rs| ensures name in KeptBy(rs, retentionMs, m) {
      assert rs[..k][..m] == rs[..m];
      if m < k { assert name in KeptBy(rs[..k], retentionMs, m); }
    }
  }

  /** The start of a stay is no later than any sweep it has lasted since. */
  lemma StartIsEarliest(rs: seq<Round>, retentionMs: U64, name: string, start: nat, j: nat)
    requires HeldSince(rs, retentionMs, name, j) && start < |rs|
    requires name !in KeptBy(rs, retentionMs, start)
    ensures start <= j
  {
  }

  /** Over every run of sweeps at non-decreasing times: a present tombstone is collected if and only if
      it has stayed, unbroken, through sweeps spanning more than the retention. */
  lemma CollectedIffHeldTooLong(rs: seq<Round>, retentionMs: U64, name: string)
    requires rs != [] && TimesNonDecreasing(rs) && name in rs[|rs| - 1].present
    ensures name !in KeptAfter(rs, retentionMs) <==>
            exists j: nat :: HeldSince(rs, retentionMs, name, j) && rs[|rs| - 1].nowMs - rs[j].nowMs > retentionMs
  {
    var k := |rs| - 1;
    var before, last := rs[..k], rs[k];
    StampsCoverKept(before, retentionMs);
    var start := k;
    if k > 0 && name in KeptAfter(before, retentionMs) {
      start := StampIsStart(before, retentionMs, name);
      HeldSinceExtends(rs, retentionMs, name, start);
      assert before[..start] == rs[..start];
    } else {
      assert HeldSince(rs, retentionMs, name, k);
      assert name !in KeptBy(rs, retentionMs, k);
    }
    assert Stamped(last.present, ObservedAfter(before, retentionMs), last.nowMs)[name] == rs[start].nowMs;
    forall j: nat | HeldSince(rs, retentionMs, name, j) ensures rs[start].nowMs <= rs[j].nowMs <= last.nowMs {
      StartIsEarliest(rs, retentionMs, name, start, j);
    }
  }
}
