/** Name tables and the answer to one question (`dns_responder.rs`). */
module MeshDns {
  import opened Basics
  import opened Liveness
  import opened LeasedNames

  datatype QType = QA | QSRV | QTXT | QOther

  datatype Question = Question(name: string, qtype: QType)

  datatype Record = ARecord(addr: int) | SrvRecord(port: int) | TxtRecord(pairs: map<string, string>)

  datatype RCode = NoError | NameError

  /** A reply carries the zone's SOA exactly when it denies the name. */
  datatype Reply = Reply(rcode: RCode, question: Option<Question>, answers: seq<Record>, soa: bool)

  /** One instant's snapshot of a table. */
  datatype NameTable = NameTable(
    lookupA: string -> Option<seq<int>>,
    knows: string -> bool,
    lookupSrv: string -> Option<int>,
    lookupTxt: string -> Option<map<string, string>>)

  datatype ServiceEntry = ServiceEntry(owner: string, ip: IpAddr, port: int, txt: map<string, string>)

  type ServiceBook = map<string, ServiceEntry>

  const PRE_CLAIM_GATEWAY: int := 0xC0A8_0101
  const LEASED_NAME_RESOLVE_STALE_MS: U64 := 90_000

  // ----- Names -----------------------------------------------------------------------------

  function TrimDots(s: string): (r: string) {
    if s != [] && s[|s| - 1] == '.' then TrimDots(s[..|s| - 1]) else s
  }

  function StripSuffix(s: string, suffix: string): (r: Option<string>) {
    if |suffix| <= |s| && s[|s| - |suffix|..] == suffix then Some(s[..|s| - |suffix|]) else None
  }

  function Lower(s: string): (r: string) {
    seq(|s|, i requires 0 <= i < |s| =>
      if 'A' <= s[i] <= 'Z' then (s[i] as int - 'A' as int + 'a' as int) as char else s[i])
  }

  /** The bare name a book is keyed by; none outside the `.mesh` apex. */
  function BookKey(name: string): (k: Option<string>) {
    StripSuffix(TrimDots(name), ".mesh")
  }

  predicate IsWellKnown(name: string) {
    var stem := StripSuffix(Lower(TrimDots(name)), ".mesh");
    stem.Some? && Lower(stem.value) in {"hello", "id"}
  }

  // ----- The tables ------------------------------------------------------------------------

  function WellKnownTable(gateway: Option<int>): (t: NameTable) {
    NameTable(
      name => if IsWellKnown(name) then Some([if gateway.Some? then gateway.value else PRE_CLAIM_GATEWAY]) else None,
      name => IsWellKnown(name),
      name => None,
      name => None)
  }

  function V4Only(ip: IpAddr): (r: Option<seq<int>>) {
    match ip
    case V4(addr) => Some([addr])
    case V6(_) => None
  }

  function PortOf(port: int): (r: Option<int>) {
    if port != 0 then Some(port) else None
  }

  /** The entry under a query name, unless its owner is stale. */
  function LiveEntry(book: ServiceBook, v: View, staleMs: U64, nowMs: U64, name: string): (e: Option<ServiceEntry>) {
    var key := BookKey(name);
    if key.Some? && key.value in book && !Stale(v, staleMs, book[key.value].owner, nowMs)
    then Some(book[key.value]) else None
  }

  function ServiceTable(book: ServiceBook, v: View, staleMs: U64, nowMs: U64): (t: NameTable) {
    NameTable(
      name => var e := LiveEntry(book, v, staleMs, nowMs, name); if e.Some? then V4Only(e.value.ip) else None,
      name => LiveEntry(book, v, staleMs, nowMs, name).Some?,
      name => var e := LiveEntry(book, v, staleMs, nowMs, name); if e.Some? then PortOf(e.value.port) else None,
      name => var e := LiveEntry(book, v, staleMs, nowMs, name); if e.Some? then Some(e.value.txt) else None)
  }

  function FreshLease(book: map<string, LeasedName>, wallMs: U64, name: string): (e: Option<LeasedName>) {
    var key := BookKey(name);
    if key.Some? && key.value in book
       && SaturatingSub(wallMs, book[key.value].renewedAt.wallClock) <= LEASED_NAME_RESOLVE_STALE_MS
    then Some(book[key.value]) else None
  }

  function LeasedNameTable(book: map<string, LeasedName>, wallMs: U64): (t: NameTable) {
    NameTable(
      name => var e := FreshLease(book, wallMs, name); if e.Some? then V4Only(e.value.ip) else None,
      name => FreshLease(book, wallMs, name).Some?,
      name => var e := FreshLease(book, wallMs, name); if e.Some? then PortOf(e.value.port) else None,
      name => None)
  }

  function FirstA(ts: seq<NameTable>, name: string): (r: Option<seq<int>>) {
    if ts == [] then None
    else var a := ts[0].lookupA(name); if a.Some? then a else FirstA(ts[1..], name)
  }

  function FirstSrv(ts: seq<NameTable>, name: string): (r: Option<int>) {
    if ts == [] then None
    else var a := ts[0].lookupSrv(name); if a.Some? then a else FirstSrv(ts[1..], name)
  }

  function FirstTxt(ts: seq<NameTable>, name: string): (r: Option<map<string, string>>) {
    if ts == [] then None
    else var a := ts[0].lookupTxt(name); if a.Some? then a else FirstTxt(ts[1..], name)
  }

  predicate AnyKnows(ts: seq<NameTable>, name: string) {
    exists i :: 0 <= i < |ts| && ts[i].knows(name)
  }

  /** The first table that answers wins; a name is known if any table knows it. */
  function CompositeTable(ts: seq<NameTable>): (t: NameTable) {
    NameTable(
      name => FirstA(ts, name),
      name => AnyKnows(ts, name),
      name => FirstSrv(ts, name),
      name => FirstTxt(ts, name))
  }

  /** The stack the daemon serves. */
  function DaemonTable(gateway: Option<int>, book: ServiceBook, v: View, staleMs: U64, nowMs: U64,
                       leased: map<string, LeasedName>, wallMs: U64): (t: NameTable)
  {
    CompositeTable([WellKnownTable(gateway), ServiceTable(book, v, staleMs, nowMs), LeasedNameTable(leased, wallMs)])
  }

  // ----- One question ----------------------------------------------------------------------

  function ARecords(addrs: seq<int>): (rs: seq<Record>)
    ensures |rs| == |addrs| && forall i :: 0 <= i < |addrs| ==> rs[i] == ARecord(addrs[i])
  {
    seq(|addrs|, i requires 0 <= i < |addrs| => ARecord(addrs[i]))
  }

  /** The records a table yields for a question; an empty answer counts as none. */
  function Found(t: NameTable, q: Question): (rs: seq<Record>) {
    match q.qtype
    case QA =>
      var a := t.lookupA(q.name);
      if a.Some? then ARecords(a.value) else []
    case QSRV =>
      var p := t.lookupSrv(q.name);
      if p.Some? then [SrvRecord(p.value)] else []
    case QTXT =>
      var m := t.lookupTxt(q.name);
      if m.Some? && m.value != map[] then [TxtRecord(m.value)] else []
    case QOther => []
  }

  /** Answers if there are any; otherwise no data for a known name and denial for an unknown one. */
  function ReplyTo(q: Option<Question>, t: NameTable): (r: Reply) {
    if q.None? then Reply(NameError, None, [], true)
    else if Found(t, q.value) != [] then Reply(NoError, q, Found(t, q.value), false)
    else if t.knows(q.value.name) then Reply(NoError, q, [], false)
    else Reply(NameError, q, [], true)
  }

  method HandleQuery(q: Option<Question>, t: NameTable) returns (r: Reply)
    ensures r == ReplyTo(q, t)
  {
    r := Reply(NoError, None, [], false);
    if q.Some? {
      var records := Found(t, q.value);
      var nameExists := t.knows(q.value.name);
      r := r.(question := q);
      if records != [] {
        r := r.(answers := records);
      } else if !nameExists {
        r := r.(rcode := NameError, soa := true);
      }
    } else {
      r := r.(rcode := NameError, soa := true);
    }
  }

  // ----- Negative answers ------------------------------------------------------------------

  /** A table answers only names it says exist. */
  ghost predicate AnswersOnlyKnown(t: NameTable) {
    forall name :: t.lookupA(name).Some? || t.lookupSrv(name).Some? || t.lookupTxt(name).Some? ==> t.knows(name)
  }

  lemma DaemonTablesAnswerOnlyKnown(gateway: Option<int>, book: ServiceBook, v: View, staleMs: U64, nowMs: U64,
                                    leased: map<string, LeasedName>, wallMs: U64)
    ensures AnswersOnlyKnown(WellKnownTable(gateway))
    ensures AnswersOnlyKnown(ServiceTable(book, v, staleMs, nowMs))
    ensures AnswersOnlyKnown(LeasedNameTable(leased, wallMs))
  {
  }

  /** A table responds to a question, possibly with an empty answer that stops the search. */
  ghost predicate Responds(t: NameTable, q: Question) {
    match q.qtype
    case QA => t.lookupA(q.name).Some?
    case QSRV => t.lookupSrv(q.name).Some?
    case QTXT => t.lookupTxt(q.name).Some?
    case QOther => false
  }

  lemma FoundImpliesResponds(t: NameTable, q: Question)
    ensures Found(t, q) != [] ==> Responds(t, q)
  {
  }

  lemma {:induction false} CompositeFinds(ts: seq<NameTable>, q: Question)
    ensures ts == [] ==> Found(CompositeTable(ts), q) == [] && !Responds(CompositeTable(ts), q)
    ensures ts != [] && Responds(ts[0], q) ==>
              Found(CompositeTable(ts), q) == Found(ts[0], q) && Responds(CompositeTable(ts), q)
    ensures ts != [] && !Responds(ts[0], q) ==>
              && Found(CompositeTable(ts), q) == Found(CompositeTable(ts[1..]), q)
              && (Responds(CompositeTable(ts), q) <==> Responds(CompositeTable(ts[1..]), q))
  {
  }

  /** What a stack of three finds. */
  lemma CompositeOfThree(a: NameTable, b: NameTable, c: NameTable, q: Question)
    ensures Found(CompositeTable([a, b, c]), q) ==
            if Responds(a, q) then Found(a, q)
            else if Responds(b, q) then Found(b, q)
            else if Responds(c, q) then Found(c, q) else []
    ensures AnyKnows([a, b, c], q.name) <==> a.knows(q.name) || b.knows(q.name) || c.knows(q.name)
  {
    var ts := [a, b, c];
    assert ts[1..] == [b, c] && [b, c][1..] == [c] && [c][1..] == [];
    CompositeFinds(ts, q);
    CompositeFinds([b, c], q);
    CompositeFinds([c], q);
    CompositeFinds([], q);
    assert ts[0] == a && ts[1] == b && ts[2] == c;
  }

  /** The i-th table has a non-empty answer and no earlier one responds at all. */
  ghost predicate ServedBy(ts: seq<NameTable>, q: Question, i: int) {
    0 <= i < |ts| && Found(ts[i], q) != [] && forall j :: 0 <= j < i ==> !Responds(ts[j], q)
  }

  lemma {:induction false} CompositeAnswersIffServed(ts: seq<NameTable>, q: Question)
    ensures Found(CompositeTable(ts), q) != [] <==> exists i :: ServedBy(ts, q, i)
  {
    CompositeFinds(ts, q);
    if ts != [] {
      FoundImpliesResponds(ts[0], q);
      if Responds(ts[0], q) {
        if Found(ts[0], q) != [] { assert ServedBy(ts, q, 0); }
      } else {
        var rest := ts[1..];
        CompositeAnswersIffServed(rest, q);
        if Found(CompositeTable(ts), q) != [] {
          var i :| ServedBy(rest, q, i);
          assert ServedBy(ts, q, i + 1) by {
            assert forall j :: 0 < j <= i ==> ts[j] == rest[j - 1];
          }
        }
        forall i | ServedBy(ts, q, i) ensures ServedBy(rest, q, i - 1) {
          assert forall j :: 0 <= j < i - 1 ==> rest[j] == ts[j + 1];
        }
      }
    }
  }

  /** Chaining keeps the law, so a question is denied exactly when no table knows the name, and gets an
      empty answer exactly when some table knows it and none serves the queried type. */
  lemma NegativeAnswers(ts: seq<NameTable>, q: Question)
    requires forall i :: 0 <= i < |ts| ==> AnswersOnlyKnown(ts[i])
    ensures AnswersOnlyKnown(CompositeTable(ts))
    ensures ReplyTo(Some(q), CompositeTable(ts)).rcode == NameError <==>
            forall i :: 0 <= i < |ts| ==> !ts[i].knows(q.name)
    ensures var r := ReplyTo(Some(q), CompositeTable(ts));
            r.rcode == NoError && r.answers == [] <==>
            AnyKnows(ts, q.name) && !exists i :: ServedBy(ts, q, i)
  {
    forall name
      ensures FirstA(ts, name).Some? || FirstSrv(ts, name).Some? || FirstTxt(ts, name).Some? ==> AnyKnows(ts, name)
    {
      CompositeKnows(ts, name);
    }
    CompositeAnswersIffServed(ts, q);
    FoundImpliesResponds(CompositeTable(ts), q);
  }

  lemma {:induction false} CompositeKnows(ts: seq<NameTable>, name: string)
    requires forall i :: 0 <= i < |ts| ==> AnswersOnlyKnown(ts[i])
    ensures FirstA(ts, name).Some? || FirstSrv(ts, name).Some? || FirstTxt(ts, name).Some? ==> AnyKnows(ts, name)
  {
    if ts != [] {
      CompositeKnows(ts[1..], name);
      assert AnswersOnlyKnown(ts[0]);
      if AnyKnows(ts[1..], name) {
        var i :| 0 <= i < |ts[1..]| && ts[1..][i].knows(name);
        assert ts[i + 1].knows(name);
      }
    }
  }

  // ----- What the daemon serves ------------------------------------------------------------------

  ghost function Dots(n: nat): (s: string)
    ensures |s| == n && forall i :: 0 <= i < n ==> s[i] == '.'
  {
    seq(n, _ => '.')
  }

  lemma EndsInDot(r: string, n: nat)
    requires n > 0
    ensures var s := r + Dots(n); s != [] && s[|s| - 1] == '.'
  {
  }

  lemma {:induction false} TrimDotsIff(s: string, r: string)
    ensures TrimDots(s) == r <==> (r == "" || r[|r| - 1] != '.') && exists n: nat :: s == r + Dots(n)
  {
    if s != [] && s[|s| - 1] == '.' {
      var init := s[..|s| - 1];
      TrimDotsIff(init, r);
      if n: nat :| init == r + Dots(n) { assert s == r + Dots(n + 1); }
      if (r == "" || r[|r| - 1] != '.') && exists n: nat :: s == r + Dots(n) {
        var n: nat :| s == r + Dots(n);
        assert n > 0;
        assert init == r + Dots(n - 1);
      }
    } else {
      assert s == s + Dots(0);
      forall n: nat | s == r + Dots(n) ensures n == 0 {
        if n > 0 { EndsInDot(r, n); }
      }
    }
  }

  /** A query name finds the book entry it is the name of: the bare name, the apex, and any final dots. */
  lemma BookKeyIff(name: string, key: string)
    ensures BookKey(name) == Some(key) <==> exists n: nat :: name == key + ".mesh" + Dots(n)
  {
    var full := key + ".mesh";
    assert full[|full| - 1] == 'h';
    TrimDotsIff(name, full);
    var t := TrimDots(name);
    TrimDotsIff(name, t);
    if BookKey(name) == Some(key) { assert t == t[..|t| - 5] + t[|t| - 5..]; }
    if t == full { assert full[|full| - 5..] == ".mesh" && full[..|full| - 5] == key; }
  }

  /** Equal but for the case of letters, `b` being in lower case. */
  ghost predicate SameLetters(a: string, b: string) {
    && |a| == |b|
    && forall i :: 0 <= i < |a| ==>
         a[i] == b[i] || ('A' <= a[i] <= 'Z' && a[i] as int + 32 == b[i] as int)
  }

  lemma LowerIff(a: string, b: string)
    requires forall i :: 0 <= i < |b| ==> !('A' <= b[i] <= 'Z')
    ensures Lower(a) == b <==> SameLetters(a, b)
  {
    if SameLetters(a, b) { assert Lower(a) == b; }
    if Lower(a) == b {
      forall i | 0 <= i < |a| ensures a[i] == b[i] || ('A' <= a[i] <= 'Z' && a[i] as int + 32 == b[i] as int) {
        assert Lower(a)[i] == b[i];
      }
    }
  }

  lemma LowerTwice(s: string)
    ensures Lower(Lower(s)) == Lower(s)
  {
  }

  lemma ApexIff(s: string, stem: string)
    ensures StripSuffix(s, ".mesh") == Some(stem) <==> s == stem + ".mesh"
  {
    if |s| >= 5 { assert s == s[..|s| - 5] + s[|s| - 5..]; }
    var full := stem + ".mesh";
    assert full[|full| - 5..] == ".mesh" && full[..|full| - 5] == stem;
  }

  /** The well-known names are `hello.mesh` and `id.mesh`, in any case and with any final dots. */
  lemma WellKnownIff(name: string)
    ensures IsWellKnown(name) <==> exists bare, n: nat {:trigger bare + Dots(n)} ::
              name == bare + Dots(n) && (SameLetters(bare, "hello.mesh") || SameLetters(bare, "id.mesh"))
  {
    var t := TrimDots(name);
    TrimDotsIff(name, t);
    var stem := StripSuffix(Lower(t), ".mesh");
    if stem.Some? {
      ApexIff(Lower(t), stem.value);
      assert Lower(stem.value) == stem.value by {
        LowerTwice(t);
        assert forall i :: 0 <= i < |stem.value| ==> stem.value[i] == Lower(t)[i];
        assert forall i :: 0 <= i < |stem.value| ==> Lower(stem.value)[i] == Lower(Lower(t))[i];
      }
    }
    WellKnownTexts();
    ApexIff(Lower(t), "hello");
    ApexIff(Lower(t), "id");
    LowerIff(t, "hello.mesh");
    LowerIff(t, "id.mesh");
    if bare, n: nat {:trigger bare + Dots(n)}
        :| name == bare + Dots(n) && (SameLetters(bare, "hello.mesh") || SameLetters(bare, "id.mesh")) {
      assert bare[|bare| - 1] != '.';
      TrimDotsIff(name, bare);
    }
  }

  lemma WellKnownTexts()
    ensures "hello" + ".mesh" == "hello.mesh" && "id" + ".mesh" == "id.mesh"
    ensures "hello.mesh"[9] == 'h' && "id.mesh"[6] == 'h'
  {
  }

  /** The name is that of a service whose owner was heard within the threshold. */
  ghost predicate Publishes(
    book: ServiceBook, v: View, staleMs: U64, nowMs: U64, name: string, e: ServiceEntry)
  {
    && BookKey(name).Some? && BookKey(name).value in book && book[BookKey(name).value] == e
    && e.owner in v && nowMs - v[e.owner].receivedAtMs <= staleMs
  }

  /** The name is leased and was renewed in the last 90 seconds. */
  ghost predicate Leases(leased: map<string, LeasedName>, wallMs: U64, name: string, e: LeasedName) {
    && BookKey(name).Some? && BookKey(name).value in leased && leased[BookKey(name).value] == e
    && wallMs - e.renewedAt.wallClock <= 90_000
  }

  /** Which entry a name has in the book and among the leases, by when its owner was heard and it was renewed. */
  lemma EntriesFound(book: ServiceBook, v: View, staleMs: U64, nowMs: U64, leased: map<string, LeasedName>,
                     wallMs: U64, name: string)
    ensures forall e :: LiveEntry(book, v, staleMs, nowMs, name) == Some(e) <==>
              Publishes(book, v, staleMs, nowMs, name, e)
    ensures forall e :: FreshLease(leased, wallMs, name) == Some(e) <==> Leases(leased, wallMs, name, e)
  {
  }

  ghost predicate Known(book: ServiceBook, v: View, staleMs: U64, nowMs: U64, leased: map<string, LeasedName>,
                        wallMs: U64, name: string) {
    || IsWellKnown(name)
    || (exists e :: Publishes(book, v, staleMs, nowMs, name, e))
    || (exists e :: Leases(leased, wallMs, name, e))
  }

  ghost predicate Answers(q: Question, r: Reply, rec: Record) {
    r == Reply(NoError, Some(q), [rec], false)
  }

  /** No data for a known name, denial with the zone's SOA for any other. */
  ghost predicate AnswersNothing(q: Question, r: Reply, known: bool) {
    r == if known then Reply(NoError, Some(q), [], false) else Reply(NameError, Some(q), [], true)
  }

  /** What the three tables hold under a name, in terms of what they were made from. */
  lemma DaemonKnows(gateway: Option<int>, book: ServiceBook, v: View, staleMs: U64, nowMs: U64,
                    leased: map<string, LeasedName>, wallMs: U64, name: string)
    ensures DaemonTable(gateway, book, v, staleMs, nowMs, leased, wallMs).knows(name) <==>
            Known(book, v, staleMs, nowMs, leased, wallMs, name)
    ensures ServiceTable(book, v, staleMs, nowMs).knows(name) <==>
            exists e :: Publishes(book, v, staleMs, nowMs, name, e)
    ensures LeasedNameTable(leased, wallMs).knows(name) <==> exists e :: Leases(leased, wallMs, name, e)
  {
    var a, b, c := WellKnownTable(gateway), ServiceTable(book, v, staleMs, nowMs), LeasedNameTable(leased, wallMs);
    CompositeOfThree(a, b, c, Question(name, QA));
    EntriesFound(book, v, staleMs, nowMs, leased, wallMs, name);
    var e, l := LiveEntry(book, v, staleMs, nowMs, name), FreshLease(leased, wallMs, name);
    assert e.Some? ==> Publishes(book, v, staleMs, nowMs, name, e.value);
    assert l.Some? ==> Leases(leased, wallMs, name, l.value);
  }

  /** What the service and lease tables say of a name they know. */
  lemma EntriesServed(book: ServiceBook, v: View, staleMs: U64, nowMs: U64, leased: map<string, LeasedName>,
                      wallMs: U64, name: string)
    ensures var t := ServiceTable(book, v, staleMs, nowMs);
            && (forall e :: Publishes(book, v, staleMs, nowMs, name, e) ==>
                  && t.lookupA(name) == (if e.ip.V4? then Some([e.ip.addr]) else None)
                  && t.lookupSrv(name) == (if e.port != 0 then Some(e.port) else None)
                  && t.lookupTxt(name) == Some(e.txt))
            && ((forall e :: !Publishes(book, v, staleMs, nowMs, name, e)) ==>
                  t.lookupA(name) == None && t.lookupSrv(name) == None && t.lookupTxt(name) == None)
    ensures var t := LeasedNameTable(leased, wallMs);
            && t.lookupTxt(name) == None
            && (forall e :: Leases(leased, wallMs, name, e) ==>
                  && t.lookupA(name) == (if e.ip.V4? then Some([e.ip.addr]) else None)
                  && t.lookupSrv(name) == (if e.port != 0 then Some(e.port) else None))
            && ((forall e :: !Leases(leased, wallMs, name, e)) ==>
                  t.lookupA(name) == None && t.lookupSrv(name) == None)
  {
    EntriesFound(book, v, staleMs, nowMs, leased, wallMs, name);
    var e, l := LiveEntry(book, v, staleMs, nowMs, name), FreshLease(leased, wallMs, name);
    assert e.Some? ==> Publishes(book, v, staleMs, nowMs, name, e.value);
    assert l.Some? ==> Leases(leased, wallMs, name, l.value);
  }

  /** What the stack yields for a type of question, by what its tables hold under the name. */
  lemma StackReply(gateway: Option<int>, book: ServiceBook, v: View, staleMs: U64, nowMs: U64,
                   leased: map<string, LeasedName>, wallMs: U64, q: Question, rs: seq<Record>)
    requires var a, b, c :=
               WellKnownTable(gateway), ServiceTable(book, v, staleMs, nowMs), LeasedNameTable(leased, wallMs);
             rs == if Responds(a, q) then Found(a, q) else if Responds(b, q) then Found(b, q)
                   else if Responds(c, q) then Found(c, q) else []
    ensures var r := ReplyTo(Some(q), DaemonTable(gateway, book, v, staleMs, nowMs, leased, wallMs));
            && (rs != [] ==> r == Reply(NoError, Some(q), rs, false))
            && (rs == [] ==> AnswersNothing(q, r, Known(book, v, staleMs, nowMs, leased, wallMs, q.name)))
  {
    var a, b, c := WellKnownTable(gateway), ServiceTable(book, v, staleMs, nowMs), LeasedNameTable(leased, wallMs);
    CompositeOfThree(a, b, c, q);
    DaemonKnows(gateway, book, v, staleMs, nowMs, leased, wallMs, q.name);
  }

  ghost predicate ServesV4(book: ServiceBook, v: View, staleMs: U64, nowMs: U64, name: string) {
    exists e :: Publishes(book, v, staleMs, nowMs, name, e) && e.ip.V4?
  }

  ghost predicate LendsV4(leased: map<string, LeasedName>, wallMs: U64, name: string) {
    exists e :: Leases(leased, wallMs, name, e) && e.ip.V4?
  }

  /** Address questions about a well-known name: the gateway's address, or 192.168.1.1 without one. */
  lemma WellKnownReply(gateway: Option<int>, book: ServiceBook, v: View, staleMs: U64, nowMs: U64,
                       leased: map<string, LeasedName>, wallMs: U64, q: Question)
    requires q.qtype == QA && IsWellKnown(q.name)
    ensures var router := if gateway.Some? then gateway.value else 192 * 0x100_0000 + 168 * 0x1_0000 + 0x101;
            Answers(q, ReplyTo(Some(q), DaemonTable(gateway, book, v, staleMs, nowMs, leased, wallMs)), ARecord(router))
  {
    var a := WellKnownTable(gateway);
    assert Responds(a, q);
    StackReply(gateway, book, v, staleMs, nowMs, leased, wallMs, q, Found(a, q));
  }

  /** Address questions about any other name: the service's IPv4 address, otherwise the leased name's. */
  lemma AddressReply(gateway: Option<int>, book: ServiceBook, v: View, staleMs: U64, nowMs: U64,
                     leased: map<string, LeasedName>, wallMs: U64, q: Question)
    requires q.qtype == QA && !IsWellKnown(q.name)
    ensures var r := ReplyTo(Some(q), DaemonTable(gateway, book, v, staleMs, nowMs, leased, wallMs));
            && (forall e :: Publishes(book, v, staleMs, nowMs, q.name, e) && e.ip.V4? ==>
                  Answers(q, r, ARecord(e.ip.addr)))
            && (forall e ::
                  !ServesV4(book, v, staleMs, nowMs, q.name) && Leases(leased, wallMs, q.name, e) && e.ip.V4? ==>
                    Answers(q, r, ARecord(e.ip.addr)))
            && (!ServesV4(book, v, staleMs, nowMs, q.name) && !LendsV4(leased, wallMs, q.name) ==>
                  AnswersNothing(q, r, Known(book, v, staleMs, nowMs, leased, wallMs, q.name)))
  {
    var a, b, c := WellKnownTable(gateway), ServiceTable(book, v, staleMs, nowMs), LeasedNameTable(leased, wallMs);
    EntriesServed(book, v, staleMs, nowMs, leased, wallMs, q.name);
    assert !Responds(a, q);
    var rs := if Responds(b, q) then Found(b, q) else if Responds(c, q) then Found(c, q) else [];
    StackReply(gateway, book, v, staleMs, nowMs, leased, wallMs, q, rs);
  }

  /** Port questions: the service's port, or the leased name's where the service has none; well-known names have
      no port of their own. */
  lemma PortReply(gateway: Option<int>, book: ServiceBook, v: View, staleMs: U64, nowMs: U64,
                  leased: map<string, LeasedName>, wallMs: U64, q: Question)
    requires q.qtype == QSRV
    ensures var r := ReplyTo(Some(q), DaemonTable(gateway, book, v, staleMs, nowMs, leased, wallMs));
            var served := exists e :: Publishes(book, v, staleMs, nowMs, q.name, e) && e.port != 0;
            var lent := exists e :: Leases(leased, wallMs, q.name, e) && e.port != 0;
            && (forall e :: Publishes(book, v, staleMs, nowMs, q.name, e) && e.port != 0 ==>
                  Answers(q, r, SrvRecord(e.port)))
            && (forall e :: !served && Leases(leased, wallMs, q.name, e) && e.port != 0 ==>
                  Answers(q, r, SrvRecord(e.port)))
            && (!served && !lent ==>
                  AnswersNothing(q, r, Known(book, v, staleMs, nowMs, leased, wallMs, q.name)))
  {
    var a, b, c := WellKnownTable(gateway), ServiceTable(book, v, staleMs, nowMs), LeasedNameTable(leased, wallMs);
    CompositeOfThree(a, b, c, q);
    EntriesServed(book, v, staleMs, nowMs, leased, wallMs, q.name);
    DaemonKnows(gateway, book, v, staleMs, nowMs, leased, wallMs, q.name);
  }

  /** Text questions: the service's pairs, if it has any. Other questions, and none, have no answer. */
  lemma TextReply(gateway: Option<int>, book: ServiceBook, v: View, staleMs: U64, nowMs: U64,
                  leased: map<string, LeasedName>, wallMs: U64, q: Question)
    requires q.qtype == QTXT || q.qtype == QOther
    ensures var t := DaemonTable(gateway, book, v, staleMs, nowMs, leased, wallMs);
            var served := q.qtype == QTXT
                          && exists e :: Publishes(book, v, staleMs, nowMs, q.name, e) && e.txt != map[];
            && (forall e :: q.qtype == QTXT && Publishes(book, v, staleMs, nowMs, q.name, e) && e.txt != map[] ==>
                  Answers(q, ReplyTo(Some(q), t), TxtRecord(e.txt)))
            && (!served ==>
                  AnswersNothing(q, ReplyTo(Some(q), t), Known(book, v, staleMs, nowMs, leased, wallMs, q.name)))
            && ReplyTo(None, t) == Reply(NameError, None, [], true)
  {
    var a, b, c := WellKnownTable(gateway), ServiceTable(book, v, staleMs, nowMs), LeasedNameTable(leased, wallMs);
    CompositeOfThree(a, b, c, q);
    EntriesServed(book, v, staleMs, nowMs, leased, wallMs, q.name);
    DaemonKnows(gateway, book, v, staleMs, nowMs, leased, wallMs, q.name);
  }

  /** In the daemon's stack an empty answer shadows nothing: the reply is empty exactly when some table
      knows the name and no table at all has an answer of the queried type. */
  lemma DaemonNoData(gateway: Option<int>, book: ServiceBook, v: View, staleMs: U64, nowMs: U64,
                     leased: map<string, LeasedName>, wallMs: U64, q: Question)
    ensures var ts := [WellKnownTable(gateway), ServiceTable(book, v, staleMs, nowMs), LeasedNameTable(leased, wallMs)];
            var r := ReplyTo(Some(q), DaemonTable(gateway, book, v, staleMs, nowMs, leased, wallMs));
            r.rcode == NoError && r.answers == [] <==>
            AnyKnows(ts, q.name) && forall i :: 0 <= i < |ts| ==> Found(ts[i], q) == []
  {
    var a, b, c := WellKnownTable(gateway), ServiceTable(book, v, staleMs, nowMs), LeasedNameTable(leased, wallMs);
    var ts := [a, b, c];
    DaemonTablesAnswerOnlyKnown(gateway, book, v, staleMs, nowMs, leased, wallMs);
    NegativeAnswers(ts, q);
    FoundImpliesResponds(a, q);
    FoundImpliesResponds(b, q);
    if Found(a, q) != [] {
      assert ServedBy(ts, q, 0);
    } else if Found(b, q) != [] {
      assert ServedBy(ts, q, 1);
    } else if Found(c, q) != [] {
      assert !Responds(a, q) && !Responds(b, q);
      assert ServedBy(ts, q, 2);
    }
  }

  /** In general it can: an earlier table that responds with nothing hides a later table's answer. */
  lemma EmptyAnswerShadows() returns (ts: seq<NameTable>, q: Question)
    ensures forall i :: 0 <= i < |ts| ==> AnswersOnlyKnown(ts[i])
    ensures |ts| == 2 && Found(ts[1], q) != []
    ensures ReplyTo(Some(q), CompositeTable(ts)) == Reply(NoError, Some(q), [], false)
  {
    q := Question("x.mesh", QTXT);
    var empty := NameTable(name => None, name => true, name => None, name => Some(map[]));
    var full := NameTable(name => None, name => true, name => None, name => Some(map["k" := "v"]));
    ts := [empty, full];
    CompositeFinds(ts, q);
    assert Found(full, q) == [TxtRecord(map["k" := "v"])] by {
      assert "k" in map["k" := "v"];
    }
    assert ts[0].knows(q.name);
  }
}
