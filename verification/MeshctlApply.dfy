/** Running the reconciler against a router (`plan.rs`, `apply.rs`, `cmd_apply` in `main.rs`). */
module MeshctlApply {
  import opened Basics
  import opened QueryText
  import opened QueryReading
  import opened RouterConfig
  import opened RouterConsole
  import opened Reconcile
  import opened OnePass
  import opened Alloc
  import opened NetText

  /** A router reached over SSH: its configuration and the console that runs scripts on it. */
  class Router {
    const console: Console
    var menus: Menus

    constructor (console: Console, menus: Menus)
      ensures this.console == console && this.menus == menus
    {
      this.console := console;
      this.menus := menus;
    }

    /** Send the query script and parse what it prints; an answered query changes nothing. */
    method Ask(path: string, sel: Selector, fields: seq<string>) returns (recs: seq<Record>)
      requires Obeys(console) && PrintableRequest(Request(path, sel, fields))
      ensures recs == Query(menus, path, sel, fields)
    {
      var script := BuildQueryScript(path, Some(SelectorText(sel)), fields);
      var reply := console(menus, script);
      ghost var q, found := Request(path, sel, fields), Find(ItemsAt(menus, path), sel);
      assert script == QueryScript(q);
      assert Answers(console, menus, q);
      assert reply.menus == menus;
      TranscriptCompletes(fields, found);
      TextIsReadItemByItem(fields, found);
      var complete := EnsureComplete(reply.stdout);
      assert complete;
      recs := ParseRecords(reply.stdout);
    }

    /** Send a change's command with the sentinel behind it; it went through when the sentinel was printed. */
    method Run(c: Change) returns (ok: bool)
      modifies this
      ensures var reply := console(old(menus), CommandScript(c.cmd));
              menus == reply.menus && (ok <==> Completed(Lines(reply.stdout)))
    {
      var reply := console(menus, CommandScript(c.cmd));
      menus := reply.menus;
      ok := EnsureComplete(reply.stdout);
    }
  }

  // ----- Observing -------------------------------------------------------------------------

  lemma IdentityIsPrintable(d: Desired)
    requires GoodDesired(d)
    ensures PrintableRequest(Request(d.path, Identity(d), Keys(d.fields)))
  {
    forall i | 0 <= i < |d.fields| ensures Word(Keys(d.fields)[i]) {
      assert Word(d.fields[i].0);
    }
  }

  method ObserveOne(router: Router, d: Desired) returns (o: Observed)
    requires Obeys(router.console) && GoodDesired(d)
    ensures SeenAs(o, d, router.menus)
  {
    IdentityIsPrintable(d);
    var recs := router.Ask(d.path, Identity(d), Keys(d.fields));
    o := Observed(d, Classify(d.fields, recs));
  }

  method ObserveResources(router: Router, desired: seq<Desired>) returns (observed: seq<Observed>)
    requires Obeys(router.console) && GoodDesireds(desired)
    ensures Observes(observed, desired, router.menus)
  {
    observed := [];
    for i := 0 to |desired|
      invariant |observed| == i
      invariant forall j :: 0 <= j < i ==> SeenAs(observed[j], desired[j], router.menus)
    {
      var o := ObserveOne(router, desired[i]);
      observed := observed + [o];
    }
  }

  /** The entries for the scanned records whose comment is not wanted. */
  function Unwanted(recs: seq<Record>, want: set<string>, kind: string, path: string): (r: seq<PruneEntry>) {
    if recs == [] then []
    else
      var rest, rec := Unwanted(recs[1..], want, kind, path), recs[0];
      if "comment" in rec && rec["comment"] !in want then [PruneEntry(kind, path, rec["comment"])] + rest else rest
  }

  method CollectUnwanted(recs: seq<Record>, want: set<string>, kind: string, path: string)
    returns (prunes: seq<PruneEntry>)
    ensures prunes == Unwanted(recs, want, kind, path)
  {
    prunes := [];
    for i := 0 to |recs|
      invariant prunes + Unwanted(recs[i..], want, kind, path) == Unwanted(recs, want, kind, path)
    {
      assert recs[i..][1..] == recs[i + 1..];
      var rec := recs[i];
      if "comment" in rec && rec["comment"] !in want {
        prunes := prunes + [PruneEntry(kind, path, rec["comment"])];
      }
    }
    assert recs[|recs|..] == [];
  }

  ghost predicate ReadsComment(recs: seq<Record>, c: string) {
    exists rec :: rec in recs && "comment" in rec && rec["comment"] == c
  }

  lemma {:induction false} UnwantedMembers(
    recs: seq<Record>, want: set<string>, kind: string, path: string, p: PruneEntry)
    ensures p in Unwanted(recs, want, kind, path) <==>
            p.kind == kind && p.path == path && p.comment !in want && ReadsComment(recs, p.comment)
  {
    if recs != [] {
      UnwantedMembers(recs[1..], want, kind, path, p);
      assert recs == [recs[0]] + recs[1..];
      assert ReadsComment(recs, p.comment) <==>
             ("comment" in recs[0] && recs[0]["comment"] == p.comment) || ReadsComment(recs[1..], p.comment);
    }
  }

  lemma ScanIsPrintable(desired: seq<Desired>, path: string)
    requires GoodDesireds(desired) && path in OwnedPaths(desired)
    ensures PrintableRequest(Request(path, OWNED_FILTER, ["comment"]))
  {
    var i := OwnedPathHasResource(desired, path);
    assert GoodDesired(desired[i]) && Word(OWN_PREFIX);
    CommentIsWord();
  }

  /** The unclaimed comments read on one owned path. */
  method ScanPath(router: Router, desired: seq<Desired>, path: string) returns (prunes: seq<PruneEntry>)
    requires Obeys(router.console) && GoodDesireds(desired) && path in OwnedPaths(desired)
    ensures forall p :: p in prunes <==>
              p.kind == KindAt(desired, path) && p.path == path && Unclaimed(desired, router.menus, path, p.comment)
  {
    ScanIsPrintable(desired, path);
    var recs := router.Ask(path, OWNED_FILTER, ["comment"]);
    prunes := CollectUnwanted(recs, Wanted(desired, path), KindAt(desired, path), path);
    forall p
      ensures p in prunes <==> p.kind == KindAt(desired, path) && p.path == path
                               && p.comment !in Wanted(desired, path) && ReadsComment(recs, p.comment)
    {
      UnwantedMembers(recs, Wanted(desired, path), KindAt(desired, path), path, p);
    }
  }

  /** The owned paths are visited in no particular order. */
  method ScanPrunes(router: Router, desired: seq<Desired>) returns (prunes: seq<PruneEntry>)
    requires Obeys(router.console) && GoodDesireds(desired)
    ensures PrunesRead(prunes, desired, router.menus)
  {
    prunes := [];
    var todo := OwnedPaths(desired);
    while todo != {}
      invariant todo <= OwnedPaths(desired)
      invariant forall p :: p in prunes ==>
                  p.kind == KindAt(desired, p.path) && Unclaimed(desired, router.menus, p.path, p.comment)
      invariant forall path, c :: Unclaimed(desired, router.menus, path, c) && path !in todo ==>
                  PruneEntry(KindAt(desired, path), path, c) in prunes
      decreases |todo|
    {
      var path :| path in todo;
      todo := todo - {path};
      var more := ScanPath(router, desired, path);
      prunes := prunes + more;
    }
  }

  // ----- Planning --------------------------------------------------------------------------

  /** The change printed for one resource, if any. */
  function MainChange(o: Observed): (c: seq<Change>)
    ensures c == SpellAll(MainIntent(o))
  {
    var d := o.desired;
    match o.status
    case Missing => [Change(d.kind, d.id, d.path + "/add" + " " + ArgsText(AddFields(d)))]
    case Drifted(_) =>
      var find := "[find where " + SelectorText(Identity(d)) + "]";
      [Change(d.kind, d.id, d.path + "/set" + " " + (find + " " + ArgsText(d.fields)))]
    case Converged => []
    case Conflict(_) => []
  }

  method PlanResources(observed: seq<Observed>) returns (changes: seq<Change>, skipped: seq<Skipped>)
    ensures changes == SpellAll(MainIntents(observed)) && skipped == Skips(observed)
  {
    changes, skipped := [], [];
    for n := 0 to |observed|
      invariant changes == SpellAll(MainIntents(observed[..n])) && skipped == Skips(observed[..n])
    {
      assert observed[..n + 1][..n] == observed[..n];
      var o := observed[n];
      SpellConcat(MainIntents(observed[..n]), MainIntent(o));
      changes := changes + MainChange(o);
      if o.status.Conflict? {
        skipped := skipped + [Skipped(o.desired.kind, o.desired.id, o.status.matches)];
      }
    }
    assert observed[..|observed|] == observed;
  }

  method PlanPrunes(prunes: seq<PruneEntry>) returns (changes: seq<Change>)
    ensures changes == SpellAll(PruneIntents(prunes))
  {
    changes := [];
    for n := 0 to |prunes|
      invariant changes == SpellAll(PruneIntents(prunes[..n]))
    {
      var p := prunes[n];
      assert prunes[..n + 1] == prunes[..n] + [p];
      PruneIntentsSnoc(prunes[..n], p);
      SpellConcat(PruneIntents(prunes[..n]), [PruneIntent(p)]);
      var find := "[find where " + ("comment" + "=" + Quoted(p.comment)) + "]";
      changes := changes + [Change(p.kind, p.comment, p.path + "/remove" + " " + find)];
    }
    assert prunes[..|prunes|] == prunes;
  }

  /** The changes of a plan for the router as it stands, and the ambiguous resources left alone. */
  method PlanChanges(router: Router, desired: seq<Desired>)
    returns (changes: seq<Change>, skipped: seq<Skipped>, ghost observed: seq<Observed>)
    requires Obeys(router.console) && GoodDesireds(desired)
    ensures Observes(observed, desired, router.menus)
    ensures PlanOf(changes, desired, router.menus) && skipped == Skips(observed)
  {
    var seen := ObserveResources(router, desired);
    var prunes := ScanPrunes(router, desired);
    var main, skips := PlanResources(seen);
    var removals := PlanPrunes(prunes);
    SpellConcat(MainIntents(seen), PruneIntents(prunes));
    changes, skipped, observed := main + removals, skips, seen;
    assert IsPlan(changes, observed, prunes, desired, router.menus);
  }

  // ----- Applying --------------------------------------------------------------------------

  /** Send the commands in order, whether or not earlier ones failed. */
  method Execute(router: Router, changes: seq<Change>) returns (done: nat, failed: nat)
    modifies router
    ensures var r := RunAll(router.console, old(router.menus), changes);
            router.menus == r.menus && failed == r.failed && done + failed == |changes|
  {
    done, failed := 0, 0;
    for n := 0 to |changes|
      invariant RunAll(router.console, old(router.menus), changes[..n]) == Outcome(router.menus, failed)
      invariant done + failed == n
    {
      assert changes[..n + 1] == changes[..n] + [changes[n]];
      RunSnoc(router.console, old(router.menus), changes[..n], changes[n]);
      var ok := router.Run(changes[n]);
      if ok {
        done := done + 1;
      } else {
        failed := failed + 1;
      }
    }
    assert changes[..|changes|] == changes;
  }

  method CountUnconverged(observed: seq<Observed>) returns (n: nat)
    ensures n == 0 <==> forall j :: 0 <= j < |observed| ==> observed[j].status == Converged
  {
    n := 0;
    for i := 0 to |observed|
      invariant n == 0 <==> forall j :: 0 <= j < i ==> observed[j].status == Converged
    {
      if observed[i].status != Converged {
        n := n + 1;
      }
    }
  }

  /** Observe the router again: converged when every resource is and nothing is left to prune, as read. */
  method Reobserve(router: Router, desired: seq<Desired>) returns (converged: bool)
    requires Obeys(router.console) && GoodDesireds(desired)
    ensures converged <==> AllConverged(desired, router.menus) && NothingUnclaimed(desired, router.menus)
  {
    var observed := ObserveResources(router, desired);
    var prunes := ScanPrunes(router, desired);
    var unconverged := CountUnconverged(observed);
    converged := unconverged + |prunes| == 0;
    PrunesEmptyIff(prunes, desired, router.menus);
    ConvergedAsSeen(observed, desired, router.menus);
  }

  /** `after` is what running some plan made of `before`, and `ok` the report: success at once for an empty
      plan, otherwise that no command failed and a second look shows everything in place. */
  ghost predicate Reports(os: Console, desired: seq<Desired>, before: Menus, after: Menus, ok: bool) {
    exists changes :: ReportsOn(os, changes, desired, before, after, ok)
  }

  ghost predicate ReportsOn(
    os: Console, changes: seq<Change>, desired: seq<Desired>, before: Menus, after: Menus, ok: bool)
  {
    && PlanOf(changes, desired, before) && after == After(os, before, changes)
    && (ok <==> changes == [] || (&& RunAll(os, before, changes).failed == 0
                                  && AllConverged(desired, after) && NothingUnclaimed(desired, after)))
  }

  /** With nothing to change, success is reported and nothing is changed; otherwise a failed command or a resource
      not read as converged is a failure. */
  lemma ReportMeans(os: Console, changes: seq<Change>, desired: seq<Desired>, before: Menus, after: Menus, ok: bool)
    requires ReportsOn(os, changes, desired, before, after, ok)
    ensures changes == [] ==> ok && after == before
    ensures changes != [] && ok ==> AllConverged(desired, after) && RunAll(os, before, changes).failed == 0
  {
  }

  /** Plan; report success if there is nothing to change; otherwise run the changes and observe again. */
  method Converge(router: Router, desired: seq<Desired>) returns (ok: bool)
    requires Obeys(router.console) && GoodDesireds(desired)
    modifies router
    ensures Reports(router.console, desired, old(router.menus), router.menus, ok)
  {
    ghost var before := router.menus;
    var changes, skipped, _ := PlanChanges(router, desired);
    if changes == [] {
      assert ReportsOn(router.console, changes, desired, before, router.menus, true);
      return true;
    }
    var done, failed := Execute(router, changes);
    var converged := Reobserve(router, desired);
    ok := failed == 0 && converged;
    assert ReportsOn(router.console, changes, desired, before, router.menus, ok);
  }

  /** What `apply` promises of a router it can read, on a console that refuses removals that say no command. */
  ghost predicate ExactlyApplied(desired: seq<Desired>, before: Menus, after: Menus, ok: bool) {
    && (ok <==> || Settled(desired, before)
                || (AllFixed(desired, before) && LeftoversSay(desired, before) && LeftoversTaken(desired, before)))
    && (TrulyConverged(desired, after) <==> AllFixed(desired, before))
    && (NothingToPrune(desired, after) <==> LeftoversTaken(desired, before))
    && (LeavesOthers(desired, before, after) <==> NoForeignTaken(desired, before))
  }

  /** What it promises on every console that obeys, where the leftovers' comments can be quoted too. */
  ghost predicate WellApplied(desired: seq<Desired>, before: Menus, after: Menus, ok: bool) {
    && (ok <==> Settled(desired, before) || NoConflict(desired, before))
    && (TrulyConverged(desired, after) <==> NoConflict(desired, before))
    && NothingToPrune(desired, after) && LeavesOthers(desired, before, after)
  }

  /** The exact report on a readable router: success if and only if everything but the ambiguous was already
      in place, so that the ambiguity is never looked at again; or each resource is left one instance that is
      as desired, and the leftovers' comments say removals that take all leftovers. */
  lemma ReportsIff(os: Console, desired: seq<Desired>, before: Menus, after: Menus, ok: bool)
    requires GoodDesireds(desired) && AllWriteReadable(desired) && ReadableRouter(desired, before)
    requires Obeys(os) && RefusesRest(os, desired, before) && Reports(os, desired, before, after, ok)
    ensures ExactlyApplied(desired, before, after, ok)
  {
    var changes :| ReportsOn(os, changes, desired, before, after, ok);
    OnePassConverges(os, changes, desired, before);
    PlanEmptyIff(changes, desired, before);
  }

  /** The report of every console that obeys where the leftovers' comments can be quoted: success if and only if
      nothing was ambiguous, or everything else was already in place. */
  lemma QuotableReportsIff(os: Console, desired: seq<Desired>, before: Menus, after: Menus, ok: bool)
    requires GoodDesireds(desired) && AllWriteReadable(desired) && ReadableRouter(desired, before)
    requires Obeys(os) && LeftoversQuotable(desired, before) && Reports(os, desired, before, after, ok)
    ensures WellApplied(desired, before, after, ok)
  {
    ReadableRouterScans(desired, before);
    SayingNeedsNoRefusal(os, desired, before);
    QuotableLeftovers(desired, before);
    ReportsIff(os, desired, before, after, ok);
  }

  // ----- The desired set of a router ----------------------------------------------------------

  const OWN_COMMENT := "mjolnir container egress"
  const NAT := "/ip/firewall/nat"

  /** Machine addition on the network address wraps. */
  function Host(base: int, n: nat): (a: Addr) {
    (base + n) % ADDRESSES
  }

  function WithPlen(a: Addr, plen: Plen): (s: string) {
    PrintAddr(a) + "/" + Digits(plen)
  }

  /** The resources of the subnet at a network address, for any way to print addresses and networks. */
  function ResourcesAt(base: int, plen: Plen, quad: Addr -> string, cidr: (Addr, Plen) -> string): (d: seq<Desired>) {
    var gw, ct := Host(base, 1), Host(base, 2);
    var src := cidr(Host(base, 0), plen);
    [ Desired("veth", "/interface/veth", "veth-mesh", "name", "veth-mesh",
              [("address", cidr(ct, plen)), ("gateway", quad(gw))], false),
      Desired("bridge", "/interface/bridge", "br-mesh", "name", "br-mesh", [], false),
      Desired("bridge-port", "/interface/bridge/port", "veth-mesh@br-mesh", "interface", "veth-mesh",
              [("bridge", "br-mesh")], false),
      Desired("ip-address", "/ip/address", cidr(gw, plen) + "@br-mesh", "address", cidr(gw, plen),
              [("interface", "br-mesh")], false),
      Desired("nat", NAT, OWN_COMMENT, "comment", OWN_COMMENT,
              [("chain", "srcnat"), ("action", "masquerade"), ("src-address", src)], true),
      Desired("filter", "/ip/firewall/filter", OWN_COMMENT, "comment", OWN_COMMENT,
              [("chain", "forward"), ("action", "accept"), ("src-address", src)], true) ]
  }

  function DesiredResources(net: Net): (d: seq<Desired>) {
    ResourcesAt(Network(net), net.plen, PrintAddr, WithPlen)
  }

  // ----- What a converged router holds -------------------------------------------------------------

  /** One item of the path has the value under the key, and it has these fields. */
  ghost predicate OneItem(m: Menus, path: string, key: string, value: string, fields: seq<(string, string)>) {
    var found := Find(ItemsAt(m, path), Equals(key, value));
    |found| == 1 && forall i :: 0 <= i < |fields| ==> Prop(found[0], fields[i].0) == fields[i].1
  }

  /** The links of a router: a container's veth with the address and the gateway, as a port of the bridge that
      has the gateway's address. */
  ghost predicate HoldsLinks(m: Menus, gateway: string, gatewayCidr: string, containerCidr: string) {
    && OneItem(m, "/interface/veth", "name", "veth-mesh", [("address", containerCidr), ("gateway", gateway)])
    && OneItem(m, "/interface/bridge", "name", "br-mesh", [])
    && OneItem(m, "/interface/bridge/port", "interface", "veth-mesh", [("bridge", "br-mesh")])
    && OneItem(m, "/ip/address", "address", gatewayCidr, [("interface", "br-mesh")])
  }

  /** Its rules: traffic of the subnet is masqueraded and forwarded. */
  ghost predicate HoldsRules(m: Menus, subnet: string) {
    && OneItem(m, "/ip/firewall/nat", "comment", "mjolnir container egress",
               [("chain", "srcnat"), ("action", "masquerade"), ("src-address", subnet)])
    && OneItem(m, "/ip/firewall/filter", "comment", "mjolnir container egress",
               [("chain", "forward"), ("action", "accept"), ("src-address", subnet)])
  }

  lemma ResourceHeld(d: Desired, m: Menus)
    ensures StatusIn(d, ItemsAt(m, d.path)).Converged? <==> OneItem(m, d.path, d.idKey, d.idValue, d.fields)
  {
    StatusMeans(d, ItemsAt(m, d.path));
  }

  lemma SixResources(ds: seq<Desired>, m: Menus)
    requires |ds| == 6
    ensures TrulyConverged(ds, m) <==> forall i :: 0 <= i < 6 ==>
              OneItem(m, ds[i].path, ds[i].idKey, ds[i].idValue, ds[i].fields)
  {
    forall i | 0 <= i < |ds|
      ensures StatusIn(ds[i], ItemsAt(m, ds[i].path)).Converged? <==>
              OneItem(m, ds[i].path, ds[i].idKey, ds[i].idValue, ds[i].fields)
    {
      ResourceHeld(ds[i], m);
    }
  }

  /** The resources in order of dependency, and which of them are pruned by comment. */
  lemma ResourcesListed(base: int, plen: Plen, quad: Addr -> string, cidr: (Addr, Plen) -> string)
    ensures var ds := ResourcesAt(base, plen, quad, cidr);
            && |ds| == 6 && ds[0].path == "/interface/veth" && ds[1].path == "/interface/bridge"
            && ds[2].path == "/interface/bridge/port" && ds[3].path == "/ip/address"
            && ds[4].path == "/ip/firewall/nat" && ds[5].path == "/ip/firewall/filter"
            && forall i :: 0 <= i < 6 ==> (ds[i].commentOwned <==> i >= 4)
  {
  }

  /** The router's address is the one after the network's, the container's the one after that. */
  lemma LinksListed(base: int, plen: Plen, quad: Addr -> string, cidr: (Addr, Plen) -> string)
    ensures var ds := ResourcesAt(base, plen, quad, cidr);
            var router, container := (base + 1) % 0x1_0000_0000, (base + 2) % 0x1_0000_0000;
            && (ds[0].idKey, ds[0].idValue) == ("name", "veth-mesh")
            && ds[0].fields == [("address", cidr(container, plen)), ("gateway", quad(router))]
            && (ds[1].idKey, ds[1].idValue) == ("name", "br-mesh") && ds[1].fields == []
            && (ds[2].idKey, ds[2].idValue) == ("interface", "veth-mesh") && ds[2].fields == [("bridge", "br-mesh")]
            && (ds[3].idKey, ds[3].idValue) == ("address", cidr(router, plen))
            && ds[3].fields == [("interface", "br-mesh")]
  {
  }

  lemma RulesListed(base: int, plen: Plen, quad: Addr -> string, cidr: (Addr, Plen) -> string)
    ensures var ds, subnet := ResourcesAt(base, plen, quad, cidr), cidr(base % 0x1_0000_0000, plen);
            && (ds[4].idKey, ds[4].idValue) == ("comment", "mjolnir container egress")
            && ds[4].fields == [("chain", "srcnat"), ("action", "masquerade"), ("src-address", subnet)]
            && (ds[5].idKey, ds[5].idValue) == ("comment", "mjolnir container egress")
            && ds[5].fields == [("chain", "forward"), ("action", "accept"), ("src-address", subnet)]
  {
  }

  lemma ConvergedAt(base: int, plen: Plen, m: Menus, quad: Addr -> string, cidr: (Addr, Plen) -> string)
    ensures var router, container := (base + 1) % 0x1_0000_0000, (base + 2) % 0x1_0000_0000;
            TrulyConverged(ResourcesAt(base, plen, quad, cidr), m) <==>
            && HoldsLinks(m, quad(router), cidr(router, plen), cidr(container, plen))
            && HoldsRules(m, cidr(base % 0x1_0000_0000, plen))
  {
    var ds := ResourcesAt(base, plen, quad, cidr);
    ResourcesListed(base, plen, quad, cidr);
    LinksListed(base, plen, quad, cidr);
    RulesListed(base, plen, quad, cidr);
    SixResources(ds, m);
    if TrulyConverged(ds, m) {
      assert OneItem(m, ds[0].path, ds[0].idKey, ds[0].idValue, ds[0].fields);
      assert OneItem(m, ds[1].path, ds[1].idKey, ds[1].idValue, ds[1].fields);
      assert OneItem(m, ds[2].path, ds[2].idKey, ds[2].idValue, ds[2].fields);
      assert OneItem(m, ds[3].path, ds[3].idKey, ds[3].idValue, ds[3].fields);
      assert OneItem(m, ds[4].path, ds[4].idKey, ds[4].idValue, ds[4].fields);
      assert OneItem(m, ds[5].path, ds[5].idKey, ds[5].idValue, ds[5].fields);
    }
  }

  lemma AddressTexts(a: Addr, plen: Plen)
    ensures DottedQuad(PrintAddr(a), a) && CidrText(WithPlen(a, plen), a, plen)
  {
    PrintAddrIsDottedQuad(a);
    PrintNetIsCidr(Net(a, plen));
  }

  /** What `apply` works towards, for every subnet: the router has the address after the network's, with the
      subnet's prefix length, on the bridge; the container has the one after that and the router as its
      gateway; and the rules name the subnet. */
  lemma ConvergedMeans(net: Net, m: Menus)
    returns (gateway: string, gatewayCidr: string, containerCidr: string, subnet: string)
    ensures DottedQuad(gateway, (Network(net) + 1) % 0x1_0000_0000)
    ensures CidrText(gatewayCidr, (Network(net) + 1) % 0x1_0000_0000, net.plen)
    ensures CidrText(containerCidr, (Network(net) + 2) % 0x1_0000_0000, net.plen)
    ensures CidrText(subnet, Network(net) % 0x1_0000_0000, net.plen)
    ensures TrulyConverged(DesiredResources(net), m) <==>
            HoldsLinks(m, gateway, gatewayCidr, containerCidr) && HoldsRules(m, subnet)
  {
    gateway, gatewayCidr, containerCidr, subnet := PrintedAt(Network(net), net.plen, m);
  }

  lemma PrintedAt(base: int, plen: Plen, m: Menus)
    returns (gateway: string, gatewayCidr: string, containerCidr: string, subnet: string)
    ensures DottedQuad(gateway, (base + 1) % 0x1_0000_0000) && CidrText(gatewayCidr, (base + 1) % 0x1_0000_0000, plen)
    ensures CidrText(containerCidr, (base + 2) % 0x1_0000_0000, plen)
    ensures CidrText(subnet, base % 0x1_0000_0000, plen)
    ensures TrulyConverged(ResourcesAt(base, plen, PrintAddr, WithPlen), m) <==>
            HoldsLinks(m, gateway, gatewayCidr, containerCidr) && HoldsRules(m, subnet)
  {
    var router, container, network: Addr :=
      (base + 1) % 0x1_0000_0000, (base + 2) % 0x1_0000_0000, base % 0x1_0000_0000;
    ConvergedAt(base, plen, m, PrintAddr, WithPlen);
    AddressTexts(router, plen);
    AddressTexts(container, plen);
    AddressTexts(network, plen);
    gateway, gatewayCidr := PrintAddr(router), WithPlen(router, plen);
    containerCidr, subnet := WithPlen(container, plen), WithPlen(network, plen);
  }

  // ----- The desired set can be planned and printed ----------------------------------------------------

  lemma LinkFieldNamesAreClean()
    ensures CleanField("address") && CleanField("gateway") && CleanField("bridge") && CleanField("interface")
  {
  }

  lemma RuleFieldNamesAreClean()
    ensures CleanField("chain") && CleanField("action") && CleanField("src-address") && CleanField("comment")
  {
  }

  lemma NamesAreWords()
    ensures Word("address") && Word("gateway") && Word("bridge") && Word("interface") && Word("name")
    ensures Word("chain") && Word("action") && Word("src-address") && Word("comment")
  {
  }

  lemma PathsAreMenuPaths()
    ensures MenuPath("/interface/veth") && MenuPath("/interface/bridge") && MenuPath("/interface/bridge/port")
    ensures MenuPath("/ip/address") && MenuPath(NAT) && MenuPath("/ip/firewall/filter")
  {
  }

  lemma EachIsPrintable(base: int, plen: Plen, i: nat)
    requires i < 6
    ensures Spellable(ResourcesAt(base, plen, PrintAddr, WithPlen)[i])
  {
    NamesAreWords();
    PathsAreMenuPaths();
    EachIsTidy(base, plen, i);
  }

  lemma EachIsGood(base: int, plen: Plen, i: nat)
    requires i < 6 && Spellable(ResourcesAt(base, plen, PrintAddr, WithPlen)[i])
    ensures GoodDesired(ResourcesAt(base, plen, PrintAddr, WithPlen)[i])
  {
    LinkFieldNamesAreClean();
    RuleFieldNamesAreClean();
    assert "chain"[0] == 'c' && "action"[0] == 'a' && "src-address"[0] == 's';
    assert "comment"[1] == 'o' && "chain"[1] == 'h';
    assert "address"[0] == 'a' && "gateway"[0] == 'g' && "bridge"[0] == 'b';
    assert "interface"[0] == 'i' && "name"[0] == 'n';
  }

  lemma DesiredResourcesAreGood(net: Net)
    ensures GoodDesireds(DesiredResources(net))
  {
    var ds := DesiredResources(net);
    assert "/ip/address"[4] == 'a' && NAT[13] == 'n' && "/ip/firewall/filter"[13] == 'f';
    forall i | 0 <= i < |ds| ensures GoodDesired(ds[i]) {
      EachIsPrintable(Network(net), net.plen, i);
      EachIsGood(Network(net), net.plen, i);
    }
  }

  /** No bar and no line end: such a value is read back wherever it stands. */
  predicate Safe(v: string) {
    '|' !in v && OneLine(v)
  }

  /** It can be written too. */
  predicate Tidy(v: string) {
    Safe(v) && Quotable(v)
  }

  lemma SafeWrites(d: Desired)
    requires GoodDesired(d) && (forall i :: 0 <= i < |d.fields| ==> Safe(d.fields[i].1)) && Safe(d.idValue)
    ensures WritesReadable(d)
  {
    var it := NewItem(d);
    CarriesAfterSet(d, map[d.idKey := d.idValue]);
    WithFieldsOthers(map[d.idKey := d.idValue], d.fields, d.idKey);
    forall f | f in Keys(d.fields) ensures CleanField(f) && SepFree(Prop(it, f)) && OneLine(Prop(it, f)) {
      var j :| 0 <= j < |d.fields| && d.fields[j].0 == f;
      BarFreeIsSepFree(Prop(it, f));
    }
    SepFreeIsReadable(Keys(d.fields), it);
    if d.commentOwned {
      BarFreeIsSepFree(d.idValue);
      SepFreeIsReadable(["comment"], it);
    }
  }

  lemma AddressIsTidy(a: Addr, plen: Plen)
    ensures Tidy(PrintAddr(a)) && Tidy(WithPlen(a, plen))
  {
    PrintAddrChars(a);
    DigitsAreNumeric(plen);
  }

  lemma WordsAreTidy(v: string)
    requires forall i :: 0 <= i < |v| ==> WordChar(v[i]) || v[i] == ' '
    ensures Tidy(v)
  {
  }

  lemma TextsAreTidy()
    ensures Tidy("br-mesh") && Tidy("veth-mesh") && Tidy(OWN_COMMENT)
    ensures Tidy("srcnat") && Tidy("masquerade") && Tidy("forward") && Tidy("accept")
  {
    WordsAreTidy("br-mesh");
    WordsAreTidy("veth-mesh");
    WordsAreTidy(OWN_COMMENT);
    WordsAreTidy("srcnat");
    WordsAreTidy("masquerade");
    WordsAreTidy("forward");
    WordsAreTidy("accept");
  }

  lemma EachIsTidy(base: int, plen: Plen, i: nat)
    requires i < 6
    ensures var d := ResourcesAt(base, plen, PrintAddr, WithPlen)[i];
            Tidy(d.idValue) && forall j :: 0 <= j < |d.fields| ==> Tidy(d.fields[j].1)
  {
    TextsAreTidy();
    AddressIsTidy(Host(base, 0), plen);
    AddressIsTidy(Host(base, 1), plen);
    AddressIsTidy(Host(base, 2), plen);
  }

  /** The desired set of every subnet writes values that can be read back. */
  lemma DesiredResourcesWriteReadable(net: Net)
    ensures AllWriteReadable(DesiredResources(net))
  {
    var ds := DesiredResources(net);
    forall i | 0 <= i < |ds| ensures WritesReadable(ds[i]) {
      EachIsPrintable(Network(net), net.plen, i);
      EachIsGood(Network(net), net.plen, i);
      EachIsTidy(Network(net), net.plen, i);
      SafeWrites(ds[i]);
    }
  }

  /** `apply` on one router, for every subnet, every router and every console that obeys. */
  method Apply(router: Router, net: Net) returns (ok: bool)
    requires Obeys(router.console)
    modifies router
    ensures Reports(router.console, DesiredResources(net), old(router.menus), router.menus, ok)
    ensures ReadableRouter(DesiredResources(net), old(router.menus))
            && RefusesRest(router.console, DesiredResources(net), old(router.menus)) ==>
              ExactlyApplied(DesiredResources(net), old(router.menus), router.menus, ok)
    ensures ReadableRouter(DesiredResources(net), old(router.menus))
            && LeftoversQuotable(DesiredResources(net), old(router.menus)) ==>
              WellApplied(DesiredResources(net), old(router.menus), router.menus, ok)
  {
    ghost var before := router.menus;
    DesiredResourcesAreGood(net);
    DesiredResourcesWriteReadable(net);
    ok := Converge(router, DesiredResources(net));
    if ReadableRouter(DesiredResources(net), before) {
      if RefusesRest(router.console, DesiredResources(net), before) {
        ReportsIff(router.console, DesiredResources(net), before, router.menus, ok);
      }
      if LeftoversQuotable(DesiredResources(net), before) {
        QuotableReportsIff(router.console, DesiredResources(net), before, router.menus, ok);
      }
    }
  }
}
