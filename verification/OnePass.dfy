/** One pass of the reconciler: the plan is printed, run command by command on a router's console, and what
    that achieves. */
module OnePass {
  import opened Basics
  import opened QueryText
  import opened QueryReading
  import opened RouterConfig
  import opened RouterConsole
  import opened Reconcile

  // ----- Running what was printed --------------------------------------------------------------

  function Spell(i: Intent): (c: Change) {
    Change(i.kind, i.id, CommandText(i.cmd))
  }

  function SpellAll(intents: seq<Intent>): (cs: seq<Change>)
    ensures |cs| == |intents| && forall i :: 0 <= i < |intents| ==> cs[i] == Spell(intents[i])
  {
    seq(|intents|, i requires 0 <= i < |intents| => Spell(intents[i]))
  }

  datatype Outcome = Outcome(menus: Menus, failed: nat)

  /** The commands are sent one by one; one that is not completed counts as failed and the next is sent. */
  function RunAll(os: Console, m: Menus, cs: seq<Change>): (r: Outcome) {
    if cs == [] then Outcome(m, 0)
    else
      var before := RunAll(os, m, cs[..|cs| - 1]);
      var reply := os(before.menus, CommandScript(cs[|cs| - 1].cmd));
      Outcome(reply.menus, before.failed + if Completed(Lines(reply.stdout)) then 0 else 1)
  }

  /** What the texts say: the commands of those that are printable commands. */
  ghost function Heard(cs: seq<Change>): seq<Intent> {
    if cs == [] then []
    else
      var before, c := Heard(cs[..|cs| - 1]), cs[|cs| - 1];
      if Meaning(c.cmd).Some? then before + [Intent(c.kind, c.id, Meaning(c.cmd).value)] else before
  }

  ghost predicate AllHeard(cs: seq<Change>) {
    forall c :: c in cs ==> Meaning(c.cmd).Some?
  }

  /** Texts that say no command are refused. */
  ghost predicate RefusesUnheard(os: Console, cs: seq<Change>) {
    forall c :: c in cs && Meaning(c.cmd).None? ==> Refuses(os, c.cmd)
  }

  lemma RunSnoc(os: Console, m: Menus, cs: seq<Change>, c: Change)
    ensures var before := RunAll(os, m, cs);
            var reply := os(before.menus, CommandScript(c.cmd));
            RunAll(os, m, cs + [c]) ==
            Outcome(reply.menus, before.failed + if Completed(Lines(reply.stdout)) then 0 else 1)
  {
    assert (cs + [c])[..|cs|] == cs;
  }

  lemma ExecSnoc(m: Menus, intents: seq<Intent>, i: Intent)
    ensures ExecAll(m, intents + [i]) == Exec(ExecAll(m, intents), i.cmd)
  {
    assert (intents + [i])[..|intents|] == intents;
  }

  lemma HeardSnoc(cs: seq<Change>, c: Change)
    ensures Heard(cs + [c]) ==
            if Meaning(c.cmd).Some? then Heard(cs) + [Intent(c.kind, c.id, Meaning(c.cmd).value)] else Heard(cs)
    ensures AllHeard(cs + [c]) <==> AllHeard(cs) && Meaning(c.cmd).Some?
  {
    assert (cs + [c])[..|cs|] == cs;
  }

  ghost predicate RunMatches(os: Console, m: Menus, cs: seq<Change>) {
    RunAll(os, m, cs).menus == ExecAll(m, Heard(cs)) && (RunAll(os, m, cs).failed == 0 <==> AllHeard(cs))
  }

  lemma RunStep(os: Console, m: Menus, cs: seq<Change>, c: Change)
    requires Obeys(os) && RunMatches(os, m, cs) && (Meaning(c.cmd).None? ==> Refuses(os, c.cmd))
    ensures RunMatches(os, m, cs + [c])
  {
    HeardSnoc(cs, c);
    RunSnoc(os, m, cs, c);
    if Meaning(c.cmd).Some? {
      var i := Intent(c.kind, c.id, Meaning(c.cmd).value);
      assert Executes(os, ExecAll(m, Heard(cs)), i.cmd);
      ExecSnoc(m, Heard(cs), i);
    }
  }

  /** Running any texts executes the commands they say, and reports those that say none as failed. */
  lemma {:induction false} RunIsExec(os: Console, m: Menus, cs: seq<Change>)
    requires Obeys(os) && RefusesUnheard(os, cs)
    ensures RunMatches(os, m, cs)
  {
    if cs != [] {
      var k := |cs| - 1;
      assert cs == cs[..k] + [cs[k]];
      RunIsExec(os, m, cs[..k]);
      RunStep(os, m, cs[..k], cs[k]);
    }
  }

  lemma SpellConcat(a: seq<Intent>, b: seq<Intent>)
    ensures SpellAll(a + b) == SpellAll(a) + SpellAll(b)
  {
  }

  ghost predicate HeardAddsUp(a: seq<Change>, b: seq<Change>) {
    Heard(a + b) == Heard(a) + Heard(b)
  }

  lemma HeardConcatStep(a: seq<Change>, b: seq<Change>, c: Change)
    requires HeardAddsUp(a, b)
    ensures HeardAddsUp(a, b + [c])
  {
    HeardSnoc(a + b, c);
    HeardSnoc(b, c);
    Assoc(a, b, [c]);
    if Meaning(c.cmd).Some? { Assoc(Heard(a), Heard(b), [Intent(c.kind, c.id, Meaning(c.cmd).value)]); }
  }

  lemma {:induction false} HeardConcat(a: seq<Change>, b: seq<Change>)
    ensures HeardAddsUp(a, b)
  {
    if b == [] {
      assert a + b == a && Heard(a) + [] == Heard(a);
    } else {
      var k := |b| - 1;
      HeardConcat(a, b[..k]);
      HeardConcatStep(a, b[..k], b[k]);
      assert b == b[..k] + [b[k]];
    }
  }

  ghost predicate AllPrintable(intents: seq<Intent>) {
    forall i :: i in intents ==> Printable(i.cmd)
  }

  /** Printable intents are heard as they are. */
  lemma {:induction false} HeardAsMeant(intents: seq<Intent>)
    requires AllPrintable(intents)
    ensures Heard(SpellAll(intents)) == intents && AllHeard(SpellAll(intents))
  {
    if intents != [] {
      var k := |intents| - 1;
      var init, i := intents[..k], intents[k];
      assert intents == init + [i] && SpellAll(intents) == SpellAll(init) + [Spell(i)];
      HeardAsMeant(init);
      MeansItself(i.cmd);
      HeardSnoc(SpellAll(init), Spell(i));
    }
  }

  lemma {:induction false} MainsArePrintable(observed: seq<Observed>)
    requires forall i :: 0 <= i < |observed| ==> GoodDesired(observed[i].desired)
    ensures AllPrintable(MainIntents(observed))
  {
    if observed != [] {
      var k := |observed| - 1;
      MainsArePrintable(observed[..k]);
      assert forall i :: i in MainIntent(observed[k]) ==> Printable(i.cmd);
    }
  }

  lemma PruneIntentsSnoc(prunes: seq<PruneEntry>, p: PruneEntry)
    ensures PruneIntents(prunes + [p]) == PruneIntents(prunes) + [PruneIntent(p)]
  {
    assert (prunes + [p])[..|prunes|] == prunes;
  }

  /** The filters that the comments to prune on a path say. */
  ghost function SaidAt(prunes: seq<PruneEntry>, path: string): set<Selector> {
    set p | p in prunes && p.path == path && SaysSomething(p.comment) :: Said(p.comment)
  }

  /** What is heard of a list of prunes. */
  ghost predicate HeardPrunes(prunes: seq<PruneEntry>) {
    var cs := SpellAll(PruneIntents(prunes));
    && (forall i :: i in Heard(cs) ==> i.cmd.Remove?)
    && (forall path :: FiltersAt(Heard(cs), path) == SaidAt(prunes, path))
    && (AllHeard(cs) <==> forall p :: p in prunes ==> SaysSomething(p.comment))
  }

  lemma FiltersSnoc(removals: seq<Intent>, r: Intent, path: string)
    requires r.cmd.Remove?
    ensures FiltersAt(removals + [r], path) ==
            FiltersAt(removals, path) + if r.cmd.path == path then {r.cmd.sel} else {}
  {
  }

  lemma SaidSnoc(prunes: seq<PruneEntry>, p: PruneEntry, path: string)
    ensures SaidAt(prunes + [p], path) ==
            SaidAt(prunes, path) + if p.path == path && SaysSomething(p.comment) then {Said(p.comment)} else {}
  {
  }

  /** What is heard of one more prune: nothing, or a removal by the filter its comment says. */
  lemma HeardPrunesSnoc(prunes: seq<PruneEntry>, p: PruneEntry)
    requires MenuPath(p.path)
    ensures var cs, more := SpellAll(PruneIntents(prunes)), SpellAll(PruneIntents(prunes + [p]));
            && Heard(more) == (if SaysSomething(p.comment)
                               then Heard(cs) + [Intent(p.kind, p.comment, Remove(p.path, Said(p.comment)))]
                               else Heard(cs))
            && (AllHeard(more) <==> AllHeard(cs) && SaysSomething(p.comment))
  {
    var cs, c := SpellAll(PruneIntents(prunes)), Spell(PruneIntent(p));
    PruneIntentsSnoc(prunes, p);
    SpellConcat(PruneIntents(prunes), [PruneIntent(p)]);
    assert SpellAll(PruneIntents(prunes + [p])) == cs + [c];
    HeardSnoc(cs, c);
    MeaningOfRemoval(p.path, p.comment);
  }

  lemma HeardPrunesStep(prunes: seq<PruneEntry>, p: PruneEntry)
    requires HeardPrunes(prunes) && MenuPath(p.path)
    ensures HeardPrunes(prunes + [p])
  {
    var cs := SpellAll(PruneIntents(prunes));
    HeardPrunesSnoc(prunes, p);
    forall path ensures FiltersAt(Heard(SpellAll(PruneIntents(prunes + [p]))), path) == SaidAt(prunes + [p], path) {
      SaidSnoc(prunes, p, path);
      if SaysSomething(p.comment) {
        FiltersSnoc(Heard(cs), Intent(p.kind, p.comment, Remove(p.path, Said(p.comment))), path);
      }
    }
  }

  /** The prunes are heard as removals by the filters their comments say. */
  lemma {:induction false} PrunesAreHeard(prunes: seq<PruneEntry>)
    requires forall p :: p in prunes ==> MenuPath(p.path)
    ensures HeardPrunes(prunes)
  {
    if prunes != [] {
      var k := |prunes| - 1;
      assert prunes == prunes[..k] + [prunes[k]];
      PrunesAreHeard(prunes[..k]);
      HeardPrunesStep(prunes[..k], prunes[k]);
    }
  }

  lemma {:induction false} PruneMembers(prunes: seq<PruneEntry>, i: Intent)
    ensures i in PruneIntents(prunes) <==> exists p :: p in prunes && i == PruneIntent(p)
  {
    if prunes != [] {
      var k := |prunes| - 1;
      PruneMembers(prunes[..k], i);
      assert prunes == prunes[..k] + [prunes[k]];
    }
  }

  // ----- The whole plan --------------------------------------------------------------------

  /** A plan made from an observation of `m`. */
  ghost predicate PlanOf(changes: seq<Change>, desired: seq<Desired>, m: Menus) {
    exists observed, prunes :: IsPlan(changes, observed, prunes, desired, m)
  }

  ghost predicate IsPlan(
    changes: seq<Change>, observed: seq<Observed>, prunes: seq<PruneEntry>, desired: seq<Desired>, m: Menus)
  {
    && Observes(observed, desired, m) && PrunesRead(prunes, desired, m)
    && changes == SpellAll(MainIntents(observed) + PruneIntents(prunes))
  }

  /** Every comment to prune can be quoted. */
  ghost predicate UnclaimedQuotable(desired: seq<Desired>, m: Menus) {
    forall path, c :: Unclaimed(desired, m, path, c) ==> Quotable(c)
  }

  /** The removal of every comment to prune says a command. */
  ghost predicate UnclaimedSay(desired: seq<Desired>, m: Menus) {
    forall path, c :: Unclaimed(desired, m, path, c) ==> SaysSomething(c)
  }

  /** The removals that say no command are refused. */
  ghost predicate RefusesRest(os: Console, desired: seq<Desired>, m: Menus) {
    forall path, c :: Unclaimed(desired, m, path, c) && !SaysSomething(c) ==>
      Refuses(os, CommandText(Removal(path, c)))
  }

  /** A plan run on a console that obeys and refuses the removals that say no command. */
  ghost predicate Runs(os: Console, changes: seq<Change>, desired: seq<Desired>, m: Menus) {
    GoodDesireds(desired) && PlanOf(changes, desired, m) && Obeys(os) && RefusesRest(os, desired, m)
  }

  /** Such consoles exist for all plans and routers at once. */
  lemma RefusingConsoleExists() returns (os: Console)
    ensures Obeys(os)
    ensures forall desired, m :: GoodDesireds(desired) ==> RefusesRest(os, desired, m)
  {
    os := ConsoleExists((m, s) => Reply(m, ""));
    forall desired, m, path, c | GoodDesireds(desired) && Unclaimed(desired, m, path, c) && !SaysSomething(c)
      ensures Refuses(os, CommandText(Removal(path, c)))
    {
      var i := OwnedPathHasResource(desired, path);
      assert GoodDesired(desired[i]);
      UnsaidIsNotUnderstood(path, c);
      SentinelCompletes();
    }
  }

  lemma UnsaidIsNotUnderstood(path: string, c: string)
    requires MenuPath(path) && !SaysSomething(c)
    ensures !Understood(CommandScript(CommandText(Removal(path, c))))
  {
    var script := CommandScript(CommandText(Removal(path, c)));
    forall q ensures !IsQuery(q, script) {
      ScriptsDiffer(q, Removal(path, c));
    }
    forall d ensures !IsCommand(d, script) {
      if IsCommand(d, script) { SharedRemoval(path, c, d); }
    }
  }

  /** The refusal is needed: a removal that says no command may do anything on a console that obeys. */
  lemma UnsaidMayDoAnything(path: string, c: string, rest: Console) returns (os: Console)
    requires MenuPath(path) && !SaysSomething(c)
    ensures var script := CommandScript(CommandText(Removal(path, c)));
            Obeys(os) && forall m :: os(m, script) == rest(m, script)
  {
    UnsaidIsNotUnderstood(path, c);
    os := ConsoleExists(rest);
  }

  /** Where everything to prune says a command, every console that obeys will do. */
  lemma SayingNeedsNoRefusal(os: Console, desired: seq<Desired>, m: Menus)
    requires UnclaimedSay(desired, m) || UnclaimedQuotable(desired, m)
    ensures UnclaimedSay(desired, m) && RefusesRest(os, desired, m)
  {
    forall path, c | Unclaimed(desired, m, path, c) ensures SaysSomething(c) {
      if Quotable(c) { QuotableSaysItself(c); }
    }
  }

  /** The router after the plan was run. */
  ghost function After(os: Console, m: Menus, changes: seq<Change>): Menus {
    RunAll(os, m, changes).menus
  }

  lemma OwnPath(desired: seq<Desired>, i: nat)
    requires GoodDesireds(desired) && i < |desired|
    ensures Wanted(desired, desired[i].path) == {desired[i].idValue}
    ensures desired[i].path in OwnedPaths(desired) <==> desired[i].commentOwned
  {
    var d := desired[i];
    assert d in desired;
    forall e | e in desired && e.path == d.path ensures e == d {
      var j :| 0 <= j < |desired| && desired[j] == e;
    }
  }

  lemma OwnedPathHasResource(desired: seq<Desired>, path: string) returns (i: nat)
    requires path in OwnedPaths(desired)
    ensures i < |desired| && desired[i].path == path && desired[i].commentOwned
  {
    var d :| d in desired && d.commentOwned && d.path == path;
    i :| i < |desired| && desired[i] == d;
  }

  /** The filters by which a path is pruned: those said by the unclaimed comments read there. */
  ghost function Gone(desired: seq<Desired>, m: Menus, path: string): set<Selector> {
    set c | c in ReadComments(m, path) && Unclaimed(desired, m, path, c) && SaysSomething(c) :: Said(c)
  }

  lemma GoneAt(prunes: seq<PruneEntry>, desired: seq<Desired>, m: Menus, path: string)
    requires PrunesRead(prunes, desired, m)
    ensures SaidAt(prunes, path) == Gone(desired, m, path)
  {
    forall sel | sel in SaidAt(prunes, path) ensures sel in Gone(desired, m, path) {
      var p :| p in prunes && p.path == path && SaysSomething(p.comment) && Said(p.comment) == sel;
      assert Unclaimed(desired, m, p.path, p.comment);
    }
    forall sel | sel in Gone(desired, m, path) ensures sel in SaidAt(prunes, path) {
      var c :| Unclaimed(desired, m, path, c) && SaysSomething(c) && Said(c) == sel;
      assert PruneEntry(KindAt(desired, path), path, c) in prunes;
    }
  }

  lemma PrunePaths(prunes: seq<PruneEntry>, desired: seq<Desired>, m: Menus)
    requires GoodDesireds(desired) && PrunesRead(prunes, desired, m)
    ensures forall p :: p in prunes ==> MenuPath(p.path)
  {
    forall p | p in prunes ensures MenuPath(p.path) {
      assert Unclaimed(desired, m, p.path, p.comment);
      var i := OwnedPathHasResource(desired, p.path);
      assert GoodDesired(desired[i]);
    }
  }

  lemma PlannedAreGood(observed: seq<Observed>, desired: seq<Desired>, m: Menus)
    requires GoodDesireds(desired) && Observes(observed, desired, m)
    ensures forall i :: 0 <= i < |observed| ==> GoodDesired(observed[i].desired) && observed[i].desired == desired[i]
  {
    forall i | 0 <= i < |observed|
      ensures GoodDesired(observed[i].desired) && observed[i].desired == desired[i]
    {
      assert SeenAs(observed[i], desired[i], m);
    }
  }

  /** What running a plan executes: its changes, then removals by the filters that the comments to prune say.
      Comments that say none fail. */
  lemma PlanRuns(os: Console, changes: seq<Change>, observed: seq<Observed>, prunes: seq<PruneEntry>,
                 desired: seq<Desired>, m: Menus)
    requires Runs(os, changes, desired, m) && IsPlan(changes, observed, prunes, desired, m)
    ensures After(os, m, changes) == ExecAll(m, MainIntents(observed) + Heard(SpellAll(PruneIntents(prunes))))
    ensures HeardPrunes(prunes) && (RunAll(os, m, changes).failed == 0 <==> UnclaimedSay(desired, m))
  {
    var main, removals := MainIntents(observed), PruneIntents(prunes);
    PlannedAreGood(observed, desired, m);
    PrunePaths(prunes, desired, m);
    MainsArePrintable(observed);
    HeardAsMeant(main);
    PrunesAreHeard(prunes);
    SpellConcat(main, removals);
    HeardConcat(SpellAll(main), SpellAll(removals));
    forall c | c in changes && Meaning(c.cmd).None? ensures Refuses(os, c.cmd) {
      UnheardIsRefused(os, prunes, desired, m, c);
    }
    RunIsExec(os, m, changes);
    SayingAsRead(prunes, desired, m);
  }

  lemma UnheardIsRefused(os: Console, prunes: seq<PruneEntry>, desired: seq<Desired>, m: Menus, c: Change)
    requires GoodDesireds(desired) && PrunesRead(prunes, desired, m) && RefusesRest(os, desired, m)
    requires c in SpellAll(PruneIntents(prunes)) && Meaning(c.cmd).None?
    ensures Refuses(os, c.cmd)
  {
    var n :| 0 <= n < |PruneIntents(prunes)| && c == Spell(PruneIntents(prunes)[n]);
    PruneMembers(prunes, PruneIntents(prunes)[n]);
    var p :| p in prunes && PruneIntents(prunes)[n] == PruneIntent(p);
    PrunePaths(prunes, desired, m);
    MeaningOfRemoval(p.path, p.comment);
    assert Unclaimed(desired, m, p.path, p.comment);
  }

  lemma SayingAsRead(prunes: seq<PruneEntry>, desired: seq<Desired>, m: Menus)
    requires PrunesRead(prunes, desired, m)
    ensures UnclaimedSay(desired, m) <==> forall p :: p in prunes ==> SaysSomething(p.comment)
  {
    if forall p :: p in prunes ==> SaysSomething(p.comment) {
      forall path, c | Unclaimed(desired, m, path, c) ensures SaysSomething(c) {
        assert PruneEntry(KindAt(desired, path), path, c) in prunes;
      }
    }
    if UnclaimedSay(desired, m) {
      forall p | p in prunes ensures SaysSomething(p.comment) {
        assert Unclaimed(desired, m, p.path, p.comment);
      }
    }
  }

  lemma QuotableAsRead(prunes: seq<PruneEntry>, desired: seq<Desired>, m: Menus)
    requires PrunesRead(prunes, desired, m)
    ensures UnclaimedQuotable(desired, m) <==> forall p :: p in prunes ==> Quotable(p.comment)
  {
    if forall p :: p in prunes ==> Quotable(p.comment) {
      forall path, c | Unclaimed(desired, m, path, c) ensures Quotable(c) {
        assert PruneEntry(KindAt(desired, path), path, c) in prunes;
      }
    }
    if UnclaimedQuotable(desired, m) {
      forall p | p in prunes ensures Quotable(p.comment) {
        assert Unclaimed(desired, m, p.path, p.comment);
      }
    }
  }

  /** Every command does what it is meant to, whatever the router holds by then. */
  ghost predicate AsMeant(os: Console, intents: seq<Intent>) {
    forall i, m :: i in intents ==> Executes(os, m, i.cmd)
  }

  /** On every console that obeys, every command of a plan runs as meant, if and only if every comment to
      prune can be quoted. */
  lemma PlanRunsAsMeantIff(observed: seq<Observed>, prunes: seq<PruneEntry>, desired: seq<Desired>, m: Menus)
    requires GoodDesireds(desired) && Observes(observed, desired, m) && PrunesRead(prunes, desired, m)
    ensures (forall os: Console :: Obeys(os) ==> AsMeant(os, MainIntents(observed) + PruneIntents(prunes))) <==>
            UnclaimedQuotable(desired, m)
  {
    var main, removals := MainIntents(observed), PruneIntents(prunes);
    PrunePaths(prunes, desired, m);
    QuotableAsRead(prunes, desired, m);
    if UnclaimedQuotable(desired, m) {
      PlannedAreGood(observed, desired, m);
      MainsArePrintable(observed);
      CommentIsWord();
      forall i | i in removals ensures Printable(i.cmd) {
        PruneMembers(prunes, i);
      }
      assert AllPrintable(main + removals);
    } else {
      var p :| p in prunes && !Quotable(p.comment);
      PruneMembers(prunes, PruneIntent(p));
      assert PruneIntent(p) in main + removals;
      var os, at := UnquotableMisruns(p.path, p.comment);
      assert !Executes(os, at, PruneIntent(p).cmd);
    }
  }

  /** The items of any path after running a plan. */
  lemma PathAfter(os: Console, changes: seq<Change>, observed: seq<Observed>, prunes: seq<PruneEntry>,
                  desired: seq<Desired>, m: Menus, path: string)
    requires Runs(os, changes, desired, m) && IsPlan(changes, observed, prunes, desired, m)
    ensures ItemsAt(After(os, m, changes), path) ==
            Kept(ExecPath(ItemsAt(m, path), MainIntents(observed), path), Gone(desired, m, path))
  {
    PlanRuns(os, changes, observed, prunes, desired, m);
    var main, removals := MainIntents(observed), Heard(SpellAll(PruneIntents(prunes)));
    ExecAllByPath(m, main + removals, path);
    ExecPathConcat(ItemsAt(m, path), main, removals, path);
    RemovalsKeep(ExecPath(ItemsAt(m, path), main, path), removals, path);
    GoneAt(prunes, desired, m, path);
  }

  /** The items of a desired resource's path after running a plan. */
  lemma PlanAt(os: Console, changes: seq<Change>, desired: seq<Desired>, m: Menus, i: nat)
    requires Runs(os, changes, desired, m) && i < |desired|
    ensures ItemsAt(After(os, m, changes), desired[i].path) ==
            AfterPlan(desired[i], ItemsAt(m, desired[i].path), Gone(desired, m, desired[i].path))
  {
    var observed: seq<Observed>, prunes: seq<PruneEntry> :| IsPlan(changes, observed, prunes, desired, m);
    PathAfter(os, changes, observed, prunes, desired, m, desired[i].path);
    PlannedAreGood(observed, desired, m);
    assert SeenAs(observed[i], desired[i], m);
    MainAt(ItemsAt(m, desired[i].path), observed, i);
  }

  // ----- What one pass achieves, whatever the values on the router -------------------------------

  /** Every resource is as desired, whatever is read of it. */
  ghost predicate TrulyConverged(desired: seq<Desired>, m: Menus) {
    forall i :: 0 <= i < |desired| ==> StatusIn(desired[i], ItemsAt(m, desired[i].path)).Converged?
  }

  /** Of every resource the removals leave exactly one instance, and that one is as desired. */
  ghost predicate AllFixed(desired: seq<Desired>, m: Menus) {
    forall i :: 0 <= i < |desired| ==>
      FixedBy(desired[i], ItemsAt(m, desired[i].path), Gone(desired, m, desired[i].path))
  }

  ghost predicate NothingToPrune(desired: seq<Desired>, m: Menus) {
    forall path, it :: it in ItemsAt(m, path) ==> !Leftover(desired, path, it)
  }

  /** Every leftover is taken by the filter that some comment read says. */
  ghost predicate LeftoversTaken(desired: seq<Desired>, m: Menus) {
    forall path, it :: it in ItemsAt(m, path) && Leftover(desired, path, it) ==> Taken(it, Gone(desired, m, path))
  }

  ghost predicate OffEveryPath(desired: seq<Desired>, path: string) {
    forall i :: 0 <= i < |desired| ==> desired[i].path != path
  }

  /** Configuration the tool does not own survives: untouched paths entirely, and on its own paths every
      foreign item, in order. */
  ghost predicate LeavesOthers(desired: seq<Desired>, before: Menus, after: Menus) {
    && (forall path :: OffEveryPath(desired, path) ==> ItemsAt(after, path) == ItemsAt(before, path))
    && (forall i :: 0 <= i < |desired| ==>
          Foreigners(desired[i], ItemsAt(after, desired[i].path)) ==
          Foreigners(desired[i], ItemsAt(before, desired[i].path)))
  }

  /** No foreign item is taken by the filter that some comment read says. */
  ghost predicate NoForeignTaken(desired: seq<Desired>, m: Menus) {
    forall i, it ::
      0 <= i < |desired| && it in ItemsAt(m, desired[i].path) && Foreign(desired[i], it) ==>
        !Taken(it, Gone(desired, m, desired[i].path))
  }

  /** One pass makes every resource as desired if and only if the removals leave it one instance that is. */
  lemma OnePassFixesIff(os: Console, changes: seq<Change>, desired: seq<Desired>, m: Menus)
    requires Runs(os, changes, desired, m)
    ensures TrulyConverged(desired, After(os, m, changes)) <==> AllFixed(desired, m)
  {
    var after := After(os, m, changes);
    forall i | 0 <= i < |desired|
      ensures StatusIn(desired[i], ItemsAt(after, desired[i].path)).Converged? <==>
              FixedBy(desired[i], ItemsAt(m, desired[i].path), Gone(desired, m, desired[i].path))
    {
      PlanAt(os, changes, desired, m, i);
      AfterPlanStatus(desired[i], ItemsAt(m, desired[i].path), Gone(desired, m, desired[i].path));
    }
  }

  /** A leftover is there after one pass exactly when it was before and no comment read takes it. */
  lemma LeftoverAfter(os: Console, changes: seq<Change>, desired: seq<Desired>, m: Menus, path: string, it: Item)
    requires Runs(os, changes, desired, m) && Leftover(desired, path, it)
    ensures it in ItemsAt(After(os, m, changes), path) <==>
            it in ItemsAt(m, path) && !Taken(it, Gone(desired, m, path))
  {
    var i := OwnedPathHasResource(desired, path);
    OwnPath(desired, i);
    PlanAt(os, changes, desired, m, i);
    assert GoodDesired(desired[i]);
    OthersAfterPlan(desired[i], ItemsAt(m, path), Gone(desired, m, path), it);
  }

  /** One pass leaves no leftover if and only if the comments read take each. */
  lemma OnePassPrunesIff(os: Console, changes: seq<Change>, desired: seq<Desired>, m: Menus)
    requires Runs(os, changes, desired, m)
    ensures NothingToPrune(desired, After(os, m, changes)) <==> LeftoversTaken(desired, m)
  {
    forall path, it | Leftover(desired, path, it)
      ensures it in ItemsAt(After(os, m, changes), path) <==>
              it in ItemsAt(m, path) && !Taken(it, Gone(desired, m, path))
    {
      LeftoverAfter(os, changes, desired, m, path, it);
    }
  }

  lemma ElsewhereUntouched(os: Console, changes: seq<Change>, desired: seq<Desired>, m: Menus, path: string)
    requires Runs(os, changes, desired, m) && OffEveryPath(desired, path)
    ensures ItemsAt(After(os, m, changes), path) == ItemsAt(m, path)
  {
    var observed: seq<Observed>, prunes: seq<PruneEntry> :| IsPlan(changes, observed, prunes, desired, m);
    PathAfter(os, changes, observed, prunes, desired, m, path);
    PlannedAreGood(observed, desired, m);
    MainElsewhere(ItemsAt(m, path), observed, path);
    if path in OwnedPaths(desired) { var i := OwnedPathHasResource(desired, path); }
    KeptUntaken(ItemsAt(m, path), Gone(desired, m, path));
  }

  /** One pass leaves other configuration alone if and only if no comment read takes a foreign item. */
  lemma OnePassSparesIff(os: Console, changes: seq<Change>, desired: seq<Desired>, m: Menus)
    requires Runs(os, changes, desired, m)
    ensures LeavesOthers(desired, m, After(os, m, changes)) <==> NoForeignTaken(desired, m)
  {
    var after := After(os, m, changes);
    forall path | OffEveryPath(desired, path) ensures ItemsAt(after, path) == ItemsAt(m, path) {
      ElsewhereUntouched(os, changes, desired, m, path);
    }
    forall i | 0 <= i < |desired|
      ensures Foreigners(desired[i], ItemsAt(after, desired[i].path)) ==
              Foreigners(desired[i], ItemsAt(m, desired[i].path)) <==>
              forall it :: it in ItemsAt(m, desired[i].path) && Foreign(desired[i], it) ==>
                !Taken(it, Gone(desired, m, desired[i].path))
    {
      PlanAt(os, changes, desired, m, i);
      ForeignersUntouchedIff(desired[i], ItemsAt(m, desired[i].path), Gone(desired, m, desired[i].path));
    }
  }

  /** One pass reports no failed command if and only if the removal of every comment to prune says one. */
  lemma OnePassFailsNoneIff(os: Console, changes: seq<Change>, desired: seq<Desired>, m: Menus)
    requires Runs(os, changes, desired, m)
    ensures RunAll(os, m, changes).failed == 0 <==> UnclaimedSay(desired, m)
  {
    var observed: seq<Observed>, prunes: seq<PruneEntry> :| IsPlan(changes, observed, prunes, desired, m);
    PlanRuns(os, changes, observed, prunes, desired, m);
  }

  // ----- Quotable comments --------------------------------------------------------------------

  /** A quotable comment takes exactly the items that carry it. */
  lemma QuotableTakes(desired: seq<Desired>, m: Menus, path: string, it: Item)
    requires UnclaimedQuotable(desired, m)
    ensures Taken(it, Gone(desired, m, path)) <==> Unclaimed(desired, m, path, Prop(it, "comment"))
  {
    if sel :| sel in Gone(desired, m, path) && Matches(it, sel) {
      var c :| Unclaimed(desired, m, path, c) && SaysSomething(c) && Said(c) == sel;
      QuotableSaysItself(c);
    }
    var c := Prop(it, "comment");
    if Unclaimed(desired, m, path, c) {
      QuotableSaysItself(c);
      assert Equals("comment", c) in Gone(desired, m, path);
    }
  }

  /** Every tagged comment on the owned paths can be quoted. */
  ghost predicate TagsQuotable(desired: seq<Desired>, m: Menus) {
    forall path, it :: path in OwnedPaths(desired) && it in ItemsAt(m, path) && OWN_PREFIX <= Prop(it, "comment") ==>
      Quotable(Prop(it, "comment"))
  }

  lemma QuotableIsReadQuotable(it: Item, rec: Record)
    requires Quotable(Prop(it, "comment")) && rec in ItemRecords(["comment"], it) && "comment" in rec
    ensures Quotable(rec["comment"])
  {
    CommentIsWord();
    forall c | c == QUOTE || c == BACKSLASH || c == '$' ensures c !in rec["comment"] {
      WordsHaveNo("comment", c);
      PrintedChars(["comment"], it, c);
      ItemValueChars(["comment"], it, rec, "comment", c);
    }
  }

  /** Then so can every comment that is read, whether or not it is read as it stands. */
  lemma QuotableTagsSuffice(desired: seq<Desired>, m: Menus)
    requires TagsQuotable(desired, m)
    ensures UnclaimedQuotable(desired, m)
  {
    forall path, c | Unclaimed(desired, m, path, c) ensures Quotable(c) {
      var found := Find(ItemsAt(m, path), OWNED_FILTER);
      var rec :| rec in ReadBack(["comment"], found) && "comment" in rec && rec["comment"] == c;
      var it := RecordHasItem(["comment"], found, rec);
      FindMembers(ItemsAt(m, path), OWNED_FILTER, it);
      QuotableIsReadQuotable(it, rec);
    }
  }

  ghost predicate AllFixable(desired: seq<Desired>, m: Menus) {
    forall i :: 0 <= i < |desired| ==> Fixable(desired[i], ItemsAt(m, desired[i].path))
  }

  lemma QuotableSparesInstances(desired: seq<Desired>, m: Menus, i: nat)
    requires GoodDesireds(desired) && UnclaimedQuotable(desired, m) && i < |desired|
    ensures FixedBy(desired[i], ItemsAt(m, desired[i].path), Gone(desired, m, desired[i].path)) <==>
            Fixable(desired[i], ItemsAt(m, desired[i].path))
  {
    var d, items := desired[i], ItemsAt(m, desired[i].path);
    OwnPath(desired, i);
    assert GoodDesired(d);
    forall it | it in Instances(d, items) ensures !Taken(it, Gone(desired, m, d.path)) {
      InstancesMatch(d, items, it);
      QuotableTakes(desired, m, d.path, it);
    }
    SparedIsFixedIff(d, items, Gone(desired, m, d.path));
  }

  /** The comment of every leftover is read. */
  ghost predicate LeftoversRead(desired: seq<Desired>, m: Menus) {
    forall path, it :: it in ItemsAt(m, path) && Leftover(desired, path, it) ==>
      Prop(it, "comment") in ReadComments(m, path)
  }

  /** No prune scan reads the comment of a foreign item as unclaimed. */
  ghost predicate NoForeignRead(desired: seq<Desired>, m: Menus) {
    forall i, it ::
      0 <= i < |desired| && it in ItemsAt(m, desired[i].path) && Foreign(desired[i], it) ==>
        !Unclaimed(desired, m, desired[i].path, Prop(it, "comment"))
  }

  lemma QuotableFixesIff(desired: seq<Desired>, m: Menus)
    requires GoodDesireds(desired) && UnclaimedQuotable(desired, m)
    ensures AllFixed(desired, m) <==> AllFixable(desired, m)
  {
    forall i | 0 <= i < |desired|
      ensures FixedBy(desired[i], ItemsAt(m, desired[i].path), Gone(desired, m, desired[i].path)) <==>
              Fixable(desired[i], ItemsAt(m, desired[i].path))
    {
      QuotableSparesInstances(desired, m, i);
    }
  }

  lemma QuotablePrunesIff(desired: seq<Desired>, m: Menus)
    requires UnclaimedQuotable(desired, m)
    ensures LeftoversTaken(desired, m) <==> LeftoversRead(desired, m)
  {
    forall path, it | Leftover(desired, path, it)
      ensures Taken(it, Gone(desired, m, path)) <==> Prop(it, "comment") in ReadComments(m, path)
    {
      QuotableTakes(desired, m, path, it);
    }
  }

  lemma QuotableSparesIff(desired: seq<Desired>, m: Menus)
    requires UnclaimedQuotable(desired, m)
    ensures NoForeignTaken(desired, m) <==> NoForeignRead(desired, m)
  {
    forall i, it | 0 <= i < |desired|
      ensures Taken(it, Gone(desired, m, desired[i].path)) <==>
              Unclaimed(desired, m, desired[i].path, Prop(it, "comment"))
    {
      QuotableTakes(desired, m, desired[i].path, it);
    }
  }

  /** Whatever else is on the router: where the comments to prune can be quoted, what the removals take is what
      they name. */
  lemma QuotablePassIff(os: Console, changes: seq<Change>, desired: seq<Desired>, m: Menus)
    requires GoodDesireds(desired) && PlanOf(changes, desired, m) && Obeys(os) && UnclaimedQuotable(desired, m)
    ensures var after := After(os, m, changes);
            && (TrulyConverged(desired, after) <==> AllFixable(desired, m))
            && (NothingToPrune(desired, after) <==> LeftoversRead(desired, m))
            && (LeavesOthers(desired, m, after) <==> NoForeignRead(desired, m))
            && RunAll(os, m, changes).failed == 0
  {
    SayingNeedsNoRefusal(os, desired, m);
    OnePassFixesIff(os, changes, desired, m);
    OnePassPrunesIff(os, changes, desired, m);
    OnePassSparesIff(os, changes, desired, m);
    OnePassFailsNoneIff(os, changes, desired, m);
    QuotableFixesIff(desired, m);
    QuotablePrunesIff(desired, m);
    QuotableSparesIff(desired, m);
  }

  // ----- Routers whose values can be read ----------------------------------------------------------

  ghost predicate NoConflict(desired: seq<Desired>, m: Menus) {
    forall i :: 0 <= i < |desired| ==> !StatusOf(desired[i], m).Conflict?
  }

  /** Every resource is read as converged. */
  ghost predicate AllConverged(desired: seq<Desired>, m: Menus) {
    forall i :: 0 <= i < |desired| ==> StatusOf(desired[i], m).Converged?
  }

  /** No prune scan reads an unclaimed comment. */
  ghost predicate NothingUnclaimed(desired: seq<Desired>, m: Menus) {
    forall path, c :: !Unclaimed(desired, m, path, c)
  }

  ghost predicate ReadableItems(d: Desired, items: seq<Item>) {
    && (forall it :: it in Find(items, Identity(d)) ==> Readable(Keys(d.fields), it))
    && (d.commentOwned ==> forall it :: it in items && OWN_PREFIX <= Prop(it, "comment") ==> Readable(["comment"], it))
  }

  /** The values the tool queries print and parse back unchanged. */
  ghost predicate ReadableRouter(desired: seq<Desired>, m: Menus) {
    forall i :: 0 <= i < |desired| ==> ReadableItems(desired[i], ItemsAt(m, desired[i].path))
  }

  /** So do the values the tool writes. */
  ghost predicate WritesReadable(d: Desired) {
    Readable(Keys(d.fields), NewItem(d)) && (d.commentOwned ==> Readable(["comment"], NewItem(d)))
  }

  lemma CleanKeys(d: Desired)
    requires GoodDesired(d)
    ensures forall f :: f in Keys(d.fields) ==> CleanField(f)
  {
  }

  lemma ReadableStatus(d: Desired, items: seq<Item>)
    requires GoodDesired(d) && ReadableItems(d, items)
    ensures ReadIn(d, items) == StatusIn(d, items)
  {
    CleanKeys(d);
    ReadableReadBack(Keys(d.fields), Find(items, Identity(d)));
  }

  lemma {:induction false} RecordsMembers(fields: seq<string>, items: seq<Item>, rec: Record)
    ensures rec in Records(fields, items) <==> exists it :: it in items && rec == RecordOf(fields, it)
  {
    if items != [] {
      RecordsMembers(fields, items[1..], rec);
      assert items == [items[0]] + items[1..];
    }
  }

  lemma CommentRecord(it: Item)
    ensures var r := RecordOf(["comment"], it); "comment" in r && r["comment"] == Prop(it, "comment")
  {
    assert "comment" in ["comment"];
  }

  /** Where comments are readable, the prune scan reads exactly the tagged ones. */
  lemma ReadableComments(m: Menus, path: string, c: string)
    requires forall it :: it in ItemsAt(m, path) && OWN_PREFIX <= Prop(it, "comment") ==> Readable(["comment"], it)
    ensures c in ReadComments(m, path) <==>
            OWN_PREFIX <= c && exists it :: it in ItemsAt(m, path) && Prop(it, "comment") == c
  {
    var items, fields := ItemsAt(m, path), ["comment"];
    var found := Find(items, OWNED_FILTER);
    forall it ensures it in found <==> it in items && OWN_PREFIX <= Prop(it, "comment") {
      FindMembers(items, OWNED_FILTER, it);
    }
    assert CleanField("comment");
    ReadableReadBack(fields, found);
    if c in ReadComments(m, path) {
      var rec :| rec in ReadBack(fields, found) && "comment" in rec && rec["comment"] == c;
      RecordsMembers(fields, found, rec);
      var it :| it in found && rec == RecordOf(fields, it);
      CommentRecord(it);
    }
    if it :| OWN_PREFIX <= c && it in items && Prop(it, "comment") == c {
      CommentRecord(it);
      RecordsMembers(fields, found, RecordOf(fields, it));
    }
  }

  lemma ReadableRouterReads(desired: seq<Desired>, m: Menus)
    requires GoodDesireds(desired) && ReadableRouter(desired, m)
    ensures AllFixable(desired, m) <==> NoConflict(desired, m)
    ensures AllConverged(desired, m) <==> TrulyConverged(desired, m)
  {
    forall i | 0 <= i < |desired|
      ensures StatusOf(desired[i], m) == StatusIn(desired[i], ItemsAt(m, desired[i].path))
      ensures Fixable(desired[i], ItemsAt(m, desired[i].path)) <==> !StatusOf(desired[i], m).Conflict?
    {
      ReadableStatus(desired[i], ItemsAt(m, desired[i].path));
      StatusMeans(desired[i], ItemsAt(m, desired[i].path));
    }
  }

  /** The comment of every leftover can be quoted. */
  ghost predicate LeftoversQuotable(desired: seq<Desired>, m: Menus) {
    forall path, it :: it in ItemsAt(m, path) && Leftover(desired, path, it) ==> Quotable(Prop(it, "comment"))
  }

  /** The removal of every leftover's comment says a command. */
  ghost predicate LeftoversSay(desired: seq<Desired>, m: Menus) {
    forall path, it :: it in ItemsAt(m, path) && Leftover(desired, path, it) ==> SaysSomething(Prop(it, "comment"))
  }

  /** On a readable router the prune scans read exactly the leftovers' comments. */
  lemma ReadableRouterScans(desired: seq<Desired>, m: Menus)
    requires GoodDesireds(desired) && ReadableRouter(desired, m)
    ensures UnclaimedQuotable(desired, m) <==> LeftoversQuotable(desired, m)
    ensures UnclaimedSay(desired, m) <==> LeftoversSay(desired, m)
    ensures NothingUnclaimed(desired, m) <==> NothingToPrune(desired, m)
  {
    LeftoversAreUnclaimed(desired, m);
    UnclaimedAreLeftovers(desired, m);
  }

  lemma LeftoversAreUnclaimed(desired: seq<Desired>, m: Menus)
    requires GoodDesireds(desired) && ReadableRouter(desired, m)
    ensures UnclaimedQuotable(desired, m) ==> LeftoversQuotable(desired, m)
    ensures UnclaimedSay(desired, m) ==> LeftoversSay(desired, m)
    ensures NothingUnclaimed(desired, m) ==> NothingToPrune(desired, m)
  {
    forall path, it | it in ItemsAt(m, path) && Leftover(desired, path, it)
      ensures Unclaimed(desired, m, path, Prop(it, "comment"))
    {
      UnclaimedIsLeftover(desired, m, path, Prop(it, "comment"));
    }
  }

  lemma UnclaimedAreLeftovers(desired: seq<Desired>, m: Menus)
    requires GoodDesireds(desired) && ReadableRouter(desired, m)
    ensures LeftoversQuotable(desired, m) ==> UnclaimedQuotable(desired, m)
    ensures LeftoversSay(desired, m) ==> UnclaimedSay(desired, m)
    ensures NothingToPrune(desired, m) ==> NothingUnclaimed(desired, m)
  {
    forall path, c | Unclaimed(desired, m, path, c)
      ensures exists it :: it in ItemsAt(m, path) && Leftover(desired, path, it) && Prop(it, "comment") == c
    {
      UnclaimedIsLeftover(desired, m, path, c);
    }
  }

  /** Where comments are readable, the unclaimed ones are those of the leftovers. */
  lemma UnclaimedIsLeftover(desired: seq<Desired>, m: Menus, path: string, c: string)
    requires GoodDesireds(desired) && ReadableRouter(desired, m)
    ensures Unclaimed(desired, m, path, c) <==>
            exists it :: it in ItemsAt(m, path) && Leftover(desired, path, it) && Prop(it, "comment") == c
  {
    if path in OwnedPaths(desired) {
      var i := OwnedPathHasResource(desired, path);
      assert ReadableItems(desired[i], ItemsAt(m, path));
      ReadableComments(m, path, c);
    }
  }

  /** On a readable router with quotable leftovers nothing but the leftovers is taken, and they all are. */
  lemma QuotableLeftovers(desired: seq<Desired>, m: Menus)
    requires GoodDesireds(desired) && ReadableRouter(desired, m) && LeftoversQuotable(desired, m)
    ensures LeftoversTaken(desired, m) && LeftoversSay(desired, m) && NoForeignTaken(desired, m)
    ensures AllFixed(desired, m) <==> NoConflict(desired, m)
  {
    ReadableRouterScans(desired, m);
    ReadableRouterReads(desired, m);
    forall path, it | it in ItemsAt(m, path) && Leftover(desired, path, it)
      ensures Taken(it, Gone(desired, m, path)) && SaysSomething(Prop(it, "comment"))
    {
      UnclaimedIsLeftover(desired, m, path, Prop(it, "comment"));
      QuotableTakes(desired, m, path, it);
      QuotableSaysItself(Prop(it, "comment"));
    }
    forall i, it | 0 <= i < |desired| && it in ItemsAt(m, desired[i].path) && Foreign(desired[i], it)
      ensures !Taken(it, Gone(desired, m, desired[i].path))
    {
      OwnPath(desired, i);
      QuotableTakes(desired, m, desired[i].path, it);
      UnclaimedIsLeftover(desired, m, desired[i].path, Prop(it, "comment"));
    }
    QuotableFixesIff(desired, m);
  }

  // ----- The tool keeps its own configuration readable ----------------------------------------

  lemma ReadableSame(fields: seq<string>, a: Item, b: Item)
    requires Readable(fields, a) && forall f :: f in fields ==> Prop(a, f) == Prop(b, f)
    ensures Readable(fields, b)
  {
    assert Pairs(fields, a) == Pairs(fields, b);
  }

  lemma CarriersRead(d: Desired, it: Item)
    requires GoodDesired(d) && WritesReadable(d) && Carries(d, it)
    ensures Readable(Keys(d.fields), it)
  {
    CarriesAfterSet(d, map[d.idKey := d.idValue]);
    forall f | f in Keys(d.fields) ensures Prop(NewItem(d), f) == Prop(it, f) {
      var j :| 0 <= j < |d.fields| && d.fields[j].0 == f;
    }
    ReadableSame(Keys(d.fields), NewItem(d), it);
  }

  lemma MendedIsReadable(d: Desired, items: seq<Item>, s: Status)
    requires GoodDesired(d) && WritesReadable(d) && ReadableItems(d, items)
    requires s.Missing? ==> Find(items, Identity(d)) == []
    ensures forall it :: it in Find(Mended(items, Observed(d, s)), Identity(d)) ==> Readable(Keys(d.fields), it)
  {
    if s.Missing? {
      WithFieldsOthers(map[d.idKey := d.idValue], d.fields, d.idKey);
      FindAppend(items, NewItem(d), Identity(d));
    } else if s.Drifted? {
      SetIsReadable(d, items);
    }
  }

  lemma SetIsReadable(d: Desired, items: seq<Item>)
    requires GoodDesired(d) && WritesReadable(d)
    ensures forall it :: it in Find(SetWhere(items, Identity(d), d.fields), Identity(d)) ==>
              Readable(Keys(d.fields), it)
  {
    FindAfterSet(d, items);
    var before, after := Find(items, Identity(d)), Find(SetWhere(items, Identity(d), d.fields), Identity(d));
    forall it | it in after ensures Readable(Keys(d.fields), it) {
      var j :| 0 <= j < |after| && after[j] == it;
      CarriesAfterSet(d, before[j]);
      CarriersRead(d, it);
    }
  }

  lemma AfterPlanIsReadable(d: Desired, items: seq<Item>, gone: set<Selector>)
    requires GoodDesired(d) && WritesReadable(d) && ReadableItems(d, items)
    ensures ReadableItems(d, AfterPlan(d, items, gone))
  {
    var mended := Mended(items, Observed(d, ReadIn(d, items)));
    ReadMissing(d, items);
    MendedIsReadable(d, items, ReadIn(d, items));
    FindInKept(mended, gone, Identity(d));
    forall it | it in Find(AfterPlan(d, items, gone), Identity(d)) ensures Readable(Keys(d.fields), it) {
      KeptMembers(Find(mended, Identity(d)), gone, it);
    }
    if d.commentOwned {
      forall it | it in AfterPlan(d, items, gone) && OWN_PREFIX <= Prop(it, "comment")
        ensures Readable(["comment"], it)
      {
        if Prop(it, "comment") == d.idValue {
          WithFieldsOthers(map[d.idKey := d.idValue], d.fields, d.idKey);
          ReadableSame(["comment"], NewItem(d), it);
        } else {
          OthersAfterPlan(d, items, gone, it);
        }
      }
    }
  }

  ghost predicate AllWriteReadable(desired: seq<Desired>) {
    forall i :: 0 <= i < |desired| ==> WritesReadable(desired[i])
  }

  lemma PlanKeepsReadable(os: Console, changes: seq<Change>, desired: seq<Desired>, m: Menus)
    requires AllWriteReadable(desired) && ReadableRouter(desired, m) && Runs(os, changes, desired, m)
    ensures ReadableRouter(desired, After(os, m, changes))
  {
    forall i | 0 <= i < |desired| ensures ReadableItems(desired[i], ItemsAt(After(os, m, changes), desired[i].path)) {
      PlanAt(os, changes, desired, m, i);
      AfterPlanIsReadable(desired[i], ItemsAt(m, desired[i].path), Gone(desired, m, desired[i].path));
    }
  }

  /** One pass on a readable router: everything is as desired, and read as such, exactly when the removals leave
      each resource one instance that is; no leftover stays exactly when the leftovers' comments take each; no
      command fails exactly when each of them says one; other configuration is untouched exactly when they
      take none of it; and the router stays readable. */
  lemma OnePassConverges(os: Console, changes: seq<Change>, desired: seq<Desired>, m: Menus)
    requires AllWriteReadable(desired) && ReadableRouter(desired, m) && Runs(os, changes, desired, m)
    ensures var after := After(os, m, changes);
            && (TrulyConverged(desired, after) <==> AllFixed(desired, m))
            && (AllConverged(desired, after) <==> AllFixed(desired, m))
            && (NothingToPrune(desired, after) <==> LeftoversTaken(desired, m))
            && (NothingUnclaimed(desired, after) <==> LeftoversTaken(desired, m))
            && (RunAll(os, m, changes).failed == 0 <==> LeftoversSay(desired, m))
            && (LeavesOthers(desired, m, after) <==> NoForeignTaken(desired, m))
            && ReadableRouter(desired, after)
  {
    ReadableRouterScans(desired, m);
    OnePassFixesIff(os, changes, desired, m);
    OnePassPrunesIff(os, changes, desired, m);
    OnePassSparesIff(os, changes, desired, m);
    OnePassFailsNoneIff(os, changes, desired, m);
    PlanKeepsReadable(os, changes, desired, m);
    ReadableRouterReads(desired, After(os, m, changes));
    ReadableRouterScans(desired, After(os, m, changes));
  }

  /** One pass suffices, on every console that obeys, where the leftovers' comments can be quoted: everything is
      as desired exactly when nothing was ambiguous, no leftover stays, no command fails, and other
      configuration is untouched. */
  lemma OnePassSuffices(os: Console, changes: seq<Change>, desired: seq<Desired>, m: Menus)
    requires GoodDesireds(desired) && AllWriteReadable(desired) && PlanOf(changes, desired, m) && Obeys(os)
    requires ReadableRouter(desired, m) && LeftoversQuotable(desired, m)
    ensures var after := After(os, m, changes);
            && (TrulyConverged(desired, after) <==> NoConflict(desired, m))
            && (AllConverged(desired, after) <==> NoConflict(desired, m))
            && NothingToPrune(desired, after) && NothingUnclaimed(desired, after)
            && RunAll(os, m, changes).failed == 0
            && LeavesOthers(desired, m, after) && ReadableRouter(desired, after)
  {
    ReadableRouterScans(desired, m);
    SayingNeedsNoRefusal(os, desired, m);
    QuotableLeftovers(desired, m);
    OnePassConverges(os, changes, desired, m);
  }

  // ----- Empty plans -----------------------------------------------------------------------

  /** Nothing the tool would change: every resource is read as converged or ambiguous, and nothing unclaimed
      is read. */
  ghost predicate Settled(desired: seq<Desired>, m: Menus) {
    && (forall i :: 0 <= i < |desired| ==> StatusOf(desired[i], m).Converged? || StatusOf(desired[i], m).Conflict?)
    && NothingUnclaimed(desired, m)
  }

  lemma {:induction false} NoMainIntentsIff(observed: seq<Observed>)
    ensures MainIntents(observed) == [] <==>
            forall i :: 0 <= i < |observed| ==> observed[i].status.Converged? || observed[i].status.Conflict?
  {
    if observed != [] {
      var k := |observed| - 1;
      NoMainIntentsIff(observed[..k]);
      assert forall i :: 0 <= i < k ==> observed[..k][i] == observed[i];
    }
  }

  lemma ConvergedAsSeen(observed: seq<Observed>, desired: seq<Desired>, m: Menus)
    requires Observes(observed, desired, m)
    ensures AllConverged(desired, m) <==> forall i :: 0 <= i < |observed| ==> observed[i].status == Converged
  {
    assert forall i :: 0 <= i < |desired| ==> SeenAs(observed[i], desired[i], m);
  }

  lemma SomeMember<T>(s: seq<T>)
    ensures s == [] || exists x :: x in s
  {
    if s != [] { assert s[0] in s; }
  }

  lemma PrunesEmptyIff(prunes: seq<PruneEntry>, desired: seq<Desired>, m: Menus)
    requires PrunesRead(prunes, desired, m)
    ensures prunes == [] <==> NothingUnclaimed(desired, m)
  {
    SomeMember(prunes);
    forall p | p in prunes ensures Unclaimed(desired, m, p.path, p.comment) {
    }
  }

  /** The plan is empty exactly when the router is settled, ambiguous resources and all. */
  lemma PlanEmptyIff(changes: seq<Change>, desired: seq<Desired>, m: Menus)
    requires PlanOf(changes, desired, m)
    ensures changes == [] <==> Settled(desired, m)
  {
    var observed: seq<Observed>, prunes: seq<PruneEntry> :| IsPlan(changes, observed, prunes, desired, m);
    NoMainIntentsIff(observed);
    PrunesEmptyIff(prunes, desired, m);
    assert PruneIntents(prunes) == [] <==> prunes == [];
    assert forall i :: 0 <= i < |desired| ==> SeenAs(observed[i], desired[i], m);
  }

  /** The removals leave instances, and if only one, one that is as desired. */
  ghost predicate LeftAlone(d: Desired, items: seq<Item>, gone: set<Selector>) {
    var left := Kept(Instances(d, items), gone);
    left != [] && (|left| == 1 ==> Carries(d, left[0]))
  }

  ghost predicate AllLeftAlone(desired: seq<Desired>, m: Menus) {
    forall i :: 0 <= i < |desired| ==>
      LeftAlone(desired[i], ItemsAt(m, desired[i].path), Gone(desired, m, desired[i].path))
  }

  lemma SettledStatusIff(os: Console, changes: seq<Change>, desired: seq<Desired>, m: Menus, i: nat)
    requires AllWriteReadable(desired) && ReadableRouter(desired, m) && Runs(os, changes, desired, m) && i < |desired|
    ensures var s := StatusOf(desired[i], After(os, m, changes));
            s.Converged? || s.Conflict? <==>
            LeftAlone(desired[i], ItemsAt(m, desired[i].path), Gone(desired, m, desired[i].path))
  {
    var d, items, gone := desired[i], ItemsAt(m, desired[i].path), Gone(desired, m, desired[i].path);
    PlanAt(os, changes, desired, m, i);
    PlanKeepsReadable(os, changes, desired, m);
    assert GoodDesired(d) && ReadableItems(d, AfterPlan(d, items, gone));
    ReadableStatus(d, AfterPlan(d, items, gone));
    StatusMeans(d, AfterPlan(d, items, gone));
    FoundAfterPlan(d, items, gone);
  }

  /** A second plan has nothing to do if and only if the first took every leftover and left each resource either
      ambiguous or as desired. */
  lemma SecondPlanIsEmptyIff(
    os: Console, changes: seq<Change>, second: seq<Change>, desired: seq<Desired>, m: Menus)
    requires AllWriteReadable(desired) && ReadableRouter(desired, m) && Runs(os, changes, desired, m)
    requires PlanOf(second, desired, After(os, m, changes))
    ensures second == [] <==> LeftoversTaken(desired, m) && AllLeftAlone(desired, m)
  {
    OnePassConverges(os, changes, desired, m);
    PlanEmptyIff(second, desired, After(os, m, changes));
    forall i | 0 <= i < |desired|
      ensures var s := StatusOf(desired[i], After(os, m, changes));
              s.Converged? || s.Conflict? <==>
              LeftAlone(desired[i], ItemsAt(m, desired[i].path), Gone(desired, m, desired[i].path))
    {
      SettledStatusIff(os, changes, desired, m, i);
    }
  }

  lemma QuotableLeavesAlone(desired: seq<Desired>, m: Menus, i: nat)
    requires GoodDesireds(desired) && ReadableRouter(desired, m) && UnclaimedQuotable(desired, m) && i < |desired|
    ensures LeftAlone(desired[i], ItemsAt(m, desired[i].path), Gone(desired, m, desired[i].path))
  {
    var d, items, gone := desired[i], ItemsAt(m, desired[i].path), Gone(desired, m, desired[i].path);
    OwnPath(desired, i);
    assert GoodDesired(d) && ReadableItems(d, items);
    forall it | it in Instances(d, items) ensures !Taken(it, gone) {
      InstancesMatch(d, items, it);
      QuotableTakes(desired, m, d.path, it);
    }
    KeptUntaken(Instances(d, items), gone);
    ReadableStatus(d, items);
    StatusMeans(d, items);
    if |Instances(d, items)| == 1 {
      SparedIsFixedIff(d, items, gone);
    }
  }

  /** Where the leftovers' comments can be quoted, a second plan has nothing to do, ambiguous resources or not,
      whichever console that obeys ran the first. */
  lemma SecondPlanIsEmpty(
    os: Console, changes: seq<Change>, second: seq<Change>, desired: seq<Desired>, m: Menus)
    requires GoodDesireds(desired) && AllWriteReadable(desired) && PlanOf(changes, desired, m) && Obeys(os)
    requires ReadableRouter(desired, m) && LeftoversQuotable(desired, m)
    requires PlanOf(second, desired, After(os, m, changes))
    ensures second == []
  {
    ReadableRouterScans(desired, m);
    SayingNeedsNoRefusal(os, desired, m);
    QuotableLeftovers(desired, m);
    forall i | 0 <= i < |desired|
      ensures LeftAlone(desired[i], ItemsAt(m, desired[i].path), Gone(desired, m, desired[i].path))
    {
      QuotableLeavesAlone(desired, m, i);
    }
    SecondPlanIsEmptyIff(os, changes, second, desired, m);
  }
}
