/** Where `apply` falls short: conflicts it does not report, values it cannot read, and comments it cannot
    quote. */
module ApplyLimits {
  import opened Basics
  import opened QueryText
  import opened QueryReading
  import opened RouterConfig
  import opened RouterConsole
  import opened Reconcile
  import opened OnePass
  import opened Alloc
  import opened NetText
  import opened MeshctlApply

  // ----- Success reported over a conflict ---------------------------------------------------------

  ghost predicate FindAddsUp(a: seq<Item>, b: seq<Item>, sel: Selector) {
    Find(a + b, sel) == Find(a, sel) + Find(b, sel)
  }

  lemma FindConcatStep(a: seq<Item>, init: seq<Item>, last: Item, sel: Selector)
    requires FindAddsUp(a, init, sel)
    ensures FindAddsUp(a, init + [last], sel)
  {
    FindAppend(a + init, last, sel);
    FindAppend(init, last, sel);
    Assoc(a, init, [last]);
    Assoc(Find(a, sel), Find(init, sel), [last]);
  }

  lemma {:induction false} FindConcat(a: seq<Item>, b: seq<Item>, sel: Selector)
    ensures FindAddsUp(a, b, sel)
  {
    if b == [] {
      assert a + b == a && Find(a, sel) + [] == Find(a, sel);
    } else {
      var init, last := b[..|b| - 1], b[|b| - 1];
      FindConcat(a, init, sel);
      FindConcatStep(a, init, last, sel);
      assert b == init + [last];
    }
  }

  ghost function Doubled(m: Menus, path: string): Menus {
    m[path := ItemsAt(m, path) + ItemsAt(m, path)]
  }

  lemma DoubledIsReadable(desired: seq<Desired>, m: Menus, path: string)
    requires ReadableRouter(desired, m)
    ensures ReadableRouter(desired, Doubled(m, path))
  {
    forall i | 0 <= i < |desired| ensures ReadableItems(desired[i], ItemsAt(Doubled(m, path), desired[i].path)) {
      assert ReadableItems(desired[i], ItemsAt(m, desired[i].path));
      FindConcat(ItemsAt(m, path), ItemsAt(m, path), Identity(desired[i]));
    }
  }

  /** Take any router in its desired state and duplicate what stands on one resource's path: the resource is
      ambiguous, every plan is empty, and success is reported. */
  lemma DuplicateIsHidden(desired: seq<Desired>, m: Menus, i: nat)
    requires GoodDesireds(desired) && ReadableRouter(desired, m) && i < |desired|
    requires AllConverged(desired, m) && NothingUnclaimed(desired, m)
    ensures var m' := Doubled(m, desired[i].path);
            && ReadableRouter(desired, m') && StatusOf(desired[i], m').Conflict? && Settled(desired, m')
            && forall changes :: PlanOf(changes, desired, m') ==> changes == []
  {
    var d, m' := desired[i], Doubled(m, desired[i].path);
    DoubledIsReadable(desired, m, d.path);
    FindConcat(ItemsAt(m, d.path), ItemsAt(m, d.path), Identity(d));
    assert ReadableItems(d, ItemsAt(m, d.path)) && ReadableItems(d, ItemsAt(m', d.path));
    ReadableStatus(d, ItemsAt(m, d.path));
    ReadableStatus(d, ItemsAt(m', d.path));
    StatusMeans(d, ItemsAt(m, d.path));
    StatusMeans(d, ItemsAt(m', d.path));
    forall j | 0 <= j < |desired| && j != i ensures StatusOf(desired[j], m') == StatusOf(desired[j], m) {
      assert desired[j].path != d.path;
    }
    ReadableRouterScans(desired, m);
    assert NothingToPrune(desired, m') by {
      forall path, it | it in ItemsAt(m', path) ensures !Leftover(desired, path, it) {
        assert it in ItemsAt(m, path);
      }
    }
    ReadableRouterScans(desired, m');
    forall changes | PlanOf(changes, desired, m') ensures changes == [] {
      PlanEmptyIff(changes, desired, m');
    }
  }

  /** A router in its desired state: what a pass makes of an empty one. */
  lemma Installed(desired: seq<Desired>) returns (m: Menus)
    requires GoodDesireds(desired) && AllWriteReadable(desired)
    ensures AllConverged(desired, m) && NothingUnclaimed(desired, m) && ReadableRouter(desired, m)
  {
    var none: Menus := map[];
    var observed := seq(|desired|, i requires 0 <= i < |desired| => Observed(desired[i], StatusOf(desired[i], none)));
    forall i | 0 <= i < |desired| ensures StatusOf(desired[i], none).Missing? {
      ReadMissing(desired[i], []);
    }
    assert PrunesRead([], desired, none);
    var changes := SpellAll(MainIntents(observed) + PruneIntents([]));
    assert IsPlan(changes, observed, [], desired, none);
    var os := RefusingConsoleExists();
    assert LeftoversQuotable(desired, none);
    OnePassSuffices(os, changes, desired, none);
    m := After(os, none, changes);
  }

  /** The report can be wrong: a router on which `apply` says success while a resource is ambiguous. */
  lemma ApplyCanHideConflict(net: Net) returns (m: Menus)
    ensures !NoConflict(DesiredResources(net), m) && ReadableRouter(DesiredResources(net), m)
    ensures forall os: Console, after, ok :: Reports(os, DesiredResources(net), m, after, ok) ==> ok && after == m
  {
    var ds := DesiredResources(net);
    DesiredResourcesAreGood(net);
    DesiredResourcesWriteReadable(net);
    var base := Installed(ds);
    DuplicateIsHidden(ds, base, 0);
    m := Doubled(base, ds[0].path);
  }

  // ----- Values that cannot be read ---------------------------------------------------------------

  /** A leftover whose comment holds the separator or a line feed is never pruned by that comment: it stays
      unless another comment's filter takes it, and always where the comments to prune can be quoted. */
  lemma UnreadableLeftoverStays(
    os: Console, changes: seq<Change>, desired: seq<Desired>, m: Menus, path: string, it: Item)
    requires Runs(os, changes, desired, m)
    requires it in ItemsAt(m, path) && Leftover(desired, path, it) && !Plain(Prop(it, "comment"))
    ensures Prop(it, "comment") !in ReadComments(m, path)
    ensures it in ItemsAt(After(os, m, changes), path) <==> !Taken(it, Gone(desired, m, path))
    ensures UnclaimedQuotable(desired, m) ==> it in ItemsAt(After(os, m, changes), path)
  {
    if Prop(it, "comment") in ReadComments(m, path) {
      var found := Find(ItemsAt(m, path), OWNED_FILTER);
      var rec :| rec in ReadBack(["comment"], found) && "comment" in rec && rec["comment"] == Prop(it, "comment");
      ReadValuesArePlain(["comment"], found, rec, "comment");
    }
    LeftoverAfter(os, changes, desired, m, path, it);
    if UnclaimedQuotable(desired, m) { QuotableTakes(desired, m, path, it); }
  }

  // ----- Routers with one leftover ----------------------------------------------------------------

  /** A comment-owned resource found by a tagged comment. */
  ghost predicate OwnedRule(desired: seq<Desired>, i: nat) {
    && GoodDesireds(desired) && i < |desired|
    && desired[i].commentOwned && OWN_PREFIX <= desired[i].idValue
  }

  /** A router with one tagged leftover on one path, and other items beside it. */
  ghost function Beside(path: string, comment: string, users: seq<Item>): Menus {
    map[path := [map["comment" := comment]] + users]
  }

  ghost predicate Untagged(users: seq<Item>) {
    forall it :: it in users ==> !(OWN_PREFIX <= Prop(it, "comment"))
  }

  lemma {:induction false} FindAbsent(items: seq<Item>, sel: Selector)
    requires forall it :: it in items ==> !Matches(it, sel)
    ensures Find(items, sel) == []
  {
    if items != [] { FindAbsent(items[..|items| - 1], sel); }
  }

  /** No resource stands on such a router. */
  lemma BesideIsAbsent(desired: seq<Desired>, i: nat, c: string, users: seq<Item>, j: nat)
    requires OwnedRule(desired, i) && c != desired[i].idValue && Untagged(users) && j < |desired|
    ensures Find(ItemsAt(Beside(desired[i].path, c, users), desired[j].path), Identity(desired[j])) == []
  {
    var d := desired[j];
    var items := ItemsAt(Beside(desired[i].path, c, users), d.path);
    assert GoodDesired(d);
    forall it | it in items ensures !Matches(it, Identity(d)) {
      assert desired[j].path == desired[i].path;
      assert i == j;
      assert it == map["comment" := c] || it in users;
    }
    FindAbsent(items, Identity(d));
  }

  lemma BesideHasNoConflict(desired: seq<Desired>, i: nat, c: string, users: seq<Item>)
    requires OwnedRule(desired, i) && c != desired[i].idValue && Untagged(users)
    ensures NoConflict(desired, Beside(desired[i].path, c, users))
  {
    var m := Beside(desired[i].path, c, users);
    forall j | 0 <= j < |desired| ensures !StatusOf(desired[j], m).Conflict? {
      BesideIsAbsent(desired, i, c, users, j);
      ReadMissing(desired[j], ItemsAt(m, desired[j].path));
    }
  }

  lemma OnlyLeftover(desired: seq<Desired>, i: nat, c: string, users: seq<Item>, path: string)
    requires OwnedRule(desired, i) && OWN_PREFIX <= c && c != desired[i].idValue && Untagged(users)
    ensures var m := Beside(desired[i].path, c, users);
            forall it :: it in ItemsAt(m, path) && Leftover(desired, path, it) <==>
              path == desired[i].path && it == map["comment" := c]
  {
    var tagged: Item := map["comment" := c];
    OwnPath(desired, i);
    assert tagged in ItemsAt(Beside(desired[i].path, c, users), desired[i].path);
  }

  lemma BesideIsQuotable(desired: seq<Desired>, i: nat, c: string, users: seq<Item>)
    requires OwnedRule(desired, i) && Quotable(c) && Untagged(users)
    ensures UnclaimedQuotable(desired, Beside(desired[i].path, c, users))
  {
    var m := Beside(desired[i].path, c, users);
    forall path, it | path in OwnedPaths(desired) && it in ItemsAt(m, path) && OWN_PREFIX <= Prop(it, "comment")
      ensures Quotable(Prop(it, "comment"))
    {
      assert it == map["comment" := c];
    }
    QuotableTagsSuffice(desired, m);
  }

  /** Such a router: nothing is ambiguous, and yet a leftover survives every pass on every console that obeys. */
  lemma SeparatorLeftoverStays(
    os: Console, desired: seq<Desired>, i: nat, a: string, b: string, users: seq<Item>, changes: seq<Change>)
    requires OwnedRule(desired, i) && OWN_PREFIX + a + FIELD_SEP + b != desired[i].idValue && Untagged(users)
    requires Obeys(os) && Quotable(OWN_PREFIX + a + FIELD_SEP + b)
    requires PlanOf(changes, desired, Beside(desired[i].path, OWN_PREFIX + a + FIELD_SEP + b, users))
    ensures var m := Beside(desired[i].path, OWN_PREFIX + a + FIELD_SEP + b, users);
            NoConflict(desired, m) && !NothingToPrune(desired, After(os, m, changes))
  {
    var c, path := OWN_PREFIX + a + FIELD_SEP + b, desired[i].path;
    var m := Beside(path, c, users);
    BesideHasNoConflict(desired, i, c, users);
    BesideIsQuotable(desired, i, c, users);
    SayingNeedsNoRefusal(os, desired, m);
    OnlyLeftover(desired, i, c, users, path);
    assert SepAt(c, |OWN_PREFIX + a|);
    UnreadableLeftoverStays(os, changes, desired, m, path, map["comment" := c]);
  }

  // ----- Values read as something else --------------------------------------------------------------

  lemma LineOfPieces(p: string, pieces: seq<string>)
    requires p == REC_PREFIX + Join(pieces) && Splittable(pieces) && Join(pieces) != ""
    requires '\n' !in Join(pieces) && '\r' !in Join(pieces)
    ensures TrimCr(p) == p && '\n' !in p && RecordsOfLine(p) == [InsertPairs(pieces)]
  {
    SplitJoinIff(pieces);
    var body := Join(pieces);
    assert p[|p| - 1] == body[|body| - 1] && body[|body| - 1] in body;
    assert p[|REC_PREFIX|..] == body;
  }

  lemma OnlyLineRecords(p: string)
    requires '\n' !in p
    ensures LinesRecords(Lines(p + "\r\n")) == RecordsOfLine(TrimCr(p))
  {
    var line := EndedLine(p, CrLf, "");
    assert p + "\r\n" + "" == p + "\r\n" && Lines("") == [] && [line] + [] == [line];
    LinesRecordsCons(line, []);
  }

  lemma JoinIsOneLine(pieces: seq<string>)
    requires pieces != [] && pieces[0] != "" && forall i :: 0 <= i < |pieces| ==> OneLine(pieces[i])
    ensures Join(pieces) != "" && '\n' !in Join(pieces) && '\r' !in Join(pieces)
  {
    JoinIsNotEmpty(pieces);
    JoinChars(pieces, '\n');
    JoinChars(pieces, '\r');
  }

  /** An item printed on one line is read as whatever pieces its text splits into. */
  lemma ReadAsPieces(fields: seq<string>, item: Item, pieces: seq<string>)
    requires Splittable(pieces) && Join(pieces) == Join(Pairs(fields, item)) && pieces[0] != ""
    requires forall i :: 0 <= i < |pieces| ==> OneLine(pieces[i])
    ensures ItemRecords(fields, item) == [InsertPairs(pieces)]
  {
    EvalIsJoin(fields, item);
    JoinIsOneLine(pieces);
    LineOfPieces(Eval(Expression(fields), item), pieces);
    OnlyLineRecords(Eval(Expression(fields), item));
  }

  /** A value that holds the separator is read as two pieces. */
  lemma TwoPiecesRead(f: string, x: string, y: string, item: Item)
    requires CleanField(f) && OneLine(f) && Safe(x) && Safe(y) && Prop(item, f) == x + FIELD_SEP + y
    ensures ItemRecords([f], item) == [InsertPairs([f + "=" + x, y])]
  {
    var pieces, pairs := [f + "=" + x, y], Pairs([f], item);
    Assoc(f + "=", x, FIELD_SEP);
    Assoc(f + "=", x + FIELD_SEP, y);
    assert pairs == [f + "=" + (x + FIELD_SEP + y)];
    JoinFront(pieces);
    assert pieces[1..] == [y] && Join([y]) == y && Join(pairs) == pairs[0];
    BarFreeIsSepFree(pieces[0]);
    BarFreeIsSepFree(y);
    SepFreeHasNoSep(y);
    ReadAsPieces([f], item, pieces);
  }

  lemma InsertSnoc(init: seq<string>, p: string)
    ensures InsertPairs(init + [p]) == InsertPair(InsertPairs(init), p)
  {
    assert (init + [p])[..|init|] == init;
  }

  lemma InsertTwo(p: string, q: string)
    ensures InsertPairs([p, q]) == InsertPair(InsertPair(map[], p), q)
  {
    InsertSnoc([], p);
    InsertSnoc([p], q);
    assert [] + [p] == [p] && [p] + [q] == [p, q];
  }

  ghost function TwoInOne(k: string): Item {
    map["comment" := "mjolnir " + FIELD_SEP + ("comment" + "=" + k)]
  }

  lemma SecondPairWins(f: string, x: string, k: string)
    requires '=' !in f
    ensures InsertPairs([f + "=" + x, f + "=" + k]) == map[f := k]
  {
    InsertTwo(f + "=" + x, f + "=" + k);
    PairSplitsOnce(f, x);
    PairSplitsOnce(f, k);
    assert map[][f := x][f := k] == map[f := k];
  }

  lemma SecondIsRead(k: string)
    requires Safe(k)
    ensures ItemRecords(["comment"], TwoInOne(k)) == [map["comment" := k]]
  {
    RuleFieldNamesAreClean();
    assert Safe("mjolnir ") && Safe("comment=");
    SafeTogether("comment=", k);
    assert "comment=" + k == "comment" + "=" + k;
    TwoPiecesRead("comment", "mjolnir ", "comment" + "=" + k, TwoInOne(k));
    SecondPairWins("comment", "mjolnir ", k);
  }

  lemma FirstOfTwoFound(a: Item, b: Item, sel: Selector)
    requires Matches(a, sel) && !Matches(b, sel)
    ensures Find([a, b], sel) == [a]
  {
    FindAppend([], a, sel);
    FindAppend([a], b, sel);
    assert [] + [a] == [a] && [a] + [b] == [a, b];
  }

  lemma CommentIsRead(m: Menus, path: string, a: Item, b: Item, c: string)
    requires ItemsAt(m, path) == [a, b] && Matches(a, OWNED_FILTER) && !Matches(b, OWNED_FILTER)
    requires ItemRecords(["comment"], a) == [map["comment" := c]]
    ensures forall r :: r in ReadComments(m, path) <==> r == c
  {
    FirstOfTwoFound(a, b, OWNED_FILTER);
    ReadBackCons(["comment"], a, []);
    assert [a] + [] == [a];
    var rec: Record := map["comment" := c];
    assert Query(m, path, OWNED_FILTER, ["comment"]) == [rec] && rec["comment"] == c;
    assert rec in [rec];
  }

  /** On a router with items on one path only, the unclaimed comments are read there. */
  lemma OnlyOneRead(desired: seq<Desired>, m: Menus, here: string, k: string, path: string, c: string)
    requires (forall p :: p != here ==> ItemsAt(m, p) == []) && forall r :: r in ReadComments(m, here) <==> r == k
    requires Unclaimed(desired, m, path, c)
    ensures path == here && c == k
  {
    assert path != here ==> Query(m, path, OWNED_FILTER, ["comment"]) == [];
  }

  lemma TwoInOneIsScanned(desired: seq<Desired>, i: nat, k: string)
    requires OwnedRule(desired, i) && Tidy(k) && !(OWN_PREFIX <= k)
    ensures var m := map[desired[i].path := [TwoInOne(k), map["comment" := k]]];
            UnclaimedQuotable(desired, m) && Unclaimed(desired, m, desired[i].path, k)
  {
    var path, tagged, foreign := desired[i].path, TwoInOne(k), map["comment" := k];
    var m: Menus := map[path := [tagged, foreign]];
    assert OWN_PREFIX <= "mjolnir " <= Prop(tagged, "comment");
    SecondIsRead(k);
    CommentIsRead(m, path, tagged, foreign, k);
    OwnPath(desired, i);
    forall p, c | Unclaimed(desired, m, p, c) ensures c == k {
      OnlyOneRead(desired, m, path, k, p, c);
    }
  }

  /** A tagged comment can name an untagged item for pruning: whatever follows the separator and `comment=`
      in it is read as the comment, and the item that carries it is removed. */
  lemma ForeignItemIsRemoved(os: Console, desired: seq<Desired>, i: nat, k: string, changes: seq<Change>)
    requires Obeys(os) && OwnedRule(desired, i) && Tidy(k) && !(OWN_PREFIX <= k)
    requires PlanOf(changes, desired, map[desired[i].path := [TwoInOne(k), map["comment" := k]]])
    ensures var m := map[desired[i].path := [TwoInOne(k), map["comment" := k]]];
            !LeavesOthers(desired, m, After(os, m, changes))
  {
    var foreign := map["comment" := k];
    var m: Menus := map[desired[i].path := [TwoInOne(k), foreign]];
    TwoInOneIsScanned(desired, i, k);
    assert foreign == ItemsAt(m, desired[i].path)[1] && GoodDesired(desired[i]);
    assert Foreign(desired[i], foreign);
    SayingNeedsNoRefusal(os, desired, m);
    QuotableTakes(desired, m, desired[i].path, foreign);
    OnePassSparesIff(os, changes, desired, m);
  }

  lemma DriftedRecord(f: string, x: string, y: string, item: Item)
    requires CleanField(f) && OneLine(f) && Safe(x) && Safe(y) && '=' !in y && Prop(item, f) == x + FIELD_SEP + y
    ensures ReadBack([f], [item]) == [map[f := x]]
  {
    TwoPiecesRead(f, x, y, item);
    InsertTwo(f + "=" + x, y);
    PairSplitsOnce(f, x);
    assert IndexOf(y, '=') == |y|;
    ReadBackCons([f], item, []);
    assert [item] + [] == [item];
  }

  /** Drift can be hidden: a resource with one field whose value is followed by the separator is read as
      converged, and the plan does not touch it. */
  lemma DriftIsHidden(d: Desired, y: string, item: Item)
    requires GoodDesired(d) && |d.fields| == 1 && OneLine(d.fields[0].0) && Safe(d.fields[0].1)
    requires Safe(y) && '=' !in y
    requires Matches(item, Identity(d)) && Prop(item, d.fields[0].0) == d.fields[0].1 + FIELD_SEP + y
    ensures ReadIn(d, [item]).Converged? && !Fixable(d, [item])
  {
    var f, x := d.fields[0].0, d.fields[0].1;
    assert [item][..0] == [] && Find([item], Identity(d)) == [item];
    assert Keys(d.fields) == [f];
    DriftedRecord(f, x, y, item);
    assert d.fields[..0] == [] && Diffs(d.fields, map[f := x]) == [];
    assert |x + FIELD_SEP + y| > |x|;
  }

  // ----- Comments that cannot be quoted ---------------------------------------------------------

  lemma BesideIsReadable(desired: seq<Desired>, i: nat, c: string, users: seq<Item>)
    requires OwnedRule(desired, i) && Safe(c) && c != desired[i].idValue && Untagged(users)
    ensures ReadableRouter(desired, Beside(desired[i].path, c, users))
  {
    var m, tagged: Item := Beside(desired[i].path, c, users), map["comment" := c];
    RuleFieldNamesAreClean();
    BarFreeIsSepFree(c);
    SepFreeIsReadable(["comment"], tagged);
    forall j | 0 <= j < |desired| ensures ReadableItems(desired[j], ItemsAt(m, desired[j].path)) {
      BesideIsAbsent(desired, i, c, users, j);
      forall it | it in ItemsAt(m, desired[j].path) && OWN_PREFIX <= Prop(it, "comment")
        ensures Readable(["comment"], it)
      {
        assert it == tagged;
      }
    }
  }

  lemma OnlyUnclaimed(desired: seq<Desired>, i: nat, c: string, users: seq<Item>)
    requires OwnedRule(desired, i) && Safe(c) && OWN_PREFIX <= c && c != desired[i].idValue && Untagged(users)
    ensures var m := Beside(desired[i].path, c, users);
            forall path, r :: Unclaimed(desired, m, path, r) <==> path == desired[i].path && r == c
  {
    var m := Beside(desired[i].path, c, users);
    BesideIsReadable(desired, i, c, users);
    forall path, r ensures Unclaimed(desired, m, path, r) <==> path == desired[i].path && r == c {
      UnclaimedIsLeftover(desired, m, path, r);
      OnlyLeftover(desired, i, c, users, path);
      var tagged: Item := map["comment" := c];
      assert Prop(tagged, "comment") == c;
    }
  }

  /** What the pass takes on such a router is what the comment says. */
  lemma GoneBeside(desired: seq<Desired>, i: nat, c: string, users: seq<Item>)
    requires OwnedRule(desired, i) && Safe(c) && OWN_PREFIX <= c && c != desired[i].idValue && Untagged(users)
    ensures var m := Beside(desired[i].path, c, users);
            Gone(desired, m, desired[i].path) == if SaysSomething(c) then {Said(c)} else {}
  {
    var m := Beside(desired[i].path, c, users);
    OnlyUnclaimed(desired, i, c, users);
    assert Unclaimed(desired, m, desired[i].path, c);
  }

  lemma BesideNotSettled(desired: seq<Desired>, i: nat, c: string, users: seq<Item>)
    requires OwnedRule(desired, i) && Safe(c) && OWN_PREFIX <= c && c != desired[i].idValue && Untagged(users)
    ensures !Settled(desired, Beside(desired[i].path, c, users))
  {
    OnlyUnclaimed(desired, i, c, users);
    assert Unclaimed(desired, Beside(desired[i].path, c, users), desired[i].path, c);
  }

  lemma SaidIsNotRefused(os: Console, path: string, c: string)
    requires Obeys(os) && MenuPath(path) && SaysSomething(c)
    ensures !Refuses(os, CommandText(Removal(path, c)))
  {
    var d, none: Menus := Remove(path, Said(c)), map[];
    assert Printable(d) && CommandText(d) == CommandText(Removal(path, c));
    assert Executes(os, none, d);
  }

  lemma UnsaidIsUntaken(desired: seq<Desired>, i: nat, c: string, users: seq<Item>)
    requires OwnedRule(desired, i) && Untagged(users) && !SaysSomething(c)
    requires Safe(c) && OWN_PREFIX <= c && c != desired[i].idValue
    ensures !LeftoversTaken(desired, Beside(desired[i].path, c, users))
  {
    var path, tagged: Item := desired[i].path, map["comment" := c];
    GoneBeside(desired, i, c, users);
    OnlyLeftover(desired, i, c, users, path);
    assert Leftover(desired, path, tagged) && !Taken(tagged, {});
  }

  /** A leftover whose removal is refused stays, and failure is reported. */
  lemma UnquotableLeftoverStays(
    os: Console, desired: seq<Desired>, i: nat, c: string, users: seq<Item>, after: Menus, ok: bool)
    requires OwnedRule(desired, i) && AllWriteReadable(desired) && Untagged(users)
    requires Safe(c) && OWN_PREFIX <= c && c != desired[i].idValue && !Quotable(c)
    requires Obeys(os) && Refuses(os, CommandText(Removal(desired[i].path, c)))
    requires Reports(os, desired, Beside(desired[i].path, c, users), after, ok)
    ensures !ok && !NothingToPrune(desired, after)
  {
    assert GoodDesired(desired[i]);
    assert !SaysSomething(c) by {
      if SaysSomething(c) { SaidIsNotRefused(os, desired[i].path, c); }
    }
    OnlyUnclaimed(desired, i, c, users);
    BesideIsReadable(desired, i, c, users);
    BesideNotSettled(desired, i, c, users);
    UnsaidIsUntaken(desired, i, c, users);
    ReportsIff(os, desired, Beside(desired[i].path, c, users), after, ok);
  }

  /** A router with one leftover whose comment says a filter: it can be read, nothing is ambiguous, every console
      that obeys runs its plans, and they take what the filter matches. */
  lemma BesideSays(os: Console, desired: seq<Desired>, i: nat, c: string, sel: Selector, users: seq<Item>)
    requires OwnedRule(desired, i) && Untagged(users) && Says(c, sel)
    requires Safe(c) && OWN_PREFIX <= c && c != desired[i].idValue
    ensures var m := Beside(desired[i].path, c, users);
            && ReadableRouter(desired, m) && NoConflict(desired, m) && RefusesRest(os, desired, m)
            && UnclaimedSay(desired, m) && Gone(desired, m, desired[i].path) == {sel}
  {
    var m := Beside(desired[i].path, c, users);
    SaidIsUnique(c, sel);
    BesideIsReadable(desired, i, c, users);
    BesideHasNoConflict(desired, i, c, users);
    OnlyUnclaimed(desired, i, c, users);
    GoneBeside(desired, i, c, users);
    SayingNeedsNoRefusal(os, desired, m);
  }

  lemma SmugglingSays(v: string, sel: Selector)
    requires Quotable(v) && PrintableSelector(sel)
    ensures Says(Smuggling(v, sel), AnyOf(Equals("comment", v), sel)) && !Quotable(Smuggling(v, sel))
    ensures v <= Smuggling(v, sel)
  {
    CommentIsWord();
    SmuggledFilter(v, sel);
  }

  /** The comment that smuggles a single test, spelled out. */
  lemma SmugglingTest(v: string, t: Selector)
    requires !t.AnyOf?
    ensures Smuggling(v, t) == v + "\" or " + (Head(t) + "\"" + Literal(t))
  {
    TestShape(t, "");
    var s, inner := SelectorText(t), Head(t) + "\"" + Literal(t);
    Assoc(Head(t) + "\"", Literal(t), "\"" + "");
    assert s == inner + "\"";
    assert s[..|s| - 1] == inner;
  }

  lemma SmugglingIsSafe(v: string, t: Selector)
    requires !t.AnyOf? && Safe(v) && Safe(t.key) && Safe(Literal(t))
    ensures Safe(Smuggling(v, t))
  {
    SmugglingTest(v, t);
    assert Safe("\" or ") && Safe("=") && Safe("~") && Safe("\"");
    SafeTogether(t.key, if t.Equals? then "=" else "~");
    SafeTogether(Head(t), "\"");
    SafeTogether(Head(t) + "\"", Literal(t));
    SafeTogether(v, "\" or ");
    SafeTogether(v + "\" or ", Head(t) + "\"" + Literal(t));
  }

  lemma WordIsTidy(v: string)
    requires Word(v)
    ensures Tidy(v)
  {
    WordsHaveNo(v, QUOTE);
    WordsHaveNo(v, BACKSLASH);
    WordsHaveNo(v, '$');
    WordsHaveNo(v, '|');
    WordsHaveNo(v, '\r');
    WordsHaveNo(v, '\n');
  }

  lemma TakenByOne(it: Item, sel: Selector)
    ensures Taken(it, {sel}) <==> Matches(it, sel)
  {
    if Matches(it, sel) { assert sel in {sel}; }
  }

  /** A double quote in a leftover's comment can widen its removal to any filter: whatever untagged item the
      filter matches is removed by every console that obeys, although the router can be read and nothing on
      it is ambiguous. */
  lemma QuoteWidensRemoval(
    os: Console, desired: seq<Desired>, i: nat, sel: Selector, users: seq<Item>, user: Item, changes: seq<Change>)
    requires Obeys(os) && OwnedRule(desired, i) && Untagged(users) && user in users && Matches(user, sel)
    requires PrintableSelector(sel) && Safe(Smuggling(OWN_PREFIX, sel))
    requires PlanOf(changes, desired, Beside(desired[i].path, Smuggling(OWN_PREFIX, sel), users))
    ensures var m := Beside(desired[i].path, Smuggling(OWN_PREFIX, sel), users);
            && ReadableRouter(desired, m) && NoConflict(desired, m)
            && user !in ItemsAt(After(os, m, changes), desired[i].path)
            && !LeavesOthers(desired, m, After(os, m, changes))
  {
    var d, path, c := desired[i], desired[i].path, Smuggling(OWN_PREFIX, sel);
    var m, said := Beside(path, c, users), AnyOf(Equals("comment", OWN_PREFIX), sel);
    assert Quotable(OWN_PREFIX) && GoodDesired(d);
    SmugglingSays(OWN_PREFIX, sel);
    BesideSays(os, desired, i, c, said, users);
    TakenByOne(user, said);
    assert user in ItemsAt(m, path) && Foreign(d, user);
    OnePassSparesIff(os, changes, desired, m);
    PlanAt(os, changes, desired, m, i);
    OthersAfterPlan(d, ItemsAt(m, path), {said}, user);
  }

  lemma AbsentIsFixable(desired: seq<Desired>, i: nat, c: string, users: seq<Item>)
    requires OwnedRule(desired, i) && c != desired[i].idValue && Untagged(users)
    ensures AllFixable(desired, Beside(desired[i].path, c, users))
  {
    var m := Beside(desired[i].path, c, users);
    forall j | 0 <= j < |desired| ensures Fixable(desired[j], ItemsAt(m, desired[j].path)) {
      BesideIsAbsent(desired, i, c, users, j);
    }
  }

  lemma NewItemKept(d: Desired, gone: set<Selector>)
    ensures Kept([NewItem(d)], gone) == if Taken(NewItem(d), gone) then [] else [NewItem(d)]
  {
    assert [NewItem(d)][..0] == [];
  }

  lemma TakenRuleIsNotFixed(desired: seq<Desired>, i: nat, c: string, sel: Selector, users: seq<Item>)
    requires OwnedRule(desired, i) && c != desired[i].idValue && Untagged(users)
    requires Gone(desired, Beside(desired[i].path, c, users), desired[i].path) == {sel}
    requires Matches(NewItem(desired[i]), sel)
    ensures !AllFixed(desired, Beside(desired[i].path, c, users))
  {
    var d, m := desired[i], Beside(desired[i].path, c, users);
    BesideIsAbsent(desired, i, c, users, i);
    TakenByOne(NewItem(d), sel);
    NewItemKept(d, {sel});
    assert !FixedBy(d, ItemsAt(m, d.path), Gone(desired, m, d.path));
  }

  lemma OwnRuleComment(desired: seq<Desired>, i: nat)
    requires OwnedRule(desired, i) && Safe(desired[i].idValue)
    ensures var d, c := desired[i], Smuggling(OWN_PREFIX, Identity(desired[i]));
            && Safe(c) && OWN_PREFIX <= c && c != d.idValue
            && Says(c, AnyOf(Equals("comment", OWN_PREFIX), Identity(d))) && Matches(NewItem(d), Identity(d))
  {
    var d := desired[i];
    assert GoodDesired(d);
    WordIsTidy(OWN_PREFIX);
    WordIsTidy("comment");
    SmugglingSays(OWN_PREFIX, Identity(d));
    SmugglingIsSafe(OWN_PREFIX, Identity(d));
    WithFieldsOthers(map[d.idKey := d.idValue], d.fields, d.idKey);
  }

  /** A pass can delete its own rule: behind a leftover's comment stands the desired one. Nothing is ambiguous,
      every resource is fixable, and after every plan on every console that obeys the rule is missing. */
  lemma OwnRuleIsDeleted(os: Console, desired: seq<Desired>, i: nat, users: seq<Item>, changes: seq<Change>)
    requires Obeys(os) && OwnedRule(desired, i) && Untagged(users) && Safe(desired[i].idValue)
    requires PlanOf(changes, desired, Beside(desired[i].path, Smuggling(OWN_PREFIX, Identity(desired[i])), users))
    ensures var m := Beside(desired[i].path, Smuggling(OWN_PREFIX, Identity(desired[i])), users);
            && ReadableRouter(desired, m) && NoConflict(desired, m) && AllFixable(desired, m)
            && !TrulyConverged(desired, After(os, m, changes))
  {
    var c := Smuggling(OWN_PREFIX, Identity(desired[i]));
    var said := AnyOf(Equals("comment", OWN_PREFIX), Identity(desired[i]));
    OwnRuleComment(desired, i);
    BesideSays(os, desired, i, c, said, users);
    AbsentIsFixable(desired, i, c, users);
    TakenRuleIsNotFixed(desired, i, c, said, users);
    OnePassFixesIff(os, changes, desired, Beside(desired[i].path, c, users));
  }

  lemma FixedBeside(desired: seq<Desired>, i: nat, c: string, sel: Selector, users: seq<Item>, j: nat)
    requires OwnedRule(desired, i) && Safe(c) && OWN_PREFIX <= c && c != desired[i].idValue && Untagged(users)
    requires j < |desired| && Gone(desired, Beside(desired[i].path, c, users), desired[i].path) == {sel}
    requires !Matches(NewItem(desired[i]), sel)
    ensures var m := Beside(desired[i].path, c, users);
            FixedBy(desired[j], ItemsAt(m, desired[j].path), Gone(desired, m, desired[j].path))
  {
    var m, d := Beside(desired[i].path, c, users), desired[j];
    BesideIsAbsent(desired, i, c, users, j);
    OnlyUnclaimed(desired, i, c, users);
    assert GoodDesired(d);
    CarriesAfterSet(d, map[d.idKey := d.idValue]);
    NewItemKept(d, Gone(desired, m, d.path));
    if j != i {
      assert d.path != desired[i].path;
      assert Gone(desired, m, d.path) == {};
    }
  }

  /** An unquotable comment can still be pruned: one that smuggles its own beginning as a prefix takes exactly
      the items that begin so. Every console that obeys then prunes it and does all else it should. */
  lemma SelfSweepingIsPruned(
    os: Console, desired: seq<Desired>, i: nat, v: string, users: seq<Item>, changes: seq<Change>)
    requires Obeys(os) && OwnedRule(desired, i) && Untagged(users) && Word(v) && OWN_PREFIX <= v
    requires !(v <= desired[i].idValue)
    requires PlanOf(changes, desired, Beside(desired[i].path, Smuggling(v, Prefixed("comment", v)), users))
    ensures var m := Beside(desired[i].path, Smuggling(v, Prefixed("comment", v)), users);
            && !LeftoversQuotable(desired, m) && TrulyConverged(desired, After(os, m, changes))
            && NothingToPrune(desired, After(os, m, changes)) && LeavesOthers(desired, m, After(os, m, changes))
            && RunAll(os, m, changes).failed == 0
  {
    var path, sel := desired[i].path, Prefixed("comment", v);
    var c := Smuggling(v, sel);
    var m, said := Beside(path, c, users), AnyOf(Equals("comment", v), sel);
    WordIsTidy(v);
    CommentIsWord();
    WordIsTidy("comment");
    SafeTogether("^", v);
    SmugglingIsSafe(v, sel);
    SmugglingSays(v, sel);
    BesideSays(os, desired, i, c, said, users);
    SweptOnly(desired, i, v, users);
    OnePassFixesIff(os, changes, desired, m);
    OnePassPrunesIff(os, changes, desired, m);
    OnePassSparesIff(os, changes, desired, m);
    OnePassFailsNoneIff(os, changes, desired, m);
  }

  /** What such a comment leaves on the router's paths is what should stay. */
  lemma SweptOnly(desired: seq<Desired>, i: nat, v: string, users: seq<Item>)
    requires Swept(desired, i, v, users)
    ensures var m := Beside(desired[i].path, Smuggling(v, Prefixed("comment", v)), users);
            && AllFixed(desired, m) && LeftoversTaken(desired, m) && NoForeignTaken(desired, m)
            && !LeftoversQuotable(desired, m)
  {
    var d, path, c := desired[i], desired[i].path, Smuggling(v, Prefixed("comment", v));
    var m, said := Beside(path, c, users), AnyOf(Equals("comment", v), Prefixed("comment", v));
    assert GoodDesired(d);
    WithFieldsOthers(map[d.idKey := d.idValue], d.fields, d.idKey);
    forall j | 0 <= j < |desired|
      ensures FixedBy(desired[j], ItemsAt(m, desired[j].path), Gone(desired, m, desired[j].path))
    {
      FixedBeside(desired, i, c, said, users, j);
    }
    SweptLeftover(desired, i, v, users);
    forall j, it | 0 <= j < |desired| && it in ItemsAt(m, desired[j].path) && Foreign(desired[j], it)
      ensures !Taken(it, Gone(desired, m, desired[j].path))
    {
      SweptForeign(desired, i, v, users, j, it);
    }
  }

  ghost predicate Swept(desired: seq<Desired>, i: nat, v: string, users: seq<Item>) {
    var c := Smuggling(v, Prefixed("comment", v));
    && OwnedRule(desired, i) && Untagged(users) && OWN_PREFIX <= v && !(v <= desired[i].idValue)
    && Safe(c) && v <= c && !Quotable(c)
    && Gone(desired, Beside(desired[i].path, c, users), desired[i].path) ==
       {AnyOf(Equals("comment", v), Prefixed("comment", v))}
  }

  lemma SweptLeftover(desired: seq<Desired>, i: nat, v: string, users: seq<Item>)
    requires Swept(desired, i, v, users)
    ensures var m := Beside(desired[i].path, Smuggling(v, Prefixed("comment", v)), users);
            LeftoversTaken(desired, m) && !LeftoversQuotable(desired, m)
  {
    var path, c := desired[i].path, Smuggling(v, Prefixed("comment", v));
    var m, said := Beside(path, c, users), AnyOf(Equals("comment", v), Prefixed("comment", v));
    var tagged: Item := map["comment" := c];
    assert Prop(tagged, "comment") == c;
    TakenByOne(tagged, said);
    forall p, it | it in ItemsAt(m, p) && Leftover(desired, p, it) ensures Taken(it, Gone(desired, m, p)) {
      OnlyLeftover(desired, i, c, users, p);
    }
    OnlyLeftover(desired, i, c, users, path);
    assert tagged in ItemsAt(m, path) && Leftover(desired, path, tagged);
  }

  lemma SweptForeign(desired: seq<Desired>, i: nat, v: string, users: seq<Item>, j: nat, it: Item)
    requires Swept(desired, i, v, users) && j < |desired|
    requires it in ItemsAt(Beside(desired[i].path, Smuggling(v, Prefixed("comment", v)), users), desired[j].path)
    requires Foreign(desired[j], it)
    ensures var m := Beside(desired[i].path, Smuggling(v, Prefixed("comment", v)), users);
            !Taken(it, Gone(desired, m, desired[j].path))
  {
    assert desired[j].path == desired[i].path;
    assert j == i;
    TakenByOne(it, AnyOf(Equals("comment", v), Prefixed("comment", v)));
  }

  const WIDE_COMMENT := "mjolnir\" or comment~\"^"

  lemma SafeTogether(a: string, b: string)
    requires Safe(a) && Safe(b)
    ensures Safe(a + b)
  {
  }

  lemma WideComment()
    ensures Smuggling(OWN_PREFIX, Prefixed("comment", "")) == WIDE_COMMENT
  {
    var s := SelectorText(Prefixed("comment", ""));
    assert s[..|s| - 1] == "comment~\"^";
  }

  lemma WideIsSafe()
    ensures Safe(WIDE_COMMENT)
  {
    WordIsTidy("mjolnir");
    WordIsTidy("comment");
    SmugglingIsSafe(OWN_PREFIX, Prefixed("comment", ""));
    WideComment();
  }

  /** One such comment takes every item of the NAT path with it. */
  lemma QuoteRemovesAll(os: Console, net: Net, users: seq<Item>, user: Item, changes: seq<Change>)
    requires Obeys(os) && Untagged(users) && user in users
    requires PlanOf(changes, DesiredResources(net), Beside(NAT, WIDE_COMMENT, users))
    ensures var m := Beside(NAT, WIDE_COMMENT, users);
            && ReadableRouter(DesiredResources(net), m) && NoConflict(DesiredResources(net), m)
            && user !in ItemsAt(After(os, m, changes), NAT)
  {
    DesiredResourcesAreGood(net);
    NatIsOwned(net);
    CommentIsWord();
    WideComment();
    WideIsSafe();
    QuoteWidensRemoval(os, DesiredResources(net), 4, Prefixed("comment", ""), users, user, changes);
  }

  lemma NatIsOwned(net: Net)
    requires GoodDesireds(DesiredResources(net))
    ensures OwnedRule(DesiredResources(net), 4) && DesiredResources(net)[4].path == NAT
    ensures Identity(DesiredResources(net)[4]) == Equals("comment", OWN_COMMENT)
  {
    assert OWN_PREFIX <= OWN_COMMENT;
  }

  const OWN_RULE_COMMENT := "mjolnir" + "\" or " + ("comment=" + "\"" + OWN_COMMENT)
  const SWEEPING_COMMENT := "mjolnirx" + "\" or " + ("comment~" + "\"" + ("^" + "mjolnirx"))

  lemma SmugglersSpelled()
    ensures Smuggling(OWN_PREFIX, Equals("comment", OWN_COMMENT)) == OWN_RULE_COMMENT
    ensures Smuggling("mjolnirx", Prefixed("comment", "mjolnirx")) == SWEEPING_COMMENT
  {
    SmugglingTest(OWN_PREFIX, Equals("comment", OWN_COMMENT));
    SmugglingTest("mjolnirx", Prefixed("comment", "mjolnirx"));
    assert "comment" + "=" == "comment=" && "comment" + "~" == "comment~";
  }

  /** On the NAT path of every subnet: a leftover that makes the pass delete its own rule. */
  lemma NatRuleIsDeleted(os: Console, net: Net, users: seq<Item>, changes: seq<Change>)
    requires Obeys(os) && Untagged(users)
    requires PlanOf(changes, DesiredResources(net), Beside(NAT, OWN_RULE_COMMENT, users))
    ensures var m := Beside(NAT, OWN_RULE_COMMENT, users);
            && ReadableRouter(DesiredResources(net), m) && NoConflict(DesiredResources(net), m)
            && !TrulyConverged(DesiredResources(net), After(os, m, changes))
  {
    DesiredResourcesAreGood(net);
    NatIsOwned(net);
    SmugglersSpelled();
    TextsAreTidy();
    OwnRuleIsDeleted(os, DesiredResources(net), 4, users, changes);
  }

  /** And an unquotable one that is pruned all the same. */
  lemma NatSweepIsPruned(os: Console, net: Net, users: seq<Item>, changes: seq<Change>)
    requires Obeys(os) && Untagged(users)
    requires PlanOf(changes, DesiredResources(net), Beside(NAT, SWEEPING_COMMENT, users))
    ensures var m := Beside(NAT, SWEEPING_COMMENT, users);
            !LeftoversQuotable(DesiredResources(net), m) && NothingToPrune(DesiredResources(net), After(os, m, changes))
  {
    DesiredResourcesAreGood(net);
    NatIsOwned(net);
    SmugglersSpelled();
    SweepIsNoPrefix();
    SelfSweepingIsPruned(os, DesiredResources(net), 4, "mjolnirx", users, changes);
  }

  lemma SweepIsNoPrefix()
    ensures Word("mjolnirx") && OWN_PREFIX <= "mjolnirx" && !("mjolnirx" <= OWN_COMMENT)
  {
    assert "mjolnirx"[7] == 'x' && OWN_COMMENT[7] == ' ';
  }
}
