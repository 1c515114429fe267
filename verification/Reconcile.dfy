/** The RouterOS reconciler (`plan.rs`, `apply.rs`): what is read off the router, the plan made from it, and
    what its changes do to each path. */
module Reconcile {
  import opened Basics
  import opened QueryText
  import opened QueryReading
  import opened RouterConfig
  import opened RouterConsole

  const OWN_PREFIX := "mjolnir"

  /** One desired resource; `idKey`/`idValue` identify its live instance. */
  datatype Desired = Desired(kind: string, path: string, id: string, idKey: string, idValue: string,
                             fields: seq<(string, string)>, commentOwned: bool)

  datatype FieldDiff = FieldDiff(field: string, want: string, got: string)

  datatype Status = Missing | Converged | Drifted(diffs: seq<FieldDiff>) | Conflict(matches: nat)

  datatype Observed = Observed(desired: Desired, status: Status)

  datatype PruneEntry = PruneEntry(kind: string, path: string, comment: string)

  /** A change to make, and the change as it is sent: its command printed. */
  datatype Intent = Intent(kind: string, id: string, cmd: Command)

  datatype Change = Change(kind: string, id: string, cmd: string)

  datatype Skipped = Skipped(kind: string, id: string, matches: nat)

  function ExecAll(m: Menus, cs: seq<Intent>): (r: Menus) {
    if cs == [] then m else Exec(ExecAll(m, cs[..|cs| - 1]), cs[|cs| - 1].cmd)
  }

  /** What a query reports: the printed text of the items found, parsed. */
  function Query(m: Menus, path: string, sel: Selector, fields: seq<string>): (r: seq<Record>) {
    ReadBack(fields, Find(ItemsAt(m, path), sel))
  }

  // ----- Desired state and classification ---------------------------------------------------------

  function Keys(fields: seq<(string, string)>): (r: seq<string>)
    ensures |r| == |fields| && forall i :: 0 <= i < |fields| ==> r[i] == fields[i].0
  {
    seq(|fields|, i requires 0 <= i < |fields| => fields[i].0)
  }

  function Identity(d: Desired): (sel: Selector) {
    Equals(d.idKey, d.idValue)
  }

  /** What `add` is given: identity and fields. */
  function AddFields(d: Desired): (fields: seq<(string, string)>) {
    [(d.idKey, d.idValue)] + d.fields
  }

  /** The item it creates. */
  function NewItem(d: Desired): (it: Item) {
    WithFields(map[d.idKey := d.idValue], d.fields)
  }

  lemma {:induction false} WithFieldsFront(it: Item, f: (string, string), fields: seq<(string, string)>)
    ensures WithFields(it, [f] + fields) == WithFields(it[f.0 := f.1], fields)
  {
    if fields == [] {
      assert [f] + fields == [f] && [f][..0] == [];
    } else {
      var k := |fields| - 1;
      WithFieldsFront(it, f, fields[..k]);
      assert ([f] + fields)[..|fields|] == [f] + fields[..k];
    }
  }

  lemma AddsNewItem(d: Desired)
    ensures WithFields(map[], AddFields(d)) == NewItem(d)
  {
    WithFieldsFront(map[], (d.idKey, d.idValue), d.fields);
    assert map[][d.idKey := d.idValue] == map[d.idKey := d.idValue];
  }

  function Diffs(fields: seq<(string, string)>, obs: Record): (r: seq<FieldDiff>) {
    if fields == [] then []
    else
      var k, before := |fields| - 1, Diffs(fields[..|fields| - 1], obs);
      var got := if fields[k].0 in obs then obs[fields[k].0] else "";
      if got != fields[k].1 then before + [FieldDiff(fields[k].0, fields[k].1, got)] else before
  }

  function Classify(fields: seq<(string, string)>, recs: seq<Record>): (s: Status) {
    if recs == [] then Missing
    else if |recs| == 1 then
      var diffs := Diffs(fields, recs[0]);
      if diffs == [] then Converged else Drifted(diffs)
    else Conflict(|recs|)
  }

  /** The status as read off the router. */
  function StatusOf(d: Desired, m: Menus): (s: Status) {
    Classify(d.fields, Query(m, d.path, Identity(d), Keys(d.fields)))
  }

  /** The identities wanted on a path. */
  function Wanted(desired: seq<Desired>, path: string): (w: set<string>) {
    set d | d in desired && d.path == path :: d.idValue
  }

  function OwnedPaths(desired: seq<Desired>): (p: set<string>) {
    set d | d in desired && d.commentOwned :: d.path
  }

  function KindAt(desired: seq<Desired>, path: string): (k: string) {
    if desired == [] then "?"
    else if desired[0].path == path then desired[0].kind
    else KindAt(desired[1..], path)
  }

  const OWNED_FILTER := Prefixed("comment", OWN_PREFIX)

  /** An item of a comment-owned path that carries our tag and that no desired resource claims. */
  predicate Leftover(desired: seq<Desired>, path: string, it: Item) {
    && path in OwnedPaths(desired)
    && OWN_PREFIX <= Prop(it, "comment") && Prop(it, "comment") !in Wanted(desired, path)
  }

  /** The comments read by the prune scan of a path. */
  ghost function ReadComments(m: Menus, path: string): set<string> {
    set rec | rec in Query(m, path, OWNED_FILTER, ["comment"]) && "comment" in rec :: rec["comment"]
  }

  /** The prune scan of the path reads a comment that no desired resource claims. */
  ghost predicate Unclaimed(desired: seq<Desired>, m: Menus, path: string, comment: string) {
    path in OwnedPaths(desired) && comment in ReadComments(m, path) && comment !in Wanted(desired, path)
  }

  /** `prunes` names exactly the unclaimed comments read. */
  ghost predicate PrunesRead(prunes: seq<PruneEntry>, desired: seq<Desired>, m: Menus) {
    && (forall p :: p in prunes ==> p.kind == KindAt(desired, p.path) && Unclaimed(desired, m, p.path, p.comment))
    && (forall path, c :: Unclaimed(desired, m, path, c) ==> PruneEntry(KindAt(desired, path), path, c) in prunes)
  }

  ghost predicate SeenAs(o: Observed, d: Desired, m: Menus) {
    o == Observed(d, StatusOf(d, m))
  }

  ghost predicate Observes(observed: seq<Observed>, desired: seq<Desired>, m: Menus) {
    |observed| == |desired| && forall i :: 0 <= i < |desired| ==> SeenAs(observed[i], desired[i], m)
  }

  // ----- Planning --------------------------------------------------------------------------

  function MainIntent(o: Observed): (c: seq<Intent>) {
    var d := o.desired;
    match o.status
    case Missing => [Intent(d.kind, d.id, Add(d.path, AddFields(d)))]
    case Drifted(_) => [Intent(d.kind, d.id, Set(d.path, Identity(d), d.fields))]
    case Converged => []
    case Conflict(_) => []
  }

  function MainIntents(observed: seq<Observed>): (c: seq<Intent>) {
    if observed == [] then []
    else MainIntents(observed[..|observed| - 1]) + MainIntent(observed[|observed| - 1])
  }

  function Skips(observed: seq<Observed>): (s: seq<Skipped>) {
    if observed == [] then []
    else
      var before, o := Skips(observed[..|observed| - 1]), observed[|observed| - 1];
      if o.status.Conflict? then before + [Skipped(o.desired.kind, o.desired.id, o.status.matches)] else before
  }

  function PruneIntent(p: PruneEntry): (c: Intent) {
    Intent(p.kind, p.comment, Removal(p.path, p.comment))
  }

  function PruneIntents(prunes: seq<PruneEntry>): (c: seq<Intent>) {
    if prunes == [] then [] else PruneIntents(prunes[..|prunes| - 1]) + [PruneIntent(prunes[|prunes| - 1])]
  }

  // ----- What executing does to one path ----------------------------------------------------

  function ExecPath(items: seq<Item>, cs: seq<Intent>, path: string): (r: seq<Item>) {
    if cs == [] then items
    else
      var before, c := ExecPath(items, cs[..|cs| - 1], path), cs[|cs| - 1].cmd;
      if c.path == path then ExecOn(before, c) else before
  }

  lemma {:induction false} ExecAllByPath(m: Menus, cs: seq<Intent>, path: string)
    ensures ItemsAt(ExecAll(m, cs), path) == ExecPath(ItemsAt(m, path), cs, path)
  {
    if cs != [] { ExecAllByPath(m, cs[..|cs| - 1], path); }
  }

  lemma {:induction false} ExecPathConcat(items: seq<Item>, a: seq<Intent>, b: seq<Intent>, path: string)
    ensures ExecPath(items, a + b, path) == ExecPath(ExecPath(items, a, path), b, path)
  {
    if b == [] {
      assert a + b == a;
    } else {
      ExecPathConcat(items, a, b[..|b| - 1], path);
      assert (a + b)[..|a + b| - 1] == a + b[..|b| - 1];
    }
  }

  lemma ChangeAtPath(items: seq<Item>, o: Observed, path: string)
    ensures ExecPath(items, MainIntent(o), path) == if o.desired.path == path then Mended(items, o) else items
  {
    ExecShort(items, MainIntent(o), path);
    AddsNewItem(o.desired);
  }

  /** One more resource's change, after those of the resources before it. */
  lemma MainStep(items: seq<Item>, observed: seq<Observed>, path: string)
    requires observed != []
    ensures var last := observed[|observed| - 1];
            var before := ExecPath(items, MainIntents(observed[..|observed| - 1]), path);
            ExecPath(items, MainIntents(observed), path) ==
            if last.desired.path == path then Mended(before, last) else before
  {
    var k := |observed| - 1;
    var main, c := MainIntents(observed[..k]), MainIntent(observed[k]);
    ExecPathConcat(items, main, c, path);
    ChangeAtPath(ExecPath(items, main, path), observed[k], path);
    assert MainIntents(observed) == main + c;
  }

  lemma {:induction false} MainElsewhere(items: seq<Item>, observed: seq<Observed>, path: string)
    requires forall i :: 0 <= i < |observed| ==> observed[i].desired.path != path
    ensures ExecPath(items, MainIntents(observed), path) == items
  {
    if observed != [] {
      MainElsewhere(items, observed[..|observed| - 1], path);
      MainStep(items, observed, path);
    }
  }

  lemma ExecShort(items: seq<Item>, cs: seq<Intent>, path: string)
    requires |cs| <= 1
    ensures ExecPath(items, cs, path) == if cs == [] || cs[0].cmd.path != path then items else ExecOn(items, cs[0].cmd)
  {
    if cs != [] { assert cs[..0] == []; }
  }

  /** Items of a path after the change planned for its resource. */
  function Mended(items: seq<Item>, o: Observed): (r: seq<Item>) {
    match o.status
    case Missing => items + [NewItem(o.desired)]
    case Drifted(_) => SetWhere(items, Identity(o.desired), o.desired.fields)
    case Converged => items
    case Conflict(_) => items
  }

  /** Among resources on distinct paths, only the path's own resource changes it. */
  lemma {:induction false} MainAt(items: seq<Item>, observed: seq<Observed>, i: nat)
    requires i < |observed|
    requires forall j, k :: 0 <= j < k < |observed| ==> observed[j].desired.path != observed[k].desired.path
    ensures ExecPath(items, MainIntents(observed), observed[i].desired.path) == Mended(items, observed[i])
    decreases |observed|
  {
    var k, path := |observed| - 1, observed[i].desired.path;
    MainStep(items, observed, path);
    if i == k {
      MainElsewhere(items, observed[..k], path);
    } else {
      MainAt(items, observed[..k], i);
    }
  }

  /** Some of the filters matches the item. */
  ghost predicate Taken(it: Item, gone: set<Selector>) {
    exists sel :: sel in gone && Matches(it, sel)
  }

  /** The items that none of the filters matches. */
  ghost function Kept(items: seq<Item>, gone: set<Selector>): seq<Item> {
    if items == [] then []
    else
      var before, it := Kept(items[..|items| - 1], gone), items[|items| - 1];
      if Taken(it, gone) then before else before + [it]
  }

  lemma {:induction false} KeptUntaken(items: seq<Item>, gone: set<Selector>)
    requires forall it :: it in items ==> !Taken(it, gone)
    ensures Kept(items, gone) == items
  {
    if items != [] {
      KeptUntaken(items[..|items| - 1], gone);
      assert items == items[..|items| - 1] + [items[|items| - 1]];
    }
  }

  lemma {:induction false} KeptMembers(items: seq<Item>, gone: set<Selector>, it: Item)
    ensures it in Kept(items, gone) <==> it in items && !Taken(it, gone)
  {
    if items != [] {
      KeptMembers(items[..|items| - 1], gone, it);
      assert items == items[..|items| - 1] + [items[|items| - 1]];
    }
  }

  lemma TakenByOneMore(it: Item, gone: set<Selector>, sel: Selector)
    ensures Taken(it, gone + {sel}) <==> Taken(it, gone) || Matches(it, sel)
  {
    if Matches(it, sel) { assert sel in gone + {sel}; }
    if s :| s in gone && Matches(it, s) { assert s in gone + {sel}; }
  }

  lemma {:induction false} RemoveFromKept(items: seq<Item>, gone: set<Selector>, sel: Selector)
    ensures RemoveWhere(Kept(items, gone), sel) == Kept(items, gone + {sel})
  {
    if items != [] {
      var k := |items| - 1;
      RemoveFromKept(items[..k], gone, sel);
      TakenByOneMore(items[k], gone, sel);
      var before := Kept(items[..k], gone);
      assert (before + [items[k]])[..|before|] == before;
    }
  }

  /** The filters by which the removals act on a path. */
  ghost function FiltersAt(removals: seq<Intent>, path: string): set<Selector> {
    set i | i in removals && i.cmd.Remove? && i.cmd.path == path :: i.cmd.sel
  }

  /** Removals leave exactly the items that none of their filters matches. */
  lemma {:induction false} RemovalsKeep(items: seq<Item>, removals: seq<Intent>, path: string)
    requires forall i :: i in removals ==> i.cmd.Remove?
    ensures ExecPath(items, removals, path) == Kept(items, FiltersAt(removals, path))
  {
    if removals == [] {
      KeptUntaken(items, FiltersAt(removals, path));
    } else {
      var k := |removals| - 1;
      var init, r := removals[..k], removals[k];
      assert removals == init + [r];
      RemovalsKeep(items, init, path);
      if r.cmd.path == path {
        RemoveFromKept(items, FiltersAt(init, path), r.cmd.sel);
        assert FiltersAt(removals, path) == FiltersAt(init, path) + {r.cmd.sel};
      } else {
        assert FiltersAt(removals, path) == FiltersAt(init, path);
      }
    }
  }

  // ----- What the change planned for a resource does ------------------------------------------

  /** The names and values of the resource can be printed. */
  predicate Spellable(d: Desired) {
    MenuPath(d.path) && Word(d.idKey) && Quotable(d.idValue) && PrintableArgs(d.fields)
  }

  /** Field names clean, distinct and apart from the identity; a comment-owned resource is found by its
      comment; and all of it can be printed. */
  ghost predicate GoodDesired(d: Desired) {
    && Spellable(d)
    && (forall i :: 0 <= i < |d.fields| ==> CleanField(d.fields[i].0))
    && (forall i, j :: 0 <= i < j < |d.fields| ==> d.fields[i].0 != d.fields[j].0)
    && (forall i :: 0 <= i < |d.fields| ==> d.fields[i].0 != d.idKey)
    && (d.commentOwned ==> d.idKey == "comment")
  }

  ghost predicate GoodDesireds(desired: seq<Desired>) {
    && (forall i :: 0 <= i < |desired| ==> GoodDesired(desired[i]))
    && (forall i, j :: 0 <= i < j < |desired| ==> desired[i].path != desired[j].path)
  }

  lemma {:induction false} WithFieldsProps(it: Item, fields: seq<(string, string)>, i: nat)
    requires i < |fields|
    requires forall j, k :: 0 <= j < k < |fields| ==> fields[j].0 != fields[k].0
    ensures Prop(WithFields(it, fields), fields[i].0) == fields[i].1
    decreases |fields|
  {
    if i < |fields| - 1 { WithFieldsProps(it, fields[..|fields| - 1], i); }
  }

  lemma {:induction false} WithFieldsOthers(it: Item, fields: seq<(string, string)>, key: string)
    requires forall j :: 0 <= j < |fields| ==> fields[j].0 != key
    ensures Prop(WithFields(it, fields), key) == Prop(it, key)
  {
    if fields != [] { WithFieldsOthers(it, fields[..|fields| - 1], key); }
  }

  /** No difference is reported exactly when every desired field has its value. */
  lemma {:induction false} NoDiffs(fields: seq<(string, string)>, keys: seq<string>, it: Item)
    requires forall j :: 0 <= j < |fields| ==> fields[j].0 in keys
    ensures Diffs(fields, RecordOf(keys, it)) == [] <==>
            forall j :: 0 <= j < |fields| ==> Prop(it, fields[j].0) == fields[j].1
  {
    if fields != [] {
      var k := |fields| - 1;
      NoDiffs(fields[..k], keys, it);
      assert fields[k].0 in keys;
      assert forall j :: 0 <= j < k ==> fields[..k][j] == fields[j];
    }
  }

  /** A difference is reported for exactly the fields read with another value than wanted, with both. */
  lemma {:induction false} DiffsMean(fields: seq<(string, string)>, obs: Record, x: FieldDiff)
    ensures x in Diffs(fields, obs) <==>
            && (x.field, x.want) in fields && x.want != x.got
            && x.got == if x.field in obs then obs[x.field] else ""
  {
    if fields != [] {
      var k := |fields| - 1;
      DiffsMean(fields[..k], obs, x);
      assert fields == fields[..k] + [fields[k]];
    }
  }

  /** What is skipped: exactly the ambiguous resources, with how many instances were read. */
  lemma {:induction false} SkipsMean(observed: seq<Observed>, x: Skipped)
    ensures x in Skips(observed) <==>
            exists o :: o in observed && o.status.Conflict?
                        && x == Skipped(o.desired.kind, o.desired.id, o.status.matches)
  {
    if observed != [] {
      var k := |observed| - 1;
      SkipsMean(observed[..k], x);
      assert observed == observed[..k] + [observed[k]];
    }
  }

  /** A pruned item is reported under the kind of the first resource of its path. */
  lemma {:induction false} KindIsFirst(desired: seq<Desired>, i: nat)
    requires i < |desired| && forall j :: 0 <= j < i ==> desired[j].path != desired[i].path
    ensures KindAt(desired, desired[i].path) == desired[i].kind
  {
    if i > 0 { KindIsFirst(desired[1..], i - 1); }
  }

  /** The live instance carries every desired value. */
  ghost predicate Carries(d: Desired, it: Item) {
    forall j :: 0 <= j < |d.fields| ==> Prop(it, d.fields[j].0) == d.fields[j].1
  }

  /** The status the items have, whatever is read of them. */
  ghost function StatusIn(d: Desired, items: seq<Item>): Status {
    Classify(d.fields, Records(Keys(d.fields), Find(items, Identity(d))))
  }

  lemma {:induction false} RecordsLength(fields: seq<string>, items: seq<Item>)
    ensures |Records(fields, items)| == |items|
  {
    if items != [] { RecordsLength(fields, items[1..]); }
  }

  /** What the statuses mean. */
  lemma StatusMeans(d: Desired, items: seq<Item>)
    ensures var found, s := Find(items, Identity(d)), StatusIn(d, items);
            && (s.Missing? <==> found == [])
            && (s.Conflict? <==> |found| > 1) && (s.Conflict? ==> s.matches == |found|)
            && (s.Converged? <==> |found| == 1 && Carries(d, found[0]))
  {
    var found, keys := Find(items, Identity(d)), Keys(d.fields);
    RecordsLength(keys, found);
    if |found| == 1 {
      assert Records(keys, found)[0] == RecordOf(keys, found[0]);
      forall j | 0 <= j < |d.fields| ensures d.fields[j].0 in keys {
        assert keys[j] == d.fields[j].0;
      }
      NoDiffs(d.fields, keys, found[0]);
    }
  }

  lemma FindAppend(items: seq<Item>, it: Item, sel: Selector)
    ensures Find(items + [it], sel) == if Matches(it, sel) then Find(items, sel) + [it] else Find(items, sel)
  {
    assert (items + [it])[..|items|] == items;
  }

  /** Setting fields apart from the identity changes the found items and keeps them found. */
  lemma {:induction false} FindAfterSet(d: Desired, items: seq<Item>)
    requires GoodDesired(d)
    ensures var before, after := Find(items, Identity(d)), Find(SetWhere(items, Identity(d), d.fields), Identity(d));
            && |after| == |before|
            && forall j :: 0 <= j < |before| ==> after[j] == WithFields(before[j], d.fields)
  {
    if items != [] {
      var k := |items| - 1;
      FindAfterSet(d, items[..k]);
      WithFieldsOthers(items[k], d.fields, d.idKey);
      FindAppend(SetWhere(items[..k], Identity(d), d.fields),
                 if Matches(items[k], Identity(d)) then WithFields(items[k], d.fields) else items[k], Identity(d));
    }
  }

  lemma CarriesAfterSet(d: Desired, it: Item)
    requires GoodDesired(d)
    ensures Carries(d, WithFields(it, d.fields))
  {
    forall j | 0 <= j < |d.fields| ensures Prop(WithFields(it, d.fields), d.fields[j].0) == d.fields[j].1 {
      WithFieldsProps(it, d.fields, j);
    }
  }

  // ----- Reading and mending one resource ----------------------------------------------------

  ghost function ReadIn(d: Desired, items: seq<Item>): Status {
    Classify(d.fields, ReadBack(Keys(d.fields), Find(items, Identity(d))))
  }

  /** A resource is read as missing exactly when it is. */
  lemma ReadMissing(d: Desired, items: seq<Item>)
    ensures ReadIn(d, items).Missing? <==> Find(items, Identity(d)) == []
  {
    var found := Find(items, Identity(d));
    if found != [] { ItemIsRead(Keys(d.fields), found[0]); }
  }

  /** The plan can bring the resource to its desired state: at most one instance matches, and if that one is
      off, the reading shows it. */
  ghost predicate Fixable(d: Desired, items: seq<Item>) {
    var found := Find(items, Identity(d));
    |found| == 0 || (|found| == 1 && (Carries(d, found[0]) || ReadIn(d, items).Drifted?))
  }

  /** The change planned from the reading converges the resource if and only if it is fixable. */
  lemma MendedStatus(d: Desired, items: seq<Item>)
    requires GoodDesired(d)
    ensures StatusIn(d, Mended(items, Observed(d, ReadIn(d, items)))).Converged? <==> Fixable(d, items)
  {
    var s := ReadIn(d, items);
    var mended := Mended(items, Observed(d, s));
    ReadMissing(d, items);
    StatusMeans(d, mended);
    match s
    case Missing =>
      WithFieldsOthers(map[d.idKey := d.idValue], d.fields, d.idKey);
      CarriesAfterSet(d, map[d.idKey := d.idValue]);
      FindAppend(items, NewItem(d), Identity(d));
    case Drifted(_) =>
      FindAfterSet(d, items);
      CarriesAfterSet(d, Find(items, Identity(d))[0]);
    case Converged =>
    case Conflict(_) =>
  }

  lemma {:induction false} FindInKept(items: seq<Item>, gone: set<Selector>, sel: Selector)
    ensures Find(Kept(items, gone), sel) == Kept(Find(items, sel), gone)
  {
    if items != [] {
      var k := |items| - 1;
      FindInKept(items[..k], gone, sel);
      FindAppend(Kept(items[..k], gone), items[k], sel);
      KeptAppend(Find(items[..k], sel), items[k], gone);
    }
  }

  lemma KeptAppend(items: seq<Item>, it: Item, gone: set<Selector>)
    ensures Kept(items + [it], gone) == if Taken(it, gone) then Kept(items, gone) else Kept(items, gone) + [it]
  {
    assert (items + [it])[..|items|] == items;
  }

  // ----- The path of one desired resource ------------------------------------------------------

  /** The items of a resource's path after the whole plan. */
  ghost function AfterPlan(d: Desired, items: seq<Item>, gone: set<Selector>): seq<Item> {
    Kept(Mended(items, Observed(d, ReadIn(d, items))), gone)
  }

  /** The instances of a resource before the removals: the one added if there was none, those found with their
      fields set if the reading shows drift, and otherwise those found. */
  ghost function Instances(d: Desired, items: seq<Item>): seq<Item> {
    var found := Find(items, Identity(d));
    if found == [] then [NewItem(d)]
    else if ReadIn(d, items).Drifted? then seq(|found|, i requires 0 <= i < |found| => WithFields(found[i], d.fields))
    else found
  }

  lemma InstancesAfterMending(d: Desired, items: seq<Item>)
    requires GoodDesired(d)
    ensures Find(Mended(items, Observed(d, ReadIn(d, items))), Identity(d)) == Instances(d, items)
  {
    ReadMissing(d, items);
    match ReadIn(d, items)
    case Missing =>
      WithFieldsOthers(map[d.idKey := d.idValue], d.fields, d.idKey);
      FindAppend(items, NewItem(d), Identity(d));
    case Drifted(_) => FindAfterSet(d, items);
    case Converged =>
    case Conflict(_) =>
  }

  /** Of its instances the removals leave exactly one, and that one is as desired. */
  ghost predicate FixedBy(d: Desired, items: seq<Item>, gone: set<Selector>) {
    var left := Kept(Instances(d, items), gone);
    |left| == 1 && Carries(d, left[0])
  }

  lemma FoundAfterPlan(d: Desired, items: seq<Item>, gone: set<Selector>)
    requires GoodDesired(d)
    ensures Find(AfterPlan(d, items, gone), Identity(d)) == Kept(Instances(d, items), gone)
  {
    InstancesAfterMending(d, items);
    FindInKept(Mended(items, Observed(d, ReadIn(d, items))), gone, Identity(d));
  }

  /** After the plan the resource is as desired exactly when one instance is left and that is, whatever the
      values on the router. */
  lemma AfterPlanStatus(d: Desired, items: seq<Item>, gone: set<Selector>)
    requires GoodDesired(d)
    ensures StatusIn(d, AfterPlan(d, items, gone)).Converged? <==> FixedBy(d, items, gone)
  {
    FoundAfterPlan(d, items, gone);
    StatusMeans(d, AfterPlan(d, items, gone));
  }

  /** Removals that take no instance leave the resource as the change planned for it made it. */
  lemma SparedIsFixedIff(d: Desired, items: seq<Item>, gone: set<Selector>)
    requires GoodDesired(d) && forall it :: it in Instances(d, items) ==> !Taken(it, gone)
    ensures FixedBy(d, items, gone) <==> Fixable(d, items)
  {
    KeptUntaken(Instances(d, items), gone);
    InstancesAfterMending(d, items);
    MendedStatus(d, items);
    StatusMeans(d, Mended(items, Observed(d, ReadIn(d, items))));
  }

  lemma InstancesMatch(d: Desired, items: seq<Item>, it: Item)
    requires GoodDesired(d) && it in Instances(d, items)
    ensures Matches(it, Identity(d))
  {
    InstancesAfterMending(d, items);
    FindMembers(Mended(items, Observed(d, ReadIn(d, items))), Identity(d), it);
  }

  lemma {:induction false} FindMembers(items: seq<Item>, sel: Selector, it: Item)
    ensures it in Find(items, sel) <==> it in items && Matches(it, sel)
  {
    if items != [] {
      FindMembers(items[..|items| - 1], sel, it);
      assert items == items[..|items| - 1] + [items[|items| - 1]];
    }
  }

  lemma {:induction false} SetKeepsOthers(d: Desired, items: seq<Item>, it: Item)
    requires GoodDesired(d) && !Matches(it, Identity(d))
    ensures it in SetWhere(items, Identity(d), d.fields) <==> it in items
  {
    if items != [] {
      var k := |items| - 1;
      SetKeepsOthers(d, items[..k], it);
      WithFieldsOthers(items[k], d.fields, d.idKey);
      assert items == items[..k] + [items[k]];
    }
  }

  /** An item that is not an instance is there after the plan exactly when it was before and no removal takes
      it. */
  lemma OthersAfterPlan(d: Desired, items: seq<Item>, gone: set<Selector>, it: Item)
    requires GoodDesired(d) && !Matches(it, Identity(d))
    ensures it in AfterPlan(d, items, gone) <==> it in items && !Taken(it, gone)
  {
    var s := ReadIn(d, items);
    KeptMembers(Mended(items, Observed(d, s)), gone, it);
    if s.Drifted? {
      SetKeepsOthers(d, items, it);
    } else if s.Missing? {
      WithFieldsOthers(map[d.idKey := d.idValue], d.fields, d.idKey);
    }
  }

  /** Items the plan has no business with: not the resource's instance and not tagged on an owned path. */
  predicate Foreign(d: Desired, it: Item) {
    !Matches(it, Identity(d)) && !(d.commentOwned && OWN_PREFIX <= Prop(it, "comment"))
  }

  ghost function Foreigners(d: Desired, items: seq<Item>): seq<Item> {
    if items == [] then []
    else
      var before, it := Foreigners(d, items[..|items| - 1]), items[|items| - 1];
      if Foreign(d, it) then before + [it] else before
  }

  lemma ForeignersAppend(d: Desired, items: seq<Item>, it: Item)
    ensures Foreigners(d, items + [it]) == if Foreign(d, it) then Foreigners(d, items) + [it] else Foreigners(d, items)
  {
    assert (items + [it])[..|items|] == items;
  }

  lemma {:induction false} ForeignersMembers(d: Desired, items: seq<Item>, it: Item)
    ensures it in Foreigners(d, items) <==> it in items && Foreign(d, it)
  {
    if items != [] {
      ForeignersMembers(d, items[..|items| - 1], it);
      assert items == items[..|items| - 1] + [items[|items| - 1]];
    }
  }

  lemma {:induction false} ForeignersAfterSet(d: Desired, items: seq<Item>)
    requires GoodDesired(d)
    ensures Foreigners(d, SetWhere(items, Identity(d), d.fields)) == Foreigners(d, items)
  {
    if items != [] {
      var k := |items| - 1;
      ForeignersAfterSet(d, items[..k]);
      WithFieldsOthers(items[k], d.fields, d.idKey);
      ForeignersAppend(d, SetWhere(items[..k], Identity(d), d.fields),
                       if Matches(items[k], Identity(d)) then WithFields(items[k], d.fields) else items[k]);
    }
  }

  lemma ForeignersMended(d: Desired, items: seq<Item>, s: Status)
    requires GoodDesired(d)
    ensures Foreigners(d, Mended(items, Observed(d, s))) == Foreigners(d, items)
  {
    if s.Drifted? {
      ForeignersAfterSet(d, items);
    } else if s.Missing? {
      WithFieldsOthers(map[d.idKey := d.idValue], d.fields, d.idKey);
      ForeignersAppend(d, items, NewItem(d));
    }
  }

  lemma {:induction false} ForeignersKept(d: Desired, items: seq<Item>, gone: set<Selector>)
    requires forall it :: it in items && Foreign(d, it) ==> !Taken(it, gone)
    ensures Foreigners(d, Kept(items, gone)) == Foreigners(d, items)
  {
    if items != [] {
      var k := |items| - 1;
      assert items == items[..k] + [items[k]];
      ForeignersKept(d, items[..k], gone);
      ForeignersAppend(d, Kept(items[..k], gone), items[k]);
    }
  }

  /** The plan leaves the foreign items alone, same items in the same order, if and only if no removal takes
      one. */
  lemma ForeignersUntouchedIff(d: Desired, items: seq<Item>, gone: set<Selector>)
    requires GoodDesired(d)
    ensures Foreigners(d, AfterPlan(d, items, gone)) == Foreigners(d, items) <==>
            forall it :: it in items && Foreign(d, it) ==> !Taken(it, gone)
  {
    var mended := Mended(items, Observed(d, ReadIn(d, items)));
    ForeignersMended(d, items, ReadIn(d, items));
    forall it ensures it in mended && Foreign(d, it) <==> it in items && Foreign(d, it) {
      ForeignersMembers(d, mended, it);
      ForeignersMembers(d, items, it);
    }
    if forall it :: it in items && Foreign(d, it) ==> !Taken(it, gone) {
      ForeignersKept(d, mended, gone);
    } else {
      var it :| it in items && Foreign(d, it) && Taken(it, gone);
      ForeignersMembers(d, items, it);
      ForeignersMembers(d, AfterPlan(d, items, gone), it);
      KeptMembers(mended, gone, it);
    }
  }
}
