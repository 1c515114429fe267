/** The text meshctl sends to a router (`plan.rs`, `apply.rs`, `routeros.rs`) and what it assumes of the
    console that reads it. Values are put between double quotes and never escaped. */
module RouterConsole {
  import opened Basics
  import opened QueryText
  import opened QueryReading
  import opened RouterConfig

  // ----- Printing --------------------------------------------------------------------------

  function ArgText(key: string, value: string): (s: string) {
    key + "=" + Quoted(value)
  }

  function SelectorText(sel: Selector): (s: string) {
    match sel
    case Equals(k, v) => ArgText(k, v)
    case Prefixed(k, t) => k + "~" + Quoted("^" + t)
    case AnyOf(a, b) => SelectorText(a) + " or " + SelectorText(b)
  }

  function ArgsText(fields: seq<(string, string)>): (s: string) {
    if fields == [] then ""
    else if |fields| == 1 then ArgText(fields[0].0, fields[0].1)
    else ArgText(fields[0].0, fields[0].1) + " " + ArgsText(fields[1..])
  }

  function FindWhere(sel: Selector): (s: string) {
    "[find where " + SelectorText(sel) + "]"
  }

  function Verb(c: Command): (s: string) {
    match c
    case Add(_, _) => "/add"
    case Set(_, _, _) => "/set"
    case Remove(_, _) => "/remove"
  }

  function Arguments(c: Command): (s: string) {
    match c
    case Add(_, fields) => ArgsText(fields)
    case Set(_, sel, fields) => FindWhere(sel) + " " + ArgsText(fields)
    case Remove(_, sel) => FindWhere(sel)
  }

  function CommandText(c: Command): (s: string) {
    c.path + Verb(c) + " " + Arguments(c)
  }

  const PRINT_END := " :put " + Quoted(END_MARKER)
  const PUT_END := ";" + PRINT_END

  /** A command is sent with the sentinel behind it. */
  function CommandScript(cmd: string): (s: string) {
    cmd + PUT_END
  }

  datatype Request = Request(path: string, sel: Selector, fields: seq<string>)

  function QueryScript(q: Request): (s: string) {
    ScriptText(q.path, Some(SelectorText(q.sel)), Expression(q.fields))
  }

  /** The texts sent, spelled out. */
  lemma TextsSent(path: string, k: string, v: string, f: string, w: string)
    ensures CommandText(Add(path, [(k, v), (f, w)])) ==
            path + "/add" + " " + (k + "=" + ("\"" + v + "\"") + " " + (f + "=" + ("\"" + w + "\"")))
    ensures CommandText(Set(path, Equals(k, v), [(f, w)])) ==
            path + "/set" + " " + ("[find where " + (k + "=" + ("\"" + v + "\"")) + "]" + " "
                                   + (f + "=" + ("\"" + w + "\"")))
    ensures CommandText(Remove(path, Equals(k, v))) ==
            path + "/remove" + " " + ("[find where " + (k + "=" + ("\"" + v + "\"")) + "]")
    ensures CommandScript(v) == v + (";" + (" :put " + ("\"" + "MCTL-END" + "\"")))
    ensures SelectorText(Prefixed(k, v)) == k + "~" + ("\"" + ("^" + v) + "\"")
  {
    var both := [(k, v), (f, w)];
    assert both[1..] == [(f, w)] && ArgsText([(f, w)]) == ArgText(f, w);
    assert ArgsText(both) == ArgText(k, v) + " " + ArgsText(both[1..]);
  }

  // ----- Texts that say what they mean ----------------------------------------------------------

  predicate WordChar(c: char) {
    'a' <= c <= 'z' || '0' <= c <= '9' || c == '-'
  }

  predicate Word(s: string) {
    forall i :: 0 <= i < |s| ==> WordChar(s[i])
  }

  predicate MenuPath(s: string) {
    s != "" && s[0] == '/' && forall i :: 0 <= i < |s| ==> WordChar(s[i]) || s[i] == '/'
  }

  const QUOTE := '\U{22}'
  const BACKSLASH := '\U{5C}'

  /** Stands for itself between double quotes: nothing that ends the literal, escapes or interpolates. */
  predicate Quotable(v: string) {
    QUOTE !in v && BACKSLASH !in v && '$' !in v
  }

  predicate PrintableSelector(sel: Selector) {
    match sel
    case Equals(k, v) => Word(k) && Quotable(v)
    case Prefixed(k, t) => Word(k) && Word(t)
    case AnyOf(a, b) => !a.AnyOf? && PrintableSelector(a) && PrintableSelector(b)
  }

  predicate PrintableArgs(fields: seq<(string, string)>) {
    forall i :: 0 <= i < |fields| ==> Word(fields[i].0) && Quotable(fields[i].1)
  }

  predicate Printable(c: Command) {
    && MenuPath(c.path)
    && (c.Add? || PrintableSelector(c.sel))
    && (c.Remove? || PrintableArgs(c.fields))
  }

  predicate PrintableRequest(q: Request) {
    MenuPath(q.path) && PrintableSelector(q.sel) && forall i :: 0 <= i < |q.fields| ==> Word(q.fields[i])
  }

  // ----- Printed texts determine what was printed ----------------------------------------------

  lemma SamePrefix(p: string, x: string, y: string)
    requires p + x == p + y
    ensures x == y
  {
    assert (p + x)[|p|..] == x && (p + y)[|p|..] == y;
  }

  lemma WordsHaveNo(s: string, c: char)
    requires Word(s) && !WordChar(c)
    ensures c !in s
  {
  }

  /** What stands before the literal of a single test, and the literal. */
  function Head(t: Selector): (s: string)
    requires !t.AnyOf?
  {
    if t.Equals? then t.key + "=" else t.key + "~"
  }

  function Literal(t: Selector): (s: string)
    requires !t.AnyOf?
  {
    if t.Equals? then t.value else "^" + t.text
  }

  lemma TestShape(t: Selector, x: string)
    requires !t.AnyOf?
    ensures SelectorText(t) + x == Head(t) + "\"" + (Literal(t) + "\"" + x)
    ensures PrintableSelector(t) ==> QUOTE !in Head(t) && QUOTE !in Literal(t)
    ensures Word(t.key) ==> QUOTE !in Head(t)
  {
    if Word(t.key) { WordsHaveNo(t.key, QUOTE); }
    if t.Prefixed? && Word(t.text) { WordsHaveNo(t.text, QUOTE); }
    Assoc(Head(t), "\"", Literal(t) + "\"");
    Assoc(Head(t) + "\"", Literal(t) + "\"", x);
    Assoc("\"", Literal(t), "\"");
  }

  lemma HeadsDetermine(t: Selector, u: Selector)
    requires !t.AnyOf? && !u.AnyOf? && Head(t) == Head(u)
    ensures t.key == u.key && (t.Equals? <==> u.Equals?)
  {
    var h, k := Head(t), Head(u);
    assert h[..|h| - 1] == t.key && k[..|k| - 1] == u.key;
    assert h[|h| - 1] == if t.Equals? then '=' else '~';
    assert k[|k| - 1] == if u.Equals? then '=' else '~';
  }

  lemma TestDetermined(t: Selector, x: string, u: Selector, y: string)
    requires !t.AnyOf? && !u.AnyOf? && PrintableSelector(t) && PrintableSelector(u)
    requires SelectorText(t) + x == SelectorText(u) + y
    ensures t == u && x == y
  {
    TestShape(t, x);
    TestShape(u, y);
    SplitsUniquely(Head(t), Literal(t) + "\"" + x, Head(u), Literal(u) + "\"" + y, QUOTE);
    SplitsUniquely(Literal(t), x, Literal(u), y, QUOTE);
    HeadsDetermine(t, u);
    if t.Prefixed? { SamePrefix("^", t.text, u.text); }
  }

  lemma AnyOfShape(sel: Selector, x: string)
    requires sel.AnyOf?
    ensures SelectorText(sel) + x == SelectorText(sel.first) + (" or " + (SelectorText(sel.rest) + x))
  {
    var a, b := SelectorText(sel.first), SelectorText(sel.rest);
    Assoc(a, " or ", b);
    Assoc(a, " or " + b, x);
    Assoc(" or ", b, x);
  }

  /** A printed filter, up to its closing bracket, determines the filter. */
  lemma {:induction false} SelectorDetermined(s: Selector, x: string, t: Selector, y: string)
    requires PrintableSelector(s) && PrintableSelector(t)
    requires SelectorText(s) + ("]" + x) == SelectorText(t) + ("]" + y)
    ensures s == t && x == y
  {
    var sx, ty := "]" + x, "]" + y;
    if s.AnyOf? {
      AnyOfShape(s, sx);
      sx := " or " + (SelectorText(s.rest) + sx);
    }
    if t.AnyOf? {
      AnyOfShape(t, ty);
      ty := " or " + (SelectorText(t.rest) + ty);
    }
    TestDetermined(if s.AnyOf? then s.first else s, sx, if t.AnyOf? then t.first else t, ty);
    assert sx[0] == if s.AnyOf? then ' ' else ']';
    assert ty[0] == if t.AnyOf? then ' ' else ']';
    if s.AnyOf? {
      SamePrefix(" or ", SelectorText(s.rest) + ("]" + x), SelectorText(t.rest) + ("]" + y));
      SelectorDetermined(s.rest, x, t.rest, y);
    } else {
      SamePrefix("]", x, y);
    }
  }

  /** What follows the first argument. */
  function ArgsAfter(fields: seq<(string, string)>, x: string): (s: string)
    requires fields != []
  {
    if |fields| == 1 then x else " " + (ArgsText(fields[1..]) + x)
  }

  lemma ArgsShape(fields: seq<(string, string)>, x: string)
    requires fields != []
    ensures ArgsText(fields) + x == SelectorText(Equals(fields[0].0, fields[0].1)) + ArgsAfter(fields, x)
  {
    if |fields| > 1 {
      var a, b := ArgText(fields[0].0, fields[0].1), ArgsText(fields[1..]);
      Assoc(a, " ", b);
      Assoc(a, " " + b, x);
      Assoc(" ", b, x);
    }
  }

  lemma ArgsStart(fields: seq<(string, string)>, x: string)
    requires fields != [] && PrintableArgs(fields)
    ensures ArgsText(fields) + x != "" && (ArgsText(fields) + x)[0] != ';'
  {
    ArgsShape(fields, x);
    var k, s := fields[0].0, ArgsText(fields) + x;
    assert Word(k);
    assert s[0] == if k == "" then '=' else k[0];
  }

  lemma {:induction false} ArgsDetermined(f: seq<(string, string)>, x: string, g: seq<(string, string)>, y: string)
    requires PrintableArgs(f) && PrintableArgs(g)
    requires ArgsText(f) + (";" + x) == ArgsText(g) + (";" + y)
    ensures f == g
  {
    if f == [] || g == [] {
      if f != [] { ArgsStart(f, ";" + x); }
      if g != [] { ArgsStart(g, ";" + y); }
      assert f == [] ==> (ArgsText(f) + (";" + x))[0] == ';';
      assert g == [] ==> (ArgsText(g) + (";" + y))[0] == ';';
    } else {
      ArgsShape(f, ";" + x);
      ArgsShape(g, ";" + y);
      assert Word(f[0].0) && Word(g[0].0);
      var fx, gy := ArgsAfter(f, ";" + x), ArgsAfter(g, ";" + y);
      TestDetermined(Equals(f[0].0, f[0].1), fx, Equals(g[0].0, g[0].1), gy);
      assert fx[0] == if |f| == 1 then ';' else ' ';
      assert gy[0] == if |g| == 1 then ';' else ' ';
      assert f == [f[0]] + f[1..] && g == [g[0]] + g[1..];
      if |f| > 1 {
        SamePrefix(" ", ArgsText(f[1..]) + (";" + x), ArgsText(g[1..]) + (";" + y));
        ArgsDetermined(f[1..], x, g[1..], y);
      }
    }
  }

  /** Up to the first space, a text names the menu and the verb. */
  lemma PathAndVerbDetermined(c: Command, x: string, d: Command, y: string)
    requires MenuPath(c.path) && MenuPath(d.path)
    requires CommandText(c) + x == CommandText(d) + y
    ensures c.path == d.path && (c.Add? <==> d.Add?) && (c.Set? <==> d.Set?)
    ensures Arguments(c) + x == Arguments(d) + y
  {
    var p, q := c.path + Verb(c), d.path + Verb(d);
    assert ' ' !in p && ' ' !in q;
    Assoc(p + " ", Arguments(c), x);
    Assoc(q + " ", Arguments(d), y);
    SplitsUniquely(p, Arguments(c) + x, q, Arguments(d) + y, ' ');
    assert p[|p| - 1] == (match c case Add(_, _) => 'd' case Set(_, _, _) => 't' case Remove(_, _) => 'e');
    assert q[|q| - 1] == (match d case Add(_, _) => 'd' case Set(_, _, _) => 't' case Remove(_, _) => 'e');
    assert |Verb(c)| == |Verb(d)|;
    assert p[..|c.path|] == c.path && q[..|d.path|] == d.path;
  }

  lemma FindWhereShape(sel: Selector, x: string)
    ensures FindWhere(sel) + x == "[find where " + (SelectorText(sel) + ("]" + x))
  {
    Assoc("[find where " + SelectorText(sel), "]", x);
    Assoc("[find where ", SelectorText(sel), "]" + x);
  }

  lemma FindWhereDetermined(s: Selector, x: string, t: Selector, y: string)
    requires PrintableSelector(s) && PrintableSelector(t) && FindWhere(s) + x == FindWhere(t) + y
    ensures s == t && x == y
  {
    FindWhereShape(s, x);
    FindWhereShape(t, y);
    SamePrefix("[find where ", SelectorText(s) + ("]" + x), SelectorText(t) + ("]" + y));
    SelectorDetermined(s, x, t, y);
  }

  /** Printable commands that print alike are alike. */
  lemma CommandDetermined(c: Command, d: Command)
    requires Printable(c) && Printable(d) && CommandScript(CommandText(c)) == CommandScript(CommandText(d))
    ensures c == d
  {
    PathAndVerbDetermined(c, PUT_END, d, PUT_END);
    match c
    case Add(_, f) => ArgsDetermined(f, PRINT_END, d.fields, PRINT_END);
    case Set(_, s, f) => SetDetermined(s, f, d.sel, d.fields, PRINT_END);
    case Remove(_, s) => FindWhereDetermined(s, PUT_END, d.sel, PUT_END);
  }

  lemma SetDetermined(
    s: Selector, f: seq<(string, string)>, t: Selector, g: seq<(string, string)>, end: string)
    requires PrintableSelector(s) && PrintableSelector(t) && PrintableArgs(f) && PrintableArgs(g)
    requires FindWhere(s) + " " + ArgsText(f) + (";" + end) == FindWhere(t) + " " + ArgsText(g) + (";" + end)
    ensures s == t && f == g
  {
    SetShape(s, f, ";" + end);
    SetShape(t, g, ";" + end);
    var x, y := ArgsText(f) + (";" + end), ArgsText(g) + (";" + end);
    FindWhereDetermined(s, " " + x, t, " " + y);
    SamePrefix(" ", x, y);
    ArgsDetermined(f, end, g, end);
  }

  lemma SetShape(s: Selector, f: seq<(string, string)>, x: string)
    ensures FindWhere(s) + " " + ArgsText(f) + x == FindWhere(s) + (" " + (ArgsText(f) + x))
  {
    Assoc(FindWhere(s) + " ", ArgsText(f), x);
    Assoc(FindWhere(s), " ", ArgsText(f) + x);
  }

  // ----- Printed queries determine what was asked ------------------------------------------------

  /** The text of the printed fields, from the front. */
  function FieldList(path: string, fields: seq<string>, first: bool): (s: string) {
    if fields == [] then ""
    else Joiner(first) + (FieldText(path, fields[0]) + FieldList(path, fields[1..], false))
  }

  ghost predicate ListAppends(path: string, fields: seq<string>, first: bool, f: string) {
    FieldList(path, fields + [f], first) ==
    FieldList(path, fields, first) + Joiner(first && fields == []) + FieldText(path, f)
  }

  lemma FieldListCons(path: string, g: string, rest: seq<string>, first: bool)
    ensures FieldList(path, [g] + rest, first) == Joiner(first) + (FieldText(path, g) + FieldList(path, rest, false))
  {
    assert ([g] + rest)[1..] == rest;
  }

  lemma ListAppendsCons(path: string, g: string, rest: seq<string>, first: bool, f: string)
    requires ListAppends(path, rest, false, f)
    ensures ListAppends(path, [g] + rest, first, f)
  {
    assert [g] + rest + [f] == [g] + (rest + [f]);
    FieldListCons(path, g, rest, first);
    FieldListCons(path, g, rest + [f], first);
    var j, t, l, e := Joiner(first), FieldText(path, g), FieldList(path, rest, false), FieldText(path, f);
    Assoc(t, l, Joiner(false));
    Assoc(t, l + Joiner(false), e);
    Assoc(j, t + l, Joiner(false));
    Assoc(j, t + l + Joiner(false), e);
  }

  lemma {:induction false} FieldListSnoc(path: string, fields: seq<string>, first: bool, f: string)
    ensures ListAppends(path, fields, first, f)
  {
    if fields == [] {
      assert [] + [f] == [f] && [f][1..] == [];
      assert FieldText(path, f) + "" == FieldText(path, f) && "" + Joiner(first) == Joiner(first);
    } else {
      FieldListSnoc(path, fields[1..], false, f);
      ListAppendsCons(path, fields[0], fields[1..], first, f);
      assert fields == [fields[0]] + fields[1..];
    }
  }

  ghost predicate ListedFromFront(path: string, fields: seq<string>) {
    FieldsText(path, fields) == Quoted(REC_PREFIX) + FieldList(path, fields, true)
  }

  lemma FieldsTextSnoc(path: string, init: seq<string>, f: string)
    requires ListedFromFront(path, init)
    ensures ListedFromFront(path, init + [f])
  {
    assert (init + [f])[..|init|] == init;
    FieldListSnoc(path, init, true, f);
    var q, l, j, t := Quoted(REC_PREFIX), FieldList(path, init, true), Joiner(init == []), FieldText(path, f);
    Assoc(q, l, j);
    Assoc(q, l + j, t);
  }

  lemma {:induction false} FieldsFromFront(path: string, fields: seq<string>)
    ensures ListedFromFront(path, fields)
  {
    if fields != [] {
      var k := |fields| - 1;
      FieldsFromFront(path, fields[..k]);
      FieldsTextSnoc(path, fields[..k], fields[k]);
      SnocForm(fields);
    }
  }

  lemma FieldDetermined(path: string, f: string, x: string, g: string, y: string)
    requires Word(f) && Word(g) && FieldText(path, f) + x == FieldText(path, g) + y
    ensures f == g && x == y
  {
    FieldShape(path, f, x);
    FieldShape(path, g, y);
    var fx := " . " + ("[:tostr [" + path + "/get $i " + f + "]]") + x;
    var gy := " . " + ("[:tostr [" + path + "/get $i " + g + "]]") + y;
    SamePrefix("\"", f + "=" + "\"" + fx, g + "=" + "\"" + gy);
    WordsHaveNo(f, QUOTE);
    WordsHaveNo(g, QUOTE);
    SplitsUniquely(f + "=", fx, g + "=", gy, QUOTE);
    assert (f + "=")[..|f|] == f && (g + "=")[..|g|] == g;
    SamePrefix(FieldText(path, f), x, y);
  }

  lemma FieldShape(path: string, f: string, x: string)
    ensures FieldText(path, f) + x ==
            "\"" + (f + "=" + "\"" + (" . " + ("[:tostr [" + path + "/get $i " + f + "]]") + x))
  {
    var key, get := f + "=", "[:tostr [" + path + "/get $i " + f + "]]";
    Assoc("\"", key, "\"");
    Assoc("\"" + (key + "\""), " . ", get);
    Assoc("\"" + (key + "\""), " . " + get, x);
    Assoc("\"", key + "\"", " . " + get + x);
  }

  lemma {:induction false} FieldListDetermined(
    path: string, f: seq<string>, g: seq<string>, first: bool, x: string)
    requires (forall i :: 0 <= i < |f| ==> Word(f[i])) && (forall i :: 0 <= i < |g| ==> Word(g[i]))
    requires x != "" && x[0] == ')' && FieldList(path, f, first) + x == FieldList(path, g, first) + x
    ensures f == g
  {
    assert "" + x == x;
    if f != [] { assert (FieldList(path, f, first) + x)[0] == ' '; }
    if g != [] { assert (FieldList(path, g, first) + x)[0] == ' '; }
    if f != [] && g != [] {
      var fx, gx := FieldList(path, f[1..], false), FieldList(path, g[1..], false);
      Assoc(Joiner(first), FieldText(path, f[0]) + fx, x);
      Assoc(Joiner(first), FieldText(path, g[0]) + gx, x);
      SamePrefix(Joiner(first), FieldText(path, f[0]) + fx + x, FieldText(path, g[0]) + gx + x);
      Assoc(FieldText(path, f[0]), fx, x);
      Assoc(FieldText(path, g[0]), gx, x);
      FieldDetermined(path, f[0], fx + x, g[0], gx + x);
      FieldListDetermined(path, f[1..], g[1..], false, x);
      assert f == [f[0]] + f[1..] && g == [g[0]] + g[1..];
    }
  }

  const AFTER_FIELDS := ")}; :put " + Quoted(END_MARKER)

  function AfterFilter(q: Request): (s: string) {
    " do={:put (" + (ExpressionText(q.path, Expression(q.fields)) + AFTER_FIELDS)
  }

  lemma QueryShape(q: Request)
    ensures QueryScript(q) ==
            ":foreach i in=[" + (q.path + "/find" + " " + ("where " + (SelectorText(q.sel) + ("]" + AfterFilter(q)))))
  {
    var expr, sel := ExpressionText(q.path, Expression(q.fields)), SelectorText(q.sel);
    LoopShape(q.path, sel, expr);
  }

  lemma LoopShape(path: string, sel: string, expr: string)
    ensures Loop(FindText(path, Some(sel)), expr) ==
            ":foreach i in=[" +
            (path + "/find" + " " + ("where " + (sel + ("]" + (" do={:put (" + (expr + AFTER_FIELDS))))))
  {
    var body := " do={:put (" + (expr + AFTER_FIELDS);
    assert Loop(FindText(path, Some(sel)), expr) == ":foreach i in=" + FindText(path, Some(sel)) + body;
    assert FindText(path, Some(sel)) + body == "[" + (path + "/find" + " " + ("where " + (sel + ("]" + body))));
  }

  lemma PathDetermined(p: string, x: string, q: string, y: string)
    requires MenuPath(p) && MenuPath(q) && p + "/find" + " " + ("where " + x) == q + "/find" + " " + ("where " + y)
    ensures p == q && x == y
  {
    assert ' ' !in p + "/find" && ' ' !in q + "/find";
    SplitsUniquely(p + "/find", "where " + x, q + "/find", "where " + y, ' ');
    assert (p + "/find")[..|p|] == p && (q + "/find")[..|q|] == q;
    SamePrefix("where ", x, y);
  }

  /** A printable query's script determines the query. */
  lemma RequestDetermined(q: Request, r: Request)
    requires PrintableRequest(q) && PrintableRequest(r) && QueryScript(q) == QueryScript(r)
    ensures q == r
  {
    QueryShape(q);
    QueryShape(r);
    FilterDetermined(q, AfterFilter(q), r, AfterFilter(r));
    FieldsDetermined(q, r);
  }

  lemma FilterDetermined(q: Request, x: string, r: Request, y: string)
    requires PrintableRequest(q) && PrintableRequest(r)
    requires ":foreach i in=[" + (q.path + "/find" + " " + ("where " + (SelectorText(q.sel) + ("]" + x)))) ==
             ":foreach i in=[" + (r.path + "/find" + " " + ("where " + (SelectorText(r.sel) + ("]" + y))))
    ensures q.path == r.path && q.sel == r.sel && x == y
  {
    var qs, rs := SelectorText(q.sel) + ("]" + x), SelectorText(r.sel) + ("]" + y);
    SamePrefix(":foreach i in=[", q.path + "/find" + " " + ("where " + qs), r.path + "/find" + " " + ("where " + rs));
    PathDetermined(q.path, qs, r.path, rs);
    SelectorDetermined(q.sel, x, r.sel, y);
  }

  lemma FieldsDetermined(q: Request, r: Request)
    requires PrintableRequest(q) && PrintableRequest(r) && q.path == r.path && AfterFilter(q) == AfterFilter(r)
    ensures q.fields == r.fields
  {
    var x, y := ExpressionText(q.path, Expression(q.fields)), ExpressionText(r.path, Expression(r.fields));
    SamePrefix(" do={:put (", x + AFTER_FIELDS, y + AFTER_FIELDS);
    FieldsTextIsExpression(q.path, q.fields);
    FieldsTextIsExpression(r.path, r.fields);
    FieldsFromFront(q.path, q.fields);
    FieldsFromFront(r.path, r.fields);
    var f, g := FieldList(q.path, q.fields, true), FieldList(r.path, r.fields, true);
    Assoc(Quoted(REC_PREFIX), f, AFTER_FIELDS);
    Assoc(Quoted(REC_PREFIX), g, AFTER_FIELDS);
    SamePrefix(Quoted(REC_PREFIX), f + AFTER_FIELDS, g + AFTER_FIELDS);
    FieldListDetermined(q.path, q.fields, r.fields, true, AFTER_FIELDS);
  }

  // ----- The console -----------------------------------------------------------------------

  /** What running a script leaves and prints. */
  datatype Reply = Reply(menus: Menus, stdout: string)

  type Console = (Menus, string) -> Reply

  /** The printed query is answered: the items found are printed, then the sentinel, and nothing changes. */
  ghost predicate Answers(os: Console, m: Menus, q: Request) {
    os(m, QueryScript(q)) == Reply(m, Output(q.fields, Transcript(Find(ItemsAt(m, q.path), q.sel))))
  }

  /** The printed command does what is meant and the sentinel is printed. */
  ghost predicate Executes(os: Console, m: Menus, c: Command) {
    var r := os(m, CommandScript(CommandText(c)));
    r.menus == Exec(m, c) && Completed(Lines(r.stdout))
  }

  /** Nothing changes and the sentinel is missing. */
  ghost predicate Refuses(os: Console, cmd: string) {
    forall m :: os(m, CommandScript(cmd)).menus == m && !Completed(Lines(os(m, CommandScript(cmd)).stdout))
  }

  /** All that is assumed of RouterOS: it reads printable queries and commands as they stand. Any other text
      may do anything. */
  ghost predicate Obeys(os: Console) {
    && (forall m, q :: PrintableRequest(q) ==> Answers(os, m, q))
    && (forall m, c :: Printable(c) ==> Executes(os, m, c))
  }

  ghost predicate IsQuery(q: Request, script: string) {
    PrintableRequest(q) && QueryScript(q) == script
  }

  ghost predicate IsCommand(c: Command, script: string) {
    Printable(c) && CommandScript(CommandText(c)) == script
  }

  /** The script is a printable query or command. */
  ghost predicate Understood(script: string) {
    (exists q :: IsQuery(q, script)) || (exists c :: IsCommand(c, script))
  }

  ghost function Answer(rest: Console, m: Menus, script: string): Reply {
    if exists q :: IsQuery(q, script) then
      var q :| IsQuery(q, script);
      Reply(m, Output(q.fields, Transcript(Find(ItemsAt(m, q.path), q.sel))))
    else if exists c :: IsCommand(c, script) then
      var c :| IsCommand(c, script);
      Reply(Exec(m, c), END_MARKER + "\r\n")
    else rest(m, script)
  }

  lemma ScriptsDiffer(q: Request, c: Command)
    requires MenuPath(c.path)
    ensures QueryScript(q) != CommandScript(CommandText(c))
  {
    QueryShape(q);
    assert QueryScript(q)[0] == ':';
    assert CommandScript(CommandText(c))[0] == c.path[0] == '/';
  }

  lemma SentinelCompletes()
    ensures Completed(Lines(END_MARKER + "\r\n")) && !Completed(Lines(""))
  {
    EndLine([]);
    assert Output([], Transcript([])) == END_MARKER + "\r\n" by {
      assert Transcript([])[1..] == [] && END_MARKER + "\r\n" + "" == END_MARKER + "\r\n";
    }
    assert IsEnd([END_MARKER][0]);
  }

  lemma AnswersRequest(rest: Console, m: Menus, q: Request)
    requires PrintableRequest(q)
    ensures Answer(rest, m, QueryScript(q)) == Reply(m, Output(q.fields, Transcript(Find(ItemsAt(m, q.path), q.sel))))
  {
    assert IsQuery(q, QueryScript(q));
    forall r | IsQuery(r, QueryScript(q)) ensures r == q {
      RequestDetermined(r, q);
    }
  }

  lemma AnswersCommand(rest: Console, m: Menus, c: Command)
    requires Printable(c)
    ensures Answer(rest, m, CommandScript(CommandText(c))) == Reply(Exec(m, c), END_MARKER + "\r\n")
  {
    var script := CommandScript(CommandText(c));
    assert IsCommand(c, script);
    forall q ensures !IsQuery(q, script) {
      ScriptsDiffer(q, c);
    }
    forall d | IsCommand(d, script) ensures d == c {
      CommandDetermined(d, c);
    }
  }

  /** Such consoles exist, whatever they do with all other texts. */
  lemma ConsoleExists(rest: Console) returns (os: Console)
    ensures Obeys(os) && forall m, script :: !Understood(script) ==> os(m, script) == rest(m, script)
  {
    os := (m, script) => Answer(rest, m, script);
    forall m, q | PrintableRequest(q) ensures Answers(os, m, q) {
      AnswersRequest(rest, m, q);
    }
    forall m, c | Printable(c) ensures Executes(os, m, c) {
      AnswersCommand(rest, m, c);
      SentinelCompletes();
    }
  }

  // ----- Removals by comment -----------------------------------------------------------------

  /** The removal of a leftover, by the comment read. */
  function Removal(path: string, comment: string): (c: Command) {
    Remove(path, Equals("comment", comment))
  }

  lemma CommentIsWord()
    ensures Word("comment")
  {
  }

  /** The removal of the comment prints like the removal of what the filter matches. */
  ghost predicate Says(c: string, sel: Selector) {
    PrintableSelector(sel) && SelectorText(sel) == SelectorText(Equals("comment", c))
  }

  ghost predicate SaysSomething(c: string) {
    exists sel :: Says(c, sel)
  }

  /** The filter that the removal of the comment says. */
  ghost function Said(c: string): (sel: Selector)
    requires SaysSomething(c)
    ensures Says(c, sel)
  {
    var sel :| Says(c, sel);
    sel
  }

  /** A removal says at most one filter. */
  lemma SaidIsUnique(c: string, sel: Selector)
    requires Says(c, sel)
    ensures SaysSomething(c) && Said(c) == sel
  {
    SelectorDetermined(Said(c), "", sel, "");
  }

  lemma {:induction false} EndsInQuote(sel: Selector)
    ensures SelectorText(sel) != "" && SelectorText(sel)[|SelectorText(sel)| - 1] == QUOTE
  {
    if sel.AnyOf? { EndsInQuote(sel.rest); }
  }

  /** The comment that smuggles a filter behind `v`. */
  function Smuggling(v: string, sel: Selector): (c: string) {
    var s := SelectorText(sel);
    EndsInQuote(sel);
    v + "\" or " + s[..|s| - 1]
  }

  /** Two filters, one text: any filter can be smuggled behind a comment. */
  lemma SmuggledFilter(v: string, sel: Selector)
    ensures SelectorText(Equals("comment", Smuggling(v, sel))) == SelectorText(AnyOf(Equals("comment", v), sel))
    ensures !Quotable(Smuggling(v, sel))
  {
    var s := SelectorText(sel);
    EndsInQuote(sel);
    var init, c := s[..|s| - 1], Smuggling(v, sel);
    assert c[|v|] == QUOTE;
    assert s == init + "\"" && c == v + "\" or " + init;
    assert Quoted(c) == Quoted(v) + " or " + s;
    Assoc("comment" + "=", Quoted(v), " or ");
    Assoc("comment" + "=", Quoted(v) + " or ", s);
  }

  lemma SameSuffix(x: string, y: string, p: string)
    requires x + p == y + p
    ensures x == y
  {
    assert (x + p)[..|x + p| - |p|] == x && (y + p)[..|y + p| - |p|] == y;
  }

  lemma CommentTextDetermined(c: string, d: string)
    requires SelectorText(Equals("comment", c)) == SelectorText(Equals("comment", d))
    ensures c == d
  {
    SamePrefix("comment" + "=", Quoted(c), Quoted(d));
    assert Quoted(c)[1..|c| + 1] == c && Quoted(d)[1..|d| + 1] == d;
  }

  /** A text that starts with a test and prints like a test of the comment starts with one of the comment. */
  lemma FirstTestIsComment(c: string, t: Selector, y: string)
    requires !t.AnyOf? && PrintableSelector(t) && SelectorText(t) + y == SelectorText(Equals("comment", c))
    ensures t.Equals? && t.key == "comment" && (y == "" ==> t.value == c)
  {
    var e := Equals("comment", c);
    TestShape(e, "");
    TestShape(t, y);
    CommentIsWord();
    assert SelectorText(e) + "" == SelectorText(e);
    SplitsUniquely(Head(e), c + "\"" + "", Head(t), Literal(t) + "\"" + y, QUOTE);
    HeadsDetermine(e, t);
    if y == "" {
      Assoc(c, "\"", "");
      Assoc(t.value, "\"", "");
      SameSuffix(c, t.value, "\"" + "");
    }
  }

  /** What a removal says: a quotable comment itself, or the filter smuggled behind its first quotable part. */
  lemma SaysIff(c: string, sel: Selector)
    ensures Says(c, sel) <==>
            && PrintableSelector(sel)
            && (|| sel == Equals("comment", c)
                || (&& sel.AnyOf? && sel.first.Equals? && sel.first.key == "comment"
                    && c == Smuggling(sel.first.value, sel.rest)))
  {
    if Says(c, sel) {
      if sel.AnyOf? {
        AnyOfShape(sel, "");
        assert SelectorText(sel) + "" == SelectorText(sel);
        FirstTestIsComment(c, sel.first, " or " + (SelectorText(sel.rest) + ""));
        SmuggledFilter(sel.first.value, sel.rest);
        CommentTextDetermined(c, Smuggling(sel.first.value, sel.rest));
      } else {
        assert SelectorText(sel) + "" == SelectorText(sel);
        FirstTestIsComment(c, sel, "");
      }
    } else if PrintableSelector(sel) && sel.AnyOf? && sel.first.Equals? && sel.first.key == "comment" {
      SmuggledFilter(sel.first.value, sel.rest);
    }
  }

  lemma QuotableSaysItself(c: string)
    requires Quotable(c)
    ensures SaysSomething(c) && Said(c) == Equals("comment", c)
  {
    CommentIsWord();
    assert Says(c, Equals("comment", c));
    SaidIsUnique(c, Equals("comment", c));
  }

  /** The command a text says, if it is that of a printable command. */
  ghost function Meaning(cmd: string): Option<Command> {
    if exists c :: IsCommand(c, CommandScript(cmd)) then
      var c :| IsCommand(c, CommandScript(cmd));
      Some(c)
    else None
  }

  lemma MeansItself(c: Command)
    requires Printable(c)
    ensures Meaning(CommandText(c)) == Some(c)
  {
    assert IsCommand(c, CommandScript(CommandText(c)));
    forall d | IsCommand(d, CommandScript(CommandText(c))) ensures d == c {
      CommandDetermined(d, c);
    }
  }

  /** A printable command that prints like a removal by comment is the removal of what that says. */
  lemma SharedRemoval(path: string, c: string, d: Command)
    requires MenuPath(path) && IsCommand(d, CommandScript(CommandText(Removal(path, c))))
    ensures d.Remove? && d.path == path && Says(c, d.sel)
  {
    var e := Removal(path, c);
    PathAndVerbDetermined(e, PUT_END, d, PUT_END);
    FindWhereShape(e.sel, PUT_END);
    FindWhereShape(d.sel, PUT_END);
    SamePrefix("[find where ", SelectorText(e.sel) + ("]" + PUT_END), SelectorText(d.sel) + ("]" + PUT_END));
    SameSuffix(SelectorText(e.sel), SelectorText(d.sel), "]" + PUT_END);
  }

  lemma MeaningOfRemoval(path: string, c: string)
    requires MenuPath(path)
    ensures Meaning(CommandText(Removal(path, c))) ==
            if SaysSomething(c) then Some(Remove(path, Said(c))) else None
  {
    var script := CommandScript(CommandText(Removal(path, c)));
    forall d | IsCommand(d, script) ensures SaysSomething(c) && d == Remove(path, Said(c)) {
      SharedRemoval(path, c, d);
      SaidIsUnique(c, d.sel);
    }
    if SaysSomething(c) {
      assert Printable(Remove(path, Said(c)));
      assert IsCommand(Remove(path, Said(c)), script);
    }
  }

  /** A removal runs as meant on every router and every obeying console if and only if its comment is
      quotable. */
  lemma RemovalRunsAsMeantIff(path: string, c: string)
    requires MenuPath(path)
    ensures (forall os: Console, m :: Obeys(os) ==> Executes(os, m, Removal(path, c))) <==> Quotable(c)
  {
    CommentIsWord();
    if Quotable(c) {
      assert Printable(Removal(path, c));
    } else {
      var os, m := UnquotableMisruns(path, c);
    }
  }

  /** Taken for another removal, the removal takes an item that was not meant. */
  lemma SharedMisruns(os: Console, path: string, c: string, d: Command) returns (m: Menus)
    requires Obeys(os) && MenuPath(path) && !Quotable(c)
    requires IsCommand(d, CommandScript(CommandText(Removal(path, c))))
    ensures !Executes(os, m, Removal(path, c))
  {
    SharedRemoval(path, c, d);
    SaysIff(c, d.sel);
    var v := d.sel.first.value;
    var it: Item := map["comment" := v];
    m := map[path := [it]];
    assert Executes(os, m, d);
    RemoveOne(it, d.sel);
    RemoveOne(it, Equals("comment", c));
    assert ItemsAt(Exec(m, d), path) == [] && ItemsAt(Exec(m, Removal(path, c)), path) == [it];
  }

  lemma UnquotableMisruns(path: string, c: string) returns (os: Console, m: Menus)
    requires MenuPath(path) && !Quotable(c)
    ensures Obeys(os) && !Executes(os, m, Removal(path, c))
  {
    var script := CommandScript(CommandText(Removal(path, c)));
    os := ConsoleExists((m, s) => Reply(m, ""));
    if d :| IsCommand(d, script) {
      m := SharedMisruns(os, path, c, d);
    } else {
      m := map[];
      forall q ensures !IsQuery(q, script) {
        ScriptsDiffer(q, Removal(path, c));
      }
      SentinelCompletes();
    }
  }

  lemma RemoveOne(it: Item, sel: Selector)
    ensures RemoveWhere([it], sel) == if Matches(it, sel) then [] else [it]
  {
    assert [it][..0] == [];
  }
}
