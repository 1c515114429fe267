/** The RouterOS query format (`routeros.rs`): the generated script, what it prints, and the parser. */
module QueryText {
  import opened Basics

  const REC_PREFIX := "MCTL>"
  const FIELD_SEP := "~|~"
  const END_MARKER := "MCTL-END"

  /** A live RouterOS item: its set properties. Reading an unset one gives the empty text. */
  type Item = map<string, string>

  type Record = map<string, string>

  function Prop(item: Item, field: string): (v: string) {
    if field in item then item[field] else ""
  }

  /** The record a query for `fields` should report for `item`. */
  function RecordOf(fields: seq<string>, item: Item): (r: Record) {
    map f | f in fields :: Prop(item, f)
  }

  // ----- The script --------------------------------------------------------------------------

  /** An operand of the script's concatenation: a literal, or a property of the loop's item as text. */
  datatype Operand = Lit(text: string) | Get(field: string)

  /** The concatenation that prints one item. */
  function Expression(fields: seq<string>): (e: seq<Operand>) {
    if fields == [] then [Lit(REC_PREFIX)]
    else
      var k := |fields| - 1;
      var before := Expression(fields[..k]);
      (if k == 0 then before else before + [Lit(FIELD_SEP)]) + [Lit(fields[k] + "=")] + [Get(fields[k])]
  }

  function OperandValue(o: Operand, item: Item): (s: string) {
    match o
    case Lit(t) => t
    case Get(f) => Prop(item, f)
  }

  function Eval(e: seq<Operand>, item: Item): (s: string) {
    if e == [] then "" else Eval(e[..|e| - 1], item) + OperandValue(e[|e| - 1], item)
  }

  /** A text in double quotes; none of the texts written here needs escaping. */
  function Quoted(s: string): (q: string) {
    "\"" + s + "\""
  }

  /** The operands printing one field. */
  function FieldText(path: string, field: string): (s: string) {
    Quoted(field + "=") + " . " + ("[:tostr [" + path + "/get $i " + field + "]]")
  }

  function FindText(path: string, filter: Option<string>): (s: string) {
    if filter.Some? then "[" + path + "/find where " + filter.value + "]" else "[" + path + "/find]"
  }

  function OperandText(path: string, o: Operand): (s: string) {
    match o
    case Lit(t) => Quoted(t)
    case Get(f) => "[:tostr [" + path + "/get $i " + f + "]]"
  }

  /** Operands written out, joined by the RouterOS concatenation operator. */
  function ExpressionText(path: string, e: seq<Operand>): (s: string) {
    if e == [] then ""
    else
      var k := |e| - 1;
      ExpressionText(path, e[..k]) + (if k == 0 then "" else " . ") + OperandText(path, e[k])
  }

  /** The script around the parts that vary. */
  function Loop(find: string, expr: string): (s: string) {
    ":foreach i in=" + find + " do={:put (" + expr + ")}; :put " + Quoted(END_MARKER)
  }

  function ScriptText(path: string, filter: Option<string>, e: seq<Operand>): (s: string) {
    Loop(FindText(path, filter), ExpressionText(path, e))
  }

  lemma ExpressionSnoc(fields: seq<string>, field: string)
    ensures Expression(fields + [field]) ==
            (if fields == [] then [Lit(REC_PREFIX)] else Expression(fields) + [Lit(FIELD_SEP)])
            + [Lit(field + "=")] + [Get(field)]
  {
    assert (fields + [field])[..|fields|] == fields;
  }

  lemma AppendOperand(path: string, e: seq<Operand>, o: Operand)
    requires e != []
    ensures ExpressionText(path, e + [o]) == ExpressionText(path, e) + " . " + OperandText(path, o)
  {
    assert (e + [o])[..|e|] == e;
  }

  /** What stands before a field: the concatenation operator, around a separator unless it is the first. */
  function Joiner(first: bool): (s: string) {
    if first then " . " else " . " + Quoted(FIELD_SEP) + " . "
  }

  lemma ExpressionStep(path: string, fields: seq<string>, field: string)
    ensures ExpressionText(path, Expression(fields + [field])) ==
            ExpressionText(path, Expression(fields)) + Joiner(fields == []) + FieldText(path, field)
  {
    var e := Expression(fields);
    var f := if fields == [] then e else e + [Lit(FIELD_SEP)];
    ExpressionSnoc(fields, field);
    if fields != [] {
      AppendOperand(path, e, Lit(FIELD_SEP));
    }
    AppendOperand(path, f, Lit(field + "="));
    AppendOperand(path, f + [Lit(field + "=")], Get(field));
    var before, key := ExpressionText(path, f) + " . ", Quoted(field + "=");
    Assoc(before, key, " . ");
    Assoc(before, key + " . ", OperandText(path, Get(field)));
    if fields != [] {
      Assoc(ExpressionText(path, e), " . ", Quoted(FIELD_SEP));
      Assoc(ExpressionText(path, e), " . " + Quoted(FIELD_SEP), " . ");
    }
  }

  lemma FirstOperand(path: string)
    ensures ExpressionText(path, Expression([])) == Quoted(REC_PREFIX)
  {
    assert [Lit(REC_PREFIX)][..0] == [];
  }

  function FieldsText(path: string, fields: seq<string>): (s: string) {
    if fields == [] then Quoted(REC_PREFIX)
    else
      var k := |fields| - 1;
      FieldsText(path, fields[..k]) + Joiner(k == 0) + FieldText(path, fields[k])
  }

  /** Growing the text field by field writes out the concatenation that prints the fields. */
  ghost predicate WritesExpression(path: string, fields: seq<string>) {
    FieldsText(path, fields) == ExpressionText(path, Expression(fields))
  }

  lemma FieldsTextStep(path: string, init: seq<string>, f: string)
    requires WritesExpression(path, init)
    ensures WritesExpression(path, init + [f])
  {
    ExpressionStep(path, init, f);
    assert (init + [f])[..|init|] == init;
  }

  lemma SnocForm(s: seq<string>)
    requires s != []
    ensures s == s[..|s| - 1] + [s[|s| - 1]]
  {
  }

  lemma {:induction false} FieldsTextIsExpression(path: string, fields: seq<string>)
    ensures WritesExpression(path, fields)
  {
    if fields == [] {
      FirstOperand(path);
    } else {
      var k := |fields| - 1;
      FieldsTextIsExpression(path, fields[..k]);
      FieldsTextStep(path, fields[..k], fields[k]);
      SnocForm(fields);
    }
  }

  method BuildExpression(path: string, fields: seq<string>) returns (expr: string)
    ensures expr == FieldsText(path, fields)
  {
    expr := Quoted(REC_PREFIX);
    for i := 0 to |fields|
      invariant expr == FieldsText(path, fields[..i])
    {
      assert fields[..i + 1][..i] == fields[..i];
      expr := expr + Joiner(i == 0);
      expr := expr + FieldText(path, fields[i]);
    }
    assert fields[..|fields|] == fields;
  }

  /** The generated text is the script whose loop body prints `Expression(fields)`. */
  method BuildQueryScript(path: string, filter: Option<string>, fields: seq<string>) returns (script: string)
    ensures script == ScriptText(path, filter, Expression(fields))
  {
    var expr := BuildExpression(path, fields);
    FieldsTextIsExpression(path, fields);
    script := Loop(FindText(path, filter), expr);
  }

  /** The script for no, one and two fields, spelled out. */
  lemma ScriptsSent(path: string, filter: string, f: string, g: string)
    ensures FindText(path, Some(filter)) == "[" + path + "/find where " + filter + "]"
    ensures FindText(path, None) == "[" + path + "/find]"
    ensures forall find :: ScriptText(path, find, Expression([])) ==
              ":foreach i in=" + FindText(path, find) + " do={:put (" + "\"MCTL>\"" + ")}; :put " + "\"MCTL-END\""
    ensures ExpressionText(path, Expression([f])) ==
            "\"MCTL>\"" + " . " + ("\"" + (f + "=") + "\"" + " . " + ("[:tostr [" + path + "/get $i " + f + "]]"))
    ensures ExpressionText(path, Expression([f, g])) ==
            ExpressionText(path, Expression([f])) + (" . " + "\"~|~\"" + " . ")
            + ("\"" + (g + "=") + "\"" + " . " + ("[:tostr [" + path + "/get $i " + g + "]]"))
  {
    FirstOperand(path);
    QuotedTexts();
    ExpressionStep(path, [], f);
    ExpressionStep(path, [f], g);
    assert [] + [f] == [f] && [f] + [g] == [f, g];
  }

  lemma QuotedTexts()
    ensures Quoted(REC_PREFIX) == "\"MCTL>\"" && Quoted(END_MARKER) == "\"MCTL-END\"" && Quoted(FIELD_SEP) == "\"~|~\""
  {
  }

  // ----- Library text functions ---------------------------------------------------------------

  /** Index of the first `c`, or the length. */
  function IndexOf(s: string, c: char): (k: nat)
    ensures k <= |s| && (k < |s| ==> s[k] == c) && forall i :: 0 <= i < k ==> s[i] != c
  {
    if s == "" || s[0] == c then 0 else 1 + IndexOf(s[1..], c)
  }

  lemma FirstIndex(p: string, c: char, rest: string)
    requires c !in p
    ensures IndexOf(p + [c] + rest, c) == |p|
  {
    var s := p + [c] + rest;
    assert s[|p|] == c;
    assert forall i :: 0 <= i < |p| ==> s[i] == p[i];
  }

  /** Drop one trailing carriage return, as `lines` does before a line feed. */
  function StripCr(s: string): (r: string) {
    if s != "" && s[|s| - 1] == '\r' then s[..|s| - 1] else s
  }

  function TrimCr(s: string): (r: string) {
    if s != "" && s[|s| - 1] == '\r' then TrimCr(s[..|s| - 1]) else s
  }

  /** `str::lines`. */
  function Lines(s: string): (r: seq<string>) {
    if s == "" then []
    else
      var k := IndexOf(s, '\n');
      if k == |s| then [s] else [StripCr(s[..k])] + Lines(s[k + 1..])
  }

  predicate SepAt(s: string, i: nat) {
    i + 2 < |s| && s[i] == '~' && s[i + 1] == '|' && s[i + 2] == '~'
  }

  /** No separator starts in `p`, even when another separator follows it. */
  predicate SepFree(p: string) {
    forall i :: 0 <= i <= |p| ==> !SepAt(p + "~|", i)
  }

  /** Where the first field separator starts, or the length. */
  function FindSep(s: string): (k: nat)
    ensures k <= |s| && (k < |s| ==> SepAt(s, k)) && forall i :: 0 <= i < k ==> !SepAt(s, i)
  {
    if s == "" || SepAt(s, 0) then 0
    else
      var k := FindSep(s[1..]);
      assert forall i :: 0 < i <= k ==> (SepAt(s, i) <==> SepAt(s[1..], i - 1));
      1 + k
  }

  /** `str::split` on the field separator. */
  function Split(s: string): (r: seq<string>)
    ensures r != []
  {
    var k := FindSep(s);
    if k == |s| then [s] else [s[..k]] + Split(s[k + 3..])
  }

  /** `str::split_once('=')`. */
  function SplitOnce(s: string): (r: Option<(string, string)>) {
    var k := IndexOf(s, '=');
    if k == |s| then None else Some((s[..k], s[k + 1..]))
  }

  // ----- The parser --------------------------------------------------------------------------

  function InsertPair(rec: Record, pair: string): (r: Record) {
    match SplitOnce(pair)
    case Some(kv) => rec[kv.0 := kv.1]
    case None => rec
  }

  function InsertPairs(pairs: seq<string>): (r: Record) {
    if pairs == [] then map[]
    else InsertPair(InsertPairs(pairs[..|pairs| - 1]), pairs[|pairs| - 1])
  }

  predicate IsRecordLine(line: string) {
    REC_PREFIX <= line
  }

  function LineRecord(line: string): (r: Record)
    requires IsRecordLine(line)
  {
    var rest := line[|REC_PREFIX|..];
    if rest == "" then map[] else InsertPairs(Split(rest))
  }

  function LinesRecords(lines: seq<string>): (r: seq<Record>) {
    if lines == [] then []
    else RecordsOfLine(TrimCr(lines[0])) + LinesRecords(lines[1..])
  }

  method ParsePairs(rest: string) returns (rec: Record)
    ensures rec == InsertPairs(Split(rest))
  {
    rec := map[];
    var pairs := Split(rest);
    for j := 0 to |pairs|
      invariant rec == InsertPairs(pairs[..j])
    {
      assert pairs[..j + 1][..j] == pairs[..j];
      var kv := SplitOnce(pairs[j]);
      if kv.Some? {
        rec := rec[kv.value.0 := kv.value.1];
      }
    }
    assert pairs[..|pairs|] == pairs;
  }

  method ParseLine(line: string) returns (rec: Record)
    requires IsRecordLine(line)
    ensures rec == LineRecord(line)
  {
    var rest := line[|REC_PREFIX|..];
    rec := map[];
    if rest != "" {
      rec := ParsePairs(rest);
    }
  }

  method ParseRecords(stdout: string) returns (records: seq<Record>)
    ensures records == LinesRecords(Lines(stdout))
  {
    records := [];
    var lines := Lines(stdout);
    for i := 0 to |lines|
      invariant records + LinesRecords(lines[i..]) == LinesRecords(lines)
    {
      NextLine(lines, i);
      var line := TrimCr(lines[i]);
      if IsRecordLine(line) {
        var rec := ParseLine(line);
        Assoc(records, [rec], LinesRecords(lines[i + 1..]));
        records := records + [rec];
      }
    }
    assert lines[|lines|..] == [];
  }

  function RecordsOfLine(line: string): (r: seq<Record>) {
    if IsRecordLine(line) then [LineRecord(line)] else []
  }

  lemma NextLine(lines: seq<string>, i: nat)
    requires i < |lines|
    ensures LinesRecords(lines[i..]) == RecordsOfLine(TrimCr(lines[i])) + LinesRecords(lines[i + 1..])
  {
    assert lines[i..][0] == lines[i] && lines[i..][1..] == lines[i + 1..];
  }

  predicate IsEnd(line: string) {
    TrimCr(line) == END_MARKER
  }

  /** Whether some printed line is the sentinel. */
  predicate Completed(lines: seq<string>) {
    exists i :: 0 <= i < |lines| && IsEnd(lines[i])
  }

  method EnsureComplete(stdout: string) returns (ok: bool)
    ensures ok <==> Completed(Lines(stdout))
  {
    var lines := Lines(stdout);
    ok := false;
    for i := 0 to |lines|
      invariant ok <==> Completed(lines[..i])
    {
      assert lines[..i + 1] == lines[..i] + [lines[i]];
      assert forall j :: 0 <= j < i ==> lines[..i + 1][j] == lines[..i][j];
      assert lines[..i + 1][i] == lines[i];
      ok := ok || IsEnd(lines[i]);
    }
    assert lines[..|lines|] == lines;
  }

  // ----- What the router prints ----------------------------------------------------------------

  datatype Content = Printed(item: Item) | Noise(text: string) | End

  /** How a line ends; only the last may be cut off without a line feed. */
  datatype Ending = Lf | CrLf | Cut

  datatype OutLine = OutLine(content: Content, ending: Ending)

  function ContentText(fields: seq<string>, c: Content): (s: string) {
    match c
    case Printed(item) => Eval(Expression(fields), item)
    case Noise(text) => text
    case End => END_MARKER
  }

  function EndingText(e: Ending): (s: string) {
    match e
    case Lf => "\n"
    case CrLf => "\r\n"
    case Cut => ""
  }

  function Output(fields: seq<string>, t: seq<OutLine>): (s: string) {
    if t == [] then ""
    else ContentText(fields, t[0].content) + EndingText(t[0].ending) + Output(fields, t[1..])
  }

  function PrintedItems(t: seq<OutLine>): (items: seq<Item>) {
    if t == [] then []
    else if t[0].content.Printed? then [t[0].content.item] + PrintedItems(t[1..])
    else PrintedItems(t[1..])
  }

  function Records(fields: seq<string>, items: seq<Item>): (r: seq<Record>) {
    if items == [] then [] else [RecordOf(fields, items[0])] + Records(fields, items[1..])
  }

  predicate CleanField(f: string) {
    '=' !in f && '|' !in f && '\n' !in f
  }

  predicate OneLine(v: string) {
    '\r' !in v && '\n' !in v
  }

  /** The values stay on their line, and the printed pairs can be split apart again. */
  ghost predicate Readable(fields: seq<string>, item: Item) {
    && (forall f :: f in fields ==> OneLine(Prop(item, f)))
    && (fields != [] ==> Splittable(Pairs(fields, item)))
  }

  ghost predicate CleanContent(fields: seq<string>, c: Content) {
    match c
    case Printed(item) => Readable(fields, item)
    case Noise(text) => '\n' !in text && !(REC_PREFIX <= text) && !IsEnd(text)
    case End => true
  }

  ghost predicate CleanOutput(fields: seq<string>, t: seq<OutLine>) {
    && (forall f :: f in fields ==> CleanField(f))
    && (forall i :: 0 <= i < |t| ==> CleanContent(fields, t[i].content))
    && (forall i :: 0 <= i < |t| - 1 ==> t[i].ending != Cut)
  }

  // ----- Printing a record and reading it back ----------------------------------------------

  function Join(pieces: seq<string>): (s: string) {
    if pieces == [] then ""
    else if |pieces| == 1 then pieces[0]
    else Join(pieces[..|pieces| - 1]) + FIELD_SEP + pieces[|pieces| - 1]
  }

  function Pairs(fields: seq<string>, item: Item): (r: seq<string>)
    ensures |r| == |fields| && forall i :: 0 <= i < |fields| ==> r[i] == fields[i] + "=" + Prop(item, fields[i])
  {
    seq(|fields|, i requires 0 <= i < |fields| => fields[i] + "=" + Prop(item, fields[i]))
  }

  lemma EvalAppend(e: seq<Operand>, o: Operand, item: Item)
    ensures Eval(e + [o], item) == Eval(e, item) + OperandValue(o, item)
  {
    assert (e + [o])[..|e|] == e;
  }

  lemma EvalPrefix(item: Item)
    ensures Eval([Lit(REC_PREFIX)], item) == REC_PREFIX
  {
    assert [Lit(REC_PREFIX)][..0] == [];
  }

  lemma Extend(pre: string, x: string, j: string, sep: string, f: string, v: string, y: string, k: string)
    requires x == pre + j && y == x + sep + f + v && k == j + sep + (f + v)
    ensures y == pre + k
  {
  }

  lemma EvalFirst(field: string, item: Item)
    ensures Eval(Expression([field]), item) == REC_PREFIX + (field + "=") + Prop(item, field)
  {
    var f := [Lit(REC_PREFIX)];
    ExpressionSnoc([], field);
    assert [] + [field] == [field];
    EvalPrefix(item);
    EvalAppend(f, Lit(field + "="), item);
    EvalAppend(f + [Lit(field + "=")], Get(field), item);
  }

  lemma EvalStep(fields: seq<string>, field: string, item: Item)
    requires fields != []
    ensures Eval(Expression(fields + [field]), item) ==
            Eval(Expression(fields), item) + FIELD_SEP + (field + "=") + Prop(item, field)
  {
    var e := Expression(fields);
    var f := e + [Lit(FIELD_SEP)];
    ExpressionSnoc(fields, field);
    EvalAppend(e, Lit(FIELD_SEP), item);
    EvalAppend(f, Lit(field + "="), item);
    EvalAppend(f + [Lit(field + "=")], Get(field), item);
  }

  /** The script's concatenation prints the joined pairs behind the record prefix. */
  ghost predicate PrintsPairs(fields: seq<string>, item: Item) {
    Eval(Expression(fields), item) == REC_PREFIX + Join(Pairs(fields, item))
  }

  lemma EvalJoinStep(init: seq<string>, f: string, item: Item)
    requires init != [] && PrintsPairs(init, item)
    ensures PrintsPairs(init + [f], item)
  {
    EvalStep(init, f, item);
    JoinPairs(init, f, item);
    Extend(REC_PREFIX, Eval(Expression(init), item), Join(Pairs(init, item)), FIELD_SEP, f + "=", Prop(item, f),
           Eval(Expression(init + [f]), item), Join(Pairs(init + [f], item)));
  }

  lemma EvalJoinFirst(f: string, item: Item)
    ensures PrintsPairs([f], item)
  {
    EvalFirst(f, item);
    Extend(REC_PREFIX, REC_PREFIX, "", "", f + "=", Prop(item, f),
           Eval(Expression([f]), item), f + "=" + Prop(item, f));
  }

  lemma EvalJoinNone(item: Item)
    ensures PrintsPairs([], item)
  {
    EvalPrefix(item);
    assert Pairs([], item) == [];
  }

  lemma {:induction false} EvalIsJoin(fields: seq<string>, item: Item)
    ensures PrintsPairs(fields, item)
  {
    if fields == [] {
      EvalJoinNone(item);
    } else if |fields| == 1 {
      EvalJoinFirst(fields[0], item);
      assert fields == [fields[0]];
    } else {
      var k := |fields| - 1;
      EvalIsJoin(fields[..k], item);
      EvalJoinStep(fields[..k], fields[k], item);
      SnocForm(fields);
    }
  }

  lemma JoinPairs(init: seq<string>, f: string, item: Item)
    requires init != []
    ensures Join(Pairs(init + [f], item)) == Join(Pairs(init, item)) + FIELD_SEP + (f + "=" + Prop(item, f))
  {
    assert Pairs(init + [f], item)[..|init|] == Pairs(init, item);
  }

  lemma {:induction false} JoinFront(pieces: seq<string>)
    requires |pieces| > 1
    ensures Join(pieces) == pieces[0] + FIELD_SEP + Join(pieces[1..])
  {
    var k := |pieces| - 1;
    if k > 1 {
      JoinFront(pieces[..k]);
      assert pieces[..k][1..] == pieces[1..][..k - 1];
    }
  }

  /** A following separator is found where it was written exactly when the piece is free of separators. */
  lemma SepAfterPiece(p: string, rest: string)
    ensures FindSep(p + FIELD_SEP + rest) <= |p|
    ensures FindSep(p + FIELD_SEP + rest) == |p| <==> SepFree(p)
  {
    var s, q := p + FIELD_SEP + rest, p + "~|";
    assert SepAt(s, |p|);
    forall i | 0 <= i < |p| ensures SepAt(s, i) <==> SepAt(q, i) {
      assert forall j :: i <= j < i + 3 && j < |q| ==> s[j] == q[j];
    }
    assert !SepAt(q, |p|);
  }

  lemma BarFreeIsSepFree(p: string)
    requires '|' !in p
    ensures SepFree(p)
  {
    forall i | 0 <= i <= |p| ensures !SepAt(p + "~|", i) {
      if i + 1 < |p| { assert (p + "~|")[i + 1] in p; }
    }
  }

  /** A value need not contain the separator to be split in the wrong place. */
  lemma HalfSepIsHarmful(p: string, q: string, rest: seq<string>)
    ensures Split(Join([p + "~|", q] + rest)) != [p + "~|", q] + rest
  {
    var piece := p + "~|";
    assert SepAt(piece + "~|", |p|);
    assert !SepFree(piece);
    SplitJoinIff([piece, q] + rest);
    assert ([piece, q] + rest)[0] == piece;
  }

  lemma SepFreeHasNoSep(p: string)
    requires SepFree(p)
    ensures FindSep(p) == |p|
  {
    forall i | 0 <= i < |p| ensures !SepAt(p, i) {
      assert !SepAt(p + "~|", i);
    }
  }

  /** When splitting undoes joining. A piece that merely ends in the separator's first two characters
      is as harmful as one that contains the separator. */
  ghost predicate Splittable(pieces: seq<string>) {
    && pieces != []
    && (forall i :: 0 <= i < |pieces| - 1 ==> SepFree(pieces[i]))
    && FindSep(pieces[|pieces| - 1]) == |pieces[|pieces| - 1]|
  }

  lemma {:induction false} SplitJoinIff(pieces: seq<string>)
    requires pieces != []
    ensures Split(Join(pieces)) == pieces <==> Splittable(pieces)
  {
    var p := pieces[0];
    if |pieces| > 1 {
      var tail := pieces[1..];
      var rest := Join(tail);
      var s := p + FIELD_SEP + rest;
      JoinFront(pieces);
      SepAfterPiece(p, rest);
      SplitJoinIff(tail);
      SplittableCons(pieces);
      assert s[|p| + 3..] == rest && s[..|p|] == p;
      assert pieces == [p] + tail;
      assert SepFree(p) ==> Split(s) == [p] + Split(rest);
      assert !SepFree(p) ==> |Split(s)[0]| < |p|;
    } else {
      assert Join(pieces) == p;
    }
  }

  lemma SplittableCons(pieces: seq<string>)
    requires |pieces| > 1
    ensures Splittable(pieces) <==> SepFree(pieces[0]) && Splittable(pieces[1..])
  {
    var tail := pieces[1..];
    assert forall i :: 0 <= i < |tail| ==> tail[i] == pieces[i + 1];
    if Splittable(tail) && SepFree(pieces[0]) {
      forall i | 0 <= i < |pieces| - 1 ensures SepFree(pieces[i]) {
        if i > 0 { assert SepFree(tail[i - 1]); }
      }
    }
  }

  lemma PairSplitsOnce(f: string, v: string)
    requires '=' !in f
    ensures SplitOnce(f + "=" + v) == Some((f, v))
  {
    FirstIndex(f, '=', v);
    assert (f + "=" + v)[..|f|] == f && (f + "=" + v)[|f| + 1..] == v;
  }

  lemma InsertLast(init: seq<string>, f: string, item: Item)
    ensures InsertPairs(Pairs(init + [f], item)) == InsertPair(InsertPairs(Pairs(init, item)), f + "=" + Prop(item, f))
  {
    assert Pairs(init + [f], item)[..|init|] == Pairs(init, item);
  }

  ghost predicate PairsGiveRecord(fields: seq<string>, item: Item) {
    InsertPairs(Pairs(fields, item)) == RecordOf(fields, item)
  }

  lemma InsertedPair(init: seq<string>, f: string, item: Item)
    requires '=' !in f && PairsGiveRecord(init, item)
    ensures PairsGiveRecord(init + [f], item)
  {
    PairSplitsOnce(f, Prop(item, f));
    InsertLast(init, f, item);
    assert RecordOf(init + [f], item) == RecordOf(init, item)[f := Prop(item, f)];
  }

  lemma {:induction false} InsertedPairs(fields: seq<string>, item: Item)
    requires forall f :: f in fields ==> '=' !in f
    ensures PairsGiveRecord(fields, item)
  {
    if fields == [] {
      assert Pairs(fields, item) == [];
    } else {
      var k := |fields| - 1;
      InsertedPairs(fields[..k], item);
      InsertedPair(fields[..k], fields[k], item);
      SnocForm(fields);
    }
  }

  lemma {:induction false} JoinChars(pieces: seq<string>, c: char)
    requires c !in FIELD_SEP && forall i :: 0 <= i < |pieces| ==> c !in pieces[i]
    ensures c !in Join(pieces)
  {
    if |pieces| > 1 { JoinChars(pieces[..|pieces| - 1], c); }
  }

  /** A printed line ends in the last value, or in `=` when that is empty, or in the prefix. */
  lemma PrintedEndsClean(fields: seq<string>, item: Item)
    requires forall f :: f in fields ==> '\r' !in Prop(item, f)
    ensures var s := Eval(Expression(fields), item); s != "" && s[|s| - 1] != '\r'
  {
    EvalIsJoin(fields, item);
    if fields != [] {
      var k := |fields| - 1;
      var v := Prop(item, fields[k]);
      assert fields[k] in fields;
      var pair := Pairs(fields, item)[k];
      assert pair[|pair| - 1] == if v == "" then '=' else v[|v| - 1];
    }
  }

  lemma PrintedLineShape(fields: seq<string>, item: Item)
    requires forall f :: f in fields ==> CleanField(f) && OneLine(Prop(item, f))
    ensures var s := Eval(Expression(fields), item);
            TrimCr(s) == s && '\n' !in s && s != END_MARKER && IsRecordLine(s)
  {
    EvalIsJoin(fields, item);
    PrintedEndsClean(fields, item);
    var pairs := Pairs(fields, item);
    forall i | 0 <= i < |pairs| ensures '\n' !in pairs[i] {
      assert fields[i] in fields;
    }
    JoinChars(pairs, '\n');
    var s := Eval(Expression(fields), item);
    assert s[4] == '>' && END_MARKER[4] == '-';
  }

  lemma PairIsSepFree(f: string, v: string)
    requires '|' !in f && SepFree(v)
    ensures SepFree(f + "=" + v)
  {
    var q, w, n := f + "=" + v + "~|", v + "~|", |f| + 1;
    assert forall j :: 0 <= j < |w| ==> q[n + j] == w[j];
    forall i | 0 <= i <= |f + "=" + v| ensures !SepAt(q, i) {
      if i >= n {
        assert !SepAt(w, i - n);
      } else if i + 1 < |f| {
        assert q[i + 1] in f;
      }
    }
  }

  /** Clean values of clean fields can always be read back. */
  lemma SepFreeIsReadable(fields: seq<string>, item: Item)
    requires forall f :: f in fields ==> CleanField(f) && SepFree(Prop(item, f)) && OneLine(Prop(item, f))
    ensures Readable(fields, item)
  {
    var pairs := Pairs(fields, item);
    forall i | 0 <= i < |pairs| ensures SepFree(pairs[i]) {
      assert fields[i] in fields;
      PairIsSepFree(fields[i], Prop(item, fields[i]));
    }
    if fields != [] { SepFreeHasNoSep(pairs[|pairs| - 1]); }
  }

  lemma JoinIsNotEmpty(pieces: seq<string>)
    requires pieces != [] && pieces[0] != ""
    ensures Join(pieces) != ""
  {
    if |pieces| > 1 { JoinFront(pieces); }
  }

  lemma JoinedPairsParse(fields: seq<string>, item: Item)
    requires forall f :: f in fields ==> CleanField(f)
    requires fields != [] && Splittable(Pairs(fields, item))
    ensures Join(Pairs(fields, item)) != "" && InsertPairs(Split(Join(Pairs(fields, item)))) == RecordOf(fields, item)
  {
    SplitJoinIff(Pairs(fields, item));
    JoinIsNotEmpty(Pairs(fields, item));
    InsertedPairs(fields, item);
  }

  /** One printed line parses to its item's record. */
  lemma PrintedLineParses(fields: seq<string>, item: Item)
    requires (forall f :: f in fields ==> CleanField(f)) && Readable(fields, item)
    ensures var s := Eval(Expression(fields), item);
            && TrimCr(s) == s && '\n' !in s && !IsEnd(s)
            && IsRecordLine(s) && LineRecord(s) == RecordOf(fields, item)
  {
    PrintedLineShape(fields, item);
    EvalIsJoin(fields, item);
    var s := Eval(Expression(fields), item);
    assert s[|REC_PREFIX|..] == Join(Pairs(fields, item));
    if fields == [] {
      assert Pairs(fields, item) == [];
    } else {
      JoinedPairsParse(fields, item);
    }
  }

  // ----- Lines -------------------------------------------------------------------------------

  lemma FirstLine(p: string, rest: string)
    requires '\n' !in p
    ensures Lines(p + "\n" + rest) == [StripCr(p)] + Lines(rest)
  {
    FirstIndex(p, '\n', rest);
    var s := p + "\n" + rest;
    assert s[..|p|] == p && s[|p| + 1..] == rest;
  }

  lemma OnlyLine(p: string)
    requires '\n' !in p
    ensures Lines(p) == if p == "" then [] else [p]
  {
    assert forall i :: 0 <= i < |p| ==> p[i] in p;
  }

  lemma TrimIgnoresOneCr(p: string)
    ensures TrimCr(StripCr(p)) == TrimCr(p) && TrimCr(StripCr(p + "\r")) == TrimCr(p)
  {
    assert (p + "\r")[..|p|] == p;
  }

  lemma {:induction false} TrimIsPrefix(p: string)
    ensures TrimCr(p) <= p && (REC_PREFIX <= TrimCr(p) ==> REC_PREFIX <= p)
  {
    if p != "" && p[|p| - 1] == '\r' { TrimIsPrefix(p[..|p| - 1]); }
  }

  lemma EndedLine(p: string, e: Ending, rest: string) returns (line: string)
    requires '\n' !in p && e != Cut
    ensures Lines(p + EndingText(e) + rest) == [line] + Lines(rest)
    ensures TrimCr(line) == TrimCr(p)
  {
    TrimIgnoresOneCr(p);
    if e == Lf {
      FirstLine(p, rest);
      line := StripCr(p);
    } else {
      FirstLine(p + "\r", rest);
      assert p + "\r\n" + rest == p + "\r" + "\n" + rest;
      line := StripCr(p + "\r");
    }
  }

  lemma ContentIsOneLine(fields: seq<string>, c: Content)
    requires (forall f :: f in fields ==> CleanField(f)) && CleanContent(fields, c)
    ensures '\n' !in ContentText(fields, c)
  {
    if c.Printed? { PrintedLineShape(fields, c.item); }
  }

  /** What the first printed line contributes, however it ends. */
  lemma FirstOutLine(fields: seq<string>, t: seq<OutLine>) returns (line: string)
    requires CleanOutput(fields, t) && t != [] && t[0].ending != Cut
    ensures Lines(Output(fields, t)) == [line] + Lines(Output(fields, t[1..]))
    ensures TrimCr(line) == TrimCr(ContentText(fields, t[0].content))
  {
    assert CleanContent(fields, t[0].content);
    ContentIsOneLine(fields, t[0].content);
    line := EndedLine(ContentText(fields, t[0].content), t[0].ending, Output(fields, t[1..]));
  }

  lemma LastOutLine(fields: seq<string>, t: seq<OutLine>) returns (line: string)
    requires CleanOutput(fields, t) && |t| == 1 && t[0].ending == Cut
    ensures Lines(Output(fields, t)) == (if line == "" then [] else [line])
    ensures line == ContentText(fields, t[0].content)
  {
    assert CleanContent(fields, t[0].content);
    ContentIsOneLine(fields, t[0].content);
    line := ContentText(fields, t[0].content);
    assert Output(fields, t[1..]) == "";
    assert Output(fields, t) == line;
    OnlyLine(line);
  }

  /** A line is a record line exactly when it printed an item, and the sentinel exactly when it is that. */
  lemma ContentRecord(fields: seq<string>, c: Content)
    requires (forall f :: f in fields ==> CleanField(f)) && CleanContent(fields, c)
    ensures var line := TrimCr(ContentText(fields, c));
            && (IsRecordLine(line) <==> c.Printed?)
            && (c.Printed? ==> LineRecord(line) == RecordOf(fields, c.item))
            && (line == END_MARKER <==> c.End?)
  {
    match c
    case Printed(item) => PrintedLineParses(fields, item);
    case Noise(text) =>
      TrimIsPrefix(text);
    case End =>
      assert END_MARKER[|END_MARKER| - 1] == 'D';
      assert END_MARKER[4] == '-' && REC_PREFIX[4] == '>';
  }

  ghost predicate HasEnd(t: seq<OutLine>) {
    exists i :: 0 <= i < |t| && t[i].content.End?
  }

  lemma CutLineParses(fields: seq<string>, t: seq<OutLine>)
    requires CleanOutput(fields, t) && |t| == 1 && t[0].ending == Cut
    ensures LinesRecords(Lines(Output(fields, t))) == Records(fields, PrintedItems(t))
    ensures Completed(Lines(Output(fields, t))) <==> HasEnd(t)
  {
    var c := t[0].content;
    assert CleanContent(fields, c);
    ContentRecord(fields, c);
    var line := LastOutLine(fields, t);
    assert PrintedItems(t[1..]) == [];
    assert PrintedItems(t) == if c.Printed? then [c.item] else [];
    assert LinesRecords([line]) == RecordsOfLine(TrimCr(line));
    assert Completed([line]) <==> IsEnd(line) by { CompletedCons(line, []); assert [line] + [] == [line]; }
  }

  lemma RecordsCons(fields: seq<string>, item: Item, items: seq<Item>)
    ensures Records(fields, [item] + items) == [RecordOf(fields, item)] + Records(fields, items)
  {
    assert ([item] + items)[1..] == items;
  }

  lemma LinesRecordsCons(line: string, lines: seq<string>)
    ensures LinesRecords([line] + lines) == RecordsOfLine(TrimCr(line)) + LinesRecords(lines)
  {
    assert ([line] + lines)[1..] == lines;
  }

  /** Parsing the output gives exactly the printed items' records, in order, whatever noise surrounds them;
      the output counts as complete exactly when the sentinel was printed. */
  lemma {:induction false} RoundTrip(fields: seq<string>, t: seq<OutLine>)
    requires CleanOutput(fields, t)
    ensures LinesRecords(Lines(Output(fields, t))) == Records(fields, PrintedItems(t))
    ensures Completed(Lines(Output(fields, t))) <==> HasEnd(t)
  {
    if t == [] {
    } else if t[0].ending == Cut {
      CutLineParses(fields, t);
    } else {
      var line := FirstOutLine(fields, t);
      CleanTail(fields, t);
      RoundTrip(fields, t[1..]);
      LineParses(fields, t, line, Lines(Output(fields, t[1..])));
    }
  }

  lemma LineParses(fields: seq<string>, t: seq<OutLine>, line: string, lines: seq<string>)
    requires CleanOutput(fields, t) && t != [] && TrimCr(line) == TrimCr(ContentText(fields, t[0].content))
    requires LinesRecords(lines) == Records(fields, PrintedItems(t[1..])) && (Completed(lines) <==> HasEnd(t[1..]))
    ensures LinesRecords([line] + lines) == Records(fields, PrintedItems(t))
    ensures Completed([line] + lines) <==> HasEnd(t)
  {
    var c := t[0].content;
    assert CleanContent(fields, c);
    ContentRecord(fields, c);
    LinesRecordsCons(line, lines);
    CompletedCons(line, lines);
    EndCons(t);
    if c.Printed? { RecordsCons(fields, c.item, PrintedItems(t[1..])); }
  }

  lemma CleanTail(fields: seq<string>, t: seq<OutLine>)
    requires CleanOutput(fields, t) && t != []
    ensures CleanOutput(fields, t[1..])
  {
    forall i | 0 <= i < |t[1..]| ensures CleanContent(fields, t[1..][i].content) {
      assert t[1..][i] == t[i + 1];
    }
  }

  lemma CompletedCons(line: string, lines: seq<string>)
    ensures Completed([line] + lines) <==> IsEnd(line) || Completed(lines)
  {
    var all := [line] + lines;
    if IsEnd(line) { assert IsEnd(all[0]); }
    if i :| 0 <= i < |lines| && IsEnd(lines[i]) { assert IsEnd(all[i + 1]); }
    if i :| 0 <= i < |all| && IsEnd(all[i]) {
      if i > 0 { assert IsEnd(lines[i - 1]); }
    }
  }

  lemma EndCons(t: seq<OutLine>)
    requires t != []
    ensures HasEnd(t) <==> t[0].content.End? || HasEnd(t[1..])
  {
    if i :| 0 <= i < |t| && t[i].content.End? {
      if i > 0 { assert t[1..][i - 1].content.End?; }
    }
    if i :| 0 <= i < |t[1..]| && t[1..][i].content.End? { assert t[i + 1].content.End?; }
  }

  // ----- The query ---------------------------------------------------------------------------

  /** Run the output through completeness check and parser: the printed items' records, or nothing when
      the script stopped before its sentinel. */
  method ReadQuery(stdout: string, ghost fields: seq<string>, ghost t: seq<OutLine>)
    returns (r: Option<seq<Record>>)
    requires CleanOutput(fields, t) && stdout == Output(fields, t)
    ensures r.Some? <==> HasEnd(t)
    ensures r.Some? ==> r.value == Records(fields, PrintedItems(t))
  {
    RoundTrip(fields, t);
    var ok := EnsureComplete(stdout);
    if !ok {
      return None;
    }
    var records := ParseRecords(stdout);
    return Some(records);
  }
}
