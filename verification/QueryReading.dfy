/** What the query format does to arbitrary values, and how a whole query is read back (`routeros.rs`). */
module QueryReading {
  import opened Basics
  import opened QueryText

  // ----- Exactly which values survive ------------------------------------------------------

  /** Free of line feeds and of the separator: what every value that was read satisfies. */
  predicate Plain(v: string) {
    '\n' !in v && FindSep(v) == |v|
  }

  lemma PlainPart(s: string, i: nat, j: nat)
    requires i <= j <= |s| && Plain(s)
    ensures Plain(s[i..j])
  {
    var p := s[i..j];
    forall k | 0 <= k < |p| ensures !SepAt(p, k) {
      assert !SepAt(s, i + k);
    }
  }

  lemma {:induction false} SplitIsPlain(s: string, piece: string)
    requires '\n' !in s && piece in Split(s)
    ensures Plain(piece)
  {
    var k := FindSep(s);
    if k < |s| {
      if piece == s[..k] {
        forall i | 0 <= i < |piece| ensures !SepAt(piece, i) {
          assert !SepAt(s, i);
        }
      } else {
        SplitIsPlain(s[k + 3..], piece);
      }
    }
  }

  lemma {:induction false} InsertedArePlain(pairs: seq<string>, key: string)
    requires (forall p :: p in pairs ==> Plain(p)) && key in InsertPairs(pairs)
    ensures Plain(InsertPairs(pairs)[key])
  {
    var n := |pairs| - 1;
    var init, last := pairs[..n], pairs[n];
    assert last in pairs;
    var kv := SplitOnce(last);
    if kv.Some? && kv.value.0 == key {
      var k := IndexOf(last, '=');
      PlainPart(last, k + 1, |last|);
      assert last[k + 1..|last|] == last[k + 1..];
    } else {
      InsertedArePlain(init, key);
    }
  }

  lemma LineValuesArePlain(line: string, key: string)
    requires IsRecordLine(line) && '\n' !in line && key in LineRecord(line)
    ensures Plain(LineRecord(line)[key])
  {
    var rest := line[|REC_PREFIX|..];
    forall p | p in Split(rest) ensures Plain(p) {
      SplitIsPlain(rest, p);
    }
    InsertedArePlain(Split(rest), key);
  }

  /** The piece of a misplaced split: its key starts with a bar, as no field name does. */
  predicate Marked(piece: string) {
    piece != "" && piece[0] == '|' && '=' in piece
  }

  lemma MarkedKey(piece: string)
    requires Marked(piece)
    ensures SplitOnce(piece).Some? && '|' in SplitOnce(piece).value.0
  {
    var k := IndexOf(piece, '=');
    assert k > 0 && piece[..k][0] == '|';
  }

  lemma {:induction false} InsertedKeys(pairs: seq<string>, piece: string)
    requires piece in pairs && SplitOnce(piece).Some?
    ensures SplitOnce(piece).value.0 in InsertPairs(pairs)
  {
    var n := |pairs| - 1;
    if piece != pairs[n] { InsertedKeys(pairs[..n], piece); }
  }

  /** A piece without a separator that still misleads the split ends in the separator's first two characters. */
  lemma MisleadingEnd(p: string, rest: string)
    requires FindSep(p) == |p| && !SepFree(p)
    ensures |p| >= 2 && FindSep(p + FIELD_SEP + rest) == |p| - 2
    ensures (p + FIELD_SEP + rest)[|p| + 1..] == "|~" + rest
  {
    var s, q := p + FIELD_SEP + rest, p + "~|";
    forall j: nat | j + 2 < |p| ensures SepAt(q, j) <==> SepAt(p, j) {
    }
    var i: nat :| i <= |p| && SepAt(q, i);
    assert i + 2 == |p|;
    assert SepAt(s, i);
    forall j | 0 <= j < i ensures !SepAt(s, j) {
      assert !SepAt(p, j);
    }
    assert s[|p| + 1..] == "|~" + rest;
  }

  lemma FirstPieceIsMarked(f: string, tail: string)
    requires '|' !in f
    ensures Marked(Split("|~" + (f + "=" + tail))[0])
  {
    var t := "|~" + (f + "=" + tail);
    var k, n := FindSep(t), |f| + 2;
    assert t[n] == '=' && t[0] == '|' && t[1] == '~';
    assert forall i :: 2 <= i < n ==> t[i] == f[i - 2];
    forall i | 0 <= i <= n ensures !SepAt(t, i) {
      if 1 <= i < n - 1 { assert t[i + 1] in f; }
    }
    var piece := if k == |t| then t else t[..k];
    assert piece[n] == '=' && piece[0] == '|';
  }

  /** Some pair but the last is free of the separator and yet misleads the split. */
  ghost predicate Misleads(pairs: seq<string>) {
    && (forall i :: 0 <= i < |pairs| ==> FindSep(pairs[i]) == |pairs[i]|)
    && exists i :: 0 <= i < |pairs| - 1 && !SepFree(pairs[i])
  }

  ghost predicate HasMarked(pieces: seq<string>) {
    exists piece :: piece in pieces && Marked(piece)
  }

  lemma MisleadingHead(p: string, f: string, after: string)
    requires FindSep(p) == |p| && !SepFree(p) && '|' !in f
    ensures HasMarked(Split(p + FIELD_SEP + (f + "=" + after)))
  {
    var rest := f + "=" + after;
    MisleadingEnd(p, rest);
    FirstPieceIsMarked(f, after);
    var pieces := Split("|~" + rest);
    assert Split(p + FIELD_SEP + rest) == [(p + FIELD_SEP + rest)[..|p| - 2]] + pieces;
    assert pieces[0] in pieces;
  }

  lemma MisleadsTail(pairs: seq<string>)
    requires |pairs| > 1 && Misleads(pairs) && SepFree(pairs[0])
    ensures |pairs| > 2 && Misleads(pairs[1..])
  {
    var tail := pairs[1..];
    var i :| 0 <= i < |pairs| - 1 && !SepFree(pairs[i]);
    assert tail[i - 1] == pairs[i];
    assert forall j :: 0 <= j < |tail| ==> tail[j] == pairs[j + 1];
  }

  lemma SplitAfter(p: string, rest: string)
    requires SepFree(p)
    ensures Split(p + FIELD_SEP + rest) == [p] + Split(rest)
  {
    SepAfterPiece(p, rest);
    var s := p + FIELD_SEP + rest;
    assert s[|p| + 3..] == rest && s[..|p|] == p;
  }

  lemma {:induction false} MisleadingPieceMarks(fields: seq<string>, item: Item)
    requires |fields| > 1 && (forall f :: f in fields ==> '|' !in f) && Misleads(Pairs(fields, item))
    ensures HasMarked(Split(Join(Pairs(fields, item))))
  {
    var pairs, tail := Pairs(fields, item), Pairs(fields[1..], item);
    assert pairs[1..] == tail;
    JoinFront(pairs);
    if SepFree(pairs[0]) {
      MisleadsTail(pairs);
      MisleadingPieceMarks(fields[1..], item);
      SplitAfter(pairs[0], Join(tail));
    } else {
      var f := fields[1];
      assert f in fields;
      var after := RestOf(tail, f, Prop(item, f));
      MisleadingHead(pairs[0], f, after);
    }
  }

  /** A joined list starts with its first pair. */
  lemma RestOf(pieces: seq<string>, f: string, v: string) returns (after: string)
    requires pieces != [] && pieces[0] == f + "=" + v
    ensures Join(pieces) == f + "=" + after
  {
    if |pieces| == 1 {
      after := v;
    } else {
      JoinFront(pieces);
      after := v + FIELD_SEP + Join(pieces[1..]);
    }
  }

  /** The values of a record that was read back are plain, and their fields lead no split astray. */
  lemma RecordNeedsSplittable(fields: seq<string>, item: Item)
    requires fields != [] && forall f :: f in fields ==> CleanField(f) && OneLine(Prop(item, f))
    requires !Splittable(Pairs(fields, item))
    ensures InsertPairs(Split(Join(Pairs(fields, item)))) != RecordOf(fields, item)
  {
    var pairs := Pairs(fields, item);
    var body := Join(pairs);
    var rec, want := InsertPairs(Split(body)), RecordOf(fields, item);
    if i :| 0 <= i < |fields| && !Plain(Prop(item, fields[i])) {
      var f := fields[i];
      assert f in want && want[f] == Prop(item, f);
      if f in rec { ValueWasPlain(fields, item, f); }
    } else {
      forall i | 0 <= i < |fields| ensures FindSep(pairs[i]) == |pairs[i]| {
        assert fields[i] in fields;
        PairIsPlain(fields[i], Prop(item, fields[i]));
      }
      assert |fields| > 1;
      MisleadingPieceMarks(fields, item);
      var piece :| piece in Split(body) && Marked(piece);
      MarkedKey(piece);
      InsertedKeys(Split(body), piece);
    }
  }

  lemma ValueWasPlain(fields: seq<string>, item: Item, key: string)
    requires forall f :: f in fields ==> CleanField(f) && OneLine(Prop(item, f))
    requires key in InsertPairs(Split(Join(Pairs(fields, item))))
    ensures Plain(InsertPairs(Split(Join(Pairs(fields, item))))[key])
  {
    var pairs := Pairs(fields, item);
    forall i | 0 <= i < |pairs| ensures '\n' !in pairs[i] {
      assert fields[i] in fields;
    }
    JoinChars(pairs, '\n');
    forall p | p in Split(Join(pairs)) ensures Plain(p) {
      SplitIsPlain(Join(pairs), p);
    }
    InsertedArePlain(Split(Join(pairs)), key);
  }

  lemma PairIsPlain(f: string, v: string)
    requires '|' !in f && FindSep(v) == |v|
    ensures FindSep(f + "=" + v) == |f + "=" + v|
  {
    var q, n := f + "=" + v, |f| + 1;
    assert forall j :: 0 <= j < |v| ==> q[n + j] == v[j];
    forall i | 0 <= i < |q| ensures !SepAt(q, i) {
      if i >= n {
        assert !SepAt(v, i - n);
      } else if i + 1 < |f| {
        assert q[i + 1] in f;
      }
    }
  }

  /** A printed line is read back as its item's record if and only if the printed pairs can be split apart:
      no value contains the separator, and none but the last ends in its first two characters. */
  lemma LineReadsIffSplittable(fields: seq<string>, item: Item)
    requires fields != [] && forall f :: f in fields ==> CleanField(f) && OneLine(Prop(item, f))
    ensures var s := Eval(Expression(fields), item);
            IsRecordLine(s) && (LineRecord(s) == RecordOf(fields, item) <==> Splittable(Pairs(fields, item)))
  {
    PrintedLineShape(fields, item);
    EvalIsJoin(fields, item);
    var s := Eval(Expression(fields), item);
    assert s[|REC_PREFIX|..] == Join(Pairs(fields, item));
    JoinIsNotEmpty(Pairs(fields, item));
    if Splittable(Pairs(fields, item)) {
      JoinedPairsParse(fields, item);
    } else {
      RecordNeedsSplittable(fields, item);
    }
  }

  // ----- A whole query ---------------------------------------------------------------------

  /** What the script prints for the items found: one line each, then the sentinel. */
  function Transcript(items: seq<Item>): (t: seq<OutLine>) {
    if items == [] then [OutLine(End, CrLf)] else [OutLine(Printed(items[0]), CrLf)] + Transcript(items[1..])
  }

  /** The records one item's print is read as. */
  function ItemRecords(fields: seq<string>, item: Item): (r: seq<Record>) {
    LinesRecords(Lines(Eval(Expression(fields), item) + "\r\n"))
  }

  /** The records a query's print is read as, item by item. */
  function ReadBack(fields: seq<string>, items: seq<Item>): (r: seq<Record>) {
    if items == [] then [] else ItemRecords(fields, items[0]) + ReadBack(fields, items[1..])
  }

  ghost predicate LinesAddUp(a: string, b: string) {
    Lines(a + b) == Lines(a) + Lines(b)
  }

  lemma LinesStep(p: string, rest: string, b: string)
    requires '\n' !in p && LinesAddUp(rest, b)
    ensures LinesAddUp(p + "\n" + rest, b)
  {
    FirstLine(p, rest);
    FirstLine(p, rest + b);
    Assoc(p + "\n", rest, b);
    Assoc([StripCr(p)], Lines(rest), Lines(b));
  }

  lemma {:induction false} LinesConcat(a: string, b: string)
    requires a == "" || a[|a| - 1] == '\n'
    ensures LinesAddUp(a, b)
    decreases |a|
  {
    if a == "" {
      assert a + b == b;
    } else {
      var p, rest := CutAtLf(a);
      LinesConcat(rest, b);
      LinesStep(p, rest, b);
    }
  }

  lemma CutAtLf(a: string) returns (p: string, rest: string)
    requires a != "" && a[|a| - 1] == '\n'
    ensures a == p + "\n" + rest && '\n' !in p && (rest == "" || rest[|rest| - 1] == '\n')
    ensures |rest| < |a|
  {
    var k := IndexOf(a, '\n');
    p, rest := a[..k], a[k + 1..];
  }

  lemma {:induction false} LinesRecordsConcat(a: seq<string>, b: seq<string>)
    ensures LinesRecords(a + b) == LinesRecords(a) + LinesRecords(b)
  {
    if a == [] {
      assert a + b == b;
    } else {
      LinesRecordsConcat(a[1..], b);
      assert a == [a[0]] + a[1..] && a + b == [a[0]] + (a[1..] + b);
      LinesRecordsCons(a[0], a[1..]);
      LinesRecordsCons(a[0], a[1..] + b);
      Assoc(RecordsOfLine(TrimCr(a[0])), LinesRecords(a[1..]), LinesRecords(b));
    }
  }

  lemma ReadBackCons(fields: seq<string>, item: Item, items: seq<Item>)
    ensures ReadBack(fields, [item] + items) == ItemRecords(fields, item) + ReadBack(fields, items)
  {
    assert ([item] + items)[1..] == items;
  }

  lemma TranscriptCons(fields: seq<string>, items: seq<Item>)
    requires items != []
    ensures Output(fields, Transcript(items)) ==
            Eval(Expression(fields), items[0]) + "\r\n" + Output(fields, Transcript(items[1..]))
  {
    var t := Transcript(items);
    assert t[0] == OutLine(Printed(items[0]), CrLf) && t[1..] == Transcript(items[1..]);
  }

  lemma EndLine(fields: seq<string>)
    ensures Lines(Output(fields, Transcript([]))) == [END_MARKER]
  {
    var t := Transcript([]);
    assert Output(fields, t[1..]) == "";
    assert Output(fields, t) == END_MARKER + "\r" + "\n" + "";
    FirstLine(END_MARKER + "\r", "");
    assert StripCr(END_MARKER + "\r") == END_MARKER;
  }

  lemma EndIsNoRecord(fields: seq<string>)
    ensures LinesRecords(Lines(Output(fields, Transcript([])))) == []
  {
    EndLine(fields);
    assert TrimCr(END_MARKER) == END_MARKER && END_MARKER[4] == '-' && REC_PREFIX[4] == '>';
    LinesRecordsCons(END_MARKER, []);
    assert [END_MARKER] + [] == [END_MARKER];
  }

  /** Parsing the whole text reads each item on its own, whatever the values. */
  lemma {:induction false} TextIsReadItemByItem(fields: seq<string>, items: seq<Item>)
    ensures LinesRecords(Lines(Output(fields, Transcript(items)))) == ReadBack(fields, items)
  {
    if items == [] {
      EndIsNoRecord(fields);
    } else {
      TextIsReadItemByItem(fields, items[1..]);
      TranscriptCons(fields, items);
      var line, rest := Eval(Expression(fields), items[0]) + "\r\n", Output(fields, Transcript(items[1..]));
      LinesConcat(line, rest);
      LinesRecordsConcat(Lines(line), Lines(rest));
    }
  }

  /** The sentinel is found at the end of every whole transcript, whatever the values. */
  lemma {:induction false} TranscriptCompletes(fields: seq<string>, items: seq<Item>)
    ensures Completed(Lines(Output(fields, Transcript(items))))
  {
    if items == [] {
      EndLine(fields);
      assert IsEnd([END_MARKER][0]);
    } else {
      TranscriptCompletes(fields, items[1..]);
      TranscriptCons(fields, items);
      var line, rest := Eval(Expression(fields), items[0]) + "\r\n", Output(fields, Transcript(items[1..]));
      LinesConcat(line, rest);
      var i :| 0 <= i < |Lines(rest)| && IsEnd(Lines(rest)[i]);
      assert IsEnd((Lines(line) + Lines(rest))[|Lines(line)| + i]);
    }
  }

  lemma LineAlone(fields: seq<string>, item: Item)
    ensures Output(fields, [OutLine(Printed(item), CrLf)]) == Eval(Expression(fields), item) + "\r\n"
  {
    var t := [OutLine(Printed(item), CrLf)];
    assert Output(fields, t[1..]) == "";
  }

  lemma ReadableRecords(fields: seq<string>, item: Item)
    requires (forall f :: f in fields ==> CleanField(f)) && Readable(fields, item)
    ensures ItemRecords(fields, item) == [RecordOf(fields, item)]
  {
    var t := [OutLine(Printed(item), CrLf)];
    LineAlone(fields, item);
    assert CleanContent(fields, t[0].content);
    RoundTrip(fields, t);
    assert PrintedItems(t[1..]) == [] && PrintedItems(t) == [item];
    RecordsCons(fields, item, []);
    assert [item] + [] == [item];
  }

  /** Readable items are read exactly. */
  lemma {:induction false} ReadableReadBack(fields: seq<string>, items: seq<Item>)
    requires forall f :: f in fields ==> CleanField(f)
    requires forall it :: it in items ==> Readable(fields, it)
    ensures ReadBack(fields, items) == Records(fields, items)
  {
    if items != [] {
      assert items[0] in items;
      ReadableReadBack(fields, items[1..]);
      ReadableRecords(fields, items[0]);
    }
  }

  /** Every item is read as something. */
  lemma ItemIsRead(fields: seq<string>, item: Item)
    ensures ItemRecords(fields, item) != []
  {
    EvalIsJoin(fields, item);
    var s := Eval(Expression(fields), item) + "\r\n";
    var k := IndexOf(s, '\n');
    assert forall i :: 0 <= i < 5 ==> s[i] == REC_PREFIX[i];
    assert k >= 5;
    assert REC_PREFIX <= StripCr(s[..k]);
    TrimKeepsPrefix(StripCr(s[..k]));
    LinesRecordsCons(StripCr(s[..k]), Lines(s[k + 1..]));
  }

  lemma {:induction false} TrimKeepsPrefix(s: string)
    requires REC_PREFIX <= s
    ensures REC_PREFIX <= TrimCr(s)
  {
    if s[|s| - 1] == '\r' {
      assert s != REC_PREFIX;
      TrimKeepsPrefix(s[..|s| - 1]);
    }
  }

  lemma {:induction false} LinesHaveNoLf(s: string, line: string)
    requires line in Lines(s)
    ensures '\n' !in line
  {
    var k := IndexOf(s, '\n');
    if k < |s| && line != StripCr(s[..k]) { LinesHaveNoLf(s[k + 1..], line); }
  }

  lemma {:induction false} RecordHasLine(lines: seq<string>, rec: Record) returns (line: string)
    requires rec in LinesRecords(lines)
    ensures line in lines && IsRecordLine(TrimCr(line)) && rec == LineRecord(TrimCr(line))
  {
    var here := RecordsOfLine(TrimCr(lines[0]));
    if rec in here {
      line := lines[0];
    } else {
      line := RecordHasLine(lines[1..], rec);
    }
  }

  /** Whatever was printed, every value read is plain. */
  lemma ReadValuesArePlain(fields: seq<string>, items: seq<Item>, rec: Record, key: string)
    requires rec in ReadBack(fields, items) && key in rec
    ensures Plain(rec[key])
  {
    TextIsReadItemByItem(fields, items);
    var text := Output(fields, Transcript(items));
    var line := RecordHasLine(Lines(text), rec);
    LinesHaveNoLf(text, line);
    TrimIsPrefix(line);
    LineValuesArePlain(TrimCr(line), key);
  }

  // ----- Reading adds no characters ------------------------------------------------------------

  lemma {:induction false} LinesChars(s: string, line: string, c: char)
    requires line in Lines(s) && c !in s
    ensures c !in line
  {
    var k := IndexOf(s, '\n');
    if k < |s| && line != StripCr(s[..k]) { LinesChars(s[k + 1..], line, c); }
  }

  lemma {:induction false} SplitChars(s: string, piece: string, c: char)
    requires piece in Split(s) && c !in s
    ensures c !in piece
  {
    var k := FindSep(s);
    if k < |s| && piece != s[..k] { SplitChars(s[k + 3..], piece, c); }
  }

  lemma {:induction false} InsertedChars(pairs: seq<string>, key: string, c: char)
    requires (forall p :: p in pairs ==> c !in p) && key in InsertPairs(pairs)
    ensures c !in InsertPairs(pairs)[key]
  {
    var n := |pairs| - 1;
    var init, last := pairs[..n], pairs[n];
    assert last in pairs;
    var kv := SplitOnce(last);
    if !(kv.Some? && kv.value.0 == key) { InsertedChars(init, key, c); }
  }

  lemma PrintedChars(fields: seq<string>, item: Item, c: char)
    requires c !in REC_PREFIX && c !in FIELD_SEP && c != '='
    requires forall f :: f in fields ==> c !in f && c !in Prop(item, f)
    ensures c !in Eval(Expression(fields), item)
  {
    EvalIsJoin(fields, item);
    forall i | 0 <= i < |fields| ensures c !in Pairs(fields, item)[i] {
      assert fields[i] in fields;
    }
    JoinChars(Pairs(fields, item), c);
  }

  /** A value read holds only characters that were printed. */
  lemma ItemValueChars(fields: seq<string>, item: Item, rec: Record, key: string, c: char)
    requires rec in ItemRecords(fields, item) && key in rec
    requires c !in Eval(Expression(fields), item) && c != '\r' && c != '\n'
    ensures c !in rec[key]
  {
    var text := Eval(Expression(fields), item) + "\r\n";
    var line := RecordHasLine(Lines(text), rec);
    LinesChars(text, line, c);
    TrimIsPrefix(line);
    var rest := TrimCr(line)[|REC_PREFIX|..];
    forall p | p in Split(rest) ensures c !in p {
      SplitChars(rest, p, c);
    }
    InsertedChars(Split(rest), key, c);
  }

  lemma {:induction false} RecordHasItem(fields: seq<string>, items: seq<Item>, rec: Record) returns (item: Item)
    requires rec in ReadBack(fields, items)
    ensures item in items && rec in ItemRecords(fields, item)
  {
    if rec in ItemRecords(fields, items[0]) {
      item := items[0];
    } else {
      item := RecordHasItem(fields, items[1..], rec);
    }
  }
}
