/**
  The viewer's table loader: `parseCSV`, which turns the text of `graph.csv` or
  `graph_edges.csv` into a header row and one object per data row, and
  `buildGraphJSON`, which splits the `|`-joined document indices off every label.

  The parser is a character state machine over the text with its line breaks
  normalised to `\n`. A `"` toggles quoted mode, except that inside quotes `""`
  stands for one quote; outside quotes `,` ends a field and `\n` ends a record.
  Every field is trimmed with JavaScript's `String.prototype.trim`. After the last
  character the pending field and record are always saved, so empty text gives
  one record holding one empty field and a trailing line break gives a final
  record `[""]`.

  A row object maps each header to the field at the same position, or to `""`
  when the row is shorter; fields beyond the headers are dropped, and when a
  header repeats, the later column wins. JavaScript's `undefined` for a missing
  key is `None`.
*/
module ViewerUtils {
  import opened Wrappers
  import Text
  import Seqs
  import Sorting
  import GraphMerge
  import DocumentMerge

  // ------------------------------------------------------------ trimming

  /** The characters JavaScript's `trim` removes: white space and line terminators. */
  predicate IsJsSpace(c: char) {
    || ('\t' <= c <= '\r') || c == ' '
    || c == '\U{A0}' || c == '\U{1680}'
    || ('\U{2000}' <= c <= '\U{200A}')
    || c == '\U{2028}' || c == '\U{2029}' || c == '\U{202F}' || c == '\U{205F}' || c == '\U{3000}'
    || c == '\U{FEFF}'
  }

  predicate IsJsTrimmed(s: string) {
    s == [] || (!IsJsSpace(s[0]) && !IsJsSpace(s[|s| - 1]))
  }

  function TrimStart(s: string): (r: string)
    ensures |r| <= |s| && r == s[|s| - |r|..]
    ensures r == [] || !IsJsSpace(r[0])
    ensures forall i :: 0 <= i < |s| - |r| ==> IsJsSpace(s[i])
    decreases |s|
  {
    if s != [] && IsJsSpace(s[0]) then TrimStart(s[1..]) else s
  }

  function TrimEnd(s: string): (r: string)
    ensures |r| <= |s| && r == s[..|r|]
    ensures r == [] || !IsJsSpace(r[|r| - 1])
    ensures forall i :: |r| <= i < |s| ==> IsJsSpace(s[i])
    decreases |s|
  {
    if s != [] && IsJsSpace(s[|s| - 1]) then TrimEnd(s[..|s| - 1]) else s
  }

  /** `s.trim()`. */
  function JsTrim(s: string): (r: string)
    ensures IsJsTrimmed(r) && |r| <= |s|
  {
    TrimEnd(TrimStart(s))
  }

  /** `r` is the infix of `s` from `k`, and only white space lies before and after it. */
  predicate SpacedInfix(s: string, k: int, r: string) {
    && 0 <= k && k + |r| <= |s| && r == s[k..k + |r|]
    && (forall i :: 0 <= i < k ==> IsJsSpace(s[i]))
    && (forall i :: k + |r| <= i < |s| ==> IsJsSpace(s[i]))
  }

  /** Trimming keeps an infix of `s` and removes only white space around it. */
  lemma JsTrimInfix(s: string)
    ensures SpacedInfix(s, |s| - |TrimStart(s)|, JsTrim(s))
  {
    var t := TrimStart(s);
    var r := TrimEnd(t);
    assert JsTrim(s) == r;
    TrimmedInfix(s, t, r);
  }

  /** A suffix `t` of `s` after white space, and a prefix `r` of `t` before white space, is an infix
      of `s` with only white space around it. */
  lemma TrimmedInfix(s: string, t: string, r: string)
    requires |t| <= |s| && t == s[|s| - |t|..] && forall i :: 0 <= i < |s| - |t| ==> IsJsSpace(s[i])
    requires |r| <= |t| && r == t[..|r|] && forall i :: |r| <= i < |t| ==> IsJsSpace(t[i])
    ensures SpacedInfix(s, |s| - |t|, r)
  {
    var k := |s| - |t|;
    forall i | k + |r| <= i < |s| ensures IsJsSpace(s[i]) {
      assert s[i] == t[i - k];
    }
  }

  /** Trimming a trimmed string changes nothing. */
  lemma JsTrimKeeps(s: string)
    requires IsJsTrimmed(s)
    ensures JsTrim(s) == s
  {
  }

  // ------------------------------------------------------------ line breaks

  /** `replace(/\r\n/g, '\n')`. */
  function ReplaceCrLf(s: string): (r: string)
    decreases |s|
  {
    if s == [] then []
    else if |s| >= 2 && s[0] == '\r' && s[1] == '\n' then "\n" + ReplaceCrLf(s[2..])
    else [s[0]] + ReplaceCrLf(s[1..])
  }

  /** `replace(/\r/g, '\n')`. */
  function ReplaceCr(s: string): (r: string)
    ensures '\r' !in r
    ensures |r| == |s|
    ensures forall i :: 0 <= i < |s| ==> r[i] == if s[i] == '\r' then '\n' else s[i]
  {
    seq(|s|, i requires 0 <= i < |s| => if s[i] == '\r' then '\n' else s[i])
  }

  function Normalize(s: string): string {
    ReplaceCr(ReplaceCrLf(s))
  }

  lemma {:induction false} ReplaceCrLfKeeps(s: string)
    requires '\r' !in s
    ensures ReplaceCrLf(s) == s
    decreases |s|
  {
    if s != [] {
      assert s[0] in s && forall c :: c in s[1..] ==> c in s;
      ReplaceCrLfKeeps(s[1..]);
      assert s == [s[0]] + s[1..];
    }
  }

  /** Normalising leaves no carriage return, and text without one is left as it is. */
  lemma NormalizeSpec(s: string)
    ensures '\r' !in Normalize(s)
    ensures '\r' !in s ==> Normalize(s) == s
  {
    if '\r' !in s {
      ReplaceCrLfKeeps(s);
    }
  }

  /** A Windows line break becomes one `\n`, not two. */
  lemma NormalizeCrLf(a: string, b: string)
    requires '\r' !in a && '\r' !in b
    ensures Normalize(a + "\r\n" + b) == a + "\n" + b
  {
    NormalizeCrLfAt(a, b);
    ReplaceCrLfKeeps(a + "\n" + b);
  }

  lemma {:induction false} NormalizeCrLfAt(a: string, b: string)
    requires '\r' !in a && '\r' !in b
    ensures ReplaceCrLf(a + "\r\n" + b) == a + "\n" + b
    decreases |a|
  {
    if a == [] {
      CrLfHead(b);
      assert a + "\r\n" + b == "\r\n" + b && a + "\n" + b == "\n" + b;
    } else {
      var t := a[1..] + "\r\n" + b;
      ConsAround(a, "\r\n", b);
      ConsAround(a, "\n", b);
      assert a[0] in a && forall c :: c in a[1..] ==> c in a;
      NormalizeCrLfAt(a[1..], b);
      PlainHead(a[0], t);
    }
  }

  lemma CrLfHead(b: string)
    requires '\r' !in b
    ensures ReplaceCrLf("\r\n" + b) == "\n" + b
  {
    assert ("\r\n" + b)[2..] == b;
    ReplaceCrLfKeeps(b);
  }

  lemma PlainHead(c: char, t: string)
    requires c != '\r'
    ensures ReplaceCrLf([c] + t) == [c] + ReplaceCrLf(t)
  {
    assert ([c] + t)[1..] == t;
  }

  lemma ConsAround<T>(a: seq<T>, m: seq<T>, b: seq<T>)
    requires a != []
    ensures a + m + b == [a[0]] + (a[1..] + m + b)
  {
    assert a == [a[0]] + a[1..];
  }

  // ------------------------------------------------------------ the scanner

  /** `lines`, `currentLine`, `currentValue` and `insideQuotes`. */
  datatype Scan = Scan(lines: seq<seq<string>>, line: seq<string>, value: string, quoted: bool)

  const Start := Scan([], [], "", false)

  /** One turn of the loop: how many characters it consumes and the state it leaves. */
  datatype Move = Move(width: nat, next: Scan)

  /** The body of the loop of `parseCSV` at the first character of `s`. */
  function Next(s: string, st: Scan): (m: Move)
    requires s != []
    ensures 1 <= m.width <= |s|
  {
    if s[0] == '"' then
      if st.quoted && |s| >= 2 && s[1] == '"' then Move(2, st.(value := st.value + "\""))
      else Move(1, st.(quoted := !st.quoted))
    else if s[0] == ',' && !st.quoted then
      Move(1, st.(line := st.line + [st.value], value := ""))
    else if s[0] == '\n' && !st.quoted then
      Move(1, st.(lines := st.lines + [st.line + [st.value]], line := [], value := ""))
    else Move(1, st.(value := st.value + [s[0]]))
  }

  /**
    The loop of `parseCSV` over the rest `s` of the normalised text. Fields are
    saved as read; `Records` trims each saved field, which is what the loop does
    at every push.
  */
  function Step(s: string, st: Scan): (r: Scan)
    decreases |s|
  {
    if s == [] then st
    else
      var m := Next(s, st);
      Step(s[m.width..], m.next)
  }

  /** "Add any remaining data": the pending field and record are always saved. */
  function Finish(st: Scan): seq<seq<string>> {
    st.lines + [st.line + [st.value]]
  }

  /** Every field trimmed. */
  function TrimFields(rs: seq<seq<string>>): (ts: seq<seq<string>>)
    ensures |ts| == |rs|
    ensures forall i :: 0 <= i < |rs| ==> |ts[i]| == |rs[i]|
  {
    seq(|rs|, i requires 0 <= i < |rs| => seq(|rs[i]|, j requires 0 <= j < |rs[i]| => JsTrim(rs[i][j])))
  }

  /** The records of `csvString`. */
  function Records(csv: string): seq<seq<string>> {
    TrimFields(Finish(Step(Normalize(csv), Start)))
  }

  predicate AllTrimmed(fs: seq<string>) {
    forall i :: 0 <= i < |fs| ==> IsJsTrimmed(fs[i])
  }

  /** Well-formed records: at least one field each, every field trimmed. */
  predicate Shaped(lines: seq<seq<string>>) {
    forall i :: 0 <= i < |lines| ==> lines[i] != [] && AllTrimmed(lines[i])
  }

  predicate NoEmptyRecord(lines: seq<seq<string>>) {
    forall i :: 0 <= i < |lines| ==> lines[i] != []
  }

  lemma {:induction false} StepNoEmpty(s: string, st: Scan)
    requires NoEmptyRecord(st.lines)
    ensures NoEmptyRecord(Step(s, st).lines)
    decreases |s|
  {
    if s != [] {
      var m := Next(s, st);
      assert NoEmptyRecord(m.next.lines);
      StepNoEmpty(s[m.width..], m.next);
    }
  }

  lemma TrimFieldsShaped(rs: seq<seq<string>>)
    requires NoEmptyRecord(rs)
    ensures Shaped(TrimFields(rs))
  {
    var ts := TrimFields(rs);
    forall i | 0 <= i < |ts| ensures ts[i] != [] && AllTrimmed(ts[i]) {
      assert |ts[i]| == |rs[i]| > 0;
    }
  }

  /** There is always a header record, and no record is empty or holds an untrimmed field. */
  lemma RecordsShaped(csv: string)
    ensures |Records(csv)| >= 1
    ensures Shaped(Records(csv))
  {
    var st := Step(Normalize(csv), Start);
    StepNoEmpty(Normalize(csv), Start);
    var all := Finish(st);
    assert forall i :: 0 <= i < |all| ==> all[i] == if i < |st.lines| then st.lines[i] else st.line + [st.value];
    TrimFieldsShaped(all);
  }

  // ------------------------------------------------------------ writing a table

  /** Doubles every quote. */
  function Escape(v: string): (r: string)
    decreases |v|
  {
    if v == [] then []
    else (if v[0] == '"' then "\"\"" else [v[0]]) + Escape(v[1..])
  }

  predicate IsPlain(v: string) {
    '"' !in v && ',' !in v && '\n' !in v
  }

  /** A field as a minimal-quoting writer puts it: quoted only when it holds a quote, comma or line break. */
  function EncodeField(v: string): string {
    if IsPlain(v) then v else "\"" + Escape(v) + "\""
  }

  function EncodeFields(row: seq<string>): seq<string> {
    seq(|row|, i requires 0 <= i < |row| => EncodeField(row[i]))
  }

  function EncodeRow(row: seq<string>): string {
    Text.Join(EncodeFields(row), ",")
  }

  function EncodeRows(rows: seq<seq<string>>): seq<string> {
    seq(|rows|, i requires 0 <= i < |rows| => EncodeRow(rows[i]))
  }

  function EncodeTable(rows: seq<seq<string>>): string {
    Text.Join(EncodeRows(rows), "\n")
  }

  /** A table the reader can give back: no empty record, no carriage return in a field. */
  predicate Writable(rows: seq<seq<string>>) {
    && NoEmptyRecord(rows)
    && forall i, j :: 0 <= i < |rows| && 0 <= j < |rows[i]| ==> '\r' !in rows[i][j]
  }

  /** Where `a` ends, the lookahead of a quote cannot join two quotes into a pair. */
  predicate Boundary(a: string, b: string) {
    a == [] || a[|a| - 1] != '"' || b == [] || b[0] != '"'
  }

  /** Reading `a + b` is reading `a`, then `b`, when no quote pair straddles the seam. */
  lemma {:induction false} StepAppend(a: string, b: string, st: Scan)
    requires Boundary(a, b)
    ensures Step(a + b, st) == Step(b, Step(a, st))
    decreases |a|
  {
    if a == [] {
      assert a + b == b;
    } else {
      var m := Next(a, st);
      assert (a + b)[0] == a[0];
      assert |a| >= 2 ==> (a + b)[1] == a[1];
      assert |a| == 1 && |a + b| >= 2 ==> (a + b)[1] == b[0];
      assert Next(a + b, st) == m;
      assert (a + b)[m.width..] == a[m.width..] + b;
      StepAppend(a[m.width..], b, m.next);
    }
  }

  /** Outside quotes, a plain field is copied into the value. */
  lemma {:induction false} PlainScan(v: string, st: Scan)
    requires IsPlain(v) && !st.quoted
    ensures Step(v, st) == st.(value := st.value + v)
    decreases |v|
  {
    if v == [] {
      assert st.value + v == st.value;
    } else {
      assert v[0] in v && forall c :: c in v[1..] ==> c in v;
      PlainScan(v[1..], st.(value := st.value + [v[0]]));
      assert st.value + [v[0]] + v[1..] == st.value + v;
    }
  }

  /** Inside quotes, an escaped value and its closing quote are copied and leave quoted mode. */
  lemma {:induction false} EscapedScan(v: string, st: Scan)
    requires st.quoted
    ensures Step(Escape(v) + "\"", st) == st.(value := st.value + v, quoted := false)
    decreases |v|
  {
    var s := Escape(v) + "\"";
    if v == [] {
      assert s == "\"" && st.value + v == st.value;
    } else if v[0] == '"' {
      assert s[0] == '"' && s[1] == '"' && s[2..] == Escape(v[1..]) + "\"";
      EscapedScan(v[1..], st.(value := st.value + "\""));
      assert st.value + "\"" + v[1..] == st.value + v;
    } else {
      assert s[0] == v[0] && s[1..] == Escape(v[1..]) + "\"";
      EscapedScan(v[1..], st.(value := st.value + [v[0]]));
      assert st.value + [v[0]] + v[1..] == st.value + v;
    }
  }

  /** One written field, read at the start of a field, becomes the pending value. */
  lemma FieldScan(v: string, st: Scan)
    requires !st.quoted && st.value == ""
    ensures Step(EncodeField(v), st) == st.(value := v)
  {
    if IsPlain(v) {
      PlainScan(v, st);
      assert st.value + v == v;
    } else {
      var s := "\"" + (Escape(v) + "\"");
      assert EncodeField(v) == s;
      assert s[0] == '"' && s[1..] == Escape(v) + "\"";
      EscapedScan(v, st.(quoted := true));
      assert st.(quoted := true).value + v == v;
    }
  }

  /** One turn of the loop. */
  lemma StepOnce(s: string, st: Scan)
    requires s != []
    ensures Step(s, st) == Step(s[Next(s, st).width..], Next(s, st).next)
  {
  }

  /** Outside quotes, a comma saves the pending field. */
  lemma CommaStep(rest: string, st: Scan)
    requires !st.quoted
    ensures Step("," + rest, st) == Step(rest, st.(line := st.line + [st.value], value := ""))
  {
    StepOnce("," + rest, st);
    assert ("," + rest)[1..] == rest;
    assert Next("," + rest, st).next == st.(line := st.line + [st.value], value := "");
  }

  /** Outside quotes, a line break saves the pending field and record. */
  lemma NewlineStep(rest: string, st: Scan)
    requires !st.quoted
    ensures Step("\n" + rest, st) == Step(rest, Scan(st.lines + [st.line + [st.value]], [], "", false))
  {
    StepOnce("\n" + rest, st);
    assert ("\n" + rest)[1..] == rest;
    assert Next("\n" + rest, st).next == Scan(st.lines + [st.line + [st.value]], [], "", false);
  }

  /** A written field and the comma after it, read at the start of a field, save the field. */
  lemma FieldComma(v: string, rest: string, st: Scan)
    requires !st.quoted && st.value == ""
    ensures Step(EncodeField(v) + ("," + rest), st) == Step(rest, st.(line := st.line + [v]))
  {
    StepAppend(EncodeField(v), "," + rest, st);
    FieldScan(v, st);
    CommaStep(rest, st.(value := v));
  }

  lemma EncodeRowCons(row: seq<string>)
    requires |row| >= 2
    ensures EncodeRow(row) == EncodeField(row[0]) + ("," + EncodeRow(row[1..]))
  {
    assert EncodeFields(row)[1..] == EncodeFields(row[1..]);
  }

  /** The fields of a written record, read from the start of a record, leave the last one pending. */
  lemma {:induction false} FieldsScan(row: seq<string>, st: Scan)
    requires row != []
    requires !st.quoted && st.value == ""
    ensures Step(EncodeRow(row), st) == st.(line := st.line + row[..|row| - 1], value := row[|row| - 1])
    decreases |row|
  {
    if |row| == 1 {
      FieldsScanOne(row, st);
    } else {
      FieldsScan(row[1..], st.(line := st.line + [row[0]]));
      FieldsScanCons(row, st);
    }
  }

  lemma FieldsScanOne(row: seq<string>, st: Scan)
    requires |row| == 1 && !st.quoted && st.value == ""
    ensures Step(EncodeRow(row), st) == st.(line := st.line + row[..0], value := row[0])
  {
    assert EncodeRow(row) == EncodeField(row[0]);
    FieldScan(row[0], st);
    assert st.line + row[..0] == st.line;
  }

  /** Reading the first field and its comma, then the rest of the record. */
  lemma FieldsScanCons(row: seq<string>, st: Scan)
    requires |row| >= 2 && !st.quoted && st.value == ""
    requires Step(EncodeRow(row[1..]), st.(line := st.line + [row[0]]))
      == st.(line := st.line + [row[0]] + row[1..][..|row| - 2], value := row[|row| - 1])
    ensures Step(EncodeRow(row), st) == st.(line := st.line + row[..|row| - 1], value := row[|row| - 1])
  {
    FirstFieldStep(row, st);
    ConsPrefix(st.line, row);
  }

  lemma ConsPrefix<T>(p: seq<T>, row: seq<T>)
    requires |row| >= 2
    ensures p + [row[0]] + row[1..][..|row| - 2] == p + row[..|row| - 1]
  {
  }

  /** Reading a record of two or more fields saves the first and goes on with the rest. */
  lemma FirstFieldStep(row: seq<string>, st: Scan)
    requires |row| >= 2 && !st.quoted && st.value == ""
    ensures Step(EncodeRow(row), st) == Step(EncodeRow(row[1..]), st.(line := st.line + [row[0]]))
  {
    EncodeRowCons(row);
    FieldComma(row[0], EncodeRow(row[1..]), st);
  }

  lemma EncodeTableCons(rows: seq<seq<string>>)
    requires |rows| >= 2
    ensures EncodeTable(rows) == EncodeRow(rows[0]) + ("\n" + EncodeTable(rows[1..]))
  {
    assert EncodeRows(rows)[1..] == EncodeRows(rows[1..]);
  }

  /** A written record and the line break after it, read at the start of a record, save the record. */
  lemma RowNewline(row: seq<string>, rest: string, st: Scan)
    requires row != [] && !st.quoted && st.value == "" && st.line == []
    ensures Step(EncodeRow(row) + ("\n" + rest), st) == Step(rest, Scan(st.lines + [row], [], "", false))
  {
    var n := |row| - 1;
    var a, b := EncodeRow(row), "\n" + rest;
    var st1 := st.(line := row[..n], value := row[n]);
    FieldsScan(row, st);
    assert st.line + row[..n] == row[..n];
    assert b[0] == '\n';
    StepAppend(a, b, st);
    NewlineStep(rest, st1);
    assert st1.line + [st1.value] == row;
  }

  /** The last written record, read at the start of a record, is saved when the text ends. */
  lemma LastRow(row: seq<string>, st: Scan)
    requires row != [] && !st.quoted && st.value == "" && st.line == []
    ensures Finish(Step(EncodeRow(row), st)) == st.lines + [row]
  {
    var n := |row| - 1;
    FieldsScan(row, st);
    assert st.line + row[..n] == row[..n];
    assert row[..n] + [row[n]] == row;
  }

  /** Reading `e` starts with the first record, then reads `t`. */
  lemma RowsChain(rows: seq<seq<string>>, st: Scan, e: string, t: string)
    requires |rows| >= 2
    requires Step(e, st) == Step(t, Scan(st.lines + [rows[0]], [], "", false))
    requires Finish(Step(t, Scan(st.lines + [rows[0]], [], "", false))) == st.lines + [rows[0]] + rows[1..]
    ensures Finish(Step(e, st)) == st.lines + rows
  {
    assert st.lines + [rows[0]] + rows[1..] == st.lines + rows;
  }

  /** The records of a written table, read from the start of a record, come back in order. */
  lemma {:induction false} RowsScan(rows: seq<seq<string>>, st: Scan)
    requires rows != [] && NoEmptyRecord(rows)
    requires !st.quoted && st.value == "" && st.line == []
    ensures Finish(Step(EncodeTable(rows), st)) == st.lines + rows
    decreases |rows|
  {
    if |rows| == 1 {
      assert EncodeTable(rows) == EncodeRow(rows[0]);
      LastRow(rows[0], st);
    } else {
      EncodeTableCons(rows);
      RowNewline(rows[0], EncodeTable(rows[1..]), st);
      RowsScan(rows[1..], Scan(st.lines + [rows[0]], [], "", false));
      RowsChain(rows, st, EncodeTable(rows), EncodeTable(rows[1..]));
    }
  }

  /** Trimmed fields are left as they are. */
  lemma TrimFieldsKeeps(rows: seq<seq<string>>)
    requires Shaped(rows)
    ensures TrimFields(rows) == rows
  {
    var ts := TrimFields(rows);
    forall i | 0 <= i < |rows| ensures ts[i] == rows[i] {
      forall j | 0 <= j < |rows[i]| ensures ts[i][j] == rows[i][j] {
        JsTrimKeeps(rows[i][j]);
      }
    }
  }

  /** Writing a table and reading it back gives its records with every field trimmed. */
  lemma RecordsRoundTrip(rows: seq<seq<string>>)
    requires rows != [] && Writable(rows)
    ensures Records(EncodeTable(rows)) == TrimFields(rows)
    ensures Shaped(rows) ==> Records(EncodeTable(rows)) == rows
  {
    NoCrInTable(rows);
    NormalizeSpec(EncodeTable(rows));
    RowsScan(rows, Start);
    assert Start.lines + rows == rows;
    if Shaped(rows) {
      TrimFieldsKeeps(rows);
    }
  }

  /** A line break at the end of the text adds one record holding one empty field. */
  lemma TrailingNewline(rows: seq<seq<string>>)
    requires rows != [] && Writable(rows) && Shaped(rows)
    ensures Records(EncodeTable(rows) + "\n") == rows + [[""]]
  {
    var es := EncodeRows(rows);
    var more := rows + [[""]];
    Text.JoinSnoc(es, "", "\n");
    assert EncodeRows(more) == es + [""];
    assert EncodeTable(more) == EncodeTable(rows) + "\n";
    assert forall i :: 0 <= i < |more| ==> more[i] == if i < |rows| then rows[i] else [""];
    assert Writable(more) && Shaped(more);
    RecordsRoundTrip(more);
  }

  lemma {:induction false} NoCrEscape(v: string)
    requires '\r' !in v
    ensures '\r' !in Escape(v)
    decreases |v|
  {
    if v != [] {
      assert v[0] in v && forall c :: c in v[1..] ==> c in v;
      NoCrEscape(v[1..]);
    }
  }

  lemma {:induction false} NoCrJoin(parts: seq<string>, sep: string)
    requires '\r' !in sep && forall i :: 0 <= i < |parts| ==> '\r' !in parts[i]
    ensures '\r' !in Text.Join(parts, sep)
    decreases |parts|
  {
    if |parts| > 1 {
      NoCrJoin(parts[1..], sep);
    }
  }

  lemma NoCrInTable(rows: seq<seq<string>>)
    requires Writable(rows)
    ensures '\r' !in EncodeTable(rows)
  {
    var es := EncodeRows(rows);
    forall i | 0 <= i < |es| ensures '\r' !in es[i] {
      var fs := EncodeFields(rows[i]);
      forall j | 0 <= j < |fs| ensures '\r' !in fs[j] {
        NoCrEscape(rows[i][j]);
      }
      NoCrJoin(fs, ",");
    }
    NoCrJoin(es, "\n");
  }

  // ------------------------------------------------------------ row objects

  /** `line[i] || ''`: the field, or `""` past the end of the row. */
  function Cell(line: seq<string>, i: nat): string {
    if i < |line| then line[i] else ""
  }

  /** The object built for one data row: `obj[headers[i]] = line[i] || ''` for each header in turn. */
  function RowObject(headers: seq<string>, line: seq<string>): (obj: map<string, string>)
    ensures forall h :: h in obj <==> h in headers
    decreases |headers|
  {
    if headers == [] then map[]
    else
      var n := |headers| - 1;
      assert forall h :: h in headers <==> h in headers[..n] || h == headers[n];
      RowObject(headers[..n], line)[headers[n] := Cell(line, n)]
  }

  /** Each header maps to the field under its last occurrence. */
  lemma {:induction false} RowObjectAt(headers: seq<string>, line: seq<string>, i: nat)
    requires i < |headers|
    requires forall j :: i < j < |headers| ==> headers[j] != headers[i]
    ensures RowObject(headers, line)[headers[i]] == Cell(line, i)
    decreases |headers|
  {
    var n := |headers| - 1;
    if i < n {
      assert headers[..n][i] == headers[i];
      RowObjectAt(headers[..n], line, i);
    }
  }

  /** `{ headers, data }`. */
  datatype Table = Table(headers: seq<string>, data: seq<map<string, string>>)

  /** The header row and one row object per later record. */
  function ParseRecords(rs: seq<seq<string>>): (t: Table)
    requires |rs| >= 1
    ensures t.headers == rs[0] && |t.data| == |rs| - 1
    ensures forall i :: 0 <= i < |t.data| ==> t.data[i] == RowObject(rs[0], rs[i + 1])
  {
    Table(rs[0], seq(|rs| - 1, i requires 0 <= i < |rs| - 1 => RowObject(rs[0], rs[i + 1])))
  }

  /** `parseCSV`. */
  function ParseCsv(csv: string): Table {
    RecordsShaped(csv);
    ParseRecords(Records(csv))
  }

  predicate Distinct(hs: seq<string>) {
    forall k, l :: 0 <= k < l < |hs| ==> hs[k] != hs[l]
  }

  /** With distinct headers, every row object holds the row's fields by header. */
  lemma ParseRecordsAt(rs: seq<seq<string>>, j: nat, i: nat)
    requires |rs| >= 1 && Distinct(rs[0]) && j + 1 < |rs| && i < |rs[0]|
    ensures var t := ParseRecords(rs);
      && (forall h :: h in t.data[j] <==> h in rs[0])
      && t.data[j][rs[0][i]] == Cell(rs[j + 1], i)
  {
    RowObjectAt(rs[0], rs[j + 1], i);
  }

  /** Text whose records are a header row and `rows` parses to objects holding each row's fields by header. */
  lemma ParseCsvAt(csv: string, headers: seq<string>, rows: seq<seq<string>>, j: nat, i: nat)
    requires Records(csv) == [headers] + rows && Distinct(headers)
    requires j < |rows| && i < |headers|
    ensures var t := ParseCsv(csv);
      && t.headers == headers && |t.data| == |rows|
      && (forall h :: h in t.data[j] <==> h in headers)
      && t.data[j][headers[i]] == Cell(rows[j], i)
  {
    var rs := [headers] + rows;
    assert rs[0] == headers && rs[j + 1] == rows[j];
    ParseRecordsAt(rs, j, i);
  }

  /** A written table with distinct headers reads back to objects holding each row's fields by header. */
  lemma ParseCsvRoundTrip(headers: seq<string>, rows: seq<seq<string>>, j: nat, i: nat)
    requires Writable([headers] + rows) && Shaped([headers] + rows) && Distinct(headers)
    requires j < |rows| && i < |headers|
    ensures var t := ParseCsv(EncodeTable([headers] + rows));
      && t.headers == headers && |t.data| == |rows|
      && (forall h :: h in t.data[j] <==> h in headers)
      && t.data[j][headers[i]] == Cell(rows[j], i)
  {
    RecordsRoundTrip([headers] + rows);
    ParseCsvAt(EncodeTable([headers] + rows), headers, rows, j, i);
  }

  // ------------------------------------------------------------ buildGraphJSON

  /** A JavaScript value's truthiness for a string property that may be `undefined`. */
  predicate Truthy(v: Option<string>) {
    v.Some? && v.value != ""
  }

  function Lookup(obj: map<string, string>, key: string): Option<string> {
    if key in obj then Some(obj[key]) else None
  }

  /** JavaScript's `Boolean` on a string. */
  predicate NonEmptyPart(p: string) {
    p != []
  }

  /** The `|`-separated parts of `s` without the empty ones (`split('|').filter(Boolean)`). */
  function Parts(s: string): (r: seq<string>)
    ensures forall p :: p in r ==> p != [] && '|' !in p
  {
    var ps := Text.Split(s, "|");
    var r := Seqs.Filter(ps, NonEmptyPart);
    forall p | p in r ensures '|' !in p {
      var k :| 0 <= k < |ps| && ps[k] == p;
      assert !Text.Contains(ps[k], "|");
      Text.ContainsChar(p, '|');
    }
    r
  }

  /** The pieces of `s` between bars, each without a bar: splitting recovers them. */
  lemma SplitPieces(s: string)
    ensures forall i :: 0 <= i < |Text.Split(s, "|")| ==> '|' !in Text.Split(s, "|")[i]
  {
    var ps := Text.Split(s, "|");
    forall i | 0 <= i < |ps| ensures '|' !in ps[i] {
      assert !Text.Contains(ps[i], "|");
      Text.ContainsChar(ps[i], '|');
    }
  }

  /** Whatever bar-free pieces a string is joined from, its parts are the non-empty ones, in order. */
  lemma PartsOfJoin(ps: seq<string>)
    requires |ps| >= 1 && forall i :: 0 <= i < |ps| ==> '|' !in ps[i]
    ensures Parts(Text.Join(ps, "|")) == Seqs.Filter(ps, NonEmptyPart)
  {
    Text.SplitJoin(ps, "|");
  }

  /** Joining non-empty bar-free parts with `|` and taking the parts gives them back. */
  lemma PartsJoin(ps: seq<string>)
    requires forall i :: 0 <= i < |ps| ==> ps[i] != [] && '|' !in ps[i]
    ensures Parts(Text.Join(ps, "|")) == ps
  {
    if ps == [] {
      assert Text.Split([], "|") == [[]];
      assert Parts([]) == Seqs.Filter([[]], NonEmptyPart);
    } else {
      PartsOfJoin(ps);
      Seqs.FilterAll(ps, NonEmptyPart);
    }
  }

  /** The parts of two strings joined by a bar are the parts of the first, then those of the second. */
  lemma PartsAppend(a: string, b: string)
    ensures Parts(a + "|" + b) == Parts(a) + Parts(b)
  {
    var pa, pb := Text.Split(a, "|"), Text.Split(b, "|");
    SplitPieces(a);
    SplitPieces(b);
    Text.JoinAppend(pa, pb, "|");
    assert forall i :: 0 <= i < |pa + pb| ==> '|' !in (pa + pb)[i] by {
      forall i | 0 <= i < |pa + pb| ensures '|' !in (pa + pb)[i] {
        if i < |pa| { assert (pa + pb)[i] == pa[i]; } else { assert (pa + pb)[i] == pb[i - |pa|]; }
      }
    }
    PartsOfJoin(pa + pb);
    Seqs.FilterAppend(pa, pb, NonEmptyPart);
  }

  /** `type` after the split: left alone, or the list of its parts. */
  datatype Types = Untouched(raw: Option<string>) | Split(parts: seq<string>)

  /** A label with its document indices split off. */
  datatype Tagged = Tagged(name: Option<string>, documentIds: Option<seq<string>>, types: Types)

  /** `extractDocumentIDs` on an object with the given `label` and `type`. */
  function ExtractDocumentIds(name: Option<string>, kind: Option<string>): (t: Tagged)
    ensures t.documentIds.Some? <==> Truthy(name)
    ensures t.documentIds.Some? ==> t.documentIds.value != [] && forall d :: d in t.documentIds.value ==> d != []
    ensures !Truthy(name) ==> t == Tagged(name, None, Untouched(kind))
  {
    if !Truthy(name) then Tagged(name, None, Untouched(kind))
    else
      var ps := Text.Split(name.value, "|");
      var ids := Seqs.Filter(ps[1..], NonEmptyPart);
      Tagged(Some(ps[0]), Some(if ids == [] then ["0"] else ids),
             if Truthy(kind) then Split(Parts(kind.value)) else Untouched(kind))
  }

  datatype ViewNode = ViewNode(id: Option<string>, tagged: Tagged)
  datatype ViewEdge = ViewEdge(source: Option<string>, target: Option<string>, tagged: Tagged)

  /** `buildGraphJSON` on the two tables (the metadata passes through unchanged). */
  function BuildGraph(nodes: Table, edges: Table): (g: (seq<ViewNode>, seq<ViewEdge>))
    ensures |g.0| == |nodes.data| && |g.1| == |edges.data|
    ensures forall i :: 0 <= i < |nodes.data| ==> g.0[i].id == Lookup(nodes.data[i], "id")
    ensures forall i :: 0 <= i < |edges.data| ==>
      g.1[i].source == Lookup(edges.data[i], "source") && g.1[i].target == Lookup(edges.data[i], "target")
  {
    (seq(|nodes.data|, i requires 0 <= i < |nodes.data| =>
       var o := nodes.data[i];
       ViewNode(Lookup(o, "id"), ExtractDocumentIds(Lookup(o, "label"), Lookup(o, "type")))),
     seq(|edges.data|, i requires 0 <= i < |edges.data| =>
       var o := edges.data[i];
       ViewEdge(Lookup(o, "source"), Lookup(o, "target"), ExtractDocumentIds(Lookup(o, "label"), None))))
  }

  /** A label written by the document merger reads back as its base label and its documents' indices. */
  lemma ExtractTag(base: string, docs: seq<nat>, kind: Option<string>)
    requires '|' !in base && docs != []
    ensures var t := ExtractDocumentIds(Some(DocumentMerge.Tag(base, docs)), kind);
      && t.name == Some(base)
      && t.documentIds == Some(DocumentMerge.Decimals(DocumentMerge.DocNumbers(docs)))
  {
    var tag := DocumentMerge.Tag(base, docs);
    DocumentMerge.TagSplit(base, docs);
    var ds := DocumentMerge.Decimals(DocumentMerge.DocNumbers(docs));
    assert tag[|base|] == '|';
    var ps := Text.Split(tag, "|");
    assert ps[1..] == ds;
    assert docs[0] in DocumentMerge.DocNumbers(docs);
    assert ds != [];
    Seqs.FilterAll(ds, NonEmptyPart);
  }

  /** A label without a `|` keeps its text and is attributed to document `"0"`. */
  lemma ExtractUntagged(name: string, kind: Option<string>)
    requires name != [] && '|' !in name
    ensures ExtractDocumentIds(Some(name), kind).name == Some(name)
    ensures ExtractDocumentIds(Some(name), kind).documentIds == Some(["0"])
  {
    Text.SplitJoin([name], "|");
  }

  /** A type column written by the merger reads back as its sorted, distinct, non-empty types. */
  lemma ExtractTypes(name: string, kinds: seq<string>)
    requires name != []
    requires forall k :: k in kinds ==> '|' !in k
    ensures var t := ExtractDocumentIds(Some(name), Some(GraphMerge.TypeString(kinds)));
      if GraphMerge.NonEmpty(kinds) == [] then t.types == Untouched(Some(""))
      else t.types == Split(Sorting.SortedStrings(GraphMerge.NonEmpty(kinds)))
  {
    var ks := Sorting.SortedStrings(GraphMerge.NonEmpty(kinds));
    Seqs.SameMembersEmpty(ks, GraphMerge.NonEmpty(kinds));
    if GraphMerge.NonEmpty(kinds) != [] {
      forall i | 0 <= i < |ks| ensures '|' !in ks[i] && ks[i] != [] {
        assert ks[i] in ks;
      }
      Text.JoinEmpty(ks, "|");
      PartsJoin(ks);
    }
  }
}
