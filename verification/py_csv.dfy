/**
  The first record of Python's `csv.reader` in the default dialect (delimiter `,`,
  quote `"`, doubled quotes, non-strict), read from a text stream that yields one
  physical line per `\n`, with or without `skipinitialspace`. Without it, the same
  machine also splits a line the way the default tokenizer of pandas' `read_csv`
  does when the line holds a whole record.

  The reader is a character state machine. After the last character of every
  physical line it also handles an end-of-line event; a record is complete when
  that event leaves the machine at the start of a record. A quote opens a quoted
  field only at the start of a field; inside quotes, delimiters and line breaks
  are literal and `""` stands for one quote. With `skipinitialspace` the spaces at
  the start of a field are dropped (so a quote after them still opens the field);
  without it they belong to the field, and a quote after them is an ordinary
  character. Outside quotes, a line break ends the record, and any ordinary
  character that follows a `\r` on the same physical line is the reader's
  "new-line character seen in unquoted field" error.
*/
module PyCsv {
  import opened Wrappers
  import Text

  datatype State = StartRecord | StartField | InField | InQuoted | QuoteInQuoted | EatCrnl

  /** The reader's `_csv.Error` for a line break inside an unquoted field. */
  datatype ReadError = NewlineInUnquotedField

  /** The machine: its state, the field being built and the fields already saved. */
  datatype Reader = Reader(state: State, field: string, fields: seq<string>)

  const Fresh := Reader(StartRecord, "", [])

  predicate IsNewline(c: char) {
    c == '\n' || c == '\r'
  }

  /** Ends the current field and moves to `next`. */
  function Save(r: Reader, next: State): (r': Reader)
    ensures r'.fields == r.fields + [r.field] && r'.field == [] && r'.state == next
  {
    Reader(next, "", r.fields + [r.field])
  }

  /** One character at the start of a field; `skip` is `skipinitialspace`. */
  function FieldStart(r: Reader, c: char, skip: bool): Reader {
    if IsNewline(c) then Save(r, EatCrnl)
    else if c == '"' then r.(state := InQuoted)
    else if c == ' ' && skip then r.(state := StartField)
    else if c == ',' then Save(r, StartField)
    else Reader(InField, r.field + [c], r.fields)
  }

  /** One ordinary character of the stream. */
  function Step(r: Reader, c: char, skip: bool): Result<Reader, ReadError> {
    match r.state
    case StartRecord =>
      if IsNewline(c) then Success(r.(state := EatCrnl)) else Success(FieldStart(r, c, skip))
    case StartField => Success(FieldStart(r, c, skip))
    case InField =>
      if IsNewline(c) then Success(Save(r, EatCrnl))
      else if c == ',' then Success(Save(r, StartField))
      else Success(r.(field := r.field + [c]))
    case InQuoted =>
      if c == '"' then Success(r.(state := QuoteInQuoted))
      else Success(r.(field := r.field + [c]))
    case QuoteInQuoted =>
      if c == '"' then Success(Reader(InQuoted, r.field + [c], r.fields))
      else if c == ',' then Success(Save(r, StartField))
      else if IsNewline(c) then Success(Save(r, EatCrnl))
      else Success(Reader(InField, r.field + [c], r.fields))
    case EatCrnl =>
      if IsNewline(c) then Success(r) else Failure(NewlineInUnquotedField)
  }

  /** The end-of-line event after each physical line. */
  function EndOfLine(r: Reader): Reader {
    match r.state
    case StartRecord => r
    case StartField => Save(r, StartRecord)
    case InField => Save(r, StartRecord)
    case InQuoted => r
    case QuoteInQuoted => Save(r, StartRecord)
    case EatCrnl => r.(state := StartRecord)
  }

  /** The stream ran out before the record was complete: a pending field or open quote is kept. */
  function Exhausted(r: Reader): Option<seq<string>> {
    if |r.field| > 0 || r.state == InQuoted then Some(r.fields + [r.field]) else None
  }

  /**
    Reads the rest `s` of the stream from machine `r`; `lineStart` says no character
    of the current physical line has been read yet. `None` is the exhausted
    iterator (`next(reader, None)`).
  */
  function Read(s: string, r: Reader, lineStart: bool, skip: bool): Result<Option<seq<string>>, ReadError>
    decreases |s|
  {
    if s == [] then
      if lineStart then Success(Exhausted(r))
      else
        var e := EndOfLine(r);
        if e.state == StartRecord then Success(Some(e.fields)) else Success(Exhausted(e))
    else
      match Step(r, s[0], skip)
      case Failure(err) => Failure(err)
      case Success(r1) =>
        if s[0] == '\n' then
          var e := EndOfLine(r1);
          if e.state == StartRecord then Success(Some(e.fields)) else Read(s[1..], e, true, skip)
        else Read(s[1..], r1, false, skip)
  }

  /** `next(csv.reader(io.StringIO(s), skipinitialspace=True), None)`. */
  function FirstRecord(s: string): Result<Option<seq<string>>, ReadError> {
    Read(s, Fresh, true, true)
  }

  /** Without `\r` or `\n` the machine never reaches `EatCrnl`, so reading cannot fail and ends with a record. */
  lemma {:induction false} ReadNoBreak(s: string, r: Reader, lineStart: bool, skip: bool)
    requires r.state != EatCrnl
    requires forall i :: 0 <= i < |s| ==> !IsNewline(s[i])
    requires s != [] || !lineStart
    ensures Read(s, r, lineStart, skip).Success? && Read(s, r, lineStart, skip).value.Some?
    decreases |s|
  {
    if s != [] {
      var r1 := Step(r, s[0], skip);
      assert r1.Success? && r1.value.state != EatCrnl;
      if |s| > 1 {
        ReadNoBreak(s[1..], r1.value, false, skip);
      }
    }
  }

  /** A line without line breaks always yields a record: its field list. */
  lemma LineHasRecord(line: string, skip: bool)
    requires line != [] && Text.NoLineBreak(line)
    ensures Read(line, Fresh, true, skip).Success? && Read(line, Fresh, true, skip).value.Some?
  {
    assert forall i :: 0 <= i < |line| ==> !Text.IsLineBreak(line[i]);
    ReadNoBreak(line, Fresh, true, skip);
  }

  /** The fields `csv.reader(..., skipinitialspace=True)` splits a line into. */
  function LineFields(line: string): (fields: seq<string>)
    requires line != [] && Text.NoLineBreak(line)
    ensures FirstRecord(line) == Success(Some(fields))
  {
    LineHasRecord(line, true);
    FirstRecord(line).value.value
  }

  /**
    The fields of a line without `skipinitialspace`: what pandas' tokenizer makes of
    a line that holds a whole record.
  */
  function PlainFields(line: string): (fields: seq<string>)
    requires line != [] && Text.NoLineBreak(line)
    ensures Read(line, Fresh, true, false) == Success(Some(fields))
  {
    LineHasRecord(line, false);
    Read(line, Fresh, true, false).value.value
  }

  /** The two readers part only at a space, so on text without one they agree. */
  lemma {:induction false} ReadNoSpace(s: string, r: Reader, lineStart: bool)
    requires ' ' !in s
    ensures Read(s, r, lineStart, true) == Read(s, r, lineStart, false)
    decreases |s|
  {
    if s != [] {
      assert s[0] != ' ' && ' ' !in s[1..];
      assert Step(r, s[0], true) == Step(r, s[0], false);
      match Step(r, s[0], true)
      case Failure(_) =>
      case Success(r1) =>
        if s[0] == '\n' {
          ReadNoSpace(s[1..], EndOfLine(r1), true);
        } else {
          ReadNoSpace(s[1..], r1, false);
        }
    }
  }

  /** A line without spaces has the same fields for both readers. */
  lemma FieldsNoSpace(line: string)
    requires line != [] && Text.NoLineBreak(line) && ' ' !in line
    ensures PlainFields(line) == LineFields(line)
  {
    ReadNoSpace(line, Fresh, true);
  }

  /** One character that is not a line break, read in the middle of a line. */
  lemma ReadChar(s: string, r: Reader, r1: Reader, lineStart: bool, skip: bool)
    requires s != [] && !IsNewline(s[0]) && Step(r, s[0], skip) == Success(r1)
    ensures Read(s, r, lineStart, skip) == Read(s[1..], r1, false, skip)
  {
  }

  /** A space after a comma is dropped by one reader and kept by the other. */
  lemma FieldsSpaced()
    ensures LineFields("a, b") == ["a", "b"]
    ensures PlainFields("a, b") == ["a", " b"]
  {
    var r1 := Reader(InField, "a", []);
    var after := Reader(StartField, "", ["a"]);
    assert "a, b"[0] == 'a' && "a, b"[1..] == ", b" && ", b"[1..] == " b" && " b"[1..] == "b" && "b"[1..] == [];
    assert ", b"[0] == ',' && " b"[0] == ' ' && "b"[0] == 'b';
    assert Fresh.field + ['a'] == "a" && r1.fields + [r1.field] == ["a"];
    assert after.field + ['b'] == "b" && after.field + [' '] == " " && " " + ['b'] == " b";
    ReadChar("a, b", Fresh, r1, true, true);
    ReadChar(", b", r1, after, false, true);
    ReadChar(" b", after, after, false, true);
    ReadChar("b", after, Reader(InField, "b", ["a"]), false, true);
    ReadChar("a, b", Fresh, r1, true, false);
    ReadChar(", b", r1, after, false, false);
    ReadChar(" b", after, Reader(InField, " ", ["a"]), false, false);
    ReadChar("b", Reader(InField, " ", ["a"]), Reader(InField, " b", ["a"]), false, false);
  }

  /** After a space a quote is an ordinary character for pandas, so a quoted comma splits the row. */
  lemma FieldsQuoteAfterSpace()
    ensures LineFields("a, \"b,c\"") == ["a", "b,c"]
    ensures PlainFields("a, \"b,c\"") == ["a", " \"b", "c\""]
  {
    var line := "a, \"b,c\"";
    var t := "\"b,c\"";
    var r1 := Reader(InField, "a", []);
    var after := Reader(StartField, "", ["a"]);
    assert line[0] == 'a' && line[1..] == ", " + t && (", " + t)[1..] == " " + t && (" " + t)[1..] == t;
    assert (", " + t)[0] == ',' && (" " + t)[0] == ' ';
    assert Fresh.field + ['a'] == "a" && r1.fields + [r1.field] == ["a"] && after.field + [' '] == " ";
    ReadChar(line, Fresh, r1, true, true);
    ReadChar(", " + t, r1, after, false, true);
    ReadChar(" " + t, after, after, false, true);
    SkipTail();
    ReadChar(line, Fresh, r1, true, false);
    ReadChar(", " + t, r1, after, false, false);
    ReadChar(" " + t, after, Reader(InField, " ", ["a"]), false, false);
    PlainTail();
  }

  /** The rest of that line with `skipinitialspace`: one quoted field holding the comma. */
  lemma SkipTail()
    ensures Read("\"b,c\"", Reader(StartField, "", ["a"]), false, true) == Success(Some(["a", "b,c"]))
  {
    var after := Reader(StartField, "", ["a"]);
    assert "\"b,c\"" == ['"'] + ("b,c" + "\"" + "");
    ReadOpenQuote("b,c" + "\"" + "", after, false);
    ReadQuoted("b,c", "", after.(state := InQuoted), false);
    assert after.field + "b,c" == "b,c" && ["a"] + ["b,c"] == ["a", "b,c"];
    assert Read("", Reader(QuoteInQuoted, "b,c", ["a"]), false, true) == Success(Some(["a", "b,c"]));
  }

  /** The rest of that line for pandas: the quote is kept and the comma ends a field. */
  lemma PlainTail()
    ensures Read("\"b,c\"", Reader(InField, " ", ["a"]), false, false) == Success(Some(["a", " \"b", "c\""]))
  {
    var t := "\"b,c\"";
    assert t[0] == '"' && t[1..] == "b,c\"" && t[1..][0] == 'b' && t[1..][1..] == ",c\"";
    assert ",c\""[1..] == "c\"" && "c\""[0] == 'c' && "c\""[1..] == "\"" && "\""[1..] == [];
    assert " " + ['"'] == " \"" && " \"" + ['b'] == " \"b" && "" + ['c'] == "c" && "c" + ['"'] == "c\"";
    assert ["a"] + [" \"b"] == ["a", " \"b"] && ["a", " \"b"] + ["c\""] == ["a", " \"b", "c\""];
    ReadChar(t, Reader(InField, " ", ["a"]), Reader(InField, " \"", ["a"]), false, false);
    ReadChar("b,c\"", Reader(InField, " \"", ["a"]), Reader(InField, " \"b", ["a"]), false, false);
    ReadChar(",c\"", Reader(InField, " \"b", ["a"]), Reader(StartField, "", ["a", " \"b"]), false, false);
    ReadChar("c\"", Reader(StartField, "", ["a", " \"b"]), Reader(InField, "c", ["a", " \"b"]), false, false);
    ReadChar("\"", Reader(InField, "c", ["a", " \"b"]), Reader(InField, "c\"", ["a", " \"b"]), false, false);
  }

  /** `"n"`: a field wrapped in quotes. */
  function Quote(n: string): string {
    "\"" + n + "\""
  }

  /** Reading a quoted field's contents up to its closing quote. */
  lemma {:induction false} ReadQuoted(n: string, rest: string, r: Reader, lineStart: bool)
    requires r.state == InQuoted && '"' !in n
    ensures Read(n + "\"" + rest, r, lineStart, true)
         == Read(rest, Reader(QuoteInQuoted, r.field + n, r.fields), false, true)
    decreases |n|
  {
    var s := n + "\"" + rest;
    if n == [] {
      assert s == ['"'] + rest;
      assert s[1..] == rest;
      assert r.field + n == r.field;
    } else {
      assert s[0] == n[0] && s[1..] == n[1..] + "\"" + rest;
      var r1 := Reader(InQuoted, r.field + [n[0]], r.fields);
      assert Step(r, s[0], true) == Success(r1);
      assert r1.field + n[1..] == r.field + n;
      if n[0] == '\n' {
        assert EndOfLine(r1) == r1;
        ReadQuoted(n[1..], rest, r1, true);
      } else {
        ReadQuoted(n[1..], rest, r1, false);
      }
    }
  }

  /** `", ".join(f'"{n}"' for n in ns)`: the entity list that phase one feeds back to the model. */
  function QuotedList(ns: seq<string>): string {
    if |ns| == 0 then "" else if |ns| == 1 then Quote(ns[0]) else Quote(ns[0]) + ", " + QuotedList(ns[1..])
  }

  /** An opening quote at the start of a field enters the quoted state. */
  lemma ReadOpenQuote(x: string, r: Reader, lineStart: bool)
    requires r.state == StartField || r.state == StartRecord
    ensures Read(['"'] + x, r, lineStart, true) == Read(x, r.(state := InQuoted), false, true)
  {
    assert (['"'] + x)[0] == '"' && (['"'] + x)[1..] == x;
  }

  /** The `, ` between two quoted items closes the first as a field and skips the space. */
  lemma ReadSeparator(tail: string, field: string, fields: seq<string>)
    ensures Read(", " + tail, Reader(QuoteInQuoted, field, fields), false, true)
         == Read(tail, Reader(StartField, "", fields + [field]), false, true)
  {
    var saved := Reader(StartField, "", fields + [field]);
    assert Step(Reader(QuoteInQuoted, field, fields), ',', true) == Success(saved);
    assert Step(saved, ' ', true) == Success(saved);
    assert (", " + tail)[0] == ',' && (", " + tail)[1..] == " " + tail;
    assert (" " + tail)[0] == ' ' && (" " + tail)[1..] == tail;
  }

  /** A whole quoted item from the start of a field, up to what follows its closing quote. */
  lemma ReadQuotedItem(n: string, rest: string, r: Reader, lineStart: bool)
    requires r.state == StartField || r.state == StartRecord
    requires r.field == [] && '"' !in n
    ensures Read(Quote(n) + rest, r, lineStart, true) == Read(rest, Reader(QuoteInQuoted, n, r.fields), false, true)
  {
    assert Quote(n) + rest == ['"'] + (n + "\"" + rest);
    ReadOpenQuote(n + "\"" + rest, r, lineStart);
    ReadQuoted(n, rest, r.(state := InQuoted), false);
    assert r.field + n == n;
  }

  /** The last quoted item: the line ends and the record is complete. */
  lemma ReadLastItem(n: string, r: Reader, lineStart: bool)
    requires r.state == StartField || r.state == StartRecord
    requires r.field == [] && '"' !in n
    ensures Read(Quote(n), r, lineStart, true) == Success(Some(r.fields + [n]))
  {
    ReadQuotedItem(n, "", r, lineStart);
    assert Quote(n) + "" == Quote(n);
  }

  /** An item followed by `, ` and more: the item is saved and the next field starts. */
  lemma ReadNextItem(n: string, tail: string, r: Reader, lineStart: bool)
    requires r.state == StartField || r.state == StartRecord
    requires r.field == [] && '"' !in n
    ensures Read(Quote(n) + ", " + tail, r, lineStart, true) == Read(tail, Reader(StartField, "", r.fields + [n]), false, true)
  {
    ReadQuotedItem(n, ", " + tail, r, lineStart);
    ReadSeparator(tail, n, r.fields);
    assert Quote(n) + ", " + tail == Quote(n) + (", " + tail);
  }

  /** Reading a quoted list from the start of a field appends its items as fields. */
  lemma {:induction false} ReadQuotedList(ns: seq<string>, r: Reader, lineStart: bool)
    requires |ns| >= 1 && forall k :: 0 <= k < |ns| ==> '"' !in ns[k]
    requires r.state == StartField || r.state == StartRecord
    requires r.field == []
    ensures Read(QuotedList(ns), r, lineStart, true) == Success(Some(r.fields + ns))
    decreases |ns|
  {
    if |ns| == 1 {
      ReadLastItem(ns[0], r, lineStart);
      assert r.fields + ns == r.fields + [ns[0]];
    } else {
      ReadNextItem(ns[0], QuotedList(ns[1..]), r, lineStart);
      ReadQuotedList(ns[1..], Reader(StartField, "", r.fields + [ns[0]]), false);
      assert r.fields + [ns[0]] + ns[1..] == r.fields + ns;
    }
  }

  /** The quoted list of items without quotes reads back as those items. */
  lemma QuotedListRoundTrip(ns: seq<string>)
    requires |ns| >= 1 && forall k :: 0 <= k < |ns| ==> '"' !in ns[k]
    ensures FirstRecord(QuotedList(ns)) == Success(Some(ns))
  {
    ReadQuotedList(ns, Fresh, true);
    assert Fresh.fields + ns == ns;
  }
}
