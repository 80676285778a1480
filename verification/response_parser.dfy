/**
  Turning a model response into a node table and an edge table.

  The response is free text holding two CSV sections: nodes under a line starting
  `id,entity,category` and edges under a line starting `source,target,relationship`.
  Rows are validated by their quote-aware field count; a failed node section fails
  the whole parse while a failed edge section still returns the nodes. Surviving
  edges are deduplicated, nodes no edge mentions are dropped, and node ids are
  renumbered densely from 0. Ids are compared as the strings the CSV holds.
*/
module ResponseParser {
  import opened Wrappers
  import Text
  import PyCsv
  import Seqs

  const NodeHeader := "id,entity,category"
  const EdgeHeader := "source,target,relationship"
  const Columns := 3

  // ---------------------------------------------------------------- routing

  /** The section the scan of the response is currently in. */
  datatype Section = NoSection | InNodes | InEdges

  datatype Sections = Sections(nodeLines: seq<string>, edgeLines: seq<string>)

  /** A Markdown heading or a code fence. */
  predicate IsDecoration(t: string) {
    Text.StartsWith(t, "#") || Text.StartsWith(t, "```")
  }

  /** A section line: non-blank, stripped, not a decoration. */
  predicate SectionLine(x: string) {
    x != [] && Text.IsStripped(x) && !IsDecoration(x)
  }

  /** What the scan keeps between lines: a header was seen for every open or non-empty section. */
  predicate ScanInvariant(open: Section, acc: Sections) {
    && (open == InNodes ==> acc.nodeLines != [])
    && (open == InEdges ==> acc.edgeLines != [])
    && (acc.nodeLines != [] ==> Text.StartsWith(acc.nodeLines[0], NodeHeader))
    && (acc.edgeLines != [] ==> Text.StartsWith(acc.edgeLines[0], EdgeHeader))
  }

  /**
    One line of the routing loop, already stripped: blank lines are skipped, a header
    line opens its section and is kept, decorations are skipped, and any other line
    goes to the open section or nowhere.
  */
  function RouteLine(t: string, open: Section, acc: Sections): (Section, Sections) {
    if t == [] then (open, acc)
    else if Text.StartsWith(t, NodeHeader) then (InNodes, acc.(nodeLines := acc.nodeLines + [t]))
    else if Text.StartsWith(t, EdgeHeader) then (InEdges, acc.(edgeLines := acc.edgeLines + [t]))
    else if IsDecoration(t) then (open, acc)
    else if open == InNodes then (open, acc.(nodeLines := acc.nodeLines + [t]))
    else if open == InEdges then (open, acc.(edgeLines := acc.edgeLines + [t]))
    else (open, acc)
  }

  /** A routing step keeps the invariant, only appends, and appends only section lines. */
  lemma RouteLineSound(t: string, open: Section, acc: Sections)
    requires Text.IsStripped(t) && ScanInvariant(open, acc)
    ensures var (open', acc') := RouteLine(t, open, acc);
      && ScanInvariant(open', acc')
      && acc.nodeLines <= acc'.nodeLines && |acc'.nodeLines| <= |acc.nodeLines| + 1
      && acc.edgeLines <= acc'.edgeLines && |acc'.edgeLines| <= |acc.edgeLines| + 1
      && (|acc'.nodeLines| > |acc.nodeLines| ==> acc'.nodeLines[|acc.nodeLines|] == t && SectionLine(t))
      && (|acc'.edgeLines| > |acc.edgeLines| ==> acc'.edgeLines[|acc.edgeLines|] == t && SectionLine(t))
      && (Text.StartsWith(t, NodeHeader) ==> acc'.nodeLines == acc.nodeLines + [t])
      && (Text.StartsWith(t, EdgeHeader) ==> acc'.edgeLines == acc.edgeLines + [t])
  {
    assert Text.StartsWith(t, NodeHeader) ==> t[0] == 'i';
    assert Text.StartsWith(t, EdgeHeader) ==> t[0] == 's';
    assert Text.StartsWith(t, "#") ==> t[0] == '#';
    assert Text.StartsWith(t, "```") ==> t[0] == '`';
  }

  /** The routing loop over `lines[i..]`, from section `open` with `acc` collected so far. */
  function RouteFrom(lines: seq<string>, i: nat, open: Section, acc: Sections): Sections
    requires i <= |lines|
    decreases |lines| - i
  {
    if i == |lines| then acc
    else
      var (open', acc') := RouteLine(Text.Strip(lines[i]), open, acc);
      RouteFrom(lines, i + 1, open', acc')
  }

  /** The loop only appends stripped section lines and opens each section with its header. */
  lemma {:induction false} RouteFromSound(lines: seq<string>, i: nat, open: Section, acc: Sections)
    requires i <= |lines| && ScanInvariant(open, acc)
    ensures var r := RouteFrom(lines, i, open, acc);
      && acc.nodeLines <= r.nodeLines && acc.edgeLines <= r.edgeLines
      && (r.nodeLines != [] ==> Text.StartsWith(r.nodeLines[0], NodeHeader))
      && (r.edgeLines != [] ==> Text.StartsWith(r.edgeLines[0], EdgeHeader))
      && (forall k :: |acc.nodeLines| <= k < |r.nodeLines| ==> SectionLine(r.nodeLines[k]))
      && (forall k :: |acc.edgeLines| <= k < |r.edgeLines| ==> SectionLine(r.edgeLines[k]))
    decreases |lines| - i
  {
    if i < |lines| {
      var (open', acc') := RouteLine(Text.Strip(lines[i]), open, acc);
      RouteLineSound(Text.Strip(lines[i]), open, acc);
      RouteFromSound(lines, i + 1, open', acc');
    }
  }

  /** Every header line of `lines[i..]` is kept in its section. */
  lemma {:induction false} RouteFromHeaders(lines: seq<string>, i: nat, open: Section, acc: Sections)
    requires i <= |lines| && ScanInvariant(open, acc)
    ensures var r := RouteFrom(lines, i, open, acc);
      && (forall j :: i <= j < |lines| && Text.StartsWith(Text.Strip(lines[j]), NodeHeader)
            ==> Text.Strip(lines[j]) in r.nodeLines)
      && (forall j :: i <= j < |lines| && Text.StartsWith(Text.Strip(lines[j]), EdgeHeader)
            ==> Text.Strip(lines[j]) in r.edgeLines)
    decreases |lines| - i
  {
    if i < |lines| {
      var t := Text.Strip(lines[i]);
      var (open', acc') := RouteLine(t, open, acc);
      RouteLineSound(t, open, acc);
      RouteFromHeaders(lines, i + 1, open', acc');
      RouteFromSound(lines, i + 1, open', acc');
      var r := RouteFrom(lines, i + 1, open', acc');
      assert r == RouteFrom(lines, i, open, acc);
      forall j | i <= j < |lines| && Text.StartsWith(Text.Strip(lines[j]), NodeHeader)
        ensures Text.Strip(lines[j]) in r.nodeLines
      {
        if j == i {
          assert r.nodeLines[|acc.nodeLines|] == acc'.nodeLines[|acc.nodeLines|];
        }
      }
      forall j | i <= j < |lines| && Text.StartsWith(Text.Strip(lines[j]), EdgeHeader)
        ensures Text.Strip(lines[j]) in r.edgeLines
      {
        if j == i {
          assert r.edgeLines[|acc.edgeLines|] == acc'.edgeLines[|acc.edgeLines|];
        }
      }
    }
  }

  /** The node-section and edge-section lines of a response's lines. */
  function Route(lines: seq<string>): (r: Sections)
    ensures r.nodeLines != [] ==> Text.StartsWith(r.nodeLines[0], NodeHeader)
    ensures r.edgeLines != [] ==> Text.StartsWith(r.edgeLines[0], EdgeHeader)
    ensures forall k :: 0 <= k < |r.nodeLines| ==> SectionLine(r.nodeLines[k])
    ensures forall k :: 0 <= k < |r.edgeLines| ==> SectionLine(r.edgeLines[k])
    ensures forall j :: 0 <= j < |lines| && Text.StartsWith(Text.Strip(lines[j]), NodeHeader)
              ==> Text.Strip(lines[j]) in r.nodeLines
    ensures forall j :: 0 <= j < |lines| && Text.StartsWith(Text.Strip(lines[j]), EdgeHeader)
              ==> Text.Strip(lines[j]) in r.edgeLines
    ensures lines == [] ==> r == Sections([], [])
  {
    RouteFromSound(lines, 0, NoSection, Sections([], []));
    RouteFromHeaders(lines, 0, NoSection, Sections([], []));
    RouteFrom(lines, 0, NoSection, Sections([], []))
  }

  /** The section open after the scan has read `lines[..j]`: that of the last header line among them. */
  function OpenAfter(lines: seq<string>, j: nat): Section
    requires j <= |lines|
  {
    if j == 0 then NoSection
    else
      var t := Text.Strip(lines[j - 1]);
      if Text.StartsWith(t, NodeHeader) then InNodes
      else if Text.StartsWith(t, EdgeHeader) then InEdges
      else OpenAfter(lines, j - 1)
  }

  /**
    Where the line `lines[j]` belongs: a header to its own section; a blank line or a
    decoration to none; any other line to the section its last preceding header opened.
  */
  function Destination(lines: seq<string>, j: nat): Section
    requires j < |lines|
  {
    var t := Text.Strip(lines[j]);
    if t == [] then NoSection
    else if Text.StartsWith(t, NodeHeader) then InNodes
    else if Text.StartsWith(t, EdgeHeader) then InEdges
    else if IsDecoration(t) then NoSection
    else OpenAfter(lines, j)
  }

  /** The stripped lines of `lines[..n]` that belong to section `s`, in order. */
  function Belonging(lines: seq<string>, n: nat, s: Section): seq<string>
    requires n <= |lines|
  {
    if n == 0 then []
    else if Destination(lines, n - 1) == s then Belonging(lines, n - 1, s) + [Text.Strip(lines[n - 1])]
    else Belonging(lines, n - 1, s)
  }

  /** One routing step moves the scan from the state after `lines[..i]` to the state after `lines[..i + 1]`. */
  lemma RouteLineStep(lines: seq<string>, i: nat)
    requires i < |lines|
    ensures RouteLine(Text.Strip(lines[i]), OpenAfter(lines, i),
                      Sections(Belonging(lines, i, InNodes), Belonging(lines, i, InEdges)))
         == (OpenAfter(lines, i + 1), Sections(Belonging(lines, i + 1, InNodes), Belonging(lines, i + 1, InEdges)))
  {
    var t := Text.Strip(lines[i]);
    assert Text.StartsWith(t, NodeHeader) ==> t[0] == 'i';
    assert Text.StartsWith(t, EdgeHeader) ==> t[0] == 's';
    assert Text.StartsWith(t, "#") ==> t[0] == '#';
    assert Text.StartsWith(t, "```") ==> t[0] == '`';
    var open := OpenAfter(lines, i);
    var acc := Sections(Belonging(lines, i, InNodes), Belonging(lines, i, InEdges));
    var d := Destination(lines, i);
    assert Belonging(lines, i + 1, InNodes) == if d == InNodes then acc.nodeLines + [t] else acc.nodeLines;
    assert Belonging(lines, i + 1, InEdges) == if d == InEdges then acc.edgeLines + [t] else acc.edgeLines;
    if t == [] {
      assert d == NoSection && OpenAfter(lines, i + 1) == open;
      assert RouteLine(t, open, acc) == (open, acc);
    } else if Text.StartsWith(t, NodeHeader) {
      assert d == InNodes && OpenAfter(lines, i + 1) == InNodes;
      assert RouteLine(t, open, acc) == (InNodes, Sections(acc.nodeLines + [t], acc.edgeLines));
    } else if Text.StartsWith(t, EdgeHeader) {
      assert d == InEdges && OpenAfter(lines, i + 1) == InEdges;
      assert RouteLine(t, open, acc) == (InEdges, Sections(acc.nodeLines, acc.edgeLines + [t]));
    } else if IsDecoration(t) {
      assert d == NoSection && OpenAfter(lines, i + 1) == open;
      assert RouteLine(t, open, acc) == (open, acc);
    } else {
      assert d == open && OpenAfter(lines, i + 1) == open;
      assert RouteLine(t, open, acc) == if open == InNodes then (open, Sections(acc.nodeLines + [t], acc.edgeLines))
        else if open == InEdges then (open, Sections(acc.nodeLines, acc.edgeLines + [t]))
        else (open, acc);
    }
  }

  /** The loop from line `i` on, started in the state the lines before `i` leave, ends with the belonging lines. */
  lemma {:induction false} RouteFromExact(lines: seq<string>, i: nat)
    requires i <= |lines|
    ensures RouteFrom(lines, i, OpenAfter(lines, i), Sections(Belonging(lines, i, InNodes), Belonging(lines, i, InEdges)))
         == Sections(Belonging(lines, |lines|, InNodes), Belonging(lines, |lines|, InEdges))
    decreases |lines| - i
  {
    if i < |lines| {
      RouteLineStep(lines, i);
      RouteFromExact(lines, i + 1);
    }
  }

  /**
    Routing is complete and keeps the order: each section receives exactly the stripped
    lines that belong to it — its headers and every content line after one of its
    headers and before the next header — in the order they appear.
  */
  lemma RouteExact(lines: seq<string>)
    ensures Route(lines) == Sections(Belonging(lines, |lines|, InNodes), Belonging(lines, |lines|, InEdges))
  {
    RouteFromExact(lines, 0);
  }

  // ------------------------------------------------------------- validation

  /** A data row the CSV reader splits into exactly `columns` fields. */
  predicate IsRow(t: string, columns: nat) {
    t != [] && Text.NoLineBreak(t) && |PyCsv.LineFields(t)| == columns
  }

  /** The stripped, non-blank lines with the right field count, in order. */
  function ValidRows(lines: seq<string>, columns: nat): (rows: seq<string>)
    requires forall i :: 0 <= i < |lines| ==> Text.NoLineBreak(lines[i])
    ensures |rows| <= |lines|
    ensures forall k :: 0 <= k < |rows| ==> IsRow(rows[k], columns) && Text.IsStripped(rows[k])
  {
    if lines == [] then []
    else
      var t := Text.Strip(lines[0]);
      Text.StripKeepsNoBreak(lines[0]);
      var rest := ValidRows(lines[1..], columns);
      if IsRow(t, columns) then [t] + rest else rest
  }

  /** On one line, validation keeps its strip exactly when that is a row of the right width. */
  lemma ValidRowsSingle(line: string, columns: nat)
    requires Text.NoLineBreak(line)
    ensures ValidRows([line], columns)
         == if IsRow(Text.Strip(line), columns) then [Text.Strip(line)] else []
  {
    assert [line][1..] == [];
  }

  /** Validation keeps rows in input order: it distributes over concatenation. */
  lemma {:induction false} ValidRowsAppend(a: seq<string>, b: seq<string>, columns: nat)
    requires forall i :: 0 <= i < |a| ==> Text.NoLineBreak(a[i])
    requires forall i :: 0 <= i < |b| ==> Text.NoLineBreak(b[i])
    ensures ValidRows(a + b, columns) == ValidRows(a, columns) + ValidRows(b, columns)
  {
    if a != [] {
      assert (a + b)[0] == a[0] && (a + b)[1..] == a[1..] + b;
      ValidRowsAppend(a[1..], b, columns);
    } else {
      assert a + b == b;
    }
  }

  /**
    `validate_csv_rows`: `None` when there are no lines or the header, split on plain
    commas, has the wrong number of parts; otherwise the header line followed by the
    valid data rows.
  */
  function ValidateRows(csvText: string, columns: nat): (r: Option<seq<string>>)
    ensures var lines := Text.SplitLines(csvText);
      r.Some? <==> lines != [] && |Text.Split(Text.Strip(lines[0]), ",")| == columns
    ensures r.Some? ==> |r.value| >= 1 && r.value[0] == Text.SplitLines(csvText)[0]
    ensures r.Some? ==> r.value[1..] == ValidRows(Text.SplitLines(csvText)[1..], columns)
    ensures r.Some? ==> forall k :: 1 <= k < |r.value| ==> IsRow(r.value[k], columns)
  {
    var lines := Text.SplitLines(csvText);
    if lines == [] then None
    else if |Text.Split(Text.Strip(lines[0]), ",")| != columns then None
    else
        var rows := ValidRows(lines[1..], columns);
      Some([lines[0]] + rows)
  }

  /** Validating section lines joined with `\n` validates the lines themselves. */
  lemma ValidateJoined(ls: seq<string>, columns: nat)
    requires |ls| >= 1 && ls[0] != []
    requires forall i :: 0 <= i < |ls| ==> Text.NoLineBreak(ls[i])
    ensures ValidateRows(Text.Join(ls, "\n"), columns)
         == if |Text.Split(Text.Strip(ls[0]), ",")| != columns then None
            else Some([ls[0]] + ValidRows(ls[1..], columns))
  {
    Text.SplitLinesJoin(ls);
  }

  // ----------------------------------------------------------------- tables

  /** The part of each header up to its second comma; the rest names the third column. */
  const NodeLead := "id,entity,"
  const EdgeLead := "source,target,"

  /**
    The name `read_csv` gives the third column of a section: what follows the header's
    second comma (validation has made sure there is no third comma).
  */
  function ThirdName(header: string, lead: string): string
    requires Text.StartsWith(header, lead)
  {
    header[|lead|..]
  }

  /** `rename(columns={'category': 'type'})` on a node column name (`entity` is renamed `label` separately). */
  function KindColumn(name: string): string {
    if name == "category" then "type" else name
  }

  /** A node row as read, before renumbering: `id`, `entity`, `category`. */
  datatype RawNode = RawNode(id: string, name: string, kind: string)

  /** An edge row as read: `source`, `target`, `relationship` (renamed `label`). */
  datatype RawEdge = RawEdge(source: string, target: string, relation: string)

  /** A node after renumbering; `name` and `kind` are the `entity` and `category` columns (renamed `label` and `type`). */
  datatype Node = Node(id: nat, name: string, kind: string)

  datatype Edge = Edge(source: nat, target: nat, relation: string)

  /**
    The pair the parser returns. Column names are those of the node frame besides its
    index: the edge frame of a `Tables` result always has `source`, `target` and `label`
    (or no columns at all, for an empty text, when both frames are empty).
  */
  datatype Parsed =
    | Failed                                                      // (None, None)
    | NodesOnly(raw: seq<RawNode>, rawColumns: seq<string>)       // (nodes, None): the edge section had no valid row
    | Tables(nodes: seq<Node>, edges: seq<Edge>, nodeColumns: seq<string>)

  predicate DistinctIds(ns: seq<RawNode>) {
    forall i, j :: 0 <= i < j < |ns| ==> ns[i].id != ns[j].id
  }

  predicate HasId(ns: seq<RawNode>, id: string) {
    exists i :: 0 <= i < |ns| && ns[i].id == id
  }

  /**
    The validated rows of a section as `read_csv` reads them: each row split by pandas'
    tokenizer, which keeps spaces after a comma and opens a quoted field only right
    after one. `None` when no row is valid, or when a row is wider than the frame
    (`read_csv`'s "Expected n fields" error).
  */
  function SectionRecords(sectionLines: seq<string>): (r: Option<seq<seq<string>>>)
    ensures r.Some? ==> |r.value| >= 1 && forall k :: 0 <= k < |r.value| ==> |r.value[k]| == Columns
    ensures sectionLines == [] ==> r.None?
  {
    var valid := ValidateRows(Text.Join(sectionLines, "\n"), Columns);
    if valid.None? || |valid.value| <= 1 then None
    else
      var rows := valid.value[1..];
      var w := FrameWidth(rows);
      if !FitsFrame(rows, w) then None else Some(FieldLists(rows, w))
  }

  /**
    The number of fields `read_csv` expects per row: the header's three, or the width of
    the first data row when that is wider, its extra leading fields forming the index.
  */
  function FrameWidth(rows: seq<string>): (w: nat)
    requires rows != [] ==> rows[0] != [] && Text.NoLineBreak(rows[0])
    ensures w >= Columns
    ensures rows != [] ==> w >= |PyCsv.PlainFields(rows[0])|
  {
    if rows == [] || |PyCsv.PlainFields(rows[0])| <= Columns then Columns else |PyCsv.PlainFields(rows[0])|
  }

  /** No row has more fields than the frame. */
  predicate FitsFrame(rows: seq<string>, w: nat) {
    forall k :: 0 <= k < |rows| && rows[k] != [] && Text.NoLineBreak(rows[k]) ==> |PyCsv.PlainFields(rows[k])| <= w
  }

  /**
    The three columns of a row in a frame `w` fields wide: a short row is padded with
    missing values (empty here), and the leading `w - 3` fields are the index.
  */
  function RowColumns(fields: seq<string>, w: nat): (r: seq<string>)
    requires Columns <= w && |fields| <= w
    ensures |r| == Columns
    ensures forall c :: 0 <= c < Columns ==> r[c] == if w - Columns + c < |fields| then fields[w - Columns + c] else ""
  {
    (fields + seq(w - |fields|, _ => ""))[w - Columns..]
  }

  /** The columns of validated rows, in order. */
  function FieldLists(rows: seq<string>, w: nat): (r: seq<seq<string>>)
    requires forall k :: 0 <= k < |rows| ==> IsRow(rows[k], Columns)
    requires Columns <= w && FitsFrame(rows, w)
    ensures |r| == |rows| && forall k :: 0 <= k < |r| ==> |r[k]| == Columns
  {
    assert forall k :: 0 <= k < |rows| ==> IsRow(rows[k], Columns);
    var r := seq(|rows|, k requires 0 <= k < |rows| => RowColumns(PyCsv.PlainFields(rows[k]), w));
    assert forall k :: 0 <= k < |r| ==> r[k] == RowColumns(PyCsv.PlainFields(rows[k]), w);
    r
  }

  /** Records of three fields as node rows, field by field. */
  function AsNodes(recs: seq<seq<string>>): (ns: seq<RawNode>)
    requires forall k :: 0 <= k < |recs| ==> |recs[k]| == Columns
    ensures |ns| == |recs|
  {
    seq(|recs|, k requires 0 <= k < |recs| => RawNode(recs[k][0], recs[k][1], recs[k][2]))
  }

  /** Records of three fields as edge rows, field by field. */
  function AsEdges(recs: seq<seq<string>>): (es: seq<RawEdge>)
    requires forall k :: 0 <= k < |recs| ==> |recs[k]| == Columns
    ensures |es| == |recs|
  {
    seq(|recs|, k requires 0 <= k < |recs| => RawEdge(recs[k][0], recs[k][1], recs[k][2]))
  }

  /**
    The records of a section are the columns of its valid data rows, in order, as the
    frame reads them; there are none when the header has the wrong width, no data row
    is valid, or a row is wider than the frame.
  */
  lemma SectionRecordsExact(ls: seq<string>)
    requires ls != [] && ls[0] != []
    requires forall i :: 0 <= i < |ls| ==> Text.NoLineBreak(ls[i])
    ensures var rows := ValidRows(ls[1..], Columns);
      SectionRecords(ls)
        == if |Text.Split(Text.Strip(ls[0]), ",")| != Columns || rows == [] || !FitsFrame(rows, FrameWidth(rows)) then None
           else Some(FieldLists(rows, FrameWidth(rows)))
  {
    ValidateJoined(ls, Columns);
  }

  /**
    When no valid row holds a space, both readers agree: the records are exactly the
    fields the validation read.
  */
  lemma SectionRecordsNoSpace(ls: seq<string>)
    requires ls != [] && ls[0] != []
    requires forall i :: 0 <= i < |ls| ==> Text.NoLineBreak(ls[i])
    requires |Text.Split(Text.Strip(ls[0]), ",")| == Columns
    requires var rows := ValidRows(ls[1..], Columns); rows != [] && forall k :: 0 <= k < |rows| ==> ' ' !in rows[k]
    ensures var rows := ValidRows(ls[1..], Columns);
      SectionRecords(ls) == Some(seq(|rows|, k requires 0 <= k < |rows| => PyCsv.LineFields(rows[k])))
  {
    SectionRecordsExact(ls);
    var rows := ValidRows(ls[1..], Columns);
    FieldListsNoSpace(rows);
    assert FrameWidth(rows) == Columns;
  }

  /** Rows without spaces fit the header's width and keep the fields the validation read. */
  lemma FieldListsNoSpace(rows: seq<string>)
    requires rows != [] && forall k :: 0 <= k < |rows| ==> IsRow(rows[k], Columns) && ' ' !in rows[k]
    ensures forall k :: 0 <= k < |rows| ==> IsRow(rows[k], Columns) && |PyCsv.PlainFields(rows[k])| == Columns
    ensures FitsFrame(rows, Columns)
    ensures FieldLists(rows, Columns) == seq(|rows|, k requires 0 <= k < |rows| => PyCsv.LineFields(rows[k]))
  {
    forall k | 0 <= k < |rows| ensures PyCsv.PlainFields(rows[k]) == PyCsv.LineFields(rows[k]) {
      PyCsv.FieldsNoSpace(rows[k]);
    }
    var recs := FieldLists(rows, Columns);
    forall k | 0 <= k < |rows| ensures recs[k] == PyCsv.LineFields(rows[k]) {
      RowColumnsFull(PyCsv.LineFields(rows[k]));
    }
  }

  /** A row as wide as the header is its own columns. */
  lemma RowColumnsFull(fields: seq<string>)
    requires |fields| == Columns
    ensures RowColumns(fields, Columns) == fields
  {
    assert fields + seq(0, _ => "") == fields;
  }

  /**
    The node table: `None` (the whole parse fails) when the section has no valid row,
    when an id repeats, or when an id is empty (read as a missing value, which is
    neither an int nor a str).
  */
  function NodeTable(nodeLines: seq<string>): (r: Option<seq<RawNode>>)
    ensures r.Some? ==> |r.value| >= 1 && DistinctIds(r.value)
    ensures r.Some? ==> forall i :: 0 <= i < |r.value| ==> r.value[i].id != []
    ensures SectionRecords(nodeLines).None? ==> r.None?
    ensures r.Some? ==> r.value == AsNodes(SectionRecords(nodeLines).value)
    ensures SectionRecords(nodeLines).Some? ==> var ns := AsNodes(SectionRecords(nodeLines).value);
      r.None? <==> !DistinctIds(ns) || exists i :: 0 <= i < |ns| && ns[i].id == []
  {
    match SectionRecords(nodeLines)
    case None => None
    case Some(recs) =>
      var ns := AsNodes(recs);
      if !DistinctIds(ns) then None
      else if exists i :: 0 <= i < |ns| && ns[i].id == [] then None
      else Some(ns)
  }

  /** The edge table, `None` when the section has no valid row. */
  function EdgeTable(edgeLines: seq<string>): (r: Option<seq<RawEdge>>)
    ensures r.Some? <==> SectionRecords(edgeLines).Some?
    ensures r.Some? ==> r.value == AsEdges(SectionRecords(edgeLines).value) && |r.value| >= 1
  {
    match SectionRecords(edgeLines)
    case None => None
    case Some(recs) => Some(AsEdges(recs))
  }

  predicate NoDuplicates<T(==)>(xs: seq<T>) {
    forall i, j :: 0 <= i < j < |xs| ==> xs[i] != xs[j]
  }

  /**
    `drop_duplicates` on all three edge columns: the first occurrence of each row
    survives, in the original order.
  */
  function DropDuplicates(es: seq<RawEdge>): (r: seq<RawEdge>)
    ensures NoDuplicates(r)
    ensures forall e :: e in r <==> e in es
    ensures r == Seqs.FirstOccurrences(es) && |r| <= |es|
  {
    Seqs.DedupFirst(es);
    Seqs.Dedup(es)
  }

  /** A table without repeated rows is left as it is, so deduplicating twice changes nothing more. */
  lemma DropDuplicatesDistinct(es: seq<RawEdge>)
    requires NoDuplicates(es)
    ensures DropDuplicates(es) == es
  {
    Seqs.FirstOccurrencesDistinct(es);
  }

  // ------------------------------------------------------ orphan removal

  predicate Referenced(edges: seq<RawEdge>, id: string) {
    exists j :: 0 <= j < |edges| && (edges[j].source == id || edges[j].target == id)
  }

  /** The nodes some edge mentions, in their original order. */
  function KeepReferenced(ns: seq<RawNode>, edges: seq<RawEdge>): (r: seq<RawNode>)
    ensures forall x :: x in r <==> x in ns && Referenced(edges, x.id)
    ensures DistinctIds(ns) ==> DistinctIds(r)
  {
    var r := Seqs.Filter(ns, (x: RawNode) => Referenced(edges, x.id));
    assert DistinctIds(ns) ==> DistinctIds(r) by {
      if DistinctIds(ns) {
        var id := (x: RawNode) => x.id;
        assert Seqs.DistinctKeys(ns, id);
        Seqs.FilterDistinct(ns, (x: RawNode) => Referenced(edges, x.id), id);
      }
    }
    r
  }

  /** Orphan removal keeps the node order: it distributes over concatenation. */
  lemma KeepReferencedAppend(a: seq<RawNode>, b: seq<RawNode>, edges: seq<RawEdge>)
    ensures KeepReferenced(a + b, edges) == KeepReferenced(a, edges) + KeepReferenced(b, edges)
  {
    Seqs.FilterAppend(a, b, (x: RawNode) => Referenced(edges, x.id));
  }

  /** The position of the node with the given id, or `|ns|`. */
  function IndexOf(ns: seq<RawNode>, id: string): (k: nat)
    ensures k <= |ns|
    ensures k < |ns| ==> ns[k].id == id
    ensures k == |ns| <==> !HasId(ns, id)
  {
    if ns == [] then 0
    else if ns[0].id == id then 0
    else
      var k := IndexOf(ns[1..], id);
      assert HasId(ns[1..], id) ==> HasId(ns, id) by {
        if HasId(ns[1..], id) {
          var i :| 0 <= i < |ns| - 1 && ns[1..][i].id == id;
          assert ns[i + 1].id == id;
        }
      }
      assert HasId(ns, id) ==> HasId(ns[1..], id) by {
        if HasId(ns, id) {
          var i :| 0 <= i < |ns| && ns[i].id == id;
          assert ns[1..][i - 1].id == id;
        }
      }
      1 + k
  }

  /** Every edge endpoint is the id of some node. */
  predicate EndpointsKnown(ns: seq<RawNode>, edges: seq<RawEdge>) {
    forall j :: 0 <= j < |edges| ==> HasId(ns, edges[j].source) && HasId(ns, edges[j].target)
  }

  /**
    `remove_orphan_nodes_and_reindex`: the referenced nodes, renumbered 0..N-1 in order,
    and every edge mapped through old id -> new id. An endpoint that names no node maps
    to a missing value, and the integer cast that follows fails the parse. The node
    columns other than the id are carried over.
  */
  function RemoveOrphans(ns: seq<RawNode>, edges: seq<RawEdge>, columns: seq<string>): (r: Parsed)
    requires DistinctIds(ns)
    ensures r.Tables? <==> EndpointsKnown(ns, edges)
    ensures r.Failed? <==> !EndpointsKnown(ns, edges)
    ensures r.Tables? ==>
      var kept := KeepReferenced(ns, edges);
      && |r.nodes| == |kept| && |r.edges| == |edges| && r.nodeColumns == columns
      && (forall i :: 0 <= i < |r.nodes| ==>
            r.nodes[i] == Node(i, kept[i].name, kept[i].kind))
      && (forall j :: 0 <= j < |r.edges| ==>
            && r.edges[j].source < |kept| && r.edges[j].target < |kept|
            && kept[r.edges[j].source].id == edges[j].source
            && kept[r.edges[j].target].id == edges[j].target
            && r.edges[j].relation == edges[j].relation)
  {
    var kept := KeepReferenced(ns, edges);
    if !EndpointsKnown(ns, edges) then Failed
    else
      forall j, id | 0 <= j < |edges| && (id == edges[j].source || id == edges[j].target)
        ensures HasId(kept, id)
      {
        var i :| 0 <= i < |ns| && ns[i].id == id;
        assert ns[i] in ns && Referenced(edges, ns[i].id);
        assert ns[i] in kept;
      }
      Tables(
        seq(|kept|, i requires 0 <= i < |kept| => Node(i, kept[i].name, kept[i].kind)),
        seq(|edges|, j requires 0 <= j < |edges| =>
          Edge(IndexOf(kept, edges[j].source), IndexOf(kept, edges[j].target), edges[j].relation)),
        columns)
  }

  /** Renumbered tables: dense ids, endpoints in range, every node on some edge, no repeated edge. */
  ghost predicate WellFormedTables(nodes: seq<Node>, edges: seq<Edge>) {
    && (forall i :: 0 <= i < |nodes| ==> nodes[i].id == i)
    && (forall j :: 0 <= j < |edges| ==> edges[j].source < |nodes| && edges[j].target < |nodes|)
    && (forall i :: 0 <= i < |nodes| ==> OnSomeEdge(edges, i))
    && NoDuplicates(edges)
  }

  predicate OnSomeEdge(edges: seq<Edge>, i: nat) {
    exists j :: 0 <= j < |edges| && (edges[j].source == i || edges[j].target == i)
  }

  /** Orphan removal on distinct-id nodes and distinct edges yields well-formed tables. */
  lemma RemoveOrphansWellFormed(ns: seq<RawNode>, edges: seq<RawEdge>, columns: seq<string>)
    requires DistinctIds(ns) && NoDuplicates(edges)
    requires EndpointsKnown(ns, edges)
    ensures RemoveOrphans(ns, edges, columns).Tables?
    ensures WellFormedTables(RemoveOrphans(ns, edges, columns).nodes, RemoveOrphans(ns, edges, columns).edges)
  {
    var r := RemoveOrphans(ns, edges, columns);
    var kept := KeepReferenced(ns, edges);
    forall i | 0 <= i < |r.nodes| ensures OnSomeEdge(r.edges, i) {
      assert kept[i] in kept;
      var j :| 0 <= j < |edges| && (edges[j].source == kept[i].id || edges[j].target == kept[i].id);
      if edges[j].source == kept[i].id {
        assert kept[r.edges[j].source].id == kept[i].id;
      } else {
        assert kept[r.edges[j].target].id == kept[i].id;
      }
    }
    forall a, b | 0 <= a < b < |r.edges| ensures r.edges[a] != r.edges[b] {
      if edges[a].source != edges[b].source {
        assert r.edges[a].source != r.edges[b].source;
      } else if edges[a].target != edges[b].target {
        assert r.edges[a].target != r.edges[b].target;
      } else {
        assert r.edges[a].relation != r.edges[b].relation;
      }
    }
  }

  // ----------------------------------------------------------------- parse

  /** The section lines of a response text. */
  function SectionsOf(text: string): Sections {
    Route(Text.SplitLines(text))
  }

  /**
    The node frame's columns besides the id, before renaming: `entity` and the header's
    third name; without a node section, the empty frame's `id`, `entity` and `category`.
  */
  function RawNodeColumns(nodeLines: seq<string>): seq<string>
    requires nodeLines != [] ==> Text.StartsWith(nodeLines[0], NodeHeader)
  {
    if nodeLines == [] then ["id", "entity", "category"]
    else
      assert nodeLines[0][..|NodeLead|] == nodeLines[0][..|NodeHeader|][..|NodeLead|];
      ["entity", ThirdName(nodeLines[0], NodeLead)]
  }

  /** The node columns after the renaming and after the id column becomes the index again. */
  function NodeColumns(nodeLines: seq<string>): seq<string>
    requires nodeLines != [] ==> Text.StartsWith(nodeLines[0], NodeHeader)
  {
    if nodeLines == [] then ["label", "type"]
    else
      var raw := RawNodeColumns(nodeLines);
      ["label", KindColumn(raw[1])]
  }

  /** The edge frame has a `label` column after renaming: its header's third name is exactly `relationship`. */
  predicate HasLabelColumn(edgeLines: seq<string>)
    requires edgeLines != [] ==> Text.StartsWith(edgeLines[0], EdgeHeader)
  {
    edgeLines == [] || (LabelColumnIffHeader(edgeLines[0]); ThirdName(edgeLines[0], EdgeLead) == "relationship")
  }

  /** The node rows a response yields, when its node section is absent or valid. */
  function NodeRows(secs: Sections): Option<seq<RawNode>> {
    if secs.nodeLines == [] then Some([]) else NodeTable(secs.nodeLines)
  }

  /** The edge rows a response yields, when its edge section is absent or valid. */
  function EdgeRows(secs: Sections): Option<seq<RawEdge>> {
    if secs.edgeLines == [] then Some([]) else EdgeTable(secs.edgeLines)
  }

  /**
    `parse_text_to_dataframes`. Empty text gives two empty tables. A node section that
    fails validation or has bad ids fails everything; an edge section without valid
    rows returns the node table unrenumbered. Otherwise the columns are renamed, and
    the deduplication, which names the `label` column, fails everything when the edge
    header's third column is not exactly `relationship`. A missing node section leaves
    an empty node table (so any edge then fails the parse); a missing edge section
    leaves an empty edge table (so every node is an orphan).
  */
  function ParseText(text: string): (r: Parsed)
    ensures Text.SplitLines(text) == [] ==> r == Tables([], [], [])
    ensures r.Tables? ==> WellFormedTables(r.nodes, r.edges)
    ensures r.NodesOnly? ==> DistinctIds(r.raw) && forall i :: 0 <= i < |r.raw| ==> r.raw[i].id != []
  {
    if Text.SplitLines(text) == [] then Tables([], [], []) else Assemble(SectionsOf(text))
  }

  /** Each section that is present starts with its header, as routing leaves them. */
  predicate Headed(secs: Sections) {
    && (secs.nodeLines != [] ==> Text.StartsWith(secs.nodeLines[0], NodeHeader))
    && (secs.edgeLines != [] ==> Text.StartsWith(secs.edgeLines[0], EdgeHeader))
  }

  /** Everything after routing: validation, reading, renaming, deduplication and orphan removal. */
  function Assemble(secs: Sections): (r: Parsed)
    requires Headed(secs)
    ensures r.Tables? ==> WellFormedTables(r.nodes, r.edges)
    ensures r.NodesOnly? ==> DistinctIds(r.raw) && forall i :: 0 <= i < |r.raw| ==> r.raw[i].id != []
  {
    var nodes := NodeRows(secs);
    if nodes.None? then Failed
    else
      var edges := EdgeRows(secs);
      if edges.None? then NodesOnly(nodes.value, RawNodeColumns(secs.nodeLines))
      else if !HasLabelColumn(secs.edgeLines) then Failed
      else
        var unique := DropDuplicates(edges.value);
        if EndpointsKnown(nodes.value, unique) then
          RemoveOrphansWellFormed(nodes.value, unique, NodeColumns(secs.nodeLines));
          RemoveOrphans(nodes.value, unique, NodeColumns(secs.nodeLines))
        else Failed
  }

  /**
    What a successful parse holds: the node rows some kept edge mentions, renumbered in
    order and under the renamed columns, and the first occurrence of each edge row,
    in order, with its ends mapped to the new ids.
  */
  lemma ParseTextRows(text: string)
    requires Text.SplitLines(text) != [] && ParseText(text).Tables?
    ensures var secs := SectionsOf(text);
      && NodeRows(secs).Some? && EdgeRows(secs).Some?
      && ParseText(text) == RemoveOrphans(NodeRows(secs).value, DropDuplicates(EdgeRows(secs).value), NodeColumns(secs.nodeLines))
  {
  }

  /**
    An edge header whose third name is longer than `relationship` passes the prefix test
    and the width check but leaves no `label` column, so deduplication fails the parse
    once the edge section has a valid row.
  */
  lemma EdgeHeaderMismatchFails(text: string)
    requires Text.SplitLines(text) != []
    requires NodeRows(SectionsOf(text)).Some? && EdgeRows(SectionsOf(text)).Some?
    requires SectionsOf(text).edgeLines != []
    requires SectionsOf(text).edgeLines[0] != EdgeHeader
    ensures ParseText(text) == Failed
  {
    MismatchFails(SectionsOf(text));
  }

  lemma MismatchFails(secs: Sections)
    requires Headed(secs) && secs.edgeLines != [] && secs.edgeLines[0] != EdgeHeader
    requires NodeRows(secs).Some? && EdgeRows(secs).Some?
    ensures Assemble(secs) == Failed
  {
    LabelColumnIffHeader(secs.edgeLines[0]);
  }

  /** Under the edge-header prefix, the third name is `relationship` exactly for the edge header itself. */
  lemma LabelColumnIffHeader(h: string)
    requires Text.StartsWith(h, EdgeHeader)
    ensures Text.StartsWith(h, EdgeLead)
    ensures ThirdName(h, EdgeLead) == "relationship" <==> h == EdgeHeader
  {
    EdgeLeadParts();
    assert h[..|EdgeLead|] == h[..|EdgeHeader|][..|EdgeLead|];
    assert h == h[..|EdgeLead|] + h[|EdgeLead|..];
  }

  /** The edge header's lead is `source`, a comma, `target` and a comma. */
  lemma EdgeLeadParts()
    ensures EdgeLead == "source" + "," + "target" + ","
    ensures ',' !in "source" && ',' !in "target"
    ensures EdgeHeader == EdgeLead + "relationship"
  {
  }

  /** An edge header whose third name has no comma splits into `source`, `target` and that name. */
  lemma EdgeHeaderSplit(name: string)
    requires ',' !in name
    ensures Text.Split(EdgeLead + name, ",") == ["source", "target", name]
  {
    EdgeLeadParts();
    Text.SplitThree("source", "target", name);
  }

  /**
    Such a header passes the prefix test exactly when its third name starts with
    `relationship`; `source,target,relationship_type` passes without being the edge header.
  */
  lemma EdgeHeaderPrefix(name: string)
    ensures Text.StartsWith(EdgeLead + name, EdgeHeader) <==> Text.StartsWith(name, "relationship")
    ensures name == "relationship_type" ==> EdgeLead + name != EdgeHeader && Text.StartsWith(EdgeLead + name, EdgeHeader)
  {
    EdgeLeadParts();
    var h := EdgeLead + name;
    var n := |"relationship"|;
    if |name| >= n {
      assert h[..|EdgeHeader|] == EdgeLead + name[..n];
      assert h[..|EdgeHeader|][|EdgeLead|..] == name[..n];
      assert EdgeHeader[|EdgeLead|..] == "relationship";
    }
    if name == "relationship_type" {
      assert |h| != |EdgeHeader|;
      assert name[..n] == "relationship";
    }
  }

  /** A node section that yields no table fails the parse, whatever the edges. */
  lemma BadNodeSectionFails(text: string)
    requires SectionsOf(text).nodeLines != [] && NodeTable(SectionsOf(text).nodeLines).None?
    ensures ParseText(text) == Failed
  {
  }

  /** An edge section without valid rows still returns the node table, as read. */
  lemma BadEdgeSectionKeepsNodes(text: string)
    requires NodeTable(SectionsOf(text).nodeLines).Some?
    requires SectionsOf(text).edgeLines != [] && EdgeTable(SectionsOf(text).edgeLines).None?
    ensures ParseText(text) == NodesOnly(NodeTable(SectionsOf(text).nodeLines).value, RawNodeColumns(SectionsOf(text).nodeLines))
  {
  }

  /** Without an edge section every node is an orphan: the result is two empty tables. */
  lemma NoEdgeSectionEmpties(text: string)
    requires SectionsOf(text).edgeLines == []
    requires ParseText(text) != Failed
    ensures ParseText(text).Tables? && ParseText(text).nodes == [] && ParseText(text).edges == []
  {
    if Text.SplitLines(text) != [] {
      var secs := SectionsOf(text);
      var nodes := if secs.nodeLines == [] then Some([]) else NodeTable(secs.nodeLines);
      assert DropDuplicates([]) == [];
      NothingReferenced(nodes.value);
    }
  }

  lemma NothingReferenced(ns: seq<RawNode>)
    ensures KeepReferenced(ns, []) == []
  {
    Seqs.FilterNone(ns, (x: RawNode) => Referenced([], x.id));
  }

  // ---------------------------------------------------------- entity lists

  /** The trimmed, non-empty fields, in order. */
  function NonEmptyStripped(fields: seq<string>): (r: seq<string>)
    ensures forall k :: 0 <= k < |r| ==> r[k] != [] && Text.IsStripped(r[k])
    ensures |r| <= |fields|
  {
    if fields == [] then []
    else
      var t := Text.Strip(fields[0]);
      if t == [] then NonEmptyStripped(fields[1..]) else [t] + NonEmptyStripped(fields[1..])
  }

  /**
    `parse_nodes`: the entities of a flat, comma-separated, possibly quoted list.
    `None` stands for a non-string input and is returned for a blank text, a reader
    error, no record, or no non-empty field.
  */
  function ParseNodes(response: Option<string>): (r: Option<seq<string>>)
    ensures r.Some? ==> |r.value| >= 1
    ensures r.Some? ==> forall k :: 0 <= k < |r.value| ==> r.value[k] != [] && Text.IsStripped(r.value[k])
    ensures response.None? ==> r.None?
    ensures response.Some? && Text.Strip(response.value) == [] ==> r.None?
  {
    match response
    case None => None
    case Some(s) =>
      var t := Text.Strip(s);
      if t == [] then None
      else
        match PyCsv.FirstRecord(t)
        case Failure(_) => None
        case Success(None) => None
        case Success(Some(fields)) =>
          var ents := NonEmptyStripped(fields);
          if ents == [] then None else Some(ents)
  }

  /** Trimming already-trimmed, non-empty fields keeps them all. */
  lemma {:induction false} NonEmptyStrippedKeeps(fields: seq<string>)
    requires forall k :: 0 <= k < |fields| ==> fields[k] != [] && Text.IsStripped(fields[k])
    ensures NonEmptyStripped(fields) == fields
  {
    if fields != [] {
      Text.StripStripped(fields[0]);
      NonEmptyStrippedKeeps(fields[1..]);
    }
  }

  /**
    The entity list phase one feeds back to the model parses back to the same entities,
    provided no entity contains a quote (the list quotes without escaping).
  */
  lemma ParseNodesRoundTrip(ns: seq<string>)
    requires |ns| >= 1
    requires forall k :: 0 <= k < |ns| ==> ns[k] != [] && Text.IsStripped(ns[k]) && '"' !in ns[k]
    ensures ParseNodes(Some(PyCsv.QuotedList(ns))) == Some(ns)
  {
    var s := PyCsv.QuotedList(ns);
    QuotedListEnds(ns);
    Text.StripStripped(s);
    PyCsv.QuotedListRoundTrip(ns);
    NonEmptyStrippedKeeps(ns);
  }

  /** A quoted list starts and ends with a quote, so it is already stripped. */
  lemma {:induction false} QuotedListEnds(ns: seq<string>)
    requires |ns| >= 1
    ensures var s := PyCsv.QuotedList(ns); |s| >= 2 && s[0] == '"' && s[|s| - 1] == '"'
    ensures Text.IsStripped(PyCsv.QuotedList(ns))
  {
    if |ns| > 1 {
      QuotedListEnds(ns[1..]);
    }
  }
}
