/**
  The document scanner: one pass over the lines of the document, which finds
  requirement blocks by their fixed line offsets and writes one header (chosen
  at the first block) and one data row per block.

  `Step`, `ScanFrom` and `Run` give the meaning of the scan as functions;
  `Mine` is the loop itself, writing to a `RowWriter`, proved to write exactly
  the rows `Run` describes. An exception of the source ends the scan with an
  error, and the rows already written stay written.
 */
module Miner {
  import opened Wrappers
  import opened Text
  import opened Fields
  import opened Flags

  const ColReqId := "Requirement ID"
  const ColReqTitle := "Requirement Title"
  const ColReqText := "Requirement Text"
  const ColFlagNum := "Numeric in \"Requirement Text\" field"
  const ColFlagTxt := "Keyword in \"Rationale\" or \"Requirement Text\" fields"

  /** The nine fields of one requirement. */
  datatype Record = Record(
    id: string,
    title: string,
    text: string,
    rationale: string,
    trace: string,
    allocation: string,
    priorityOrVerification: string,
    numericFlag: bool,
    keywordFlag: bool)

  /** A row handed to the CSV writer: a header (the label of column 7) or a
      requirement. */
  datatype Row = HeaderRow(heading: string) | DataRow(record: Record)

  /** The exceptions that end the scan: an `IndexError` on a line lookup
      past the end of the document, an `IndexError` on the empty list of ID
      matches, and a `NameError` on a title never assigned. Each names the
      anchor line being processed. */
  datatype MineError =
    | LineOutOfRange(line: nat)
    | NoRequirementId(line: nat)
    | TitleUnbound(line: nat)

  /** The state the loop carries: the `header` flag, the last title `col2`
      (a module-level variable in the source, so it survives from one block
      to the next), and the rows written so far. */
  datatype Scan = Scan(header: bool, title: Option<string>, out: seq<Row>)

  datatype StepResult = Next(scan: Scan) | Abort(out: seq<Row>, error: MineError)

  /** The rows written and, when the scan stopped early, why. */
  datatype Outcome = Outcome(rows: seq<Row>, error: Option<MineError>)

  /** `str(True)` and `str(False)`, as `csv.writer` renders a boolean. */
  function BoolText(b: bool): (r: string) {
    if b then "True" else "False"
  }

  /** The nine cells of a row, in column order. */
  function Cells(r: Row): (c: seq<string>)
    ensures |c| == 9
  {
    match r
    case HeaderRow(heading) =>
      [ColReqId, ColReqTitle, ColReqText, ColRationale, ColTrace, ColAllocation, heading, ColFlagNum, ColFlagTxt]
    case DataRow(x) =>
      [x.id, x.title, x.text, x.rationale, x.trace, x.allocation, x.priorityOrVerification,
       BoolText(x.numericFlag), BoolText(x.keywordFlag)]
  }

  function Render(rows: seq<Row>): (cs: seq<seq<string>>) {
    seq(|rows|, k requires 0 <= k < |rows| => Cells(rows[k]))
  }

  /** The three marker lines of a block (line 53). */
  predicate BlockShape(doc: seq<string>, i: nat)
    requires i + 4 < |doc|
  {
    Contains(doc[i + 2], ColRationale) && Contains(doc[i + 3], ColTrace) && Contains(doc[i + 4], ColAllocation)
  }

  /** Line `i` opens a requirement block. */
  predicate ValidAnchor(doc: seq<string>, keyword: string, i: nat) {
    i + 4 < |doc| && Contains(doc[i], keyword) && BlockShape(doc, i)
  }

  /** Lines 57-60: one header row per marker that line i+5 carries. */
  function HeaderRows(line: string): (r: seq<Row>) {
    (if Contains(line, ColPriority) then [HeaderRow(ColPriority)] else []) +
    (if Contains(line, ColVerification) then [HeaderRow(ColVerification)] else [])
  }

  /** Lines 77-117: the fields of the block at `i` other than ID and title. */
  function BlockRecord(doc: seq<string>, i: nat, id: string, title: string): (r: Record)
    requires i + 5 < |doc|
  {
    var text := Normalize(doc[i + 1]);
    var rationale := LabelField(doc[i + 2]);
    Record(id, title, text, rationale, LabelField(doc[i + 3]), LabelField(doc[i + 4]),
           PriorityField(doc[i + 5]), NumericFlagHolds(text, FlagNum),
           KeywordFlagHolds(text, rationale, FlagTxt))
  }

  /** `r` is the record of the block at `j` when the previous data row's
      title is `prev`: its ID is the one found on the anchor line, its other
      fields are those of the block, and its title is the one found on the
      anchor line or else `prev`. */
  predicate RecordMatches(doc: seq<string>, keyword: string, j: nat, r: Record, prev: Option<string>)
    requires j + 5 < |doc|
  {
    HasBlockFields(doc, j, r) && HasFoundId(doc[j], keyword, r.id) && HasTitle(doc[j], r.id, r.title, prev)
  }

  /** The fields of `r` other than ID and title are those of the block. */
  predicate HasBlockFields(doc: seq<string>, j: nat, r: Record)
    requires j + 5 < |doc|
  {
    r == BlockRecord(doc, j, r.id, r.title)
  }

  /** `id` is the ID found on the line, where one is found. */
  predicate HasFoundId(line: string, keyword: string, id: string) {
    RequirementId(line, keyword).Some? ==> id == RequirementId(line, keyword).value
  }

  /** `title` is the title found on the line for `id`, or else `prev`. */
  predicate HasTitle(line: string, id: string, title: string, prev: Option<string>) {
    var t := Title(Normalize(line), id);
    (t.Some? ==> title == t.value) && (t.None? && prev.Some? ==> title == prev.value)
  }

  /** One iteration of the loop of lines 50-120, with the exceptions in the
      order in which the source raises them. */
  function Step(doc: seq<string>, keyword: string, i: nat, s: Scan): (r: StepResult)
    requires i < |doc|
  {
    if !Contains(doc[i], keyword) then Next(s)
    else if i + 4 >= |doc| then Abort(s.out, LineOutOfRange(i))
    else if !BlockShape(doc, i) then Next(s)
    else AnchorStep(doc, keyword, i, s)
  }

  /** Lines 55-119, on a line that opens a block: the header when none has
      been written yet, then the ID, the title and the data row. */
  function AnchorStep(doc: seq<string>, keyword: string, i: nat, s: Scan): (r: StepResult)
    requires ValidAnchor(doc, keyword, i)
  {
    if !s.header && i + 5 >= |doc| then Abort(s.out, LineOutOfRange(i))
    else BlockStep(doc, keyword, i, s.title, if s.header then s.out else s.out + HeaderRows(doc[i + 5]))
  }

  /** Lines 66-119, once the header is written: the ID, the title and the
      data row, where `prev` is what `col2` holds and `out` the rows so far. */
  function BlockStep(doc: seq<string>, keyword: string, i: nat, prev: Option<string>, out: seq<Row>): (r: StepResult)
    requires ValidAnchor(doc, keyword, i)
  {
    match RequirementId(doc[i], keyword)
    case None => Abort(out, NoRequirementId(i))
    case Some(id) =>
      var title := match Title(Normalize(doc[i]), id) case Some(t) => Some(t) case None => prev;
      if i + 5 >= |doc| then Abort(out, LineOutOfRange(i))
      else if title.None? then Abort(out, TitleUnbound(i))
      else Next(Scan(true, title, out + [DataRow(BlockRecord(doc, i, id, title.value))]))
  }

  /** The scan from line `i` on, in state `s`. */
  function ScanFrom(doc: seq<string>, keyword: string, i: nat, s: Scan): (o: Outcome)
    requires i <= |doc|
    decreases |doc| - i
  {
    if i == |doc| then Outcome(s.out, None)
    else
      match Step(doc, keyword, i, s)
      case Next(s') => ScanFrom(doc, keyword, i + 1, s')
      case Abort(out, e) => Outcome(out, Some(e))
  }

  /** The whole run: no header yet, no title yet, nothing written. */
  function Run(doc: seq<string>, keyword: string): (o: Outcome) {
    ScanFrom(doc, keyword, 0, Scan(false, None, []))
  }

  /** The `csv.writer` of line 46, seen as the list of rows it has been
      given; quoting and the file itself are not modelled. */
  class RowWriter {
    var rows: seq<seq<string>>

    constructor ()
      ensures rows == []
    {
      rows := [];
    }

    method WriteRow(row: seq<string>)
      modifies this
      ensures rows == old(rows) + [row]
    {
      rows := rows + [row];
    }
  }

  lemma RenderAppend(a: seq<Row>, b: seq<Row>)
    ensures Render(a + b) == Render(a) + Render(b)
  {
  }

  /** Lines 57-60: a header row for each marker line i+5 carries. */
  method WriteHeader(writer: RowWriter, line: string)
    modifies writer
    ensures writer.rows == old(writer.rows) + Render(HeaderRows(line))
  {
    if Contains(line, ColPriority) {
      writer.WriteRow(Cells(HeaderRow(ColPriority)));
    }
    if Contains(line, ColVerification) {
      writer.WriteRow(Cells(HeaderRow(ColVerification)));
    }
  }

  /** Lines 77-117: the fields of the block at `i`, as `BlockRecord` gives
      them. */
  method BlockRow(document: seq<string>, i: nat, id: string, title: string) returns (row: Row)
    requires i + 5 < |document|
    ensures row == DataRow(BlockRecord(document, i, id, title))
  {
    var col3 := Normalize(document[i + 1]);
    var col4 := LabelField(document[i + 2]);
    var col5 := LabelField(document[i + 3]);
    var col6 := LabelField(document[i + 4]);
    var col7 := PriorityField(document[i + 5]);
    var col8 := NumericFlag(col3, FlagNum);
    var col9 := KeywordFlag(col3, col4, FlagTxt);
    row := DataRow(Record(id, title, col3, col4, col5, col6, col7, col8, col9));
  }

  /** Line 120: hands one row to the writer. */
  method Emit(writer: RowWriter, row: Row, ghost base: seq<seq<string>>, ghost out: seq<Row>)
    requires writer.rows == base + Render(out)
    modifies writer
    ensures writer.rows == base + Render(out + [row])
  {
    writer.WriteRow(Cells(row));
    RenderAppend(out, [row]);
  }

  /** One iteration of the loop of lines 50-120 on line `i`, in the state
      `header`, `title` with the rows `out` written on top of `base`. It
      does what `Step` says: it either continues in a new state or stops on
      an exception, and the writer then holds the rows of that result. */
  method MineLine(document: seq<string>, keyword: string, i: nat, header: bool, title: Option<string>,
                  ghost out: seq<Row>, ghost base: seq<seq<string>>, writer: RowWriter)
    returns (header': bool, title': Option<string>, ghost out': seq<Row>, error: Option<MineError>)
    requires i < |document|
    requires writer.rows == base + Render(out)
    modifies writer
    ensures writer.rows == base + Render(out')
    ensures Step(document, keyword, i, Scan(header, title, out)) ==
      if error.None? then Next(Scan(header', title', out')) else Abort(out', error.value)
  {
    header', title', out', error := header, title, out, None;
    if !Contains(document[i], keyword) {
      return;
    }
    if i + 4 >= |document| {
      error := Some(LineOutOfRange(i));
      return;
    }
    if !(Contains(document[i + 2], ColRationale) && Contains(document[i + 3], ColTrace) &&
         Contains(document[i + 4], ColAllocation)) {
      return;
    }
    header', title', out', error := MineAnchor(document, keyword, i, header, title, out, base, writer);
  }

  /** Lines 55-119 on a line that opens a block, as `AnchorStep` says. */
  method MineAnchor(document: seq<string>, keyword: string, i: nat, header: bool, title: Option<string>,
                    ghost out: seq<Row>, ghost base: seq<seq<string>>, writer: RowWriter)
    returns (header': bool, title': Option<string>, ghost out': seq<Row>, error: Option<MineError>)
    requires ValidAnchor(document, keyword, i)
    requires writer.rows == base + Render(out)
    modifies writer
    ensures writer.rows == base + Render(out')
    ensures AnchorStep(document, keyword, i, Scan(header, title, out)) ==
      if error.None? then Next(Scan(header', title', out')) else Abort(out', error.value)
  {
    ghost var rows := out;
    if !header {
      if i + 5 >= |document| {
        header', title', out', error := header, title, out, Some(LineOutOfRange(i));
        return;
      }
      WriteHeader(writer, document[i + 5]);
      RenderAppend(out, HeaderRows(document[i + 5]));
      rows := out + HeaderRows(document[i + 5]);
    }
    header' := true;
    title', out', error := MineBlock(document, keyword, i, title, rows, base, writer);
  }

  /** Lines 66-119, as `BlockStep` says. */
  method MineBlock(document: seq<string>, keyword: string, i: nat, title: Option<string>,
                   ghost out: seq<Row>, ghost base: seq<seq<string>>, writer: RowWriter)
    returns (title': Option<string>, ghost out': seq<Row>, error: Option<MineError>)
    requires ValidAnchor(document, keyword, i)
    requires writer.rows == base + Render(out)
    modifies writer
    ensures writer.rows == base + Render(out')
    ensures BlockStep(document, keyword, i, title, out) ==
      if error.None? then Next(Scan(true, title', out')) else Abort(out', error.value)
  {
    title', out', error := title, out, None;
    var found := RequirementId(document[i], keyword);
    if found.None? {
      error := Some(NoRequirementId(i));
      return;
    }
    var col1 := found.value;
    var col2 := Title(Normalize(document[i]), col1);
    if col2.Some? {
      title' := col2;
    }
    if i + 5 >= |document| {
      error := Some(LineOutOfRange(i));
      return;
    }
    if title'.None? {
      error := Some(TitleUnbound(i));
      return;
    }
    var row := BlockRow(document, i, col1, title'.value);
    assert BlockStep(document, keyword, i, title, out) == Next(Scan(true, title', out + [row]));
    Emit(writer, row, base, out);
    out' := out + [row];
  }

  /** The loop of lines 47-120 over an already split document. It writes
      exactly the rows of `Run` and reports the exception `Run` ends with. */
  method Mine(document: seq<string>, keyword: string, writer: RowWriter) returns (error: Option<MineError>)
    modifies writer
    ensures writer.rows == old(writer.rows) + Render(Run(document, keyword).rows)
    ensures error == Run(document, keyword).error
  {
    ghost var base := writer.rows;
    var header := false;
    var title: Option<string> := None;
    ghost var out: seq<Row> := [];
    for i := 0 to |document|
      invariant writer.rows == base + Render(out)
      invariant ScanFrom(document, keyword, i, Scan(header, title, out)) == Run(document, keyword)
    {
      ghost var s := Scan(header, title, out);
      var e;
      header, title, out, e := MineLine(document, keyword, i, header, title, out, base, writer);
      if e.Some? {
        assert ScanFrom(document, keyword, i, s) == Outcome(out, e);
        return e;
      }
    }
    error := None;
  }
}
