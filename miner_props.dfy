/**
  What a run of the miner produces, stated without the scan: the blocks of
  the document are its valid anchors, each line either is fine or raises one
  exception, and the rows written are the header chosen at the first block
  followed by one data row per block, in order, up to the first line that
  raises.
 */
module MinerProperties {
  import opened Wrappers
  import opened Text
  import opened Fields
  import opened Miner

  predicate Increasing(a: seq<nat>) {
    forall x, y :: 0 <= x < y < |a| ==> a[x] < a[y]
  }

  predicate Below(a: seq<nat>, i: nat) {
    forall x :: 0 <= x < |a| ==> a[x] < i
  }

  /** The lines before `i` that open a block, in document order. */
  function AnchorsUpTo(doc: seq<string>, keyword: string, i: nat): (r: seq<nat>)
    requires i <= |doc|
  {
    if i == 0 then []
    else AnchorsUpTo(doc, keyword, i - 1) + (if ValidAnchor(doc, keyword, i - 1) then [i - 1] else [])
  }

  /** All valid anchors of the document. */
  function Anchors(doc: seq<string>, keyword: string): (r: seq<nat>) {
    AnchorsUpTo(doc, keyword, |doc|)
  }

  /** The anchors before `i` are exactly the valid anchors below `i`, in
      increasing order. */
  lemma {:induction false} AnchorsUpToCorrect(doc: seq<string>, keyword: string, i: nat)
    requires i <= |doc|
    ensures forall j: nat :: j in AnchorsUpTo(doc, keyword, i) <==> j < i && ValidAnchor(doc, keyword, j)
    ensures Increasing(AnchorsUpTo(doc, keyword, i))
    ensures Below(AnchorsUpTo(doc, keyword, i), i)
  {
    if i > 0 {
      AnchorsUpToCorrect(doc, keyword, i - 1);
      var a := AnchorsUpTo(doc, keyword, i - 1);
      var v := ValidAnchor(doc, keyword, i - 1);
      assert AnchorsUpTo(doc, keyword, i) == a + (if v then [i - 1] else []);
      ExtendAnchors(a, i - 1, v);
    }
  }

  /** Appending the next line, when it opens a block, keeps the anchors
      increasing and below the scan position. */
  lemma ExtendAnchors(a: seq<nat>, i: nat, v: bool)
    requires Increasing(a) && Below(a, i)
    ensures var a' := a + (if v then [i] else []);
      && (forall j: nat :: j in a' <==> j in a || (v && j == i))
      && Increasing(a') && Below(a', i + 1)
  {
    var a' := a + (if v then [i] else []);
    assert forall x :: 0 <= x < |a| ==> a'[x] == a[x];
  }

  /** The exception that line `j` raises once the scan reaches it, where
      `first` says that no block has been met before it (the `header` flag
      is still false and `col2` was never assigned). */
  function LineError(doc: seq<string>, keyword: string, j: nat, first: bool): (r: Option<MineError>)
    requires j < |doc|
  {
    if !Contains(doc[j], keyword) then None
    else if j + 4 >= |doc| then Some(LineOutOfRange(j))
    else if !BlockShape(doc, j) then None
    else if first && j + 5 >= |doc| then Some(LineOutOfRange(j))
    else match RequirementId(doc[j], keyword)
      case None => Some(NoRequirementId(j))
      case Some(id) =>
        if j + 5 >= |doc| then Some(LineOutOfRange(j))
        else if first && Title(Normalize(doc[j]), id).None? then Some(TitleUnbound(j))
        else None
  }

  /** Line `j` raises when the scan reaches it. */
  predicate Fails(doc: seq<string>, keyword: string, j: nat)
    requires j < |doc|
  {
    LineError(doc, keyword, j, AnchorsUpTo(doc, keyword, j) == []).Some?
  }

  /** The header rows that the first of the blocks `a` writes. */
  function HeadersFor(doc: seq<string>, a: seq<nat>): (r: seq<Row>) {
    if a == [] then [] else HeadersAt(doc, a[0])
  }

  /** The header rows that the block at `j` writes when it is the first. */
  function HeadersAt(doc: seq<string>, j: nat): (r: seq<Row>) {
    if j + 5 >= |doc| then [] else HeaderRows(doc[j + 5])
  }

  /** The title of the last record, which `col2` still holds. */
  function LastTitle(recs: seq<Record>): (r: Option<string>) {
    if recs == [] then None else Some(recs[|recs| - 1].title)
  }

  /** The record of the block at `j` when the previous title is `prev`: the
      ID found on the anchor line, the title found there or else `prev`, and
      the other fields of the block. */
  function RecordAt(doc: seq<string>, keyword: string, j: nat, prev: Option<string>): (r: Record)
    requires j + 5 < |doc|
  {
    var id := match RequirementId(doc[j], keyword) case Some(x) => x case None => "";
    var title := match Title(Normalize(doc[j]), id) case Some(t) => t case None =>
      match prev case Some(p) => p case None => "";
    BlockRecord(doc, j, id, title)
  }

  /** The records of the blocks `a`, in order, each title carried over from
      the previous record where the anchor line yields none. */
  function RecordsFor(doc: seq<string>, keyword: string, a: seq<nat>): (recs: seq<Record>)
    requires forall k :: 0 <= k < |a| ==> a[k] + 5 < |doc|
    ensures |recs| == |a|
  {
    if a == [] then []
    else
      var pre := RecordsFor(doc, keyword, a[..|a| - 1]);
      pre + [RecordAt(doc, keyword, a[|a| - 1], LastTitle(pre))]
  }

  function DataRows(recs: seq<Record>): (rows: seq<Row>)
    ensures |rows| == |recs|
  {
    seq(|recs|, k requires 0 <= k < |recs| => DataRow(recs[k]))
  }

  /** The blocks `a` all fit in the document. */
  predicate Fit(doc: seq<string>, a: seq<nat>) {
    forall k :: 0 <= k < |a| ==> a[k] + 5 < |doc|
  }

  /** The state of the scan when it reaches line `i` without an exception:
      the header of the first block, then one data row per block so far. */
  predicate ScanInv(doc: seq<string>, keyword: string, i: nat, s: Scan)
    requires i <= |doc|
  {
    var a := AnchorsUpTo(doc, keyword, i);
    && Fit(doc, a)
    && s.out == HeadersFor(doc, a) + DataRows(RecordsFor(doc, keyword, a))
    && s.header == (a != [])
    && s.title == LastTitle(RecordsFor(doc, keyword, a))
  }

  /** What one step from a state that satisfies the invariant does: it
      continues exactly when line `i` raises nothing, keeping the invariant,
      and otherwise stops with the exception of line `i` and the rows of the
      blocks before it. */
  predicate StepOk(doc: seq<string>, keyword: string, i: nat, s: Scan)
    requires i < |doc|
  {
    var e := LineError(doc, keyword, i, AnchorsUpTo(doc, keyword, i) == []);
    match Step(doc, keyword, i, s)
    case Next(s') => e.None? && ScanInv(doc, keyword, i + 1, s')
    case Abort(out, err) =>
      e == Some(err) && err.line == i && Fit(doc, AnchorsUpTo(doc, keyword, i)) &&
      out == HeadersFor(doc, AnchorsUpTo(doc, keyword, i + 1)) +
             DataRows(RecordsFor(doc, keyword, AnchorsUpTo(doc, keyword, i)))
  }

  /** A line that opens no block adds no anchor. */
  lemma SameAnchors(doc: seq<string>, keyword: string, i: nat)
    requires i < |doc| && !ValidAnchor(doc, keyword, i)
    ensures AnchorsUpTo(doc, keyword, i + 1) == AnchorsUpTo(doc, keyword, i)
  {
    assert AnchorsUpTo(doc, keyword, i + 1) == AnchorsUpTo(doc, keyword, i) + [];
  }

  /** A block adds its anchor, its record and, when it is the first, its
      header rows. */
  lemma NewAnchor(doc: seq<string>, keyword: string, i: nat)
    requires i < |doc| && ValidAnchor(doc, keyword, i)
    ensures var a := AnchorsUpTo(doc, keyword, i);
      AnchorsUpTo(doc, keyword, i + 1) == a + [i] &&
      HeadersFor(doc, a + [i]) == (if a != [] then HeadersFor(doc, a) else if i + 5 < |doc| then HeaderRows(doc[i + 5]) else [])
  {
    HeadersForAppend(doc, AnchorsUpTo(doc, keyword, i), i);
  }

  lemma HeadersForAppend(doc: seq<string>, a: seq<nat>, i: nat)
    ensures HeadersFor(doc, a + [i]) == if a != [] then HeadersFor(doc, a) else HeadersAt(doc, i)
  {
    if a == [] {
      assert (a + [i])[0] == i;
    } else {
      assert (a + [i])[0] == a[0];
    }
  }

  lemma RecordsForAppend(doc: seq<string>, keyword: string, a: seq<nat>, i: nat)
    requires Fit(doc, a) && i + 5 < |doc|
    ensures Fit(doc, a + [i])
    ensures var recs := RecordsFor(doc, keyword, a);
      RecordsFor(doc, keyword, a + [i]) == recs + [RecordAt(doc, keyword, i, LastTitle(recs))]
  {
    assert (a + [i])[..|a + [i]| - 1] == a;
  }

  lemma RecordAtIs(doc: seq<string>, keyword: string, i: nat, prev: Option<string>, id: string, title: Option<string>)
    requires i + 5 < |doc|
    requires RequirementId(doc[i], keyword) == Some(id)
    requires title == (match Title(Normalize(doc[i]), id) case Some(t) => Some(t) case None => prev)
    requires title.Some?
    ensures RecordAt(doc, keyword, i, prev) == BlockRecord(doc, i, id, title.value)
  {
  }

  lemma ConcatAssoc(x: seq<Row>, y: seq<Row>, z: seq<Row>)
    ensures (x + y) + z == x + (y + z)
  {
  }

  lemma DataRowsAppend(recs: seq<Record>, r: Record)
    ensures DataRows(recs + [r]) == DataRows(recs) + [DataRow(r)]
  {
  }

  lemma StepSkip(doc: seq<string>, keyword: string, i: nat, s: Scan)
    requires i < |doc| && ScanInv(doc, keyword, i, s)
    requires !ValidAnchor(doc, keyword, i)
    ensures StepOk(doc, keyword, i, s)
  {
    SameAnchors(doc, keyword, i);
    if Contains(doc[i], keyword) && i + 4 >= |doc| {
      assert Step(doc, keyword, i, s) == Abort(s.out, LineOutOfRange(i));
    } else {
      assert Step(doc, keyword, i, s) == Next(s);
    }
  }

  /** The first block, when line i+5 is missing, stops before the header. */
  lemma StepNoHeaderLine(doc: seq<string>, keyword: string, i: nat, s: Scan)
    requires i < |doc| && ScanInv(doc, keyword, i, s)
    requires ValidAnchor(doc, keyword, i) && !s.header && i + 5 >= |doc|
    ensures StepOk(doc, keyword, i, s)
  {
    NewAnchor(doc, keyword, i);
  }

  /** The rows after the header step of a block. */
  lemma HeaderStep(doc: seq<string>, keyword: string, i: nat, s: Scan)
    requires i < |doc| && ScanInv(doc, keyword, i, s)
    requires ValidAnchor(doc, keyword, i) && (s.header || i + 5 < |doc|)
    ensures var a := AnchorsUpTo(doc, keyword, i);
      AnchorsUpTo(doc, keyword, i + 1) == a + [i] &&
      (if s.header then s.out else s.out + HeaderRows(doc[i + 5])) ==
        HeadersFor(doc, a + [i]) + DataRows(RecordsFor(doc, keyword, a))
  {
    NewAnchor(doc, keyword, i);
  }

  lemma RowsAppend(doc: seq<string>, keyword: string, a: seq<nat>, i: nat, out: seq<Row>, r: Record)
    requires i + 5 < |doc| && Fit(doc, a)
    requires r == RecordAt(doc, keyword, i, LastTitle(RecordsFor(doc, keyword, a)))
    requires out == HeadersFor(doc, a + [i]) + DataRows(RecordsFor(doc, keyword, a))
    ensures Fit(doc, a + [i])
    ensures out + [DataRow(r)] == HeadersFor(doc, a + [i]) + DataRows(RecordsFor(doc, keyword, a + [i]))
    ensures Some(r.title) == LastTitle(RecordsFor(doc, keyword, a + [i]))
  {
    var recs := RecordsFor(doc, keyword, a);
    RecordsForAppend(doc, keyword, a, i);
    DataRowsAppend(recs, r);
    ConcatAssoc(HeadersFor(doc, a + [i]), DataRows(recs), [DataRow(r)]);
  }

  /** A block that writes its data row keeps the invariant. */
  lemma RowStep(doc: seq<string>, keyword: string, i: nat, s: Scan, out: seq<Row>, r: Record)
    requires i + 5 < |doc| && ScanInv(doc, keyword, i, s)
    requires r == RecordAt(doc, keyword, i, s.title)
    requires out == HeadersFor(doc, AnchorsUpTo(doc, keyword, i) + [i]) +
                    DataRows(RecordsFor(doc, keyword, AnchorsUpTo(doc, keyword, i)))
    requires AnchorsUpTo(doc, keyword, i + 1) == AnchorsUpTo(doc, keyword, i) + [i]
    ensures ScanInv(doc, keyword, i + 1, Scan(true, Some(r.title), out + [DataRow(r)]))
  {
    RowsAppend(doc, keyword, AnchorsUpTo(doc, keyword, i), i, out, r);
  }

  lemma StepKeepsInv(doc: seq<string>, keyword: string, i: nat, s: Scan)
    requires i < |doc| && ScanInv(doc, keyword, i, s)
    ensures StepOk(doc, keyword, i, s)
  {
    if !ValidAnchor(doc, keyword, i) {
      StepSkip(doc, keyword, i, s);
    } else if !s.header && i + 5 >= |doc| {
      StepNoHeaderLine(doc, keyword, i, s);
    } else {
      HeaderStep(doc, keyword, i, s);
      var out := if s.header then s.out else s.out + HeaderRows(doc[i + 5]);
      match RequirementId(doc[i], keyword)
      case None =>
      case Some(id) =>
        var title := match Title(Normalize(doc[i]), id) case Some(t) => Some(t) case None => s.title;
        if i + 5 < |doc| && title.Some? {
          RecordAtIs(doc, keyword, i, s.title, id, title);
          RowStep(doc, keyword, i, s, out, BlockRecord(doc, i, id, title.value));
        }
    }
  }

  /** No line in `lo..hi` raises. */
  predicate NoFailIn(doc: seq<string>, keyword: string, lo: nat, hi: nat)
    requires hi <= |doc|
  {
    forall j :: lo <= j < hi ==> !Fails(doc, keyword, j)
  }

  /** The rows of the blocks before line `j`, and `j`'s header if it is the
      first block and has written one. */
  function RowsBefore(doc: seq<string>, keyword: string, j: nat): (r: seq<Row>)
    requires j < |doc| && Fit(doc, AnchorsUpTo(doc, keyword, j))
  {
    HeadersFor(doc, AnchorsUpTo(doc, keyword, j + 1)) + DataRows(RecordsFor(doc, keyword, AnchorsUpTo(doc, keyword, j)))
  }

  /** The outcome of a scan from line `i`, described without the scan. */
  predicate Described(doc: seq<string>, keyword: string, i: nat, o: Outcome)
    requires i <= |doc|
  {
    && (o.error.None? <==> NoFailIn(doc, keyword, i, |doc|))
    && (o.error.None? ==>
         && Fit(doc, Anchors(doc, keyword))
         && o.rows == HeadersFor(doc, Anchors(doc, keyword)) + DataRows(RecordsFor(doc, keyword, Anchors(doc, keyword))))
    && (o.error.Some? ==>
         var j := o.error.value.line;
         && i <= j < |doc|
         && NoFailIn(doc, keyword, i, j)
         && LineError(doc, keyword, j, AnchorsUpTo(doc, keyword, j) == []) == o.error
         && Fit(doc, AnchorsUpTo(doc, keyword, j))
         && o.rows == RowsBefore(doc, keyword, j))
  }

  lemma DescribedEnd(doc: seq<string>, keyword: string, s: Scan)
    requires ScanInv(doc, keyword, |doc|, s)
    ensures Described(doc, keyword, |doc|, Outcome(s.out, None))
  {
  }

  lemma DescribedBack(doc: seq<string>, keyword: string, i: nat, o: Outcome)
    requires i < |doc| && !Fails(doc, keyword, i) && Described(doc, keyword, i + 1, o)
    ensures Described(doc, keyword, i, o)
  {
  }

  lemma DescribedAbort(doc: seq<string>, keyword: string, i: nat, out: seq<Row>, err: MineError)
    requires i < |doc| && err.line == i
    requires LineError(doc, keyword, i, AnchorsUpTo(doc, keyword, i) == []) == Some(err)
    requires Fit(doc, AnchorsUpTo(doc, keyword, i))
    requires out == RowsBefore(doc, keyword, i)
    ensures Described(doc, keyword, i, Outcome(out, Some(err)))
  {
    assert Fails(doc, keyword, i);
  }

  lemma StepNextInv(doc: seq<string>, keyword: string, i: nat, s: Scan)
    requires i < |doc| && ScanInv(doc, keyword, i, s) && Step(doc, keyword, i, s).Next?
    ensures ScanInv(doc, keyword, i + 1, Step(doc, keyword, i, s).scan) && !Fails(doc, keyword, i)
  {
    StepKeepsInv(doc, keyword, i, s);
  }

  lemma ScanNextCase(doc: seq<string>, keyword: string, i: nat, s: Scan)
    requires i < |doc| && !Fails(doc, keyword, i) && Step(doc, keyword, i, s).Next?
    requires Described(doc, keyword, i + 1, ScanFrom(doc, keyword, i + 1, Step(doc, keyword, i, s).scan))
    ensures Described(doc, keyword, i, ScanFrom(doc, keyword, i, s))
  {
    var o := ScanFrom(doc, keyword, i + 1, Step(doc, keyword, i, s).scan);
    assert ScanFrom(doc, keyword, i, s) == o;
    DescribedBack(doc, keyword, i, o);
  }

  lemma ScanAbortCase(doc: seq<string>, keyword: string, i: nat, s: Scan)
    requires i < |doc| && ScanInv(doc, keyword, i, s) && Step(doc, keyword, i, s).Abort?
    ensures Described(doc, keyword, i, ScanFrom(doc, keyword, i, s))
  {
    StepKeepsInv(doc, keyword, i, s);
    var st := Step(doc, keyword, i, s);
    assert ScanFrom(doc, keyword, i, s) == Outcome(st.out, Some(st.error));
    DescribedAbort(doc, keyword, i, st.out, st.error);
  }

  /** The scan from a state that satisfies the invariant ends as `Described`
      says: without an exception exactly when no later line raises, and
      then with the header and one data row per block; otherwise at the
      first line that raises, with that line's exception and the rows of the
      blocks before it. */
  lemma {:induction false} ScanFromInv(doc: seq<string>, keyword: string, i: nat, s: Scan)
    requires i <= |doc| && ScanInv(doc, keyword, i, s)
    ensures Described(doc, keyword, i, ScanFrom(doc, keyword, i, s))
    decreases |doc| - i, 1
  {
    if i == |doc| {
      DescribedEnd(doc, keyword, s);
    } else {
      ScanStepInv(doc, keyword, i, s);
    }
  }

  /** `ScanFromInv` on a line of the document: one step, then the rest. */
  lemma {:induction false} ScanStepInv(doc: seq<string>, keyword: string, i: nat, s: Scan)
    requires i < |doc| && ScanInv(doc, keyword, i, s)
    ensures Described(doc, keyword, i, ScanFrom(doc, keyword, i, s))
    decreases |doc| - i, 0
  {
    var st := Step(doc, keyword, i, s);
    if st.Next? {
      StepNextInv(doc, keyword, i, s);
      ScanFromInv(doc, keyword, i + 1, st.scan);
      ScanNextCase(doc, keyword, i, s);
    } else {
      ScanAbortCase(doc, keyword, i, s);
    }
  }

  /** The whole run, described without the scan. With `A` the valid anchors:
      the run ends without an exception exactly when no line raises, and then
      writes the header rows chosen by line i+5 of the first block, followed
      by one data row per block of `A`, in order. When some line raises, the
      exception is that of the first such line, and the rows written are
      those of the blocks before it. */
  lemma RunCorrect(doc: seq<string>, keyword: string)
    ensures Described(doc, keyword, 0, Run(doc, keyword))
  {
    assert ScanInv(doc, keyword, 0, Scan(false, None, []));
    ScanFromInv(doc, keyword, 0, Scan(false, None, []));
  }

  // ---------------------------------------------------------------------
  // Consequences

  /** A document in which no line holds the keyword yields nothing. */
  lemma NoKeywordNoRows(doc: seq<string>, keyword: string)
    requires forall j :: 0 <= j < |doc| ==> !Contains(doc[j], keyword)
    ensures Run(doc, keyword) == Outcome([], None)
  {
    NoKeywordScan(doc, keyword, 0, Scan(false, None, []));
  }

  lemma {:induction false} NoKeywordScan(doc: seq<string>, keyword: string, i: nat, s: Scan)
    requires i <= |doc|
    requires forall j :: i <= j < |doc| ==> !Contains(doc[j], keyword)
    ensures ScanFrom(doc, keyword, i, s) == Outcome(s.out, None)
    decreases |doc| - i
  {
    if i < |doc| {
      assert Step(doc, keyword, i, s) == Next(s);
      NoKeywordScan(doc, keyword, i + 1, s);
    }
  }

  /** The rows of a run without an exception. */
  lemma RunCleanRows(doc: seq<string>, keyword: string)
    requires Run(doc, keyword).error.None?
    ensures Fit(doc, Anchors(doc, keyword))
    ensures Run(doc, keyword).rows ==
      HeadersFor(doc, Anchors(doc, keyword)) + DataRows(RecordsFor(doc, keyword, Anchors(doc, keyword)))
  {
    RunCorrect(doc, keyword);
  }

  /** The rows of a run that stops at line `j`. */
  lemma RunFailedRows(doc: seq<string>, keyword: string)
    requires Run(doc, keyword).error.Some?
    ensures var j := Run(doc, keyword).error.value.line;
      j < |doc| && Fit(doc, AnchorsUpTo(doc, keyword, j)) &&
      Run(doc, keyword).rows == RowsBefore(doc, keyword, j)
  {
    RunCorrect(doc, keyword);
  }

  /** The rows of any run split into header rows of the first block and
      data rows, one per block processed. */
  lemma RunSplit(doc: seq<string>, keyword: string) returns (a: seq<nat>, d: seq<Row>)
    ensures Run(doc, keyword).rows == HeadersFor(doc, a) + d
    ensures forall k :: 0 <= k < |d| ==> d[k].DataRow?
    ensures Run(doc, keyword).error.None? ==> a == Anchors(doc, keyword) && |d| == |Anchors(doc, keyword)|
    ensures a <= Anchors(doc, keyword)
  {
    if Run(doc, keyword).error.None? {
      RunCleanRows(doc, keyword);
      a := Anchors(doc, keyword);
      d := DataRows(RecordsFor(doc, keyword, a));
      DataRowsAreData(RecordsFor(doc, keyword, a));
    } else {
      a, d := RunFailedSplit(doc, keyword);
    }
  }

  /** The rows of a run that stops at line `j`: the header rows of the
      first block up to `j` and the data rows of the blocks before `j`. */
  lemma RunFailedSplit(doc: seq<string>, keyword: string) returns (a: seq<nat>, d: seq<Row>)
    requires Run(doc, keyword).error.Some?
    ensures Run(doc, keyword).rows == HeadersFor(doc, a) + d
    ensures forall k :: 0 <= k < |d| ==> d[k].DataRow?
    ensures a <= Anchors(doc, keyword)
  {
    RunFailedRows(doc, keyword);
    a, d := RowsBeforeSplit(doc, keyword, Run(doc, keyword).error.value.line);
  }

  /** The rows before line `j`, split into header and data rows. */
  lemma RowsBeforeSplit(doc: seq<string>, keyword: string, j: nat) returns (a: seq<nat>, d: seq<Row>)
    requires j < |doc| && Fit(doc, AnchorsUpTo(doc, keyword, j))
    ensures RowsBefore(doc, keyword, j) == HeadersFor(doc, a) + d
    ensures forall k :: 0 <= k < |d| ==> d[k].DataRow?
    ensures a <= Anchors(doc, keyword)
  {
    a := AnchorsUpTo(doc, keyword, j + 1);
    AnchorsPrefix(doc, keyword, j + 1, |doc|);
    d := DataRows(RecordsFor(doc, keyword, AnchorsUpTo(doc, keyword, j)));
    DataRowsAreData(RecordsFor(doc, keyword, AnchorsUpTo(doc, keyword, j)));
  }

  lemma DataRowsAreData(recs: seq<Record>)
    ensures forall k :: 0 <= k < |DataRows(recs)| ==> DataRows(recs)[k].DataRow?
  {
  }

  /** A run without an exception writes the header rows first and then
      exactly one data row per valid anchor, and nothing else. */
  lemma RowCount(doc: seq<string>, keyword: string)
    requires Run(doc, keyword).error.None?
    ensures var rows := Run(doc, keyword).rows; var h := HeadersFor(doc, Anchors(doc, keyword));
      |rows| == |h| + |Anchors(doc, keyword)| &&
      (forall k :: 0 <= k < |h| ==> rows[k].HeaderRow?) &&
      (forall k :: |h| <= k < |rows| ==> rows[k].DataRow?)
  {
    var a, d := RunSplit(doc, keyword);
    var h := HeadersFor(doc, a);
    HeadersForShape(doc, a);
    var rows := Run(doc, keyword).rows;
    assert forall k :: |h| <= k < |rows| ==> rows[k] == d[k - |h|];
  }

  /** The header rows a block can write: at most one "Priority" row and one
      "Verification" row, in that order. */
  lemma HeadersForShape(doc: seq<string>, a: seq<nat>)
    ensures var h := HeadersFor(doc, a);
      |h| <= 2 && (forall k :: 0 <= k < |h| ==> h[k].HeaderRow?) &&
      (|h| == 2 ==> h[0].heading == ColPriority && h[1].heading == ColVerification)
  {
  }

  /** Every run, with or without an exception, writes its header rows before
      any data row and writes at most two of them, "Priority" before
      "Verification": the header is written once. */
  lemma HeaderOnce(doc: seq<string>, keyword: string)
    ensures var rows := Run(doc, keyword).rows;
      forall x, y :: 0 <= x < y < |rows| && rows[y].HeaderRow? ==>
        rows[x].HeaderRow? && rows[x].heading == ColPriority && rows[y].heading == ColVerification
  {
    var a, d := RunSplit(doc, keyword);
    var h := HeadersFor(doc, a);
    HeadersForShape(doc, a);
    var rows := Run(doc, keyword).rows;
    assert forall k :: |h| <= k < |rows| ==> rows[k] == d[k - |h|];
    assert forall k :: 0 <= k < |h| ==> rows[k] == h[k];
  }

  /** The anchors before `i` are a prefix of the anchors before any later
      line. */
  lemma {:induction false} AnchorsPrefix(doc: seq<string>, keyword: string, i: nat, n: nat)
    requires i <= n <= |doc|
    ensures AnchorsUpTo(doc, keyword, i) <= AnchorsUpTo(doc, keyword, n)
    decreases n - i
  {
    if i < n {
      AnchorsPrefix(doc, keyword, i, n - 1);
    }
  }

  /** `col2` can be unbound only at the first block: a run that stops with
      an unbound title stops at the first valid anchor, whose line yields no
      title, after writing only the header rows. */
  lemma TitleUnboundOnlyFirst(doc: seq<string>, keyword: string, j: nat)
    requires Run(doc, keyword).error == Some(TitleUnbound(j))
    ensures j < |doc| && ValidAnchor(doc, keyword, j)
    ensures Anchors(doc, keyword) != [] && Anchors(doc, keyword)[0] == j
    ensures RequirementId(doc[j], keyword).Some?
    ensures Title(Normalize(doc[j]), RequirementId(doc[j], keyword).value).None?
    ensures Run(doc, keyword).rows == HeadersFor(doc, [j])
  {
    RunFailedRows(doc, keyword);
    RunFailedError(doc, keyword);
    TitleUnboundLine(doc, keyword, j, AnchorsUpTo(doc, keyword, j) == []);
    NewAnchor(doc, keyword, j);
    AnchorsPrefix(doc, keyword, j + 1, |doc|);
    assert AnchorsUpTo(doc, keyword, j + 1) == [j];
    assert RecordsFor(doc, keyword, AnchorsUpTo(doc, keyword, j)) == [];
    assert DataRows([]) == [];
  }

  /** The error of a run that stops is the one its last line raises. */
  lemma RunFailedError(doc: seq<string>, keyword: string)
    requires Run(doc, keyword).error.Some?
    ensures var j := Run(doc, keyword).error.value.line;
      j < |doc| && LineError(doc, keyword, j, AnchorsUpTo(doc, keyword, j) == []) == Run(doc, keyword).error
  {
    RunCorrect(doc, keyword);
  }

  /** A line raises the unbound-title error only as the first block. */
  lemma TitleUnboundLine(doc: seq<string>, keyword: string, j: nat, first: bool)
    requires j < |doc| && LineError(doc, keyword, j, first) == Some(TitleUnbound(j))
    ensures first && ValidAnchor(doc, keyword, j) && RequirementId(doc[j], keyword).Some?
    ensures Title(Normalize(doc[j]), RequirementId(doc[j], keyword).value).None?
  {
  }

  /** The title of the record before the `k`-th one, if any. */
  function PrevTitle(recs: seq<Record>, k: nat): (r: Option<string>)
    requires k <= |recs|
  {
    if k == 0 then None else Some(recs[k - 1].title)
  }

  lemma RecordAtMatches(doc: seq<string>, keyword: string, j: nat, prev: Option<string>)
    requires j + 5 < |doc|
    ensures RecordMatches(doc, keyword, j, RecordAt(doc, keyword, j, prev), prev)
  {
  }

  /** Each record of `RecordsFor` is the record of its block, its title
      carried over from the record before it where needed. */
  lemma AppendRecordAt(p: seq<Record>, x: Record, k: nat)
    requires k <= |p|
    ensures (p + [x])[k] == if k < |p| then p[k] else x
    ensures PrevTitle(p + [x], k) == PrevTitle(p, k)
    ensures PrevTitle(p, |p|) == LastTitle(p)
  {
  }

  lemma {:induction false} RecordsForAt(doc: seq<string>, keyword: string, a: seq<nat>, k: nat)
    requires Fit(doc, a)
    requires k < |a|
    ensures k <= |RecordsFor(doc, keyword, a)|
    ensures RecordsFor(doc, keyword, a)[k] ==
      RecordAt(doc, keyword, a[k], PrevTitle(RecordsFor(doc, keyword, a), k))
  {
    if k == |a| - 1 {
      RecordsForLast(doc, keyword, a);
    } else {
      var pre := a[..|a| - 1];
      RecordsForPrefix(doc, keyword, a, k);
      RecordsForAt(doc, keyword, pre, k);
      assert a[k] == pre[k];
    }
  }

  lemma RecordsForLast(doc: seq<string>, keyword: string, a: seq<nat>)
    requires Fit(doc, a) && a != []
    ensures var recs := RecordsFor(doc, keyword, a);
      recs[|a| - 1] == RecordAt(doc, keyword, a[|a| - 1], PrevTitle(recs, |a| - 1))
  {
    var pre := a[..|a| - 1];
    assert Fit(doc, pre) by {
      assert forall k :: 0 <= k < |pre| ==> pre[k] == a[k];
    }
    var p := RecordsFor(doc, keyword, pre);
    var last := RecordAt(doc, keyword, a[|a| - 1], LastTitle(p));
    assert RecordsFor(doc, keyword, a) == p + [last];
    AppendRecordAt(p, last, |p|);
  }

  lemma RecordsForPrefix(doc: seq<string>, keyword: string, a: seq<nat>, k: nat)
    requires Fit(doc, a) && k < |a| - 1
    ensures Fit(doc, a[..|a| - 1])
    ensures var recs := RecordsFor(doc, keyword, a); var p := RecordsFor(doc, keyword, a[..|a| - 1]);
      recs[k] == p[k] && PrevTitle(recs, k) == PrevTitle(p, k)
  {
    var pre := a[..|a| - 1];
    assert Fit(doc, pre) by {
      assert forall k :: 0 <= k < |pre| ==> pre[k] == a[k];
    }
    var p := RecordsFor(doc, keyword, pre);
    var last := RecordAt(doc, keyword, a[|a| - 1], LastTitle(p));
    assert RecordsFor(doc, keyword, a) == p + [last];
    AppendRecordAt(p, last, k);
  }

  /** In a run without an exception, the rows are the header rows followed
      by one data row per valid anchor, in order, and the record of the
      `k`-th holds that block's fields, the ID found on its anchor line, and
      the title found there or, where it yields none, the title of the data
      row before it. */
  lemma DataRowsCorrect(doc: seq<string>, keyword: string) returns (recs: seq<Record>)
    requires Run(doc, keyword).error.None?
    ensures |recs| == |Anchors(doc, keyword)|
    ensures Run(doc, keyword).rows == HeadersFor(doc, Anchors(doc, keyword)) + DataRows(recs)
    ensures forall k :: 0 <= k < |recs| ==>
      Anchors(doc, keyword)[k] + 5 < |doc| &&
      RecordMatches(doc, keyword, Anchors(doc, keyword)[k], recs[k], PrevTitle(recs, k))
    ensures forall k :: 0 <= k < |recs| ==>
      Anchors(doc, keyword)[k] < |doc| && RequirementId(doc[Anchors(doc, keyword)[k]], keyword) == Some(recs[k].id)
    ensures recs != [] ==>
      Title(Normalize(doc[Anchors(doc, keyword)[0]]), recs[0].id) == Some(recs[0].title)
  {
    RunCleanRows(doc, keyword);
    var a := Anchors(doc, keyword);
    recs := RecordsFor(doc, keyword, a);
    AnchorsHaveIds(doc, keyword);
    forall k | 0 <= k < |recs|
      ensures a[k] + 5 < |doc| && RecordMatches(doc, keyword, a[k], recs[k], PrevTitle(recs, k))
      ensures RequirementId(doc[a[k]], keyword) == Some(recs[k].id)
    {
      RecordsForMatches(doc, keyword, a, k);
    }
    if recs != [] {
      FirstAnchorHasTitle(doc, keyword);
      RecordsForMatches(doc, keyword, a, 0);
    }
  }

  /** In a run without an exception, line `j` raises nothing. */
  lemma CleanLine(doc: seq<string>, keyword: string, j: nat)
    requires Run(doc, keyword).error.None?
    requires j < |doc|
    ensures LineError(doc, keyword, j, AnchorsUpTo(doc, keyword, j) == []).None?
  {
    RunCorrect(doc, keyword);
    assert !Fails(doc, keyword, j);
  }

  /** In a run without an exception, every block's anchor line yields an
      ID. */
  lemma AnchorsHaveIds(doc: seq<string>, keyword: string)
    requires Run(doc, keyword).error.None?
    ensures forall k :: 0 <= k < |Anchors(doc, keyword)| ==>
      Anchors(doc, keyword)[k] < |doc| && RequirementId(doc[Anchors(doc, keyword)[k]], keyword).Some?
  {
    var a := Anchors(doc, keyword);
    AnchorsUpToCorrect(doc, keyword, |doc|);
    forall k | 0 <= k < |a|
      ensures a[k] < |doc| && RequirementId(doc[a[k]], keyword).Some?
    {
      assert a[k] in a;
      CleanLine(doc, keyword, a[k]);
    }
  }

  /** In a run without an exception, the first block's anchor line yields a
      title, since `col2` holds none before it. */
  lemma FirstAnchorHasTitle(doc: seq<string>, keyword: string)
    requires Run(doc, keyword).error.None?
    requires Anchors(doc, keyword) != []
    ensures var j := Anchors(doc, keyword)[0];
      j < |doc| && RequirementId(doc[j], keyword).Some? &&
      Title(Normalize(doc[j]), RequirementId(doc[j], keyword).value).Some?
  {
    var a := Anchors(doc, keyword);
    AnchorsUpToCorrect(doc, keyword, |doc|);
    var j := a[0];
    assert j in a;
    AnchorsUpToCorrect(doc, keyword, j);
    AnchorsPrefix(doc, keyword, j, |doc|);
    assert AnchorsUpTo(doc, keyword, j) == [];
    CleanLine(doc, keyword, j);
  }

  lemma RecordsForMatches(doc: seq<string>, keyword: string, a: seq<nat>, k: nat)
    requires Fit(doc, a)
    requires k < |a|
    ensures a[k] + 5 < |doc|
    ensures k < |RecordsFor(doc, keyword, a)|
    ensures var recs := RecordsFor(doc, keyword, a);
      RecordMatches(doc, keyword, a[k], recs[k], PrevTitle(recs, k))
  {
    RecordsForAt(doc, keyword, a, k);
    RecordAtMatches(doc, keyword, a[k], PrevTitle(RecordsFor(doc, keyword, a), k));
  }

}
