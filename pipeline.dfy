/** `_process_file` and `_filter_and_clean_data`: every source file cut into partitions, each
    partition transformed and its rows appended to the relationship table and to the
    compound-gene table. */
module Pipeline {
  import opened Frames
  import opened Text
  import opened Columns
  import opened ReferenceIndex
  import opened Partition
  import opened Phenotype
  import opened ActivityClassifier

  /** `[col for col in ddf.columns if col.startswith('phenotype')]`, in header order. */
  function PhenotypeColumns(header: seq<string>): (r: seq<string>)
    ensures forall c :: c in r <==> c in header && StartsWith(c, "phenotype")
  {
    if header == [] then []
    else PhenotypeColumns(header[..|header| - 1]) +
         (if StartsWith(header[|header| - 1], "phenotype") then [header[|header| - 1]] else [])
  }

  predicate HasCid(row: Row)
  {
    Get(row, "cid") != Missing
  }

  /** `ddf.dropna(subset=['cid'], how='any')`, which runs before repeated columns are dropped: a
      line stays only when every `cid` cell is present. */
  function CidLines(header: seq<string>, lines: seq<seq<Value>>): (r: seq<seq<Value>>)
    ensures |r| <= |lines|
    ensures forall x :: x in r <==> x in lines && AllPresent(header, x, "cid")
  {
    if lines == [] then []
    else
      CidLines(header, lines[..|lines| - 1]) +
      (if AllPresent(header, lines[|lines| - 1], "cid") then [lines[|lines| - 1]] else [])
  }

  /** Every row read from the kept lines has its `cid`, whichever `cid` cell the row keeps; with
      one `cid` column the filter is exactly `HasCid` on the row. */
  lemma CidLinesHaveCid(header: seq<string>, lines: seq<seq<Value>>)
    requires "cid" in header
    ensures forall r :: r in PartitionRows(header, CidLines(header, lines)) ==> HasCid(r)
    ensures !Repeated(header, "cid") ==>
      forall x :: x in lines ==> (x in CidLines(header, lines) <==> HasCid(RowOf(header, x)))
  {
    var kept := CidLines(header, lines);
    var i := FirstIndex(header, "cid");
    forall r | r in PartitionRows(header, kept) ensures HasCid(r) {
      var j :| 0 <= j < |kept| && PartitionRows(header, kept)[j] == r;
      assert kept[j] in kept;
    }
    if !Repeated(header, "cid") {
      forall x | x in lines ensures x in kept <==> HasCid(RowOf(header, x)) {
        PresentWhenUnique(header, x, "cid");
      }
    }
  }

  /** The rows one partition writes: none when `process_partition` raised. */
  function PartitionOutput(index: Index, schema: seq<string>, phenotypeCols: seq<string>, raw: seq<Row>): seq<Row>
  {
    match ProcessPartition(index, schema, phenotypeCols, raw)
    case Success(f) => f.rows
    case Failure(_) => []
  }

  /** The rows of the partitions in order. */
  function PartitionsOutput(index: Index, schema: seq<string>, header: seq<string>, parts: seq<seq<seq<Value>>>): seq<Row>
  {
    if parts == [] then []
    else
      PartitionsOutput(index, schema, header, parts[..|parts| - 1]) +
      PartitionOutput(index, schema, PhenotypeColumns(header), PartitionRows(header, CidLines(header, parts[|parts| - 1])))
  }

  /** `_process_file` on one source file (None when the file cannot be read). A Failure escapes
      the delayed call and ends the run: reading the file, or `dropna(subset=['cid'])` on a file with no
      `cid` column, raises outside the partition's `try`. */
  function ProcessFile(index: Index, schema: seq<string>, file: Option<CsvFile>): Result<seq<Row>>
  {
    match file
    case None => Failure(Unreadable)
    case Some(f) =>
      var header := NormalizeHeader(f.header);
      if "cid" !in header then Failure(MissingColumn("cid"))
      else Success(PartitionsOutput(index, schema, header, f.partitions))
  }

  /** The outcome of each file's task, in file order. */
  function Outcomes(index: Index, schema: seq<string>, files: seq<Option<CsvFile>>): (r: seq<Result<seq<Row>>>)
    ensures |r| == |files|
    ensures forall i :: 0 <= i < |files| ==> r[i] == ProcessFile(index, schema, files[i])
  {
    seq(|files|, i requires 0 <= i < |files| => ProcessFile(index, schema, files[i]))
  }

  /** The outcomes of the delayed calls taken in order: each call's rows are appended until one raises, which
      ends the run with its fault. */
  function Run(outcomes: seq<Result<seq<Row>>>): (seq<Row>, Option<Fault>)
  {
    if outcomes == [] then ([], None)
    else
      var previous := Run(outcomes[..|outcomes| - 1]);
      if previous.1.Some? then previous
      else match outcomes[|outcomes| - 1]
        case Failure(e) => (previous.0, Some(e))
        case Success(more) => (previous.0 + more, None)
  }

  /** The rows written by the files in order, and the fault that ended the run, if one did. */
  function RunRows(index: Index, schema: seq<string>, files: seq<Option<CsvFile>>): (seq<Row>, Option<Fault>)
  {
    Run(Outcomes(index, schema, files))
  }

  /** The header each file shows `read_columns`. */
  function HeadersOf(files: seq<Option<CsvFile>>): (r: seq<Option<seq<string>>>)
    ensures |r| == |files|
    ensures forall i :: 0 <= i < |files| ==> r[i] == match files[i] case None => None case Some(f) => Some(f.header)
  {
    seq(|files|, i requires 0 <= i < |files| => match files[i] case None => None case Some(f) => Some(f.header))
  }

  // ---------------------------------------------------------------------------------------------
  // The two output tables.

  const GENE_COLUMNS: seq<string> := ["cid", "target_geneid", "activity", "aid"]

  /** One CSV record: the row's cells in the order of `columns`. */
  function Record(columns: seq<string>, row: Row): (r: seq<Value>)
    ensures |r| == |columns|
    ensures forall j :: 0 <= j < |columns| ==> r[j] == Get(row, columns[j])
  {
    seq(|columns|, j requires 0 <= j < |columns| => Get(row, columns[j]))
  }

  function Records(columns: seq<string>, rows: seq<Row>): (r: seq<seq<Value>>)
    ensures |r| == |rows|
    ensures forall i :: 0 <= i < |rows| ==> r[i] == Record(columns, rows[i])
  {
    seq(|rows|, i requires 0 <= i < |rows| => Record(columns, rows[i]))
  }

  // ---------------------------------------------------------------------------------------------
  // `_filter_and_clean_data`.

  /** Once a task has ended the run, later tasks change nothing. */
  lemma {:induction false} RunAbortIsFinal(outcomes: seq<Result<seq<Row>>>, more: seq<Result<seq<Row>>>)
    requires Run(outcomes).1.Some?
    ensures Run(outcomes + more) == Run(outcomes)
    decreases |more|
  {
    if more != [] {
      var init := more[..|more| - 1];
      RunAbortIsFinal(outcomes, init);
      assert (outcomes + more)[..|outcomes + more| - 1] == outcomes + init;
    } else {
      assert outcomes + more == outcomes;
    }
  }

  /** One more task, while none has raised: it appends its rows or ends the run with its fault. */
  lemma RunNext(outcomes: seq<Result<seq<Row>>>, i: nat)
    requires i < |outcomes| && Run(outcomes[..i]).1.None?
    ensures var written := Run(outcomes[..i]).0;
      Run(outcomes[..i + 1]) ==
        match outcomes[i]
        case Failure(e) => (written, Some(e))
        case Success(more) => (written + more, None)
  {
    assert outcomes[..i + 1][..i] == outcomes[..i];
  }

  lemma RecordsAppend(columns: seq<string>, a: seq<Row>, b: seq<Row>)
    ensures Records(columns, a + b) == Records(columns, a) + Records(columns, b)
  {
  }

  /** One task of the run, as both tables see it. */
  lemma AppendStep(header: seq<string>, outcomes: seq<Result<seq<Row>>>, i: nat)
    requires i < |outcomes| && Run(outcomes[..i]).1.None?
    ensures var written := Run(outcomes[..i]).0;
      match outcomes[i]
      case Failure(e) => Run(outcomes[..i + 1]) == (written, Some(e))
      case Success(rows) =>
        Run(outcomes[..i + 1]).1 == None &&
        Records(header, Run(outcomes[..i + 1]).0) == Records(header, written) + Records(header, rows) &&
        Records(GENE_COLUMNS, Run(outcomes[..i + 1]).0) == Records(GENE_COLUMNS, written) + Records(GENE_COLUMNS, rows)
  {
    RunNext(outcomes, i);
    match outcomes[i]
    case Failure(e) =>
    case Success(rows) =>
      RecordsAppend(header, Run(outcomes[..i]).0, rows);
      RecordsAppend(GENE_COLUMNS, Run(outcomes[..i]).0, rows);
  }

  /** Where the loop of tasks stops, the run is over: every task ran or one raised. */
  lemma AppendStops(outcomes: seq<Result<seq<Row>>>, i: nat)
    requires i <= |outcomes|
    requires i == |outcomes| || Run(outcomes[..i]).1.Some?
    ensures Run(outcomes) == Run(outcomes[..i])
  {
    if i < |outcomes| {
      RunAbortIsFinal(outcomes[..i], outcomes[i..]);
      assert outcomes[..i] + outcomes[i..] == outcomes;
    } else {
      assert outcomes[..i] == outcomes;
    }
  }

  /** The delayed calls of the run, in file order: each file's rows are appended to both tables until a
      file raises. The relationship records are the rows projected onto the header (see the
      record-width finding). */
  method AppendFiles(index: Index, header: seq<string>, files: seq<Option<CsvFile>>)
      returns (relationship: seq<seq<Value>>, compoundGene: seq<seq<Value>>, aborted: Option<Fault>)
    ensures relationship == Records(header, RunRows(index, header, files).0)
    ensures compoundGene == Records(GENE_COLUMNS, RunRows(index, header, files).0)
    ensures aborted == RunRows(index, header, files).1
  {
    ghost var outcomes := Outcomes(index, header, files);
    relationship := [];
    compoundGene := [];
    aborted := None;
    var i := 0;
    while i < |files| && aborted.None?
      invariant 0 <= i <= |files|
      invariant relationship == Records(header, Run(outcomes[..i]).0)
      invariant compoundGene == Records(GENE_COLUMNS, Run(outcomes[..i]).0)
      invariant aborted == Run(outcomes[..i]).1
    {
      AppendStep(header, outcomes, i);
      var outcome := ProcessFile(index, header, files[i]);
      assert outcome == outcomes[i];
      if outcome.Failure? {
        aborted := Some(outcome.fault);
      } else {
        relationship := relationship + Records(header, outcome.value);
        compoundGene := compoundGene + Records(GENE_COLUMNS, outcome.value);
      }
      i := i + 1;
    }
    AppendStops(outcomes, i);
  }

  /** `_filter_and_clean_data`: the schema is built, both tables start with their header, and the
      files are processed in order. */
  method FilterAndCleanData(index: Index, files: seq<Option<CsvFile>>)
      returns (header: seq<string>, relationship: seq<seq<Value>>, compoundGene: seq<seq<Value>>, aborted: Option<Fault>)
    ensures |header| > 0 && header[|header| - 1] == "activity"
    ensures Names(header[..|header| - 1]) == HeaderColumns(HeadersOf(files)) + ReferenceColumns(index)
    ensures relationship == Records(header, RunRows(index, header, files).0)
    ensures compoundGene == Records(GENE_COLUMNS, RunRows(index, header, files).0)
    ensures aborted == RunRows(index, header, files).1
  {
    header := UniqueColumnNames(index, HeadersOf(files));
    relationship, compoundGene, aborted := AppendFiles(index, header, files);
  }

  // ---------------------------------------------------------------------------------------------
  // Properties of the written rows.

  lemma {:induction false} PartitionsOutputWritten(index: Index, schema: seq<string>, header: seq<string>, parts: seq<seq<seq<Value>>>)
    requires WellKeyed(index)
    ensures forall r :: r in PartitionsOutput(index, schema, header, parts) ==> Written("sid" in schema, r)
    ensures ReferenceColumns(index) <= Names(schema) ==>
              forall r :: r in PartitionsOutput(index, schema, header, parts) ==> r.Keys == Names(OutputColumns(schema))
  {
    if parts != [] {
      PartitionsOutputWritten(index, schema, header, parts[..|parts| - 1]);
      var raw := PartitionRows(header, CidLines(header, parts[|parts| - 1]));
      var pcs := PhenotypeColumns(header);
      if ProcessPartition(index, schema, pcs, raw).Success? {
        ProcessPartitionOutput(index, schema, pcs, raw);
        if ReferenceColumns(index) <= Names(schema) {
          ProcessPartitionShape(index, schema, pcs, raw);
        }
      }
    }
  }

  /** Every row the run writes comes from a task that succeeded. */
  lemma {:induction false} RunRowsFrom(outcomes: seq<Result<seq<Row>>>)
    ensures forall r :: r in Run(outcomes).0 ==>
              exists i :: 0 <= i < |outcomes| && outcomes[i].Success? && r in outcomes[i].value
  {
    if outcomes != [] {
      var init := outcomes[..|outcomes| - 1];
      RunRowsFrom(init);
      forall i | 0 <= i < |init| ensures init[i] == outcomes[i] { }
    }
  }

  /** The run's fault is that of the first delayed call that raised, and the calls before it all
      succeeded. */
  lemma {:induction false} RunFault(outcomes: seq<Result<seq<Row>>>)
    ensures Run(outcomes).1.None? <==> forall i :: 0 <= i < |outcomes| ==> outcomes[i].Success?
    ensures Run(outcomes).1.Some? ==>
              exists i :: 0 <= i < |outcomes| && outcomes[i] == Failure(Run(outcomes).1.value) &&
                forall j :: 0 <= j < i ==> outcomes[j].Success?
  {
    if outcomes != [] {
      var init := outcomes[..|outcomes| - 1];
      RunFault(init);
      forall j | 0 <= j < |init| ensures init[j] == outcomes[j] { }
    }
  }

  /** A file's task writes only rows that satisfy `Written`, with exactly the schema and the
      derived columns when the schema holds every reference field. */
  lemma ProcessFileWritten(index: Index, schema: seq<string>, file: Option<CsvFile>)
    requires WellKeyed(index) && ProcessFile(index, schema, file).Success?
    ensures forall r :: r in ProcessFile(index, schema, file).value ==> Written("sid" in schema, r)
    ensures ReferenceColumns(index) <= Names(schema) ==>
              forall r :: r in ProcessFile(index, schema, file).value ==> r.Keys == Names(OutputColumns(schema))
  {
    var f := file.value;
    PartitionsOutputWritten(index, schema, NormalizeHeader(f.header), f.partitions);
  }

  /** Every row the run writes has integer ids, is not the sentinel, has its URL (when `sid` is
      a schema column) and its classifier label; when the schema holds every reference field
      it carries exactly the schema and the derived columns. */
  lemma RunRowsWritten(index: Index, schema: seq<string>, files: seq<Option<CsvFile>>)
    requires WellKeyed(index)
    ensures forall r :: r in RunRows(index, schema, files).0 ==> Written("sid" in schema, r)
    ensures ReferenceColumns(index) <= Names(schema) ==>
              forall r :: r in RunRows(index, schema, files).0 ==> r.Keys == Names(OutputColumns(schema))
  {
    var outcomes := Outcomes(index, schema, files);
    RunRowsFrom(outcomes);
    forall r | r in RunRows(index, schema, files).0
      ensures Written("sid" in schema, r)
      ensures ReferenceColumns(index) <= Names(schema) ==> r.Keys == Names(OutputColumns(schema))
    {
      var i :| 0 <= i < |outcomes| && outcomes[i].Success? && r in outcomes[i].value;
      ProcessFileWritten(index, schema, files[i]);
    }
  }

  /** The run's fault is that of the first file that raised, and the files before it were all
      processed. */
  lemma RunRowsFault(index: Index, schema: seq<string>, files: seq<Option<CsvFile>>)
    ensures RunRows(index, schema, files).1.None? <==>
              forall i :: 0 <= i < |files| ==> ProcessFile(index, schema, files[i]).Success?
    ensures RunRows(index, schema, files).1.Some? ==>
              exists i :: 0 <= i < |files| && ProcessFile(index, schema, files[i]) == Failure(RunRows(index, schema, files).1.value) &&
                forall j :: 0 <= j < i ==> ProcessFile(index, schema, files[j]).Success?
  {
    RunFault(Outcomes(index, schema, files));
  }

  // ---------------------------------------------------------------------------------------------
  // The width of the relationship records.

  /** As the source writes them (`df.to_csv(output_file, mode='a', header=False)`): each
      partition's rows with the partition frame's own columns. */
  function AsWrittenRecords(index: Index, schema: seq<string>, phenotypeCols: seq<string>, raw: seq<Row>): seq<seq<Value>>
  {
    match ProcessPartition(index, schema, phenotypeCols, raw)
    case Success(f) => Records(f.columns, f.rows)
    case Failure(_) => []
  }

  /** The header is the schema, but every record a partition appends carries the derived
      columns as well: whenever `measured_activity` is not a schema column, each record has more
      fields than the header. */
  lemma AsWrittenRecordsOutgrowHeader(index: Index, schema: seq<string>, phenotypeCols: seq<string>, raw: seq<Row>)
    requires WellKeyed(index) && "measured_activity" !in schema
    ensures forall rec :: rec in AsWrittenRecords(index, schema, phenotypeCols, raw) ==> |rec| > |schema|
  {
    if ProcessPartition(index, schema, phenotypeCols, raw).Success? {
      var f := ProcessPartition(index, schema, phenotypeCols, raw).value;
      ProcessPartitionOutput(index, schema, phenotypeCols, raw);
      OutputColumnsLonger(schema);
    }
  }

  /** A partition that shows it: one `Inactive` row under the schema
      `aid, cid, activity_outcome, activity`, with no phenotype column and an empty index. */
  const EXAMPLE_SCHEMA: seq<string> := ["aid", "cid", "activity_outcome", "activity"]
  const EXAMPLE_ROW: Row := map["aid" := Int(5), "cid" := Int(7), "activity_outcome" := Str("Inactive")]

  lemma ExampleKept()
    ensures Where(seq(1, i requires 0 <= i < 1 => Reindex(EXAMPLE_SCHEMA, [EXAMPLE_ROW][i])), HasIds) ==
            [Reindex(EXAMPLE_SCHEMA, EXAMPLE_ROW)]
  {
    var reindexed := Reindex(EXAMPLE_SCHEMA, EXAMPLE_ROW);
    assert seq(1, i requires 0 <= i < 1 => Reindex(EXAMPLE_SCHEMA, [EXAMPLE_ROW][i])) == [reindexed];
    assert HasIds(reindexed);
    assert [reindexed][..0] == [];
  }

  lemma ExampleAugment(m: Row)
    requires Get(m, "aid") == Int(5) && Get(m, "cid") == Int(7) && Get(m, "activity_outcome") == Str("Inactive")
    ensures AugmentAll(map[], [m]) == Success([m])
  {
    assert KeyOf(m) == Success(Key(5, 7, Str("Inactive")));
    assert Augment(map[], m) == Success(m);
    assert [m][..0] == [];
    assert [] + [m] == [m];
  }

  /** The mode, augmentation and propagation steps leave the example's row as it was, plus its
      `measured_activity`. */
  lemma ExampleMeasured(k: Row) returns (m: Row)
    requires Get(k, "aid") == Int(5) && Get(k, "cid") == Int(7) && Get(k, "activity_outcome") == Str("Inactive")
    ensures AugmentAll(map[], WithMode([], [k])) == Success([m])
    ensures PropagateStep(Extend(EXAMPLE_SCHEMA, "measured_activity"), [], [m]) == Success([m])
    ensures Get(m, "aid") == Int(5) && Get(m, "activity_outcome") == Str("Inactive")
  {
    m := k["measured_activity" := Mode(PhenotypeValues([], k))];
    assert WithMode([], [k]) == [m];
    ExampleAugment(m);
    var columns1 := Extend(EXAMPLE_SCHEMA, "measured_activity");
    assert !(exists c :: c in [] && c in columns1);
  }

  lemma ExamplePrepare(k: Row) returns (g: Row)
    requires Get(k, "aid") == Int(5) && Get(k, "cid") == Int(7) && Get(k, "activity_outcome") == Str("Inactive")
    ensures Prepare(map[], EXAMPLE_SCHEMA, [], [k]) == Success([g])
    ensures Get(g, "aid") == Int(5) && Get(g, "activity_outcome") == Str("Inactive")
  {
    var m := ExampleMeasured(k);
    var columns1 := Extend(EXAMPLE_SCHEMA, "measured_activity");
    PrepareSteps(map[], EXAMPLE_SCHEMA, [], [k], [m], [m]);
    ExtendOther(EXAMPLE_SCHEMA, "measured_activity", "target_geneid");
    g := m["target_geneid" := Missing];
    assert WithGene(columns1, [m]) == [g];
  }

  lemma ExampleUrl(g: Row)
    requires Get(g, "aid") == Int(5)
    ensures var columns2 := Extend(Extend(EXAMPLE_SCHEMA, "measured_activity"), "target_geneid");
      var u := g["activity_url" := if "sid" in columns2 then Str(Url(g)) else Missing];
      Where(WithUrl(columns2, [g]), row => !IsSentinel(row)) == [u]
  {
    var columns2 := Extend(Extend(EXAMPLE_SCHEMA, "measured_activity"), "target_geneid");
    var u := g["activity_url" := if "sid" in columns2 then Str(Url(g)) else Missing];
    assert WithUrl(columns2, [g]) == [u];
    assert !IsSentinel(u);
    assert [u][..0] == [];
  }

  lemma ExampleLabels(columns: seq<string>, u: Row)
    requires "activity_outcome" in columns && Get(u, "activity_outcome") == Str("Inactive")
    ensures LabelsAndActivity(columns, [u]).Success? && |LabelsAndActivity(columns, [u]).value| == 1
  {
    assert !IsActive(u);
  }

  lemma ExampleFinish(g: Row)
    requires Get(g, "aid") == Int(5) && Get(g, "activity_outcome") == Str("Inactive")
    ensures var columns2 := Extend(Extend(EXAMPLE_SCHEMA, "measured_activity"), "target_geneid");
      Finish(columns2, [g]).Success? && |Finish(columns2, [g]).value| == 1
  {
    var columns2 := Extend(Extend(EXAMPLE_SCHEMA, "measured_activity"), "target_geneid");
    var u := g["activity_url" := if "sid" in columns2 then Str(Url(g)) else Missing];
    ExampleUrl(g);
    ExtendOther(EXAMPLE_SCHEMA, "measured_activity", "activity_outcome");
    ExtendOther(Extend(EXAMPLE_SCHEMA, "measured_activity"), "target_geneid", "activity_outcome");
    ExtendOther(columns2, "activity_url", "activity_outcome");
    ExampleLabels(Extend(columns2, "activity_url"), u);
  }

  lemma ExampleColumns()
    ensures OutputColumns(EXAMPLE_SCHEMA) == EXAMPLE_SCHEMA + ["measured_activity", "target_geneid", "activity_url"]
  {
    var c1 := EXAMPLE_SCHEMA + ["measured_activity"];
    assert forall j :: 0 <= j < |EXAMPLE_SCHEMA| ==> |EXAMPLE_SCHEMA[j]| != |"measured_activity"|;
    assert Extend(EXAMPLE_SCHEMA, "measured_activity") == c1;
    var c2 := c1 + ["target_geneid"];
    assert forall j :: 0 <= j < |c1| ==> |c1[j]| != |"target_geneid"|;
    assert Extend(c1, "target_geneid") == c2;
    var c3 := c2 + ["activity_url"];
    assert forall j :: 0 <= j < |c2| ==> |c2[j]| != |"activity_url"|;
    assert Extend(c2, "activity_url") == c3;
    assert c3[3] == "activity";
    assert Extend(c3, "activity") == c3;
  }

  /** The example's one row survives the id filter, so the partition is transformed. */
  lemma ExampleProcess() returns (k: Row)
    ensures ProcessPartition(map[], EXAMPLE_SCHEMA, [], [EXAMPLE_ROW]) == Transform(map[], EXAMPLE_SCHEMA, [], [k])
    ensures Get(k, "aid") == Int(5) && Get(k, "cid") == Int(7) && Get(k, "activity_outcome") == Str("Inactive")
  {
    ExampleKept();
    k := Reindex(EXAMPLE_SCHEMA, EXAMPLE_ROW);
    assert "aid" in Names(EXAMPLE_SCHEMA) && "cid" in Names(EXAMPLE_SCHEMA) && "activity_outcome" in Names(EXAMPLE_SCHEMA);
    assert FirstAbsent([], EXAMPLE_SCHEMA) == None;
  }

  /** The transform yields one row under the full output columns. */
  lemma ExampleTransform(k: Row)
    requires Get(k, "aid") == Int(5) && Get(k, "cid") == Int(7) && Get(k, "activity_outcome") == Str("Inactive")
    ensures Transform(map[], EXAMPLE_SCHEMA, [], [k]).Success?
    ensures var f := Transform(map[], EXAMPLE_SCHEMA, [], [k]).value;
      f.columns == OutputColumns(EXAMPLE_SCHEMA) && |f.rows| == 1
  {
    var g := ExamplePrepare(k);
    ExampleFinish(g);
  }

  /** The partition is appended as one record of seven fields under a header of four. */
  lemma AsWrittenRecordExample()
    ensures var recs := AsWrittenRecords(map[], EXAMPLE_SCHEMA, [], [EXAMPLE_ROW]);
      |recs| == 1 && |recs[0]| == 7 && |EXAMPLE_SCHEMA| == 4
  {
    var k := ExampleProcess();
    ExampleTransform(k);
    ExampleColumns();
  }

  /** Corrected: records projected onto the header. Each has exactly one field per header column,
      and when the schema holds every reference field each field is the row's own cell for that
      column. */
  lemma CorrectedRecordsMatchHeader(index: Index, schema: seq<string>, files: seq<Option<CsvFile>>)
    requires WellKeyed(index) && ReferenceColumns(index) <= Names(schema)
    ensures forall i :: 0 <= i < |RunRows(index, schema, files).0| ==>
      var row := RunRows(index, schema, files).0[i];
      var rec := Records(schema, RunRows(index, schema, files).0)[i];
      |rec| == |schema| && forall j :: 0 <= j < |schema| ==> schema[j] in row && rec[j] == row[schema[j]]
  {
    RunRowsWritten(index, schema, files);
    OutputColumnsCover(schema);
    RecordsOfRows(schema, OutputColumns(schema), RunRows(index, schema, files).0);
  }

  /** With the index loaded from the reference file and the header `_filter_and_clean_data`
      builds from it, every row of the run is written correctly, carries exactly the output
      columns, and its relationship record has the header's width. */
  lemma LoadedRunWritten(ref: CsvFile, files: seq<Option<CsvFile>>, header: seq<string>)
    requires AllDataConnected(ref).Success?
    requires |header| > 0
    requires Names(header[..|header| - 1]) ==
             HeaderColumns(HeadersOf(files)) + ReferenceColumns(AllDataConnected(ref).value)
    ensures var rows := RunRows(AllDataConnected(ref).value, header, files).0;
      forall i :: 0 <= i < |rows| ==>
        Written("sid" in header, rows[i]) && rows[i].Keys == Names(OutputColumns(header)) &&
        |Records(header, rows)[i]| == |header|
  {
    var index := AllDataConnected(ref).value;
    AllDataConnectedSpec(ref);
    forall c | c in ReferenceColumns(index) ensures c in Names(header) {
      assert c in header[..|header| - 1];
    }
    RunRowsWritten(index, header, files);
    CorrectedRecordsMatchHeader(index, header, files);
  }

  /** Rows that carry every header column project onto records of the header's cells. */
  lemma RecordsOfRows(schema: seq<string>, columns: seq<string>, rows: seq<Row>)
    requires Names(schema) <= Names(columns)
    requires forall r :: r in rows ==> r.Keys == Names(columns)
    ensures forall i :: 0 <= i < |rows| ==>
      var rec := Records(schema, rows)[i];
      |rec| == |schema| && forall j :: 0 <= j < |schema| ==> schema[j] in rows[i] && rec[j] == rows[i][schema[j]]
  {
    forall i, j | 0 <= i < |rows| && 0 <= j < |schema| ensures schema[j] in rows[i] {
      assert rows[i] in rows;
      assert schema[j] in Names(schema);
    }
  }
}
