/** The per-partition transform of `_process_file` (`process_partition`): reindex to the canonical
    schema, drop rows without ids, phenotype mode, augmentation, phenotype propagation, the
    PubChem URL, the sentinel filter and the activity classifier. */
module Partition {
  import opened Frames
  import opened Text
  import opened Columns
  import opened ReferenceIndex
  import opened Phenotype
  import opened ActivityClassifier

  /** A pandas frame: its column list and its rows. */
  datatype Frame = Frame(columns: seq<string>, rows: seq<Row>)

  /** `df[c] = ...`: assigning a column appends it unless the frame has it already. */
  function Extend(columns: seq<string>, c: string): (r: seq<string>)
    ensures Names(r) == Names(columns) + {c}
    ensures columns <= r && |r| <= |columns| + 1
  {
    if c in columns then columns else columns + [c]
  }

  /** Adding a column leaves every other name's membership as it was. */
  lemma ExtendOther(columns: seq<string>, c: string, x: string)
    requires x != c
    ensures (x in Extend(columns, c)) == (x in columns)
  {
  }

  /** `df.reindex(columns=schema, fill_value=pd.NA)` on one row. */
  function Reindex(schema: seq<string>, row: Row): (r: Row)
    ensures r.Keys == Names(schema)
    ensures forall c :: c in Names(schema) ==> r[c] == Get(row, c)
  {
    map c | c in Names(schema) :: Get(row, c)
  }

  /** The rows `keep` accepts, in their order. */
  function Where(rows: seq<Row>, keep: Row -> bool): (r: seq<Row>)
    ensures |r| <= |rows|
    ensures forall x :: x in r <==> x in rows && keep(x)
  {
    if rows == [] then []
    else Where(rows[..|rows| - 1], keep) + (if keep(rows[|rows| - 1]) then [rows[|rows| - 1]] else [])
  }

  /** The row `aid == 1 and cid == 1` that the source drops. */
  predicate IsSentinel(row: Row)
  {
    Get(row, "aid") == Int(1) && Get(row, "cid") == Int(1)
  }

  /** The first phenotype column the schema lacks: `df[phenotype_cols]` raises on it. */
  function FirstAbsent(wanted: seq<string>, columns: seq<string>): (r: Option<string>)
    ensures r.None? <==> forall c :: c in wanted ==> c in columns
    ensures r.Some? ==> r.value in wanted && r.value !in columns
  {
    if wanted == [] then None
    else if wanted[0] !in columns then Some(wanted[0])
    else FirstAbsent(wanted[1..], columns)
  }

  /** `df.apply(self._add_all_data_connected_info, axis=1)`: every row augmented in order, the
      first failure ending the partition. */
  function AugmentAll(index: Index, rows: seq<Row>): (r: Result<seq<Row>>)
    ensures r.Success? <==> forall i :: 0 <= i < |rows| ==> Augment(index, rows[i]).Success?
    ensures r.Success? ==> (|r.value| == |rows| &&
              forall i :: 0 <= i < |rows| ==> Augment(index, rows[i]) == Success(r.value[i]))
  {
    if rows == [] then Success([])
    else
      var init :- AugmentAll(index, rows[..|rows| - 1]);
      var last :- Augment(index, rows[|rows| - 1]);
      Success(init + [last])
  }

  /** The guarded group propagation: it runs when some phenotype column is a column of the frame
      and no row lacks an outcome; `groupby` needs `assay_name`, `propagate_phenotype` needs
      `phenotype`. */
  function PropagateStep(columns: seq<string>, phenotypeCols: seq<string>, rows: seq<Row>): (r: Result<seq<Row>>)
  {
    if !(exists c :: c in phenotypeCols && c in columns) then Success(rows)
    else if "activity_outcome" !in columns then Failure(MissingColumn("activity_outcome"))
    else if !(forall i :: 0 <= i < |rows| ==> Get(rows[i], "activity_outcome") != Missing) then Success(rows)
    else if "assay_name" !in columns then Failure(MissingColumn("assay_name"))
    else if "phenotype" !in columns then Failure(MissingColumn("phenotype"))
    else Success(Propagate(rows))
  }

  /** How the f-string renders a cell: a missing cell prints as `nan`. */
  function Render(v: Value): string
  {
    match v
    case Missing => "nan"
    case Str(s) => s
    case Int(n) => IntToString(n)
  }

  const BIOASSAY_URL: string := "https://pubchem.ncbi.nlm.nih.gov/bioassay/"

  /** `f"https://pubchem.ncbi.nlm.nih.gov/bioassay/{row['aid']}#sid={row['sid']}"`. */
  function Url(row: Row): string
  {
    BIOASSAY_URL + Render(Get(row, "aid")) + "#sid=" + Render(Get(row, "sid"))
  }

  /** The `activity` cell: the label's text, or None. */
  function ActivityValue(outcome: Option<Label>): Value
  {
    match outcome
    case Some(l) => Str(LabelName(l))
    case None => Missing
  }

  predicate ActiveHaveNames(rows: seq<Row>)
  {
    forall i :: 0 <= i < |rows| && IsActive(rows[i]) ==> Get(rows[i], "assay_name").Str?
  }

  /** `_determine_labels_and_activity`, with the columns each statement reads checked in the
      order the statements run. */
  function LabelsAndActivity(columns: seq<string>, rows: seq<Row>): (r: Result<seq<Row>>)
    ensures r.Success? ==> (|r.value| == |rows| && ActiveHaveNames(rows) &&
              forall i :: 0 <= i < |rows| ==> r.value[i] == rows[i]["activity" := ActivityValue(Classify(rows[i]))])
  {
    if "activity_outcome" !in columns then Failure(MissingColumn("activity_outcome"))
    else if !(exists i :: 0 <= i < |rows| && IsActive(rows[i])) then
      Success(seq(|rows|, i requires 0 <= i < |rows| => rows[i]["activity" := ActivityValue(Classify(rows[i]))]))
    else if "assay_name" !in columns then Failure(MissingColumn("assay_name"))
    else if !ActiveHaveNames(rows) then Failure(NotAString("assay_name"))
    else if "activity_name" !in columns then Failure(MissingColumn("activity_name"))
    else if "activity_direction" !in columns then Failure(MissingColumn("activity_direction"))
    else if "aid" !in columns then Failure(MissingColumn("aid"))
    else Success(seq(|rows|, i requires 0 <= i < |rows| => rows[i]["activity" := ActivityValue(Classify(rows[i]))]))
  }

  /** The columns a transformed partition has: the schema, then each derived column the schema
      lacks, in the order the source assigns them. */
  function OutputColumns(schema: seq<string>): seq<string>
  {
    Extend(Extend(Extend(Extend(schema, "measured_activity"), "target_geneid"), "activity_url"), "activity")
  }

  /** The output keeps every schema column. */
  lemma OutputColumnsCover(schema: seq<string>)
    ensures Names(schema) <= Names(OutputColumns(schema))
  {
  }

  /** Without a `measured_activity` column the output has more columns than the schema. */
  lemma OutputColumnsLonger(schema: seq<string>)
    requires "measured_activity" !in schema
    ensures |OutputColumns(schema)| > |schema|
  {
    var c1 := Extend(schema, "measured_activity");
    assert c1 == schema + ["measured_activity"];
  }

  /** `df['measured_activity'] = ...`: the row-wise mode of the phenotype columns. */
  function WithMode(phenotypeCols: seq<string>, rows: seq<Row>): (r: seq<Row>)
    ensures |r| == |rows|
    ensures forall i :: 0 <= i < |rows| ==> r[i] == rows[i]["measured_activity" := Mode(PhenotypeValues(phenotypeCols, rows[i]))]
  {
    seq(|rows|, i requires 0 <= i < |rows| => rows[i]["measured_activity" := Mode(PhenotypeValues(phenotypeCols, rows[i]))])
  }

  /** `df['target_geneid'] = pd.NA` when the frame has no such column; other cells unchanged. */
  function WithGene(columns: seq<string>, rows: seq<Row>): (r: seq<Row>)
    ensures |r| == |rows|
    ensures forall i, c :: 0 <= i < |rows| && c != "target_geneid" ==> Get(r[i], c) == Get(rows[i], c)
    ensures forall i :: 0 <= i < |rows| ==>
              Get(r[i], "target_geneid") == if "target_geneid" in columns then Get(rows[i], "target_geneid") else Missing
  {
    if "target_geneid" in columns then rows
    else seq(|rows|, i requires 0 <= i < |rows| => rows[i]["target_geneid" := Missing])
  }

  /** `df['activity_url'] = ...`: the URL when `sid` is a column, missing otherwise; other cells unchanged. */
  function WithUrl(columns: seq<string>, rows: seq<Row>): (r: seq<Row>)
    ensures |r| == |rows|
    ensures forall i, c :: 0 <= i < |rows| && c != "activity_url" ==> Get(r[i], c) == Get(rows[i], c)
    ensures forall i :: 0 <= i < |rows| ==>
              Get(r[i], "activity_url") == if "sid" in columns then Str(Url(rows[i])) else Missing
  {
    seq(|rows|, i requires 0 <= i < |rows| => rows[i]["activity_url" := if "sid" in columns then Str(Url(rows[i])) else Missing])
  }

  /** The URL, the sentinel filter and the classifier, on rows whose frame has `columns`. */
  function Finish(columns: seq<string>, rows: seq<Row>): Result<seq<Row>>
  {
    LabelsAndActivity(Extend(columns, "activity_url"), Where(WithUrl(columns, rows), row => !IsSentinel(row)))
  }

  /** Mode, augmentation, propagation and `target_geneid`, on rows that have both ids. */
  function Prepare(index: Index, schema: seq<string>, phenotypeCols: seq<string>, kept: seq<Row>): Result<seq<Row>>
  {
    var columns1 := Extend(schema, "measured_activity");
    var augmented :- AugmentAll(index, WithMode(phenotypeCols, kept));
    var propagated :- PropagateStep(columns1, phenotypeCols, augmented);
    Success(WithGene(columns1, propagated))
  }

  /** The steps after the empty check. */
  function Transform(index: Index, schema: seq<string>, phenotypeCols: seq<string>, kept: seq<Row>): Result<Frame>
  {
    var prepared :- Prepare(index, schema, phenotypeCols, kept);
    var columns2 := Extend(Extend(schema, "measured_activity"), "target_geneid");
    var labelled :- Finish(columns2, prepared);
    Success(Frame(Extend(Extend(columns2, "activity_url"), "activity"), labelled))
  }

  /** `process_partition` on the rows of one partition (already cut to the file's header), for a
      given schema, phenotype column list and reference index. A Failure is the exception the
      `except` clause logs, and the partition then writes nothing. */
  function ProcessPartition(index: Index, schema: seq<string>, phenotypeCols: seq<string>, raw: seq<Row>)
    : Result<Frame>
  {
    if "aid" !in schema then Failure(MissingColumn("aid"))
    else if "cid" !in schema then Failure(MissingColumn("cid"))
    else
      var kept := Where(seq(|raw|, i requires 0 <= i < |raw| => Reindex(schema, raw[i])), HasIds);
      if kept == [] then Success(Frame(schema, []))
      else if FirstAbsent(phenotypeCols, schema).Some? then Failure(MissingColumn(FirstAbsent(phenotypeCols, schema).value))
      else Transform(index, schema, phenotypeCols, kept)
  }

  // ---------------------------------------------------------------------------------------------
  // What every surviving row satisfies.

  /** The ids are present as integers. */
  predicate KeyedRow(row: Row)
  {
    Get(row, "aid").Int? && Get(row, "cid").Int?
  }

  predicate AllKeyed(rows: seq<Row>)
  {
    forall i :: 0 <= i < |rows| ==> KeyedRow(rows[i])
  }

  /** Augmentation from a well-keyed index leaves integer ids. */
  lemma AugmentAllKeyed(index: Index, rows: seq<Row>)
    requires WellKeyed(index) && AugmentAll(index, rows).Success?
    ensures AllKeyed(AugmentAll(index, rows).value)
  {
    var r := AugmentAll(index, rows).value;
    forall i | 0 <= i < |r| ensures KeyedRow(r[i]) {
      AugmentIdempotent(index, rows[i]);
    }
  }

  /** Propagation changes only the `phenotype` cell of each row. */
  lemma PropagateStepKeeps(columns: seq<string>, phenotypeCols: seq<string>, rows: seq<Row>)
    requires PropagateStep(columns, phenotypeCols, rows).Success?
    ensures var r := PropagateStep(columns, phenotypeCols, rows).value;
      |r| == |rows| && forall i, c :: 0 <= i < |rows| && c != "phenotype" ==> Get(r[i], c) == Get(rows[i], c)
  {
    var r := PropagateStep(columns, phenotypeCols, rows).value;
    forall i | 0 <= i < |rows| ensures forall c :: c != "phenotype" ==> Get(r[i], c) == Get(rows[i], c) {
      if r != rows {
        PropagateSpec(rows, i);
      }
    }
  }

  lemma {:induction false} LastMatchSameFiring(rules: seq<Rule>, a: Row, b: Row, base: Label)
    requires forall k :: 0 <= k < |rules| ==> Fires(rules[k], a) == Fires(rules[k], b)
    ensures LastMatch(rules, a, base) == LastMatch(rules, b, base)
  {
    if rules != [] {
      var init := rules[..|rules| - 1];
      forall k | 0 <= k < |init| ensures Fires(init[k], a) == Fires(init[k], b) {
        assert init[k] == rules[k];
      }
      LastMatchSameFiring(init, a, b, base);
    }
  }

  /** The classification does not read the `activity` cell it writes. */
  lemma ClassifyIgnoresActivity(row: Row, v: Value)
    requires IsActive(row) ==> Get(row, "assay_name").Str?
    ensures var written := row["activity" := v];
      (IsActive(written) ==> Get(written, "assay_name").Str?) && Classify(written) == Classify(row)
  {
    var written := row["activity" := v];
    forall k | 0 <= k < |OVERRIDES| ensures Fires(OVERRIDES[k], written) == Fires(OVERRIDES[k], row) {
      assert Get(written, "activity_name") == Get(row, "activity_name");
      assert Get(written, "activity_direction") == Get(row, "activity_direction");
      assert Get(written, "assay_name") == Get(row, "assay_name");
      assert Get(written, "aid") == Get(row, "aid");
    }
    if IsActive(row) {
      LastMatchSameFiring(OVERRIDES, written, row, ActiveLabel(Get(row, "assay_name").s));
    }
  }

  /** What the rows of the last steps satisfy. */
  predicate Written(hasSid: bool, r: Row)
  {
    KeyedRow(r) && !IsSentinel(r) &&
    Get(r, "activity_url") == (if hasSid then Str(Url(r)) else Missing) &&
    (IsActive(r) ==> Get(r, "assay_name").Str?) && Get(r, "activity") == ActivityValue(Classify(r))
  }

  /** The URL step keeps the ids and writes the URL built from them. */
  lemma WithUrlKeyed(columns: seq<string>, rows: seq<Row>)
    requires AllKeyed(rows)
    ensures var withUrl := WithUrl(columns, rows);
      forall i :: 0 <= i < |withUrl| ==>
        KeyedRow(withUrl[i]) && Get(withUrl[i], "activity_url") == (if "sid" in columns then Str(Url(withUrl[i])) else Missing)
  {
    var withUrl := WithUrl(columns, rows);
    forall i | 0 <= i < |withUrl|
      ensures KeyedRow(withUrl[i])
      ensures Get(withUrl[i], "activity_url") == (if "sid" in columns then Str(Url(withUrl[i])) else Missing)
    {
      assert Get(withUrl[i], "aid") == Get(rows[i], "aid");
      assert Get(withUrl[i], "cid") == Get(rows[i], "cid");
      assert Get(withUrl[i], "sid") == Get(rows[i], "sid");
    }
  }

  /** Writing the `activity` cell keeps everything else a written row satisfies. */
  lemma LabelWritten(hasSid: bool, row: Row)
    requires KeyedRow(row) && !IsSentinel(row)
    requires Get(row, "activity_url") == (if hasSid then Str(Url(row)) else Missing)
    requires IsActive(row) ==> Get(row, "assay_name").Str?
    ensures Written(hasSid, row["activity" := ActivityValue(Classify(row))])
  {
    var r := row["activity" := ActivityValue(Classify(row))];
    ClassifyIgnoresActivity(row, ActivityValue(Classify(row)));
    assert Get(r, "aid") == Get(row, "aid");
    assert Get(r, "cid") == Get(row, "cid");
    assert Get(r, "sid") == Get(row, "sid");
    assert Get(r, "activity_url") == Get(row, "activity_url");
  }

  /** The URL, sentinel and classifier steps on rows with integer ids. */
  lemma FinishOutput(columns: seq<string>, rows: seq<Row>)
    requires AllKeyed(rows) && Finish(columns, rows).Success?
    ensures forall r :: r in Finish(columns, rows).value ==> Written("sid" in columns, r)
  {
    var withUrl := WithUrl(columns, rows);
    WithUrlKeyed(columns, rows);
    var filtered := Where(withUrl, row => !IsSentinel(row));
    var labelled := Finish(columns, rows).value;
    forall r | r in labelled ensures Written("sid" in columns, r) {
      var i :| 0 <= i < |filtered| && r == filtered[i]["activity" := ActivityValue(Classify(filtered[i]))];
      assert filtered[i] in withUrl;
      LabelWritten("sid" in columns, filtered[i]);
    }
  }

  lemma PrepareKeyed(index: Index, schema: seq<string>, phenotypeCols: seq<string>, kept: seq<Row>)
    requires WellKeyed(index) && Prepare(index, schema, phenotypeCols, kept).Success?
    ensures AllKeyed(Prepare(index, schema, phenotypeCols, kept).value)
  {
    var columns1 := Extend(schema, "measured_activity");
    var augmented := AugmentAll(index, WithMode(phenotypeCols, kept)).value;
    AugmentAllKeyed(index, WithMode(phenotypeCols, kept));
    var propagated := PropagateStep(columns1, phenotypeCols, augmented).value;
    PropagateStepKeeps(columns1, phenotypeCols, augmented);
    var withGene := WithGene(columns1, propagated);
    forall i | 0 <= i < |withGene| ensures KeyedRow(withGene[i]) {
      assert Get(withGene[i], "aid") == Get(augmented[i], "aid");
      assert Get(withGene[i], "cid") == Get(augmented[i], "cid");
    }
  }

  /** Prepare is its three steps in sequence. */
  lemma PrepareSteps(index: Index, schema: seq<string>, phenotypeCols: seq<string>, kept: seq<Row>,
                     augmented: seq<Row>, propagated: seq<Row>)
    requires AugmentAll(index, WithMode(phenotypeCols, kept)) == Success(augmented)
    requires PropagateStep(Extend(schema, "measured_activity"), phenotypeCols, augmented) == Success(propagated)
    ensures Prepare(index, schema, phenotypeCols, kept) == Success(WithGene(Extend(schema, "measured_activity"), propagated))
  {
  }

  /** The stages of a transform that succeeded. */
  lemma TransformStages(index: Index, schema: seq<string>, phenotypeCols: seq<string>, kept: seq<Row>)
    requires Transform(index, schema, phenotypeCols, kept).Success?
    ensures Prepare(index, schema, phenotypeCols, kept).Success?
    ensures var prepared := Prepare(index, schema, phenotypeCols, kept).value;
      var columns2 := Extend(Extend(schema, "measured_activity"), "target_geneid");
      Finish(columns2, prepared).Success? &&
      Transform(index, schema, phenotypeCols, kept).value == Frame(OutputColumns(schema), Finish(columns2, prepared).value)
  {
  }

  lemma TransformOutput(index: Index, schema: seq<string>, phenotypeCols: seq<string>, kept: seq<Row>)
    requires WellKeyed(index) && Transform(index, schema, phenotypeCols, kept).Success?
    ensures var f := Transform(index, schema, phenotypeCols, kept).value;
      f.columns == OutputColumns(schema) && forall r :: r in f.rows ==> Written("sid" in schema, r)
  {
    TransformStages(index, schema, phenotypeCols, kept);
    var prepared := Prepare(index, schema, phenotypeCols, kept).value;
    var columns2 := Extend(Extend(schema, "measured_activity"), "target_geneid");
    PrepareKeyed(index, schema, phenotypeCols, kept);
    FinishOutput(columns2, prepared);
    ExtendOther(schema, "measured_activity", "sid");
    ExtendOther(Extend(schema, "measured_activity"), "target_geneid", "sid");
  }

  /** Every row a partition writes has integer ids, is not the sentinel, carries the PubChem URL
      built from its own `aid` and `sid` when `sid` is a schema column (and a missing URL
      otherwise), and carries the `activity` the classifier gives it; a non-empty result has the
      schema's columns followed by the derived ones. */
  lemma ProcessPartitionOutput(index: Index, schema: seq<string>, phenotypeCols: seq<string>, raw: seq<Row>)
    requires WellKeyed(index)
    requires ProcessPartition(index, schema, phenotypeCols, raw).Success?
    ensures var f := ProcessPartition(index, schema, phenotypeCols, raw).value;
      (f.rows != [] ==> f.columns == OutputColumns(schema)) && forall r :: r in f.rows ==> Written("sid" in schema, r)
  {
    var kept := Where(seq(|raw|, i requires 0 <= i < |raw| => Reindex(schema, raw[i])), HasIds);
    if kept != [] {
      TransformOutput(index, schema, phenotypeCols, kept);
    }
  }

  // ---------------------------------------------------------------------------------------------
  // The shape of the written rows.

  /** Every row carries exactly the given columns. */
  predicate HasColumns(rows: seq<Row>, names: set<string>)
  {
    forall i :: 0 <= i < |rows| ==> rows[i].Keys == names
  }

  lemma AugmentAllShape(index: Index, rows: seq<Row>, names: set<string>)
    requires ReferenceColumns(index) <= names && HasColumns(rows, names)
    requires AugmentAll(index, rows).Success?
    ensures HasColumns(AugmentAll(index, rows).value, names)
  {
    var r := AugmentAll(index, rows).value;
    forall i | 0 <= i < |rows| ensures r[i].Keys == names {
      AugmentSpec(index, rows[i]);
      var k := KeyOf(rows[i]).value;
      if k in index {
        assert index[k] in index.Values;
        assert forall c :: c in index[k] ==> c in ReferenceColumns(index);
      }
    }
  }

  lemma PropagateStepShape(columns: seq<string>, phenotypeCols: seq<string>, rows: seq<Row>)
    requires HasColumns(rows, Names(columns)) && PropagateStep(columns, phenotypeCols, rows).Success?
    ensures HasColumns(PropagateStep(columns, phenotypeCols, rows).value, Names(columns))
  {
    var r := PropagateStep(columns, phenotypeCols, rows).value;
    if r != rows {
      assert "phenotype" in columns;
      forall i | 0 <= i < |rows| ensures r[i].Keys == Names(columns) {
        assert r[i] == PropagateRow(rows, i);
      }
    }
  }

  /** Rows with both ids, reindexed to the schema, carry exactly the schema's columns. */
  lemma KeptShape(schema: seq<string>, raw: seq<Row>)
    ensures HasColumns(Where(seq(|raw|, i requires 0 <= i < |raw| => Reindex(schema, raw[i])), HasIds), Names(schema))
  {
    var reindexed := seq(|raw|, i requires 0 <= i < |raw| => Reindex(schema, raw[i]));
    var kept := Where(reindexed, HasIds);
    forall i | 0 <= i < |kept| ensures kept[i].Keys == Names(schema) {
      assert kept[i] in reindexed;
    }
  }

  lemma PrepareShape(index: Index, schema: seq<string>, phenotypeCols: seq<string>, kept: seq<Row>)
    requires ReferenceColumns(index) <= Names(schema) && HasColumns(kept, Names(schema))
    requires Prepare(index, schema, phenotypeCols, kept).Success?
    ensures HasColumns(Prepare(index, schema, phenotypeCols, kept).value,
                       Names(Extend(Extend(schema, "measured_activity"), "target_geneid")))
  {
    var columns1 := Extend(schema, "measured_activity");
    var measured := WithMode(phenotypeCols, kept);
    assert HasColumns(measured, Names(columns1));
    AugmentAllShape(index, measured, Names(columns1));
    var augmented := AugmentAll(index, measured).value;
    PropagateStepShape(columns1, phenotypeCols, augmented);
    var propagated := PropagateStep(columns1, phenotypeCols, augmented).value;
    var withGene := WithGene(columns1, propagated);
    assert withGene == Prepare(index, schema, phenotypeCols, kept).value;
    forall i | 0 <= i < |withGene| ensures withGene[i].Keys == Names(Extend(columns1, "target_geneid")) {
      if "target_geneid" !in columns1 {
        assert withGene[i] == propagated[i]["target_geneid" := Missing];
      }
    }
  }

  lemma FinishShape(columns: seq<string>, rows: seq<Row>)
    requires HasColumns(rows, Names(columns)) && Finish(columns, rows).Success?
    ensures HasColumns(Finish(columns, rows).value, Names(Extend(Extend(columns, "activity_url"), "activity")))
  {
    var withUrl := WithUrl(columns, rows);
    assert forall i :: 0 <= i < |withUrl| ==> withUrl[i].Keys == Names(columns) + {"activity_url"};
    var filtered := Where(withUrl, row => !IsSentinel(row));
    forall i | 0 <= i < |filtered| ensures filtered[i].Keys == Names(columns) + {"activity_url"} {
      assert filtered[i] in withUrl;
    }
  }

  lemma TransformShape(index: Index, schema: seq<string>, phenotypeCols: seq<string>, kept: seq<Row>)
    requires ReferenceColumns(index) <= Names(schema) && HasColumns(kept, Names(schema))
    requires Transform(index, schema, phenotypeCols, kept).Success?
    ensures var f := Transform(index, schema, phenotypeCols, kept).value;
      HasColumns(f.rows, Names(f.columns))
  {
    TransformStages(index, schema, phenotypeCols, kept);
    PrepareShape(index, schema, phenotypeCols, kept);
    var prepared := Prepare(index, schema, phenotypeCols, kept).value;
    var columns2 := Extend(Extend(schema, "measured_activity"), "target_geneid");
    FinishShape(columns2, prepared);
  }

  /** When every reference field is a schema column (as the canonical schema guarantees), every
      row a partition writes carries exactly the columns of the partition's frame. */
  lemma ProcessPartitionShape(index: Index, schema: seq<string>, phenotypeCols: seq<string>, raw: seq<Row>)
    requires ReferenceColumns(index) <= Names(schema)
    requires ProcessPartition(index, schema, phenotypeCols, raw).Success?
    ensures var f := ProcessPartition(index, schema, phenotypeCols, raw).value;
      forall r :: r in f.rows ==> r.Keys == Names(f.columns)
  {
    var kept := Where(seq(|raw|, i requires 0 <= i < |raw| => Reindex(schema, raw[i])), HasIds);
    if kept != [] {
      KeptShape(schema, raw);
      TransformShape(index, schema, phenotypeCols, kept);
    }
  }

  // ---------------------------------------------------------------------------------------------
  // The PubChem URL.

  /** In `p + x + m + rest` with no `#` in x and m starting with `#`, the first `#` after p is
      the one after x. */
  lemma HashAfter(p: string, x: string, m: string, rest: string)
    requires '#' !in x && |m| > 0 && m[0] == '#'
    ensures (p + x + m + rest)[|p| + |x|] == '#'
    ensures forall i :: |p| <= i < |p| + |x| ==> (p + x + m + rest)[i] != '#'
  {
    var u := p + x + m + rest;
    assert u[|p| + |x|] == m[0];
    forall i | |p| <= i < |p| + |x| ensures u[i] != '#' {
      assert u[i] == x[i - |p|];
    }
  }

  lemma NoHashBefore(p: string, x: string, y: string, m: string, restX: string, restY: string)
    requires '#' !in x && '#' !in y && |m| > 0 && m[0] == '#'
    requires p + x + m + restX == p + y + m + restY
    ensures x == y
  {
    HashAfter(p, x, m, restX);
    HashAfter(p, y, m, restY);
    var u := p + x + m + restX;
    assert |x| == |y|;
    assert x == u[|p|..|p| + |x|];
    assert y == u[|p|..|p| + |y|];
  }

  /** The URL identifies the assay: two rows with integer `aid`s and the same URL have the same
      `aid`. */
  lemma UrlIdentifiesAssay(a: Row, b: Row)
    requires Get(a, "aid").Int? && Get(b, "aid").Int?
    requires Url(a) == Url(b)
    ensures Get(a, "aid") == Get(b, "aid")
  {
    IntToStringRoundTrip(Get(a, "aid").i);
    IntToStringRoundTrip(Get(b, "aid").i);
    NoHashBefore(BIOASSAY_URL, Render(Get(a, "aid")), Render(Get(b, "aid")), "#sid=",
                 Render(Get(a, "sid")), Render(Get(b, "sid")));
  }

  /** The URL of a row with `aid = 100` and `sid = 55`. */
  lemma UrlExample()
    ensures Url(map["aid" := Int(100), "cid" := Int(200), "sid" := Int(55)]) ==
            "https://pubchem.ncbi.nlm.nih.gov/bioassay/100#sid=55"
  {
    assert NatToString(1) == "1";
    assert NatToString(10) == "10";
    assert NatToString(100) == "100";
    assert NatToString(5) == "5";
    assert NatToString(55) == "55";
    var row := map["aid" := Int(100), "cid" := Int(200), "sid" := Int(55)];
    assert Render(Get(row, "aid")) == "100";
    assert Render(Get(row, "sid")) == "55";
  }
}
