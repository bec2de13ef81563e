/** The reference index built from the master reference file (`_load_all_data_connected`) and the
    augmentation of rows from it (`_add_all_data_connected_info`). */
module ReferenceIndex {
  import opened Frames
  import opened Columns
  import Text

  /** `(int(aid), int(cid), activity_outcome)`. */
  datatype Key = Key(aid: int, cid: int, outcome: Value)

  type Index = map<Key, Row>

  /** The row survives `dropna(subset=['aid', 'cid'])`. */
  predicate HasIds(row: Row)
  {
    Get(row, "aid") != Missing && Get(row, "cid") != Missing
  }

  /** `int(cell)`. */
  function AsInt(v: Value, column: string): (r: Result<int>)
    ensures r.Success? <==> v.Int?
    ensures r.Success? ==> v == Int(r.value)
  {
    match v
    case Int(n) => Success(n)
    case _ => Failure(NotAnInteger(column))
  }

  /** The key of a row, evaluated left to right as the tuple display is. */
  function KeyOf(row: Row): (r: Result<Key>)
    ensures r.Success? ==> Get(row, "aid") == Int(r.value.aid) && Get(row, "cid") == Int(r.value.cid)
    ensures r.Success? ==> "activity_outcome" in row && row["activity_outcome"] == r.value.outcome
    ensures r.Success? <==> Get(row, "aid").Int? && Get(row, "cid").Int? && "activity_outcome" in row
  {
    if "aid" !in row then Failure(MissingColumn("aid"))
    else
      var aid :- AsInt(row["aid"], "aid");
      if "cid" !in row then Failure(MissingColumn("cid"))
      else
        var cid :- AsInt(row["cid"], "cid");
        if "activity_outcome" !in row then Failure(MissingColumn("activity_outcome"))
        else Success(Key(aid, cid, row["activity_outcome"]))
  }

  /** Every entry is stored under its own key. */
  predicate WellKeyed(index: Index)
  {
    forall k :: k in index ==> KeyOf(index[k]) == Success(k)
  }

  /** The rows `iterrows` yields for one reference partition, each taken as `row.to_dict()`. The
      reference file's repeated columns are not dropped, so a repeated name keeps its last cell. */
  function ReferenceRows(header: seq<string>, lines: seq<seq<Value>>): (r: seq<Row>)
    ensures |r| == |lines|
    ensures forall i :: 0 <= i < |r| ==> r[i] == RecordOf(header, lines[i])
  {
    seq(|lines|, i requires 0 <= i < |lines| => RecordOf(header, lines[i]))
  }

  /** `dropna(subset=['aid', 'cid'], how='any')` on a raw line: every `aid` and `cid` cell present. */
  predicate Survives(header: seq<string>, fields: seq<Value>)
  {
    AllPresent(header, fields, "aid") && AllPresent(header, fields, "cid")
  }

  /** With one `aid` and one `cid` column, the `dropna` test on the raw line is `HasIds` on the
      row the index stores. */
  lemma SurvivesIffHasIds(header: seq<string>, fields: seq<Value>)
    requires "aid" in header && !Repeated(header, "aid")
    requires "cid" in header && !Repeated(header, "cid")
    ensures Survives(header, fields) <==> HasIds(RecordOf(header, fields))
  {
    PresentWhenUnique(header, fields, "aid");
    PresentWhenUnique(header, fields, "cid");
  }

  /** A key column the reference header repeats: `row[c]` is then a Series, which `int()` cannot
      convert and a dictionary key cannot hold. */
  predicate KeyRepeated(header: seq<string>)
  {
    Repeated(header, "aid") || Repeated(header, "cid") || Repeated(header, "activity_outcome")
  }

  /** What a surviving row raises under a header that repeats a key column, evaluating the key
      tuple left to right: the first repeated key column raises TypeError, unless an earlier
      single id cell is not an integer. */
  function RepeatedKeyFault(header: seq<string>, fields: seq<Value>): (r: Fault)
    ensures r.NotAScalar? || r.NotAnInteger?
  {
    var row := RecordOf(header, fields);
    if Repeated(header, "aid") then NotAScalar("aid")
    else if !Get(row, "aid").Int? then NotAnInteger("aid")
    else if Repeated(header, "cid") then NotAScalar("cid")
    else if !Get(row, "cid").Int? then NotAnInteger("cid")
    else NotAScalar("activity_outcome")
  }

  /** The reference load under a header that repeats a key column: the first line that survives
      `dropna` raises, and a file in which no line survives gives an empty dictionary. */
  function RepeatedKeyLoad(header: seq<string>, lines: seq<seq<Value>>): Result<Index>
  {
    if lines == [] then Success(map[])
    else if Survives(header, lines[0]) then Failure(RepeatedKeyFault(header, lines[0]))
    else RepeatedKeyLoad(header, lines[1..])
  }

  /** The load succeeds, with nothing loaded, exactly when no line survives; otherwise it raises
      what the first surviving line raises. */
  lemma {:induction false} RepeatedKeyLoadSpec(header: seq<string>, lines: seq<seq<Value>>)
    ensures RepeatedKeyLoad(header, lines).Success? <==> forall i :: 0 <= i < |lines| ==> !Survives(header, lines[i])
    ensures RepeatedKeyLoad(header, lines).Success? ==> RepeatedKeyLoad(header, lines).value == map[]
    ensures RepeatedKeyLoad(header, lines).Failure? ==>
      exists i :: 0 <= i < |lines| && Survives(header, lines[i]) &&
        (forall j :: 0 <= j < i ==> !Survives(header, lines[j])) &&
        RepeatedKeyLoad(header, lines).fault == RepeatedKeyFault(header, lines[i])
  {
    if lines != [] && !Survives(header, lines[0]) {
      var rest := lines[1..];
      RepeatedKeyLoadSpec(header, rest);
      forall i | 0 <= i < |rest| ensures rest[i] == lines[i + 1] { }
      if RepeatedKeyLoad(header, rest).Failure? {
        var i :| 0 <= i < |rest| && Survives(header, rest[i]) &&
          (forall j :: 0 <= j < i ==> !Survives(header, rest[j])) &&
          RepeatedKeyLoad(header, rest).fault == RepeatedKeyFault(header, rest[i]);
        assert lines[i + 1] == rest[i];
        forall j | 0 <= j < i + 1 ensures !Survives(header, lines[j]) {
          if j > 0 { assert lines[j] == rest[j - 1]; }
        }
      } else {
        forall i | 0 <= i < |lines| ensures !Survives(header, lines[i]) {
          if i > 0 { assert lines[i] == rest[i - 1]; }
        }
      }
    }
  }

  lemma ExampleNameHeader()
    ensures NormalizeHeader(["Assay Name", "assay_name", "aid", "cid", "activity_outcome"]) ==
            ["assay_name", "assay_name", "aid", "cid", "activity_outcome"]
  {
    assert NormalizeName("Assay Name") == "assay_name" by {
      assert ReplaceSpaces("Assay Name") == "Assay_Name";
      assert Text.LowerChar('A') == 'a' && Text.LowerChar('N') == 'n';
    }
    assert NormalizeName("assay_name") == "assay_name" by { NormalizeNameSpec("assay_name"); }
    assert NormalizeName("aid") == "aid" by { NormalizeNameSpec("aid"); }
    assert NormalizeName("cid") == "cid" by { NormalizeNameSpec("cid"); }
    assert NormalizeName("activity_outcome") == "activity_outcome" by { NormalizeNameSpec("activity_outcome"); }
  }

  lemma ExampleKeyHeader()
    ensures NormalizeHeader(["AID", "aid", "cid", "activity_outcome"]) == ["aid", "aid", "cid", "activity_outcome"]
  {
    assert NormalizeName("AID") == "aid" by {
      assert ReplaceSpaces("AID") == "AID";
      assert Text.LowerChar('A') == 'a' && Text.LowerChar('I') == 'i' && Text.LowerChar('D') == 'd';
    }
    assert NormalizeName("aid") == "aid" by { NormalizeNameSpec("aid"); }
    assert NormalizeName("cid") == "cid" by { NormalizeNameSpec("cid"); }
    assert NormalizeName("activity_outcome") == "activity_outcome" by { NormalizeNameSpec("activity_outcome"); }
  }

  /** The record of a line under `assay_name, assay_name, aid, cid, activity_outcome` keeps the
      second `assay_name` cell. */
  lemma ExampleRecord()
    ensures var r := RecordOf(["assay_name", "assay_name", "aid", "cid", "activity_outcome"],
                              [Str("a"), Str("b"), Int(1), Int(2), Str("Active")]);
      Get(r, "assay_name") == Str("b") && Get(r, "aid") == Int(1) && Get(r, "cid") == Int(2) &&
      Get(r, "activity_outcome") == Str("Active")
  {
    var h := ["assay_name", "assay_name", "aid", "cid", "activity_outcome"];
    var line := [Str("a"), Str("b"), Int(1), Int(2), Str("Active")];
    RecordAt(h, line, 1);
    RecordAt(h, line, 2);
    RecordAt(h, line, 3);
    RecordAt(h, line, 4);
  }

  /** The example header repeats `assay_name` but no key column. */
  lemma ExampleKeysSingle()
    ensures !KeyRepeated(["assay_name", "assay_name", "aid", "cid", "activity_outcome"])
  {
    var h := ["assay_name", "assay_name", "aid", "cid", "activity_outcome"];
    forall i | 0 <= i < |h| && i != 2 ensures h[i] != "aid" { }
    forall i | 0 <= i < |h| && i != 3 ensures h[i] != "cid" { }
    forall i | 0 <= i < |h| && i != 4 ensures h[i] != "activity_outcome" { }
  }

  /** The one partition of the example indexes its one row under its key. */
  lemma ExamplePartition() returns (rec: Row)
    ensures Get(rec, "assay_name") == Str("b")
    ensures IndexPartitions(["assay_name", "assay_name", "aid", "cid", "activity_outcome"],
                            [[[Str("a"), Str("b"), Int(1), Int(2), Str("Active")]]]) ==
            Success([map[Key(1, 2, Str("Active")) := rec]])
  {
    ExampleRecord();
    var h := ["assay_name", "assay_name", "aid", "cid", "activity_outcome"];
    var line := [Str("a"), Str("b"), Int(1), Int(2), Str("Active")];
    rec := RecordOf(h, line);
    assert ReferenceRows(h, [line]) == [rec];
    assert KeyOf(rec) == Success(Key(1, 2, Str("Active")));
    assert IndexRows([rec]) == Success(map[Key(1, 2, Str("Active")) := rec]) by {
      assert [rec][..0] == [];
    }
    var parts := [[line]];
    assert parts[..0] == [] && parts[|parts| - 1] == [line];
    assert IndexPartitions(h, parts[..0]) == Success([]);
    var m := map[Key(1, 2, Str("Active")) := rec];
    assert IndexRows(ReferenceRows(h, parts[|parts| - 1])) == Success(m);
    assert [] + [m] == [m];
  }

  /** `Assay Name` and `assay_name` both normalise to `assay_name`, whose last cell the loaded
      record keeps. */
  lemma RepeatedNameKeepsLast()
    ensures var r := AllDataConnected(CsvFile(["Assay Name", "assay_name", "aid", "cid", "activity_outcome"],
                                              [[[Str("a"), Str("b"), Int(1), Int(2), Str("Active")]]]));
      r.Success? && r.value.Keys == {Key(1, 2, Str("Active"))} &&
      Get(r.value[Key(1, 2, Str("Active"))], "assay_name") == Str("b")
  {
    ExampleNameHeader();
    ExampleKeysSingle();
    var rec := ExamplePartition();
    var h := ["assay_name", "assay_name", "aid", "cid", "activity_outcome"];
    assert h[2] == "aid" && h[3] == "cid";
    var m := map[Key(1, 2, Str("Active")) := rec];
    assert MergeIndexes([m]) == m by { assert [m][..0] == []; }
  }

  /** `AID` and `aid` both normalise to `aid`, so `int(row['aid'])` raises on the first row. */
  lemma RepeatedKeyRaises()
    ensures AllDataConnected(CsvFile(["AID", "aid", "cid", "activity_outcome"],
                                     [[[Int(1), Int(1), Int(2), Str("Active")]]])) == Failure(NotAScalar("aid"))
  {
    ExampleKeyHeader();
    var h := ["aid", "aid", "cid", "activity_outcome"];
    assert Repeated(h, "aid") by { assert h[0] == "aid" && h[1] == "aid"; }
    var line := [Int(1), Int(1), Int(2), Str("Active")];
    assert FileLines([[line]]) == [line] by { assert [[line]][..0] == []; }
    assert Survives(h, line);
  }

  /** All lines of a file, in order. */
  function FileLines(parts: seq<seq<seq<Value>>>): seq<seq<Value>>
  {
    if parts == [] then [] else FileLines(parts[..|parts| - 1]) + parts[|parts| - 1]
  }

  /** The dictionary one reference partition produces: each row with both ids, under its key; a
      later row replaces an earlier one with the same key. */
  function IndexRows(rows: seq<Row>): Result<Index>
    decreases |rows|
  {
    if rows == [] then Success(map[])
    else
      var acc :- IndexRows(rows[..|rows| - 1]);
      var row := rows[|rows| - 1];
      if !HasIds(row) then Success(acc)
      else
        var k :- KeyOf(row);
        Success(acc[k := row])
  }

  /** `all_data_connected.update(result)` over the partition results, in order. */
  function MergeIndexes(maps: seq<Index>): Index
  {
    if maps == [] then map[] else MergeIndexes(maps[..|maps| - 1]) + maps[|maps| - 1]
  }

  /** The partition results; the first partition that raises makes `dask.compute` raise. */
  function IndexPartitions(header: seq<string>, parts: seq<seq<seq<Value>>>): Result<seq<Index>>
  {
    if parts == [] then Success([])
    else
      var init :- IndexPartitions(header, parts[..|parts| - 1]);
      var last :- IndexRows(ReferenceRows(header, parts[|parts| - 1]));
      Success(init + [last])
  }

  /** The index of the reference file. A file without an `aid` or `cid` column makes `dropna` raise;
      a file repeating a key column raises at its first surviving line. */
  function AllDataConnected(file: CsvFile): Result<Index>
  {
    var header := NormalizeHeader(file.header);
    if "aid" !in header then Failure(MissingColumn("aid"))
    else if "cid" !in header then Failure(MissingColumn("cid"))
    else if KeyRepeated(header) then RepeatedKeyLoad(header, FileLines(file.partitions))
    else
      var maps :- IndexPartitions(header, file.partitions);
      Success(MergeIndexes(maps))
  }

  // ---------------------------------------------------------------------------------------------
  // The imperative build.

  /** The nested `process_partition`: fills `result` row by row. */
  method ProcessReferencePartition(rows: seq<Row>) returns (r: Result<Index>)
    ensures r == IndexRows(rows)
  {
    var result: Index := map[];
    for i := 0 to |rows|
      invariant IndexRows(rows[..i]) == Success(result)
    {
      assert rows[..i + 1][..i] == rows[..i];
      var row := rows[i];
      if HasIds(row) {
        var key := KeyOf(row);
        if key.Failure? {
          IndexRowsPrefixFailure(rows, i + 1);
          assert rows[..i + 1] == rows[..|rows|][..i + 1];
          return Failure(key.fault);
        }
        result := result[key.value := row];
      }
    }
    assert rows[..|rows|] == rows;
    return Success(result);
  }

  /** A failing prefix makes the whole partition fail with the same fault. */
  lemma {:induction false} IndexRowsPrefixFailure(rows: seq<Row>, n: nat)
    requires n <= |rows| && IndexRows(rows[..n]).Failure?
    decreases |rows| - n
    ensures IndexRows(rows) == IndexRows(rows[..n])
  {
    if n < |rows| {
      assert rows[..n + 1][..n] == rows[..n];
      IndexRowsPrefixFailure(rows, n + 1);
    } else {
      assert rows[..n] == rows;
    }
  }

  lemma {:induction false} IndexPartitionsPrefixFailure(header: seq<string>, parts: seq<seq<seq<Value>>>, n: nat)
    requires n <= |parts| && IndexPartitions(header, parts[..n]).Failure?
    decreases |parts| - n
    ensures IndexPartitions(header, parts) == IndexPartitions(header, parts[..n])
  {
    if n < |parts| {
      assert parts[..n + 1][..n] == parts[..n];
      IndexPartitionsPrefixFailure(header, parts, n + 1);
    } else {
      assert parts[..n] == parts;
    }
  }

  /** One more partition: its dictionary is appended, or its failure ends the computation. */
  lemma IndexPartitionsNext(header: seq<string>, parts: seq<seq<seq<Value>>>, p: nat, results: seq<Index>)
    requires p < |parts| && IndexPartitions(header, parts[..p]) == Success(results)
    ensures IndexPartitions(header, parts[..p + 1]) ==
      match IndexRows(ReferenceRows(header, parts[p]))
      case Failure(e) => Failure(e)
      case Success(m) => Success(results + [m])
  {
    assert parts[..p + 1][..p] == parts[..p];
  }

  /** `dask.compute` over the partitions: every partition's dictionary, in order. */
  method ComputePartitions(header: seq<string>, parts: seq<seq<seq<Value>>>) returns (r: Result<seq<Index>>)
    ensures r == IndexPartitions(header, parts)
  {
    var results: seq<Index> := [];
    for p := 0 to |parts|
      invariant IndexPartitions(header, parts[..p]) == Success(results)
    {
      IndexPartitionsNext(header, parts, p, results);
      var result := ProcessReferencePartition(ReferenceRows(header, parts[p]));
      if result.Failure? {
        IndexPartitionsPrefixFailure(header, parts, p + 1);
        return Failure(result.fault);
      }
      results := results + [result.value];
    }
    assert parts[..|parts|] == parts;
    return Success(results);
  }

  /** The `all_data_connected.update(result)` loop. */
  method MergeResults(results: seq<Index>) returns (allDataConnected: Index)
    ensures allDataConnected == MergeIndexes(results)
  {
    allDataConnected := map[];
    for i := 0 to |results|
      invariant allDataConnected == MergeIndexes(results[..i])
    {
      assert results[..i + 1][..i] == results[..i];
      allDataConnected := allDataConnected + results[i];
    }
    assert results[..|results|] == results;
  }

  /** `_load_all_data_connected`: compute every partition's dictionary, then merge them in order.
      Under a header that repeats a key column the first surviving row raises, which is stated
      directly by `RepeatedKeyLoad`. */
  method LoadAllDataConnected(file: CsvFile) returns (r: Result<Index>)
    ensures r == AllDataConnected(file)
  {
    var header := NormalizeHeader(file.header);
    if "aid" !in header { return Failure(MissingColumn("aid")); }
    if "cid" !in header { return Failure(MissingColumn("cid")); }
    if KeyRepeated(header) { return RepeatedKeyLoad(header, FileLines(file.partitions)); }
    var results := ComputePartitions(header, file.partitions);
    if results.Failure? {
      return Failure(results.fault);
    }
    var allDataConnected := MergeResults(results.value);
    return Success(allDataConnected);
  }

  // ---------------------------------------------------------------------------------------------
  // Properties of the index.

  /** No row after index j has both ids and the key k. */
  predicate NoLaterRowWithKey(rows: seq<Row>, k: Key, j: int)
  {
    forall j' :: 0 <= j' < |rows| && j < j' && HasIds(rows[j']) ==> KeyOf(rows[j']) != Success(k)
  }

  /** v is a row of the partition, and no later row carries the key k. */
  predicate LastRowWithKey(rows: seq<Row>, k: Key, v: Row)
  {
    exists j :: 0 <= j < |rows| && rows[j] == v && NoLaterRowWithKey(rows, k, j)
  }

  /** Within a partition: every entry comes from a row with both ids stored under that row's key,
      and it is the LAST such row; conversely every key of a row with both ids is an entry. */
  lemma {:induction false} IndexRowsEntries(rows: seq<Row>)
    requires IndexRows(rows).Success?
    decreases |rows|
    ensures var m := IndexRows(rows).value;
      (forall k :: k in m ==> KeyOf(m[k]) == Success(k) && HasIds(m[k])) &&
      (forall k :: k in m ==> LastRowWithKey(rows, k, m[k])) &&
      (forall j :: 0 <= j < |rows| && HasIds(rows[j]) ==> KeyOf(rows[j]).Success? && KeyOf(rows[j]).value in m)
  {
    if rows != [] {
      var init := rows[..|rows| - 1];
      var row := rows[|rows| - 1];
      IndexRowsEntries(init);
      var acc := IndexRows(init).value;
      var m := IndexRows(rows).value;
      forall k | k in m ensures LastRowWithKey(rows, k, m[k]) {
        if HasIds(row) && KeyOf(row) == Success(k) {
          assert rows[|rows| - 1] == m[k];
        } else {
          var j :| 0 <= j < |init| && init[j] == acc[k] && NoLaterRowWithKey(init, k, j);
          assert rows[j] == m[k];
          assert NoLaterRowWithKey(rows, k, j);
        }
      }
      forall j | 0 <= j < |rows| && HasIds(rows[j])
        ensures KeyOf(rows[j]).Success? && KeyOf(rows[j]).value in m
      {
        if j < |init| { assert rows[j] == init[j]; }
      }
    }
  }

  /** Merging: a key is in the merged index exactly when some partition has it, and its value is
      the one from the last partition that has it. */
  lemma {:induction false} MergeIndexesLastWins(maps: seq<Index>, k: Key)
    ensures k in MergeIndexes(maps) <==> exists p :: 0 <= p < |maps| && k in maps[p]
    ensures forall p :: 0 <= p < |maps| && k in maps[p] && (forall q :: p < q < |maps| ==> k !in maps[q]) ==>
              MergeIndexes(maps)[k] == maps[p][k]
  {
    if maps != [] {
      var init := maps[..|maps| - 1];
      MergeIndexesLastWins(init, k);
      forall p | 0 <= p < |init| ensures init[p] == maps[p] { }
    }
  }

  lemma {:induction false} MergeIndexesAppend(xs: seq<Index>, ys: seq<Index>)
    decreases |ys|
    ensures MergeIndexes(xs + ys) == MergeIndexes(xs) + MergeIndexes(ys)
  {
    if ys == [] {
      assert xs + ys == xs;
    } else {
      var init := ys[..|ys| - 1];
      var last := ys[|ys| - 1];
      MergeIndexesAppend(xs, init);
      assert (xs + ys)[..|xs + ys| - 1] == xs + init;
      assert (xs + ys)[|xs + ys| - 1] == last;
      MapUnionAssociative(MergeIndexes(xs), MergeIndexes(init), last);
    }
  }

  lemma MapUnionAssociative(a: Index, b: Index, c: Index)
    ensures (a + b) + c == a + (b + c)
  {
    var l := (a + b) + c;
    var r := a + (b + c);
    assert l.Keys == r.Keys;
    forall k | k in l ensures l[k] == r[k] { }
  }

  lemma DisjointUnionCommutes(a: Index, b: Index)
    requires a.Keys !! b.Keys
    ensures a + b == b + a
  {
  }

  /** Two adjacent partitions with disjoint keys may be merged in either order. */
  lemma MergeIndexesSwap(pre: seq<Index>, a: Index, b: Index, post: seq<Index>)
    requires a.Keys !! b.Keys
    ensures MergeIndexes(pre + [a, b] + post) == MergeIndexes(pre + [b, a] + post)
  {
    assert pre + [a, b] + post == pre + ([a, b] + post);
    assert pre + [b, a] + post == pre + ([b, a] + post);
    MergeIndexesAppend(pre, [a, b] + post);
    MergeIndexesAppend(pre, [b, a] + post);
    MergeIndexesAppend([a, b], post);
    MergeIndexesAppend([b, a], post);
    MergeIndexesPairSwap(a, b);
  }

  lemma MergeIndexesPairSwap(a: Index, b: Index)
    requires a.Keys !! b.Keys
    ensures MergeIndexes([a, b]) == MergeIndexes([b, a])
  {
    var none: Index := map[];
    assert [a, b][..1] == [a] && [a][..0] == [];
    assert [b, a][..1] == [b] && [b][..0] == [];
    assert MergeIndexes([a]) == none + a;
    assert MergeIndexes([b]) == none + b;
    assert MergeIndexes([a, b]) == MergeIndexes([a]) + b;
    assert MergeIndexes([b, a]) == MergeIndexes([b]) + a;
    MapUnionAssociative(none, a, b);
    MapUnionAssociative(none, b, a);
    DisjointUnionCommutes(a, b);
  }

  /** One partition's dictionary over two consecutive runs of rows is the second run's merged over
      the first's; the first fault in row order wins. */
  lemma {:induction false} IndexRowsAppend(xs: seq<Row>, ys: seq<Row>)
    decreases |ys|
    ensures IndexRows(xs + ys) ==
      match IndexRows(xs)
      case Failure(f) => Failure(f)
      case Success(m1) =>
        match IndexRows(ys)
        case Failure(f) => Failure(f)
        case Success(m2) => Success(m1 + m2)
  {
    if ys == [] {
      assert xs + ys == xs;
      if IndexRows(xs).Success? {
        assert IndexRows(xs).value + map[] == IndexRows(xs).value;
      }
    } else {
      var init := ys[..|ys| - 1];
      var row := ys[|ys| - 1];
      IndexRowsAppend(xs, init);
      assert (xs + ys)[..|xs + ys| - 1] == xs + init;
      assert (xs + ys)[|xs + ys| - 1] == row;
      if IndexRows(xs).Success? && IndexRows(init).Success? && HasIds(row) && KeyOf(row).Success? {
        var m1, m2, k := IndexRows(xs).value, IndexRows(init).value, KeyOf(row).value;
        assert (m1 + m2)[k := row] == m1 + m2[k := row];
      }
    }
  }

  /** All rows of a file, in order. */
  function FileRows(header: seq<string>, parts: seq<seq<seq<Value>>>): seq<Row>
  {
    if parts == [] then [] else FileRows(header, parts[..|parts| - 1]) + ReferenceRows(header, parts[|parts| - 1])
  }

  /** The merged index does not depend on where the file is cut into partitions: it is the
      dictionary of all rows in file order, so a duplicated key keeps its last row in file order. */
  lemma {:induction false} IndexIgnoresPartitioning(header: seq<string>, parts: seq<seq<seq<Value>>>)
    ensures match IndexPartitions(header, parts)
            case Failure(f) => IndexRows(FileRows(header, parts)) == Failure(f)
            case Success(maps) => IndexRows(FileRows(header, parts)) == Success(MergeIndexes(maps))
  {
    if parts != [] {
      var init := parts[..|parts| - 1];
      IndexIgnoresPartitioning(header, init);
      IndexRowsAppend(FileRows(header, init), ReferenceRows(header, parts[|parts| - 1]));
      match IndexPartitions(header, init)
      case Failure(f) => { }
      case Success(maps) => {
        match IndexRows(ReferenceRows(header, parts[|parts| - 1]))
        case Failure(f) => { }
        case Success(last) => {
          assert (maps + [last])[..|maps + [last]| - 1] == maps;
        }
      }
    }
  }

  /** Every partition result is well keyed. */
  lemma {:induction false} IndexPartitionsWellKeyed(header: seq<string>, parts: seq<seq<seq<Value>>>)
    requires IndexPartitions(header, parts).Success?
    ensures forall p :: 0 <= p < |IndexPartitions(header, parts).value| ==>
              WellKeyed(IndexPartitions(header, parts).value[p])
    ensures |IndexPartitions(header, parts).value| == |parts|
  {
    if parts != [] {
      var init := parts[..|parts| - 1];
      IndexPartitionsWellKeyed(header, init);
      IndexRowsEntries(ReferenceRows(header, parts[|parts| - 1]));
    }
  }

  lemma {:induction false} MergeIndexesWellKeyed(maps: seq<Index>)
    requires forall p :: 0 <= p < |maps| ==> WellKeyed(maps[p])
    ensures WellKeyed(MergeIndexes(maps))
  {
    if maps != [] {
      MergeIndexesWellKeyed(maps[..|maps| - 1]);
    }
  }

  /** The reference index keeps no row missing `aid` or `cid`, stores every record under its own
      `(int aid, int cid, activity_outcome)` key, and holds every key of every partition, with the
      value of the last partition that has it. */
  lemma AllDataConnectedSpec(file: CsvFile)
    requires AllDataConnected(file).Success?
    ensures var index := AllDataConnected(file).value;
      WellKeyed(index) && (forall k :: k in index ==> HasIds(index[k]))
    ensures KeyRepeated(NormalizeHeader(file.header)) ==> AllDataConnected(file).value == map[]
    ensures !KeyRepeated(NormalizeHeader(file.header)) ==>
      var index := AllDataConnected(file).value;
      var maps := IndexPartitions(NormalizeHeader(file.header), file.partitions).value;
      (forall p, k :: 0 <= p < |maps| && k in maps[p] ==> k in index) &&
      (forall p, k :: 0 <= p < |maps| && k in maps[p] && (forall q :: p < q < |maps| ==> k !in maps[q]) ==>
         index[k] == maps[p][k])
  {
    var header := NormalizeHeader(file.header);
    if KeyRepeated(header) {
      RepeatedKeyLoadSpec(header, FileLines(file.partitions));
    } else {
      var maps := IndexPartitions(header, file.partitions).value;
      var index := AllDataConnected(file).value;
      IndexPartitionsWellKeyed(header, file.partitions);
      MergeIndexesWellKeyed(maps);
      forall k | k in index ensures HasIds(index[k]) {
        assert KeyOf(index[k]).Success?;
      }
      forall p, k | 0 <= p < |maps| && k in maps[p] ensures k in index {
        MergeIndexesLastWins(maps, k);
      }
      forall p, k | 0 <= p < |maps| && k in maps[p] && (forall q :: p < q < |maps| ==> k !in maps[q])
        ensures index[k] == maps[p][k]
      {
        MergeIndexesLastWins(maps, k);
      }
    }
  }

  /** Every column of every entry is a normalised name. */
  predicate NormalizedEntries(index: Index)
  {
    forall k, c :: k in index && c in index[k] ==> IsNormalized(c)
  }

  /** Rows read under a normalised header carry only normalised names. */
  lemma ReferenceRowsNormalized(header: seq<string>, lines: seq<seq<Value>>)
    requires forall i :: 0 <= i < |header| ==> IsNormalized(header[i])
    ensures forall j, c :: 0 <= j < |lines| && c in ReferenceRows(header, lines)[j] ==> IsNormalized(c)
  {
    forall j | 0 <= j < |lines| ensures forall c :: c in ReferenceRows(header, lines)[j] ==> IsNormalized(c) {
      RecordOfSpec(header, lines[j]);
    }
  }

  /** A partition index holds rows of the partition, so it keeps their names. */
  lemma IndexRowsNormalized(rows: seq<Row>)
    requires IndexRows(rows).Success?
    requires forall j, c :: 0 <= j < |rows| && c in rows[j] ==> IsNormalized(c)
    ensures NormalizedEntries(IndexRows(rows).value)
  {
    var m := IndexRows(rows).value;
    IndexRowsEntries(rows);
    forall k, c | k in m && c in m[k] ensures IsNormalized(c) {
      var j :| 0 <= j < |rows| && rows[j] == m[k] && NoLaterRowWithKey(rows, k, j);
    }
  }

  lemma {:induction false} IndexPartitionsNormalized(header: seq<string>, parts: seq<seq<seq<Value>>>)
    requires forall i :: 0 <= i < |header| ==> IsNormalized(header[i])
    requires IndexPartitions(header, parts).Success?
    ensures var maps := IndexPartitions(header, parts).value;
      forall p :: 0 <= p < |maps| ==> NormalizedEntries(maps[p])
  {
    if parts != [] {
      IndexPartitionsNormalized(header, parts[..|parts| - 1]);
      ReferenceRowsNormalized(header, parts[|parts| - 1]);
      IndexRowsNormalized(ReferenceRows(header, parts[|parts| - 1]));
    }
  }

  lemma {:induction false} MergeIndexesNormalized(maps: seq<Index>)
    requires forall p :: 0 <= p < |maps| ==> NormalizedEntries(maps[p])
    ensures NormalizedEntries(MergeIndexes(maps))
  {
    if maps != [] {
      MergeIndexesNormalized(maps[..|maps| - 1]);
    }
  }

  /** Every key of every reference record (`additional_columns`) is a normalised name: the
      reference header is normalised before the rows are read. */
  lemma ReferenceColumnsNormalized(file: CsvFile)
    requires AllDataConnected(file).Success?
    ensures forall c :: c in ReferenceColumns(AllDataConnected(file).value) ==> IsNormalized(c)
  {
    var header := NormalizeHeader(file.header);
    var index := AllDataConnected(file).value;
    if KeyRepeated(header) {
      RepeatedKeyLoadSpec(header, FileLines(file.partitions));
    } else {
      IndexPartitionsNormalized(header, file.partitions);
      MergeIndexesNormalized(IndexPartitions(header, file.partitions).value);
    }
    forall c | c in ReferenceColumns(index) ensures IsNormalized(c) {
      var v :| v in index.Values && c in v;
      var k :| k in index && index[k] == v;
    }
  }

  /** The schema built from the file headers and the loaded reference index names only
      normalised columns (before the appended `activity`, itself normalised). */
  lemma SchemaNormalized(file: CsvFile, headers: seq<Option<seq<string>>>, names: seq<string>)
    requires AllDataConnected(file).Success?
    requires Names(names) == HeaderColumns(headers) + ReferenceColumns(AllDataConnected(file).value)
    ensures forall i :: 0 <= i < |names| ==> IsNormalized(names[i])
    ensures IsNormalized("activity")
  {
    ReferenceColumnsNormalized(file);
    NamesNormalized(headers, ReferenceColumns(AllDataConnected(file).value), names);
  }

  // ---------------------------------------------------------------------------------------------
  // Augmentation.

  /** `_add_all_data_connected_info`: on a hit every field of the reference record is written over
      the row; on a miss the row is returned as it is. */
  function Augment(index: Index, row: Row): Result<Row>
  {
    var k :- KeyOf(row);
    Success(if k in index then row + index[k] else row)
  }

  /** On a hit the row takes the reference record's value on every reference field and keeps its
      own value on every other field; on a miss it is unchanged. */
  lemma AugmentSpec(index: Index, row: Row)
    requires KeyOf(row).Success?
    ensures Augment(index, row).Success?
    ensures var k := KeyOf(row).value; var r := Augment(index, row).value;
      (k in index ==> r.Keys == row.Keys + index[k].Keys &&
                      (forall c :: c in index[k] ==> r[c] == index[k][c]) &&
                      (forall c :: c in row && c !in index[k] ==> r[c] == row[c])) &&
      (k !in index ==> r == row)
  {
  }

  /** Augmentation from a well-keyed index keeps the key fields, so augmenting twice is the same
      as augmenting once. */
  lemma AugmentIdempotent(index: Index, row: Row)
    requires WellKeyed(index) && Augment(index, row).Success?
    ensures KeyOf(Augment(index, row).value) == KeyOf(row)
    ensures Augment(index, Augment(index, row).value) == Augment(index, row)
  {
    var k := KeyOf(row).value;
    var r := Augment(index, row).value;
    if k in index {
      var ref := index[k];
      assert KeyOf(ref) == Success(k);
      assert Get(r, "aid") == Get(ref, "aid");
      assert Get(r, "cid") == Get(ref, "cid");
      assert r["activity_outcome"] == ref["activity_outcome"];
      assert KeyOf(r) == Success(k);
      assert r + ref == r;
    }
  }

  /** The loop of `_add_all_data_connected_info`, writing `row[col] = val` field by field. */
  method AddAllDataConnectedInfo(index: Index, row: Row) returns (r: Result<Row>)
    ensures r == Augment(index, row)
  {
    var key := KeyOf(row);
    if key.Failure? { return Failure(key.fault); }
    if key.value !in index {
      return Success(row);
    }
    var additionalInfo := index[key.value];
    var updated := row;
    var pending := additionalInfo.Keys;
    while pending != {}
      invariant pending <= additionalInfo.Keys
      invariant updated == row + map c | c in additionalInfo.Keys - pending :: additionalInfo[c]
      decreases pending
    {
      var col :| col in pending;
      updated := updated[col := additionalInfo[col]];
      pending := pending - {col};
    }
    assert additionalInfo == map c | c in additionalInfo.Keys - pending :: additionalInfo[c];
    return Success(updated);
  }
}
