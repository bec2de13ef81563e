/** Column-name normalisation, rows built from CSV lines, and the canonical column set
    (RelationshipDataProcessor._get_filtered_columns). */
module Columns {
  import opened Frames
  import opened Text

  /** `col.replace(' ', '_')`. */
  function ReplaceSpaces(name: string): string
  {
    seq(|name|, i requires 0 <= i < |name| => if name[i] == ' ' then '_' else name[i])
  }

  /** `col.replace(' ', '_').lower()`, the normalisation applied to every header. */
  function NormalizeName(name: string): string
  {
    Lower(ReplaceSpaces(name))
  }

  predicate IsNormalized(name: string)
  {
    forall i :: 0 <= i < |name| ==> name[i] != ' ' && !('A' <= name[i] <= 'Z')
  }

  /** A normalised name has no space and no upper-case letter, keeps its length and every other
      character, and normalising it again changes nothing. */
  lemma NormalizeNameSpec(name: string)
    ensures IsNormalized(NormalizeName(name))
    ensures |NormalizeName(name)| == |name|
    ensures forall i :: 0 <= i < |name| && name[i] != ' ' && !('A' <= name[i] <= 'Z') ==>
              NormalizeName(name)[i] == name[i]
    ensures NormalizeName(NormalizeName(name)) == NormalizeName(name)
  {
  }

  /** `[col.replace(' ', '_').lower() for col in columns]`: every name normalised in place. */
  function NormalizeHeader(header: seq<string>): (r: seq<string>)
    ensures |r| == |header|
    ensures forall i :: 0 <= i < |r| ==> r[i] == NormalizeName(header[i]) && IsNormalized(r[i])
  {
    seq(|header|, i requires 0 <= i < |header| => NormalizeName(header[i]))
  }

  /** Index of the first occurrence of a name in a header. */
  function FirstIndex(header: seq<string>, name: string): (r: nat)
    requires name in header
    ensures r < |header| && header[r] == name
    ensures forall j :: 0 <= j < r ==> header[j] != name
  {
    if header[0] == name then 0 else 1 + FirstIndex(header[1..], name)
  }

  /** The row of one CSV line under a (normalised) header. A repeated column keeps its first
      occurrence (`df.loc[:, ~df.columns.duplicated()]`); a short line reads as missing. */
  function RowOf(header: seq<string>, fields: seq<Value>): Row
  {
    map c | c in header :: var i := FirstIndex(header, c); if i < |fields| then fields[i] else Missing
  }

  lemma RowOfSpec(header: seq<string>, fields: seq<Value>)
    ensures RowOf(header, fields).Keys == set c | c in header
    ensures forall i :: 0 <= i < |header| && (forall j :: 0 <= j < i ==> header[j] != header[i]) ==>
              RowOf(header, fields)[header[i]] == if i < |fields| then fields[i] else Missing
  {
    forall i | 0 <= i < |header| && (forall j :: 0 <= j < i ==> header[j] != header[i])
      ensures FirstIndex(header, header[i]) == i
    {
    }
  }

  /** A CSV file: its raw header and its lines, already cut into partitions. */
  datatype CsvFile = CsvFile(header: seq<string>, partitions: seq<seq<seq<Value>>>)

  /** The rows of one partition under the file's normalised header. */
  function PartitionRows(header: seq<string>, lines: seq<seq<Value>>): (r: seq<Row>)
    ensures |r| == |lines|
    ensures forall i :: 0 <= i < |r| ==> r[i] == RowOf(header, lines[i])
  {
    seq(|lines|, i requires 0 <= i < |lines| => RowOf(header, lines[i]))
  }

  /** Index of the last occurrence of a name in a header. */
  function LastIndex(header: seq<string>, name: string): (r: nat)
    requires name in header
    ensures r < |header| && header[r] == name
    ensures forall j :: r < j < |header| ==> header[j] != name
  {
    if header[|header| - 1] == name then |header| - 1
    else
      assert name in header[..|header| - 1] by {
        var i :| 0 <= i < |header| && header[i] == name;
        assert header[..|header| - 1][i] == name;
      }
      LastIndex(header[..|header| - 1], name)
  }

  /** `row.to_dict()` of a line whose repeated columns were not dropped: a repeated name keeps
      its last cell, as a dictionary built from repeated labels does; a short line reads as
      missing. */
  function RecordOf(header: seq<string>, fields: seq<Value>): Row
  {
    map c | c in header :: var i := LastIndex(header, c); if i < |fields| then fields[i] else Missing
  }

  lemma RecordOfSpec(header: seq<string>, fields: seq<Value>)
    ensures RecordOf(header, fields).Keys == set c | c in header
    ensures forall i :: 0 <= i < |header| && (forall j :: i < j < |header| ==> header[j] != header[i]) ==>
              RecordOf(header, fields)[header[i]] == if i < |fields| then fields[i] else Missing
  {
    forall i | 0 <= i < |header| && (forall j :: i < j < |header| ==> header[j] != header[i])
      ensures LastIndex(header, header[i]) == i
    {
    }
  }

  /** The record's cell under the last occurrence of a name. */
  lemma RecordAt(header: seq<string>, fields: seq<Value>, i: nat)
    requires i < |header| && forall j :: i < j < |header| ==> header[j] != header[i]
    ensures header[i] in RecordOf(header, fields)
    ensures RecordOf(header, fields)[header[i]] == if i < |fields| then fields[i] else Missing
  {
    assert LastIndex(header, header[i]) == i;
  }

  /** A header that carries a name in two columns. */
  predicate Repeated(header: seq<string>, name: string)
  {
    exists i, j :: 0 <= i < j < |header| && header[i] == name && header[j] == name
  }

  /** `dropna(subset=[name])` on a frame whose repeated columns are still there: the line stays
      only when every cell under the name is present. */
  predicate AllPresent(header: seq<string>, fields: seq<Value>, name: string)
  {
    forall i :: 0 <= i < |header| && header[i] == name ==> i < |fields| && fields[i] != Missing
  }

  /** Under a name that occurs once, the drop test on the raw line is the test on the cell the
      row keeps, whichever occurrence the row keeps. */
  lemma PresentWhenUnique(header: seq<string>, fields: seq<Value>, name: string)
    requires name in header && !Repeated(header, name)
    ensures AllPresent(header, fields, name) <==> Get(RowOf(header, fields), name) != Missing
    ensures AllPresent(header, fields, name) <==> Get(RecordOf(header, fields), name) != Missing
  {
    var i := FirstIndex(header, name);
    assert LastIndex(header, name) == i;
  }

  /** `read_columns`: the normalised names of a file's header, or nothing when reading it raises
      (a file whose header cannot be read is given as None). */
  function ReadColumns(header: Option<seq<string>>): set<string>
  {
    match header
    case None => {}
    case Some(h) => set c | c in NormalizeHeader(h)
  }

  /** The union of the columns of every readable file. */
  function HeaderColumns(headers: seq<Option<seq<string>>>): set<string>
  {
    if headers == [] then {} else HeaderColumns(headers[..|headers| - 1]) + ReadColumns(headers[|headers| - 1])
  }

  /** Every key of every reference record (`additional_columns`). */
  function ReferenceColumns<K>(index: map<K, Row>): set<string>
  {
    set v, c | v in index.Values && c in v :: c
  }

  /** A name is in the union exactly when it is the normalised form of a header name of some
      readable file. */
  lemma {:induction false} HeaderColumnsMembers(headers: seq<Option<seq<string>>>, name: string)
    ensures name in HeaderColumns(headers) <==>
      exists f, k :: 0 <= f < |headers| && headers[f].Some? && 0 <= k < |headers[f].value| &&
        name == NormalizeName(headers[f].value[k])
  {
    if headers != [] {
      var init := headers[..|headers| - 1];
      HeaderColumnsMembers(init, name);
      if name in HeaderColumns(headers) {
        if name in HeaderColumns(init) {
          var f, k :| 0 <= f < |init| && init[f].Some? && 0 <= k < |init[f].value| &&
            name == NormalizeName(init[f].value[k]);
          assert headers[f] == init[f];
        } else {
          var last := headers[|headers| - 1];
          var h := NormalizeHeader(last.value);
          var k :| 0 <= k < |h| && h[k] == name;
          assert name == NormalizeName(headers[|headers| - 1].value[k]);
        }
      } else {
        forall f, k | 0 <= f < |headers| && headers[f].Some? && 0 <= k < |headers[f].value|
          ensures name != NormalizeName(headers[f].value[k])
        {
          if f < |init| {
            assert headers[f] == init[f];
          } else {
            assert NormalizeHeader(headers[f].value)[k] in NormalizeHeader(headers[f].value);
          }
        }
      }
    }
  }

  /** Every discovered header name is normalised. */
  lemma HeaderColumnsNormalized(headers: seq<Option<seq<string>>>)
    ensures forall c :: c in HeaderColumns(headers) ==> IsNormalized(c)
  {
    forall c | c in HeaderColumns(headers) ensures IsNormalized(c) {
      HeaderColumnsMembers(headers, c);
      var f, k :| 0 <= f < |headers| && headers[f].Some? && 0 <= k < |headers[f].value| &&
        c == NormalizeName(headers[f].value[k]);
      NormalizeNameSpec(headers[f].value[k]);
    }
  }

  /** The union does not depend on the order in which the files are listed, and an unreadable
      file contributes nothing: running discovery again on the same files gives the same set. */
  lemma HeaderColumnsOrderFree(headers: seq<Option<seq<string>>>, others: seq<Option<seq<string>>>)
    requires forall h :: h in headers && h.Some? ==> h in others
    requires forall h :: h in others && h.Some? ==> h in headers
    ensures HeaderColumns(headers) == HeaderColumns(others)
  {
    forall c ensures c in HeaderColumns(headers) ==> c in HeaderColumns(others) {
      HeaderColumnsMembers(headers, c);
      HeaderColumnsMembers(others, c);
      if c in HeaderColumns(headers) {
        var f, k :| 0 <= f < |headers| && headers[f].Some? && 0 <= k < |headers[f].value| &&
          c == NormalizeName(headers[f].value[k]);
        assert headers[f] in others;
        var g :| 0 <= g < |others| && others[g] == headers[f];
      }
    }
    forall c ensures c in HeaderColumns(others) ==> c in HeaderColumns(headers) {
      HeaderColumnsMembers(headers, c);
      HeaderColumnsMembers(others, c);
      if c in HeaderColumns(others) {
        var f, k :| 0 <= f < |others| && others[f].Some? && 0 <= k < |others[f].value| &&
          c == NormalizeName(others[f].value[k]);
        assert others[f] in headers;
        var g :| 0 <= g < |headers| && headers[g] == others[f];
      }
    }
  }

  /** A list naming the file columns and further normalised names holds only normalised names;
      `activity` is normalised too. */
  lemma NamesNormalized(headers: seq<Option<seq<string>>>, extra: set<string>, names: seq<string>)
    requires forall c :: c in extra ==> IsNormalized(c)
    requires Names(names) == HeaderColumns(headers) + extra
    ensures forall i :: 0 <= i < |names| ==> IsNormalized(names[i])
    ensures IsNormalized("activity")
  {
    HeaderColumnsNormalized(headers);
    forall i | 0 <= i < |names| ensures IsNormalized(names[i]) {
      assert names[i] in Names(names);
    }
  }

  /** `_get_filtered_columns`: the union of the header names of all readable files and of the keys
      of all reference records, as a list without repetitions in an unspecified order. */
  method GetFilteredColumns<K>(index: map<K, Row>, headers: seq<Option<seq<string>>>)
      returns (columns: seq<string>)
    ensures Distinct(columns)
    ensures Names(columns) == HeaderColumns(headers) + ReferenceColumns(index)
  {
    var allColumns: set<string> := {};
    var additionalColumns: set<string> := {};
    var pending := index.Values;
    while pending != {}
      invariant pending <= index.Values
      invariant additionalColumns == set v, c | v in index.Values - pending && c in v :: c
      decreases pending
    {
      var value :| value in pending;
      additionalColumns := additionalColumns + value.Keys;
      pending := pending - {value};
    }
    var results: seq<set<string>> := [];
    for i := 0 to |headers|
      invariant |results| == i
      invariant forall j :: 0 <= j < i ==> results[j] == ReadColumns(headers[j])
    {
      results := results + [ReadColumns(headers[i])];
    }
    for i := 0 to |results|
      invariant allColumns == HeaderColumns(headers[..i])
    {
      assert headers[..i + 1][..i] == headers[..i];
      allColumns := allColumns + results[i];
    }
    assert headers[..|headers|] == headers;
    allColumns := allColumns + additionalColumns;
    // list(all_columns)
    columns := [];
    var rest := allColumns;
    while rest != {}
      invariant rest <= allColumns
      invariant Names(columns) == allColumns - rest
      invariant Distinct(columns)
      decreases rest
    {
      var c :| c in rest;
      assert Names(columns + [c]) == Names(columns) + {c};
      columns := columns + [c];
      rest := rest - {c};
    }
  }

  /** `self._get_filtered_columns() + ['activity']`: the canonical schema. */
  method UniqueColumnNames<K>(index: map<K, Row>, headers: seq<Option<seq<string>>>)
      returns (names: seq<string>)
    ensures |names| > 0 && names[|names| - 1] == "activity"
    ensures Distinct(names[..|names| - 1])
    ensures Names(names[..|names| - 1]) == HeaderColumns(headers) + ReferenceColumns(index)
  {
    var columns := GetFilteredColumns(index, headers);
    names := columns + ["activity"];
    assert names[..|names| - 1] == columns;
  }
}
