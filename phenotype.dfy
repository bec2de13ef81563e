/** The row-wise phenotype mode (`measured_activity`, `most_frequent`) and the group-wise
    propagation of `phenotype` (`propagate_phenotype`). */
module Phenotype {
  import opened Frames
  import opened Text

  /** The order pandas sorts a mode list in: integers numerically, strings by code point.
      Integers are placed before strings and missing last, so that the order is total. */
  predicate ValueLe(a: Value, b: Value)
  {
    match (a, b)
    case (Int(x), Int(y)) => x <= y
    case (Int(_), _) => true
    case (Str(x), Str(y)) => StrLe(x, y)
    case (Str(_), Int(_)) => false
    case (Str(_), Missing) => true
    case (Missing, Missing) => true
    case (Missing, _) => false
  }

  lemma ValueLeReflexive(a: Value)
    ensures ValueLe(a, a)
  {
    if a.Str? { StrLeReflexive(a.s); }
  }

  lemma ValueLeTotal(a: Value, b: Value)
    ensures ValueLe(a, b) || ValueLe(b, a)
  {
    if a.Str? && b.Str? { StrLeTotal(a.s, b.s); }
  }

  lemma ValueLeTransitive(a: Value, b: Value, c: Value)
    requires ValueLe(a, b) && ValueLe(b, c)
    ensures ValueLe(a, c)
  {
    if a.Str? && b.Str? && c.Str? { StrLeTransitive(a.s, b.s, c.s); }
  }

  lemma ValueLeAntisymmetric(a: Value, b: Value)
    requires ValueLe(a, b) && ValueLe(b, a)
    ensures a == b
  {
    if a.Str? && b.Str? { StrLeAntisymmetric(a.s, b.s); }
  }

  function Count(vs: seq<Value>, v: Value): nat
  {
    multiset(vs)[v]
  }

  /** a is at least as good a mode candidate as b: more frequent, or as frequent and not later
      in the sort order. */
  predicate Beats(vs: seq<Value>, a: Value, b: Value)
  {
    Count(vs, a) > Count(vs, b) || (Count(vs, a) == Count(vs, b) && ValueLe(a, b))
  }

  /** r is the first entry of the sorted mode list of vs. */
  predicate IsFirstMode(vs: seq<Value>, r: Value)
  {
    r in vs && r != Missing && forall v :: v in vs && v != Missing ==> Beats(vs, r, v)
  }

  function NonMissing(vs: seq<Value>): (r: seq<Value>)
    ensures forall v :: v in r <==> v in vs && v != Missing
  {
    if vs == [] then []
    else if vs[0] == Missing then NonMissing(vs[1..])
    else [vs[0]] + NonMissing(vs[1..])
  }

  /** The best candidate of a non-empty list. */
  function Best(vs: seq<Value>, candidates: seq<Value>): (r: Value)
    requires |candidates| > 0
    ensures r in candidates
    ensures forall c :: c in candidates ==> Beats(vs, r, c)
  {
    if |candidates| == 1 then
      ValueLeReflexive(candidates[0]);
      candidates[0]
    else
      var rest := Best(vs, candidates[1..]);
      if Beats(vs, candidates[0], rest) then
        ValueLeReflexive(candidates[0]);
        assert forall c :: c in candidates[1..] ==> Beats(vs, candidates[0], c) by {
          forall c | c in candidates[1..] ensures Beats(vs, candidates[0], c) {
            if Count(vs, candidates[0]) == Count(vs, rest) && Count(vs, rest) == Count(vs, c) {
              ValueLeTransitive(candidates[0], rest, c);
            }
          }
        }
        candidates[0]
      else
        assert Beats(vs, rest, candidates[0]) by { ValueLeTotal(rest, candidates[0]); }
        rest
  }

  /** `row.mode()[0] if not row.mode().empty else None`: the most frequent non-missing value,
      the first in sort order among equally frequent ones; missing only when every value is. */
  function Mode(vs: seq<Value>): (r: Value)
    ensures r == Missing <==> forall i :: 0 <= i < |vs| ==> vs[i] == Missing
    ensures r != Missing ==> IsFirstMode(vs, r)
  {
    var present := NonMissing(vs);
    if present == [] then
      assert forall i :: 0 <= i < |vs| ==> vs[i] == Missing by {
        forall i | 0 <= i < |vs| ensures vs[i] == Missing {
          assert vs[i] in vs;
        }
      }
      Missing
    else
      assert present[0] in present;
      Best(vs, present)
  }

  /** The mode is determined: no other value is a first mode. */
  lemma ModeUnique(vs: seq<Value>, r: Value)
    requires IsFirstMode(vs, r)
    ensures Mode(vs) == r
  {
    var m := Mode(vs);
    assert m != Missing;
    assert Beats(vs, m, r) && Beats(vs, r, m);
    ValueLeAntisymmetric(m, r);
  }

  function StrValues(vs: seq<Value>): (r: seq<Value>)
    ensures forall v :: v in r <==> v in vs && v.Str?
    ensures forall v: Value :: v.Str? ==> Count(r, v) == Count(vs, v)
    ensures forall v: Value :: !v.Str? ==> Count(r, v) == 0
  {
    if vs == [] then []
    else
      assert vs == [vs[0]] + vs[1..];
      if vs[0].Str? then [vs[0]] + StrValues(vs[1..]) else StrValues(vs[1..])
  }

  /** `most_frequent`: the first mode of the row's string values, ignoring missing and non-string
      cells; None when the row has no string value. */
  function MostFrequent(row: seq<Value>): (r: Value)
    ensures r == Missing || r.Str?
    ensures r == Missing <==> forall i :: 0 <= i < |row| ==> !row[i].Str?
    ensures r != Missing ==> r in row && forall v :: v in row && v.Str? ==> Beats(row, r, v)
  {
    var strings := StrValues(row);
    var r := Mode(strings);
    assert r == Missing <==> forall i :: 0 <= i < |row| ==> !row[i].Str? by {
      if r == Missing {
        forall i | 0 <= i < |row| ensures !row[i].Str? {
        }
      } else {
        assert r in strings;
      }
    }
    r
  }

  /** The phenotype cells of a row, one per phenotype column. */
  function PhenotypeValues(columns: seq<string>, row: Row): (r: seq<Value>)
    ensures |r| == |columns|
    ensures forall i :: 0 <= i < |columns| ==> r[i] == Get(row, columns[i])
  {
    seq(|columns|, i requires 0 <= i < |columns| => Get(row, columns[i]))
  }

  /** Phenotype values [A, A, B, missing] give A: the most frequent value wins and missing is ignored. */
  lemma ModeExample()
    ensures Mode([Str("A"), Str("A"), Str("B"), Missing]) == Str("A")
  {
    var vs := [Str("A"), Str("A"), Str("B"), Missing];
    assert Count(vs, Str("A")) == 2;
    assert Count(vs, Str("B")) == 1;
    assert StrLe("A", "A");
    assert IsFirstMode(vs, Str("A"));
    ModeUnique(vs, Str("A"));
  }

  // ---------------------------------------------------------------------------------------------
  // Group propagation.

  /** The groupby key `(activity_outcome, assay_name)`. */
  function GroupKey(row: Row): (Value, Value)
  {
    (Get(row, "activity_outcome"), Get(row, "assay_name"))
  }

  /** The row at index j starts a non-missing phenotype for group g and no earlier row of g has one. */
  predicate FirstOfGroup(rows: seq<Row>, g: (Value, Value), j: int)
  {
    0 <= j < |rows| && GroupKey(rows[j]) == g && Get(rows[j], "phenotype") != Missing &&
    forall k :: 0 <= k < j && GroupKey(rows[k]) == g ==> Get(rows[k], "phenotype") == Missing
  }

  /** Where the group's `phenotype.dropna().unique()[0]` comes from. */
  function FirstInGroup(rows: seq<Row>, g: (Value, Value)): (r: Option<nat>)
    ensures r.Some? ==> FirstOfGroup(rows, g, r.value)
    ensures r.None? <==> forall k :: 0 <= k < |rows| && GroupKey(rows[k]) == g ==> Get(rows[k], "phenotype") == Missing
    decreases |rows|
  {
    if rows == [] then None
    else
      var init := rows[..|rows| - 1];
      match FirstInGroup(init, g)
      case Some(j) => Some(j)
      case None =>
        var last := rows[|rows| - 1];
        if GroupKey(last) == g && Get(last, "phenotype") != Missing then Some(|rows| - 1) else None
  }

  /** The first row of a group is determined. */
  lemma FirstOfGroupUnique(rows: seq<Row>, g: (Value, Value), j: int)
    requires FirstOfGroup(rows, g, j)
    ensures FirstInGroup(rows, g) == Some(j)
  {
    var r := FirstInGroup(rows, g);
    assert r.Some? by { assert GroupKey(rows[j]) == g; }
  }

  /** One row after `group['phenotype'] = phenotype_value[0]` has run on its group. */
  function PropagateRow(rows: seq<Row>, i: nat): Row
    requires i < |rows|
  {
    match FirstInGroup(rows, GroupKey(rows[i]))
    case Some(j) => rows[i]["phenotype" := Get(rows[j], "phenotype")]
    case None => rows[i]
  }

  /** `groupby(['activity_outcome', 'assay_name']).apply(propagate_phenotype)`, rows kept in place. */
  function Propagate(rows: seq<Row>): (r: seq<Row>)
    ensures |r| == |rows|
    ensures forall i :: 0 <= i < |rows| ==> r[i] == PropagateRow(rows, i)
  {
    seq(|rows|, i requires 0 <= i < |rows| => PropagateRow(rows, i))
  }

  /** Within a group that has a non-missing phenotype every row ends with the first one in row
      order; a group without one is unchanged; no other column changes and no row changes group. */
  lemma PropagateSpec(rows: seq<Row>, i: nat)
    requires i < |rows|
    ensures var r := Propagate(rows)[i]; var g := GroupKey(rows[i]);
      GroupKey(r) == g &&
      (forall c :: c != "phenotype" ==> Get(r, c) == Get(rows[i], c)) &&
      (forall j :: FirstOfGroup(rows, g, j) ==> Get(r, "phenotype") == Get(rows[j], "phenotype")) &&
      ((forall k :: 0 <= k < |rows| && GroupKey(rows[k]) == g ==> Get(rows[k], "phenotype") == Missing) ==>
         r == rows[i])
  {
    var g := GroupKey(rows[i]);
    forall j | FirstOfGroup(rows, g, j) ensures Get(Propagate(rows)[i], "phenotype") == Get(rows[j], "phenotype") {
      FirstOfGroupUnique(rows, g, j);
    }
  }

  /** Propagation keeps every row in its group. */
  lemma PropagateKeepsGroups(rows: seq<Row>)
    ensures forall k :: 0 <= k < |rows| ==> GroupKey(Propagate(rows)[k]) == GroupKey(rows[k])
  {
    forall k | 0 <= k < |rows| ensures GroupKey(Propagate(rows)[k]) == GroupKey(rows[k]) {
      PropagateSpec(rows, k);
    }
  }

  /** A group without a phenotype still has none after propagation. */
  lemma PropagateNoneStays(rows: seq<Row>, g: (Value, Value))
    requires FirstInGroup(rows, g).None?
    ensures FirstInGroup(Propagate(rows), g).None?
  {
    var once := Propagate(rows);
    PropagateKeepsGroups(rows);
    forall k | 0 <= k < |rows| && GroupKey(once[k]) == g ensures Get(once[k], "phenotype") == Missing {
      PropagateSpec(rows, k);
    }
  }

  /** A group whose first phenotype is v holds v in every row after propagation. */
  lemma PropagateSomeSpreads(rows: seq<Row>, g: (Value, Value), j: nat)
    requires FirstInGroup(rows, g) == Some(j)
    ensures var once := Propagate(rows);
      FirstInGroup(once, g).Some? && Get(once[FirstInGroup(once, g).value], "phenotype") == Get(rows[j], "phenotype")
  {
    var once := Propagate(rows);
    var v := Get(rows[j], "phenotype");
    PropagateKeepsGroups(rows);
    forall k | 0 <= k < |rows| && GroupKey(once[k]) == g ensures Get(once[k], "phenotype") == v {
      PropagateSpec(rows, k);
    }
    assert FirstInGroup(once, g).Some? by {
      assert GroupKey(once[j]) == g && Get(once[j], "phenotype") != Missing;
    }
  }

  /** A propagated row is unchanged by a second propagation. */
  lemma PropagateRowStable(rows: seq<Row>, i: nat)
    requires i < |rows|
    ensures PropagateRow(Propagate(rows), i) == Propagate(rows)[i]
  {
    var once := Propagate(rows);
    var g := GroupKey(rows[i]);
    PropagateSpec(rows, i);
    match FirstInGroup(rows, g)
    case None => {
      PropagateNoneStays(rows, g);
    }
    case Some(j) => {
      PropagateSomeSpreads(rows, g, j);
      var v := Get(rows[j], "phenotype");
      assert once[i] == rows[i]["phenotype" := v];
      assert once[i]["phenotype" := v] == once[i];
    }
  }

  /** Propagation is idempotent: once propagated, every row of a group with a phenotype already
      holds the group's first value. */
  lemma PropagateIdempotent(rows: seq<Row>)
    ensures Propagate(Propagate(rows)) == Propagate(rows)
  {
    forall i | 0 <= i < |rows| ensures Propagate(Propagate(rows))[i] == Propagate(rows)[i] {
      PropagateRowStable(rows, i);
    }
  }
}
