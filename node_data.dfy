/** `NodeDataPreprocessor`: the fixed column renames of the node tables and the header-once
    concatenation of the compound files. */
module NodeData {
  import opened Frames

  // ---------------------------------------------------------------------------------------------
  // Column renames.

  const ASSAY_RENAMES: map<string, string> := map[
    "AID" := "AssayID", "Assay Type" := "AssayType", "Activity Name" := "AssayActivityName",
    "SourceID" := "AssaySourceID", "SourceName" := "AssaySourceName", "Name" := "AssayName",
    "Description" := "AssayDescription"]

  const PROTEIN_RENAMES: map<string, string> := map[
    "ID" := "ProteinID", "Name" := "ProteinName", "Description" := "ProteinDescription"]

  const GENE_RENAMES: map<string, string> := map[
    "Symbol" := "GeneSymbol", "Taxonomy" := "TaxonomyID", "Synonyms" := "GeneSynonyms"]

  const COMPOUND_RENAMES: map<string, string> := map["CID" := "CompoundID", "Title" := "CompoundName"]

  /** `df.rename(columns=renames)` on a header: a name the map holds becomes its target. */
  function Rename(renames: map<string, string>, header: seq<string>): (r: seq<string>)
    ensures |r| == |header|
  {
    seq(|header|, i requires 0 <= i < |header| => if header[i] in renames then renames[header[i]] else header[i])
  }

  /** A renamed name is replaced by its target; every other name stays, and so does the order. */
  lemma RenameSpec(renames: map<string, string>, header: seq<string>)
    ensures forall i :: 0 <= i < |header| && header[i] in renames ==> Rename(renames, header)[i] == renames[header[i]]
    ensures forall i :: 0 <= i < |header| && header[i] !in renames ==> Rename(renames, header)[i] == header[i]
    ensures (forall c :: c in header ==> c !in renames) ==> Rename(renames, header) == header
  {
  }

  predicate Injective(renames: map<string, string>)
  {
    forall a, b :: a in renames && b in renames && a != b ==> renames[a] != renames[b]
  }

  /** Each of the four maps sends distinct names to distinct names. */
  lemma RenamesInjective()
    ensures Injective(ASSAY_RENAMES) && Injective(PROTEIN_RENAMES)
    ensures Injective(GENE_RENAMES) && Injective(COMPOUND_RENAMES)
  {
    AssayRenamesInjective();
    ProteinRenamesInjective();
    GeneRenamesInjective();
    CompoundRenamesInjective();
  }

  lemma AssayRenamesInjective()
    ensures Injective(ASSAY_RENAMES)
  {
    var m := ASSAY_RENAMES;
    forall a, b | a in m && b in m && a != b ensures m[a] != m[b] {
      assert |m[a]| != |m[b]| || m[a][5] != m[b][5];
    }
  }

  lemma ProteinRenamesInjective()
    ensures Injective(PROTEIN_RENAMES)
  {
    var m := PROTEIN_RENAMES;
    forall a, b | a in m && b in m && a != b ensures m[a] != m[b] {
      assert |m[a]| != |m[b]|;
    }
  }

  lemma GeneRenamesInjective()
    ensures Injective(GENE_RENAMES)
  {
    var m := GENE_RENAMES;
    forall a, b | a in m && b in m && a != b ensures m[a] != m[b] {
      assert |m[a]| != |m[b]| || m[a][0] != m[b][0];
    }
  }

  lemma CompoundRenamesInjective()
    ensures Injective(COMPOUND_RENAMES)
  {
    var m := COMPOUND_RENAMES;
    forall a, b | a in m && b in m && a != b ensures m[a] != m[b] {
      assert |m[a]| != |m[b]|;
    }
  }

  /** The map read backwards. */
  ghost function Inverse(renames: map<string, string>): (r: map<string, string>)
    requires Injective(renames)
    ensures r.Keys == renames.Values
    ensures forall v :: v in r ==> r[v] in renames && renames[r[v]] == v
  {
    map v | v in renames.Values :: var a :| a in renames && renames[a] == v; a
  }

  lemma InverseUndoes(renames: map<string, string>, a: string)
    requires Injective(renames) && a in renames
    ensures renames[a] in Inverse(renames) && Inverse(renames)[renames[a]] == a
  {
    var v := renames[a];
    assert v in renames.Values;
    var b := Inverse(renames)[v];
    assert renames[b] == v;
  }

  /** No kept name collides with a target. */
  predicate Unambiguous(renames: map<string, string>, header: seq<string>)
  {
    forall i :: 0 <= i < |header| && header[i] !in renames ==> header[i] !in renames.Values
  }

  /** Renaming a header whose kept names are not targets loses nothing: reading the map backwards
      gives the header back, and distinct names stay distinct. */
  lemma RenameRoundTrip(renames: map<string, string>, header: seq<string>)
    requires Injective(renames) && Unambiguous(renames, header)
    ensures Rename(Inverse(renames), Rename(renames, header)) == header
    ensures Distinct(header) ==> Distinct(Rename(renames, header))
  {
    var inv := Inverse(renames);
    var once := Rename(renames, header);
    forall i | 0 <= i < |header| ensures Rename(inv, once)[i] == header[i] {
      if header[i] in renames {
        InverseUndoes(renames, header[i]);
        assert once[i] == renames[header[i]];
      } else {
        assert once[i] == header[i];
      }
    }
  }

  /** The examples the renames are known by. */
  lemma RenameExamples()
    ensures Rename(ASSAY_RENAMES, ["AID", "Name", "Extra"]) == ["AssayID", "AssayName", "Extra"]
    ensures Rename(COMPOUND_RENAMES, ["CID", "Title"]) == ["CompoundID", "CompoundName"]
    ensures Rename(PROTEIN_RENAMES, ["ID"]) == ["ProteinID"]
    ensures Rename(GENE_RENAMES, ["Symbol"]) == ["GeneSymbol"]
  {
  }

  // ---------------------------------------------------------------------------------------------
  // Concatenation of the compound files.

  /** The first line of a file, read as the empty string (no line) when the file is empty. */
  function FirstLine(file: seq<string>): seq<string>
  {
    if file == [] then [] else [file[0]]
  }

  /** The lines of a file after its first. */
  function Body(file: seq<string>): seq<string>
  {
    if file == [] then [] else file[1..]
  }

  /** The output so far and the `first_file` flag, after one more file. An empty file reads its
      header as the empty string, which writes nothing but still clears the flag. */
  function Step(out: seq<string>, firstFile: bool, file: seq<string>): (seq<string>, bool)
  {
    ((if firstFile then out + FirstLine(file) else out) + Body(file), false)
  }

  /** The loop of `preprocess_compounds` over the files, in list order. */
  function Concatenate(files: seq<seq<string>>): (seq<string>, bool)
  {
    if files == [] then ([], true)
    else
      var previous := Concatenate(files[..|files| - 1]);
      Step(previous.0, previous.1, files[|files| - 1])
  }

  function Bodies(files: seq<seq<string>>): seq<string>
  {
    if files == [] then [] else Bodies(files[..|files| - 1]) + Body(files[|files| - 1])
  }

  /** The header line written: the first file's first line, if it has one. */
  function HeaderLine(files: seq<seq<string>>): seq<string>
  {
    if files == [] then [] else FirstLine(files[0])
  }

  /** The output is the first file's first line followed by every file's lines after its first,
      in list order; the flag stays set only when there is no file. */
  lemma {:induction false} ConcatenateSpec(files: seq<seq<string>>)
    ensures Concatenate(files).0 == HeaderLine(files) + Bodies(files)
    ensures Concatenate(files).1 <==> files == []
  {
    if files != [] {
      var init := files[..|files| - 1];
      var last := files[|files| - 1];
      ConcatenateSpec(init);
      assert Concatenate(files) == Step(Concatenate(init).0, Concatenate(init).1, last);
      assert Bodies(files) == Bodies(init) + Body(last);
      if init == [] {
        assert HeaderLine(files) == FirstLine(last);
        assert Concatenate(files).0 == FirstLine(last) + Body(last);
      } else {
        assert init[0] == files[0];
        assert HeaderLine(files) == HeaderLine(init);
        assert Concatenate(files).0 == (HeaderLine(init) + Bodies(init)) + Body(last);
      }
    }
  }

  function BodyLines(files: seq<seq<string>>): nat
  {
    if files == [] then 0 else BodyLines(files[..|files| - 1]) + (if files[|files| - 1] == [] then 0 else |files[|files| - 1]| - 1)
  }

  /** With at least one file whose first line exists the output has `1 + Σ (len(file) - 1)` lines;
      with no file it is empty. */
  lemma {:induction false} ConcatenateLength(files: seq<seq<string>>)
    ensures |Concatenate(files).0| == |HeaderLine(files)| + BodyLines(files)
    ensures files == [] ==> Concatenate(files).0 == []
  {
    ConcatenateSpec(files);
    BodiesLength(files);
  }

  lemma {:induction false} BodiesLength(files: seq<seq<string>>)
    ensures |Bodies(files)| == BodyLines(files)
  {
    if files != [] {
      BodiesLength(files[..|files| - 1]);
    }
  }

  /** `preprocess_compounds`: copy every file's lines to the output, the header line only from
      the first file. */
  method PreprocessCompounds(allCsvFiles: seq<seq<string>>) returns (out: seq<string>)
    ensures out == Concatenate(allCsvFiles).0
  {
    var firstFile := true;
    out := [];
    for i := 0 to |allCsvFiles|
      invariant (out, firstFile) == Concatenate(allCsvFiles[..i])
    {
      assert allCsvFiles[..i + 1][..i] == allCsvFiles[..i];
      var file := allCsvFiles[i];
      if file != [] {
        var header := file[0];
        if firstFile {
          out := out + [header];
        }
      }
      assert out == (if firstFile then Concatenate(allCsvFiles[..i]).0 + FirstLine(file) else Concatenate(allCsvFiles[..i]).0);
      firstFile := false;
      ghost var start := out;
      var lines := Body(file);
      for k := 0 to |lines|
        invariant out == start + lines[..k]
      {
        assert lines[..k + 1] == lines[..k] + [lines[k]];
        out := out + [lines[k]];
      }
      assert lines[..|lines|] == lines;
    }
    assert allCsvFiles[..|allCsvFiles|] == allCsvFiles;
  }
}
