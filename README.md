# chemgraphbuilder: relationship and node data processing, in Dafny

This project models the data-cleaning core of chemgraphbuilder.
That core turns PubChem bioassay CSV files into the Assay–Compound and Compound–Gene relationship tables of a knowledge graph.
It also covers the small node-table preprocessing step.

- `values.dfy` (`Frames`) holds cells, rows and the faults a pandas step can raise. It also holds `Result` and `Option`.
- `text.dfy` (`Text`) holds the string operations the source relies on:
  - ASCII lower-casing and `str.find`
  - substring and regex-style tests
  - decimal rendering of integers
  - a lexicographic order
- `columns.dfy` (`Columns`) covers the column names:
  - normalisation (`' '` → `_`, then lower case)
  - reading a chunked CSV file into rows
  - the union of the columns of all files plus the reference data, and the `activity` column appended to it
- `reference_index.dfy` (`ReferenceIndex`) covers `AllDataConnected`:
  - the index of reference rows keyed `(aid, cid, activity_outcome)`, with the last row winning
  - reference rows read as `row.to_dict()`, where a name repeated after normalisation keeps its last cell, and a repeated key column makes the first surviving row raise
  - the merge of that index over partitions
  - the augmentation of an assay row from that index
- `phenotype.dfy` (`Phenotype`) covers the per-row mode of the phenotype columns, `most_frequent`, and the propagation of a phenotype within an `(activity_outcome, assay_name)` group.
- `classifier.dfy` (`ActivityClassifier`) covers the activity labelling:
  - the eight keyword lists and the keyword → label table
  - the earliest-keyword scan
  - the regex, direction and special-assay overrides, of which the last that applies wins
- `partition.dfy` (`Partition`) covers one partition of one assay file: reindex to the shared schema, then:
  1. drop rows without ids
  2. measured activity
  3. augmentation
  4. propagation
  5. `target_geneid`
  6. activity URL
  7. drop the `(1, 1)` sentinel
  8. labels
- `pipeline.dfy` (`Pipeline`) covers the whole run:
  - one file and its partitions, where a partition that raises is discarded
  - the `cid` filter, which tests every `cid` column before repeated columns are dropped
  - the sequence of files, where a file without a `cid` column aborts the run
  - the two output tables as records under their headers
- `node_data.dfy` (`NodeData`) covers the four column-rename maps and the concatenation of the compound files, which writes the header once.

Parameters stand in for everything the code reads from disk:
- the reference file
- each assay file (its header and its partitions of lines)
- the compound files as lists of lines

The Dask partitions and the thread pool are modelled as sequential folds in list order.

## Model

| member | source | states |
|---|---|---|
| Columns.NormalizeNameSpec | chemgraphbuilder/relationship_data_processor.py:53 | a normalised name has no space and no upper-case ASCII letter, keeps its length and its other characters, and normalising is idempotent |
| Columns.NormalizeHeader | chemgraphbuilder/relationship_data_processor.py:184 | each header name is normalised in place, keeping the order and the width, and every resulting name is normalised |
| Columns.FirstIndex | chemgraphbuilder/relationship_data_processor.py:196-197 | the position found holds the name and no earlier position does (the first of duplicated columns is kept) |
| Columns.RowOfSpec | chemgraphbuilder/relationship_data_processor.py:196-197 | a row read from a line has exactly the header's names, and each name takes the field under its first occurrence |
| Columns.LastIndex | chemgraphbuilder/relationship_data_processor.py:64 | the position found holds the name and no later position does (`row.to_dict()` keeps the last of repeated labels) |
| Columns.RecordOfSpec | chemgraphbuilder/relationship_data_processor.py:64 | a reference record has exactly the header's names, and each name takes the field under its last occurrence |
| Columns.RecordAt | chemgraphbuilder/relationship_data_processor.py:64 | the record holds a name, with the cell under its last occurrence (blank when the line is short) |
| Columns.PresentWhenUnique | chemgraphbuilder/relationship_data_processor.py:54 | with one column of a name, `dropna` on the raw line is the test on the cell the row keeps, first or last |
| Columns.PartitionRows | chemgraphbuilder/relationship_data_processor.py:55 | a partition of lines becomes one row per line, in order |
| Columns.HeaderColumnsMembers | chemgraphbuilder/relationship_data_processor.py:111-125 | a name is in the union of the file columns iff some readable file has a header name that normalises to it; an unreadable file contributes nothing |
| Columns.HeaderColumnsNormalized | chemgraphbuilder/relationship_data_processor.py:115 | every collected file column is normalised |
| Columns.HeaderColumnsOrderFree | chemgraphbuilder/relationship_data_processor.py:121-125 | the union does not depend on the order or on the repetition of the files the thread pool returns |
| Columns.GetFilteredColumns | chemgraphbuilder/relationship_data_processor.py:97-134 | the returned list has no duplicates and its names are exactly the file columns plus every reference row's columns |
| Columns.UniqueColumnNames | chemgraphbuilder/relationship_data_processor.py:157 | the schema ends with `activity`, and what comes before it is duplicate-free and names exactly the collected columns |
| Columns.NamesNormalized | chemgraphbuilder/relationship_data_processor.py:111-127 | a list naming the file columns and other normalised names holds only normalised names, and `activity` is one |
| ReferenceIndex.AsInt | chemgraphbuilder/relationship_data_processor.py:63 | `int()` succeeds exactly on integer cells and returns their value |
| ReferenceIndex.KeyOf | chemgraphbuilder/relationship_data_processor.py:63 | a key exists iff aid and cid are integers and the row has an `activity_outcome` column, and the key carries those three values |
| ReferenceIndex.ProcessReferencePartition | chemgraphbuilder/relationship_data_processor.py:59-65 | the loop over a partition's rows computes the partition index, or fails on the first row whose key cannot be built |
| ReferenceIndex.ComputePartitions | chemgraphbuilder/relationship_data_processor.py:67 | the per-partition loop gives every partition's index, or the first partition's failure |
| ReferenceIndex.MergeResults | chemgraphbuilder/relationship_data_processor.py:68-69 | the `update` loop gives the merge of the partition indexes, the later partition winning |
| ReferenceIndex.LoadAllDataConnected | chemgraphbuilder/relationship_data_processor.py:40-76 | the load computes the merged index of all partitions and fails when a partition fails; under a header that repeats a key column it raises at the first surviving row |
| ReferenceIndex.ReferenceRows | chemgraphbuilder/relationship_data_processor.py:60-64 | one record per line of the partition, in order, each as `row.to_dict()` of the undeduplicated line |
| ReferenceIndex.SurvivesIffHasIds | chemgraphbuilder/relationship_data_processor.py:54 | with one `aid` and one `cid` column, `dropna(subset=['aid', 'cid'])` keeps a line exactly when its record has both ids |
| ReferenceIndex.RepeatedKeyLoadSpec | chemgraphbuilder/relationship_data_processor.py:53-67 | under a header repeating a key column, the load succeeds with an empty dictionary iff no line survives `dropna`, and otherwise raises what the first surviving line raises |
| ReferenceIndex.RepeatedNameKeepsLast | chemgraphbuilder/relationship_data_processor.py:53-69 | a reference file headed `Assay Name, assay_name, aid, cid, activity_outcome` loads one record, keyed `(1, 2, Active)`, whose `assay_name` is the second cell (steps: `ExampleNameHeader`, `ExampleRecord`, `ExampleKeysSingle`, `ExamplePartition`) |
| ReferenceIndex.RepeatedKeyRaises | chemgraphbuilder/relationship_data_processor.py:53-63 | a reference file headed `AID, aid, cid, activity_outcome` fails with the `int()` TypeError on `aid` (step: `ExampleKeyHeader`) |
| ReferenceIndex.IndexRowsPrefixFailure | chemgraphbuilder/relationship_data_processor.py:62-64 | once a row fails, later rows do not change the outcome |
| ReferenceIndex.IndexPartitionsPrefixFailure | chemgraphbuilder/relationship_data_processor.py:67 | once a partition fails, later partitions do not change the outcome |
| ReferenceIndex.IndexPartitionsNext | chemgraphbuilder/relationship_data_processor.py:67 | one more partition appends its dictionary, or its failure ends the computation |
| ReferenceIndex.IndexRowsEntries | chemgraphbuilder/relationship_data_processor.py:62-64 | every key in a partition index comes from a row with that key, and maps to the last such row |
| ReferenceIndex.MergeIndexesLastWins | chemgraphbuilder/relationship_data_processor.py:68-69 | a key is in the merge iff some partition holds it, and it takes the value from the last partition holding it |
| ReferenceIndex.MergeIndexesAppend | chemgraphbuilder/relationship_data_processor.py:68-69 | merging a concatenation is the union of the two merges, with the later one winning |
| ReferenceIndex.MapUnionAssociative | chemgraphbuilder/relationship_data_processor.py:69 | `dict.update` chains group either way |
| ReferenceIndex.MergeIndexesSwap | chemgraphbuilder/relationship_data_processor.py:67-69 | two partitions with no key in common can be merged in either order |
| ReferenceIndex.DisjointUnionCommutes | chemgraphbuilder/relationship_data_processor.py:69 | two `update`s with no key in common can be applied in either order |
| ReferenceIndex.MergeIndexesPairSwap | chemgraphbuilder/relationship_data_processor.py:67-69 | two neighbouring partitions with no key in common can be exchanged |
| ReferenceIndex.IndexRowsAppend | chemgraphbuilder/relationship_data_processor.py:62-64 | indexing a concatenation of rows is indexing each part and merging |
| ReferenceIndex.IndexIgnoresPartitioning | chemgraphbuilder/relationship_data_processor.py:55-69 | the merged index equals the index of all rows of the file taken as one partition, so the partitioning does not matter |
| ReferenceIndex.IndexPartitionsWellKeyed | chemgraphbuilder/relationship_data_processor.py:63-64 | every partition index maps each key to a row that has that key |
| ReferenceIndex.MergeIndexesWellKeyed | chemgraphbuilder/relationship_data_processor.py:68-69 | merging keeps every entry keyed by its own row |
| ReferenceIndex.AllDataConnectedSpec | chemgraphbuilder/relationship_data_processor.py:40-76 | the loaded index is well keyed and holds only rows with ids; under a header that repeats a key column it is empty; otherwise each key maps to its value in the last partition holding it |
| ReferenceIndex.ReferenceRowsNormalized | chemgraphbuilder/relationship_data_processor.py:53-64 | reference rows read under the normalised header carry only normalised names |
| ReferenceIndex.IndexRowsNormalized | chemgraphbuilder/relationship_data_processor.py:59-65 | a partition dictionary holds rows of the partition, so only normalised names |
| ReferenceIndex.IndexPartitionsNormalized | chemgraphbuilder/relationship_data_processor.py:53-67 | every partition dictionary of the reference file holds only normalised names |
| ReferenceIndex.MergeIndexesNormalized | chemgraphbuilder/relationship_data_processor.py:68-69 | merging keeps only normalised names |
| ReferenceIndex.ReferenceColumnsNormalized | chemgraphbuilder/relationship_data_processor.py:40-76 | every key of every loaded reference record is a normalised name |
| ReferenceIndex.SchemaNormalized | chemgraphbuilder/relationship_data_processor.py:97-134 | every name of the schema built from the file headers and the loaded reference index is normalised, `activity` included |
| ReferenceIndex.AugmentSpec | chemgraphbuilder/relationship_data_processor.py:88-95 | a keyed row is augmented: a key in the index overwrites the row with the indexed row's cells, and a missing key leaves the row unchanged |
| ReferenceIndex.AugmentIdempotent | chemgraphbuilder/relationship_data_processor.py:88-95 | for a well-keyed index, augmentation keeps the row's key and a second augmentation changes nothing |
| ReferenceIndex.AddAllDataConnectedInfo | chemgraphbuilder/relationship_data_processor.py:78-95 | the cell-copying loop gives the augmented row, and fails exactly when the key cannot be built |
| Phenotype.ValueLeTotal | chemgraphbuilder/relationship_data_processor.py:203 | the order pandas uses to break ties between modes is total (also reflexive, transitive and antisymmetric in the neighbouring lemmas) |
| Phenotype.ValueLeReflexive | chemgraphbuilder/relationship_data_processor.py:203 | the tie-break order is reflexive |
| Phenotype.ValueLeTransitive | chemgraphbuilder/relationship_data_processor.py:203 | the tie-break order is transitive |
| Phenotype.ValueLeAntisymmetric | chemgraphbuilder/relationship_data_processor.py:203 | the tie-break order is antisymmetric |
| Phenotype.NonMissing | chemgraphbuilder/relationship_data_processor.py:246 | keeps exactly the non-missing values |
| Phenotype.Best | chemgraphbuilder/relationship_data_processor.py:203 | the chosen candidate beats every candidate: it is more frequent, or as frequent and smaller |
| Phenotype.Mode | chemgraphbuilder/relationship_data_processor.py:203 | the measured activity is missing iff every phenotype cell is missing, and is otherwise the most frequent value, the smallest of any tie |
| Phenotype.ModeUnique | chemgraphbuilder/relationship_data_processor.py:203 | that value is unique: any value meeting the definition is the mode |
| Phenotype.StrValues | chemgraphbuilder/relationship_data_processor.py:247 | keeps exactly the string values, each with its count |
| Phenotype.MostFrequent | chemgraphbuilder/relationship_data_processor.py:235-248 | `None` iff the row has no string, and otherwise a string of the row that beats every string of the row |
| Phenotype.PhenotypeValues | chemgraphbuilder/relationship_data_processor.py:203 | picks the phenotype cells of a row in column order |
| Phenotype.ModeExample | chemgraphbuilder/relationship_data_processor.py:203 | the mode of `A, A, B, NaN` is `A` |
| Phenotype.FirstInGroup | chemgraphbuilder/relationship_data_processor.py:261 | finds the first row of the group with a phenotype, and finds none iff no row of the group has one |
| Phenotype.FirstOfGroupUnique | chemgraphbuilder/relationship_data_processor.py:261-263 | that first row is unique |
| Phenotype.Propagate | chemgraphbuilder/relationship_data_processor.py:208 | propagation keeps the number and the order of the rows |
| Phenotype.PropagateSpec | chemgraphbuilder/relationship_data_processor.py:250-264 | a row takes the phenotype of the first row of its group having one, keeps it when the group has none, and keeps every other cell |
| Phenotype.PropagateKeepsGroups | chemgraphbuilder/relationship_data_processor.py:250-264 | propagation keeps every row's `(activity_outcome, assay_name)` group |
| Phenotype.PropagateNoneStays | chemgraphbuilder/relationship_data_processor.py:261-263 | a group without a phenotype still has none after propagation |
| Phenotype.PropagateSomeSpreads | chemgraphbuilder/relationship_data_processor.py:261-263 | after propagation the group's first row with a phenotype carries the phenotype first found before |
| Phenotype.PropagateRowStable | chemgraphbuilder/relationship_data_processor.py:250-264 | propagating a row of an already propagated table leaves it unchanged |
| Phenotype.PropagateIdempotent | chemgraphbuilder/relationship_data_processor.py:250-264 | propagating twice is propagating once |
| ActivityClassifier.LabelNameInjective | chemgraphbuilder/relationship_data_processor.py:330-338 | distinct labels are written as distinct strings |
| ActivityClassifier.MergeGroupsSpec | chemgraphbuilder/relationship_data_processor.py:329-338 | every keyword of every group is in the merged table, and every value is one of the groups' labels |
| ActivityClassifier.NoEmptyKeywordLists | chemgraphbuilder/relationship_data_processor.py:276-323 | no keyword list holds the empty string |
| ActivityClassifier.AllKeywordsNonEmpty | chemgraphbuilder/relationship_data_processor.py:325-327 | the concatenated keyword list holds no empty keyword |
| ActivityClassifier.AllKeywordsLabelled | chemgraphbuilder/relationship_data_processor.py:325-338 | every keyword of the scan list has a label, and every label is one of the eight categories |
| ActivityClassifier.CoveredByGroups | chemgraphbuilder/relationship_data_processor.py:325-338 | every keyword of the concatenated list is a keyword of one of the eight label groups |
| ActivityClassifier.TableWellFormed | chemgraphbuilder/relationship_data_processor.py:276-338 | the source's keyword table is well formed |
| ActivityClassifier.Scan | chemgraphbuilder/relationship_data_processor.py:343-350 | the scan selects an index of the keyword list, if any |
| ActivityClassifier.ScanIsEarliest | chemgraphbuilder/relationship_data_processor.py:343-350 | the scan selects none iff no keyword occurs, and otherwise the keyword with the earliest position, the first listed on a tie |
| ActivityClassifier.ScanStep | chemgraphbuilder/relationship_data_processor.py:345-350 | one more keyword replaces the selection iff it occurs strictly before `first_position` |
| ActivityClassifier.ScanAfterNone | chemgraphbuilder/relationship_data_processor.py:345-350 | with nothing selected so far, the next keyword is selected iff it occurs, and is then the earliest |
| ActivityClassifier.ScanAfterSome | chemgraphbuilder/relationship_data_processor.py:345-350 | with a selection so far, the next keyword takes over only if it occurs strictly earlier, and the selection stays the earliest |
| ActivityClassifier.EarliestLast | chemgraphbuilder/relationship_data_processor.py:345-350 | the last keyword, occurring before every earlier one, is the earliest of the list |
| ActivityClassifier.EarliestKept | chemgraphbuilder/relationship_data_processor.py:345-350 | the earliest keyword of a prefix stays the earliest when the next keyword does not occur strictly before it |
| ActivityClassifier.EarliestUnique | chemgraphbuilder/relationship_data_processor.py:345-350 | at most one keyword is the earliest |
| ActivityClassifier.ActiveLabelInSpec | chemgraphbuilder/relationship_data_processor.py:340-354 | the label is a category: the default `Inhibitor/Inducer/Modulator` when no keyword occurs in the lower-cased name, else the label of the earliest keyword |
| ActivityClassifier.ActiveLabel | chemgraphbuilder/relationship_data_processor.py:340-354 | for the source's table, every assay name gets one of the eight categories |
| ActivityClassifier.DetermineActiveLabel | chemgraphbuilder/relationship_data_processor.py:340-354 | the keyword loop with `first_position` computes the earliest-keyword label |
| ActivityClassifier.LastMatchNoneFires | chemgraphbuilder/relationship_data_processor.py:366-379 | without a firing override the keyword label stays |
| ActivityClassifier.LastMatchLastFiring | chemgraphbuilder/relationship_data_processor.py:366-379 | the last override that fires decides the label |
| ActivityClassifier.LastMatchInCategories | chemgraphbuilder/relationship_data_processor.py:366-379 | the overrides only ever assign categories |
| ActivityClassifier.ClassifyOutcomes | chemgraphbuilder/relationship_data_processor.py:356-365 | `Inactive` rows get `Inactive`, rows neither active nor inactive get no label, and active rows get a category |
| ActivityClassifier.ClassifyOverrides | chemgraphbuilder/relationship_data_processor.py:366-379 | aid 1215398 gives `Inactivator`; otherwise an increasing direction gives `Activator`; otherwise a decreasing one gives `Inhibitor`; with no override firing, the keyword label |
| Partition.Extend | chemgraphbuilder/relationship_data_processor.py:203 | adding a column keeps the old columns first and adds the name once |
| Partition.Reindex | chemgraphbuilder/relationship_data_processor.py:199 | the row gets exactly the schema's columns, its own cell where it has one and missing elsewhere |
| Partition.Where | chemgraphbuilder/relationship_data_processor.py:200 | a filtered row is kept iff it satisfies the condition |
| Partition.FirstAbsent | chemgraphbuilder/relationship_data_processor.py:203 | reports a wanted column that is missing, and reports none iff every wanted column is present |
| Partition.AugmentAll | chemgraphbuilder/relationship_data_processor.py:205 | succeeds iff every row can be augmented, and then gives each augmented row in place |
| Partition.LabelsAndActivity | chemgraphbuilder/relationship_data_processor.py:356-381 | on success every active row has a string assay name, and every row gets `activity` from its classification, keeping its other cells |
| Partition.WithMode | chemgraphbuilder/relationship_data_processor.py:203 | each row gets the mode of its phenotype cells as `measured_activity` |
| Partition.WithGene | chemgraphbuilder/relationship_data_processor.py:210-211 | `target_geneid` is added as missing only when the frame lacks it, and nothing else changes |
| Partition.WithUrl | chemgraphbuilder/relationship_data_processor.py:213-216 | `activity_url` is the bioassay URL of the row when the frame has `sid`, and missing otherwise; nothing else changes |
| Partition.AugmentAllKeyed | chemgraphbuilder/relationship_data_processor.py:205 | with a well-keyed index, augmented rows keep integer aid and cid |
| Partition.PropagateStepKeeps | chemgraphbuilder/relationship_data_processor.py:207-208 | propagation keeps every cell except `phenotype` |
| Partition.ClassifyIgnoresActivity | chemgraphbuilder/relationship_data_processor.py:356 | writing the `activity` column does not change a row's classification |
| Partition.LastMatchSameFiring | chemgraphbuilder/relationship_data_processor.py:366-379 | two rows on which the same overrides fire get the same label |
| Partition.FinishOutput | chemgraphbuilder/relationship_data_processor.py:213-221 | every row left after the URL, the sentinel filter and the labels is written correctly |
| Partition.WithUrlKeyed | chemgraphbuilder/relationship_data_processor.py:213-216 | the URL step keeps the integer ids and writes the URL built from them |
| Partition.LabelWritten | chemgraphbuilder/relationship_data_processor.py:219-221 | writing the label keeps the ids, the URL and the name check, and the row then carries its classification |
| Partition.PrepareKeyed | chemgraphbuilder/relationship_data_processor.py:203-211 | the rows before the URL step all have integer ids |
| Partition.TransformOutput | chemgraphbuilder/relationship_data_processor.py:203-221 | the transformed frame has the output columns, and every row is written correctly |
| Partition.TransformStages | chemgraphbuilder/relationship_data_processor.py:203-221 | a transform that succeeds prepared its rows and finished them, and its frame has the output columns |
| Partition.PrepareSteps | chemgraphbuilder/relationship_data_processor.py:203-211 | preparation is the mode, then augmentation, then propagation, then `target_geneid` |
| Partition.OutputColumnsCover | chemgraphbuilder/relationship_data_processor.py:203-216 | the output columns include every schema column |
| Partition.OutputColumnsLonger | chemgraphbuilder/relationship_data_processor.py:203 | without a `measured_activity` schema column the output has more columns than the schema |
| Partition.ProcessPartitionOutput | chemgraphbuilder/relationship_data_processor.py:192-231 | a non-empty processed partition has the schema plus `measured_activity`, `target_geneid` and `activity_url` as columns. Each row has integer ids, is not the `(1, 1)` sentinel, carries its URL exactly when the schema has `sid`, and has an `activity` equal to its classification |
| Partition.AugmentAllShape | chemgraphbuilder/relationship_data_processor.py:205 | augmentation adds no column outside the schema when the reference columns are in it |
| Partition.PropagateStepShape | chemgraphbuilder/relationship_data_processor.py:207-208 | propagation keeps the columns |
| Partition.KeptShape | chemgraphbuilder/relationship_data_processor.py:199-200 | reindexed rows carry exactly the schema's columns |
| Partition.PrepareShape | chemgraphbuilder/relationship_data_processor.py:203-211 | the prepared rows carry exactly the schema, `measured_activity` and `target_geneid` |
| Partition.FinishShape | chemgraphbuilder/relationship_data_processor.py:213-221 | the finished rows carry exactly the final frame columns |
| Partition.TransformShape | chemgraphbuilder/relationship_data_processor.py:203-221 | the transformed rows carry exactly the frame's columns |
| Partition.ProcessPartitionShape | chemgraphbuilder/relationship_data_processor.py:192-231 | the output rows' columns are exactly the frame's columns |
| Partition.NoHashBefore | chemgraphbuilder/relationship_data_processor.py:214 | two URLs with the same prefix and `#`-free ids agree on the id before `#` |
| Partition.UrlIdentifiesAssay | chemgraphbuilder/relationship_data_processor.py:214 | rows with integer aids and the same activity URL have the same aid |
| Partition.UrlExample | chemgraphbuilder/relationship_data_processor.py:214 | aid 100 and sid 55 give `https://pubchem.ncbi.nlm.nih.gov/bioassay/100#sid=55` |
| Pipeline.PhenotypeColumns | chemgraphbuilder/relationship_data_processor.py:190 | the phenotype columns are exactly the columns starting with `phenotype` |
| Pipeline.HeadersOf | chemgraphbuilder/relationship_data_processor.py:114 | the header of each readable file, and none for an unreadable one |
| Pipeline.CidLines | chemgraphbuilder/relationship_data_processor.py:185 | `dropna(subset=['cid'])` before repeated columns are dropped keeps exactly the lines whose every `cid` cell is present |
| Pipeline.CidLinesHaveCid | chemgraphbuilder/relationship_data_processor.py:185-197 | every row read from a kept line has its `cid`, and with one `cid` column the filter is exactly the `cid` test on the row |
| Pipeline.Outcomes | chemgraphbuilder/relationship_data_processor.py:164-170 | the outcome of each file's task, in file order |
| Pipeline.Record | chemgraphbuilder/relationship_data_processor.py:226-227 | a CSV record has one field per header column, namely the row's cell there |
| Pipeline.Records | chemgraphbuilder/relationship_data_processor.py:226-227 | one record per row, in order |
| Pipeline.RunAbortIsFinal | chemgraphbuilder/relationship_data_processor.py:185 | after a task aborts the run, later tasks change nothing |
| Pipeline.RunNext | chemgraphbuilder/relationship_data_processor.py:164-170 | one more task appends its rows, or records its fault |
| Pipeline.RecordsAppend | chemgraphbuilder/relationship_data_processor.py:226 | appending rows appends their records |
| Pipeline.AppendStep | chemgraphbuilder/relationship_data_processor.py:226-227 | a task that succeeds appends its rows' records to both tables, and one that raises ends the run |
| Pipeline.AppendStops | chemgraphbuilder/relationship_data_processor.py:164-170 | when the loop of tasks stops, every task ran or one raised, so the run is over |
| Pipeline.AppendFiles | chemgraphbuilder/relationship_data_processor.py:163-170 | the loop over the delayed calls writes the records of every row produced until the first fault to both tables, and reports that fault |
| Pipeline.FilterAndCleanData | chemgraphbuilder/relationship_data_processor.py:145-171 | the header is the collected columns plus `activity`. The relationship table holds the records of every row produced until the first fault, projected on that header. The compound–gene table holds the same rows projected on `cid, target_geneid, activity, aid`, and the fault is reported |
| Pipeline.PartitionsOutputWritten | chemgraphbuilder/relationship_data_processor.py:226-231 | every row a file produces is written correctly, and has exactly the output columns when the reference columns are in the schema |
| Pipeline.ProcessFileWritten | chemgraphbuilder/relationship_data_processor.py:173-231 | every row a file writes is written correctly, with exactly the output columns when the reference columns are in the schema |
| Pipeline.RunRowsFrom | chemgraphbuilder/relationship_data_processor.py:164-170 | every row of the run comes from a task that succeeded |
| Pipeline.RunRowsWritten | chemgraphbuilder/relationship_data_processor.py:170 | the same for every row of the whole run |
| Pipeline.RunRowsFault | chemgraphbuilder/relationship_data_processor.py:170-185 | the run reports no fault iff every file can be read and has a `cid` column; otherwise it reports the first file that fails, every earlier file having succeeded |
| Pipeline.RunFault | chemgraphbuilder/relationship_data_processor.py:170-185 | the run has no fault iff every task succeeded; otherwise the fault is that of the first task that failed |
| Pipeline.AsWrittenRecordsOutgrowHeader | chemgraphbuilder/relationship_data_processor.py:160-226 | as written, every appended record is wider than the header |
| Pipeline.AsWrittenRecordExample | chemgraphbuilder/relationship_data_processor.py:160-226 | a 4-column header receives a 7-field record. This is one worked example; the lemmas `ExampleKept`, `ExampleProcess`, `ExampleAugment`, `ExampleMeasured`, `ExamplePrepare`, `ExampleUrl`, `ExampleLabels`, `ExampleFinish`, `ExampleTransform` and `ExampleColumns` are its steps, from the id filter to the seven output columns |
| Pipeline.CorrectedRecordsMatchHeader | chemgraphbuilder/relationship_data_processor.py:160-226 | with records projected on the header, each record has the header's width and each field is the row's cell under that header column |
| Pipeline.LoadedRunWritten | chemgraphbuilder/relationship_data_processor.py:157-227 | with the index loaded from the reference file and the header built from it and the files, every row of the run is written correctly, has exactly the output columns, and its relationship record has the header's width |
| Pipeline.RecordsOfRows | chemgraphbuilder/relationship_data_processor.py:226-227 | rows that carry every header column give records of the header's width, each field the row's cell under its column |
| Text.FindFrom | chemgraphbuilder/relationship_data_processor.py:347 | the search from a position returns the first occurrence from there, or -1 iff there is none |
| Text.Find | chemgraphbuilder/relationship_data_processor.py:347 | `str.find` returns the first occurrence, or -1 iff the keyword does not occur |
| Text.FoundBeforeEnd | chemgraphbuilder/relationship_data_processor.py:348 | a non-empty keyword that is found starts before `len(assay_name_lower)` |
| Text.NatToStringDigits | chemgraphbuilder/relationship_data_processor.py:214 | a rendered number is a non-empty run of digits whose value is the number |
| Text.IntToStringRoundTrip | chemgraphbuilder/relationship_data_processor.py:214 | parsing a rendered integer gives it back, and the rendering holds no `#` |
| Text.StrLeTotal | chemgraphbuilder/relationship_data_processor.py:203 | string order is total (also reflexive, transitive and antisymmetric in the neighbouring lemmas) |
| Text.StrLeReflexive | chemgraphbuilder/relationship_data_processor.py:203 | string order is reflexive |
| Text.StrLeTransitive | chemgraphbuilder/relationship_data_processor.py:203 | string order is transitive |
| Text.StrLeAntisymmetric | chemgraphbuilder/relationship_data_processor.py:203 | string order is antisymmetric |
| NodeData.Rename | chemgraphbuilder/node_data_processor.py:22-25 | renaming keeps the number of columns |
| NodeData.RenameSpec | chemgraphbuilder/node_data_processor.py:22-25 | a mapped name becomes its target, any other name and the column order stay, and a header without mapped names is unchanged |
| NodeData.RenamesInjective | chemgraphbuilder/node_data_processor.py:22-25 | each of the assay, protein, gene and compound maps sends distinct names to distinct names (also lines 34-35, 44-45 and 71) |
| NodeData.AssayRenamesInjective | chemgraphbuilder/node_data_processor.py:22-25 | the assay rename map sends distinct names to distinct names |
| NodeData.ProteinRenamesInjective | chemgraphbuilder/node_data_processor.py:34-35 | the protein rename map sends distinct names to distinct names |
| NodeData.GeneRenamesInjective | chemgraphbuilder/node_data_processor.py:44-45 | the gene rename map sends distinct names to distinct names |
| NodeData.CompoundRenamesInjective | chemgraphbuilder/node_data_processor.py:71 | the compound rename map sends distinct names to distinct names |
| NodeData.Inverse | chemgraphbuilder/node_data_processor.py:22-25 | the inverse of a rename map, which the source does not build, is defined on exactly the targets and sends each target back to its source, so a rename call such as :22-25 loses no column |
| NodeData.InverseUndoes | chemgraphbuilder/node_data_processor.py:22-25 | the inverse undoes each rename |
| NodeData.RenameRoundTrip | chemgraphbuilder/node_data_processor.py:22-25 | for any of the rename calls (:22-25, :34-35, :44-45, :71), when no kept name is a target, renaming back restores the header, and distinct headers stay distinct |
| NodeData.RenameExamples | chemgraphbuilder/node_data_processor.py:22-71 | for example `AID, Name` → `AssayID, AssayName`, `CID, Title` → `CompoundID, CompoundName`, `ID` → `ProteinID`, `Symbol` → `GeneSymbol` |
| NodeData.ConcatenateSpec | chemgraphbuilder/node_data_processor.py:57-68 | the output is the first file's first line followed by every file's remaining lines in order; `first_file` stays set iff there is no file |
| NodeData.ConcatenateLength | chemgraphbuilder/node_data_processor.py:57-68 | the output has one header line (none if the first file is empty) plus the sum over files of their line count minus one, and is empty without files |
| NodeData.BodiesLength | chemgraphbuilder/node_data_processor.py:67-68 | the body lines number the sum of each file's line count minus one |
| NodeData.PreprocessCompounds | chemgraphbuilder/node_data_processor.py:49-69 | the nested copy loop with the `first_file` flag writes exactly the concatenation |

## Left out

- File I/O is replaced by parameters and results:
  - reading and writing files, `glob`, removing the old outputs
  - the diagnostic dumps `all_data_connected_dict.txt` and `all_columns.txt`
  - `logging`
  - `to_csv` of the node tables (node_data_processor.py:26, :36, :47, :72)
  - the header flag `header=not os.path.exists(...)` of the relationship and compound–gene appends (relationship_data_processor.py:226-227), which is always false because lines 160-161 have already created both files
- Concurrency is modelled as sequential folds:
  - Dask `delayed`/`compute`, `map_partitions` and `repartition`, and the thread pool
  - The order in which concurrent partitions append to the output files is not modelled; the model appends in file and partition order.
  - Which files were written before an aborting file is not modelled. In the model the run stops at the first fault and keeps the earlier rows.
- CSV parsing is not modelled:
  - A file is its header and a sequence of partitions of fields.
  - A missing trailing field reads as missing; a field beyond the header is dropped.
  - pandas' renaming of identical raw headers (`x.1`) is not modelled. Distinct raw headers that coincide after normalisation are modelled: the assay files keep the first column of a name (:196-197) after testing every `cid` cell (:185), and the reference file keeps the last cell of a name (`row.to_dict()` at :64) and raises at its first surviving row when `aid`, `cid` or `activity_outcome` is repeated (:63).
  - The model's line files are already split into lines, so a compound file that does not end in a newline is not modelled: the copy loop (node_data_processor.py:67-68) would join its last line with the next file's first body line, since that file's header line is read at :63 and never written.
- pandas value handling is not modelled:
  - The numeric dtypes (float coercion of id columns, so an aid rendered as `100.0`) are not modelled; cells are missing, strings or integers.
  - NaN and `pd.NA` are one `Missing` value, rendered as `nan` in the URL. In the source the reindex fill at relationship_data_processor.py:199 is `pd.NA`, which the f-string at :214 renders as `<NA>`: a file without `sid` under a schema with `sid` gets `…#sid=<NA>` there and `…#sid=nan` in `Partition.Render`/`Partition.Url`.
- AsInt: `int()` of a numeric string (Python parses `"5"`) is modelled as a failure; cells read as numbers are integers in the model.
- Phenotype.Mode:
  - Ties are broken by a total order (integers before strings, numbers numerically, strings by code point). pandas sorts the modes; for mixed types it cannot sort and the order is unspecified.
  - An empty list of phenotype columns gives missing.
- Phenotype.Propagate:
  - `groupby(...).apply(...).reset_index(drop=True)` regroups the rows by group and drops rows whose `assay_name` is missing. The model keeps the row order and every row.
  - `unique()` keeps first occurrences, which is what the model takes.
- LabelsAndActivity: the `.str` accessor raising on a column of non-string dtype is modelled only as a failure on a non-string `assay_name` of an active row.
- Regular expressions are modelled as their literal alternatives. `.*` is modelled as a later occurrence on the same line, case-insensitively on ASCII.
- Text.Lower: only ASCII letters are lower-cased; Unicode case mapping is not modelled.
- A schema in which `activity` appears twice is not modelled; `activity` is appended once to a list already holding it, and the reindex treats the names as a set.
- The `isinstance(df, pd.Series)` conversion at line 194 is not modelled; a partition is always a frame.
- The casting of `GeneID` to `Int64` (node_data_processor.py:46) is not modelled: there is no integer-width type in the model.
- The compound concatenation reads the output file's own name if it already lies in the directory; this is not modelled, since `glob` is not.
- Pipeline.FilterAndCleanData / Pipeline.AppendFiles: the relationship records are projected on the header, which is the corrected behaviour of the record-width finding below. relationship_data_processor.py:226 instead appends each partition's frame at its own width, `measured_activity`, `target_geneid` and `activity_url` included. That as-written width is modelled per partition by `Pipeline.AsWrittenRecords`, not over the whole run.
- The remaining files of the repository (collectors, the Neo4j uploader, project setup) are not part of this model.

## Findings

| source | as written | input that shows it | evidently intended | confidence | as-written member | corrected member |
|---|---|---|---|---|---|---|
| chemgraphbuilder/relationship_data_processor.py:160-226 | the relationship file's header is written once from `unique_column_names`, but each partition is appended with its frame's own columns, which also hold `measured_activity`, `target_geneid` and `activity_url` | schema `aid, cid, activity_outcome, activity` with one row aid 5, cid 7, `Inactive`: the header has 4 names and the appended record has 7 fields | every appended record has exactly the header's columns, in header order | not executed | Pipeline.AsWrittenRecordExample | Pipeline.CorrectedRecordsMatchHeader |

Pipeline.AsWrittenRecordsOutgrowHeader states the general form of the finding: every record written as the source does it is wider than the header.
Pipeline.FilterAndCleanData writes the corrected records, projected on the header.

Column names are normalised by `str.replace(' ', '_')` followed by `lower()` (relationship_data_processor.py:53, :115, :184), so tabs and other whitespace are kept.
