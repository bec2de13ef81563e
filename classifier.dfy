/** The activity classifier (`_determine_labels_and_activity`): a keyword scan of the assay name
    followed by seven override rules, the last matching rule winning. */
module ActivityClassifier {
  import opened Frames
  import opened Text

  datatype Label =
    | Inactive | Inhibitor | Ligand | InhibitorSubstrate | InhibitorInducerModulator
    | Substrate | Inactivator | Activator | Inducer

  /** The text written to the `activity` column. */
  function LabelName(l: Label): string
  {
    match l
    case Inactive => "Inactive"
    case Inhibitor => "Inhibitor"
    case Ligand => "Ligand"
    case InhibitorSubstrate => "Inhibitor/Substrate"
    case InhibitorInducerModulator => "Inhibitor/Inducer/Modulator"
    case Substrate => "Substrate"
    case Inactivator => "Inactivator"
    case Activator => "Activator"
    case Inducer => "Inducer"
  }

  /** The eight categories an `Active` row can receive. */
  const CATEGORIES: set<Label> :=
    {Inhibitor, Ligand, InhibitorSubstrate, InhibitorInducerModulator, Substrate, Inactivator, Activator, Inducer}

  lemma LabelNameInjective(a: Label, b: Label)
    requires LabelName(a) == LabelName(b)
    ensures a == b
  {
  }

  // ---------------------------------------------------------------------------------------------
  // The keyword table.

  const INHIBITOR_KEYWORDS: seq<string> := [
    "inhibition", "reversible inhibition", "time dependent inhibition",
    "inhibitory activity", "time-dependent inhibition", "time dependent irreversible inhibition",
    "inhibitory concentration", "inhibitory effect", "inhibitory potency",
    "concentration required to inhibit", "competitive inhibition", "cyp inhibition",
    "irreversible inhibition", "mechanism based inhibition", "mixed inhibition",
    "mixed type inhibition", "inhibitory constant", "antagonistic activity", "selectivity",
    "s1p4 agonists", "small molecule antagonists", "displacement", "mediated midazolam 1-hydroxylation",
    "time/nadph-dependent inhibition", "reversal inhibition", "mechanism-based inhibition",
    "mechanism based time dependent inhibition", "reversible competitive inhibition",
    "predictive competitive inhibition", "noncompetitive inhibition", "in vitro inhibitory",
    "in vitro inhibition", "inhibition of", "direct inhibition", "enzyme inhibition", "dndi",
    "inhibition assay"
  ]

  const LIGAND_KEYWORDS: seq<string> := [
    "binding affinity", "spectral binding", "interaction with", "bind",
    "covalent binding affinity", "apparent binding affinity"
  ]

  const INHIBITOR_SUBSTRATE_KEYWORDS: seq<string> := ["inhibitors and substrates"]

  const INHIBITOR_ACTIVATOR_MODULATOR_KEYWORDS: seq<string> := [
    "apoprotein formation", "panel assay", "eurofins-panlabs enzyme assay"
  ]

  const SUBSTRATE_KEYWORDS: seq<string> := [
    "drug metabolism", "prodrug", "metabolic", "oxidation", "substrate activity",
    "michaelis-menten", "metabolic stability", "bioactivation", "drug level",
    "enzyme-mediated drug depletion", "enzyme-mediated compound formation",
    "phenotyping", "activity of human recombinant cyp", "activity of recombinant cyp",
    "activity at cyp", "enzyme-mediated drug metabolism"
  ]

  const INACTIVATOR_KEYWORDS: seq<string> := [
    "inactivator", "inactivation of", "mechanism based inactivation of", "inactivators",
    "metabolism dependent inactivation"
  ]

  const ACTIVATOR_KEYWORDS: seq<string> := ["assay for activators", "activation of", "activators of"]

  const INDUCER_KEYWORDS: seq<string> := ["induction of", "inducer", "inducers", "time-dependant induction"]

  /** `all_keywords`: the scan order. */
  const ALL_KEYWORDS: seq<string> :=
    INHIBITOR_KEYWORDS + LIGAND_KEYWORDS + INHIBITOR_SUBSTRATE_KEYWORDS +
    INHIBITOR_ACTIVATOR_MODULATOR_KEYWORDS + SUBSTRATE_KEYWORDS +
    INACTIVATOR_KEYWORDS + ACTIVATOR_KEYWORDS + INDUCER_KEYWORDS

  function LabelAll(keywords: seq<string>, l: Label): map<string, Label>
  {
    map k | k in keywords :: l
  }

  /** The groups of `keyword_to_label`, in the order the source merges them. */
  const LABEL_GROUPS: seq<(seq<string>, Label)> := [
    (INHIBITOR_KEYWORDS, Inhibitor), (INHIBITOR_SUBSTRATE_KEYWORDS, InhibitorSubstrate),
    (INHIBITOR_ACTIVATOR_MODULATOR_KEYWORDS, InhibitorInducerModulator),
    (SUBSTRATE_KEYWORDS, Substrate), (INACTIVATOR_KEYWORDS, Inactivator),
    (ACTIVATOR_KEYWORDS, Activator), (INDUCER_KEYWORDS, Inducer), (LIGAND_KEYWORDS, Ligand)
  ]

  /** The dictionary built by unpacking the groups in order: a later group wins a shared keyword. */
  function MergeGroups(groups: seq<(seq<string>, Label)>): map<string, Label>
  {
    if groups == [] then map[]
    else MergeGroups(groups[..|groups| - 1]) + LabelAll(groups[|groups| - 1].0, groups[|groups| - 1].1)
  }

  const KEYWORD_TO_LABEL: map<string, Label> := MergeGroups(LABEL_GROUPS)

  /** Every keyword of every group is a key, and every value is the label of some group. */
  lemma {:induction false} MergeGroupsSpec(groups: seq<(seq<string>, Label)>)
    ensures forall i, k :: 0 <= i < |groups| && k in groups[i].0 ==> k in MergeGroups(groups)
    ensures forall k :: k in MergeGroups(groups) ==> MergeGroups(groups)[k] in LabelsOf(groups)
  {
    if groups != [] {
      var init := groups[..|groups| - 1];
      MergeGroupsSpec(init);
      forall i | 0 <= i < |init| ensures init[i] == groups[i] { }
    }
  }

  function LabelsOf(groups: seq<(seq<string>, Label)>): set<Label>
  {
    set i | 0 <= i < |groups| :: groups[i].1
  }

  /** The scan order together with the label of each keyword. */
  datatype KeywordTable = KeywordTable(keywords: seq<string>, labels: map<string, Label>)

  const TABLE: KeywordTable := KeywordTable(ALL_KEYWORDS, KEYWORD_TO_LABEL)

  predicate NoEmptyKeyword(keywords: seq<string>)
  {
    forall i :: 0 <= i < |keywords| ==> |keywords[i]| > 0
  }

  /** No keyword is empty, every keyword has a label, and every label is a category. */
  predicate WellFormed(table: KeywordTable)
  {
    NoEmptyKeyword(table.keywords) &&
    (forall i :: 0 <= i < |table.keywords| ==> table.keywords[i] in table.labels) &&
    (forall k :: k in table.labels ==> table.labels[k] in CATEGORIES)
  }

  lemma NoEmptyKeywordAppend(a: seq<string>, b: seq<string>)
    requires NoEmptyKeyword(a) && NoEmptyKeyword(b)
    ensures NoEmptyKeyword(a + b)
  {
    forall i | 0 <= i < |a + b| ensures |(a + b)[i]| > 0 {
      if i >= |a| { assert (a + b)[i] == b[i - |a|]; }
    }
  }

  lemma NoEmptyKeywordLists()
    ensures NoEmptyKeyword(INHIBITOR_KEYWORDS) && NoEmptyKeyword(LIGAND_KEYWORDS)
    ensures NoEmptyKeyword(INHIBITOR_SUBSTRATE_KEYWORDS) && NoEmptyKeyword(INHIBITOR_ACTIVATOR_MODULATOR_KEYWORDS)
    ensures NoEmptyKeyword(SUBSTRATE_KEYWORDS) && NoEmptyKeyword(INACTIVATOR_KEYWORDS)
    ensures NoEmptyKeyword(ACTIVATOR_KEYWORDS) && NoEmptyKeyword(INDUCER_KEYWORDS)
  {
  }

  lemma {:induction false} AllKeywordsNonEmpty()
    ensures NoEmptyKeyword(ALL_KEYWORDS)
  {
    NoEmptyKeywordLists();
    NoEmptyKeywordAppend(INHIBITOR_KEYWORDS, LIGAND_KEYWORDS);
    var a := INHIBITOR_KEYWORDS + LIGAND_KEYWORDS;
    NoEmptyKeywordAppend(a, INHIBITOR_SUBSTRATE_KEYWORDS);
    var b := a + INHIBITOR_SUBSTRATE_KEYWORDS;
    NoEmptyKeywordAppend(b, INHIBITOR_ACTIVATOR_MODULATOR_KEYWORDS);
    var c := b + INHIBITOR_ACTIVATOR_MODULATOR_KEYWORDS;
    NoEmptyKeywordAppend(c, SUBSTRATE_KEYWORDS);
    var d := c + SUBSTRATE_KEYWORDS;
    NoEmptyKeywordAppend(d, INACTIVATOR_KEYWORDS);
    var e := d + INACTIVATOR_KEYWORDS;
    NoEmptyKeywordAppend(e, ACTIVATOR_KEYWORDS);
    var f := e + ACTIVATOR_KEYWORDS;
    NoEmptyKeywordAppend(f, INDUCER_KEYWORDS);
  }

  /** Eight keyword lists concatenated in scan order are covered by the same lists as groups in
      dictionary order. */
  lemma CoveredByGroups(a: seq<string>, b: seq<string>, c: seq<string>, d: seq<string>, e: seq<string>,
                        f: seq<string>, g: seq<string>, h: seq<string>, groups: seq<(seq<string>, Label)>)
    requires |groups| == 8
    requires groups[0].0 == a && groups[1].0 == c && groups[2].0 == d && groups[3].0 == e
    requires groups[4].0 == f && groups[5].0 == g && groups[6].0 == h && groups[7].0 == b
    ensures forall k :: k in a + b + c + d + e + f + g + h ==> exists t :: 0 <= t < |groups| && k in groups[t].0
  {
    forall k | k in a + b + c + d + e + f + g + h ensures exists t :: 0 <= t < |groups| && k in groups[t].0 {
      if k in a { assert k in groups[0].0; }
      else if k in b { assert k in groups[7].0; }
      else if k in c { assert k in groups[1].0; }
      else if k in d { assert k in groups[2].0; }
      else if k in e { assert k in groups[3].0; }
      else if k in f { assert k in groups[4].0; }
      else if k in g { assert k in groups[5].0; }
      else { assert k in groups[6].0; }
    }
  }

  lemma AllKeywordsLabelled()
    ensures forall i :: 0 <= i < |ALL_KEYWORDS| ==> ALL_KEYWORDS[i] in KEYWORD_TO_LABEL
    ensures forall k :: k in KEYWORD_TO_LABEL ==> KEYWORD_TO_LABEL[k] in CATEGORIES
  {
    MergeGroupsSpec(LABEL_GROUPS);
    assert LabelsOf(LABEL_GROUPS) <= CATEGORIES;
    CoveredByGroups(INHIBITOR_KEYWORDS, LIGAND_KEYWORDS, INHIBITOR_SUBSTRATE_KEYWORDS,
                    INHIBITOR_ACTIVATOR_MODULATOR_KEYWORDS, SUBSTRATE_KEYWORDS, INACTIVATOR_KEYWORDS,
                    ACTIVATOR_KEYWORDS, INDUCER_KEYWORDS, LABEL_GROUPS);
    forall i | 0 <= i < |ALL_KEYWORDS| ensures ALL_KEYWORDS[i] in KEYWORD_TO_LABEL {
      assert ALL_KEYWORDS[i] in ALL_KEYWORDS;
    }
  }

  /** The source's keyword table is well formed. */
  lemma TableWellFormed()
    ensures WellFormed(TABLE)
  {
    AllKeywordsNonEmpty();
    AllKeywordsLabelled();
  }

  // ---------------------------------------------------------------------------------------------
  // The keyword scan.

  /** The keyword the loop of `determine_active_label` has chosen after scanning `keywords`:
      a later keyword replaces the current one only when found strictly earlier. */
  function Scan(s: string, keywords: seq<string>): (r: Option<nat>)
    ensures r.Some? ==> r.value < |keywords|
  {
    if keywords == [] then None
    else
      var previous := Scan(s, keywords[..|keywords| - 1]);
      var firstPosition := match previous case None => |s| case Some(j) => Find(s, keywords[j]);
      var position := Find(s, keywords[|keywords| - 1]);
      if 0 <= position < firstPosition then Some(|keywords| - 1) else previous
  }

  /** Keyword j wins: it occurs, no keyword occurs earlier, and no keyword before it in the list
      occurs at the same position. */
  predicate Earliest(s: string, keywords: seq<string>, j: nat)
  {
    j < |keywords| && Find(s, keywords[j]) != -1 &&
    forall i :: 0 <= i < |keywords| && Find(s, keywords[i]) != -1 ==>
      Find(s, keywords[j]) < Find(s, keywords[i]) || (Find(s, keywords[j]) == Find(s, keywords[i]) && j <= i)
  }

  /** The scan picks the keyword with the smallest `find` position, the first in list order on a
      tie, and picks none exactly when no keyword occurs. */
  lemma {:induction false} ScanIsEarliest(s: string, keywords: seq<string>)
    requires NoEmptyKeyword(keywords)
    ensures Scan(s, keywords).None? <==> forall i :: 0 <= i < |keywords| ==> Find(s, keywords[i]) == -1
    ensures Scan(s, keywords).Some? ==> Earliest(s, keywords, Scan(s, keywords).value)
  {
    if keywords != [] {
      var init := keywords[..|keywords| - 1];
      assert NoEmptyKeyword(init) by {
        forall i | 0 <= i < |init| ensures init[i] == keywords[i] { }
      }
      ScanIsEarliest(s, init);
      match Scan(s, init)
      case None => ScanAfterNone(s, keywords);
      case Some(j) => ScanAfterSome(s, keywords, j);
    }
  }

  /** The scan step when no earlier keyword was found. */
  lemma ScanAfterNone(s: string, keywords: seq<string>)
    requires |keywords| > 0 && |keywords[|keywords| - 1]| > 0
    requires var init := keywords[..|keywords| - 1];
      Scan(s, init).None? && forall i :: 0 <= i < |init| ==> Find(s, init[i]) == -1
    ensures Scan(s, keywords).None? <==> forall i :: 0 <= i < |keywords| ==> Find(s, keywords[i]) == -1
    ensures Scan(s, keywords).Some? ==> Earliest(s, keywords, Scan(s, keywords).value)
  {
    var n := |keywords| - 1;
    var init := keywords[..n];
    forall i | 0 <= i < n ensures init[i] == keywords[i] { }
    ScanStep(s, keywords, n);
    assert keywords[..n + 1] == keywords;
    if Find(s, keywords[n]) != -1 {
      FoundBeforeEnd(s, keywords[n]);
      EarliestLast(s, keywords);
    }
  }

  /** The scan step when keyword j had been found. */
  lemma ScanAfterSome(s: string, keywords: seq<string>, j: nat)
    requires |keywords| > 0 && |keywords[|keywords| - 1]| > 0
    requires var init := keywords[..|keywords| - 1];
      Scan(s, init) == Some(j) && Earliest(s, init, j)
    ensures Scan(s, keywords).Some? && Earliest(s, keywords, Scan(s, keywords).value)
  {
    var n := |keywords| - 1;
    var init := keywords[..n];
    assert init[j] == keywords[j];
    ScanStep(s, keywords, n);
    assert keywords[..n + 1] == keywords;
    var position := Find(s, keywords[n]);
    if 0 <= position < Find(s, keywords[j]) {
      forall i | 0 <= i < n ensures init[i] == keywords[i] { }
      EarliestLast(s, keywords);
    } else {
      EarliestKept(s, keywords, j);
    }
  }

  /** The last keyword wins when it occurs strictly before every other keyword that occurs. */
  lemma EarliestLast(s: string, keywords: seq<string>)
    requires |keywords| > 0 && Find(s, keywords[|keywords| - 1]) != -1
    requires forall i :: 0 <= i < |keywords| - 1 && Find(s, keywords[i]) != -1 ==>
               Find(s, keywords[|keywords| - 1]) < Find(s, keywords[i])
    ensures Earliest(s, keywords, |keywords| - 1)
  {
  }

  /** An earlier winner stays the winner when the last keyword does not occur strictly before it. */
  lemma EarliestKept(s: string, keywords: seq<string>, j: nat)
    requires |keywords| > 0 && Earliest(s, keywords[..|keywords| - 1], j)
    requires Find(s, keywords[|keywords| - 1]) == -1 || Find(s, keywords[j]) <= Find(s, keywords[|keywords| - 1])
    ensures Earliest(s, keywords, j)
  {
    var init := keywords[..|keywords| - 1];
    forall i | 0 <= i < |init| ensures init[i] == keywords[i] { }
  }

  /** `determine_active_label` over a keyword table. */
  function ActiveLabelIn(table: KeywordTable, assayName: string): Label
    requires WellFormed(table)
  {
    match Scan(Lower(assayName), table.keywords)
    case Some(j) => table.labels[table.keywords[j]]
    case None => InhibitorInducerModulator
  }

  /** At most one keyword wins. */
  lemma EarliestUnique(s: string, keywords: seq<string>, i: nat, j: nat)
    requires Earliest(s, keywords, i) && Earliest(s, keywords, j)
    ensures i == j
  {
  }

  /** The label belongs to the keyword found earliest in the lower-cased name (the first in list
      order on a tie); with no keyword it is `Inhibitor/Inducer/Modulator`; it is always one of the
      eight categories. */
  lemma ActiveLabelInSpec(table: KeywordTable, assayName: string)
    requires WellFormed(table)
    ensures ActiveLabelIn(table, assayName) in CATEGORIES
    ensures (forall i :: 0 <= i < |table.keywords| ==> Find(Lower(assayName), table.keywords[i]) == -1) ==>
              ActiveLabelIn(table, assayName) == InhibitorInducerModulator
    ensures forall j: nat :: Earliest(Lower(assayName), table.keywords, j) ==>
              ActiveLabelIn(table, assayName) == table.labels[table.keywords[j]]
  {
    var s := Lower(assayName);
    ScanIsEarliest(s, table.keywords);
    match Scan(s, table.keywords)
    case None => { }
    case Some(w) => {
      assert ActiveLabelIn(table, assayName) == table.labels[table.keywords[w]];
      forall j: nat | Earliest(s, table.keywords, j) ensures j == w {
        EarliestUnique(s, table.keywords, w, j);
      }
    }
  }

  /** The label `determine_active_label` gives an assay name, with the source's keyword table. */
  function ActiveLabel(assayName: string): (r: Label)
    ensures r in CATEGORIES
  {
    TableWellFormed();
    ActiveLabelInSpec(TABLE, assayName);
    ActiveLabelIn(TABLE, assayName)
  }

  /** One more keyword of the scan. */
  lemma ScanStep(s: string, keywords: seq<string>, i: nat)
    requires i < |keywords|
    ensures var previous := Scan(s, keywords[..i]);
      var firstPosition := match previous case None => |s| case Some(j) => Find(s, keywords[j]);
      Scan(s, keywords[..i + 1]) ==
        if 0 <= Find(s, keywords[i]) < firstPosition then Some(i) else previous
  {
    var p := keywords[..i + 1];
    assert p[..i] == keywords[..i];
    match Scan(s, keywords[..i])
    case None => { }
    case Some(j) => { assert p[j] == keywords[j]; }
  }

  /** The loop of `determine_active_label`, over the keyword table it closes over. */
  method DetermineActiveLabel(table: KeywordTable, assayName: string) returns (active: Label)
    requires WellFormed(table)
    ensures active == ActiveLabelIn(table, assayName)
  {
    var allKeywords := table.keywords;
    var assayNameLower := Lower(assayName);
    var firstKeyword: Option<string> := None;
    var firstPosition := |assayNameLower|;
    ghost var chosen: Option<nat> := None;
    for i := 0 to |allKeywords|
      invariant chosen == Scan(assayNameLower, allKeywords[..i])
      invariant chosen.None? ==> firstKeyword.None? && firstPosition == |assayNameLower|
      invariant chosen.Some? ==> chosen.value < |allKeywords| && firstKeyword == Some(allKeywords[chosen.value]) &&
                                 firstPosition == Find(assayNameLower, allKeywords[chosen.value])
    {
      ScanStep(assayNameLower, allKeywords, i);
      var keyword := allKeywords[i];
      var position := Find(assayNameLower, keyword);
      if 0 <= position < firstPosition {
        firstKeyword := Some(keyword);
        firstPosition := position;
        chosen := Some(i);
      }
    }
    assert allKeywords[..|allKeywords|] == allKeywords;
    if firstKeyword.Some? {
      return table.labels[firstKeyword.value];
    }
    return InhibitorInducerModulator;
  }

  // ---------------------------------------------------------------------------------------------
  // The override rules.

  datatype Rule =
    | KmOrDrugMetabolism  // activity_name is `Km` or `Drug metabolism`
    | SubstratePattern    // the substrate regular expression
    | CypEffectPattern    // the "effect on ... cyp" regular expression
    | InducerPattern      // the induction regular expression
    | Decreasing          // activity_direction contains "decreasing"
    | Increasing          // activity_direction contains "increasing"
    | SpecialAssay        // aid == 1215398

  /** The order in which the masked assignments run. */
  const OVERRIDES: seq<Rule> :=
    [KmOrDrugMetabolism, SubstratePattern, CypEffectPattern, InducerPattern, Decreasing, Increasing, SpecialAssay]

  const SPECIAL_AID: int := 1215398

  function RuleLabel(rule: Rule): Label
  {
    match rule
    case KmOrDrugMetabolism => Substrate
    case SubstratePattern => Substrate
    case CypEffectPattern => InhibitorInducerModulator
    case InducerPattern => Inducer
    case Decreasing => Inhibitor
    case Increasing => Activator
    case SpecialAssay => Inactivator
  }

  /** `(activity of.*oxidation)|(activity at cyp.*phenotyping)|(activity at human recombinant
      cyp.*formation)|(activity at recombinant cyp.*formation)` on the lower-cased name. */
  predicate SubstrateMatch(n: string)
  {
    FollowedOnLine(n, "activity of", "oxidation") || FollowedOnLine(n, "activity at cyp", "phenotyping") ||
    FollowedOnLine(n, "activity at human recombinant cyp", "formation") ||
    FollowedOnLine(n, "activity at recombinant cyp", "formation")
  }

  /** `(effect on cyp)|(effect on human recombinant cyp)|(effect on recombinant cyp)|(effect on human cyp)`. */
  predicate CypEffectMatch(n: string)
  {
    Contains(n, "effect on cyp") || Contains(n, "effect on human recombinant cyp") ||
    Contains(n, "effect on recombinant cyp") || Contains(n, "effect on human cyp")
  }

  /** `(effect on cyp.*induction)|(induction of.*)`. */
  predicate InducerMatch(n: string)
  {
    FollowedOnLine(n, "effect on cyp", "induction") || Contains(n, "induction of")
  }

  /** `str.contains(word, case=False)`; a missing or non-string cell does not contain it. */
  predicate CellContains(v: Value, word: string)
  {
    v.Str? && Contains(Lower(v.s), word)
  }

  predicate Fires(rule: Rule, row: Row)
  {
    match rule
    case KmOrDrugMetabolism => Get(row, "activity_name") in {Str("Km"), Str("Drug metabolism")}
    case SubstratePattern => Get(row, "assay_name").Str? && SubstrateMatch(Lower(Get(row, "assay_name").s))
    case CypEffectPattern => Get(row, "assay_name").Str? && CypEffectMatch(Lower(Get(row, "assay_name").s))
    case InducerPattern => Get(row, "assay_name").Str? && InducerMatch(Lower(Get(row, "assay_name").s))
    case Decreasing => CellContains(Get(row, "activity_direction"), "decreasing")
    case Increasing => CellContains(Get(row, "activity_direction"), "increasing")
    case SpecialAssay => Get(row, "aid") == Int(SPECIAL_AID)
  }

  /** The label after the masked assignments of `rules` have run, in order, over `base`. */
  function LastMatch(rules: seq<Rule>, row: Row, base: Label): Label
  {
    if rules == [] then base
    else
      var before := LastMatch(rules[..|rules| - 1], row, base);
      if Fires(rules[|rules| - 1], row) then RuleLabel(rules[|rules| - 1]) else before
  }

  /** With no rule firing the base label stays. */
  lemma {:induction false} LastMatchNoneFires(rules: seq<Rule>, row: Row, base: Label)
    requires forall i :: 0 <= i < |rules| ==> !Fires(rules[i], row)
    ensures LastMatch(rules, row, base) == base
  {
    if rules != [] {
      var init := rules[..|rules| - 1];
      forall i | 0 <= i < |init| ensures !Fires(init[i], row) {
        assert init[i] == rules[i];
      }
      LastMatchNoneFires(init, row, base);
    }
  }

  /** The last rule that fires decides the label. */
  lemma {:induction false} LastMatchLastFiring(rules: seq<Rule>, row: Row, base: Label, i: nat)
    requires i < |rules| && Fires(rules[i], row)
    requires forall j :: i < j < |rules| ==> !Fires(rules[j], row)
    ensures LastMatch(rules, row, base) == RuleLabel(rules[i])
  {
    var n := |rules| - 1;
    if i < n {
      var init := rules[..n];
      assert !Fires(rules[n], row);
      forall j | i < j < |init| ensures !Fires(init[j], row) {
        assert init[j] == rules[j];
      }
      assert init[i] == rules[i];
      LastMatchLastFiring(init, row, base, i);
    }
  }

  /** Every rule's label is a category, so the overrides keep a category a category. */
  lemma {:induction false} LastMatchInCategories(rules: seq<Rule>, row: Row, base: Label)
    requires base in CATEGORIES
    ensures LastMatch(rules, row, base) in CATEGORIES
  {
    if rules != [] {
      LastMatchInCategories(rules[..|rules| - 1], row, base);
    }
  }

  predicate IsActive(row: Row)
  {
    Get(row, "activity_outcome") == Str("Active")
  }

  /** The `activity` of one row: `Inactive` for an `Inactive` outcome, the keyword label with the
      overrides applied for an `Active` one, and None for any other outcome. */
  function Classify(row: Row): Option<Label>
    requires IsActive(row) ==> Get(row, "assay_name").Str?
  {
    var outcome := Get(row, "activity_outcome");
    if outcome == Str("Inactive") then Some(Inactive)
    else if outcome == Str("Active") then Some(LastMatch(OVERRIDES, row, ActiveLabel(Get(row, "assay_name").s)))
    else None
  }

  /** An `Inactive` outcome stays `Inactive`; an outcome that is neither `Active` nor `Inactive`
      keeps None; an `Active` row always gets one of the eight categories. */
  lemma ClassifyOutcomes(row: Row)
    requires IsActive(row) ==> Get(row, "assay_name").Str?
    ensures Get(row, "activity_outcome") == Str("Inactive") ==> Classify(row) == Some(Inactive)
    ensures Get(row, "activity_outcome") !in {Str("Active"), Str("Inactive")} ==> Classify(row) == None
    ensures IsActive(row) ==> Classify(row).Some? && Classify(row).value in CATEGORIES
  {
    if IsActive(row) {
      LastMatchInCategories(OVERRIDES, row, ActiveLabel(Get(row, "assay_name").s));
    }
  }

  /** The layered overrides on an `Active` row: `aid == 1215398` always gives `Inactivator`;
      otherwise "increasing" in the direction gives `Activator`, and "decreasing" without
      "increasing" gives `Inhibitor`; with no rule firing the keyword label stands. */
  lemma ClassifyOverrides(row: Row)
    requires IsActive(row) && Get(row, "assay_name").Str?
    ensures Get(row, "aid") == Int(SPECIAL_AID) ==> Classify(row) == Some(Inactivator)
    ensures (Get(row, "aid") != Int(SPECIAL_AID) &&
             CellContains(Get(row, "activity_direction"), "increasing")) ==> Classify(row) == Some(Activator)
    ensures (Get(row, "aid") != Int(SPECIAL_AID) &&
             CellContains(Get(row, "activity_direction"), "decreasing") &&
             !CellContains(Get(row, "activity_direction"), "increasing")) ==> Classify(row) == Some(Inhibitor)
    ensures (forall i :: 0 <= i < |OVERRIDES| ==> !Fires(OVERRIDES[i], row)) ==>
            Classify(row) == Some(ActiveLabel(Get(row, "assay_name").s))
  {
    var base := ActiveLabel(Get(row, "assay_name").s);
    if Fires(SpecialAssay, row) {
      LastMatchLastFiring(OVERRIDES, row, base, 6);
    } else if Fires(Increasing, row) {
      LastMatchLastFiring(OVERRIDES, row, base, 5);
    } else if Fires(Decreasing, row) {
      LastMatchLastFiring(OVERRIDES, row, base, 4);
    }
    if forall i :: 0 <= i < |OVERRIDES| ==> !Fires(OVERRIDES[i], row) {
      LastMatchNoneFires(OVERRIDES, row, base);
    }
  }
}
