/**
 * `get_pheno_df` for the LDL phenotype: resolve the columns of fields 30780
 * (LDL direct), 6153 and 6177 (medication, two questionnaire variants),
 * retrieve them, then transform the frame step by step into one row per
 * participant with `s`, `LDL`, `cholesterol_med` and `LDL_adj`.
 *
 * The frame is modelled as its header (`columns`) and its rows. A retrieved
 * row is a `RawRecord` holding the cells the transform reads; its header
 * steps (renames, column assignments, drops) are applied to `columns`, its
 * row steps (filters, derived cells) to the rows.
 */
module Phenotype {
  import opened Wrappers
  import opened Tables
  import opened Text
  import opened VersionOrder
  import opened FieldNames
  import opened ExclusionFilter

  /** The fields of the LDL phenotype, in the order the script requests them. */
  const PhenoFieldIds: seq<string> := ["30780", "6153", "6177"]

  /** The answer text that marks cholesterol-lowering medication. */
  const MedicationText: string := "Cholesterol lowering medication"

  /** Conversion factor of the medication adjustment: treated LDL is divided by 0.7. */
  const StatinFactor: real := 0.7

  /**
   * One retrieved participant row: `eid`, the two LDL instances (`p30780_i0`,
   * `p30780_i1`) and the two medication answers (`p6153_i0`, `p6177_i0`);
   * `None` is a missing value.
   */
  datatype RawRecord = RawRecord(eid: int, ldl0: Option<real>, ldl1: Option<real>, med6153: Option<string>, med6177: Option<string>)

  /** One output row: `s`, `LDL`, `cholesterol_med` and `LDL_adj`. */
  datatype LdlRecord = LdlRecord(s: int, ldl: real, cholesterolMed: int, ldlAdj: real)

  datatype PhenoError =
    | UnsupportedPhenotype(name: string)   // the phenotype is not `ldl`
    | MissingColumn(column: string)        // a column the transform reads is absent

  /** The frame returned: its header and its rows. */
  datatype PhenoTable = PhenoTable(columns: seq<string>, rows: seq<LdlRecord>)

  function Eid(r: RawRecord): int
  {
    r.eid
  }

  function Sample(o: LdlRecord): int
  {
    o.s
  }

  /** The rename of the identifier column, `eid` to `s`. */
  function EidToSample(c: string): (r: string)
    ensures r == "s" <==> c == "eid" || c == "s"
    ensures r != c ==> c == "eid"
  {
    if c == "eid" then "s" else c
  }

  /** The rename of the LDL columns: every `p30780_i` in a name becomes `LDL_`. */
  function RenameColumn(c: string): (r: string)
    ensures |r| <= |c|
    ensures r == c <==> !Contains(c, "p30780_i")
  {
    if Find(c, "p30780_i") then ReplaceAll(c, "p30780_i", "LDL_")
    else
      ReplaceAllAbsent(c, "p30780_i", "LDL_");
      c
  }

  /** Column assignment: a new name is appended, an existing one keeps its place. */
  function SetColumn(columns: seq<string>, name: string): (r: seq<string>)
    ensures forall c :: c in r <==> c in columns || c == name
    ensures columns <= r
    ensures name !in columns ==> r == columns + [name]
    ensures name in columns ==> r == columns
  {
    if name in columns then columns else columns + [name]
  }

  /**
   * The medication flag: 1 when the `p6153_i0` answer contains the medication
   * text ignoring letter case, or the `p6177_i0` answer contains it with exact
   * case; a missing answer never matches.
   */
  function CholesterolMed(med6153: Option<string>, med6177: Option<string>): (flag: int)
    ensures flag == 0 || flag == 1
    ensures flag == 1 <==>
              (med6153.Some? && ContainsIgnoringCase(med6153.value, MedicationText)) ||
              (med6177.Some? && Contains(med6177.value, MedicationText))
  {
    var female := med6153.Some? && FindIgnoringCase(med6153.value, MedicationText);
    var male := med6177.Some? && Find(med6177.value, MedicationText);
    if female || male then 1 else 0
  }

  /** The medication-adjusted LDL: undone by the factor when medicated, unchanged otherwise. */
  function AdjustedLdl(ldl: real, med: int): (adj: real)
    ensures med == 1 ==> adj * StatinFactor == ldl
    ensures med != 1 ==> adj == ldl
  {
    if med == 1 then ldl / StatinFactor else ldl
  }

  /** `LDL` has a value (the row survives `dropna(subset=['LDL'])`, `LDL` being a copy of `LDL_0`). */
  predicate HasLdl(r: RawRecord)
  {
    r.ldl0.Some?
  }

  predicate NotExcluded(eid: int, excluded: Option<set<int>>)
  {
    excluded.None? || eid !in excluded.value
  }

  /** The output row of a kept participant. */
  function Derive(r: RawRecord): (o: LdlRecord)
    requires HasLdl(r)
    ensures o.s == r.eid && o.ldl == r.ldl0.value
    ensures o.cholesterolMed == 1 <==>
              (r.med6153.Some? && ContainsIgnoringCase(r.med6153.value, MedicationText)) ||
              (r.med6177.Some? && Contains(r.med6177.value, MedicationText))
    ensures o.cholesterolMed == 0 || o.cholesterolMed == 1
    ensures o.cholesterolMed == 1 ==> o.ldlAdj * StatinFactor == o.ldl
    ensures o.cholesterolMed == 0 ==> o.ldlAdj == o.ldl
  {
    var med := CholesterolMed(r.med6153, r.med6177);
    LdlRecord(r.eid, r.ldl0.value, med, AdjustedLdl(r.ldl0.value, med))
  }

  /**
   * Reference definition of the output rows, one participant at a time: a row
   * is kept when it is not excluded and its instance-0 LDL is present.
   */
  function LdlRows(raw: seq<RawRecord>, excluded: Option<set<int>>): (out: seq<LdlRecord>)
    ensures |out| <= |raw|
    ensures forall r :: r in raw && NotExcluded(r.eid, excluded) && HasLdl(r) ==> Derive(r) in out
    ensures forall o :: o in out ==> exists r :: r in raw && NotExcluded(r.eid, excluded) && HasLdl(r) && o == Derive(r)
    ensures forall o :: o in out ==> NotExcluded(o.s, excluded)
    ensures forall o :: o in out ==>
              (o.cholesterolMed == 0 || o.cholesterolMed == 1) &&
              o.ldlAdj == (if o.cholesterolMed == 1 then o.ldl / StatinFactor else o.ldl)
  {
    if raw == [] then []
    else
      var rest := LdlRows(raw[1..], excluded);
      var r := raw[0];
      assert forall x :: x in raw[1..] ==> x in raw;
      if NotExcluded(r.eid, excluded) && HasLdl(r) then [Derive(r)] + rest else rest
  }

  /** Output rows keep the input order of the participants. */
  lemma {:induction false} LdlRowsKeepOrder(raw: seq<RawRecord>, excluded: Option<set<int>>)
    ensures IsSubsequence(MapSeq(LdlRows(raw, excluded), Sample), MapSeq(raw, Eid))
  {
    if raw != [] {
      LdlRowsKeepOrder(raw[1..], excluded);
      var rest := LdlRows(raw[1..], excluded);
      var ids := MapSeq(raw, Eid);
      assert ids[1..] == MapSeq(raw[1..], Eid);
      assert [raw[0].eid] + ids[1..] == ids;
      if NotExcluded(raw[0].eid, excluded) && HasLdl(raw[0]) {
        var outIds := MapSeq([Derive(raw[0])] + rest, Sample);
        assert outIds[1..] == MapSeq(rest, Sample);
        assert outIds[0] == ids[0];
      } else {
        SubsequenceExtend(MapSeq(rest, Sample), ids[1..], raw[0].eid);
      }
    }
  }

  /** The instance-1 LDL value never influences the output rows. */
  lemma {:induction false} Instance1Ignored(raw: seq<RawRecord>, other: seq<RawRecord>, excluded: Option<set<int>>)
    requires |other| == |raw|
    requires forall i :: 0 <= i < |raw| ==> other[i] == raw[i].(ldl1 := other[i].ldl1)
    ensures LdlRows(other, excluded) == LdlRows(raw, excluded)
  {
    if raw != [] {
      Instance1Ignored(raw[1..], other[1..], excluded);
    }
  }

  /** The step-by-step row pipeline (exclusion, then `dropna`, then the derived cells) is the reference. */
  lemma {:induction false} RowStepsMatchReference(raw: seq<RawRecord>, excluded: Option<set<int>>)
    ensures MapSeq(KeepWhere(ApplyExclusion(raw, Eid, excluded), HasLdl), Derive) == LdlRows(raw, excluded)
  {
    if raw != [] {
      RowStepsMatchReference(raw[1..], excluded);
      ApplyExclusionCons(raw, Eid, excluded);
      var r := raw[0];
      var tail := ApplyExclusion(raw[1..], Eid, excluded);
      var rest := LdlRows(raw[1..], excluded);
      if NotExcluded(r.eid, excluded) {
        assert ApplyExclusion(raw, Eid, excluded) == [r] + tail;
        KeepWhereCons(r, tail, HasLdl);
        if HasLdl(r) {
          var kept := KeepWhere(tail, HasLdl);
          assert KeepWhere([r] + tail, HasLdl) == [r] + kept;
          MapSeqCons(r, kept, Derive);
          assert LdlRows(raw, excluded) == [Derive(r)] + rest;
        } else {
          assert KeepWhere([r] + tail, HasLdl) == KeepWhere(tail, HasLdl);
          assert LdlRows(raw, excluded) == rest;
        }
      } else {
        assert ApplyExclusion(raw, Eid, excluded) == tail;
        assert LdlRows(raw, excluded) == rest;
      }
    }
  }

  /** The LDL row is kept exactly when the participant is not excluded and instance 0 is present. */
  lemma RowKeptIff(raw: seq<RawRecord>, excluded: Option<set<int>>, i: nat)
    requires i < |raw|
    requires forall j, k :: 0 <= j < k < |raw| ==> raw[j].eid != raw[k].eid
    ensures (exists o :: o in LdlRows(raw, excluded) && o.s == raw[i].eid) <==>
              NotExcluded(raw[i].eid, excluded) && raw[i].ldl0.Some?
  {
    if NotExcluded(raw[i].eid, excluded) && raw[i].ldl0.Some? {
      assert Derive(raw[i]) in LdlRows(raw, excluded);
    }
    if exists o :: o in LdlRows(raw, excluded) && o.s == raw[i].eid {
      var o :| o in LdlRows(raw, excluded) && o.s == raw[i].eid;
      var r :| r in raw && NotExcluded(r.eid, excluded) && HasLdl(r) && o == Derive(r);
      var j :| 0 <= j < |raw| && raw[j] == r;
      assert j == i;
    }
  }

  /** The columns requested from the dataset: `eid`, then the resolved LDL and medication columns. */
  function RequestedColumns(candidates: seq<string>): seq<string>
  {
    ["eid"] + SortByVersion(MatchesFor(PhenoFieldIds, candidates))
  }

  /** A header after both renames (`eid` to `s`, `p30780_i` to `LDL_`). */
  function Renamed(columns: seq<string>): seq<string>
  {
    MapSeq(MapSeq(columns, EidToSample), RenameColumn)
  }

  /** A source column that survives the transform: not an LDL instance column and not a medication column. */
  ghost predicate KeptSourceColumn(c: string, source: seq<string>)
  {
    c in source && c != "LDL_0" && c != "LDL_1" && !Contains(c, "p6153") && !Contains(c, "p6177")
  }

  /** The columns `drop(['LDL_0', 'LDL_1'])` keeps. */
  predicate NotInstanceColumn(c: string)
  {
    c != "LDL_0" && c != "LDL_1"
  }

  /** The columns `drop(df.filter(regex='p6153|p6177').columns)` keeps. */
  predicate NotMedicationColumn(c: string)
  {
    !Find(c, "p6153") && !Find(c, "p6177")
  }

  /**
   * The header steps after the renames (add `LDL`, drop the instance columns,
   * add `cholesterol_med`, drop the medication columns, add `LDL_adj`): they
   * keep exactly the surviving source columns and the three added ones, and no
   * medication column survives.
   */
  function HeaderAfterSteps(source: seq<string>): (header: seq<string>)
    ensures "LDL" in header && "cholesterol_med" in header && "LDL_adj" in header
  {
    var withLdl := KeepWhere(SetColumn(source, "LDL"), NotInstanceColumn);
    var withMed := KeepWhere(SetColumn(withLdl, "cholesterol_med"), NotMedicationColumn);
    AddedColumnsNotDropped();
    SurvivesStep(source, "LDL", NotInstanceColumn, "LDL");
    SurvivesStep(withLdl, "cholesterol_med", NotMedicationColumn, "LDL");
    SurvivesStep(withLdl, "cholesterol_med", NotMedicationColumn, "cholesterol_med");
    SetColumn(withMed, "LDL_adj")
  }

  /** A column present after an assignment and not matched by the following drop survives both. */
  lemma SurvivesStep(columns: seq<string>, name: string, keep: string -> bool, c: string)
    requires (c in columns || c == name) && keep(c)
    ensures c in KeepWhere(SetColumn(columns, name), keep)
  {
  }

  /**
   * The header steps keep exactly the surviving source columns and the three
   * added ones, and no medication column survives.
   */
  lemma HeaderStepsColumns(source: seq<string>)
    ensures forall c :: c in HeaderAfterSteps(source) <==>
              KeptSourceColumn(c, source) || c == "LDL" || c == "cholesterol_med" || c == "LDL_adj"
    ensures forall c :: c in HeaderAfterSteps(source) ==> !Contains(c, "p6153") && !Contains(c, "p6177")
  {
    NewColumnsKept();
  }

  /** Adding `LDL` and dropping the instance columns leave the other columns the transform reads where they were. */
  lemma RequiredColumnsSurvive(source: seq<string>)
    ensures "LDL_1" in SetColumn(source, "LDL") <==> "LDL_1" in source
    ensures "p6153_i0" in KeepWhere(SetColumn(source, "LDL"), NotInstanceColumn) <==> "p6153_i0" in source
    ensures "p6177_i0" in KeepWhere(SetColumn(source, "LDL"), NotInstanceColumn) <==> "p6177_i0" in source
  {
    assert "LDL_1" != "LDL";
    assert "p6153_i0" != "LDL" && NotInstanceColumn("p6153_i0");
    assert "p6177_i0" != "LDL" && NotInstanceColumn("p6177_i0");
  }

  /** The header steps keep the identifier column in first place. */
  lemma HeaderStepsKeepFirst(source: seq<string>)
    requires source != [] && source[0] == "s"
    ensures |HeaderAfterSteps(source)| > 0 && HeaderAfterSteps(source)[0] == "s"
  {
    NewColumnsKept();
    var h1 := SetColumn(source, "LDL");
    var h2 := KeepWhere(h1, NotInstanceColumn);
    var h3 := SetColumn(h2, "cholesterol_med");
    assert h1[0] == "s";
    KeepWhereHead(h1, NotInstanceColumn);
    assert h3[0] == "s";
    KeepWhereHead(h3, NotMedicationColumn);
  }

  /** A string without the first letter of a pattern does not contain the pattern. */
  lemma AbsentLetter(text: string, pat: string)
    requires pat != [] && forall i :: 0 <= i < |text| ==> text[i] != pat[0]
    ensures !Contains(text, pat)
  {
    forall i
      ensures !OccursAt(text, pat, i)
    {
      if 0 <= i && i + |pat| <= |text| {
        assert text[i..i + |pat|][0] == text[i];
      }
    }
  }

  /** An instance column of field 30780 becomes `LDL_` followed by the instance number. */
  lemma RenameInstanceColumn(d: string)
    requires AllDigits(d)
    ensures RenameColumn("p30780_i" + d) == "LDL_" + d
  {
    ReplaceAllLeading("p30780_i", d, "LDL_");
    forall i | 0 <= i < |d|
      ensures d[i] != 'p'
    {
      assert IsDigit(d[i]);
    }
    AbsentLetter(d, "p30780_i");
    ReplaceAllAbsent(d, "p30780_i", "LDL_");
  }

  /**
   * `get_pheno_df`: dispatch on the phenotype, resolve the columns, then
   * transform the retrieved frame. The retrieved rows are given as `retrieved`;
   * an unsupported phenotype is refused before anything is resolved.
   */
  method GetPhenoDf(pheno: string, candidates: seq<string>, retrieved: seq<RawRecord>, excluded: Option<set<int>>)
    returns (result: Result<PhenoTable, PhenoError>)
    ensures pheno != "ldl" ==> result == Err(UnsupportedPhenotype(pheno))
    ensures pheno == "ldl" ==>
              (result.Ok? <==> RequiredColumnsPresent(Renamed(RequestedColumns(candidates))))
    ensures pheno == "ldl" && "LDL_0" !in Renamed(RequestedColumns(candidates)) ==> result == Err(MissingColumn("LDL_0"))
    ensures pheno == "ldl" && result.Err? ==>
              result.error.MissingColumn? && result.error.column !in Renamed(RequestedColumns(candidates))
    ensures result.Ok? ==> result.value.rows == LdlRows(retrieved, excluded)
    ensures result.Ok? ==> |result.value.columns| > 0 && result.value.columns[0] == "s"
    ensures result.Ok? ==>
              forall c :: c in result.value.columns <==>
                KeptSourceColumn(c, Renamed(RequestedColumns(candidates))) || c == "LDL" || c == "cholesterol_med" || c == "LDL_adj"
    ensures result.Ok? ==> forall c :: c in result.value.columns ==> !Contains(c, "p6153") && !Contains(c, "p6177")
  {
    if pheno != "ldl" {
      return Err(UnsupportedPhenotype(pheno));
    }
    var names := FieldNamesForIds(PhenoFieldIds, candidates);
    assert HasSampleColumn(["eid"] + names);
    result := TransformLdl(["eid"] + names, retrieved, excluded);
  }

  /** The retrieved header has an identifier column, `eid` or already `s`. */
  predicate HasSampleColumn(columns: seq<string>)
  {
    "eid" in columns || "s" in columns
  }

  /** After the `eid` rename, `s` is a column exactly when the header had `eid` or `s`. */
  lemma SampleColumnAfterRename(columns: seq<string>)
    ensures "s" in MapSeq(columns, EidToSample) <==> HasSampleColumn(columns)
  {
    var renamed := MapSeq(columns, EidToSample);
    if "s" in renamed {
      var i :| 0 <= i < |renamed| && renamed[i] == "s";
      assert columns[i] in columns;
    }
    if "eid" in columns {
      var i :| 0 <= i < |columns| && columns[i] == "eid";
      assert renamed[i] == "s";
    } else if "s" in columns {
      var i :| 0 <= i < |columns| && columns[i] == "s";
      assert renamed[i] == "s";
    }
  }

  /** The four columns the transform reads, after the renames. */
  predicate RequiredColumnsPresent(source: seq<string>)
  {
    "LDL_0" in source && "LDL_1" in source && "p6153_i0" in source && "p6177_i0" in source
  }

  /**
   * The LDL transform of a retrieved frame with header `columns`: rename the
   * identifier, drop excluded participants, rename the LDL instance columns,
   * copy `LDL_0` into `LDL`, drop both instances and the rows without `LDL`,
   * add `cholesterol_med`, drop the medication columns and add `LDL_adj`.
   * A column the transform reads that is absent is an error.
   */
  method TransformLdl(columns: seq<string>, retrieved: seq<RawRecord>, excluded: Option<set<int>>)
    returns (result: Result<PhenoTable, PhenoError>)
    ensures result.Ok? <==> HasSampleColumn(columns) && RequiredColumnsPresent(Renamed(columns))
    ensures !HasSampleColumn(columns) ==> result == Err(MissingColumn("s"))
    ensures HasSampleColumn(columns) && "LDL_0" !in Renamed(columns) ==> result == Err(MissingColumn("LDL_0"))
    ensures result.Err? ==>
              && result.error.MissingColumn?
              && (if result.error.column == "s" then !HasSampleColumn(columns) else result.error.column !in Renamed(columns))
    ensures result.Ok? ==> result.value.rows == LdlRows(retrieved, excluded)
    ensures result.Ok? && columns != [] && columns[0] == "eid" ==>
              |result.value.columns| > 0 && result.value.columns[0] == "s"
    ensures result.Ok? ==>
              forall c :: c in result.value.columns <==>
                KeptSourceColumn(c, Renamed(columns)) || c == "LDL" || c == "cholesterol_med" || c == "LDL_adj"
    ensures result.Ok? ==> forall c :: c in result.value.columns ==> !Contains(c, "p6153") && !Contains(c, "p6177")
  {
    var header := columns;
    var rows := retrieved;

    // the identifier column is renamed and then read, so it must be present
    header := MapSeq(header, EidToSample);
    SampleColumnAfterRename(columns);
    if "s" !in header {
      return Err(MissingColumn("s"));
    }

    // excluded participants are dropped
    rows := ApplyExclusion(rows, Eid, excluded);

    // the LDL instance columns are renamed
    header := MapSeq(header, RenameColumn);
    ghost var source := header;
    assert source == Renamed(columns);
    if columns != [] && columns[0] == "eid" {
      assert RenameColumn("s") == "s";
      assert source[0] == "s";
    }

    // `LDL` is a copy of `LDL_0`
    if "LDL_0" !in header {
      return Err(MissingColumn("LDL_0"));
    }
    header := SetColumn(header, "LDL");
    RequiredColumnsSurvive(source);

    // both instance columns are dropped (`LDL_0` is present at this point)
    if "LDL_1" !in header {
      return Err(MissingColumn("LDL_1"));
    }
    header := KeepWhere(header, NotInstanceColumn);
    rows := KeepWhere(rows, HasLdl);

    // the medication answers are read as text
    if "p6153_i0" !in header {
      return Err(MissingColumn("p6153_i0"));
    }
    if "p6177_i0" !in header {
      return Err(MissingColumn("p6177_i0"));
    }

    // the medication flag is added and the medication columns are dropped
    header := SetColumn(header, "cholesterol_med");
    header := KeepWhere(header, NotMedicationColumn);

    // `LDL_adj` is added: `LDL`, divided by the factor where medicated
    header := SetColumn(header, "LDL_adj");
    var out := MapSeq(rows, Derive);

    RowStepsMatchReference(retrieved, excluded);
    assert header == HeaderAfterSteps(source);
    HeaderStepsColumns(source);
    if columns != [] && columns[0] == "eid" {
      HeaderStepsKeepFirst(source);
    }
    result := Ok(PhenoTable(header, out));
  }

  /** Neither drop removes a column the transform adds. */
  lemma AddedColumnsNotDropped()
    ensures NotInstanceColumn("LDL") && NotMedicationColumn("LDL") && NotMedicationColumn("cholesterol_med")
  {
    NewColumnsKept();
  }

  /** The three columns the transform adds contain neither medication field number. */
  lemma NewColumnsKept()
    ensures !Contains("s", "p6153") && !Contains("s", "p6177")
    ensures !Contains("LDL", "p6153") && !Contains("LDL", "p6177")
    ensures !Contains("cholesterol_med", "p6153") && !Contains("cholesterol_med", "p6177")
    ensures !Contains("LDL_adj", "p6153") && !Contains("LDL_adj", "p6177")
  {
    AbsentLetter("s", "p6153");
    AbsentLetter("s", "p6177");
    AbsentLetter("LDL", "p6153");
    AbsentLetter("LDL", "p6177");
    AbsentLetter("cholesterol_med", "p6153");
    AbsentLetter("cholesterol_med", "p6177");
    AbsentLetter("LDL_adj", "p6153");
    AbsentLetter("LDL_adj", "p6177");
  }

  /** A pattern occurs in a text of its own length only when the two are equal. */
  lemma SameLengthContains(text: string, pat: string)
    requires |text| == |pat|
    ensures Contains(text, pat) <==> text == pat
  {
    assert OccursAt(text, pat, 0) <==> text == pat by {
      assert text[0..|pat|] == text;
    }
  }

  /** The `p6153_i0` answer is matched ignoring letter case. */
  lemma CapitalisedAnswerFlaggedFor6153()
    ensures CholesterolMed(Some("Cholesterol Lowering Medication"), None) == 1
  {
    var capitalised := "Cholesterol Lowering Medication";
    // the two spellings differ only in `L`/`l` at index 12 and `M`/`m` at index 21
    forall j | 0 <= j < |MedicationText|
      ensures LowerChar(capitalised[j]) == LowerChar(MedicationText[j])
    {
      if j != 12 && j != 21 {
        assert capitalised[j] == MedicationText[j];
      }
    }
    assert OccursAtIgnoringCase(capitalised, MedicationText, 0);
  }

  /** The `p6177_i0` answer is matched with exact case: a capitalised answer does not count, the exact one does. */
  lemma CapitalisedAnswerNotFlaggedFor6177()
    ensures CholesterolMed(None, Some("Cholesterol Lowering Medication")) == 0
    ensures CholesterolMed(None, Some(MedicationText)) == 1
  {
    var capitalised := "Cholesterol Lowering Medication";
    SameLengthContains(capitalised, MedicationText);
    assert capitalised[12] != MedicationText[12];
    SameLengthContains(MedicationText, MedicationText);
  }

  /** Missing answers never flag medication. */
  lemma MissingAnswersNotFlagged()
    ensures CholesterolMed(None, None) == 0
  {
  }

  /** The first instance column is renamed `LDL_0`; the medication columns keep their names. */
  lemma RenameExamples()
    ensures RenameColumn("p30780_i0") == "LDL_0"
    ensures RenameColumn("p30780_i1") == "LDL_1"
    ensures RenameColumn("p6153_i0") == "p6153_i0"
  {
    RenameInstanceColumn("0");
    assert "p30780_i" + "0" == "p30780_i0";
    RenameInstanceColumn("1");
    assert "p30780_i" + "1" == "p30780_i1";
    SameLengthContains("p6153_i0", "p30780_i");
    assert "p6153_i0"[1] != "p30780_i"[1];
  }
}
