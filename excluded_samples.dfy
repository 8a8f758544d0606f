/**
 * Derivation of the exclusion list from three quality-control fields:
 * 22020 (passed the genetic-ancestry/PCA quality checks), 22019 (sex
 * chromosome aneuploidy) and 22027 (heterozygosity or missingness outlier).
 * The retrieved table becomes a sequence of `QcRecord`s; the list written to
 * `excluded_samples.tsv` is the returned sequence of identifiers.
 */
module ExcludedSamples {
  import opened Wrappers
  import opened Tables
  import opened VersionOrder
  import opened FieldNames

  /** The quality-control fields, in the order the script requests them. */
  const QcFieldIds: seq<string> := ["22020", "22019", "22027"]

  /** The columns requested from the dataset: the identifier, then the resolved quality-control columns. */
  method ExclusionColumns(candidates: seq<string>) returns (columns: seq<string>)
    ensures columns == ["eid"] + SortByVersion(MatchesFor(QcFieldIds, candidates))
    ensures |columns| >= 1 && columns[0] == "eid"
    ensures Sorted(columns[1..])
    ensures forall c :: c in columns[1..] <==>
              c in candidates && (ColumnMatches(c, "22020") || ColumnMatches(c, "22019") || ColumnMatches(c, "22027"))
  {
    var names := FieldNamesForIds(QcFieldIds, candidates);
    columns := ["eid"] + names;
    assert columns[1..] == names;
    forall c | c in candidates {
      QcMatch(c);
    }
  }

  /** A column belongs to one of the quality-control fields exactly when it matches one of the three. */
  lemma QcMatch(c: string)
    ensures (exists id :: id in QcFieldIds && ColumnMatches(c, id)) <==>
            (ColumnMatches(c, "22020") || ColumnMatches(c, "22019") || ColumnMatches(c, "22027"))
  {
    if ColumnMatches(c, "22020") {
      assert QcFieldIds[0] == "22020";
    }
    if ColumnMatches(c, "22019") {
      assert QcFieldIds[1] == "22019";
    }
    if ColumnMatches(c, "22027") {
      assert QcFieldIds[2] == "22027";
    }
  }

  /**
   * One participant's quality-control cells; `None` is a missing value.
   * `qcPass` is column `p22020`, `aneuploidy` is `p22019`, `outlier` is `p22027`.
   */
  datatype QcRecord = QcRecord(eid: int, qcPass: Option<string>, aneuploidy: Option<string>, outlier: Option<string>)

  function Eid(r: QcRecord): int
  {
    r.eid
  }

  /** The row mask: aneuploidy present, or quality-control pass missing, or outlier present. */
  predicate IsExcluded(r: QcRecord): (excluded: bool)
    ensures r.aneuploidy.Some? ==> excluded
    ensures r.qcPass.None? ==> excluded
    ensures r.outlier.Some? ==> excluded
    ensures r.qcPass.Some? && r.aneuploidy.None? && r.outlier.None? ==> !excluded
  {
    r.aneuploidy.Some? || r.qcPass.None? || r.outlier.Some?
  }

  /** The identifiers of the excluded participants, in table order. */
  function ExcludedSamples(rows: seq<QcRecord>): (eids: seq<int>)
    ensures |eids| <= |rows|
    ensures forall e :: e in eids <==>
              exists r :: r in rows && r.eid == e && (r.aneuploidy.Some? || r.qcPass.None? || r.outlier.Some?)
    ensures IsSubsequence(eids, MapSeq(rows, Eid))
  {
    var kept := KeepWhere(rows, IsExcluded);
    KeepWhereIsSubsequence(rows, IsExcluded);
    SubsequenceMap(kept, rows, Eid);
    var eids := MapSeq(kept, Eid);
    forall e | e in eids
      ensures exists r :: r in rows && r.eid == e && IsExcluded(r)
    {
      var i :| 0 <= i < |eids| && eids[i] == e;
      assert kept[i] in kept;
    }
    forall e | exists r :: r in rows && r.eid == e && IsExcluded(r)
      ensures e in eids
    {
      var r :| r in rows && r.eid == e && IsExcluded(r);
      assert r in kept;
      var i :| 0 <= i < |kept| && kept[i] == r;
      assert eids[i] == e;
    }
    eids
  }

  /**
   * With one row per participant, a participant is excluded exactly when one of
   * the three conditions holds of its row.
   */
  lemma ExclusionIff(rows: seq<QcRecord>, i: nat)
    requires i < |rows|
    requires forall j, k :: 0 <= j < k < |rows| ==> rows[j].eid != rows[k].eid
    ensures rows[i].eid in ExcludedSamples(rows) <==>
              rows[i].aneuploidy.Some? || rows[i].qcPass.None? || rows[i].outlier.Some?
  {
    if rows[i].eid in ExcludedSamples(rows) {
      var r :| r in rows && r.eid == rows[i].eid && IsExcluded(r);
      var j :| 0 <= j < |rows| && rows[j] == r;
      assert j == i;
    }
  }

  /** An aneuploidy flag alone excludes, even with the quality checks passed and no outlier flag. */
  lemma AneuploidyAloneExcludes(eid: int, pass: string, flag: string)
    ensures ExcludedSamples([QcRecord(eid, Some(pass), Some(flag), None)]) == [eid]
  {
    var r := QcRecord(eid, Some(pass), Some(flag), None);
    assert KeepWhere([r], IsExcluded) == [r];
  }

  /** A missing quality-control pass alone excludes. */
  lemma MissingQcPassAloneExcludes(eid: int)
    ensures ExcludedSamples([QcRecord(eid, None, None, None)]) == [eid]
  {
    var r := QcRecord(eid, None, None, None);
    assert KeepWhere([r], IsExcluded) == [r];
  }

  /** A participant who passed the quality checks and has neither flag is kept. */
  lemma CleanParticipantKept(eid: int, pass: string)
    ensures ExcludedSamples([QcRecord(eid, Some(pass), None, None)]) == []
  {
  }

  /** A quality-control column the mask reads is absent from the requested columns. */
  datatype ColumnError = MissingColumn(column: string)

  /** A bare field column (`p<id>`, no instance or array index) is one of that field's columns. */
  lemma BareColumnMatches(id: string)
    ensures ColumnMatches("p" + id, id)
  {
    assert ("p" + id)[|id| + 1..] == [];
  }

  /** A bare quality-control column is requested exactly when the dataset holds it. */
  lemma QcColumnRequested(candidates: seq<string>, columns: seq<string>, name: string)
    requires |columns| >= 1 && columns[0] == "eid"
    requires forall c :: c in columns[1..] <==>
               c in candidates && (ColumnMatches(c, "22020") || ColumnMatches(c, "22019") || ColumnMatches(c, "22027"))
    requires ColumnMatches(name, "22020") || ColumnMatches(name, "22019") || ColumnMatches(name, "22027")
    ensures name in columns <==> name in candidates
  {
    assert columns == [columns[0]] + columns[1..];
    assert name[0] == 'p';
  }

  /** The bare quality-control columns are columns of their fields. */
  lemma QcBareColumns()
    ensures ColumnMatches("p22019", "22019") && ColumnMatches("p22020", "22020") && ColumnMatches("p22027", "22027")
  {
    BareColumnMatches("22019");
    assert "p" + "22019" == "p22019";
    BareColumnMatches("22020");
    assert "p" + "22020" == "p22020";
    BareColumnMatches("22027");
    assert "p" + "22027" == "p22027";
  }

  /**
   * The main flow of the exclusion script: request the columns, then select the
   * excluded participants with the mask over `p22019`, `p22020` and `p22027`,
   * which must be among the requested columns (they are read in that order).
   */
  method GetExcludedSamples(candidates: seq<string>, rows: seq<QcRecord>) returns (result: Result<seq<int>, ColumnError>)
    ensures result.Ok? <==> "p22019" in candidates && "p22020" in candidates && "p22027" in candidates
    ensures "p22019" !in candidates ==> result == Err(MissingColumn("p22019"))
    ensures "p22019" in candidates && "p22020" !in candidates ==> result == Err(MissingColumn("p22020"))
    ensures result.Err? ==> result.error.column !in candidates
    ensures result.Ok? ==> result.value == ExcludedSamples(rows)
  {
    var columns := ExclusionColumns(candidates);
    QcBareColumns();
    QcColumnRequested(candidates, columns, "p22019");
    QcColumnRequested(candidates, columns, "p22020");
    QcColumnRequested(candidates, columns, "p22027");
    if "p22019" !in columns {
      return Err(MissingColumn("p22019"));
    }
    if "p22020" !in columns {
      return Err(MissingColumn("p22020"));
    }
    if "p22027" !in columns {
      return Err(MissingColumn("p22027"));
    }
    result := Ok(ExcludedSamples(rows));
  }
}
