/**
 * The covariates script: request the identifier plus the columns of fields
 * 22006 (White British ancestry), 22009 (genetic principal components),
 * 31 (sex) and 21022 (age at recruitment), then drop the excluded
 * participants when an exclusion list is given.
 */
module Covariates {
  import opened Wrappers
  import opened Tables
  import opened VersionOrder
  import opened FieldNames
  import opened ExclusionFilter

  /** The covariate fields, in the order the script requests them. */
  const CovariateFieldIds: seq<string> := ["22006", "22009", "31", "21022"]

  /** The columns requested from the dataset: the identifier, then the resolved covariate columns. */
  method CovariateColumns(candidates: seq<string>) returns (columns: seq<string>)
    ensures columns == ["eid"] + SortByVersion(MatchesFor(CovariateFieldIds, candidates))
    ensures |columns| >= 1 && columns[0] == "eid"
    ensures Sorted(columns[1..])
    ensures forall c :: c in columns[1..] <==>
              c in candidates &&
              (ColumnMatches(c, "22006") || ColumnMatches(c, "22009") || ColumnMatches(c, "31") || ColumnMatches(c, "21022"))
  {
    var names := FieldNamesForIds(CovariateFieldIds, candidates);
    columns := ["eid"] + names;
    assert columns[1..] == names;
    forall c | c in candidates {
      CovariateMatch(c);
    }
  }

  /** A column belongs to one of the covariate fields exactly when it matches one of the four. */
  lemma CovariateMatch(c: string)
    ensures (exists id :: id in CovariateFieldIds && ColumnMatches(c, id)) <==>
            (ColumnMatches(c, "22006") || ColumnMatches(c, "22009") || ColumnMatches(c, "31") || ColumnMatches(c, "21022"))
  {
    if ColumnMatches(c, "22006") {
      assert CovariateFieldIds[0] == "22006";
    }
    if ColumnMatches(c, "22009") {
      assert CovariateFieldIds[1] == "22009";
    }
    if ColumnMatches(c, "31") {
      assert CovariateFieldIds[2] == "31";
    }
    if ColumnMatches(c, "21022") {
      assert CovariateFieldIds[3] == "21022";
    }
  }

  /** One participant's row: the identifier and the covariate cells (`None` for a missing value). */
  datatype CovariateRecord = CovariateRecord(eid: int, values: seq<Option<string>>)

  function Eid(r: CovariateRecord): int
  {
    r.eid
  }

  /** The table written out: unchanged without an exclusion list, otherwise the rows not excluded. */
  function FilterCovariates(table: seq<CovariateRecord>, excluded: Option<set<int>>): (out: seq<CovariateRecord>)
    ensures excluded.None? ==> out == table
    ensures excluded.Some? ==> forall r :: r in out <==> r in table && r.eid !in excluded.value
    ensures IsSubsequence(out, table)
  {
    ApplyExclusion(table, Eid, excluded)
  }

  /** Filtering twice with the same list gives the same table as filtering once. */
  lemma FilterCovariatesIdempotent(table: seq<CovariateRecord>, excluded: Option<set<int>>)
    ensures FilterCovariates(FilterCovariates(table, excluded), excluded) == FilterCovariates(table, excluded)
  {
    if excluded.Some? {
      ExcludeRowsIdempotent(table, Eid, excluded.value);
    }
  }
}
