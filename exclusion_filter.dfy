/**
 * The exclusion filter every script applies: keep the rows whose participant
 * identifier is not in the exclusion set (`df[~df[id].isin(excluded)]`).
 * Each table names its identifier column differently (`eid` or `s`), so the
 * identifier is passed as a projection `id`.
 */
module ExclusionFilter {
  import opened Wrappers
  import opened Tables

  /** Set difference on the identifier column, keeping row order and row contents. */
  function ExcludeRows<R(!new)>(rows: seq<R>, id: R -> int, excluded: set<int>): (kept: seq<R>)
    ensures forall r :: r in kept <==> r in rows && id(r) !in excluded
    ensures IsSubsequence(kept, rows)
    ensures (forall r :: r in rows ==> id(r) !in excluded) ==> kept == rows
  {
    KeepWhereIsSubsequence(rows, r => id(r) !in excluded);
    KeepWhere(rows, r => id(r) !in excluded)
  }

  /** The optional form: when no exclusion set is given the table is returned unchanged. */
  function ApplyExclusion<R(!new)>(rows: seq<R>, id: R -> int, excluded: Option<set<int>>): (kept: seq<R>)
    ensures excluded.None? ==> kept == rows
    ensures excluded.Some? ==> forall r :: r in kept <==> r in rows && id(r) !in excluded.value
    ensures IsSubsequence(kept, rows)
  {
    if excluded.Some? then ExcludeRows(rows, id, excluded.value)
    else
      SubsequenceReflexive(rows);
      rows
  }

  /** Excluding twice with the same set is the same as excluding once. */
  lemma ExcludeRowsIdempotent<R(!new)>(rows: seq<R>, id: R -> int, excluded: set<int>)
    ensures ExcludeRows(ExcludeRows(rows, id, excluded), id, excluded) == ExcludeRows(rows, id, excluded)
  {
  }

  /** The filter decides row by row: the first row is kept or dropped on its own identifier. */
  lemma ApplyExclusionCons<R(!new)>(rows: seq<R>, id: R -> int, excluded: Option<set<int>>)
    requires rows != []
    ensures ApplyExclusion(rows, id, excluded) ==
              (if excluded.None? || id(rows[0]) !in excluded.value then [rows[0]] else []) + ApplyExclusion(rows[1..], id, excluded)
  {
  }

  /** Excluding and then selecting with another mask is selecting and then excluding. */
  lemma ExcludeRowsCommute<R(!new)>(rows: seq<R>, id: R -> int, excluded: set<int>, keep: R -> bool)
    ensures KeepWhere(ExcludeRows(rows, id, excluded), keep) == ExcludeRows(KeepWhere(rows, keep), id, excluded)
  {
    KeepWhereCommute(rows, r => id(r) !in excluded, keep);
  }

  /** An empty exclusion set removes nothing. */
  lemma ExcludeNothing<R(!new)>(rows: seq<R>, id: R -> int)
    ensures ExcludeRows(rows, id, {}) == rows
  {
  }
}
