/**
 * The train/validation/test split of the cohort: drop excluded participants
 * and, unless allowed, rows with a missing value from the phenotype and the
 * covariate tables; intersect their sample identifiers; shuffle; cut the
 * shuffled list into three contiguous pieces whose sizes are the requested
 * fractions of the cohort, rounded down.
 *
 * The shuffle is a parameter: any ordering of the cohort's identifiers.
 */
module Splits {
  import opened Wrappers
  import opened Tables
  import opened ExclusionFilter

  /** One row of a table read from disk: the sample identifier `s` and the other cells (`None` for a missing value). */
  datatype TsvRow = TsvRow(s: int, cells: seq<Option<string>>)

  /** The three pieces, each a list of sample identifiers. */
  datatype Partition = Partition(train: seq<int>, val: seq<int>, test: seq<int>)

  datatype SplitError = ProportionsRejected

  function SampleId(r: TsvRow): int
  {
    r.s
  }

  /** The row has no missing cell (it survives `dropna()`). */
  predicate Complete(r: TsvRow)
  {
    forall i :: 0 <= i < |r.cells| ==> r.cells[i].Some?
  }

  /** The exclusion set in use: the list read from disk, or the empty set without one. */
  function ExclusionSet(exclude: Option<set<int>>): set<int>
  {
    if exclude.Some? then exclude.value else {}
  }

  /** One table after the exclusion filter and, unless missing values are allowed, `dropna()`. */
  function PrepareTable(rows: seq<TsvRow>, excluded: set<int>, allowMissing: bool): (kept: seq<TsvRow>)
    ensures forall r :: r in kept <==> r in rows && r.s !in excluded && (allowMissing || Complete(r))
  {
    var admitted := ExcludeRows(rows, SampleId, excluded);
    if allowMissing then admitted else KeepWhere(admitted, Complete)
  }

  /** Dropping excluded participants and dropping incomplete rows commute: the order of the two steps does not matter. */
  lemma PrepareStepsCommute(rows: seq<TsvRow>, excluded: set<int>)
    ensures KeepWhere(ExcludeRows(rows, SampleId, excluded), Complete) ==
            ExcludeRows(KeepWhere(rows, Complete), SampleId, excluded)
  {
    ExcludeRowsCommute(rows, SampleId, excluded, Complete);
  }

  /** The set of sample identifiers of a table. */
  function Ids(rows: seq<TsvRow>): set<int>
  {
    set r | r in rows :: r.s
  }

  /** The identifiers of a prepared table: those not excluded with a surviving row. */
  lemma IdsOfPrepared(rows: seq<TsvRow>, excluded: set<int>, allowMissing: bool)
    ensures forall x :: x in Ids(PrepareTable(rows, excluded, allowMissing)) <==>
              x !in excluded && exists r :: r in rows && r.s == x && (allowMissing || Complete(r))
  {
    var kept := PrepareTable(rows, excluded, allowMissing);
    forall x | x in Ids(kept)
      ensures x !in excluded && exists r :: r in rows && r.s == x && (allowMissing || Complete(r))
    {
      var r :| r in kept && r.s == x;
      assert r in rows;
    }
    forall x | x !in excluded && exists r :: r in rows && r.s == x && (allowMissing || Complete(r))
      ensures x in Ids(kept)
    {
      var r :| r in rows && r.s == x && (allowMissing || Complete(r));
      assert r in kept;
    }
  }

  /** The cohort: the identifiers present in both prepared tables. */
  function CohortSamples(pheno: seq<TsvRow>, covar: seq<TsvRow>, excluded: set<int>, allowMissingPheno: bool, allowMissingCovar: bool)
    : (samples: set<int>)
    ensures forall x :: x in samples <==>
              x !in excluded &&
              (exists r :: r in pheno && r.s == x && (allowMissingPheno || Complete(r))) &&
              (exists r :: r in covar && r.s == x && (allowMissingCovar || Complete(r)))
  {
    IdsOfPrepared(pheno, excluded, allowMissingPheno);
    IdsOfPrepared(covar, excluded, allowMissingCovar);
    Ids(PrepareTable(pheno, excluded, allowMissingPheno)) * Ids(PrepareTable(covar, excluded, allowMissingCovar))
  }

  /** Python's `int()` on a float: truncation toward zero. */
  function Trunc(x: real): int
  {
    if x >= 0.0 then x.Floor else -((-x).Floor)
  }

  /** Truncation rounds toward zero: down for a nonnegative value, up for a negative one. */
  lemma TruncTowardZero(x: real)
    ensures 0.0 <= x ==> Trunc(x) as real <= x < Trunc(x) as real + 1.0
    ensures x < 0.0 ==> Trunc(x) as real - 1.0 < x <= Trunc(x) as real
  {
  }

  /** A slice bound as Python normalises it: a negative bound counts from the end, then it is clipped to the sequence. */
  function ClampIndex(i: int, n: nat): (k: nat)
    ensures k <= n
    ensures 0 <= i <= n ==> k == i
    ensures i < 0 && 0 <= n + i ==> k == n + i
    ensures n + i < 0 ==> k == 0
    ensures n < i ==> k == n
  {
    if i < 0 then (if i + n < 0 then 0 else i + n) else if i > n then n else i
  }

  /** `s[lo:hi]` with Python's slice semantics. */
  function PySlice<T>(s: seq<T>, lo: int, hi: int): (r: seq<T>)
    ensures 0 <= lo <= hi <= |s| ==> r == s[lo..hi]
    ensures -|s| <= lo < 0 && 0 <= hi <= |s| ==> r == (if |s| + lo <= hi then s[|s| + lo..hi] else [])
    ensures 0 <= lo <= |s| && -|s| <= hi < 0 ==> r == (if lo <= |s| + hi then s[lo..|s| + hi] else [])
    ensures 0 <= lo <= |s| < hi ==> r == s[lo..]
    ensures hi <= -|s| ==> r == []
    ensures |r| <= |s|
    ensures lo == 0 ==> r <= s
    ensures hi == |s| ==> r == s[|s| - |r|..]
  {
    var a, b := ClampIndex(lo, |s|), ClampIndex(hi, |s|);
    if a <= b then s[a..b] else []
  }

  /** The proportion check as written: only the sum is bounded. */
  predicate ProportionsAccepted(train: real, val: real): (accepted: bool)
    ensures accepted <==> ValidProportions(train, val) || (train + val < 1.0 && (train < 0.0 || val < 0.0))
  {
    train + val < 1.0
  }

  /** The split as written: sizes by truncation, pieces by Python slicing. */
  function SplitAsWritten(samples: seq<int>, train: real, val: real): (p: Partition)
    ensures p.train <= samples
    ensures |p.val| <= |samples| && |p.test| <= |samples|
    ensures p.test == samples[|samples| - |p.test|..]
  {
    var n := |samples|;
    var nTrain := Trunc(n as real * train);
    var nVal := Trunc(n as real * val);
    Partition(PySlice(samples, 0, nTrain), PySlice(samples, nTrain, nTrain + nVal), PySlice(samples, nTrain + nVal, n))
  }

  /**
   * A negative training fraction passes the check, and the negative size then
   * counts from the end of the list: the first sample lands in both the
   * training and the test piece, and the pieces hold three entries for two
   * samples.
   */
  lemma NegativeProportionOverlaps()
    ensures ProportionsAccepted(-0.5, 0.5)
    ensures var p := SplitAsWritten([1, 2], -0.5, 0.5);
            p.train == [1] && p.val == [] && p.test == [1, 2] &&
            1 in p.train && 1 in p.test && |p.train| + |p.val| + |p.test| == 3
  {
    var s := [1, 2];
    assert Trunc(2 as real * -0.5) == -1;
    assert Trunc(2 as real * 0.5) == 1;
    assert PySlice(s, 0, -1) == s[0..1];
    assert PySlice(s, -1, 0) == [];
    assert PySlice(s, 0, 2) == s;
  }

  /** The intended check: both fractions nonnegative and their sum below one. */
  predicate ValidProportions(train: real, val: real)
  {
    0.0 <= train && 0.0 <= val && train + val < 1.0
  }

  lemma NonNegProduct(a: real, b: real)
    requires 0.0 <= a && 0.0 <= b
    ensures 0.0 <= a * b
  {
  }

  lemma ProductAtMost(a: real, b: real)
    requires 0.0 <= a && b <= 1.0
    ensures a * b <= a
  {
    NonNegProduct(a, 1.0 - b);
    assert a * (1.0 - b) == a - a * b;
  }

  /** For valid fractions the two rounded-down sizes fit in the cohort. */
  lemma PartitionSizes(n: nat, train: real, val: real)
    requires ValidProportions(train, val)
    ensures 0 <= (n as real * train).Floor
    ensures 0 <= (n as real * val).Floor
    ensures (n as real * train).Floor + (n as real * val).Floor <= n
  {
    var x, y := n as real * train, n as real * val;
    NonNegProduct(n as real, train);
    NonNegProduct(n as real, val);
    assert x + y == n as real * (train + val);
    ProductAtMost(n as real, train + val);
    assert x.Floor as real <= x && y.Floor as real <= y;
    assert (x.Floor + y.Floor) as real <= n as real;
  }

  /**
   * The split of a shuffled cohort: the first `floor(N*train)` samples train,
   * the next `floor(N*val)` validate, the rest test.
   */
  function Split(samples: seq<int>, train: real, val: real): (p: Partition)
    requires ValidProportions(train, val)
    ensures p.train + p.val + p.test == samples
    ensures |p.train| == (|samples| as real * train).Floor
    ensures |p.val| == (|samples| as real * val).Floor
    ensures |p.test| == |samples| - |p.train| - |p.val| >= 0
  {
    var n := |samples|;
    var nTrain := (n as real * train).Floor;
    var nVal := (n as real * val).Floor;
    PartitionSizes(n, train, val);
    assert samples[..nTrain] + samples[nTrain..nTrain + nVal] + samples[nTrain + nVal..] == samples;
    Partition(samples[..nTrain], samples[nTrain..nTrain + nVal], samples[nTrain + nVal..])
  }

  /** For valid fractions the code as written and the corrected split agree. */
  lemma SplitAgreesWhenValid(samples: seq<int>, train: real, val: real)
    requires ValidProportions(train, val)
    ensures SplitAsWritten(samples, train, val) == Split(samples, train, val)
  {
    PartitionSizes(|samples|, train, val);
  }

  /** No identifier occurs twice. */
  predicate Distinct(s: seq<int>)
  {
    forall i, j :: 0 <= i < j < |s| ==> s[i] != s[j]
  }

  /** `perm` lists every element of `samples` exactly once. */
  predicate IsPermutationOf(perm: seq<int>, samples: set<int>)
  {
    Distinct(perm) && (set x | x in perm) == samples
  }

  /** Cutting a list without repeats gives three pieces with no identifier in common, which together hold the list. */
  lemma {:induction false} PiecesDisjoint(a: seq<int>, b: seq<int>, c: seq<int>)
    requires Distinct(a + b + c)
    ensures forall x :: x in a ==> x !in b && x !in c
    ensures forall x :: x in b ==> x !in c
    ensures forall x :: x in a + b + c <==> x in a || x in b || x in c
  {
    var s := a + b + c;
    forall x | x in a
      ensures x !in b && x !in c
    {
      var i :| 0 <= i < |a| && a[i] == x;
      assert s[i] == x;
      forall j | 0 <= j < |b|
        ensures b[j] != x
      {
        assert s[|a| + j] == b[j];
      }
      forall j | 0 <= j < |c|
        ensures c[j] != x
      {
        assert s[|a| + |b| + j] == c[j];
      }
    }
    forall x | x in b
      ensures x !in c
    {
      var i :| 0 <= i < |b| && b[i] == x;
      assert s[|a| + i] == x;
      forall j | 0 <= j < |c|
        ensures c[j] != x
      {
        assert s[|a| + |b| + j] == c[j];
      }
    }
  }

  /**
   * The main block after argument parsing: check the fractions, read the tables
   * (given as `pheno` and `covar`), drop excluded participants and, unless
   * allowed, incomplete rows, intersect the identifiers and cut the shuffled
   * cohort `perm` into the three pieces.
   */
  method MakeSplits(pheno: seq<TsvRow>, covar: seq<TsvRow>, exclude: Option<set<int>>, train: real, val: real,
                    allowMissingCovar: bool, allowMissingPheno: bool, perm: seq<int>)
    returns (result: Result<Partition, SplitError>)
    requires ValidProportions(train, val) ==>
               IsPermutationOf(perm, CohortSamples(pheno, covar, ExclusionSet(exclude), allowMissingPheno, allowMissingCovar))
    ensures !ValidProportions(train, val) <==> result == Err(ProportionsRejected)
    ensures result.Ok? ==> result.value == Split(perm, train, val)
    ensures result.Ok? ==> result.value.train + result.value.val + result.value.test == perm
    ensures result.Ok? ==>
              var p := result.value;
              && (forall x :: x in p.train ==> x !in p.val && x !in p.test)
              && (forall x :: x in p.val ==> x !in p.test)
              && (forall x :: x in p.train || x in p.val || x in p.test <==>
                     x in CohortSamples(pheno, covar, ExclusionSet(exclude), allowMissingPheno, allowMissingCovar))
    ensures result.Ok? && exclude.Some? ==>
              forall x :: x in result.value.train || x in result.value.val || x in result.value.test ==> x !in exclude.value
  {
    if !ValidProportions(train, val) {
      return Err(ProportionsRejected);
    }
    var excluded := ExclusionSet(exclude);

    // excluded participants are removed from both tables
    var phenoRows := ExcludeRows(pheno, SampleId, excluded);
    var covarRows := ExcludeRows(covar, SampleId, excluded);

    // incomplete rows are removed unless allowed
    if !allowMissingCovar {
      covarRows := KeepWhere(covarRows, Complete);
    }
    if !allowMissingPheno {
      phenoRows := KeepWhere(phenoRows, Complete);
    }

    // the cohort is the identifiers present in both tables
    var samples := Ids(phenoRows) * Ids(covarRows);
    assert samples == CohortSamples(pheno, covar, excluded, allowMissingPheno, allowMissingCovar);

    var parts := Split(perm, train, val);
    PiecesDisjoint(parts.train, parts.val, parts.test);
    result := Ok(parts);
  }
}
