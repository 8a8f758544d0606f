# pheno_prepro in Dafny

A model of the decision logic of `pheno_prepro`. This is a set of scripts that
curate a UK Biobank cohort for a genome-wide association study of LDL
cholesterol. The scripts:

- resolve field identifiers to dataset column names;
- derive the list of participants to exclude on genetic quality control;
- retrieve covariates;
- build the LDL phenotype table with a medication flag and an adjusted value;
- split the cohort into training, validation and test sets.

| file | module | models |
|---|---|---|
| `wrappers.dfy` | `Wrappers` | `Option` (missing cells, optional arguments) and `Result` (error paths) |
| `tables.dfy` | `Tables` | boolean-mask row selection, column projection, and "same rows, same order" as a subsequence relation |
| `text.dfy` | `Text` | substring search with and without letter case, literal replace-all |
| `version_order.dfy` | `VersionOrder` | the version-aware name order: digit runs compare as numbers, other runs as text; plus a sort under it |
| `field_names.dfy` | `FieldNames` | `field_names_for_ids`: the anchored name pattern and the accumulate-then-sort loop |
| `exclusion_filter.dfy` | `ExclusionFilter` | the `~isin(excluded)` filter every script applies |
| `excluded_samples.dfy` | `ExcludedSamples` | the quality-control mask and the exclusion script's main flow |
| `covariates.dfy` | `Covariates` | the covariate column request and the optional exclusion |
| `phenotype.dfy` | `Phenotype` | `get_pheno_df` for `ldl`: header and row steps, medication flag, `LDL_adj` |
| `splits.dfy` | `Splits` | the main block of `make_splits.py`: proportion check, cohort, sizes, slices |

Retrieval from the dataset is replaced by parameters:

- the dataset's `find_fields` query becomes `candidates`, the list of column names the dataset holds;
- a retrieved table becomes a sequence of typed records with `Option` cells;
- the random permutation becomes a parameter that must list the cohort's identifiers once each.

The phenotype transform is stated two ways. `Phenotype.TransformLdl` follows the
script step by step. `Phenotype.LdlRows` is an independent reference that takes
one participant at a time. `Phenotype.RowStepsMatchReference` proves the two
give the same rows.

## Model

| member | source | states |
|---|---|---|
| FieldNames.FieldNamesForIds | pheno_prepro/util.py:4-15 | The result is sorted in the version order. It is a permutation of the per-identifier matches, concatenated in identifier order. A name is in it exactly when it is a candidate matching some requested identifier. No identifiers give no names. The copy in `get_excluded_samples_ukb.py` (lines 10-21) is the same definition, so both copies return the same names for the same inputs. |
| FieldNames.MatchesFor | pheno_prepro/util.py:7-11 | The accumulated list holds exactly the candidates that match one of the identifiers. |
| FieldNames.ColumnsFor | pheno_prepro/util.py:9-11 | One query returns exactly the candidates matching that identifier's pattern. |
| FieldNames.SuffixGrammar | pheno_prepro/util.py:10 | The tail recogniser accepts exactly an optional `_i<digits>` followed by an optional `_a<digits>`. |
| FieldNames.ColumnMatches | pheno_prepro/util.py:10 | A name matching identifier `id` starts with `p<id>`, and that prefix is followed by the end of the name or by `_`. |
| FieldNames.ColumnShape | pheno_prepro/util.py:10 | A name matches identifier `id` iff it is `p<id>`, then an optional instance index, then an optional array index. |
| FieldNames.ColumnOwnerUnique | pheno_prepro/util.py:10 | The pattern is anchored: for digit identifiers, a column matches at most one identifier. |
| FieldNames.NotOwnedByShorterId | pheno_prepro/util.py:10 | A column of a longer digit identifier never matches a shorter one. |
| FieldNames.AnchoredExample | pheno_prepro/util.py:10 | `p30780_i0` matches `30780`, and `p30780` does not match `3`. |
| FieldNames.UnmatchedIdContributesNothing | pheno_prepro/util.py:7-11 | An identifier with no matching column adds nothing and causes no error. |
| VersionOrder.SortByVersion | pheno_prepro/util.py:12-15 | The sorted list is a permutation of its input and is ordered under the version order. |
| VersionOrder.TokensAlternate | pheno_prepro/util.py:14 | A name splits into components that are maximal runs. There are at most as many components as characters. A nonempty name gives a nonempty list whose first component is a number exactly when the name starts with a digit. A number is always followed by text, and text by a number. |
| VersionOrder.VersionReflexive | pheno_prepro/util.py:14 | Every name is at most itself in the version order. With totality and transitivity this makes the order a total preorder, which `sorted` needs. |
| VersionOrder.VersionTotal | pheno_prepro/util.py:14 | Any two names are comparable under the version order. |
| VersionOrder.VersionTransitive | pheno_prepro/util.py:14 | The version order is transitive. |
| VersionOrder.NumericSuffixOrder | pheno_prepro/util.py:14 | With a common prefix ending in a non-digit, digit tails compare by their numeric value. |
| VersionOrder.ExtensionSortsAfter | pheno_prepro/util.py:14 | A name sorts strictly before any extension that starts a new token. |
| VersionOrder.InstanceTwoBeforeTen | pheno_prepro/util.py:12-15 | `p30780_i2` sorts before `p30780_i10`. |
| VersionOrder.FieldThirtyOneFirst | pheno_prepro/util.py:12-15 | `p31` sorts before `p22006`. |
| VersionOrder.BareNameFirst | pheno_prepro/util.py:12-15 | `p22009` sorts before `p22009_a1`. |
| ExclusionFilter.ExcludeRows | pheno_prepro/get_covariates_ukb.py:80 | The kept rows are exactly the rows whose identifier is not in the set. They keep their relative order and contents. A table with nothing to exclude is returned unchanged. |
| ExclusionFilter.ApplyExclusion | pheno_prepro/get_pheno_ukb.py:69-71 | Without a set the table is unchanged. With a set, exactly the rows whose identifier is outside it remain, in order. |
| ExclusionFilter.ExcludeRowsIdempotent | pheno_prepro/get_covariates_ukb.py:80 | Filtering twice with the same set equals filtering once. |
| ExclusionFilter.ExcludeNothing | pheno_prepro/make_splits.py:58-66 | The empty set used when no exclusion file is given removes no row. |
| ExcludedSamples.ExclusionColumns | pheno_prepro/get_excluded_samples_ukb.py:39-47 | The request is `eid`, then the sorted resolver output for 22020, 22019 and 22027. Beyond `eid` it holds exactly the candidates of those three fields. |
| ExcludedSamples.IsExcluded | pheno_prepro/get_excluded_samples_ukb.py:58-62 | Each of the three conditions excludes a row on its own: aneuploidy present, quality-control pass missing, outlier present. A row meeting none of them is kept. |
| ExcludedSamples.ExcludedSamples | pheno_prepro/get_excluded_samples_ukb.py:58-62 | An identifier is output iff some row with it has the aneuploidy flag, lacks the quality-control pass, or has the outlier flag. The output is a subsequence of the `eid` column. |
| ExcludedSamples.ExclusionIff | pheno_prepro/get_excluded_samples_ukb.py:58-62 | With one row per participant, a participant is excluded iff `p22019` is present, or `p22020` is missing, or `p22027` is present. |
| ExcludedSamples.AneuploidyAloneExcludes | pheno_prepro/get_excluded_samples_ukb.py:59 | An aneuploidy flag excludes even when the quality checks passed and no outlier flag is set. |
| ExcludedSamples.MissingQcPassAloneExcludes | pheno_prepro/get_excluded_samples_ukb.py:60 | A missing quality-control pass alone excludes. |
| ExcludedSamples.CleanParticipantKept | pheno_prepro/get_excluded_samples_ukb.py:58-62 | A participant who passed and has neither flag is not excluded. |
| ExcludedSamples.GetExcludedSamples | pheno_prepro/get_excluded_samples_ukb.py:45-62 | The script succeeds iff the dataset holds `p22019`, `p22020` and `p22027`. A missing `p22019` is reported first. With `p22019` present, a missing `p22020` is reported next. Any error names a column the dataset lacks. On success the output is the masked identifier list. |
| Covariates.CovariateColumns | pheno_prepro/get_covariates_ukb.py:55-64 | The request is `eid`, then the sorted resolver output for 22006, 22009, 31 and 21022. Beyond `eid` it holds exactly those fields' candidates. |
| Covariates.FilterCovariates | pheno_prepro/get_covariates_ukb.py:75-80 | Without an exclusion list the table is unchanged. With one, exactly the rows whose `eid` is outside it remain, unaltered and in order. |
| Covariates.FilterCovariatesIdempotent | pheno_prepro/get_covariates_ukb.py:80 | Applying the filter twice with the same list gives the same table as applying it once. |
| Text.Find | pheno_prepro/get_pheno_ukb.py:92-95 | The scan answers true exactly when the pattern occurs at some position of the text. |
| Text.FindIgnoringCase | pheno_prepro/get_pheno_ukb.py:86-91 | The scan answers true exactly when the pattern occurs at some position with letter case ignored. |
| Text.ReplaceAll | pheno_prepro/get_pheno_ukb.py:75 | Replacing the pattern by itself changes nothing. A replacement of the same length keeps the length. A shorter replacement never lengthens the name, and strictly shortens a name that contains the pattern. |
| Text.ReplaceAllAbsent | pheno_prepro/get_pheno_ukb.py:75 | A name without the pattern is left unchanged by the substitution. |
| Text.ReplaceAllLeading | pheno_prepro/get_pheno_ukb.py:75 | A leading occurrence is replaced and the substitution continues after it. |
| Phenotype.GetPhenoDf | pheno_prepro/get_pheno_ukb.py:27-109 | A phenotype other than `ldl` is refused before any column is resolved. For `ldl`, the result is an error iff one of `LDL_0`, `LDL_1`, `p6153_i0`, `p6177_i0` is missing after the renames. The rows equal the reference rows. The header starts with `s` and holds exactly the surviving columns plus `LDL`, `cholesterol_med` and `LDL_adj`. No column contains `p6153` or `p6177`. |
| Phenotype.TransformLdl | pheno_prepro/get_pheno_ukb.py:64-105 | A header with neither `eid` nor `s` fails with a missing `s`, as `df['s']` does after the rename. Otherwise it succeeds iff `LDL_0`, `LDL_1`, `p6153_i0` and `p6177_i0` are present after the renames. `LDL_0` is reported first among those, and an error names a column that is absent. On success the rows equal the reference rows, and the header holds exactly the surviving columns plus the three added ones. `s` comes first when the header started with `eid`. |
| Phenotype.EidToSample | pheno_prepro/get_pheno_ukb.py:65 | A column is named `s` after the rename iff it was `eid` or `s`. Only `eid` changes its name. |
| Phenotype.SampleColumnAfterRename | pheno_prepro/get_pheno_ukb.py:65-66 | After the rename the header has an `s` column iff the retrieved header had `eid` or `s`. |
| Phenotype.Derive | pheno_prepro/get_pheno_ukb.py:78-105 | A kept row's `s` is its `eid` and its `LDL` is its instance-0 value. `cholesterol_med` is 0 or 1, and 1 iff one of the two answers contains the medication text (ignoring case for `p6153_i0`). `LDL_adj` times 0.7 is `LDL` when medicated, and `LDL_adj` equals `LDL` otherwise. |
| Phenotype.LdlRows | pheno_prepro/get_pheno_ukb.py:69-105 | The output holds the derived row of every participant who is not excluded and has instance-0 LDL, and no other rows. No output `s` is excluded. `cholesterol_med` is 0 or 1. `LDL_adj` is `LDL / 0.7` when it is 1 and `LDL` otherwise. |
| Phenotype.RowStepsMatchReference | pheno_prepro/get_pheno_ukb.py:69-105 | Exclusion, then dropping rows without `LDL`, then deriving the new cells gives exactly the reference rows. |
| Phenotype.LdlRowsKeepOrder | pheno_prepro/get_pheno_ukb.py:69-80 | The output `s` column is a subsequence of the retrieved `eid` column: row order is preserved. |
| Phenotype.RowKeptIff | pheno_prepro/get_pheno_ukb.py:69-80 | With one row per participant, a participant has an output row iff they are not excluded and their instance-0 LDL is present. |
| Phenotype.Instance1Ignored | pheno_prepro/get_pheno_ukb.py:78-80 | Changing any instance-1 LDL value leaves the output rows unchanged. |
| Phenotype.CholesterolMed | pheno_prepro/get_pheno_ukb.py:82-96 | The flag is 0 or 1. It is 1 iff the `p6153_i0` answer contains the medication text ignoring case, or the `p6177_i0` answer contains it exactly. Missing answers never match. |
| Phenotype.AdjustedLdl | pheno_prepro/get_pheno_ukb.py:102-105 | When medicated, the adjusted value times 0.7 gives back `LDL`. Otherwise it equals `LDL`. |
| Phenotype.SetColumn | pheno_prepro/get_pheno_ukb.py:78 | Assigning a column keeps every existing column in place. A new name is appended. Assigning an existing name leaves the header unchanged. |
| Phenotype.HeaderAfterSteps | pheno_prepro/get_pheno_ukb.py:78-102 | The header after the column steps holds the three added columns `LDL`, `cholesterol_med` and `LDL_adj`: neither drop removes them. |
| Phenotype.HeaderStepsColumns | pheno_prepro/get_pheno_ukb.py:78-102 | After the column steps, the header holds exactly the renamed columns other than `LDL_0`, `LDL_1` and those containing `p6153` or `p6177`, plus the three added columns. No medication column survives. |
| Phenotype.HeaderStepsKeepFirst | pheno_prepro/get_pheno_ukb.py:78-102 | The identifier column `s` stays first through the column steps. |
| Phenotype.RequiredColumnsSurvive | pheno_prepro/get_pheno_ukb.py:78-83 | Adding `LDL` and dropping the instance columns neither adds nor removes `LDL_1`, `p6153_i0` or `p6177_i0`. |
| Phenotype.RenameInstanceColumn | pheno_prepro/get_pheno_ukb.py:75 | `p30780_i<digits>` is renamed `LDL_<digits>`. |
| Phenotype.RenameColumn | pheno_prepro/get_pheno_ukb.py:75 | The rename never lengthens a name. A name is unchanged iff it does not contain `p30780_i`. |
| Phenotype.RenameExamples | pheno_prepro/get_pheno_ukb.py:75 | `p30780_i0` becomes `LDL_0` and `p30780_i1` becomes `LDL_1`. `p6153_i0` is unchanged. |
| Phenotype.CapitalisedAnswerFlaggedFor6153 | pheno_prepro/get_pheno_ukb.py:86-91 | "Cholesterol Lowering Medication" in `p6153_i0` sets the flag. |
| Phenotype.CapitalisedAnswerNotFlaggedFor6177 | pheno_prepro/get_pheno_ukb.py:92-95 | The same capitalised answer in `p6177_i0` does not set the flag. The exact text does. |
| Phenotype.MissingAnswersNotFlagged | pheno_prepro/get_pheno_ukb.py:82-96 | Two missing answers give flag 0. |
| Splits.PrepareTable | pheno_prepro/make_splits.py:64-74 | A row survives iff its `s` is not excluded and, unless missing values are allowed, none of its cells is missing. |
| Splits.PrepareStepsCommute | pheno_prepro/make_splits.py:64-74 | Dropping excluded participants and dropping incomplete rows commute: either order gives the same table. |
| ExclusionFilter.ExcludeRowsCommute | pheno_prepro/make_splits.py:64-74 | The exclusion filter commutes with any other row selection. |
| Splits.CohortSamples | pheno_prepro/make_splits.py:64-79 | An identifier is in the cohort iff it is not excluded and has a surviving row in both the phenotype and the covariate table. |
| Splits.PySlice | pheno_prepro/make_splits.py:88-90 | Inside the bounds, slicing is the ordinary subsequence. A negative bound of at least `-len` counts from the end. A stop bound beyond the end is clipped to the end. A stop bound of at most `-len` gives the empty slice, and so does a start past the stop. A slice from 0 is a prefix, and a slice to the end is a suffix. |
| Splits.TruncTowardZero | pheno_prepro/make_splits.py:84-85 | `int()` on a fraction of the cohort size truncates toward zero: it rounds a nonnegative value down and a negative value up. |
| Splits.ProportionsAccepted | pheno_prepro/make_splits.py:49 | The check as written accepts every valid pair of fractions. Beyond those, it accepts exactly the pairs with a sum below one and a negative fraction. |
| Splits.SplitAsWritten | pheno_prepro/make_splits.py:84-90 | For any fractions, the code as written makes the training piece a prefix of the shuffled list and the test piece a suffix. Neither piece is longer than the list. |
| Splits.NegativeProportionOverlaps | pheno_prepro/make_splits.py:49 | The fractions -0.5 and 0.5 pass the check. The pieces of `[1, 2]` are then `[1]`, `[]` and `[1, 2]`: sample 1 appears twice and three entries come from two samples. |
| Splits.PartitionSizes | pheno_prepro/make_splits.py:84-86 | For valid fractions, `floor(N*train)` and `floor(N*val)` are nonnegative and sum to at most `N`, so the test size is nonnegative. |
| Splits.Split | pheno_prepro/make_splits.py:83-90 | Train, validation and test concatenate back to the shuffled cohort. Their sizes are `floor(N*train)`, `floor(N*val)` and `N - n_train - n_val`. |
| Splits.SplitAgreesWhenValid | pheno_prepro/make_splits.py:84-90 | For nonnegative fractions summing below one, the code as written (truncation, Python slices) equals the corrected split. |
| Splits.PiecesDisjoint | pheno_prepro/make_splits.py:88-90 | Contiguous pieces of a list without repeats share no identifier, and together they hold exactly the list's identifiers. |
| Splits.MakeSplits | pheno_prepro/make_splits.py:48-90 | Invalid fractions are rejected before any table is used. Otherwise the pieces are the corrected split of the shuffled cohort and are pairwise disjoint. Their union is exactly the cohort, and no excluded identifier appears. |

## Left out

- Dataset discovery and retrieval (`find_one_data_object`, `load_dataset`, `retrieve_fields`, Spark, `toPandas`) are calls into the hosting platform. They become the `candidates` list and record-sequence parameters.
- Argument parsing, TSV reading and writing, and the diagnostic `print`/`value_counts` output are I/O with no decisions in them.
- `np.random.seed(147)` and `np.random.permutation` are replaced by the `perm` parameter. It may be any ordering of the cohort, so the properties hold for every shuffle, not just NumPy's.
- Floating point: fractions, LDL values and `LDL / 0.7` are exact `real`s. `int(N * fraction)` is exact truncation (`Splits.Trunc`) or floor. IEEE rounding is not modelled.
- VersionOrder.SortByVersion: `LooseVersion` splits a name at digit runs, letter runs and dots. It keeps digit runs as numbers, keeps letter runs and any other text between them as text components, and drops the dots. So `p30780_i2` becomes `p`, 30780, `_`, `i`, 2. The model instead keeps each maximal non-digit run as one component (`_i`). The two orders agree on resolver output (`p<digits>`, `_i<digits>`, `_a<digits>`): the non-digit runs there are `p`, `_i` and `_a`, and comparing `_i` with `_a` as one component or as `_` then `i`/`a` gives the same answer.
- VersionOrder.SortByVersion: where a number meets text at the same position, Python 3 raises `TypeError`. The model places the number first instead.
- VersionOrder.SortByVersion: stability of `sorted` is not stated. Ties arise only between names with equal tokens, such as `_i1` and `_i01`.
- FieldNames.ColumnMatches: `\d` is read as ASCII digits. The identifier is inserted into the pattern unescaped, which matters only for non-digit identifiers. The script passes only digit identifiers.
- Phenotype.CholesterolMed, Text.FindIgnoringCase: `case=False` folds letter case by Unicode rules. The model folds ASCII letters only.
- Phenotype.CholesterolMed: `astype(str)` turns a missing cell into the text `nan` or `None`. The model keeps it as `None`. Neither text contains the medication text, so the flag agrees.
- Phenotype.RawRecord holds only the cells the transform reads (`eid`, both LDL instances, both medication answers). The cells of other surviving columns, such as further LDL instances, are carried in the header model but not in the rows.
- Phenotype.TransformLdl: `astype(int)` on `s` is not modelled, because identifiers are integers from the start. Frames with duplicate column labels are not considered.
- Splits.TsvRow: both tables are read with the identifier column `s`. The covariate script writes its identifier column as `eid`, so its output needs that column renamed before `make_splits.py` can read it. The resulting lookup error is not modelled.
- Splits.MakeSplits: a failed check is modelled as an error result, without the `AssertionError` traceback. Its check is the corrected one from Findings, so it also refuses negative fractions, which the script accepts.
- The commented-out `get_pheno_fields` in `get_pheno_ukb.py` is dead code.

## Findings

| source | as written | input that shows it | evidently intended | confidence | as-written member | corrected member |
|---|---|---|---|---|---|---|
| pheno_prepro/make_splits.py:49 | Only `train + val < 1` is checked. A negative fraction passes, `int()` truncates it to a negative size, and a negative slice bound counts from the end of the shuffled list. | `train = -0.5`, `val = 0.5`, cohort `[1, 2]`: train is `[1]`, validation is `[]`, test is `[1, 2]`. Sample 1 is in both train and test. | Both fractions are nonnegative, so the three pieces partition the cohort with sizes `floor(N*train)`, `floor(N*val)` and the rest. | not executed; high that the overlap follows from the code, medium that negative input was meant to be refused | Splits.NegativeProportionOverlaps | Splits.Split |
