# Driftguard-ML: a verified model of the drift and data-preparation core

Driftguard-ML watches a tabular model for data drift. A reference frame is
compared with a current frame column by column. Each column gets its
Population Stability Index (PSI, over ten equal-width buckets of the
reference) and a two-sample Kolmogorov-Smirnov test. The largest defined PSI
decides whether to ask for retraining (threshold 0.25, exit code 2). Around
that decision sit three more programs, modelled here as well:

- a data-quality gate that runs four checks in a fixed order and stops at the first failure;
- a flight-data preprocessor. It picks source columns by candidate names, derives `year`, `Delayed` and `dep_hour`, and splits the rows into a reference year and a current year;
- the feature selection of the training script.

The Dafny modules follow the Python files:

| module | file | content |
|---|---|---|
| `Tables` | — | pandas frames as named, typed columns of optional cells; lookup, NaN dropping, float and int casts |
| `Drift` | src/drift.py | `psi` with numpy's histogram rules, the `ks_test` guard, `detect_drift` as a loop |
| `DriftProperties` | src/drift.py | what `psi` promises: NaNs ignored, PSI ≥ 0, PSI of a sample with itself is 0, the constant-reference branch, the Eps floor |
| `CheckDrift` | src/check_drift.py | numeric-column choice, `max_psi`, status, exit codes, `main` |
| `ValidateData` | src/validate_data.py | the four checks, required columns, target choice, the gate's `main` |
| `PreprocessFlights` | src/data/preprocess_flights.py | `_pick`, `_extract_year`, `_extract_dep_hour`, the `Delayed` label, keep/rename/drop, the year split |
| `Train` | src/train.py | `_detect_feature_types` and the feature-column filter with its two errors |

Arithmetic is exact (`real`). The natural logarithm is a parameter `ln`. The
properties that need it assume only `Drift.LnLaws`: ln(1) = 0, and ln is
strictly increasing on the positive reals. The KS statistic and p-value come
from an oracle `ks`. The Great Expectations run is an oracle
`expectations`. Date parsing is an oracle `dateYear`. A NaN or missing cell
is `None`. A file is `NotFound`, `LoadFails` or `Loads(frame)`.

## Model

| member | source | states |
|---|---|---|
| Tables.Present | src/drift.py:26-27 | NaN removal keeps exactly the present values and is empty iff every entry is NaN; the same function is `dropna()` at src/validate_data.py:33 |
| Drift.Shares | src/drift.py:47-48 | one share per bucket, its count over max(total, 1), between 0 and 1 |
| Drift.Proportions | src/drift.py:47-50 | one proportion per bucket in [Eps, 1]: the bucket's share, raised to Eps when below it |
| Drift.ConstantShare | src/drift.py:36-38 | the share of the current sample within Eps of the constant lies in [Eps, 1] |
| Drift.BucketPcts | src/drift.py:32-50 | expected and actual proportions have equal, positive length and lie in [Eps, 1] |
| Drift.Psi | src/drift.py:24-55 | PSI is undefined (NaN) exactly when either sample has no present value |
| Drift.KsTest | src/drift.py:66-75 | both results are NaN together, exactly when either sample is all NaN; otherwise they are the KS oracle on the present values |
| Drift.DetectDrift | src/drift.py:87-100 | the keys are the requested columns present in both frames; each record is that column's PSI/KS metrics; it raises iff some such column cannot be read as floats, and the column a failure carries is one that cannot be read, with every earlier such column readable |
| DriftProperties.PresentConcat | src/drift.py:26-27 | NaN removal distributes over concatenation |
| DriftProperties.PresentInsertNone | src/drift.py:26-27 | inserting a NaN anywhere leaves the present values unchanged |
| DriftProperties.MissingValuesIgnored | src/drift.py:24-27 | inserting a NaN anywhere in either sample changes neither PSI nor the KS result |
| DriftProperties.RatioUnclipped | src/drift.py:53 | for proportions in [Eps, 1] the ratio clip at [Eps, 1/Eps] never changes the ratio |
| DriftProperties.TermNonNegative | src/drift.py:52-54 | each bucket term (a - e) * ln(a / e) is non-negative |
| DriftProperties.PsiNonNegative | src/drift.py:52-55 | a defined PSI is never negative |
| DriftProperties.PsiSelf | src/drift.py:24-55 | PSI of a sample with itself is 0 |
| DriftProperties.ZeroRangeIsConstant | src/drift.py:33 | a zero range means every value equals the minimum |
| DriftProperties.ConstantReference | src/drift.py:33-38 | a constant reference at c gives a single bucket: expected [1], actual the clipped share near c |
| DriftProperties.ConstantReferencePsi | src/drift.py:33-54 | then PSI is (q - 1) * ln(q) for that share q |
| DriftProperties.ConstantMatched | src/drift.py:33-55 | a constant reference and a current sample equal to the same constant give PSI 0 |
| DriftProperties.FloorTermPositive | src/drift.py:38 | the floor share Eps gives a strictly positive term |
| DriftProperties.ConstantDisjoint | src/drift.py:33-55 | a constant reference and a current sample with no value near it give PSI (Eps - 1) * ln(Eps) |
| DriftProperties.ConstantDisjointDrifts | src/drift.py:33-55 | that PSI is strictly positive: a current sample away from a constant reference always shows drift |
| DriftProperties.EdgesWithin | src/drift.py:40 | histogram edges start at the minimum, end at the maximum and stay inside that range |
| DriftProperties.EdgesIncreasing | src/drift.py:40 | the equal-width edges of a non-constant reference grow strictly |
| DriftProperties.InExactlyOneBin | src/drift.py:45-46 | with numpy's rule (half-open buckets, the last one closed) every value from the first to the last edge lies in exactly one bucket |
| DriftProperties.HistogramTotal | src/drift.py:45-46 | a sample within the outer edges is counted once per value: the counts total its size |
| DriftProperties.ReferenceFullyCounted | src/drift.py:40-47 | the reference histogram counts every reference value, its maximum included, so `expected_counts.sum()` is the sample size |
| DriftProperties.ReferenceBucketUnique | src/drift.py:40-46 | every value in the reference's range lies in exactly one of its buckets |
| DriftProperties.DegenerateEdgesUnreachable | src/drift.py:41-43 | with exact arithmetic a non-constant reference never has zero-range edges |
| DriftProperties.HistogramBranch | src/drift.py:39-50 | a non-constant reference uses the clipped histogram proportions |
| DriftProperties.ScaledSum | src/drift.py:47-48 | dividing every count by the same denominator divides their sum by it |
| DriftProperties.SharesSumToOne | src/drift.py:47-48 | with at least one count, the shares over max(total, 1) add up to exactly 1 |
| DriftProperties.ReferenceShares | src/drift.py:40-48 | the reference's shares are its bucket counts over its size and add up to 1 before clipping |
| DriftProperties.ProportionsOfNothing | src/drift.py:47-50 | all-zero counts give proportion Eps in every bucket (the max(sum, 1) denominator) |
| DriftProperties.OutsideRangeFloor | src/drift.py:45-50 | a current sample wholly outside the reference range gets Eps in all buckets |
| CheckDrift.NumericColumns | src/check_drift.py:36-40 | a name is compared iff its reference dtype is numeric and the current frame has that name |
| CheckDrift.NumericColumnsConcat | src/check_drift.py:36-40 | the compared names keep the reference's column order |
| CheckDrift.NumericColumnsInBoth | src/check_drift.py:36-40 | every compared column is present in both frames, so none is skipped |
| CheckDrift.PsiValues | src/check_drift.py:50 | exactly the defined PSI values of the reported features |
| CheckDrift.MaxPsi | src/check_drift.py:51 | None iff no value; otherwise a value of the list at least every other value |
| CheckDrift.StatusOf | src/check_drift.py:56 | "retrain" iff max_psi is defined and ≥ 0.25, otherwise "ok" |
| CheckDrift.ExitCode | src/check_drift.py:61-68 | 2 iff the status is "retrain", 0 iff it is "ok" |
| CheckDrift.RetrainIffSomeFeatureDrifted | src/check_drift.py:50-56 | retraining is asked for iff some feature's defined PSI reaches 0.25 |
| CheckDrift.Check | src/check_drift.py:22-68 | 1 on a missing or unreadable file or when drift raises; the "no_numeric_columns" report with 0; otherwise a report of every compared column, with its max_psi, status and code |
| ValidateData.RequiredColumns | src/validate_data.py:15-20 | the reference's columns if it exists, the default list if not, an error if it cannot be read |
| ValidateData.TargetFor | src/validate_data.py:112 | "target" if required, else the first required column, else "target" |
| ValidateData.MissingColumns | src/validate_data.py:24 | exactly the required names the frame lacks |
| ValidateData.MissingColumnsConcat | src/validate_data.py:24 | the missing list keeps the required order |
| ValidateData.CheckRequiredColumns | src/validate_data.py:23-27 | passes iff every required name is a column; a failure lists the missing ones |
| ValidateData.CastAll | src/validate_data.py:37-39 | the int cast fails iff some value is text; otherwise the truncated values |
| ValidateData.CastPresent | src/validate_data.py:34-37 | after `dropna`, the int cast fails iff some present cell is text; otherwise the value set holds exactly the truncations of the present cells |
| ValidateData.BinaryValues | src/validate_data.py:37-41 | the set of truncated values lies within {0, 1} iff every present cell truncates to 0 or 1 |
| ValidateData.TextNotBinary | src/validate_data.py:37-39 | a target holding text is not binary |
| ValidateData.CheckTargetBinary | src/validate_data.py:30-42 | the failure reasons in source order: missing target, all missing, a text value (the cast raises) before a value outside {0, 1}; the values found are exactly the truncations of the present cells; passes iff the target exists, has a value, and every value truncates to 0 or 1 |
| ValidateData.FractionalTargetAccepted | src/validate_data.py:37-41 | a target of 0.5 and 1.0 passes, because astype(int) truncates |
| ValidateData.AllNullNames | src/validate_data.py:46 | exactly the columns with no value |
| ValidateData.CheckNoAllNullColumns | src/validate_data.py:45-49 | passes iff no column is entirely null; a failure lists those columns |
| ValidateData.EmptyFrameHasOnlyNullColumns | src/validate_data.py:46 | a frame with columns but no rows fails the all-null check |
| ValidateData.TwoValuesAreTwoDistinct | src/validate_data.py:57 | two different present values give nunique ≥ 2 |
| ValidateData.BadColumns | src/validate_data.py:53-58 | exactly the numeric columns with fewer than the minimum distinct values |
| ValidateData.CheckNumericMinDistinct | src/validate_data.py:52-61 | passes iff no numeric column has too few distinct values; a failure lists them in frame order |
| ValidateData.RunCheck | src/validate_data.py:113-120 | running one check gives exactly that check's outcome |
| ValidateData.Gate | src/validate_data.py:97-132 | exit 0 iff passed; the first failing check in source order decides; expectations run only when all four pass |
| ValidateData.RequiredColumnsCoverTarget | src/validate_data.py:112-116 | once the required columns are present, the target check cannot fail for an absent target |
| PreprocessFlights.Pick | src/data/preprocess_flights.py:21-25 | None iff no candidate is a column; otherwise a candidate that is a column |
| PreprocessFlights.PickIsFirst | src/data/preprocess_flights.py:21-25 | no candidate before the picked one is a column: the first match wins |
| PreprocessFlights.YearSourceOf | src/data/preprocess_flights.py:35-44 | the year column wins over the date, the date over month/day |
| PreprocessFlights.CastYears | src/data/preprocess_flights.py:37 | astype(int) fails iff some cell is missing or text; otherwise the truncated values |
| PreprocessFlights.ExtractYear | src/data/preprocess_flights.py:35-44 | one year per row from the chosen source, 2020 for month/day only, an error when no source exists |
| PreprocessFlights.DepHourDivisor | src/data/preprocess_flights.py:51 | divide by 60 iff some value exceeds 2400, otherwise by 100 |
| PreprocessFlights.DepHours | src/data/preprocess_flights.py:47-53 | each present numeric time floor-divided by the divisor, missing otherwise |
| PreprocessFlights.HhmmHours | src/data/preprocess_flights.py:47-53 | valid HHMM times give hours 0..23 |
| PreprocessFlights.MinutesReadAsHhmm | src/data/preprocess_flights.py:50-53 | 1439 minutes past midnight is read as HHMM and gives hour 14 |
| PreprocessFlights.DelayedLabel | src/data/preprocess_flights.py:95 | 1 iff the arrival delay exceeds 15, 0 also for a missing delay; text raises |
| PreprocessFlights.SetColumn | src/data/preprocess_flights.py:89 | the assigned column is found under its name and every column of that name is it; every other name finds what it found before; every column of another name is kept |
| PreprocessFlights.ReplaceAllLookup | src/data/preprocess_flights.py:89 | overwriting every column of a name keeps the names, finds the new column under its name, and leaves the other names finding what they found |
| PreprocessFlights.AppendLookup | src/data/preprocess_flights.py:89 | appending a column of a new name adds that name at the end, finds the column under it, and leaves the other names finding what they found |
| PreprocessFlights.SetColumnValued | src/data/preprocess_flights.py:89 | which names have a column with a value changes only at the assigned name |
| PreprocessFlights.SetColumnReplaced | src/data/preprocess_flights.py:113 | after the assignment the name has a valued column iff the new values have one |
| PreprocessFlights.LabelledHour | src/data/preprocess_flights.py:89-113 | dep_hour is found as the derived hours, and some dep_hour column has a value iff they have one |
| PreprocessFlights.BuildKeep | src/data/preprocess_flights.py:97-115 | keep holds year, Delayed, the picked roles and dep_hour, minus a discarded dep-time column; renames maps each role to its new name |
| PreprocessFlights.KeepRoles | src/data/preprocess_flights.py:97-115 | for distinct picks, the kept names renamed to airline, origin, destination, distance are exactly the matching picks, and Delayed and dep_hour come only from themselves |
| PreprocessFlights.PickedRolesDistinct | src/data/preprocess_flights.py:78-87 | the candidate lists are disjoint, so no two roles pick the same column |
| PreprocessFlights.PickedNamesAreSourceNames | src/data/preprocess_flights.py:78-87 | no picked name is one of the derived names year, Delayed, dep_hour |
| PreprocessFlights.SelectKept | src/data/preprocess_flights.py:117-118 | exactly the frame's columns whose name is kept |
| PreprocessFlights.RenameColumns | src/data/preprocess_flights.py:119 | each column renamed by the map when its name is a key |
| PreprocessFlights.DropAllNull | src/data/preprocess_flights.py:120 | exactly the columns with some value |
| PreprocessFlights.RowsOfYear | src/data/preprocess_flights.py:122-123 | the increasing positions whose year equals y, all of them |
| PreprocessFlights.YearSplitDisjoint | src/data/preprocess_flights.py:122-123 | two different years select no row in common, so together they select at most as many rows as the frame has |
| PreprocessFlights.YearSlice | src/data/preprocess_flights.py:122-123 | one row per match of the year; exactly the columns but year; each holds the cells of its source column at the year's rows, in order |
| PreprocessFlights.SliceShape | src/data/preprocess_flights.py:117-123 | each output has Delayed, no year, and only output names |
| PreprocessFlights.LookupSelectRows | src/data/preprocess_flights.py:122-123 | after the row mask, every column holds its source cells at the selected rows |
| PreprocessFlights.DropAllNullValued | src/data/preprocess_flights.py:120 | a name survives the all-null drop iff some column of that name has a value |
| PreprocessFlights.ShapeCarries | src/data/preprocess_flights.py:117-120 | an output column exists iff the one source column renamed to it has a value, and then holds that column's cells under the new name |
| PreprocessFlights.LabelledShape | src/data/preprocess_flights.py:89-120 | the shaped frame keeps year and the labels, carries each role's and the departure hour's cells, and has only output names |
| PreprocessFlights.SliceOutput | src/data/preprocess_flights.py:122-123 | each year slice of the shaped frame holds, for every output column, its cells at the year's rows |
| PreprocessFlights.ShapeAndSplit | src/data/preprocess_flights.py:89-123 | each output has one row per row of its year, Delayed holding the labels of those rows, each renamed role present iff its picked column has a value and then holding that column's cells at those rows, dep_hour present iff the derived hours have a value and then holding them at those rows, no year and only output names |
| PreprocessFlights.Preprocess | src/data/preprocess_flights.py:76-123 | the errors in source order; on success each output holds, for the rows of its year, the labels of the picked arrival delay and the picked role and departure-hour cells, as ShapeAndSplit states |
| Train.NumericNames | src/train.py:22-24 | exactly the numeric-dtype columns |
| Train.CategoricalNames | src/train.py:25-26 | exactly the other columns |
| Train.NumericNamesConcat | src/train.py:22-24 | the numeric selection distributes over concatenation, so frame order is kept |
| Train.CategoricalNamesConcat | src/train.py:22-26 | the categorical selection distributes over concatenation, so frame order is kept |
| Train.PartitionSizes | src/train.py:22-26 | every column lands in exactly one list |
| Train.DetectFeatureTypes | src/train.py:18-27 | the two lists in frame order, together as long as the column list |
| Train.FeatureColumns | src/train.py:42 | exactly the columns other than the target, flight_date and year |
| Train.FeatureColumnsConcat | src/train.py:42 | the filter keeps frame order |
| Train.SelectFeatures | src/train.py:39-50 | an error iff the target is missing or no feature remains; otherwise the typed split of the features, target excluded |

## Left out

- The Kolmogorov-Smirnov statistic and p-value (scipy's `ks_2samp`) are an oracle; only the NaN guard around it is modelled.
- Floating point is not modelled: arithmetic is exact, and `ln` is a parameter constrained only by ln(1) = 0 and monotonicity.
- Drift.Psi: its value for a given input (say a constant reference of 1.0 against half 1.0, half 5.0) is proved to equal (q - 1) * ln(q), but comparing that with 0.25 needs the value of ln 2, which the model does not fix.
- DriftProperties.DegenerateEdgesUnreachable: it shows the zero-range-edges branch (src/drift.py:41-43) is dead in exact arithmetic; floating-point edges that collapse are not modelled.
- Drift.Psi requires at least one bucket; numpy raises for zero bins and every caller uses 10.
- Text cells never parse as numbers: numeric strings that `float()`, `astype(int)` or `to_numeric` would accept are not modelled; `to_numeric(errors="coerce")` turns text into a missing value.
- Duplicate column names: `Tables.Lookup` takes the first column of a name, where pandas would return a frame.
- PreprocessFlights.ShapeAndSplit: for a role column whose name the loaded frame holds twice, the contents are stated for the first column of that name only. `read_csv` renames duplicate headers, so the loaded frame does not hold such names.
- PreprocessFlights.Preprocess: the output columns follow the frame order, not Python's set iteration order of `keep`.
- PreprocessFlights.Preprocess: `int(df["year"].min())` at line 90 is modelled only as its failure when no year is defined; the printed range is not.
- PreprocessFlights.Preprocess: the years come from `dateYear`, an oracle for `pd.to_datetime(errors="coerce").dt.year` applied per cell; pandas infers one date format for the whole column from its first value, so a row's year may depend on other rows, which the model does not capture.
- ValidateData.Outcome restates the minimum-distinct rule as a function, since a function cannot call the method `CheckNumericMinDistinct`; the method is proved equal to it.
- ValidateData.Gate: Great Expectations (src/validate_data.py:64-94) is the oracle `expectations`, including its skip when the package is missing.
- File reads (`load_data`, `read_csv`, `_largest_csv`, the existence checks) are the inputs `FileState` and `Frame`; printing, JSON output and argparse are left out.
- Model fitting, cross-validation, saving the model and MLflow logging in src/train.py, the HTTP service src/serve.py, the preprocessing pipeline of src/data_preprocessing.py, and the download script are not part of this model.
