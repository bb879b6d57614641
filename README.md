# Patient visit sequences for PANSS forecasting, in Dafny

This project models the preprocessing core of `code/patient_forecasting.py` from
SchizoAnalysis. The script turns clinical study tables into training tensors for
a recurrent network that forecasts the thirty PANSS symptom scores of a
patient's next assessment. The preprocessing stages are:

- **Cohort filter** (`main`). Keeps the 'Passed' rows of patients who have a
  'Passed' visit after day 120, then drops LeadStatus. Module `CohortFilter`.
- **`init_data_split`**. Drops repeated (PatientID, VisitDay) rows from the
  training and applied tables and records where the training rows end. It
  then concatenates the two tables and replaces Country and TxGroup by one-hot
  blocks fitted on the concatenation. Modules `Deduplication`,
  `CategoricalEncoding` and `DataSplit`.
- **`count_max_occur`**. The length of the longest run of consecutive rows of
  one patient other than the final run, which the scan never compares. It
  becomes the padding length. Module `SequenceProfiler`.
- **`extract_y`**. One target row per run: the scores of the run's last
  visit. Module `TargetExtraction`.
- **`extract_x`**. One block of `max_count` rows per run, built on each split
  separately. Module `TensorBuilder`.

Module `Frames` holds the vocabulary these stages share:

- A table row is a `Row<T>(pid, cols)`. `cols` holds every column but
  PatientID: `cols[0]` is VisitDay, `cols[1..31]` the thirty scores, then the
  one-hot blocks.
- `Select` is pandas' boolean-mask selection.
- `Groups` cuts a table into its maximal runs of consecutive rows with the
  same PatientID. It is the scan `RunsUpTo(rows, n)` of the first `n` rows,
  one row at a time, taken over the whole table.

`Groups` is proved to be the unique cutting into maximal runs
(`GroupsPartition`, `GroupsUnique`).

The three scans (`count_max_occur`, `extract_y` and the loop of `extract_x`)
are methods with the source's loops and counters. Each is proved equal to a
specification function of the runs. The whole-table expressions
(`drop_duplicates`, `LabelEncoder`, `to_categorical`, the masks) are
functions.

Behaviours of the code worth knowing, each stated by the named members:

- **Block layout.** A run of `n <= L` visits, with `L` the padding length,
  becomes `L - n + 1` zero rows followed by its first `n - 1` visits. The
  last visit, which is the run's target, is never an input
  (`TensorBuilder.BlockRow`, `BlockComplete`).
- **Over-long runs.** A run longer than the padding length gives no zero
  rows. The block keeps the run's first `max_count` visits and drops the
  later ones (`TensorBuilder.BlockTruncated`).
- **Padding length.** The comment on line 44 of the script calls it the
  maximum number of occurrences of the same patient. The scan never
  compares the final run, so it can be shorter (see Findings).
- **Cohort.** The comment on line 156 describes the cohort as the patients
  who finished 18 weeks of study. The code filters rows on their own
  LeadStatus, so a qualifying patient's non-'Passed' rows are dropped.
  A patient qualifies with a 'Passed' visit after day 120. The filter runs
  before deduplication (`CohortFilter.CohortExactlyQualifying`).
- **Targets.** One target row per contiguous run of a patient's rows, not
  per distinct patient: a patient whose rows are split by another
  patient's rows gets two targets (`TargetExtraction.ExtractY`).

## Model

| member | source | states |
|---|---|---|
| Frames.Select | code/patient_forecasting.py:157-158 | pandas `df[mask]`: never longer than the table; `SelectAt` proves it is the order-preserving subsequence taken at exactly the mask's true positions |
| Frames.AddRow | code/patient_forecasting.py:52-59 | one row of the `cur_patient_id` scan: the run count stays the same exactly when the row has the PatientID of the run in progress, and grows by one otherwise; `AddRowPartition` proves the step appends the row and keeps the runs maximal |
| Frames.RunsUpTo | code/patient_forecasting.py:51-59 | the scan after `n` rows: no runs exactly when no rows, at most one run per row; `RunsPartition` proves the runs lay end to end to those rows and are maximal, `RunsOfPrefix` that they depend on those rows only |
| Frames.SelectAt | code/patient_forecasting.py:157-158 | a boolean-mask selection is the order-preserving subsequence taken at exactly the mask's true positions |
| Frames.GroupsPartition | code/patient_forecasting.py:51-58 | the runs, laid end to end, give back the table; each run is non-empty with one PatientID; adjacent runs have different PatientIDs |
| Frames.RunsPartition | code/patient_forecasting.py:51-58 | after `n` rows the scan's runs, laid end to end, are those `n` rows, and the runs are maximal |
| Frames.RunsOfPrefix | code/patient_forecasting.py:51-58 | the runs after `n` rows depend only on those `n` rows, not on the rows still to come |
| Frames.GroupsOfPrefix | code/patient_forecasting.py:51-58 | the runs of a prefix of the table are the runs the scan has built when it reaches the prefix's end |
| Frames.FirstOfGroups | code/patient_forecasting.py:94 | the first run begins with the table's first row, whose PatientID the scan of each split starts from |
| Frames.GroupsUnique | code/patient_forecasting.py:100-111 | any cutting of the table into maximal runs is the one `Groups` produces |
| Frames.RunsExtend | code/patient_forecasting.py:68-73 | a run that begins at a run boundary extends the runs of the rows before it by exactly one run |
| Frames.GroupsFollowPids | code/patient_forecasting.py:80-84 | two tables with the same PatientID column have runs of the same patients and lengths, so scaling the other columns leaves the runs unchanged |
| Deduplication.DropDuplicates | code/patient_forecasting.py:18-21 | `drop_duplicates(subset=["PatientID", "VisitDay"], keep='first')`: never longer than the table; `DropDuplicatesKeepsFirsts` proves it keeps exactly the first row of each key in order, `DropDuplicatesDistinct` that its keys are distinct, `DropDuplicatesCovers` that every key survives |
| Deduplication.KeepMask | code/patient_forecasting.py:18-21 | a row is kept if and only if no earlier row has its (PatientID, VisitDay) |
| Deduplication.DropDuplicatesKeepsFirsts | code/patient_forecasting.py:18-21 | the result is the order-preserving subsequence of exactly the rows that are the first of their key |
| Deduplication.DropDuplicatesDistinct | code/patient_forecasting.py:18-21 | no two kept rows share a (PatientID, VisitDay) key |
| Deduplication.DropDuplicatesCovers | code/patient_forecasting.py:18-21 | every key of the input survives, carried by the first row that had it |
| Deduplication.FirstOccurrence | code/patient_forecasting.py:18-21 | every row has a first row with its key, at or before it |
| Deduplication.DropDuplicatesPair | code/patient_forecasting.py:18-21 | two visits with the same key collapse to the first one |
| Deduplication.DropDuplicatesIdempotent | code/patient_forecasting.py:18-21 | dropping duplicates a second time changes nothing |
| Deduplication.DropDuplicatesNonEmpty | code/patient_forecasting.py:18-21 | a non-empty table keeps its first row |
| CohortFilter.PassedMask | code/patient_forecasting.py:157 | the mask is true exactly at rows whose LeadStatus is 'Passed' |
| CohortFilter.LatePatients | code/patient_forecasting.py:158 | a PatientID is in the set if and only if some row of that patient has VisitDay > 120 |
| CohortFilter.MemberMask | code/patient_forecasting.py:158 | the mask is true exactly at rows whose PatientID is in the set |
| CohortFilter.Cohort | code/patient_forecasting.py:157-158 | the two chained mask selections: never longer than the table; `CohortExactlyQualifying` proves it keeps, in order, exactly the 'Passed' rows whose patient has a 'Passed' visit after day 120 |
| CohortFilter.CohortVisits | code/patient_forecasting.py:159 | the cohort rows with LeadStatus removed, one for one and in order |
| CohortFilter.CohortIsSubsequence | code/patient_forecasting.py:157-158 | the two mask selections give the table's rows at increasing positions, in order |
| CohortFilter.KeptRowQualifies | code/patient_forecasting.py:157-158 | every kept row is 'Passed' and its patient has a 'Passed' row with VisitDay > 120 |
| CohortFilter.QualifyingRowKept | code/patient_forecasting.py:157-158 | every 'Passed' row whose patient has a 'Passed' row with VisitDay > 120 is kept |
| CohortFilter.CohortExactlyQualifying | code/patient_forecasting.py:157-158 | the cohort is an order-preserving subsequence of the table. A row is kept if and only if it is 'Passed' and its patient has a 'Passed' row with VisitDay > 120 |
| CategoricalEncoding.LexIrreflexive | code/patient_forecasting.py:27-28 | the label order that sorts `classes_` is irreflexive |
| CategoricalEncoding.LexTransitive | code/patient_forecasting.py:27-28 | the label order is transitive |
| CategoricalEncoding.LexTotal | code/patient_forecasting.py:27-28 | any two different labels are ordered one way or the other |
| CategoricalEncoding.LexAsymmetric | code/patient_forecasting.py:27-28 | the label order is asymmetric |
| CategoricalEncoding.Insert | code/patient_forecasting.py:27-28 | inserting a label into sorted distinct labels keeps them sorted and distinct and adds exactly that label |
| CategoricalEncoding.Classes | code/patient_forecasting.py:27-28 | `classes_` is strictly increasing and holds exactly the labels that occur |
| CategoricalEncoding.IndexOf | code/patient_forecasting.py:27-28 | the code of a class is a position holding that class |
| CategoricalEncoding.LabelEncode | code/patient_forecasting.py:27-28 | `fit_transform`: one code per label; `LabelEncodeRanks` proves each code is below the class count, codes compare as the labels do, and equal codes mean equal labels |
| CategoricalEncoding.OneHot | code/patient_forecasting.py:30-31 | the one-hot vector of a code has the given width; `OneHotColumns` proves the 1 sits exactly at the label's class column |
| CategoricalEncoding.ToCategorical | code/patient_forecasting.py:30-31 | `to_categorical`: one row per code; `OneHotBlock` proves each row has one column per distinct label and a single 1 at the label's rank |
| CategoricalEncoding.Max | code/patient_forecasting.py:30-31 | the maximum code bounds every code and is attained |
| CategoricalEncoding.SortedIndexOrder | code/patient_forecasting.py:27-28 | among sorted classes, labels compare as their positions do, and equal labels have equal positions |
| CategoricalEncoding.IndexOfSorted | code/patient_forecasting.py:27-28 | the class at position j has code j |
| CategoricalEncoding.LabelEncodeRanks | code/patient_forecasting.py:27-28 | each code is below the number of classes; codes compare as the labels do, and two codes are equal if and only if the labels are |
| CategoricalEncoding.MaxCodeIsLastClass | code/patient_forecasting.py:30-31 | the largest code plus one is the number of distinct labels, so the `to_categorical` width is the class count |
| CategoricalEncoding.SortedCardinality | code/patient_forecasting.py:27-28 | strictly sorted classes hold each label once, so their number is the number of distinct labels |
| CategoricalEncoding.SortedUnique | code/patient_forecasting.py:27-28 | two strictly sorted label lists with the same members are equal |
| CategoricalEncoding.ClassesOrderIndependent | code/patient_forecasting.py:27-28 | the classes depend only on which labels occur, not on their order or repetition |
| CategoricalEncoding.OneHotBlock | code/patient_forecasting.py:30-31 | each one-hot row is as wide as the number of distinct labels and has a 1 exactly in the column of its label's class, 0 elsewhere |
| CategoricalEncoding.OneHotColumns | code/patient_forecasting.py:30-33 | the one-hot vector of a label has a 1 exactly at its class, and two labels get equal vectors if and only if they are equal |
| DataSplit.Combined | code/patient_forecasting.py:18-23 | the concatenation of the two deduplicated tables: at most as many rows as the two inputs together; `InitDataSplitRows` proves its two parts are the deduplicated training and applied tables |
| DataSplit.EncodeTable | code/patient_forecasting.py:26-40 | the encoded table has one row per input row; `EncodeTableAt` proves row i is PatientID, VisitDay, the scores, then the Country and TxGroup one-hot vectors against classes fitted on the whole table |
| DataSplit.InitDataSplit | code/patient_forecasting.py:17-42 | the encoded table has one row per deduplicated training or applied row |
| DataSplit.EncodeTableAt | code/patient_forecasting.py:30-40 | row i is PatientID, VisitDay, the scores, then the Country and TxGroup one-hot vectors against the classes of the whole combined table |
| DataSplit.InitDataSplitRows | code/patient_forecasting.py:18-42 | the cut index is the deduplicated training length. The combined rows before it are the deduplicated training rows and those after it the deduplicated applied rows. Every row of both splits is encoded against the same classes |
| SequenceProfiler.MaxOccur | code/patient_forecasting.py:45-60 | what `count_max_occur` returns: at least the length of every run but the final one, and (0, the first row's column-2 value) when there is only one run; `MaxOccurExcludesFinalRun` proves it is attained by the first such longest non-final run |
| SequenceProfiler.LongestIsMaximum | code/patient_forecasting.py:51-58 | the scan's result bounds every compared run and is attained; the reported ID belongs to the first run of that length (strict `<`) |
| SequenceProfiler.MaxOccurExcludesFinalRun | code/patient_forecasting.py:45-60 | with two runs or more, the result is the longest run other than the final one and the first patient attaining it; with one run it is 0 and the first row's column-2 value |
| SequenceProfiler.ScanStep | code/patient_forecasting.py:52-58 | one row of the scan updates the counters as closing or extending a run does |
| SequenceProfiler.CountMaxOccur | code/patient_forecasting.py:45-60 | the loop returns exactly the longest-run result over all runs but the final one |
| SequenceProfiler.LongestRunIsMaximum | code/patient_forecasting.py:45-60 | the longest run length, final run included, bounds every run and is attained by one |
| SequenceProfiler.MaxOccurMissesFinalRun | code/patient_forecasting.py:51-60 | on a table whose longest run is its last, the scan reports 1 where the longest run is 2 |
| TargetExtraction.Target | code/patient_forecasting.py:70 | a row of at least 31 columns gives its 30 scores, columns 2 to 31 of the table |
| TargetExtraction.RunTargetsAt | code/patient_forecasting.py:68-73 | target row k is the target of run k |
| TargetExtraction.TargetsExtend | code/patient_forecasting.py:69-73 | the targets after a run that begins at a run boundary are the earlier targets and the target of the run's last row |
| TargetExtraction.CloseRun | code/patient_forecasting.py:69-73 | closing a run appends the target of its last row |
| TargetExtraction.CollectClose | code/patient_forecasting.py:68-71 | a row followed by another patient appends its own target and opens a run at the next row |
| TargetExtraction.CollectKeep | code/patient_forecasting.py:68-69 | a row followed by the same patient leaves the targets and the open run's patient unchanged |
| TargetExtraction.CollectFinish | code/patient_forecasting.py:72-73 | the last row appends its target, and the targets are those of every run |
| TargetExtraction.ExtractY | code/patient_forecasting.py:63-76 | the loop emits exactly one target per maximal run, in run order |
| TargetExtraction.TargetsAreLastVisits | code/patient_forecasting.py:68-73 | every run is non-empty, and its target row is the scores of its last visit |
| TargetExtraction.FinalTargetIsLastVisit | code/patient_forecasting.py:72-73 | the last target row is the scores of the table's last row |
| TensorBuilder.ZeroRow | code/patient_forecasting.py:105 | the masked row has `row_length` entries, all zero |
| TensorBuilder.Visits | code/patient_forecasting.py:114-115 | each visit contributes its non-PatientID columns |
| TensorBuilder.PadFront | code/patient_forecasting.py:104-107 | the padding loop puts exactly `Padding(cur_iter, max_count)` zero rows in front of the block |
| TensorBuilder.BuildBlocks | code/patient_forecasting.py:92-123 | the loop over one split emits exactly one block per maximal run, in run order, with zero rows as wide as the split's first row |
| TensorBuilder.ExtractX | code/patient_forecasting.py:85-130 | the table is cut at `cut_index`, and each part becomes the blocks of its own runs |
| TensorBuilder.BlocksAt | code/patient_forecasting.py:109 | block k is the block of run k |
| TensorBuilder.BlockLength | code/patient_forecasting.py:99-123 | every block has exactly `max_count` rows, whatever the run length |
| TensorBuilder.BlockRow | code/patient_forecasting.py:104-115 | row j of a block is a zero row inside the padding and otherwise visit `j - padding` of the run. That visit is never the run's last and never past the `max_count`-th |
| TensorBuilder.BlockWidth | code/patient_forecasting.py:96-115 | when the visits have `row_length` feature columns, so does every row of the block |
| TensorBuilder.BlockComplete | code/patient_forecasting.py:104-115 | a run of at most `max_count + 1` visits gives `max_count + 1 - n` zero rows, then all its visits but the last |
| TensorBuilder.BlockTruncated | code/patient_forecasting.py:113-115 | a longer run gets no padding and keeps only its first `max_count` visits |
| TensorBuilder.VisitsSnoc | code/patient_forecasting.py:114-115 | appending a visit's row extends the kept visits by that visit |
| TensorBuilder.KeepStep | code/patient_forecasting.py:112-115 | a continuing visit is appended exactly while the run has at most `max_count` visits up to it |
| TensorBuilder.BlocksExtend | code/patient_forecasting.py:104-111 | the blocks after a run that begins at a run boundary are the earlier blocks and that run's block |
| TensorBuilder.CloseBlock | code/patient_forecasting.py:104-111 | closing a run appends its padded block to the blocks of the earlier runs |
| TensorBuilder.ScanOpen | code/patient_forecasting.py:108-111 | a new run opens with no visits kept and the blocks of the earlier runs done |
| TensorBuilder.ScanClose | code/patient_forecasting.py:102-111 | a run ending before the last row closes its block and starts a new run at the next row |
| TensorBuilder.ScanKeep | code/patient_forecasting.py:112-115 | a row followed by the same patient keeps the scan's state, with the row appended while there is room |
| TensorBuilder.ScanFinish | code/patient_forecasting.py:116-123 | the last row closes the final run, and the blocks are those of every run |
| TensorBuilder.BlocksRectangular | code/patient_forecasting.py:92-126 | every block of a split has exactly `max_count` rows |
| TensorBuilder.BlocksWidth | code/patient_forecasting.py:96-126 | when every row has `row_length` feature columns, every row of every block does |
| TensorBuilder.LongEnoughKeepsAllVisits | code/patient_forecasting.py:104-115 | with `max_count` at least the longest run, every block is padding followed by all visits of its run but the last |
| TensorBuilder.StraddlingRunSplits | code/patient_forecasting.py:85-91 | a patient whose visits cross `cut_index` ends the last run of the training split and begins the first run of the applied split |
| TensorBuilder.TrainingPairsAligned | code/patient_forecasting.py:173-174 | targets from the unscaled training rows and blocks from the scaled ones pair up one for one: same count, and pair k comes from runs of the same patient and length |
| TensorBuilder.MaxOccurLosesVisit | code/patient_forecasting.py:161-174 | with the padding length `count_max_occur` reports, a final run of three visits keeps one input visit and loses the second; with the longest run length it keeps both |

## Left out

- Min-max normalisation (code/patient_forecasting.py:80-84) is floating-point arithmetic, and a constant column gives NaN. `ExtractX` takes the already scaled table, and the padding value is a parameter.
- The tensor cache (code/patient_forecasting.py:163-178) is file I/O behind a bare `except`.
- Reading and writing CSV files (code/patient_forecasting.py:145-153) is I/O.
- `createRNN`, the train/test split, training, evaluation, clamping and RMSE (code/patient_forecasting.py:133-141, 180-191) are TensorFlow, random sampling and floating point.
- The `print` calls (code/patient_forecasting.py:67, 87-88, 98) are output only. The commented-out code (code/patient_forecasting.py:193-203) never runs.
- `np.array` conversion (code/patient_forecasting.py:75, 126) is not modelled. Results stay nested sequences, and a ragged result is not rejected.
- Dropping the identifier columns (code/patient_forecasting.py:36-37) is reflected in the `Visit` record, which holds only the kept columns. That thirty scores are present is not enforced. `Target` cuts its slice short on a narrower row, as pandas does.
- Label order is Python's code-point string order (`LexLess`). Missing labels (NaN) are not modelled.
- `main`'s sequence of calls (code/patient_forecasting.py:157-174) is not one member. `TrainingPairsAligned` states how its results relate.
- ExtractY, BuildBlocks and CountMaxOccur require a non-empty table, because the source reads `df.iloc[0, …]` and raises on an empty one. CountMaxOccur also requires a column 2 (`df.iloc[0, 2]`). ExtractX requires `0 < cut_index < len(table)` for the same reason on each split. InitDataSplit requires a non-empty union, because `to_categorical` fails on an empty label array.

## Findings

| source | as written | input that shows it | evidently intended | confidence | as-written member | corrected member |
|---|---|---|---|---|---|---|
| code/patient_forecasting.py:51-60 | a run is compared with the best so far only when the next run starts, and nothing after the loop compares the final run | rows of patient 1 (one visit), then patient 2 (two visits): the result is (1, 1) | the longest run including the final one, here 2 | high; not executed | SequenceProfiler.MaxOccurMissesFinalRun | SequenceProfiler.LongestRunIsMaximum |
| code/patient_forecasting.py:161-174 | the padding length from `count_max_occur` can be shorter than the final run, so `extract_x` cuts visits from it that are not the target | patient 1 (one visit), then patient 2 (three visits): patient 2's block holds only the first visit | every visit but the target kept, which holds with the longest run as padding length | high; not executed | TensorBuilder.MaxOccurLosesVisit | TensorBuilder.LongEnoughKeepsAllVisits |
