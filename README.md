# prepare_dataset: a Dafny model

This project models the logic of `scripts/prepare_dataset.py`. That script turns the raw NIH ChestX-ray14
release into a per-split image tree for training. The model covers the integer and sequence logic that
sits between the file I/O and the image library:

- **Split labelling** (`Splits.LoadSplits`): each labels-table entry is tagged `test` when its
  `Image Index` is in the test list and `trainval` otherwise.
- **Train/val partition** (`Splits.AssignTrainVal`): the trainval rows, in shuffled order, are cut after
  `val_count = int(n * val_split)`. The prefix becomes `val` and the rest `train`. The result is
  `train + val + test`.
- **Center-square crop box** (`Crop.CenterCrop`): the crop box of `preprocess_and_save`.
- **Per-record dispatch** (`Dispatch.ProcessRow`): a first-match search over the shard folders. Then
  either the filename is returned as missing, or the image is transformed into
  `output_dir/split/filename`.
- **Failure aggregation** (`Dispatch.CollectFailures`, `Dispatch.Summarize`, `Pipeline.Prepare`): the
  truthy worker results are collected into `missing`, in the order they arrive. When that list is non-empty, its first 20 names
  and the total are reported.

Abstractions:
- The pandas shuffle `sample(frac=1, random_state=42)` is a reordering supplied by the caller. The
  caller passes `shuffled`, whose multiset equals that of the trainval rows.
- The float `val_split` is an exact rational `num / den` with `den > 0`.
- `os.listdir(input_dir)` is a listing `Disk.listing`, and `os.path.exists` is membership in
  `Disk.existing`.
- `preprocess_and_save` is a boolean oracle `Transform`.
- Paths are sequences of components.
- The unordered arrival of worker results is an `arrival` sequence supplied by the caller. It is a
  reordering of the partitioned rows.

The model follows the code as written, including these behaviours:
- A finite `val_split` outside `[0, 1)` is not rejected, as long as its product with the row count is finite. `int()` truncates toward zero, and the `iloc` slice
  bounds are clamped Python-style (`Splits.SliceBound`). So with `val_split >= 1`, every trainval row
  becomes `val` (`Splits.ValSplitAtLeastOne`). A negative `val_split` gives a negative or zero
  `val_count`. A negative one counts from the end of the shuffled rows, and zero leaves `val` empty
  (`Splits.ValSplitNegative`).
- `main` keeps a result only when it is truthy (`if result:`). A failing row whose filename is the empty
  string is therefore never reported (`Dispatch.Truthy`).
- Rows whose split is neither `trainval` nor `test` are dropped by both filters of `assign_train_val`.
  Conservation (`Splits.AssignConservesRows`) holds for tables that `LoadSplits` produced.

## Model

| member | source | states |
|---|---|---|
| `Splits.LoadSplits` | scripts/prepare_dataset.py:22-24 | one row per entry, with the entry unchanged; the split is `Test` exactly when the filename is in the test list and `TrainVal` exactly when it is not |
| `Splits.LoadSplitsIgnoresTrainvalList` | scripts/prepare_dataset.py:17-24 | the labels do not depend on the trainval list, which is read but never consulted |
| `Splits.LoadSplitsTagged` | scripts/prepare_dataset.py:22-24 | every labelled row is `trainval` or `test` |
| `Splits.Having` | scripts/prepare_dataset.py:30-31 | filtering by split keeps exactly the rows of that split: a row is in the result iff it is in the input with that split; the result is no longer than the input |
| `Splits.HavingMultiset` | scripts/prepare_dataset.py:30-31 | filtering keeps every row of that split exactly as many times as it occurs, and no row of another split |
| `Splits.Relabel` | scripts/prepare_dataset.py:44-45 | every row keeps its entry and its position, and its split becomes the given one |
| `Splits.TruncDiv` | scripts/prepare_dataset.py:36 | Python `int()` of a quotient truncates toward zero: it lies within one denominator of the exact value, on the zero side |
| `Splits.ValCount` | scripts/prepare_dataset.py:36 | for `0 <= val_split < 1`, `val_count` is `floor(n * val_split)` and lies in `[0, n]`; for `val_split >= 1` it is at least `n` |
| `Splits.SliceBound` | scripts/prepare_dataset.py:37-38 | a slice bound stays within the sequence and equals the index when that is already in range |
| `Splits.AssignTrainVal` | scripts/prepare_dataset.py:29-48 | the output has as many rows as the trainval and test rows together, and every output split is `train`, `val` or `test` |
| `Splits.ValSplitSizes` | scripts/prepare_dataset.py:34-47 | for `0 <= val_split < 1`: `val_count = floor(n * val_split) <= n`; the `val` rows are the first `val_count` shuffled rows, the `train` rows the other `n - val_count`, and the test rows pass through unchanged |
| `Splits.AssignConservesRows` | scripts/prepare_dataset.py:30-47 | on a labelled table the output has the input's length and the same entries with the same multiplicities; only `split` changes |
| `Splits.LabelledTableConserved` | scripts/prepare_dataset.py:98-104 | labelling followed by the partition yields exactly one row per labels-table entry, with the entries and their multiplicities unchanged |
| `Splits.PartsOf` | scripts/prepare_dataset.py:44-47 | filtering `train + val + test` on a split gives back exactly the group relabelled with it; test rows come back unchanged |
| `Splits.ValSplitAtLeastOne` | scripts/prepare_dataset.py:36-38 | with `val_split >= 1` there are no `train` rows and every shuffled row becomes `val` |
| `Splits.ValSplitNegative` | scripts/prepare_dataset.py:36-38 | with `val_split < 0`, `val_count <= 0`; zero leaves `val` empty; a negative count keeps the first `max(0, n + val_count)` shuffled rows as `val` and the rest as `train` |
| `Splits.TenRecordExample` | scripts/prepare_dataset.py:36-47 | 7 trainval and 3 test rows with `val_split = 0.2` give 1 `val`, 6 `train` and 3 `test` rows |
| `Splits.EntriesPermutation` | scripts/prepare_dataset.py:34 | reordering the rows (the shuffle) keeps their entries with their multiplicities |
| `Splits.TaggedPartition` | scripts/prepare_dataset.py:30-31 | on a labelled table, the trainval and test filters together keep every row exactly once |
| `Crop.CenterCrop` | scripts/prepare_dataset.py:56-60 | the box is a square of side `min(w, h)` inside the image; on each axis the far margin exceeds the near one by 0 or 1; `left` or `top` is 0 |
| `Crop.CenterCropUnique` | scripts/prepare_dataset.py:56-60 | any box inside the image that is a centred square of side `min(w, h)` is the computed box |
| `Crop.LandscapeExample` | scripts/prepare_dataset.py:56-60 | a 5 by 3 image is cropped to the box (1, 0, 4, 3) |
| `Crop.PortraitExample` | scripts/prepare_dataset.py:56-60 | a 3 by 6 image is cropped to the box (0, 1, 3, 4) |
| `Crop.SquareExample` | scripts/prepare_dataset.py:56-60 | a 3 by 3 image is kept whole, as the box (0, 0, 3, 3) |
| `Dispatch.ImagePath` | scripts/prepare_dataset.py:77 | the candidate path is the input directory followed by the folder, `images` and the filename |
| `Dispatch.Destination` | scripts/prepare_dataset.py:86-88 | the destination is the output directory followed by the split's name and the filename |
| `Dispatch.DestinationInjective` | scripts/prepare_dataset.py:86-88 | no two records with different (split, filename) share an output path |
| `Dispatch.Locate` | scripts/prepare_dataset.py:75-80 | a path found exists and is the image path of one of the listed folders |
| `Dispatch.LocateFirstMatch` | scripts/prepare_dataset.py:75-80 | the search finds nothing exactly when no listed folder holds `images/<filename>`; otherwise it finds the path in the earliest folder that does |
| `Dispatch.RowResult` | scripts/prepare_dataset.py:82-94 | a result is either `None` or the row's own filename; a row whose image no folder holds always fails |
| `Dispatch.RowResultCases` | scripts/prepare_dataset.py:82-94 | a row's result is its own filename or `None`; it is `None` exactly when some folder holds the image and the transform from the first such folder to `output_dir/split/filename` succeeds |
| `Dispatch.ProcessRow` | scripts/prepare_dataset.py:70-94 | the search loop with its early exit computes the first-match result above |
| `Dispatch.Truthy` | scripts/prepare_dataset.py:125 | Python truthiness of a result: `None` and the empty string are false, a non-empty name is true |
| `Dispatch.Failures` | scripts/prepare_dataset.py:125-126 | the collected names are exactly the non-empty names among the results, and there are no more of them than results |
| `Dispatch.FailuresCount` | scripts/prepare_dataset.py:125-126 | each non-empty failing name is collected as many times as it arrives; the empty name is never collected |
| `Dispatch.FailuresOrderIrrelevant` | scripts/prepare_dataset.py:111-126 | any arrival order of the worker results yields the same failures, up to order |
| `Dispatch.CollectFailures` | scripts/prepare_dataset.py:109-126 | the append loop builds exactly the list of truthy results in arrival order |
| `Dispatch.Summarize` | scripts/prepare_dataset.py:128-132 | no report when nothing failed; otherwise the report lists the first `min(20, total)` failures in order and gives the total |
| `Pipeline.FailuresAreFailedRows` | scripts/prepare_dataset.py:109-126 | a name is in the failure list exactly when it is non-empty and belongs to a row whose image was missing or whose transform failed |
| `Pipeline.Results` | scripts/prepare_dataset.py:111-124 | the pool yields one result per row |
| `Pipeline.ResultsPermutation` | scripts/prepare_dataset.py:111-124 | processing the rows in any other order yields the same results, reordered |
| `Pipeline.RunPool` | scripts/prepare_dataset.py:111-124 | running `process_row` on each row in arrival order gives exactly the results of those rows, in that order |
| `Pipeline.Prepare` | scripts/prepare_dataset.py:97-132 | labelling, partition, processing in any arrival order, and collection compose. `missing` is the failure list in arrival order. Up to order, it is the failure list of the partitioned table. The summary is taken over that arrival-ordered list |

## Left out

- CSV and list-file reading (`pd.read_csv`, `open`, `strip`): this is I/O. The table is a sequence of entries and the lists are sequences of names. A missing or malformed input file, which is fatal in the script, is not modelled.
- The pandas RNG behind `sample(frac=1, random_state=42)`: this is a foreign library call. Any reordering of the trainval rows is accepted. The model shows only that the same shuffled order always gives the same partition, because `AssignTrainVal` is a function of its inputs. Whether `sample(random_state=42)` itself always returns the same order is up to the library and is not modelled.
- Float arithmetic in `len(trainval_df) * val_split`: `val_split` is an exact rational. Rounding of the float product is not modelled. Some inputs make `int()` raise at scripts/prepare_dataset.py:36 and abort the run before any row is processed, and the model cannot express them. `int()` raises ValueError on `nan`, including `0 * inf`. It raises OverflowError on an infinite `val_split`, and on a finite one whose product overflows to infinity, such as `1e308` with two or more rows. That abort path is not modelled.
- The image operations of `preprocess_and_save` (`open`, `convert("RGB")`, `crop`, `resize`, `save`) are foreign calls. Only the crop-box arithmetic and a success oracle are kept. The `img_size` argument is passed to the oracle unchanged.
- `os.makedirs(..., exist_ok=True)` is not modelled, neither for the output root (scripts/prepare_dataset.py:102) nor for each `output_dir/split` (:87). On success it only creates directories. It can raise, for example when permission is denied or a regular file is in the way. The call at :102 then raises in `main` and aborts the run before any row is processed. The call at :87 sits in `process_row` outside the `try`, so its exception escapes the worker and aborts the run. Neither abort path is modelled. `os.path.join`'s reset on an absolute component is not modelled either, since paths are component sequences.
- The concurrency of the worker pool is not modelled. The pool is sequential work over a caller-chosen arrival order. `tqdm` progress and `print` output are left out. The printed failure lines are modelled as the `Report` value.
- argparse and the `OMP_NUM_THREADS` setting are process configuration and are not modelled. The worker count is not modelled either. A count of zero or less makes `Pool` raise and abort the run; that path is left out.
- An exception in `process_row` outside the transform's `try` is not modelled. Besides `makedirs`, this includes `os.listdir(input_dir)` failing at :76. It also includes a non-string `Image Index`, such as the NaN that an empty CSV cell is read as, on which `os.path.join` raises at :77. Such an exception aborts the whole run.
- Uniqueness of filenames in the labels table is assumed by the dataset, not checked by the script, so it is not modelled.
