/**
 * The per-record worker `process_row` and the failure collection in `main`
 * (scripts/prepare_dataset.py).
 *
 * The filesystem is a snapshot: the entries `os.listdir` returns for the input
 * directory, in listing order, and the set of paths for which `os.path.exists`
 * holds. Paths are sequences of components. `preprocess_and_save` is an oracle
 * reporting success or failure for a source path, destination path and size.
 */
module Dispatch {
  import opened Wrappers
  import opened Splits

  type Path = seq<string>

  datatype Disk = Disk(listing: seq<string>, existing: set<Path>)

  /** `preprocess_and_save(img_path, save_path, img_size)`: true when the image was written. */
  type Transform = (Path, Path, int) -> bool

  /** `input_dir/folder/images/filename`: three components below the input directory. */
  function ImagePath(inputDir: Path, folder: string, filename: string): (p: Path)
    ensures |p| == |inputDir| + 3 && p[..|inputDir|] == inputDir
    ensures p[|inputDir|] == folder && p[|inputDir| + 1] == "images" && p[|inputDir| + 2] == filename
  {
    inputDir + [folder, "images", filename]
  }

  /** `output_dir/split/filename`: the split's directory name, then the source filename. */
  function Destination(outputDir: Path, split: Split, filename: string): (p: Path)
    ensures |p| == |outputDir| + 2 && p[..|outputDir|] == outputDir
    ensures p[|outputDir|] == SplitName(split) && p[|outputDir| + 1] == filename
  {
    outputDir + [SplitName(split), filename]
  }

  /** No two records with different (split, filename) share an output path. */
  lemma DestinationInjective(outputDir: Path, s: Split, a: string, t: Split, b: string)
    requires Destination(outputDir, s, a) == Destination(outputDir, t, b)
    ensures s == t && a == b
  {
    var p, q := Destination(outputDir, s, a), Destination(outputDir, t, b);
    assert p[|outputDir|] == q[|outputDir|] && p[|outputDir| + 1] == q[|outputDir| + 1];
  }

  /** The image path in the first listed folder holding the file, if any. A path found
      exists and is the image path of one of the listed folders. */
  function Locate(inputDir: Path, folders: seq<string>, filename: string, existing: set<Path>): (r: Option<Path>)
    ensures r.Some? ==> r.value in existing
    ensures r.Some? ==> exists k :: 0 <= k < |folders| && r.value == ImagePath(inputDir, folders[k], filename)
  {
    if folders == [] then None
    else if ImagePath(inputDir, folders[0], filename) in existing then Some(ImagePath(inputDir, folders[0], filename))
    else Locate(inputDir, folders[1..], filename, existing)
  }

  /** `Locate` is a first-match search: it finds nothing exactly when no folder holds the
      file, and otherwise the path in the earliest folder that does. */
  lemma {:induction false} LocateFirstMatch(inputDir: Path, folders: seq<string>, filename: string, existing: set<Path>)
    ensures Locate(inputDir, folders, filename, existing).None?
        <==> forall k :: 0 <= k < |folders| ==> ImagePath(inputDir, folders[k], filename) !in existing
    ensures Locate(inputDir, folders, filename, existing).Some? ==>
      exists k :: 0 <= k < |folders| && FirstHolder(inputDir, folders, filename, existing, k)
        && Locate(inputDir, folders, filename, existing).value == ImagePath(inputDir, folders[k], filename)
  {
    if folders != [] {
      LocateFirstMatch(inputDir, folders[1..], filename, existing);
      var found := Locate(inputDir, folders, filename, existing);
      if ImagePath(inputDir, folders[0], filename) in existing {
        assert FirstHolder(inputDir, folders, filename, existing, 0);
      } else {
        assert forall k :: 1 <= k < |folders| ==> folders[k] == folders[1..][k - 1];
        if found.Some? {
          var k :| 0 <= k < |folders[1..]| && FirstHolder(inputDir, folders[1..], filename, existing, k)
            && found.value == ImagePath(inputDir, folders[1..][k], filename);
          assert FirstHolder(inputDir, folders, filename, existing, k + 1);
        }
      }
    }
  }

  /** Folder `k` holds the file and no folder listed before it does. */
  ghost predicate FirstHolder(inputDir: Path, folders: seq<string>, filename: string, existing: set<Path>, k: nat)
    requires k < |folders|
  {
    && ImagePath(inputDir, folders[k], filename) in existing
    && forall j :: 0 <= j < k ==> ImagePath(inputDir, folders[j], filename) !in existing
  }

  /** What `process_row` returns: the filename when the image is missing or the transform
      fails, `None` when it was written. */
  function RowResult(row: Row, inputDir: Path, outputDir: Path, imgSize: int, disk: Disk, transform: Transform)
    : (r: Option<string>)
    ensures r.Some? ==> r.value == row.entry.filename
    ensures Locate(inputDir, disk.listing, row.entry.filename, disk.existing).None? ==> r.Some?
  {
    match Locate(inputDir, disk.listing, row.entry.filename, disk.existing)
    case None => Some(row.entry.filename)
    case Some(src) =>
      if transform(src, Destination(outputDir, row.split, row.entry.filename), imgSize) then None
      else Some(row.entry.filename)
  }

  /** A row fails with its own filename; it succeeds exactly when some listed folder holds the
      image and the transform of the image from the first such folder to
      `output_dir/split/filename` reports success. */
  lemma RowResultCases(row: Row, inputDir: Path, outputDir: Path, imgSize: int, disk: Disk, transform: Transform)
    ensures RowResult(row, inputDir, outputDir, imgSize, disk, transform).Some? ==>
      RowResult(row, inputDir, outputDir, imgSize, disk, transform).value == row.entry.filename
    ensures RowResult(row, inputDir, outputDir, imgSize, disk, transform).None? <==>
      exists k :: 0 <= k < |disk.listing| && FirstHolder(inputDir, disk.listing, row.entry.filename, disk.existing, k)
        && transform(ImagePath(inputDir, disk.listing[k], row.entry.filename),
                     Destination(outputDir, row.split, row.entry.filename), imgSize)
  {
    var name := row.entry.filename;
    LocateFirstMatch(inputDir, disk.listing, name, disk.existing);
    forall k, k' | 0 <= k < |disk.listing| && 0 <= k' < |disk.listing|
      && FirstHolder(inputDir, disk.listing, name, disk.existing, k)
      && FirstHolder(inputDir, disk.listing, name, disk.existing, k')
      ensures k == k'
    {
    }
  }

  /** `process_row`: search the listed folders in order, stop at the first that holds the
      image, and transform it into `output_dir/split/filename`. */
  method ProcessRow(row: Row, inputDir: Path, outputDir: Path, imgSize: int, disk: Disk, transform: Transform)
    returns (result: Option<string>)
    ensures result == RowResult(row, inputDir, outputDir, imgSize, disk, transform)
  {
    var filename := row.entry.filename;
    var split := row.split;
    var imgPath: Option<Path> := None;
    for i := 0 to |disk.listing|
      invariant imgPath.None? ==>
        Locate(inputDir, disk.listing[i..], filename, disk.existing) == Locate(inputDir, disk.listing, filename, disk.existing)
      invariant imgPath.Some? ==> imgPath == Locate(inputDir, disk.listing, filename, disk.existing)
    {
      var folderPath := ImagePath(inputDir, disk.listing[i], filename);
      assert disk.listing[i..][1..] == disk.listing[i + 1..];
      if folderPath in disk.existing {
        imgPath := Some(folderPath);
        break;
      }
    }
    if imgPath.None? {
      return Some(filename);
    }
    var dst := Destination(outputDir, split, filename);
    var ok := transform(imgPath.value, dst, imgSize);
    if !ok {
      return Some(filename);
    }
    return None;
  }

  // ---------------------------------------------------------------------------
  // Failure collection in main

  /** Python truthiness of a `process_row` result: `None` and the empty string are false. */
  predicate Truthy(result: Option<string>): (b: bool)
    ensures result == None ==> !b
    ensures result == Some("") ==> !b
    ensures result.Some? && |result.value| > 0 ==> b
  {
    result.Some? && result.value != ""
  }

  /** The truthy results, in arrival order. */
  function Failures(results: seq<Option<string>>): (missing: seq<string>)
    ensures |missing| <= |results|
    ensures forall x :: x in missing <==> x != "" && Some(x) in results
  {
    if results == [] then []
    else
      var last := results[|results| - 1];
      Failures(results[..|results| - 1]) + (if Truthy(last) then [last.value] else [])
  }

  /** Each failure is reported as often as it arrives, and the empty name never. */
  lemma {:induction false} FailuresCount(results: seq<Option<string>>, x: string)
    ensures multiset(Failures(results))[x] == if x == "" then 0 else multiset(results)[Some(x)]
  {
    if results != [] {
      var init, last := results[..|results| - 1], results[|results| - 1];
      assert results == init + [last];
      FailuresCount(init, x);
    }
  }

  /** The arrival order of the results changes only the order of the reported failures. */
  lemma FailuresOrderIrrelevant(a: seq<Option<string>>, b: seq<Option<string>>)
    requires multiset(a) == multiset(b)
    ensures multiset(Failures(a)) == multiset(Failures(b))
  {
    forall x | true
      ensures multiset(Failures(a))[x] == multiset(Failures(b))[x]
    {
      FailuresCount(a, x);
      FailuresCount(b, x);
    }
  }

  /** The loop of `main`: append every truthy result to `missing`. */
  method CollectFailures(results: seq<Option<string>>) returns (missing: seq<string>)
    ensures missing == Failures(results)
  {
    missing := [];
    for i := 0 to |results|
      invariant missing == Failures(results[..i])
    {
      assert results[..i + 1][..i] == results[..i];
      if Truthy(results[i]) {
        missing := missing + [results[i].value];
      }
    }
    assert results[..|results|] == results;
  }

  /** How many failing names `main` lists before the total. */
  const PreviewLimit: nat := 20

  /** The report `main` prints when some file failed: the names listed and the total. */
  datatype Report = Report(shown: seq<string>, total: nat)

  /** `if missing:` list `missing[:20]` and the total count; nothing when no file failed. */
  method Summarize(missing: seq<string>) returns (report: Option<Report>)
    ensures report.None? <==> missing == []
    ensures report.Some? ==> report.value.total == |missing|
    ensures report.Some? ==> |report.value.shown| == if |missing| < PreviewLimit then |missing| else PreviewLimit
    ensures report.Some? ==> report.value.shown == missing[..|report.value.shown|]
  {
    if missing == [] {
      return None;
    }
    var n := if |missing| < PreviewLimit then |missing| else PreviewLimit;
    var shown := [];
    for i := 0 to n
      invariant shown == missing[..i]
    {
      shown := shown + [missing[i]];
    }
    return Some(Report(shown, |missing|));
  }
}
