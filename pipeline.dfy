/**
 * `main` of scripts/prepare_dataset.py: label the table, carve out the
 * validation rows, run `process_row` on every row and report the failures.
 * The worker pool is modelled as processing the rows in an arrival order chosen
 * by the caller, any reordering of the partitioned rows. `ResultsPermutation`
 * and `Dispatch.FailuresOrderIrrelevant` tie the failures of that order to
 * those of the table order.
 */
module Pipeline {
  import opened Wrappers
  import opened Splits
  import opened Dispatch

  /** The `process_row` result of every row, in row order. */
  function Results(rows: seq<Row>, inputDir: Path, outputDir: Path, imgSize: int, disk: Disk, transform: Transform)
    : (results: seq<Option<string>>)
    ensures |results| == |rows|
  {
    seq(|rows|, i requires 0 <= i < |rows| => RowResult(rows[i], inputDir, outputDir, imgSize, disk, transform))
  }

  /** The failure list holds exactly the non-empty filenames of the rows whose image was
      missing from every shard or whose transform failed. */
  lemma FailuresAreFailedRows(rows: seq<Row>, inputDir: Path, outputDir: Path, imgSize: int, disk: Disk, transform: Transform)
    ensures forall x ::
      (x in Failures(Results(rows, inputDir, outputDir, imgSize, disk, transform)) <==>
       (x != "" && exists i :: 0 <= i < |rows| && rows[i].entry.filename == x
                               && RowResult(rows[i], inputDir, outputDir, imgSize, disk, transform).Some?))
  {
    var results := Results(rows, inputDir, outputDir, imgSize, disk, transform);
    forall i | 0 <= i < |rows|
      ensures results[i].Some? ==> results[i] == Some(rows[i].entry.filename)
    {
      RowResultCases(rows[i], inputDir, outputDir, imgSize, disk, transform);
    }
  }

  lemma ResultsConcat(a: seq<Row>, b: seq<Row>, inputDir: Path, outputDir: Path, imgSize: int, disk: Disk, transform: Transform)
    ensures Results(a + b, inputDir, outputDir, imgSize, disk, transform)
         == Results(a, inputDir, outputDir, imgSize, disk, transform) + Results(b, inputDir, outputDir, imgSize, disk, transform)
  {
  }

  /** Taking row `j` out of `t` takes its result out of the results of `t`. */
  lemma ResultsRemove(t: seq<Row>, j: nat, inputDir: Path, outputDir: Path, imgSize: int, disk: Disk, transform: Transform)
    requires j < |t|
    ensures multiset(Results(t, inputDir, outputDir, imgSize, disk, transform))
         == multiset(Results(t[..j] + t[j + 1..], inputDir, outputDir, imgSize, disk, transform))
          + multiset{RowResult(t[j], inputDir, outputDir, imgSize, disk, transform)}
  {
    var pre, post := t[..j], t[j + 1..];
    assert t[j..] == [t[j]] + post;
    assert t == pre + ([t[j]] + post);
    ResultsConcat(pre, [t[j]] + post, inputDir, outputDir, imgSize, disk, transform);
    ResultsConcat([t[j]], post, inputDir, outputDir, imgSize, disk, transform);
    ResultsConcat(pre, post, inputDir, outputDir, imgSize, disk, transform);
  }

  lemma ResultsCons(s: seq<Row>, inputDir: Path, outputDir: Path, imgSize: int, disk: Disk, transform: Transform)
    requires s != []
    ensures multiset(Results(s, inputDir, outputDir, imgSize, disk, transform))
         == multiset(Results(s[1..], inputDir, outputDir, imgSize, disk, transform))
          + multiset{RowResult(s[0], inputDir, outputDir, imgSize, disk, transform)}
  {
    assert s == [s[0]] + s[1..];
    ResultsConcat([s[0]], s[1..], inputDir, outputDir, imgSize, disk, transform);
  }

  /** Processing the rows in another order yields the same results in another order. */
  lemma {:induction false} ResultsPermutation(s: seq<Row>, t: seq<Row>,
                                              inputDir: Path, outputDir: Path, imgSize: int, disk: Disk, transform: Transform)
    requires multiset(s) == multiset(t)
    ensures multiset(Results(s, inputDir, outputDir, imgSize, disk, transform))
         == multiset(Results(t, inputDir, outputDir, imgSize, disk, transform))
    decreases |s|
  {
    if s == [] {
      assert |t| == |multiset(t)| == 0;
    } else {
      assert s[0] in multiset(t);
      var j :| 0 <= j < |t| && t[j] == s[0];
      PermutationStep(s, t, j);
      ResultsPermutation(s[1..], t[..j] + t[j + 1..], inputDir, outputDir, imgSize, disk, transform);
      ResultsRemove(t, j, inputDir, outputDir, imgSize, disk, transform);
      ResultsCons(s, inputDir, outputDir, imgSize, disk, transform);
    }
  }

  /** The worker pool: `process_row` on every row, the results arriving in the order the
      rows are handed in. */
  method RunPool(rows: seq<Row>, inputDir: Path, outputDir: Path, imgSize: int, disk: Disk, transform: Transform)
    returns (results: seq<Option<string>>)
    ensures results == Results(rows, inputDir, outputDir, imgSize, disk, transform)
  {
    results := [];
    for i := 0 to |rows|
      invariant |results| == i
      invariant forall k :: 0 <= k < i ==> results[k] == RowResult(rows[k], inputDir, outputDir, imgSize, disk, transform)
    {
      var result := ProcessRow(rows[i], inputDir, outputDir, imgSize, disk, transform);
      results := results + [result];
    }
  }

  /** `main`: the rows of the labelled, partitioned table are processed, arriving in any
      order `arrival` (a reordering of the rows, as `imap_unordered` delivers them); the
      truthy results form the failure list in arrival order, and it is summarised when
      non-empty. Up to order, the failures are those of the table itself. */
  method Prepare(table: seq<Entry>, trainvalList: seq<string>, testList: seq<string>,
                 shuffled: seq<Row>, num: int, den: int, arrival: seq<Row>,
                 inputDir: Path, outputDir: Path, imgSize: int, disk: Disk, transform: Transform)
    returns (missing: seq<string>, report: Option<Report>)
    requires den > 0
    requires multiset(shuffled) == multiset(Having(LoadSplits(table, trainvalList, testList), TrainVal))
    requires multiset(arrival) == multiset(AssignTrainVal(LoadSplits(table, trainvalList, testList), shuffled, num, den))
    ensures missing == Failures(Results(arrival, inputDir, outputDir, imgSize, disk, transform))
    ensures multiset(missing)
         == multiset(Failures(Results(AssignTrainVal(LoadSplits(table, trainvalList, testList), shuffled, num, den),
                                      inputDir, outputDir, imgSize, disk, transform)))
    ensures report.None? <==> missing == []
    ensures report.Some? ==> report.value.total == |missing|
    ensures report.Some? ==> report.value.shown == missing[..if |missing| < PreviewLimit then |missing| else PreviewLimit]
  {
    var rows := LoadSplits(table, trainvalList, testList);
    rows := AssignTrainVal(rows, shuffled, num, den);
    var results := RunPool(arrival, inputDir, outputDir, imgSize, disk, transform);
    missing := CollectFailures(results);
    ResultsPermutation(arrival, rows, inputDir, outputDir, imgSize, disk, transform);
    FailuresOrderIrrelevant(results, Results(rows, inputDir, outputDir, imgSize, disk, transform));
    report := Summarize(missing);
  }
}
