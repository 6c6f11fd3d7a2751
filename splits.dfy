/**
 * Split labelling and the train/val partition of the dataset table
 * (`load_split_files` and `assign_train_val` in scripts/prepare_dataset.py).
 *
 * The labels table is a sequence of entries; the `split` column the script
 * adds is the `split` field of a Row. The pandas shuffle is abstracted as an
 * arbitrary reordering of the trainval rows, supplied by the caller, and the
 * float `val_split` as an exact rational `num / den`.
 */
module Splits {

  /** The values the script stores in the `split` column. */
  datatype Split = TrainVal | Train | Val | Test

  /** The string the script writes in the `split` column (also the output directory name). */
  function SplitName(s: Split): (name: string)
    ensures name != ""
  {
    match s
    case TrainVal => "trainval"
    case Train => "train"
    case Val => "val"
    case Test => "test"
  }

  /** One row of the labels CSV: its `Image Index` and the remaining, opaque label columns. */
  datatype Entry = Entry(filename: string, labels: seq<string>)

  /** A row of the table once the `split` column is present. */
  datatype Row = Row(entry: Entry, split: Split)

  /** Tags every entry `Test` when its filename is in the test list, `TrainVal` otherwise.
      The trainval list is read by the script but never consulted. */
  function LoadSplits(table: seq<Entry>, trainvalList: seq<string>, testList: seq<string>): (rows: seq<Row>)
    ensures |rows| == |table|
    ensures forall i :: 0 <= i < |rows| ==> rows[i].entry == table[i]
    ensures forall i :: 0 <= i < |rows| ==> (rows[i].split == Test <==> table[i].filename in testList)
    ensures forall i :: 0 <= i < |rows| ==> (rows[i].split == TrainVal <==> table[i].filename !in testList)
  {
    if table == [] then []
    else
      [Row(table[0], if table[0].filename in testList then Test else TrainVal)]
      + LoadSplits(table[1..], trainvalList, testList)
  }

  /** Every row carries one of the two labels `LoadSplits` produces. */
  ghost predicate Tagged(rows: seq<Row>)
  {
    forall i :: 0 <= i < |rows| ==> rows[i].split == TrainVal || rows[i].split == Test
  }

  /** The rows whose split is `s`, in table order (`df[df["split"] == s]`). */
  function Having(rows: seq<Row>, s: Split): (r: seq<Row>)
    ensures |r| <= |rows|
    ensures forall i :: 0 <= i < |r| ==> r[i].split == s
    ensures forall x :: x in r <==> x in rows && x.split == s
  {
    if rows == [] then []
    else (if rows[0].split == s then [rows[0]] else []) + Having(rows[1..], s)
  }

  /** Filtering keeps every row of split `s` as often as it occurs, and no other row. */
  lemma {:induction false} HavingMultiset(rows: seq<Row>, s: Split)
    ensures forall x :: multiset(Having(rows, s))[x] == if x.split == s then multiset(rows)[x] else 0
  {
    if rows != [] {
      HavingMultiset(rows[1..], s);
      assert rows == [rows[0]] + rows[1..];
      assert multiset(rows) == multiset{rows[0]} + multiset(rows[1..]);
    }
  }

  /** The same rows with the `split` column overwritten by `s`: each row keeps its entry and
      its position, and every row now has split `s`. */
  function Relabel(rows: seq<Row>, s: Split): (r: seq<Row>)
    ensures |r| == |rows|
    ensures forall i :: 0 <= i < |r| ==> r[i].entry == rows[i].entry && r[i].split == s
  {
    if rows == [] then [] else [Row(rows[0].entry, s)] + Relabel(rows[1..], s)
  }

  /** The rows with the `split` column dropped. */
  function Entries(rows: seq<Row>): (e: seq<Entry>)
    ensures |e| == |rows|
    ensures forall i :: 0 <= i < |rows| ==> e[i] == rows[i].entry
  {
    seq(|rows|, i requires 0 <= i < |rows| => rows[i].entry)
  }

  /** Python's `int(a / d)` for `d > 0`: division truncating toward zero. */
  function TruncDiv(a: int, d: int): (q: int)
    requires d > 0
    ensures a >= 0 ==> q * d <= a < q * d + d
    ensures a < 0 ==> q * d - d < a <= q * d
  {
    if a >= 0 then a / d else -((-a) / d)
  }

  /** `int(n * val_split)` with `val_split == num / den`. */
  function ValCount(n: nat, num: int, den: int): (c: int)
    requires den > 0
    ensures 0 <= num < den ==> 0 <= c <= n && c * den <= n * num < c * den + den
    ensures den <= num ==> n <= c
    ensures num < 0 ==> c <= 0
  {
    ValCountBounds(n, num, den);
    TruncDiv(n * num, den)
  }

  lemma ValCountBounds(n: nat, num: int, den: int)
    requires den > 0
    ensures 0 <= num < den ==> 0 <= TruncDiv(n * num, den) <= n
    ensures den <= num ==> n <= TruncDiv(n * num, den)
    ensures num < 0 ==> TruncDiv(n * num, den) <= 0
  {
    var a, c := n * num, TruncDiv(n * num, den);
    assert (c + 1) * den == c * den + den;
    assert (n + 1) * den == n * den + den;
    if 0 <= num < den {
      MulLe(0, num, n);
      MulLe(num, den, n);
      assert 0 * den < (c + 1) * den;
      MulCancelLt(0, c + 1, den);
      assert c * den < (n + 1) * den;
      MulCancelLt(c, n + 1, den);
    }
    if num < 0 {
      MulLe(num, 0, n);
      if a < 0 {
        assert (c - 1) * den == c * den - den;
        assert (c - 1) * den < 0 * den;
        MulCancelLt(c - 1, 0, den);
      }
    }
    if den <= num {
      MulLe(den, num, n);
      assert n * den < (c + 1) * den;
      MulCancelLt(n, c + 1, den);
    }
  }

  lemma MulLe(x: int, y: int, k: nat)
    requires x <= y
    ensures x * k <= y * k
  {
    var d: nat := y - x;
    assert y * k == x * k + d * k;
  }

  lemma MulCancelLt(x: int, y: int, k: int)
    requires k > 0 && x * k < y * k
    ensures x < y
  {
    if x >= y {
      MulLe(y, x, k);
    }
  }

  /** The bound Python and `iloc` use for a slice index `k` on a sequence of length `n`:
      negative indices count from the end, and both ends are clamped to the sequence. */
  function SliceBound(k: int, n: nat): (b: nat)
    ensures b <= n
    ensures 0 <= k <= n ==> b == k
  {
    if k < 0 then (if n + k < 0 then 0 else n + k)
    else if k > n then n
    else k
  }

  /** `assign_train_val`: the shuffled trainval rows are cut after `val_count`; the prefix
      becomes `val`, the rest `train`, and the result is `train + val + test`. Rows whose
      split is neither trainval nor test are dropped by both filters. */
  function AssignTrainVal(rows: seq<Row>, shuffled: seq<Row>, num: int, den: int): (r: seq<Row>)
    requires den > 0
    requires multiset(shuffled) == multiset(Having(rows, TrainVal))
    ensures |r| == |Having(rows, TrainVal)| + |Having(rows, Test)|
    ensures forall i :: 0 <= i < |r| ==> r[i].split == Train || r[i].split == Val || r[i].split == Test
  {
    assert |shuffled| == |multiset(shuffled)|;
    var b := SliceBound(ValCount(|shuffled|, num, den), |shuffled|);
    Relabel(shuffled[b..], Train) + Relabel(shuffled[..b], Val) + Having(rows, Test)
  }

  // ---------------------------------------------------------------------------
  // Lemmas about the split labelling

  /** The trainval list has no influence on the labels. */
  lemma LoadSplitsIgnoresTrainvalList(table: seq<Entry>, a: seq<string>, b: seq<string>, testList: seq<string>)
    ensures LoadSplits(table, a, testList) == LoadSplits(table, b, testList)
  {
    var ra, rb := LoadSplits(table, a, testList), LoadSplits(table, b, testList);
    assert forall i :: 0 <= i < |ra| ==> ra[i] == rb[i];
  }

  /** `LoadSplits` yields only the two labels `assign_train_val` expects. */
  lemma LoadSplitsTagged(table: seq<Entry>, trainvalList: seq<string>, testList: seq<string>)
    ensures Tagged(LoadSplits(table, trainvalList, testList))
  {
  }

  // ---------------------------------------------------------------------------
  // Helper facts about filtering, relabelling and dropping the split column

  lemma {:induction false} HavingConcat(a: seq<Row>, b: seq<Row>, s: Split)
    ensures Having(a + b, s) == Having(a, s) + Having(b, s)
  {
    if a == [] {
      assert a + b == b;
    } else {
      assert (a + b)[0] == a[0];
      assert (a + b)[1..] == a[1..] + b;
      HavingConcat(a[1..], b, s);
    }
  }

  lemma {:induction false} HavingRelabel(rows: seq<Row>, s: Split, t: Split)
    ensures Having(Relabel(rows, s), t) == if s == t then Relabel(rows, s) else []
  {
    if rows != [] {
      HavingRelabel(rows[1..], s, t);
    }
  }

  lemma {:induction false} HavingHaving(rows: seq<Row>, s: Split, t: Split)
    ensures Having(Having(rows, s), t) == if s == t then Having(rows, s) else []
  {
    if rows != [] {
      var head := if rows[0].split == s then [rows[0]] else [];
      HavingConcat(head, Having(rows[1..], s), t);
      HavingHaving(rows[1..], s, t);
    }
  }

  lemma EntriesConcat(a: seq<Row>, b: seq<Row>)
    ensures Entries(a + b) == Entries(a) + Entries(b)
  {
    assert forall i :: 0 <= i < |a + b| ==> Entries(a + b)[i] == (Entries(a) + Entries(b))[i];
  }

  lemma EntriesRelabel(rows: seq<Row>, s: Split)
    ensures Entries(Relabel(rows, s)) == Entries(rows)
  {
    assert forall i :: 0 <= i < |rows| ==> Entries(Relabel(rows, s))[i] == Entries(rows)[i];
  }

  lemma EntriesMultisetConcat(a: seq<Row>, b: seq<Row>)
    ensures multiset(Entries(a + b)) == multiset(Entries(a)) + multiset(Entries(b))
  {
    EntriesConcat(a, b);
  }

  /** Taking the row at index `j` out of `t` takes its entry out of the entries of `t`. */
  lemma EntriesRemove(t: seq<Row>, j: nat)
    requires j < |t|
    ensures multiset(Entries(t)) == multiset(Entries(t[..j] + t[j + 1..])) + multiset{t[j].entry}
  {
    var pre, post := t[..j], t[j + 1..];
    assert t[j..] == [t[j]] + post;
    assert t == pre + t[j..];
    EntriesMultisetConcat(pre, [t[j]] + post);
    EntriesMultisetConcat([t[j]], post);
    assert Entries([t[j]]) == [t[j].entry];
    EntriesMultisetConcat(pre, post);
  }

  lemma MultisetRemove<T>(t: seq<T>, j: nat)
    requires j < |t|
    ensures multiset(t[..j] + t[j + 1..]) == multiset(t) - multiset{t[j]}
  {
    assert t == t[..j] + [t[j]] + t[j + 1..];
  }

  lemma EntriesCons(s: seq<Row>)
    requires s != []
    ensures multiset(Entries(s)) == multiset(Entries(s[1..])) + multiset{s[0].entry}
  {
    assert s == [s[0]] + s[1..];
    EntriesMultisetConcat([s[0]], s[1..]);
    assert Entries([s[0]]) == [s[0].entry];
  }

  /** Removing the same row from two reorderings of each other leaves two reorderings. */
  lemma PermutationStep<T>(s: seq<T>, t: seq<T>, j: nat)
    requires multiset(s) == multiset(t)
    requires s != [] && j < |t| && t[j] == s[0]
    ensures multiset(s[1..]) == multiset(t[..j] + t[j + 1..])
  {
    MultisetRemove(t, j);
    assert s == [s[0]] + s[1..];
  }

  /** Reordering rows reorders their entries. */
  lemma {:induction false} EntriesPermutation(s: seq<Row>, t: seq<Row>)
    requires multiset(s) == multiset(t)
    ensures multiset(Entries(s)) == multiset(Entries(t))
    decreases |s|
  {
    if s == [] {
      assert |t| == |multiset(t)| == 0;
    } else {
      assert s[0] in multiset(t);
      var j :| 0 <= j < |t| && t[j] == s[0];
      PermutationStep(s, t, j);
      EntriesPermutation(s[1..], t[..j] + t[j + 1..]);
      EntriesCons(s);
      EntriesRemove(t, j);
    }
  }

  /** On a tagged table, the trainval and test filters together keep every row exactly once. */
  lemma {:induction false} TaggedPartition(rows: seq<Row>)
    requires Tagged(rows)
    ensures |Having(rows, TrainVal)| + |Having(rows, Test)| == |rows|
    ensures multiset(Entries(Having(rows, TrainVal))) + multiset(Entries(Having(rows, Test)))
         == multiset(Entries(rows))
  {
    if rows != [] {
      var x := rows[0];
      TaggedPartition(rows[1..]);
      assert rows == [x] + rows[1..];
      EntriesMultisetConcat([x], rows[1..]);
      var tv := if x.split == TrainVal then [x] else [];
      var te := if x.split == Test then [x] else [];
      assert Having(rows, TrainVal) == tv + Having(rows[1..], TrainVal);
      assert Having(rows, Test) == te + Having(rows[1..], Test);
      EntriesMultisetConcat(tv, Having(rows[1..], TrainVal));
      EntriesMultisetConcat(te, Having(rows[1..], Test));
      assert multiset(Entries(tv)) + multiset(Entries(te)) == multiset(Entries([x]));
    }
  }

  // ---------------------------------------------------------------------------
  // Lemmas about assign_train_val

  /** The three groups of `train + val + test` can be read back by filtering on the split. */
  lemma PartsOf(train: seq<Row>, val: seq<Row>, rows: seq<Row>)
    ensures Having(Relabel(train, Train) + Relabel(val, Val) + Having(rows, Test), Train) == Relabel(train, Train)
    ensures Having(Relabel(train, Train) + Relabel(val, Val) + Having(rows, Test), Val) == Relabel(val, Val)
    ensures Having(Relabel(train, Train) + Relabel(val, Val) + Having(rows, Test), Test) == Having(rows, Test)
  {
    var r := Relabel(train, Train) + Relabel(val, Val) + Having(rows, Test);
    assert Having(r, Train) == Relabel(train, Train) by {
      PartsAt(train, val, rows, Train);
      assert Relabel(train, Train) + [] + [] == Relabel(train, Train);
    }
    assert Having(r, Val) == Relabel(val, Val) by {
      PartsAt(train, val, rows, Val);
      assert [] + Relabel(val, Val) + [] == Relabel(val, Val);
    }
    assert Having(r, Test) == Having(rows, Test) by {
      PartsAt(train, val, rows, Test);
      assert [] + [] + Having(rows, Test) == Having(rows, Test);
    }
  }

  lemma PartsAt(train: seq<Row>, val: seq<Row>, rows: seq<Row>, s: Split)
    ensures Having(Relabel(train, Train) + Relabel(val, Val) + Having(rows, Test), s)
         == (if s == Train then Relabel(train, Train) else [])
          + (if s == Val then Relabel(val, Val) else [])
          + (if s == Test then Having(rows, Test) else [])
  {
    var tr, va, te := Relabel(train, Train), Relabel(val, Val), Having(rows, Test);
    HavingConcat(tr + va, te, s);
    HavingConcat(tr, va, s);
    HavingRelabel(train, Train, s);
    HavingRelabel(val, Val, s);
    HavingHaving(rows, Test, s);
  }

  /** For `0 <= val_split < 1`: `val_count == floor(n * val_split)` lies in `[0, n]`, the
      `val` rows are exactly the first `val_count` shuffled rows, the `train` rows exactly the
      remaining `n - val_count`, and the test rows pass through unchanged. */
  lemma ValSplitSizes(rows: seq<Row>, shuffled: seq<Row>, num: int, den: int, r: seq<Row>)
    requires 0 <= num < den
    requires multiset(shuffled) == multiset(Having(rows, TrainVal))
    requires r == AssignTrainVal(rows, shuffled, num, den)
    ensures |shuffled| == |Having(rows, TrainVal)|
    ensures var c := ValCount(|shuffled|, num, den);
      && 0 <= c <= |shuffled|
      && c * den <= |shuffled| * num < c * den + den
      && Having(r, Val) == Relabel(shuffled[..c], Val)
      && Having(r, Train) == Relabel(shuffled[c..], Train)
      && |Having(r, Val)| == c
      && |Having(r, Train)| == |shuffled| - c
    ensures Having(r, Test) == Having(rows, Test)
  {
    assert |shuffled| == |multiset(shuffled)|;
    var c := ValCount(|shuffled|, num, den);
    PartsOf(shuffled[c..], shuffled[..c], rows);
  }

  /** `assign_train_val` conserves rows: on a table `LoadSplits` produced, the output has the
      same length, and the same entries with the same multiplicities; only `split` changes. */
  lemma AssignConservesRows(rows: seq<Row>, shuffled: seq<Row>, num: int, den: int, r: seq<Row>)
    requires den > 0
    requires Tagged(rows)
    requires multiset(shuffled) == multiset(Having(rows, TrainVal))
    requires r == AssignTrainVal(rows, shuffled, num, den)
    ensures |r| == |rows|
    ensures multiset(Entries(r)) == multiset(Entries(rows))
  {
    assert |shuffled| == |multiset(shuffled)|;
    var b := SliceBound(ValCount(|shuffled|, num, den), |shuffled|);
    var train, val, test := Relabel(shuffled[b..], Train), Relabel(shuffled[..b], Val), Having(rows, Test);
    assert r == train + val + test;
    TaggedPartition(rows);
    assert Entries(train) + Entries(val) == Entries(shuffled[b..]) + Entries(shuffled[..b]) by {
      EntriesRelabel(shuffled[b..], Train);
      EntriesRelabel(shuffled[..b], Val);
    }
    assert multiset(Entries(train + val)) == multiset(Entries(shuffled)) by {
      EntriesConcat(train, val);
      EntriesConcat(shuffled[..b], shuffled[b..]);
      assert shuffled[..b] + shuffled[b..] == shuffled;
    }
    assert multiset(Entries(shuffled)) == multiset(Entries(Having(rows, TrainVal))) by {
      EntriesPermutation(shuffled, Having(rows, TrainVal));
    }
    EntriesConcat(train + val, test);
  }

  /** Labelling followed by the partition hands every entry of the labels table to the
      dispatcher exactly once, with its label columns unchanged. */
  lemma LabelledTableConserved(table: seq<Entry>, trainvalList: seq<string>, testList: seq<string>,
                               shuffled: seq<Row>, num: int, den: int)
    requires den > 0
    requires multiset(shuffled) == multiset(Having(LoadSplits(table, trainvalList, testList), TrainVal))
    ensures |AssignTrainVal(LoadSplits(table, trainvalList, testList), shuffled, num, den)| == |table|
    ensures multiset(Entries(AssignTrainVal(LoadSplits(table, trainvalList, testList), shuffled, num, den)))
         == multiset(table)
  {
    var rows := LoadSplits(table, trainvalList, testList);
    LoadSplitsTagged(table, trainvalList, testList);
    AssignConservesRows(rows, shuffled, num, den, AssignTrainVal(rows, shuffled, num, den));
    assert Entries(rows) == table;
  }

  /** With `val_split >= 1` the whole shuffled trainval partition becomes `val` and `train`
      is empty: `int(n * val_split) >= n` and the slice bound clamps to `n`. */
  lemma ValSplitAtLeastOne(rows: seq<Row>, shuffled: seq<Row>, num: int, den: int, r: seq<Row>)
    requires 0 < den <= num
    requires multiset(shuffled) == multiset(Having(rows, TrainVal))
    requires r == AssignTrainVal(rows, shuffled, num, den)
    ensures Having(r, Train) == []
    ensures Having(r, Val) == Relabel(shuffled, Val)
  {
    assert |shuffled| == |multiset(shuffled)|;
    var n := |shuffled|;
    assert shuffled[..n] == shuffled;
    PartsOf(shuffled[n..], shuffled, rows);
  }

  /** With a negative `val_split`, `int()` truncates toward zero to `val_count <= 0`. A zero
      `val_count` leaves `val` empty; a negative one is counted from the end by the slice
      `[:val_count]`, so `val` holds the first `max(0, n + val_count)` shuffled rows and
      `train` the rest. */
  lemma ValSplitNegative(rows: seq<Row>, shuffled: seq<Row>, num: int, den: int, r: seq<Row>)
    requires den > 0 && num < 0
    requires multiset(shuffled) == multiset(Having(rows, TrainVal))
    requires r == AssignTrainVal(rows, shuffled, num, den)
    ensures ValCount(|shuffled|, num, den) <= 0
    ensures var c := ValCount(|shuffled|, num, den);
      var kept := if c == 0 || |shuffled| + c < 0 then 0 else |shuffled| + c;
      && kept <= |shuffled|
      && Having(r, Val) == Relabel(shuffled[..kept], Val)
      && Having(r, Train) == Relabel(shuffled[kept..], Train)
  {
    assert |shuffled| == |multiset(shuffled)|;
    var c := ValCount(|shuffled|, num, den);
    var b := SliceBound(c, |shuffled|);
    assert b == if c == 0 || |shuffled| + c < 0 then 0 else |shuffled| + c;
    PartsOf(shuffled[b..], shuffled[..b], rows);
  }

  /** Ten records, seven trainval and three test, with `val_split = 0.2`: one `val`,
      six `train` and three `test` rows. */
  lemma TenRecordExample(rows: seq<Row>, shuffled: seq<Row>, r: seq<Row>)
    requires |Having(rows, TrainVal)| == 7 && |Having(rows, Test)| == 3
    requires multiset(shuffled) == multiset(Having(rows, TrainVal))
    requires r == AssignTrainVal(rows, shuffled, 1, 5)
    ensures |Having(r, Val)| == 1 && |Having(r, Train)| == 6 && |Having(r, Test)| == 3
  {
    ValSplitSizes(rows, shuffled, 1, 5, r);
    assert |shuffled| == 7;
    assert ValCount(7, 1, 5) == 1;
  }
}
