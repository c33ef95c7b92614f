/** The response histograms of the dashboard: `parse_hist_stats` and the
    column reshaping of course_dashboard/preprocess.py, and
    `compute_weighted_avg` of course_dashboard/app/routes/helper.py. A cell
    holds the text of a list of `(score, count)` pairs; the model takes it
    already read back by `ast.literal_eval`, with `None` for a missing cell
    (pandas' NaN) or, for the helper, for text that does not read back. */
module Histogram {
  import opened Wrappers
  import opened Assoc
  import opened Extract

  // ------------------------------------------------------------ sums

  /** The sum of the counts. */
  function ValueSum(ps: seq<Pair>): int
    decreases |ps|
  {
    if |ps| == 0 then 0 else ValueSum(ps[..|ps| - 1]) + ps[|ps| - 1].1
  }

  /** The sum of score times count. */
  function WeightedSum(ps: seq<Pair>): int
    decreases |ps|
  {
    if |ps| == 0 then 0 else WeightedSum(ps[..|ps| - 1]) + ps[|ps| - 1].0 * ps[|ps| - 1].1
  }

  predicate NonNegative(ps: seq<Pair>) {
    forall i :: 0 <= i < |ps| ==> ps[i].1 >= 0
  }

  /** Every non-zero score lies between `lo` and `hi`. */
  predicate ScoresWithin(ps: seq<Pair>, lo: int, hi: int) {
    forall i :: 0 <= i < |ps| && ps[i].0 != 0 ==> lo <= ps[i].0 <= hi
  }

  lemma {:induction false} ValueSumNonNegative(ps: seq<Pair>)
    requires NonNegative(ps)
    ensures ValueSum(ps) >= 0
    decreases |ps|
  {
    if |ps| > 0 {
      ValueSumNonNegative(ps[..|ps| - 1]);
    }
  }

  /** With non-negative counts, the weighted sum lies between the smallest
      and the largest score times the number of responses. */
  lemma {:induction false} WeightedSumBounds(ps: seq<Pair>, lo: int, hi: int)
    requires NonNegative(ps)
    requires forall i :: 0 <= i < |ps| ==> lo <= ps[i].0 <= hi
    ensures lo * ValueSum(ps) <= WeightedSum(ps) <= hi * ValueSum(ps)
    decreases |ps|
  {
    if |ps| > 0 {
      var init := ps[..|ps| - 1];
      var (v, c) := ps[|ps| - 1];
      WeightedSumBounds(init, lo, hi);
      MulBetween(lo, v, hi, c);
      var n, w := ValueSum(init), WeightedSum(init);
      assert ValueSum(ps) == n + c && WeightedSum(ps) == w + v * c;
      assert lo * (n + c) == lo * n + lo * c;
      assert hi * (n + c) == hi * n + hi * c;
    }
  }

  lemma MulBetween(lo: int, v: int, hi: int, c: int)
    requires lo <= v <= hi && c >= 0
    ensures lo * c <= v * c <= hi * c
  {
    assert (v - lo) * c >= 0 && (hi - v) * c >= 0;
  }

  /** `sum / total` lies between `lo` and `hi` when `sum` does between
      `lo * total` and `hi * total`. */
  lemma MeanBetween(sum: int, total: int, lo: int, hi: int)
    requires total > 0 && lo * total <= sum <= hi * total
    ensures lo as real <= sum as real / total as real <= hi as real
  {
    var m := sum as real / total as real;
    assert m - lo as real == (sum - lo * total) as real / total as real;
    assert hi as real - m == (hi * total - sum) as real / total as real;
  }

  // ------------------------------------------------------------ preprocess.py

  /** `{v: c for v, c in pairs if v != 0}`: a dict in first-insertion order
      whose value for a score is the count of its last pair. */
  function Counts(ps: seq<Pair>): (d: seq<Pair>)
    ensures DistinctKeys(d)
    ensures forall i :: 0 <= i < |d| ==> d[i].0 != 0 && d[i] in ps
    decreases |ps|
  {
    if |ps| == 0 then []
    else
      var init := ps[..|ps| - 1];
      var d := Counts(init);
      var (v, c) := ps[|ps| - 1];
      if v == 0 then d
      else
        PutDistinct(d, v, c);
        PutEntries(d, v, c);
        Put(d, v, c)
  }

  /** The count of the last pair with score `v`. */
  function LastCount(ps: seq<Pair>, v: int): Option<int>
    decreases |ps|
  {
    if |ps| == 0 then None
    else if ps[|ps| - 1].0 == v then Some(ps[|ps| - 1].1)
    else LastCount(ps[..|ps| - 1], v)
  }

  /** The dict keeps each non-zero score with the count of its last pair, and
      drops score 0. */
  lemma {:induction false} CountsLastWins(ps: seq<Pair>, v: int)
    ensures Get(Counts(ps), v) == if v == 0 then None else LastCount(ps, v)
    decreases |ps|
  {
    if v == 0 {
      assert forall i :: 0 <= i < |Keys(Counts(ps))| ==> Keys(Counts(ps))[i] != 0;
    } else if |ps| > 0 {
      var init := ps[..|ps| - 1];
      var (w, c) := ps[|ps| - 1];
      CountsLastWins(init, v);
      if w != 0 && w != v {
        PutOther(Counts(init), w, c, v);
      }
    }
  }

  /** The per-cell statistics: `(n, mean)`, with `None` for NaN. */
  datatype Stats = Stats(n: int, mean: Option<real>)

  /** `parse_hist_stats(cell)`. */
  function ParseHistStats(cell: Option<seq<Pair>>): (s: Stats)
    ensures cell.None? ==> s == Stats(0, None)
    ensures s.mean.Some? <==> s.n != 0
  {
    if cell.None? then Stats(0, None)
    else
      var d := Counts(cell.value);
      var n := ValueSum(d);
      Stats(n, if n != 0 then Some(WeightedSum(d) as real / n as real) else None)
  }

  /** The mean is a weighted mean: with non-negative counts it lies between
      the smallest and the largest non-zero score. */
  lemma HistMeanWithin(ps: seq<Pair>, lo: int, hi: int)
    requires NonNegative(ps) && ScoresWithin(ps, lo, hi)
    ensures ParseHistStats(Some(ps)).n >= 0
    ensures ParseHistStats(Some(ps)).mean.Some? ==>
      lo as real <= ParseHistStats(Some(ps)).mean.value <= hi as real
  {
    var d := Counts(ps);
    assert NonNegative(d) && forall i :: 0 <= i < |d| ==> lo <= d[i].0 <= hi by {
      forall i | 0 <= i < |d|
        ensures d[i].1 >= 0 && lo <= d[i].0 <= hi
      {
        var j :| 0 <= j < |ps| && ps[j] == d[i];
      }
    }
    ValueSumNonNegative(d);
    WeightedSumBounds(d, lo, hi);
    if ValueSum(d) != 0 {
      MeanBetween(WeightedSum(d), ValueSum(d), lo, hi);
    }
  }

  /** `df.columns[7:]`: the histogram columns. */
  function HistCols(cols: seq<string>): seq<string> {
    if |cols| >= 7 then cols[7..] else []
  }

  /** The shape of a row of `process_pdf`: the seven fixed columns, then
      question columns, each holding a response list. */
  predicate QuestionRow(row: Row) {
    && |row| >= 7 && Keys(row)[..7] == FIXED_KEYS
    && forall i :: 7 <= i < |row| ==> row[i].0 !in FIXED_KEYS && row[i].1.PairList?
  }

  lemma ProcessPdfQuestionRow(text: string, fname: string, row: Row)
    requires ProcessPdf(text, fname) == Success(row)
    ensures QuestionRow(row)
  {
    ProcessPdfAssembles(text, fname);
    var qs := ParseBlocks(SplitBlocks(text)[1..]).value;
    AssembleRowExtraColumns(fname, ExtractMetadata(text), Collect(qs, []), FilenameRespondents(fname));
  }

  /** In such a row the histogram columns are exactly the question columns. */
  lemma QuestionRowHistCols(row: Row)
    requires QuestionRow(row)
    ensures var h := HistCols(Keys(row));
      && Keys(row) == FIXED_KEYS + h
      && |h| == |row| - 7
      && forall i :: 7 <= i < |row| ==> h[i - 7] == row[i].0 && h[i - 7] !in FIXED_KEYS
  {
    assert Keys(row) == Keys(row)[..7] + Keys(row)[7..];
  }

  /** A cell of the reshaped frame. */
  datatype Field = Kept(v: Value) | Count(n: int) | Mean(m: Option<real>)

  /** Why `literal_eval` or the pair loop raises: the cell is neither a
      response list nor missing. */
  datatype PreprocessError = NotAHistogram(column: string)

  /** A histogram cell as `parse_hist_stats` reads it. */
  function HistCell(v: Value): Option<Option<seq<Pair>>> {
    match v
    case Null => Some(None)
    case PairList(ps) => Some(Some(ps))
    case _ => None
  }

  /** The two columns `<col>_n` and `<col>_mean` that replace a histogram
      column with statistics `st`. */
  function StatPair(col: string, st: Stats): seq<(string, Field)> {
    [(col + "_n", Count(st.n)), (col + "_mean", Mean(st.mean))]
  }

  /** `parse_hist_stats` applied to every histogram column. */
  function HistStats(hist: seq<(string, Option<seq<Pair>>)>): (r: seq<(string, Stats)>)
    ensures |r| == |hist|
    ensures forall k :: 0 <= k < |hist| ==> r[k] == (hist[k].0, ParseHistStats(hist[k].1))
  {
    seq(|hist|, k requires 0 <= k < |hist| => (hist[k].0, ParseHistStats(hist[k].1)))
  }

  /** The statistics columns of every histogram column, in column order. */
  function StatFields(stats: seq<(string, Stats)>): (r: seq<(string, Field)>)
    ensures |r| == 2 * |stats|
    decreases |stats|
  {
    if |stats| == 0 then [] else StatPair(stats[0].0, stats[0].1) + StatFields(stats[1..])
  }

  lemma {:induction false} StatFieldsAt(stats: seq<(string, Stats)>, i: nat)
    requires i < |stats|
    ensures StatFields(stats)[2 * i..2 * i + 2] == StatPair(stats[i].0, stats[i].1)
    decreases i
  {
    if i > 0 {
      StatFieldsAt(stats[1..], i - 1);
      assert StatFields(stats)[2 * i..2 * i + 2] == StatFields(stats[1..])[2 * (i - 1)..2 * (i - 1) + 2];
    }
  }

  /** Reading every histogram cell, stopping at the first that is not one. */
  function ReadHist(hist: Row): (r: Result<seq<(string, Option<seq<Pair>>)>, PreprocessError>)
    ensures r.Success? <==> forall i :: 0 <= i < |hist| ==> HistCell(hist[i].1).Some?
    ensures r.Success? ==> |r.value| == |hist|
    ensures r.Success? ==> forall i :: 0 <= i < |hist| ==> r.value[i] == (hist[i].0, HistCell(hist[i].1).value)
    ensures r.Failure? ==>
      exists i :: 0 <= i < |hist| && HistCell(hist[i].1).None? && r.error == NotAHistogram(hist[i].0)
                  && forall j :: 0 <= j < i ==> HistCell(hist[j].1).Some?
  {
    var steps := seq(|hist|, i requires 0 <= i < |hist| =>
      if HistCell(hist[i].1).Some? then Success((hist[i].0, HistCell(hist[i].1).value))
      else Failure(NotAHistogram(hist[i].0)));
    var r := AllOrFirstFailure(steps);
    assert forall i :: 0 <= i < |hist| ==> (steps[i].Success? <==> HistCell(hist[i].1).Some?);
    if r.Failure? then
      var k :| 0 <= k < |steps| && steps[k] == Failure(r.error) && forall j :: 0 <= j < k ==> steps[j].Success?;
      assert HistCell(hist[k].1).None? && r.error == NotAHistogram(hist[k].0);
      assert forall j :: 0 <= j < k ==> HistCell(hist[j].1).Some?;
      r
    else
      assert forall i :: 0 <= i < |hist| ==> steps[i] == Success(r.value[i]);
      r
  }

  /** The preprocessing of one row: the first seven columns are kept and each
      histogram column is replaced by its two statistics columns, appended in
      order; a histogram cell of any other kind raises. */
  function PreprocessRow(row: Row): (r: Result<seq<(string, Field)>, PreprocessError>)
    ensures r.Failure? <==> exists i :: 7 <= i < |row| && HistCell(row[i].1).None?
    ensures r.Success? ==> |r.value| == |row| + |HistCols(Keys(row))|
    ensures r.Success? ==> forall i :: 0 <= i < |row| && i < 7 ==> r.value[i] == (row[i].0, Kept(row[i].1))
  {
    if |row| < 7 then Success(seq(|row|, i requires 0 <= i < |row| => (row[i].0, Kept(row[i].1))))
    else
      var hist := ReadHist(row[7..]);
      assert forall i :: 7 <= i < |row| ==> row[i] == row[7..][i - 7];
      if hist.Failure? then Failure(hist.error)
      else Success(seq(7, i requires 0 <= i < 7 => (row[i].0, Kept(row[i].1))) + StatFields(HistStats(hist.value)))
  }

  lemma PreprocessRowSucceeds(row: Row)
    requires QuestionRow(row)
    ensures PreprocessRow(row).Success? && ReadHist(row[7..]).Success?
    ensures |PreprocessRow(row).value| >= 7 && |ReadHist(row[7..]).value| == |row| - 7
    ensures PreprocessRow(row).value[7..] == StatFields(HistStats(ReadHist(row[7..]).value))
    ensures Keys(PreprocessRow(row).value)[..7] == FIXED_KEYS
  {
    assert forall j :: 0 <= j < |row[7..]| ==> HistCell(row[7..][j].1).Some? by {
      forall j | 0 <= j < |row[7..]|
        ensures HistCell(row[7..][j].1).Some?
      {
        assert row[7..][j] == row[7 + j];
      }
    }
    var r := PreprocessRow(row).value;
    assert forall j :: 0 <= j < 7 ==> Keys(r)[j] == Keys(row)[j];
  }

  lemma ReadHistAt(row: Row, i: nat)
    requires 7 <= i < |row| && row[i].1.PairList?
    requires ReadHist(row[7..]).Success?
    ensures ReadHist(row[7..]).value[i - 7] == (row[i].0, Some(row[i].1.pairs))
  {
    assert row[7..][i - 7] == row[i];
  }

  /** A window of `tail` seen through the row that carries it after seven
      columns. */
  lemma SliceAfterSeven<T>(r: seq<T>, tail: seq<T>, a: nat, b: nat, w: seq<T>)
    requires |r| >= 7 && r[7..] == tail && 7 <= a <= b <= |r| && tail[a - 7..b - 7] == w
    ensures r[a..b] == w
  {
    assert forall j :: a - 7 <= j < b - 7 ==> tail[j] == r[7 + j];
    assert forall j :: 0 <= j < b - a ==> r[a..b][j] == w[j];
  }

  /** The preprocessing of a row of that shape succeeds, keeps the fixed
      columns, and replaces question column `i` by its count and mean at
      position `7 + 2 * (i - 7)`. */
  lemma PreprocessRowAt(row: Row, i: nat)
    requires QuestionRow(row) && 7 <= i < |row|
    ensures PreprocessRow(row).Success?
    ensures Keys(PreprocessRow(row).value)[..7] == FIXED_KEYS
    ensures PreprocessRow(row).value[2 * i - 7..2 * i - 5] ==
              StatPair(row[i].0, ParseHistStats(Some(row[i].1.pairs)))
  {
    PreprocessRowSucceeds(row);
    ReadHistAt(row, i);
    var stats := HistStats(ReadHist(row[7..]).value);
    var k := i - 7;
    assert 7 + 2 * k == 2 * i - 7 && 9 + 2 * k == 2 * i - 5;
    StatCell(PreprocessRow(row).value, stats, k, row[i].0, ParseHistStats(Some(row[i].1.pairs)));
  }

  /** In a row whose columns after the seventh are `StatFields(stats)`, the
      pair for column `k` of `stats` sits at `7 + 2 * k`. */
  lemma StatCell(v: seq<(string, Field)>, stats: seq<(string, Stats)>, k: nat, col: string, st: Stats)
    requires |v| >= 7 && v[7..] == StatFields(stats)
    requires k < |stats| && stats[k] == (col, st)
    ensures v[7 + 2 * k..9 + 2 * k] == StatPair(col, st)
  {
    StatFieldsAt(stats, k);
    SliceAfterSeven(v, StatFields(stats), 7 + 2 * k, 9 + 2 * k, StatPair(col, st));
  }

  // ------------------------------------------------------------ helper.py

  /** The pairs with a non-zero score, in order. */
  function NonZero(ps: seq<Pair>): (r: seq<Pair>)
    ensures forall i :: 0 <= i < |r| ==> r[i].0 != 0 && r[i] in ps
    decreases |ps|
  {
    if |ps| == 0 then []
    else
      var r := NonZero(ps[..|ps| - 1]);
      if ps[|ps| - 1].0 != 0 then r + [ps[|ps| - 1]] else r
  }

  /** `compute_weighted_avg(response_str)`, with `None` for a string
      `literal_eval` rejects: every non-zero-score pair counts, repeated
      scores included. */
  function WeightedAvg(ratings: Option<seq<Pair>>): (r: Option<real>)
    ensures r.Some? ==> ratings.Some? && ValueSum(NonZero(ratings.value)) > 0
  {
    if ratings.None? then None
    else
      var total := ValueSum(NonZero(ratings.value));
      if total > 0 then Some(WeightedSum(NonZero(ratings.value)) as real / total as real) else None
  }

  lemma WeightedAvgWithin(ps: seq<Pair>, lo: int, hi: int)
    requires NonNegative(ps) && ScoresWithin(ps, lo, hi)
    ensures WeightedAvg(Some(ps)).Some? <==> ValueSum(NonZero(ps)) != 0
    ensures WeightedAvg(Some(ps)).Some? ==> lo as real <= WeightedAvg(Some(ps)).value <= hi as real
  {
    var d := NonZero(ps);
    assert NonNegative(d) && forall i :: 0 <= i < |d| ==> lo <= d[i].0 <= hi by {
      forall i | 0 <= i < |d|
        ensures d[i].1 >= 0 && lo <= d[i].0 <= hi
      {
        var j :| 0 <= j < |ps| && ps[j] == d[i];
      }
    }
    ValueSumNonNegative(d);
    WeightedSumBounds(d, lo, hi);
    if ValueSum(d) > 0 {
      MeanBetween(WeightedSum(d), ValueSum(d), lo, hi);
    }
  }

  /** With every score listed once, the dict of `parse_hist_stats` is just
      the non-zero pairs. */
  lemma {:induction false} CountsOfDistinct(ps: seq<Pair>)
    requires DistinctKeys(ps)
    ensures Counts(ps) == NonZero(ps)
    decreases |ps|
  {
    if |ps| > 0 {
      var init := ps[..|ps| - 1];
      var (v, c) := ps[|ps| - 1];
      CountsOfDistinct(init);
      if v != 0 {
        var d := Counts(init);
        forall i | 0 <= i < |d|
          ensures Keys(d)[i] != v
        {
          var j :| 0 <= j < |init| && init[j] == d[i];
          assert ps[j] == init[j];
        }
      }
    }
  }

  /** The two computations agree when each score is listed once and the
      counts are non-negative: the same mean, and no mean exactly when there
      are no responses. */
  lemma HistStatsAgree(ps: seq<Pair>)
    requires DistinctKeys(ps) && NonNegative(ps)
    ensures ParseHistStats(Some(ps)).n == ValueSum(NonZero(ps))
    ensures ParseHistStats(Some(ps)).mean == WeightedAvg(Some(ps))
  {
    CountsOfDistinct(ps);
    var d := NonZero(ps);
    assert NonNegative(d) by {
      forall i | 0 <= i < |d|
        ensures d[i].1 >= 0
      {
        var j :| 0 <= j < |ps| && ps[j] == d[i];
      }
    }
    ValueSumNonNegative(d);
  }

  /** They disagree on a repeated score: the preprocessing keeps the last
      count of score 5 (mean 4 over 4 responses), the helper sums both (4.2
      over 5). */
  lemma HistStatsRepeatedScore()
    ensures ParseHistStats(Some([(5, 1), (1, 1), (5, 3)])) == Stats(4, Some(4.0))
    ensures WeightedAvg(Some([(5, 1), (1, 1), (5, 3)])) == Some(4.2)
  {
    RepeatedScoreParsed();
    RepeatedScoreAveraged();
  }

  lemma RepeatedScoreParsed()
    ensures ParseHistStats(Some([(5, 1), (1, 1), (5, 3)])) == Stats(4, Some(4.0))
  {
    RepeatedCounts();
    RepeatedSums();
  }

  lemma RepeatedScoreAveraged()
    ensures WeightedAvg(Some([(5, 1), (1, 1), (5, 3)])) == Some(4.2)
  {
    RepeatedCounts();
    RepeatedSums();
  }

  lemma RepeatedCountsTwo()
    ensures Counts([(5, 1), (1, 1)]) == [(5, 1), (1, 1)]
  {
    var ps: seq<Pair> := [(5, 1), (1, 1)];
    assert ps[..1] == [(5, 1)] && [(5, 1)][..0] == [];
  }

  lemma RepeatedCounts()
    ensures Counts([(5, 1), (1, 1), (5, 3)]) == [(5, 3), (1, 1)]
  {
    var ps: seq<Pair> := [(5, 1), (1, 1), (5, 3)];
    assert ps[..2] == [(5, 1), (1, 1)];
    RepeatedCountsTwo();
    assert IndexOf([(5, 1), (1, 1)], 5) == 0;
  }

  lemma RepeatedSums()
    ensures ValueSum([(5, 3), (1, 1)]) == 4 && WeightedSum([(5, 3), (1, 1)]) == 16
    ensures NonZero([(5, 1), (1, 1), (5, 3)]) == [(5, 1), (1, 1), (5, 3)]
    ensures ValueSum([(5, 1), (1, 1), (5, 3)]) == 5 && WeightedSum([(5, 1), (1, 1), (5, 3)]) == 21
  {
    var ps: seq<Pair> := [(5, 1), (1, 1), (5, 3)];
    var e: seq<Pair> := [(5, 3), (1, 1)];
    assert e[..1] == [(5, 3)] && [(5, 3)][..0] == [];
    assert ps[..2] == [(5, 1), (1, 1)] && ps[..2][..1] == [(5, 1)] && [(5, 1)][..0] == [];
  }
}
