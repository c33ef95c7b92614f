/** The term and trend helpers of course_dashboard/app/routes/helper.py:
    `parse_term`, which turns a term and a year into a first-of-month date
    and a label, and `summarize_trend`, which classifies how a score moved
    from its earliest to its latest date. A timestamp is modelled by an
    integer that orders it (for instance, days since an epoch); NaN and NaT
    are `None`. */
module Trend {
  import opened Wrappers
  import opened Text

  // ------------------------------------------------------------ parse_term

  /** A pandas timestamp on the first of a month, or NaT. */
  datatype TermDate = NaT | Date(year: int, month: int)

  const UNKNOWN := "Unknown"

  /** `month_map.get(term, 1)` with `{"Spring": 1, "Summer": 6, "Fall": 9}`. */
  function MonthOf(term: string): (m: int)
    ensures m == 1 || m == 6 || m == 9
    ensures m == 6 <==> term == "Summer"
    ensures m == 9 <==> term == "Fall"
  {
    if term == "Spring" then 1
    else if term == "Summer" then 6
    else if term == "Fall" then 9
    else 1
  }

  /** `parse_term(term, year)`. `parses(y, m)` says whether `pd.to_datetime`
      accepts the text `f"{y}-{m}-01"` (it rejects, among others, dates
      outside the range of a nanosecond timestamp); a rejection is caught and
      gives the missing result as well. */
  function ParseTerm(term: Option<string>, year: Option<int>, parses: (int, int) -> bool): (r: (TermDate, string))
    ensures term.None? || year.None? ==> r == (NaT, UNKNOWN)
    ensures r.0.Date? <==> term.Some? && year.Some? && parses(year.value, MonthOf(Strip(term.value)))
    ensures r.0.Date? ==> r.0.year == year.value && r.0.month == MonthOf(Strip(term.value))
    ensures r.0.Date? ==> r.1 == Strip(term.value) + " " + IntToString(year.value)
    ensures r.0.NaT? ==> r.1 == UNKNOWN
  {
    if term.None? || year.None? then (NaT, UNKNOWN)
    else
      var t := Strip(term.value);
      var month := MonthOf(t);
      if parses(year.value, month) then (Date(year.value, month), t + " " + IntToString(year.value))
      else (NaT, UNKNOWN)
  }

  /** Timestamps compare by year, then month. */
  predicate DateBefore(a: TermDate, b: TermDate)
    requires a.Date? && b.Date?
  {
    a.year < b.year || (a.year == b.year && a.month < b.month)
  }

  /** Within a year Spring comes before Summer, which comes before Fall; a
      later year comes after every term of an earlier one. Any other term is
      dated like Spring. */
  lemma ParseTermOrder(t1: string, y1: int, t2: string, y2: int, parses: (int, int) -> bool)
    requires ParseTerm(Some(t1), Some(y1), parses).0.Date? && ParseTerm(Some(t2), Some(y2), parses).0.Date?
    requires y1 < y2 || (y1 == y2 && ((Strip(t1) != "Summer" && Strip(t1) != "Fall" && Strip(t2) == "Summer") ||
                                       (Strip(t1) != "Fall" && Strip(t2) == "Fall")))
    ensures DateBefore(ParseTerm(Some(t1), Some(y1), parses).0, ParseTerm(Some(t2), Some(y2), parses).0)
  {
  }

  /** Index of the last space, or -1. */
  function LastSpace(s: string): (i: int)
    ensures -1 <= i < |s|
  {
    if |s| == 0 then -1
    else if s[|s| - 1] == ' ' then |s| - 1
    else LastSpace(s[..|s| - 1])
  }

  /** A space-free tail leaves the joining space as the last one. */
  lemma {:induction false} LastSpaceBeforeWord(a: string, x: string)
    requires NoSpaces(x)
    ensures LastSpace(a + " " + x) == |a|
    decreases |x|
  {
    var s := a + " " + x;
    if |x| > 0 {
      assert s[..|s| - 1] == a + " " + x[..|x| - 1];
      assert s[|s| - 1] == x[|x| - 1] && IsSpace(' ');
      LastSpaceBeforeWord(a, x[..|x| - 1]);
    }
  }

  /** Text joined to a space-free word by a space splits back at that space. */
  lemma JoinedWordSplits(a: string, x: string, b: string, y: string)
    requires NoSpaces(x) && NoSpaces(y) && a + " " + x == b + " " + y
    ensures a == b && x == y
  {
    var s := a + " " + x;
    LastSpaceBeforeWord(a, x);
    LastSpaceBeforeWord(b, y);
    assert a == s[..|a|] && x == s[|a| + 1..];
  }

  /** A label names one term and one year: two parsed dates with the same
      label have the same stripped term and the same year. */
  lemma ParseTermLabel(t1: string, y1: int, t2: string, y2: int, parses: (int, int) -> bool)
    requires ParseTerm(Some(t1), Some(y1), parses).0.Date? && ParseTerm(Some(t2), Some(y2), parses).0.Date?
    requires ParseTerm(Some(t1), Some(y1), parses).1 == ParseTerm(Some(t2), Some(y2), parses).1
    ensures Strip(t1) == Strip(t2) && y1 == y2
  {
    IntToStringReadsBack(y1);
    IntToStringReadsBack(y2);
    JoinedWordSplits(Strip(t1), IntToString(y1), Strip(t2), IntToString(y2));
  }

  // ------------------------------------------------------- summarize_trend

  /** One `(score, date)` pair. */
  type Point = (real, int)

  /** `[(s, d) for s, d in zip(scores, dates) if pd.notna(s) and
      pd.notna(d)]`: pairs up to the shorter list, keeping those with both
      values present. */
  function Valid(scores: seq<Option<real>>, dates: seq<Option<int>>): (v: seq<Point>)
    ensures |v| <= |scores| && |v| <= |dates|
    ensures forall k :: 0 <= k < |v| ==> exists i :: 0 <= i < |scores| && i < |dates| && scores[i] == Some(v[k].0) && dates[i] == Some(v[k].1)
    decreases |scores|
  {
    if |scores| == 0 || |dates| == 0 then []
    else
      var rest := Valid(scores[1..], dates[1..]);
      assert forall k :: 0 <= k < |rest| ==> exists i :: 1 <= i < |scores| && i < |dates| && scores[i] == Some(rest[k].0) && dates[i] == Some(rest[k].1) by {
        forall k | 0 <= k < |rest|
          ensures exists i :: 1 <= i < |scores| && i < |dates| && scores[i] == Some(rest[k].0) && dates[i] == Some(rest[k].1)
        {
          var i :| 0 <= i < |scores[1..]| && i < |dates[1..]| && scores[1..][i] == Some(rest[k].0) && dates[1..][i] == Some(rest[k].1);
          assert scores[i + 1] == scores[1..][i] && dates[i + 1] == dates[1..][i];
        }
      }
      if scores[0].Some? && dates[0].Some? then [(scores[0].value, dates[0].value)] + rest else rest
  }

  /** The pairing splits at any position both lists reach, so the kept
      points appear in input order, one per complete position. */
  lemma {:induction false} ValidSplit(scores: seq<Option<real>>, dates: seq<Option<int>>, i: nat)
    requires i <= |scores| && i <= |dates|
    ensures Valid(scores, dates) == Valid(scores[..i], dates[..i]) + Valid(scores[i..], dates[i..])
    decreases i
  {
    if i == 0 {
      assert scores[..0] == [] && scores[0..] == scores && dates[0..] == dates;
    } else {
      var s1, d1 := scores[1..], dates[1..];
      ValidSplit(s1, d1, i - 1);
      var sp, dp := scores[..i], dates[..i];
      assert sp[0] == scores[0] && dp[0] == dates[0];
      assert sp[1..] == s1[..i - 1] && dp[1..] == d1[..i - 1];
      assert s1[i - 1..] == scores[i..] && d1[i - 1..] == dates[i..];
      var h := ValidCons(scores, dates);
      var h' := ValidCons(sp, dp);
      Regroup(Valid(scores, dates), Valid(sp, dp), h, Valid(s1[..i - 1], d1[..i - 1]), Valid(scores[i..], dates[i..]));
    }
  }

  /** One step of the pairing: the first position's point, if complete,
      then the rest. */
  lemma ValidCons(scores: seq<Option<real>>, dates: seq<Option<int>>) returns (h: seq<Point>)
    requires |scores| > 0 && |dates| > 0
    ensures h == if scores[0].Some? && dates[0].Some? then [(scores[0].value, dates[0].value)] else []
    ensures Valid(scores, dates) == h + Valid(scores[1..], dates[1..])
  {
    h := if scores[0].Some? && dates[0].Some? then [(scores[0].value, dates[0].value)] else [];
  }

  lemma Regroup<T>(whole: seq<T>, left: seq<T>, h: seq<T>, a: seq<T>, b: seq<T>)
    requires whole == h + (a + b) && left == h + a
    ensures whole == left + b
  {
  }

  /** Every pair with both values present is kept. */
  lemma {:induction false} ValidKeeps(scores: seq<Option<real>>, dates: seq<Option<int>>, i: nat)
    requires i < |scores| && i < |dates| && scores[i].Some? && dates[i].Some?
    ensures (scores[i].value, dates[i].value) in Valid(scores, dates)
    decreases i
  {
    if i > 0 {
      ValidKeeps(scores[1..], dates[1..], i - 1);
      assert scores[1..][i - 1] == scores[i] && dates[1..][i - 1] == dates[i];
    }
  }

  predicate SortedByDate(s: seq<Point>) {
    forall i, j :: 0 <= i < j < |s| ==> s[i].1 <= s[j].1
  }

  /** Inserts `x` before the first element dated later than it. */
  function Insert(x: Point, s: seq<Point>): (r: seq<Point>)
    ensures |r| == |s| + 1
  {
    if |s| == 0 then [x]
    else if x.1 < s[0].1 then [x] + s
    else [s[0]] + Insert(x, s[1..])
  }

  lemma {:induction false} InsertPermutes(x: Point, s: seq<Point>)
    ensures multiset(Insert(x, s)) == multiset(s) + multiset{x}
  {
    if |s| > 0 && s[0].1 <= x.1 {
      InsertPermutes(x, s[1..]);
      assert s == [s[0]] + s[1..];
    }
  }

  lemma {:induction false} InsertSorted(x: Point, s: seq<Point>)
    requires SortedByDate(s)
    ensures SortedByDate(Insert(x, s))
  {
    if |s| > 0 && s[0].1 <= x.1 {
      InsertSorted(x, s[1..]);
      InsertPermutes(x, s[1..]);
      var tail := Insert(x, s[1..]);
      forall k | 0 <= k < |tail|
        ensures s[0].1 <= tail[k].1
      {
        assert tail[k] in multiset(tail);
        if tail[k] != x {
          assert tail[k] in multiset(s[1..]);
          var j :| 0 <= j < |s[1..]| && s[1..][j] == tail[k];
          assert s[1 + j] == tail[k];
        }
      }
    }
  }

  /** The new first element is `x` exactly when it is dated before the old
      first one. */
  lemma InsertFirst(x: Point, s: seq<Point>)
    ensures Insert(x, s)[0] == if |s| == 0 || x.1 < s[0].1 then x else s[0]
  {
  }

  /** Into a sorted list, `x` lands last exactly when no element is dated
      later. */
  lemma {:induction false} InsertLast(x: Point, s: seq<Point>)
    requires SortedByDate(s)
    ensures var r := Insert(x, s);
      r[|r| - 1] == if |s| == 0 || s[|s| - 1].1 <= x.1 then x else s[|s| - 1]
  {
    if |s| > 0 && s[0].1 <= x.1 {
      InsertLast(x, s[1..]);
    }
  }

  /** `valid.sort(key=lambda x: x[1])`: Python's sort is stable, and so is
      inserting each element before the first later-dated one.
      `Recommend.Rank` is the same insertion sort under the ranking order;
      each module keeps its own copy so that the facts about its order stay
      local to its proofs. */
  function SortByDate(s: seq<Point>): (r: seq<Point>)
    ensures |r| == |s|
    decreases |s|
  {
    if |s| == 0 then [] else Insert(s[|s| - 1], SortByDate(s[..|s| - 1]))
  }

  /** The result is sorted and a permutation of the input. */
  lemma {:induction false} SortByDateSorts(s: seq<Point>)
    ensures SortedByDate(SortByDate(s))
    ensures multiset(SortByDate(s)) == multiset(s)
    decreases |s|
  {
    if |s| > 0 {
      var init := s[..|s| - 1];
      SortByDateSorts(init);
      InsertSorted(s[|s| - 1], SortByDate(init));
      InsertPermutes(s[|s| - 1], SortByDate(init));
      assert s == init + [s[|s| - 1]];
    }
  }

  lemma SortByDateSorted(s: seq<Point>)
    ensures SortedByDate(SortByDate(s))
  {
    SortByDateSorts(s);
  }

  /** `v[i]` has the earliest date, and no earlier pair has it. */
  predicate FirstEarliest(v: seq<Point>, i: int) {
    && 0 <= i < |v|
    && (forall j :: 0 <= j < |v| ==> v[i].1 <= v[j].1)
    && (forall j :: 0 <= j < i ==> v[j].1 > v[i].1)
  }

  /** `v[k]` has the latest date, and no later pair has it. */
  predicate LastLatest(v: seq<Point>, k: int) {
    && 0 <= k < |v|
    && (forall j :: 0 <= j < |v| ==> v[j].1 <= v[k].1)
    && (forall j :: k < j < |v| ==> v[j].1 < v[k].1)
  }

  /** The sorted list starts with the earliest-dated element, the first of
      them when several share that date. */
  lemma {:induction false} SortByDateFirst(s: seq<Point>)
    requires |s| > 0
    ensures exists i :: FirstEarliest(s, i) && SortByDate(s)[0] == s[i]
    decreases |s|
  {
    var n := |s| - 1;
    var init := s[..n];
    if n == 0 {
      assert SortByDate(s)[0] == s[0] && FirstEarliest(s, 0);
    } else {
      SortByDateFirst(init);
      var i0 :| FirstEarliest(init, i0) && SortByDate(init)[0] == init[i0];
      assert forall j :: 0 <= j < n ==> s[j] == init[j];
      InsertFirst(s[n], SortByDate(init));
      if s[n].1 < init[i0].1 {
        assert SortByDate(s)[0] == s[n];
        assert forall j :: 0 <= j < n ==> s[j].1 > s[n].1;
        assert FirstEarliest(s, n);
      } else {
        assert SortByDate(s)[0] == s[i0];
        assert forall j :: 0 <= j < |s| ==> s[i0].1 <= s[j].1;
        assert FirstEarliest(s, i0);
      }
    }
  }

  /** The sorted list ends with the latest-dated element, the last of them
      when several share that date. */
  lemma {:induction false} SortByDateLast(s: seq<Point>)
    requires |s| > 0
    ensures exists k :: LastLatest(s, k) && SortByDate(s)[|s| - 1] == s[k]
    decreases |s|
  {
    if |s| == 1 {
      assert SortByDate(s)[0] == s[0] && LastLatest(s, 0);
    } else {
      var init := s[..|s| - 1];
      SortByDateLast(init);
      SortByDateLastStep(s, init);
    }
  }

  /** The inductive step: from the last latest pair of all but the last
      element to that of the whole list. */
  lemma SortByDateLastStep(s: seq<Point>, init: seq<Point>)
    requires |s| >= 2 && init == s[..|s| - 1]
    requires exists k0 :: LastLatest(init, k0) && SortByDate(init)[|init| - 1] == init[k0]
    ensures exists k :: LastLatest(s, k) && SortByDate(s)[|s| - 1] == s[k]
  {
    var k0 :| LastLatest(init, k0) && SortByDate(init)[|init| - 1] == init[k0];
    SortByDateSorted(init);
    var k := LastAfterInsert(s, init, SortByDate(init), k0);
    assert SortByDate(s) == Insert(s[|s| - 1], SortByDate(init));
  }

  /** Inserting the last pair of `s` into the sorted other pairs: the new
      last element is the last latest pair of `s`. */
  lemma LastAfterInsert(s: seq<Point>, init: seq<Point>, sorted: seq<Point>, k0: int) returns (k: int)
    requires |s| >= 2 && init == s[..|s| - 1] && LastLatest(init, k0)
    requires SortedByDate(sorted) && |sorted| == |init| && sorted[|init| - 1] == init[k0]
    ensures LastLatest(s, k) && Insert(s[|s| - 1], sorted)[|s| - 1] == s[k]
  {
    InsertLast(s[|s| - 1], sorted);
    LastLatestStep(s, k0);
    k := if s[k0].1 <= s[|s| - 1].1 then |s| - 1 else k0;
  }

  /** Appending `x` to `s`: the last latest pair is `x` when no pair is
      dated later, and otherwise it stays. */
  lemma LastLatestStep(s: seq<Point>, k0: int)
    requires |s| >= 2 && LastLatest(s[..|s| - 1], k0)
    ensures s[k0] == s[..|s| - 1][k0]
    ensures s[k0].1 <= s[|s| - 1].1 ==> LastLatest(s, |s| - 1)
    ensures s[|s| - 1].1 < s[k0].1 ==> LastLatest(s, k0)
  {
    var n := |s| - 1;
    assert forall j :: 0 <= j < n ==> s[j] == s[..n][j];
  }

  datatype Summary = NotEnoughData | StayedTheSame | Improved | Declined

  /** The text `summarize_trend` returns. */
  function SummaryText(t: Summary): (r: string)
    ensures r == "Not enough data" <==> t == NotEnoughData
    ensures r == "Stayed the same" <==> t == StayedTheSame
    ensures r == "Improved" <==> t == Improved
    ensures r == "Declined" <==> t == Declined
  {
    match t
    case NotEnoughData => "Not enough data"
    case StayedTheSame => "Stayed the same"
    case Improved => "Improved"
    case Declined => "Declined"
  }

  /** A change smaller than this, either way, counts as no change. */
  const THRESHOLD: real := 0.1

  /** The verdict on a score that went from `first` to `last`. */
  function Classify(first: real, last: real): (t: Summary)
    ensures t != NotEnoughData
    ensures t == StayedTheSame <==> -THRESHOLD < last - first < THRESHOLD
    ensures t == Improved <==> last - first >= THRESHOLD
    ensures t == Declined <==> last - first <= -THRESHOLD
  {
    var delta := last - first;
    var magnitude := if delta < 0.0 then -delta else delta;
    if magnitude < THRESHOLD then StayedTheSame
    else if delta > 0.0 then Improved
    else Declined
  }

  /** The verdict on pairs already paired up and filtered. */
  function TrendOf(v: seq<Point>): (t: Summary)
    ensures t == NotEnoughData <==> |v| < 2
  {
    if |v| < 2 then NotEnoughData
    else
      var sorted := SortByDate(v);
      Classify(sorted[0].0, sorted[|v| - 1].0)
  }

  /** `summarize_trend(scores, dates)`. */
  function SummarizeTrend(scores: seq<Option<real>>, dates: seq<Option<int>>): (t: Summary)
    ensures t == NotEnoughData <==> |Valid(scores, dates)| < 2
  {
    TrendOf(Valid(scores, dates))
  }

  /** The earliest and the latest pair are each determined by the dates. */
  lemma EndsUnique(v: seq<Point>, i: int, i': int, k: int, k': int)
    requires FirstEarliest(v, i) && FirstEarliest(v, i') && LastLatest(v, k) && LastLatest(v, k')
    ensures i == i' && k == k'
  {
  }

  /** Sorting puts the first earliest pair first and the last latest pair
      last. */
  lemma SortByDateEnds(v: seq<Point>, i: int, k: int)
    requires FirstEarliest(v, i) && LastLatest(v, k)
    ensures SortByDate(v)[0] == v[i] && SortByDate(v)[|v| - 1] == v[k]
  {
    SortByDateFirst(v);
    SortByDateLast(v);
    var i' :| FirstEarliest(v, i') && SortByDate(v)[0] == v[i'];
    var k' :| LastLatest(v, k') && SortByDate(v)[|v| - 1] == v[k'];
    EndsUnique(v, i, i', k, k');
  }

  lemma TrendOfEnds(v: seq<Point>, i: int, k: int)
    requires |v| >= 2 && FirstEarliest(v, i) && LastLatest(v, k)
    ensures TrendOf(v) == Classify(v[i].0, v[k].0)
  {
    SortByDateEnds(v, i, k);
  }

  /** The trend compares the score of the earliest date with that of the
      latest date, taking among equal dates the first and the last pair
      given. */
  lemma SummarizeTrendEnds(scores: seq<Option<real>>, dates: seq<Option<int>>, i: int, k: int)
    requires |Valid(scores, dates)| >= 2
    requires FirstEarliest(Valid(scores, dates), i) && LastLatest(Valid(scores, dates), k)
    ensures SummarizeTrend(scores, dates) == Classify(Valid(scores, dates)[i].0, Valid(scores, dates)[k].0)
  {
    TrendOfEnds(Valid(scores, dates), i, k);
  }

  /** With two pairs on one date, the earlier-given one counts as the
      start, so the verdict depends on the order of the input. */
  lemma TrendOfSameDate(x: real, y: real, d: int)
    ensures TrendOf([(x, d), (y, d)]) == Classify(x, y)
  {
    var v: seq<Point> := [(x, d), (y, d)];
    assert FirstEarliest(v, 0) && LastLatest(v, 1);
    TrendOfEnds(v, 0, 1);
  }

  lemma SummarizeTrendSameDate()
    ensures SummarizeTrend([Some(3.0), Some(4.0)], [Some(7), Some(7)]) == Improved
    ensures SummarizeTrend([Some(4.0), Some(3.0)], [Some(7), Some(7)]) == Declined
  {
    assert Valid([Some(3.0), Some(4.0)], [Some(7), Some(7)]) == [(3.0, 7), (4.0, 7)];
    TrendOfSameDate(3.0, 4.0, 7);
    assert Valid([Some(4.0), Some(3.0)], [Some(7), Some(7)]) == [(4.0, 7), (3.0, 7)];
    TrendOfSameDate(4.0, 3.0, 7);
  }
}
