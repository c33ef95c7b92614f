/** The small pure helpers of the dashboard's analytics routes
    (course_dashboard/app/routes/analytics.py): the order of terms within a
    year, the `YYYY-MM-01` timeline keys, instructor-name cleaning and the
    department key. */
module Analytics {
  import opened Wrappers
  import opened Text
  import opened Assoc
  import StringOrder

  /** The terms of a year in calendar order. */
  const TERM_ORDER: seq<string> := ["Intersession", "Spring", "Summer", "Fall", "Winter"]

  /** `TERM_RANK.get(t, len(TERM_ORDER))`: the position of `t` in `xs`, or
      `|xs|` when it is absent. */
  function Position(xs: seq<string>, t: string): (r: nat)
    ensures r <= |xs|
    ensures r < |xs| <==> t in xs
    ensures r < |xs| ==> xs[r] == t
    ensures forall j :: 0 <= j < r ==> xs[j] != t
  {
    if |xs| == 0 then 0
    else if xs[0] == t then 0
    else
      assert t in xs <==> t in xs[1..];
      1 + Position(xs[1..], t)
  }

  /** The spelling `term_rank` looks up: stripped, then title-cased. */
  function Normalize(term: string): string {
    Title(Strip(term))
  }

  /** `term_rank(term)`: unknown terms rank after all known ones. */
  function TermRank(term: string): (r: nat)
    ensures r <= |TERM_ORDER|
    ensures r < |TERM_ORDER| <==> Normalize(term) in TERM_ORDER
    ensures r < |TERM_ORDER| ==> TERM_ORDER[r] == Normalize(term)
  {
    Position(TERM_ORDER, Normalize(term))
  }

  predicate IsLetter(c: char) {
    IsUpper(c) || IsLower(c)
  }

  /** An upper-case letter followed by lower-case letters. */
  predicate Capitalized(t: string) {
    |t| > 0 && IsUpper(t[0]) && forall i :: 1 <= i < |t| ==> IsLower(t[i])
  }

  /** `w` spells `t` in letters of any case. */
  predicate SameLetters(w: string, t: string) {
    |w| == |t| && forall i :: 0 <= i < |w| ==> IsLetter(w[i]) && LowerChar(w[i]) == LowerChar(t[i])
  }

  /** After a letter, title-casing lower-cases a run of letters. */
  lemma {:induction false} TitleAfterLetters(s: string)
    requires forall i :: 0 <= i < |s| ==> IsLetter(s[i])
    ensures forall i :: 0 <= i < |s| ==> TitleAfter(s, true)[i] == LowerChar(s[i])
  {
    if |s| > 0 {
      TitleAfterLetters(s[1..]);
      var r := TitleAfter(s, true);
      assert r == [LowerChar(s[0])] + TitleAfter(s[1..], true);
      assert forall i :: 1 <= i < |s| ==> r[i] == TitleAfter(s[1..], true)[i - 1];
    }
  }

  /** Title-casing a word spelled like a capitalised word gives that word. */
  lemma {:induction false} TitleOfSameLetters(w: string, t: string)
    requires Capitalized(t) && SameLetters(w, t)
    ensures Title(w) == t
  {
    TitleAfterLetters(w[1..]);
    var r := Title(w);
    assert r == [UpperChar(w[0])] + TitleAfter(w[1..], true);
    assert r[0] == t[0];
    forall i | 1 <= i < |w|
      ensures r[i] == t[i]
    {
      assert r[i] == LowerChar(w[1..][i - 1]) == LowerChar(w[i]);
    }
  }

  /** `rstrip` of a word padded with white space on the right. */
  lemma {:induction false} TrimEndPadded(w: string, post: string)
    requires |w| > 0 && !IsSpace(w[|w| - 1])
    requires forall i :: 0 <= i < |post| ==> IsSpace(post[i])
    ensures TrimEnd(w + post) == w
    decreases |post|
  {
    if |post| == 0 {
      assert w + post == w;
    } else {
      var s := w + post;
      assert s[..|s| - 1] == w + post[..|post| - 1];
      TrimEndPadded(w, post[..|post| - 1]);
    }
  }

  /** `strip` of a word padded with white space on both sides. */
  lemma StripPadded(pre: string, w: string, post: string)
    requires forall i :: 0 <= i < |pre| ==> IsSpace(pre[i])
    requires forall i :: 0 <= i < |post| ==> IsSpace(post[i])
    requires |w| > 0 && !IsSpace(w[0]) && !IsSpace(w[|w| - 1])
    ensures Strip(pre + w + post) == w
  {
    var s := pre + w + post;
    assert s == pre + (w + post);
    SpanLenExact(pre, w + post, IsSpace);
    assert TrimStart(s) == w + post;
    TrimEndPadded(w, post);
  }

  /** Every entry of the term table is a capitalised word. */
  lemma TermNameCapitalized(k: nat)
    requires k < |TERM_ORDER|
    ensures Capitalized(TERM_ORDER[k])
  {
    var t := TERM_ORDER[k];
    assert |t| > 0 && IsUpper(t[0]);
    assert forall i :: 1 <= i < |t| ==> IsLower(t[i]);
  }

  lemma TermOrderDistinct()
    ensures forall i, j :: 0 <= i < j < |TERM_ORDER| ==> TERM_ORDER[i] != TERM_ORDER[j]
  {
    assert forall i, j :: 0 <= i < j < |TERM_ORDER| ==> TERM_ORDER[i][1] != TERM_ORDER[j][1];
  }

  /** `term_rank` looks past surrounding white space and letter case: any
      spelling of a term's name ranks as that term. */
  lemma TermRankLoose(k: nat, pre: string, w: string, post: string)
    requires k < |TERM_ORDER|
    requires forall i :: 0 <= i < |pre| ==> IsSpace(pre[i])
    requires forall i :: 0 <= i < |post| ==> IsSpace(post[i])
    requires SameLetters(w, TERM_ORDER[k])
    ensures TermRank(pre + w + post) == k
  {
    TermNameCapitalized(k);
    NormalizeLoose(pre, w, post, TERM_ORDER[k]);
    TermOrderDistinct();
  }

  /** Any padded spelling of a capitalised word normalises to that word. */
  lemma NormalizeLoose(pre: string, w: string, post: string, t: string)
    requires forall i :: 0 <= i < |pre| ==> IsSpace(pre[i])
    requires forall i :: 0 <= i < |post| ==> IsSpace(post[i])
    requires Capitalized(t) && SameLetters(w, t)
    ensures Normalize(pre + w + post) == t
  {
    assert |w| > 0 && IsLetter(w[0]) && IsLetter(w[|w| - 1]);
    StripPadded(pre, w, post);
    TitleOfSameLetters(w, t);
  }

  /** The ranks follow the term order. */
  lemma TermRankTable()
    ensures forall k :: 0 <= k < |TERM_ORDER| ==> TermRank(TERM_ORDER[k]) == k
  {
    forall k | 0 <= k < |TERM_ORDER|
      ensures TermRank(TERM_ORDER[k]) == k
    {
      TermNameCapitalized(k);
      assert TERM_ORDER[k] == "" + TERM_ORDER[k] + "";
      TermRankLoose(k, "", TERM_ORDER[k], "");
    }
  }

  lemma TermRankPaddedLower()
    ensures TermRank(" fall ") == 3
  {
    assert " fall " == " " + "fall" + " ";
    TermRankLoose(3, " ", "fall", " ");
  }

  /** `term_to_frac(term)`: the rank as a fraction of a year. */
  function TermToFrac(term: string): (f: real)
    ensures 0.0 <= f <= 1.0
    ensures f < 1.0 <==> Normalize(term) in TERM_ORDER
  {
    TermRank(term) as real / |TERM_ORDER| as real
  }

  // ---- timeline keys

  /** `MONTH_FOR_TERM`: the month each term is plotted at. */
  const MONTH_FOR_TERM: seq<(string, string)> := [
    ("Intersession", "01"), ("Spring", "03"), ("Summer", "06"),
    ("Fall", "09"), ("Winter", "12")]

  /** `MONTH_FOR_TERM.get(t, "01")`, on the term exactly as given. */
  function MonthFor(term: string): (m: string)
    ensures |m| == 2 && AllDigits(m)
    ensures term !in TERM_ORDER ==> m == "01"
  {
    MonthTable();
    var found := Get(MONTH_FOR_TERM, term);
    if found.Some? then
      ghost var k := IndexOf(MONTH_FOR_TERM, term);
      found.value
    else "01"
  }

  /** The table lists the terms in order, each with its own two-digit month
      code. */
  lemma MonthTable()
    ensures Keys(MONTH_FOR_TERM) == TERM_ORDER
    ensures forall i :: 0 <= i < |MONTH_FOR_TERM| ==> |MONTH_FOR_TERM[i].1| == 2 && AllDigits(MONTH_FOR_TERM[i].1)
    ensures forall i, j :: 0 <= i < j < |MONTH_FOR_TERM| ==> MONTH_FOR_TERM[i].1 != MONTH_FOR_TERM[j].1
  {
    assert forall i, j :: 0 <= i < j < |MONTH_FOR_TERM| ==> MONTH_FOR_TERM[i].1[1] != MONTH_FOR_TERM[j].1[1];
  }

  /** The table's terms are the term order, each at its own rank. */
  lemma TermOrderPositions()
    ensures forall i :: 0 <= i < |MONTH_FOR_TERM| ==> Position(TERM_ORDER, MONTH_FOR_TERM[i].0) == i
  {
    MonthTable();
    TermOrderDistinct();
    assert forall i :: 0 <= i < |MONTH_FOR_TERM| ==> MONTH_FOR_TERM[i].0 == TERM_ORDER[i];
  }

  /** `FRAC_FOR_MONTH`: each month code mapped to its term's fraction. */
  function FracForMonth(): (table: seq<(string, real)>)
    ensures |table| == |MONTH_FOR_TERM|
    ensures forall i :: 0 <= i < |table| ==> table[i] == (MONTH_FOR_TERM[i].1, i as real / 5.0)
  {
    TermOrderPositions();
    seq(|MONTH_FOR_TERM|, i requires 0 <= i < |MONTH_FOR_TERM| =>
      (MONTH_FOR_TERM[i].1, Position(TERM_ORDER, MONTH_FOR_TERM[i].0) as real / |TERM_ORDER| as real))
  }

  /** Python's `s[i:j]` for `0 <= i <= j`: both ends are clamped to `|s|`. */
  function Slice(s: string, i: nat, j: nat): (r: string)
    requires i <= j
    ensures |r| <= j - i
    ensures j <= |s| ==> r == s[i..j]
  {
    var a := if i < |s| then i else |s|;
    var b := if j < |s| then j else |s|;
    s[a..b]
  }

  /** `month_frac(date)`: the fraction of the month code at characters 5
      and 6, or 0 for any other text. */
  function MonthFrac(date: string): (f: real)
    ensures 0.0 <= f < 1.0
  {
    var found := Get(FracForMonth(), Slice(date, 5, 7));
    if found.Some? then
      ghost var k := IndexOf(FracForMonth(), Slice(date, 5, 7));
      assert found.value == k as real / 5.0;
      found.value
    else 0.0
  }

  /** The timeline key of one row: `str(year) + "-" + month + "-01"`. */
  function DateKey(year: int, term: string): (k: string)
    ensures |k| == |IntToString(year)| + 6
    ensures StringToInt(k[..|k| - 6]) == year
    ensures k[|k| - 5..|k| - 3] == MonthFor(term)
  {
    IntToStringReadsBack(year);
    var y := IntToString(year);
    var k := y + "-" + MonthFor(term) + "-01";
    assert k[..|k| - 6] == y && k[|k| - 5..|k| - 3] == MonthFor(term);
    k
  }

  /** A four-digit year puts the month code at characters 5 and 6. */
  lemma DateKeyMonth(year: int, term: string)
    requires 1000 <= year <= 9999
    ensures |DateKey(year, term)| == 10
    ensures Slice(DateKey(year, term), 5, 7) == MonthFor(term)
  {
    FourDigitYearLength(year);
    var key := DateKey(year, term);
    assert key[5..7] == MonthFor(term);
  }

  /** The month code of a term's key reads back as that term's fraction:
      `month_frac` inverts the key built by `all_term_dates`. */
  lemma MonthFracOfDateKey(year: int, term: string)
    requires 1000 <= year <= 9999
    requires term in TERM_ORDER
    ensures MonthFrac(DateKey(year, term)) == TermToFrac(term)
  {
    DateKeyMonth(year, term);
    var k := Position(TERM_ORDER, term);
    TermRankTable();
    MonthForTerm(k);
    FracMonthsDistinct();
    GetDistinct(FracForMonth(), k);
  }

  /** The term at rank `k` is plotted at the `k`-th month code. */
  lemma MonthForTerm(k: nat)
    requires k < |TERM_ORDER|
    ensures MonthFor(TERM_ORDER[k]) == MONTH_FOR_TERM[k].1
  {
    MonthTable();
    TermOrderDistinct();
    GetDistinct(MONTH_FOR_TERM, k);
  }

  lemma FracMonthsDistinct()
    ensures DistinctKeys(FracForMonth())
  {
    MonthTable();
  }

  /** A month code outside the table, or a key too short to hold one,
      counts as the start of the year. */
  lemma MonthFracUnknown(date: string)
    requires forall k :: 0 <= k < |MONTH_FOR_TERM| ==> Slice(date, 5, 7) != MONTH_FOR_TERM[k].1
    ensures MonthFrac(date) == 0.0
  {
    assert Slice(date, 5, 7) !in Keys(FracForMonth());
  }

  /** `all_term_dates(frame)` on the `(year, term)` column pairs: the
      distinct keys in ascending string order. */
  function AllTermDates(rows: seq<(int, string)>): (dates: seq<string>)
    ensures StringOrder.StrictlySorted(dates)
    ensures forall d :: d in dates <==> exists i :: 0 <= i < |rows| && d == DateKey(rows[i].0, rows[i].1)
  {
    var keys := seq(|rows|, i requires 0 <= i < |rows| => DateKey(rows[i].0, rows[i].1));
    assert forall d :: d in keys <==> exists i :: 0 <= i < |rows| && d == DateKey(rows[i].0, rows[i].1) by {
      forall d | d in keys
        ensures exists i :: 0 <= i < |rows| && d == DateKey(rows[i].0, rows[i].1)
      {
        var i :| 0 <= i < |keys| && keys[i] == d;
      }
      forall i | 0 <= i < |rows|
        ensures DateKey(rows[i].0, rows[i].1) in keys
      {
        assert keys[i] == DateKey(rows[i].0, rows[i].1);
      }
    }
    StringOrder.SortedUnique(keys)
  }

  // ---- instructor names

  /** White space occurs only as single plain spaces. */
  predicate SingleSpaced(s: string) {
    && (forall i :: 0 <= i < |s| && IsSpace(s[i]) ==> s[i] == ' ')
    && (forall i :: 0 <= i < |s| - 1 ==> !(IsSpace(s[i]) && IsSpace(s[i + 1])))
  }

  lemma SingleSpacedCons(c: char, s: string)
    requires SingleSpaced(s) && (IsSpace(c) ==> c == ' ' && (s == [] || !IsSpace(s[0])))
    ensures SingleSpaced([c] + s)
  {
    var t := [c] + s;
    assert forall i :: 1 <= i < |t| ==> t[i] == s[i - 1];
  }

  lemma SingleSpacedTail(s: string)
    requires |s| > 0 && SingleSpaced(s)
    ensures SingleSpaced(s[1..])
  {
    assert forall i :: 0 <= i < |s| - 1 ==> s[1..][i] == s[i + 1];
  }

  /** `re.sub(r"\s+", " ", s)`: every run of white space becomes one space. */
  function CollapseSpaces(s: string): (r: string)
    ensures |r| <= |s|
    ensures r == [] <==> s == []
    ensures r != [] ==> (IsSpace(r[0]) <==> IsSpace(s[0]))
    ensures r != [] ==> (IsSpace(r[|r| - 1]) <==> IsSpace(s[|s| - 1]))
    ensures SingleSpaced(r)
    decreases |s|
  {
    if |s| == 0 then ""
    else if IsSpace(s[0]) then
      var rest := CollapseSpaces(s[SpaceRun(s)..]);
      SingleSpacedCons(' ', rest);
      " " + rest
    else
      var rest := CollapseSpaces(s[1..]);
      SingleSpacedCons(s[0], rest);
      [s[0]] + rest
  }

  /** Text that is already single-spaced is left as it is. */
  lemma {:induction false} CollapseSpacesFixed(s: string)
    requires SingleSpaced(s)
    ensures CollapseSpaces(s) == s
    decreases |s|
  {
    if |s| > 0 {
      SingleSpacedTail(s);
      CollapseSpacesFixed(s[1..]);
      if IsSpace(s[0]) {
        assert |s| == 1 || !IsSpace(s[1]);
        assert SpaceRun(s) == 1;
      }
    }
  }

  /** Collapsing twice is collapsing once. */
  lemma CollapseSpacesIdempotent(s: string)
    ensures CollapseSpaces(CollapseSpaces(s)) == CollapseSpaces(s)
  {
    CollapseSpacesFixed(CollapseSpaces(s));
  }

  /** Position `i` survives `re.sub(r"\s+", " ", s)`: it is not white space,
      or it begins a run of white space. */
  predicate Survives(s: string, i: nat)
    requires i < |s|
  {
    !IsSpace(s[i]) || i == 0 || !IsSpace(s[i - 1])
  }

  /** The surviving characters from position `i` on, in order, with each
      white one written as a plain space: the substitution read position by
      position rather than run by run. */
  function SurvivorsFrom(s: string, i: nat): string
    requires i <= |s|
    decreases |s| - i
  {
    if i == |s| then ""
    else (if Survives(s, i) then [if IsSpace(s[i]) then ' ' else s[i]] else []) + SurvivorsFrom(s, i + 1)
  }

  /** Past a surviving position, survival in `s[k..]` is survival in `s`. */
  lemma {:induction false} SurvivorsShift(s: string, k: nat, j: nat)
    requires k <= j <= |s|
    requires j == k && k < |s| ==> Survives(s, k)
    ensures SurvivorsFrom(s, j) == SurvivorsFrom(s[k..], j - k)
    decreases |s| - j
  {
    if j < |s| {
      var t := s[k..];
      SurvivorsShift(s, k, j + 1);
      assert t[j - k] == s[j];
      if j > k {
        assert t[j - k - 1] == s[j - 1];
      }
      assert Survives(t, j - k) == Survives(s, j);
      var c := if Survives(s, j) then [if IsSpace(s[j]) then ' ' else s[j]] else [];
      assert SurvivorsFrom(s, j) == c + SurvivorsFrom(s, j + 1);
      assert SurvivorsFrom(t, j - k) == c + SurvivorsFrom(t, j + 1 - k);
    }
  }

  /** Inside a leading run of white space, no position after the first survives. */
  lemma {:induction false} SurvivorsSkip(s: string, j: nat)
    requires 1 <= j <= SpaceRun(s)
    ensures SurvivorsFrom(s, j) == SurvivorsFrom(s, SpaceRun(s))
    decreases SpaceRun(s) - j
  {
    if j < SpaceRun(s) {
      SurvivorsSkip(s, j + 1);
    }
  }

  /** The collapse keeps every non-white character in order and turns each
      run of white space into exactly one space at the run's start. */
  lemma {:induction false} CollapseSpacesSurvivors(s: string)
    ensures CollapseSpaces(s) == SurvivorsFrom(s, 0)
    decreases |s|
  {
    if |s| > 0 {
      if IsSpace(s[0]) {
        var k := SpaceRun(s);
        CollapseSpacesSurvivors(s[k..]);
        SurvivorsSkip(s, 1);
        SurvivorsShift(s, k, k);
      } else {
        CollapseSpacesSurvivors(s[1..]);
        SurvivorsShift(s, 1, 1);
      }
    }
  }

  predicate IsPunct(c: char) {
    c == '.' || c == ','
  }

  /** `s[i]` is a `.` or `,` followed by nothing but white space: a place
      where `[.,]\s*$` matches. */
  predicate TrailingPunctAt(s: string, i: int) {
    0 <= i < |s| && IsPunct(s[i]) && forall j :: i < j < |s| ==> IsSpace(s[j])
  }

  /** `re.sub(r"[.,]\s*$", "", s)`. The pattern matches at most at one place,
      since a `.` or `,` is not white space, and the substitution cuts the
      text there. */
  function DropTrailingPunct(s: string): (r: string)
    ensures r == s || (|r| < |s| && r == s[..|r|] && TrailingPunctAt(s, |r|))
    ensures r == s ==> forall i :: 0 <= i < |s| ==> !TrailingPunctAt(s, i)
  {
    var t := TrimEnd(s);
    if |t| > 0 && IsPunct(t[|t| - 1]) then
      assert s[..|t| - 1] == t[..|t| - 1];
      t[..|t| - 1]
    else
      forall i | 0 <= i < |s|
        ensures !TrailingPunctAt(s, i)
      {
        if IsPunct(s[i]) {
          assert i < |t| - 1 && !IsSpace(s[|t| - 1]);
        }
      }
      s
  }

  /** On text ending in a visible character only that character can go. */
  lemma {:induction false} DropTrailingPunctLast(s: string)
    requires |s| > 0 && !IsSpace(s[|s| - 1])
    ensures DropTrailingPunct(s) == if IsPunct(s[|s| - 1]) then s[..|s| - 1] else s
  {
    assert TrimEnd(s) == s;
  }

  /** `clean_instructor(name)`, with `None` for a missing name. */
  function CleanInstructor(name: Option<string>): (r: string)
    ensures name.None? ==> r == ""
    ensures r != [] ==> !IsSpace(r[0])
    ensures SingleSpaced(r)
  {
    if name.None? then ""
    else
      var collapsed := CollapseSpaces(Strip(name.value));
      var r := DropTrailingPunct(collapsed);
      assert SingleSpaced(r) by {
        if r != collapsed {
          assert forall i :: 0 <= i < |r| ==> r[i] == collapsed[i];
        }
      }
      r
  }

  /** A name made of one word without white space loses at most its final
      `.` or `,`. */
  lemma {:induction false} CleanInstructorWord(s: string)
    requires |s| > 0 && NoSpaces(s)
    ensures CleanInstructor(Some(s)) == if IsPunct(s[|s| - 1]) then s[..|s| - 1] else s
  {
    StripOfNoEdgeSpaces(s);
    CollapseSpacesFixed(s);
    DropTrailingPunctLast(s);
  }

  /** At most one trailing `.` or `,` goes, so cleaning a cleaned name can
      change it again: `w..` becomes `w.` and then `w`. */
  lemma CleanInstructorNotIdempotent(w: string)
    requires NoSpaces(w)
    ensures CleanInstructor(Some(w + "..")) == w + "."
    ensures CleanInstructor(Some(CleanInstructor(Some(w + "..")))) == w
  {
    var s := w + "..";
    assert NoSpaces(s) && NoSpaces(w + ".");
    CleanInstructorWord(s);
    assert s[..|s| - 1] == w + ".";
    CleanInstructorWord(w + ".");
    assert (w + ".")[..|w|] == w;
  }

  // ---- department key (dept_timeseries)

  /** `".".join(code.split(".")[0:2])`. */
  function DeptKey(code: string): (r: string)
    ensures |Split(code, '.')| < 2 ==> r == code
    ensures |Split(code, '.')| >= 2 ==> Split(r, '.') == Split(code, '.')[..2]
    ensures StartsWith(code, r)
  {
    var parts := Split(code, '.');
    JoinSplit(code, '.');
    if |parts| >= 2 then
      SplitJoin(parts[..2], '.');
      JoinPrefix(parts, 2, '.');
      Join(parts[..2], '.')
    else
      assert code[..|code|] == code;
      code
  }

  /** The department of a course number is its school and department
      codes. */
  lemma DeptKeyOfCourse(school: string, dept: string, rest: string)
    requires '.' !in school && '.' !in dept
    ensures DeptKey(school + "." + dept + "." + rest) == school + "." + dept
  {
    var code := school + "." + dept + "." + rest;
    assert code == school + ['.'] + (dept + ['.'] + rest);
    SplitAfterField(school, dept + ['.'] + rest, '.');
    SplitAfterField(dept, rest, '.');
    var parts := Split(code, '.');
    assert parts[..2] == [school, dept];
    var r := DeptKey(code);
    JoinSplit(r, '.');
    assert Join([school, dept], '.') == school + "." + dept;
  }

  lemma DeptKeyExample()
    ensures DeptKey("AS.010.101") == "AS.010"
  {
    DeptKeyOfCourse("AS", "010", "101");
    assert "AS" + "." + "010" + "." + "101" == "AS.010.101";
  }
}
