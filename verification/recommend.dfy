/** The recommendation page's pure steps (course_dashboard/app/routes/rec.py):
    the course level of a course number, the list of levels offered, the
    minimum number of respondents and the ranking of the aggregated groups.
    The grouping itself is pandas machinery; a group arrives here with its
    aggregated means and respondent total. */
module Recommend {
  import opened Wrappers
  import opened Text
  import StringOrder

  // ---- course level

  /** `s` ends in three ASCII digits. */
  predicate EndsInDigits(s: string) {
    |s| >= 3 && AllDigits(s[|s| - 3..])
  }

  /** The level read off text without its optional final line break:
      `.*?` cannot cross a line break, and the three digits must close the
      text. */
  function LevelAtEnd(s: string): (r: Option<string>)
    ensures r.Some? <==> EndsInDigits(s) && '\n' !in s[..|s| - 3]
    ensures r.Some? ==> r.value == [s[|s| - 3]] + "00"
  {
    if EndsInDigits(s) && '\n' !in s[..|s| - 3] then Some([s[|s| - 3]] + "00") else None
  }

  /** `extract_level(code)`: `re.match(r".*?(\d{3})$", code)`, then the
      first digit of the group followed by `"00"`. `$` also matches just
      before a final line break. */
  function ExtractLevel(code: string): (r: Option<string>)
    ensures r.Some? ==> |r.value| == 3 && IsDigit(r.value[0]) && r.value[1..] == "00"
    ensures '\n' !in code ==> (r.Some? <==> EndsInDigits(code))
    ensures '\n' !in code && r.Some? ==> r.value == [code[|code| - 3]] + "00"
  {
    if |code| > 0 && code[|code| - 1] == '\n' then LevelAtEnd(code[..|code| - 1])
    else
      assert '\n' !in code && |code| >= 3 ==> '\n' !in code[..|code| - 3] by {
        if |code| >= 3 {
          assert forall i :: 0 <= i < |code| - 3 ==> code[..|code| - 3][i] == code[i];
        }
      }
      var r := LevelAtEnd(code);
      assert r.Some? ==> IsDigit(code[|code| - 3]) by {
        if r.Some? {
          assert code[|code| - 3..][0] == code[|code| - 3];
        }
      }
      r
  }

  /** The level of a course number is the hundred its number falls in. */
  lemma ExtractLevelOfNumber(prefix: string, number: string)
    requires '\n' !in prefix
    requires |number| == 3 && AllDigits(number)
    ensures ExtractLevel(prefix + number) == Some([number[0]] + "00")
  {
    var code := prefix + number;
    assert code[|code| - 3..] == number;
    assert '\n' !in code by {
      assert forall i :: |prefix| <= i < |code| ==> code[i] == number[i - |prefix|];
      assert forall i :: 0 <= i < |prefix| ==> code[i] == prefix[i];
    }
  }

  lemma ExtractLevelExample()
    ensures ExtractLevel("AS.010.101") == Some("100")
  {
    ExtractLevelOfNumber("AS.010.", "101");
    assert "AS.010." + "101" == "AS.010.101";
    assert ['1'] + "00" == "100";
  }

  /** A final line break does not change the level. */
  lemma ExtractLevelTrailingNewline(code: string)
    requires '\n' !in code
    ensures ExtractLevel(code + "\n") == ExtractLevel(code)
  {
    assert (code + "\n")[..|code|] == code;
    if |code| >= 3 {
      assert '\n' !in code[..|code| - 3] by {
        assert forall i :: 0 <= i < |code| - 3 ==> code[..|code| - 3][i] == code[i];
      }
    }
  }

  /** The levels found among `courses`, in course order, repeats kept. */
  function LevelsFound(courses: seq<string>): (found: seq<string>)
    ensures forall l :: l in found <==> exists i :: 0 <= i < |courses| && ExtractLevel(courses[i]) == Some(l)
  {
    if |courses| == 0 then []
    else
      var rest := LevelsFound(courses[1..]);
      assert forall i :: 0 < i < |courses| ==> courses[i] == courses[1..][i - 1];
      match ExtractLevel(courses[0])
      case Some(l) => [l] + rest
      case None => rest
  }

  /** `levels`: the distinct levels of the course numbers, sorted; codes
      without a level contribute nothing. */
  function Levels(courses: seq<string>): (levels: seq<string>)
    ensures StringOrder.StrictlySorted(levels)
    ensures forall l :: l in levels <==> exists i :: 0 <= i < |courses| && ExtractLevel(courses[i]) == Some(l)
    ensures forall k :: 0 <= k < |levels| ==> |levels[k]| == 3 && levels[k][1..] == "00"
  {
    var levels := StringOrder.SortedUnique(LevelsFound(courses));
    assert forall k :: 0 <= k < |levels| ==> |levels[k]| == 3 && levels[k][1..] == "00" by {
      forall k | 0 <= k < |levels|
        ensures |levels[k]| == 3 && levels[k][1..] == "00"
      {
        assert levels[k] in LevelsFound(courses);
      }
    }
    levels
  }

  // ---- respondent threshold

  /** Groups need at least this many respondents in total. */
  const MIN_RESPONDENTS := 5

  /** One row of the grouped frame: the group's names, the means of its
      teaching, challenge and workload scores (`None` for NaN) and its
      summed respondent count. */
  datatype Group = Group(
    course: string, name: string, instructor: string,
    teaching: Option<real>, challenge: Option<real>, workload: Option<real>,
    respondents: int)

  predicate Enough(g: Group) {
    g.respondents >= MIN_RESPONDENTS
  }

  /** `grouped[grouped["num_respondents"] >= 5]`, order kept. */
  function Eligible(gs: seq<Group>): (r: seq<Group>)
    ensures |r| <= |gs|
    ensures forall g :: multiset(r)[g] == if Enough(g) then multiset(gs)[g] else 0
    ensures forall k :: 0 <= k < |r| ==> Enough(r[k])
  {
    if |gs| == 0 then []
    else
      var rest := Eligible(gs[1..]);
      assert gs == [gs[0]] + gs[1..];
      if Enough(gs[0]) then [gs[0]] + rest else rest
  }

  /** Filtering splits over concatenation, so the kept groups appear in
      their input order, each as often as in the input. */
  lemma {:induction false} EligibleAppend(a: seq<Group>, b: seq<Group>)
    ensures Eligible(a + b) == Eligible(a) + Eligible(b)
    decreases |a|
  {
    if |a| > 0 {
      assert (a + b)[1..] == a[1..] + b;
      EligibleAppend(a[1..], b);
    } else {
      assert a + b == b;
    }
  }

  // ---- ranking

  /** The sort key: the teaching mean, then the challenge mean. */
  type Key = (Option<real>, Option<real>)

  function KeyOf(g: Group): Key {
    (g.teaching, g.challenge)
  }

  /** One column in descending order with NaN last. */
  predicate ScoreBefore(x: Option<real>, y: Option<real>) {
    x.Some? && (y.None? || x.value > y.value)
  }

  /** `a` goes strictly before `b` under
      `sort_values(by=[teaching, challenge], ascending=[False, False])`. */
  predicate Before(a: Key, b: Key) {
    ScoreBefore(a.0, b.0) || (a.0 == b.0 && ScoreBefore(a.1, b.1))
  }

  /** `Before` is a strict order under which distinct keys are comparable. */
  lemma BeforeOrder(a: Key, b: Key, c: Key)
    ensures !Before(a, a)
    ensures Before(a, b) && Before(b, c) ==> Before(a, c)
    ensures a != b ==> Before(a, b) || Before(b, a)
  {
  }

  /** No group is preceded by one that should come after it. */
  predicate Ranked(s: seq<Group>) {
    forall i, j :: 0 <= i < j < |s| ==> !Before(KeyOf(s[j]), KeyOf(s[i]))
  }

  /** Puts `g` after every group it does not go strictly before. */
  function Insert(g: Group, s: seq<Group>): (r: seq<Group>)
    ensures |r| == |s| + 1
  {
    if |s| == 0 then [g]
    else if Before(KeyOf(g), KeyOf(s[0])) then [g] + s
    else [s[0]] + Insert(g, s[1..])
  }

  lemma {:induction false} InsertPermutes(g: Group, s: seq<Group>)
    ensures multiset(Insert(g, s)) == multiset(s) + multiset{g}
  {
    if |s| > 0 && !Before(KeyOf(g), KeyOf(s[0])) {
      InsertPermutes(g, s[1..]);
      assert s == [s[0]] + s[1..];
    }
  }

  lemma {:induction false} InsertRanked(g: Group, s: seq<Group>)
    requires Ranked(s)
    ensures Ranked(Insert(g, s))
  {
    if |s| > 0 && !Before(KeyOf(g), KeyOf(s[0])) {
      var tail := Insert(g, s[1..]);
      assert Ranked(s[1..]) by {
        assert forall i :: 0 <= i < |s| - 1 ==> s[1..][i] == s[i + 1];
      }
      InsertRanked(g, s[1..]);
      InsertPermutes(g, s[1..]);
      forall j | 0 <= j < |tail|
        ensures !Before(KeyOf(tail[j]), KeyOf(s[0]))
      {
        assert tail[j] in multiset(s[1..]) + multiset{g};
        if tail[j] != g {
          assert tail[j] in s[1..];
        }
      }
      var r := [s[0]] + tail;
      assert forall j :: 0 < j < |r| ==> r[j] == tail[j - 1];
    } else if |s| > 0 {
      var r := [g] + s;
      forall j | 0 < j < |r|
        ensures !Before(KeyOf(r[j]), KeyOf(g))
      {
        assert r[j] == s[j - 1];
        BeforeOrder(KeyOf(r[j]), KeyOf(g), KeyOf(s[0]));
        BeforeOrder(KeyOf(g), KeyOf(s[0]), KeyOf(s[0]));
        if j > 1 {
          assert !Before(KeyOf(s[j - 1]), KeyOf(s[0]));
        }
      }
      assert forall i, j :: 1 <= i < j < |r| ==> r[i] == s[i - 1] && r[j] == s[j - 1];
    }
  }

  /** `sort_values` on the two keys: a stable sort, so groups with equal
      keys keep their order. It is the insertion sort of `Trend.SortByDate`
      under the ranking order. */
  function Rank(s: seq<Group>): (r: seq<Group>)
    ensures |r| == |s|
  {
    if |s| == 0 then [] else Insert(s[|s| - 1], Rank(s[..|s| - 1]))
  }

  /** The groups with key `k`, in order. */
  function WithKey(s: seq<Group>, k: Key): (r: seq<Group>)
    ensures forall i :: 0 <= i < |r| ==> KeyOf(r[i]) == k
  {
    if |s| == 0 then []
    else (if KeyOf(s[0]) == k then [s[0]] else []) + WithKey(s[1..], k)
  }

  /** Keeping the eligible groups and keeping one key commute: the
      eligible groups with key `k` are, in input order, the groups of the
      input with key `k` and at least 5 respondents. */
  lemma {:induction false} EligibleWithKey(s: seq<Group>, k: Key)
    ensures WithKey(Eligible(s), k) == Eligible(WithKey(s, k))
    decreases |s|
  {
    if |s| > 0 {
      var t := s[1..];
      EligibleWithKey(t, k);
      var e0: seq<Group> := if Enough(s[0]) then [s[0]] else [];
      var w0: seq<Group> := if KeyOf(s[0]) == k then [s[0]] else [];
      assert Eligible(s) == e0 + Eligible(t);
      assert WithKey(s, k) == w0 + WithKey(t, k);
      WithKeyAppend(e0, Eligible(t), k);
      EligibleAppend(w0, WithKey(t, k));
      EligibleSingle(s[0], k);
    }
  }

  /** One group: keeping it by eligibility then by key agrees with the
      other order. */
  lemma EligibleSingle(g: Group, k: Key)
    ensures WithKey(if Enough(g) then [g] else [], k) == Eligible(if KeyOf(g) == k then [g] else [])
  {
    assert [g][1..] == [];
  }

  lemma {:induction false} WithKeyAppend(s: seq<Group>, t: seq<Group>, k: Key)
    ensures WithKey(s + t, k) == WithKey(s, k) + WithKey(t, k)
  {
    if |s| > 0 {
      assert (s + t)[1..] == s[1..] + t;
      WithKeyAppend(s[1..], t, k);
    } else {
      assert s + t == t;
    }
  }

  /** In a ranked list, no group with `g`'s key follows a group `g` goes
      before. */
  lemma {:induction false} InsertKeepsKeyOrder(g: Group, s: seq<Group>, k: Key)
    requires Ranked(s)
    ensures WithKey(Insert(g, s), k) == WithKey(s, k) + (if KeyOf(g) == k then [g] else [])
  {
    if |s| == 0 {
    } else if Before(KeyOf(g), KeyOf(s[0])) {
      if KeyOf(g) == k {
        NoKeyAfter(s, k);
      }
      WithKeyAppend([g], s, k);
    } else {
      assert Ranked(s[1..]) by {
        assert forall i :: 0 <= i < |s| - 1 ==> s[1..][i] == s[i + 1];
      }
      InsertKeepsKeyOrder(g, s[1..], k);
    }
  }

  /** A ranked list whose head comes after key `k` holds no group with key
      `k`. */
  lemma {:induction false} NoKeyAfter(s: seq<Group>, k: Key)
    requires Ranked(s) && |s| > 0 && Before(k, KeyOf(s[0]))
    ensures WithKey(s, k) == []
  {
    if |s| > 1 {
      assert KeyOf(s[0]) != k by {
        BeforeOrder(k, k, k);
      }
      assert Ranked(s[1..]) by {
        assert forall i :: 0 <= i < |s| - 1 ==> s[1..][i] == s[i + 1];
      }
      assert !Before(KeyOf(s[1]), KeyOf(s[0]));
      assert Before(k, KeyOf(s[1])) by {
        BeforeOrder(k, KeyOf(s[0]), KeyOf(s[1]));
        if KeyOf(s[0]) != KeyOf(s[1]) {
          BeforeOrder(KeyOf(s[0]), KeyOf(s[1]), KeyOf(s[1]));
        }
      }
      NoKeyAfter(s[1..], k);
    } else {
      BeforeOrder(k, k, k);
    }
  }

  /** The ranking is ordered. */
  lemma {:induction false} RankRanked(s: seq<Group>)
    ensures Ranked(Rank(s))
  {
    if |s| > 0 {
      RankRanked(s[..|s| - 1]);
      InsertRanked(s[|s| - 1], Rank(s[..|s| - 1]));
    }
  }

  /** The ranking reorders the groups without adding or losing any. */
  lemma {:induction false} RankPermutes(s: seq<Group>)
    ensures multiset(Rank(s)) == multiset(s)
  {
    if |s| > 0 {
      var init := s[..|s| - 1];
      var last := s[|s| - 1];
      RankPermutes(init);
      InsertPermutes(last, Rank(init));
      MultisetOfSnoc(s);
      assert Rank(s) == Insert(last, Rank(init));
    }
  }

  lemma MultisetOfSnoc<T>(s: seq<T>)
    requires |s| > 0
    ensures multiset(s) == multiset(s[..|s| - 1]) + multiset{s[|s| - 1]}
  {
    assert s == s[..|s| - 1] + [s[|s| - 1]];
  }

  /** The ranking is stable: groups with equal keys keep their order. */
  lemma {:induction false} RankStable(s: seq<Group>, k: Key)
    ensures WithKey(Rank(s), k) == WithKey(s, k)
  {
    if |s| > 0 {
      var init := s[..|s| - 1];
      var last := s[|s| - 1];
      RankStable(init, k);
      RankRanked(init);
      InsertKeepsKeyOrder(last, Rank(init), k);
      assert s == init + [last];
      WithKeyAppend(init, [last], k);
    }
  }

  /** The groups recommended, best first. */
  function Recommend(gs: seq<Group>): (r: seq<Group>)
    ensures |r| <= |gs|
  {
    Rank(Eligible(gs))
  }

  /** Among equal keys, the recommended groups are the input's groups with
      that key and at least 5 respondents, in input order. */
  lemma RecommendStable(gs: seq<Group>)
    ensures forall k :: WithKey(Recommend(gs), k) == Eligible(WithKey(gs, k))
  {
    forall k
      ensures WithKey(Recommend(gs), k) == Eligible(WithKey(gs, k))
    {
      RankStable(Eligible(gs), k);
      EligibleWithKey(gs, k);
    }
  }

  /** Every recommended group has enough respondents, the list is ranked,
      each eligible group appears as often as in the input, and among equal
      keys the grouped order is kept. */
  lemma RecommendSpec(gs: seq<Group>)
    ensures Ranked(Recommend(gs))
    ensures forall g :: multiset(Recommend(gs))[g] == if Enough(g) then multiset(gs)[g] else 0
    ensures forall k :: 0 <= k < |Recommend(gs)| ==> Enough(Recommend(gs)[k])
    ensures forall k :: WithKey(Recommend(gs), k) == WithKey(Eligible(gs), k)
  {
    var kept := Eligible(gs);
    RankRanked(kept);
    RankPermutes(kept);
    forall k
      ensures WithKey(Recommend(gs), k) == WithKey(kept, k)
    {
      RankStable(kept, k);
    }
    forall k | 0 <= k < |Recommend(gs)|
      ensures Enough(Recommend(gs)[k])
    {
      assert Recommend(gs)[k] in multiset(kept);
    }
  }
}
