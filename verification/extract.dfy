/** The PDF text extractor of `extract.py`: metadata recovery, question
    blocks with their `(weight, count)` response pairs, the respondent count
    taken from the file name, the row that is appended to the CSV store, and
    the completeness predicate. The PDF library's text extraction is left
    out: every function here takes the already concatenated page text.

    Each regular expression is a matcher on the start of a string (see
    `Scan`); the comments give the backtracking argument that fixes the
    lengths of its greedy and lazy parts. */
module Extract {
  import opened Wrappers
  import opened Text
  import opened Scan
  import opened Assoc

  /** `(weight, count)`: the rating digit and the number of respondents who gave it. */
  type Pair = (int, int)

  // =================================================================== metadata

  const INSTRUCTOR_MARK := "Instructor"
  const COURSE_MARK := "Course:"
  const TERM_NAMES: seq<string> := ["Spring", "Fall", "Summer", "Intersession"]

  // ---- r"\n([^\n]+?)\s*Instructor"
  //
  // The lazy group takes k = 1, 2, ... characters; for each k, `\s*` can only
  // succeed by taking the whole whitespace run, since "Instructor" starts
  // with a non-space. The first k that works is the match.

  /** `\n([^\n]+?)\s*<mark>` matches at the start of `s` with a group of `k` characters. */
  predicate GroupThenMark(s: string, k: nat, mark: string) {
    && |s| > 0 && s[0] == '\n'
    && 1 <= k && k + 1 <= |s|
    && (forall i :: 1 <= i <= k ==> s[i] != '\n')
    && StartsWith(s[k + 1 + SpacesFrom(s, k + 1)..], mark)
  }

  /** The instructor pattern matches at the start of `s` with a group of `k` characters. */
  predicate InstructorMatch(s: string, k: nat) {
    GroupThenMark(s, k, INSTRUCTOR_MARK)
  }

  /** Tries group lengths `k`, `k + 1`, ... in turn, as the lazy `+?` does. */
  function LazyGroup(s: string, k: nat, mark: string): (r: Option<nat>)
    requires |s| > 0 && s[0] == '\n' && 1 <= k
    requires forall i :: 1 <= i < k && i < |s| ==> s[i] != '\n'
    ensures r.Some? ==> k <= r.value && GroupThenMark(s, r.value, mark)
    ensures r.Some? ==> forall j :: k <= j < r.value ==> !GroupThenMark(s, j, mark)
    ensures r.None? ==> forall j :: k <= j ==> !GroupThenMark(s, j, mark)
    decreases |s| - k
  {
    if k + 1 > |s| || s[k] == '\n' then
      NoGroupFrom(s, k, mark);
      None
    else if StartsWith(s[k + 1 + SpacesFrom(s, k + 1)..], mark) then Some(k)
    else
      assert !GroupThenMark(s, k, mark);
      LazyGroup(s, k + 1, mark)
  }

  /** At the end of the text or at a line break, no longer group matches. */
  lemma NoGroupFrom(s: string, k: nat, mark: string)
    requires 1 <= k && (k + 1 > |s| || s[k] == '\n')
    ensures forall j :: k <= j ==> !GroupThenMark(s, j, mark)
  {
    forall j | k <= j
      ensures !GroupThenMark(s, j, mark)
    {
      if k + 1 <= |s| {
        assert s[k] == '\n' && 1 <= k <= j;
      }
    }
  }

  /** The stripped instructor name when the pattern matches at the start of `s`. */
  function InstructorAt(s: string): (r: Option<string>)
    ensures r.Some? <==> exists k :: InstructorMatch(s, k)
    ensures r.Some? ==> exists k :: InstructorMatch(s, k) && r.value == Strip(s[1..k + 1])
                                   && forall j :: j < k ==> !InstructorMatch(s, j)
  {
    if |s| == 0 || s[0] != '\n' then None
    else
      var r := LazyGroup(s, 1, INSTRUCTOR_MARK);
      if r.Some? then
        var k := r.value;
        assert InstructorMatch(s, k);
        Some(Strip(s[1..k + 1]))
      else None
  }

  // ---- r"Course:\s*([A-Z0-9\.]+)\s*:\s*(.+?)\n"
  //
  // The first `\s*`, the code class and the second `\s*` can only take their
  // whole runs (each is followed by a character outside its class). The
  // `\s*` after the colon is greedy but is followed by `.+?\n`, so it backs
  // off one character at a time until the rest matches.

  predicate IsCodeChar(c: char) {
    IsUpper(c) || IsDigit(c) || c == '.'
  }

  /** `.+?\n` matches at the start of `x`. */
  predicate NameMatches(x: string) {
    |x| > 0 && x[0] != '\n' && '\n' in x[1..]
  }

  /** The lazy `.+?` group: everything up to the first newline. */
  function LineBody(x: string): (r: string)
    ensures |r| <= |x| && r == x[..|r|]
    ensures '\n' !in r
    ensures |r| < |x| ==> x[|r|] == '\n'
  {
    var n := SpanLen(x, c => c != '\n');
    x[..n]
  }

  /** The greedy `\s*` before the name: the longest `j` (at most `j0`) after which the name matches. */
  function BackOff(w: string, j0: nat): (r: Option<nat>)
    requires j0 <= |w|
    ensures r.Some? ==> r.value <= j0 && NameMatches(w[r.value..])
    ensures r.Some? ==> forall i :: r.value < i <= j0 ==> !NameMatches(w[i..])
    ensures r.None? ==> forall i :: 0 <= i <= j0 ==> !NameMatches(w[i..])
  {
    if NameMatches(w[j0..]) then Some(j0)
    else if j0 == 0 then None
    else BackOff(w, j0 - 1)
  }

  /** The course title: what `\s*(.+?)\n` captures after the colon, stripped. */
  function NameAt(w: string): (r: Option<string>)
    ensures r.Some? ==> '\n' !in r.value
  {
    match BackOff(w, SpaceRun(w))
    case None => None
    case Some(j) =>
      var name := LineBody(w[j..]);
      StripInside(name);
      Some(Strip(name))
  }

  /** Number of code characters starting at position `i`. */
  function CodeFrom(s: string, i: nat): (n: nat)
    requires i <= |s|
    ensures i + n <= |s|
    decreases |s| - i
  {
    if i == |s| || !IsCodeChar(s[i]) then 0 else 1 + CodeFrom(s, i + 1)
  }

  lemma {:induction false} CodeFromRun(s: string, i: nat)
    requires i <= |s|
    ensures forall k :: i <= k < i + CodeFrom(s, i) ==> IsCodeChar(s[k])
    decreases |s| - i
  {
    if i < |s| && IsCodeChar(s[i]) {
      CodeFromRun(s, i + 1);
    }
  }

  predicate IsCode(code: string) {
    |code| > 0 && forall i :: 0 <= i < |code| ==> IsCodeChar(code[i])
  }

  /** `(course_number, course_name)` after `.strip()`, when the pattern matches at the start of `s`.
      The contract gives the shape of a match; Layouts.CourseAtLine pins the
      fields read from a rendered course line. */
  function CourseAt(s: string): (r: Option<(string, string)>)
    ensures r.Some? ==> StartsWith(s, COURSE_MARK)
    ensures r.Some? ==> IsCode(r.value.0)
    ensures r.Some? ==> '\n' !in r.value.1
  {
    if !StartsWith(s, COURSE_MARK) then None else CourseAfter(s, |COURSE_MARK|)
  }

  /** The rest of the pattern, `\s*([A-Z0-9.]+)\s*:\s*(.+?)\n`, from offset `m`. */
  function CourseAfter(s: string, m: nat): (r: Option<(string, string)>)
    requires m <= |s|
    ensures r.Some? ==> IsCode(r.value.0)
    ensures r.Some? ==> '\n' !in r.value.1
  {
    var a := m + SpacesFrom(s, m);
    var b := a + CodeFrom(s, a);
    var c := b + SpacesFrom(s, b);
    if b == a || c >= |s| || s[c] != ':' then None
    else
      var name := NameAt(s[c + 1..]);
      if name.None? then None
      else
        CodeFromRun(s, a);
        RunIsCode(s, a, b);
        Some((s[a..b], name.value))
  }

  lemma RunIsCode(s: string, a: nat, b: nat)
    requires a < b <= |s|
    requires forall k :: a <= k < b ==> IsCodeChar(s[k])
    ensures IsCode(s[a..b])
  {
    forall i | 0 <= i < b - a ensures IsCodeChar(s[a..b][i]) {
      assert s[a..b][i] == s[a + i];
    }
  }

  // ---- r"(\d{4})\s+(Spring|Fall|Summer|Intersession)"
  //
  // `\s+` must take the whole run (the alternatives start with letters);
  // the four alternatives differ in their first two letters, so at most one
  // of them matches.

  /** The alternation, tried in the order written. */
  function TermWordAt(x: string): (r: Option<string>)
    ensures r.Some? ==> r.value in TERM_NAMES && StartsWith(x, r.value)
    ensures r.None? ==> forall t :: t in TERM_NAMES ==> !StartsWith(x, t)
  {
    if StartsWith(x, "Spring") then Some("Spring")
    else if StartsWith(x, "Fall") then Some("Fall")
    else if StartsWith(x, "Summer") then Some("Summer")
    else if StartsWith(x, "Intersession") then Some("Intersession")
    else None
  }

  /** `(year, term)` when the pattern matches at the start of `s`. */
  function TermAt(s: string): (r: Option<(string, string)>)
    ensures r.Some? ==> |r.value.0| == 4 && AllDigits(r.value.0) && StartsWith(s, r.value.0)
    ensures r.Some? ==> r.value.1 in TERM_NAMES
    ensures r.Some? <==> |s| >= 4 && AllDigits(s[..4]) && SpaceRun(s[4..]) > 0
                         && TermWordAt(s[4..][SpaceRun(s[4..])..]).Some?
  {
    if |s| < 4 || !AllDigits(s[..4]) then None
    else
      var t := s[4..];
      var n := SpaceRun(t);
      if n == 0 then None
      else
        match TermWordAt(t[n..])
        case Some(term) => Some((s[..4], term))
        case None => None
  }

  // ---- course code normalisation (extract.py lines 15-17)

  /** Keeps the first three dot-separated segments of a course code. */
  function TruncateCode(code: string): (r: string)
    ensures |Split(code, '.')| < 3 ==> r == code
    ensures |Split(code, '.')| >= 3 ==> Split(r, '.') == Split(code, '.')[..3]
    ensures StartsWith(code, r)
    ensures |code| > 0 ==> |r| > 0
    ensures |Split(r, '.')| <= 3
  {
    var parts := Split(code, '.');
    JoinSplit(code, '.');
    if |parts| >= 3 then
      SplitJoin(parts[..3], '.');
      JoinPrefix(parts, 3, '.');
      Join(parts[..3], '.')
    else
      assert code[..|code|] == code;
      code
  }

  lemma {:induction false} TruncateCodeIdempotent(code: string)
    ensures TruncateCode(TruncateCode(code)) == TruncateCode(code)
  {
    var parts := Split(code, '.');
    if |parts| >= 3 {
      var r := TruncateCode(code);
      assert Split(r, '.') == parts[..3];
      JoinSplit(r, '.');
      assert Join(parts[..3][..3], '.') == r by {
        assert parts[..3][..3] == parts[..3];
      }
    }
  }

  datatype Metadata = Metadata(
    courseNumber: Option<string>,
    courseName: Option<string>,
    instructor: Option<string>,
    year: Option<string>,
    term: Option<string>)

  /** The `course_match` branch: the truncated code and the stripped title. */
  function CourseFields(text: string): (r: (Option<string>, Option<string>))
    ensures r.0.Some? <==> r.1.Some?
    ensures r.0.Some? <==> exists j :: 0 <= j <= |text| && CourseAt(text[j..]).Some?
    ensures r.0.Some? ==> |Split(r.0.value, '.')| <= 3 && |r.0.value| > 0
  {
    match Search(text, CourseAt)
    case Some(hit) => (Some(TruncateCode(hit.1.0)), Some(hit.1.1))
    case None => (None, None)
  }

  /** The `term_match` groups. */
  function TermFields(text: string): (r: (Option<string>, Option<string>))
    ensures r.0.Some? <==> r.1.Some?
    ensures r.0.Some? ==> |r.0.value| == 4 && AllDigits(r.0.value)
    ensures r.1.Some? ==> r.1.value in TERM_NAMES
  {
    match Search(text, TermAt)
    case Some(hit) => (Some(hit.1.0), Some(hit.1.1))
    case None => (None, None)
  }

  /** `extract_metadata`: three independent leftmost searches. */
  function ExtractMetadata(text: string): (m: Metadata)
    ensures m.courseNumber.Some? <==> m.courseName.Some?
    ensures m.courseNumber.Some? <==> exists j :: 0 <= j <= |text| && CourseAt(text[j..]).Some?
    ensures m.courseNumber.Some? ==> |Split(m.courseNumber.value, '.')| <= 3 && |m.courseNumber.value| > 0
    ensures m.year.Some? <==> m.term.Some?
    ensures m.year.Some? ==> |m.year.value| == 4 && AllDigits(m.year.value)
    ensures m.term.Some? ==> m.term.value in TERM_NAMES
    ensures m.instructor.Some? <==> exists j :: 0 <= j <= |text| && InstructorAt(text[j..]).Some?
  {
    var course := CourseFields(text);
    var term := TermFields(text);
    var instructor := Search(text, InstructorAt);
    Metadata(course.0, course.1, if instructor.Some? then Some(instructor.value.1) else None,
             term.0, term.1)
  }

  // ============================================================ question blocks

  datatype ExtractError =
    | EmptyBlock   // `lines[0]` on a block that strips to nothing (IndexError)

  /** `block.strip().splitlines()[0]`. */
  function QuestionTitle(block: string): (r: Result<string, ExtractError>)
    ensures r.Failure? <==> forall i :: 0 <= i < |block| ==> IsSpace(block[i])
    ensures r.Success? ==> |r.value| > 0 && !IsSpace(r.value[0])
    ensures r.Success? ==> forall i :: 0 <= i < |r.value| ==> !IsLineBreak(r.value[i])
    ensures r.Success? ==> StartsWith(Strip(block), r.value)
  {
    var st := Strip(block);
    if st == [] then Failure(EmptyBlock)
    else
      LineBreakIsSpace(st[0]);
      var n := SpanLen(st, c => !IsLineBreak(c));
      Success(st[..n])
  }

  // ---- r'\((\d)\)\s+(\d+)\s+\d{1,3}\.\d{2}%'
  //
  // Every `\s+` and `\d+` is followed by a character outside its class, so
  // each takes its whole run; `\d{1,3}` followed by `\.` matches only a digit
  // run of one to three characters.

  /** `\d{1,3}\.\d{2}%` at position `i`: where the match ends. */
  function PercentEnd(s: string, i: nat): (r: Option<nat>)
    requires i <= |s|
    ensures r.Some? ==> i + 5 <= r.value <= |s| && s[r.value - 1] == '%'
  {
    var d := DigitsFrom(s, i);
    var f := i + d;
    if 1 <= d <= 3 && f + 4 <= |s| && s[f] == '.' && IsDigit(s[f + 1]) && IsDigit(s[f + 2]) && s[f + 3] == '%'
    then Some(f + 4)
    else None
  }

  /** One response row at the start of `s`: the pair and the match length.
      Layouts.PairAtLine pins the pair read from a rendered row. */
  function PairAt(s: string): (r: Option<(Pair, nat)>)
    ensures r.Some? ==> 1 <= r.value.1 <= |s|
    ensures r.Some? ==> 0 <= r.value.0.0 <= 9 && r.value.0.1 >= 0
  {
    if |s| < 3 || s[0] != '(' || !IsDigit(s[1]) || s[2] != ')' then None
    else
      var b := 3 + SpacesFrom(s, 3);
      var c := b + DigitsFrom(s, b);
      var e := c + SpacesFrom(s, c);
      if b == 3 || c == b || e == c then None
      else
        var end := PercentEnd(s, e);
        if end.None? then None
        else Some(((DigitValue(s[1]), DigitsValue(s[b..c])), end.value))
  }

  /** `re.findall` of the response pattern: the pairs in text order. */
  function PairsIn(s: string): (r: seq<Pair>)
    ensures forall k :: 0 <= k < |r| ==> 0 <= r[k].0 <= 9 && r[k].1 >= 0
    decreases |s|
  {
    if |s| == 0 then []
    else
      var hit := PairAt(s);
      if hit.Some? then [hit.value.0] + PairsIn(s[hit.value.1..]) else PairsIn(s[1..])
  }

  // ---- r"(\d+)/\d+\s+\(\d{1,3}%\)"   (the count printed inside the PDF text)

  function TextRespondentsAt(s: string): (r: Option<nat>)
    ensures r.Some? ==> DigitsFrom(s, 0) > 0 && r.value == DigitsValue(s[..DigitsFrom(s, 0)])
  {
    var d := DigitsFrom(s, 0);
    if d == 0 || d >= |s| || s[d] != '/' then None
    else
      var p := d + 1 + DigitsFrom(s, d + 1);
      var q := p + SpacesFrom(s, p);
      if p == d + 1 || q == p || q >= |s| || s[q] != '(' then None
      else
        var d3 := DigitsFrom(s, q + 1);
        var z := q + 1 + d3;
        if 1 <= d3 <= 3 && z + 2 <= |s| && s[z] == '%' && s[z + 1] == ')'
        then Some(DigitsValue(s[..d]))
        else None
  }

  datatype Question = Question(title: string, responses: seq<Pair>, respondents: nat)

  /** The count of the first `n/m (p%)` in a block, and 0 when there is none. */
  function PrintedRespondents(block: string): (n: nat)
    ensures n > 0 ==> exists j :: 0 <= j <= |block| && TextRespondentsAt(block[j..]) == Some(n)
    ensures (forall j :: 0 <= j <= |block| ==> TextRespondentsAt(block[j..]).None?) ==> n == 0
    ensures forall j :: 0 <= j <= |block| && TextRespondentsAt(block[j..]).Some?
                        && (forall i :: 0 <= i < j ==> TextRespondentsAt(block[i..]).None?)
                        ==> n == TextRespondentsAt(block[j..]).value
  {
    var found := Search(block, TextRespondentsAt);
    if found.Some? then found.value.1 else 0
  }

  /** `extract_question_data`. */
  function QuestionData(block: string): (r: Result<Question, ExtractError>)
    ensures r.Failure? <==> QuestionTitle(block).Failure?
    ensures r.Success? ==> r.value.title == QuestionTitle(block).value
    ensures r.Success? ==> forall k :: 0 <= k < |r.value.responses| ==>
                             0 <= r.value.responses[k].0 <= 9 && r.value.responses[k].1 >= 0
  {
    var title := QuestionTitle(block);
    if title.Failure? then Failure(title.error)
    else Success(Question(title.value, PairsIn(block), PrintedRespondents(block)))
  }

  // ---- r'(\d+)[_\s]+of[_\s]+\d+[_\s]+responded'  with re.IGNORECASE
  //
  // Each run is followed by a character outside its class, so each takes its
  // whole run. Case folding of the two words is ASCII, plus U+017F (long s),
  // which Python's case-insensitive matching also equates with `s`.

  predicate IsSep(c: char) {
    c == '_' || IsSpace(c)
  }

  predicate FoldEq(c: char, lower: char) {
    c == lower || c == UpperChar(lower) || (lower == 's' && c == '\U{17F}')
  }

  predicate StartsWithFold(s: string, word: string) {
    |word| <= |s| && forall i :: 0 <= i < |word| ==> FoldEq(s[i], word[i])
  }

  /** Number of `[_\s]` characters starting at position `i`. */
  function SepsFrom(s: string, i: nat): (n: nat)
    requires i <= |s|
    ensures i + n <= |s|
    decreases |s| - i
  {
    if i == |s| || !IsSep(s[i]) then 0 else 1 + SepsFrom(s, i + 1)
  }

  function FilenameCountAt(s: string): (r: Option<nat>)
    ensures r.Some? ==> DigitsFrom(s, 0) > 0 && r.value == DigitsValue(s[..DigitsFrom(s, 0)])
  {
    var d := DigitsFrom(s, 0);
    var a := d + SepsFrom(s, d);
    if d == 0 || a == d || !StartsWithFold(s[a..], "of") then None
    else
      var b := a + 2 + SepsFrom(s, a + 2);
      var c := b + DigitsFrom(s, b);
      var e := c + SepsFrom(s, c);
      if b == a + 2 || c == b || e == c || !StartsWithFold(s[e..], "responded") then None
      else Some(DigitsValue(s[..d]))
  }

  /** `extract_respondents_from_filename`: the first count of the first
      `N of M responded`, and 0 when there is none (never `None`). */
  function FilenameRespondents(fname: string): (n: nat)
    ensures n > 0 ==> exists j :: 0 <= j <= |fname| && FilenameCountAt(fname[j..]) == Some(n)
    ensures (forall j :: 0 <= j <= |fname| ==> FilenameCountAt(fname[j..]).None?) ==> n == 0
    ensures forall j :: 0 <= j <= |fname| && FilenameCountAt(fname[j..]).Some?
                        && (forall i :: 0 <= i < j ==> FilenameCountAt(fname[i..]).None?)
                        ==> n == FilenameCountAt(fname[j..]).value
  {
    match Search(fname, FilenameCountAt)
    case Some(hit) => hit.1
    case None => 0
  }

  // ---- re.split(r"\n\d+\s*-\s*", text)
  //
  // Both `\s*` take their whole runs: the first is followed by `-`, the
  // second ends the pattern (it may swallow newlines, including the one that
  // would begin the next delimiter).

  /** Length of a delimiter match at the start of `s`. Layouts.DelimAtDelim
      pins the length for a rendered delimiter. */
  function DelimAt(s: string): (r: Option<nat>)
    ensures r.Some? ==> 3 <= r.value <= |s| && s[0] == '\n' && IsDigit(s[1])
  {
    if |s| < 2 || s[0] != '\n' || !IsDigit(s[1]) then None
    else
      var a := 1 + DigitsFrom(s, 1);
      var b := a + SpacesFrom(s, a);
      if b >= |s| || s[b] != '-' then None
      else Some(b + 1 + SpacesFrom(s, b + 1))
  }

  /** `re.split` on the question delimiter: the pieces between matches,
      the piece before the first match included. */
  function SplitBlocks(s: string): (r: seq<string>)
    ensures |r| >= 1
    decreases |s|
  {
    if |s| == 0 then [""]
    else
      match DelimAt(s)
      case Some(n) => [""] + SplitBlocks(s[n..])
      case None =>
        var rest := SplitBlocks(s[1..]);
        [[s[0]] + rest[0]] + rest[1..]
  }

  /** Where no delimiter starts, the first character joins the first piece. */
  lemma SplitBlocksStep(s: string)
    requires |s| > 0 && DelimAt(s).None?
    ensures var rest := SplitBlocks(s[1..]);
            SplitBlocks(s) == [[s[0]] + rest[0]] + rest[1..]
  {
  }

  /** A delimiter at the start ends an empty first piece. */
  lemma SplitBlocksAtDelim(s: string, n: nat)
    requires DelimAt(s) == Some(n)
    ensures SplitBlocks(s) == [""] + SplitBlocks(s[n..])
  {
  }

  /** Characters that start no delimiter all join the first piece. */
  lemma {:induction false} SplitBlocksPrefix(s: string, j: nat)
    requires j <= |s|
    requires forall i :: 0 <= i < j ==> DelimAt(s[i..]).None?
    ensures var rest := SplitBlocks(s[j..]);
            SplitBlocks(s) == [s[..j] + rest[0]] + rest[1..]
    decreases j
  {
    if j == 0 {
      var rest := SplitBlocks(s);
      assert s[j..] == s && s[..j] + rest[0] == rest[0];
      assert rest == [rest[0]] + rest[1..];
    } else {
      SplitBlocksPrefix(s, j - 1);
      var t := s[j - 1..];
      SplitBlocksStep(t);
      assert t[1..] == s[j..];
      var rest := SplitBlocks(s[j..]);
      assert SplitBlocks(t) == [[s[j - 1]] + rest[0]] + rest[1..];
      assert s[..j - 1] + ([s[j - 1]] + rest[0]) == s[..j] + rest[0];
    }
  }

  /** `re.split` reads as a leftmost search: the first piece is the text
      before the first delimiter match, and the rest is the split of the
      text after that match. */
  lemma SplitBlocksAtMatch(s: string, j: nat, n: nat)
    requires Search(s, DelimAt) == Some((j, n))
    ensures j + n <= |s|
    ensures SplitBlocks(s) == [s[..j]] + SplitBlocks(s[j + n..])
  {
    SearchHit(s, DelimAt, j, n);
    SplitBlocksCut(s, j, n);
  }

  /** Splitting where the first delimiter match is known. */
  lemma SplitBlocksCut(s: string, j: nat, n: nat)
    requires j <= |s| && DelimAt(s[j..]) == Some(n)
    requires forall i :: 0 <= i < j ==> DelimAt(s[i..]).None?
    ensures j + n <= |s|
    ensures SplitBlocks(s) == [s[..j]] + SplitBlocks(s[j + n..])
  {
    var t := s[j..];
    SplitBlocksPrefix(s, j);
    SplitBlocksAtDelim(t, n);
    assert t[n..] == s[j + n..];
    JoinEmptyFirst(SplitBlocks(s), s[..j], SplitBlocks(t), SplitBlocks(s[j + n..]));
  }

  /** An empty first piece after a delimiter leaves `head` as a piece of its own. */
  lemma JoinEmptyFirst(whole: seq<string>, head: string, pieces: seq<string>, after: seq<string>)
    requires |pieces| >= 1 && whole == [head + pieces[0]] + pieces[1..] && pieces == [""] + after
    ensures whole == [head] + after
  {
    assert head + pieces[0] == head;
  }

  /** Text without a delimiter match is a single piece. */
  lemma SplitBlocksNoMatch(s: string)
    requires Search(s, DelimAt).None?
    ensures SplitBlocks(s) == [s]
  {
    SearchNoneBefore(s, DelimAt, |s|);
    SplitBlocksPrefix(s, |s|);
    assert s[..|s|] == s && s[|s|..] == "";
    JoinEmptyFirst(SplitBlocks(s), s, SplitBlocks(""), []);
  }

  // ===================================================================== the row

  /** The questions kept by `process_pdf`, as `{title: responses}` in insertion order. */
  type Questions = seq<(string, seq<Pair>)>

  /** `extract_question_data` on every block, in order. The Python loop
      raises at the first block that strips to nothing; nothing is kept from
      a loop that raised, so parsing all blocks first is equivalent. */
  function ParseBlocks(blocks: seq<string>): (r: Result<seq<Question>, ExtractError>)
    ensures r.Failure? <==> exists k :: 0 <= k < |blocks| && QuestionData(blocks[k]).Failure?
    ensures r.Success? ==> |r.value| == |blocks|
    ensures r.Success? ==> forall k :: 0 <= k < |blocks| ==> QuestionData(blocks[k]) == Success(r.value[k])
  {
    var rs := seq(|blocks|, k requires 0 <= k < |blocks| => QuestionData(blocks[k]));
    var r := AllOrFirstFailure(rs);
    assert forall k :: 0 <= k < |blocks| ==> rs[k] == QuestionData(blocks[k]);
    r
  }

  /** The first question titled `t` that has response pairs (reference for the first-wins rule). */
  function FirstWith(qs: seq<Question>, t: string): Option<seq<Pair>> {
    if |qs| == 0 then None
    else if qs[0].title == t && |qs[0].responses| > 0 then Some(qs[0].responses)
    else FirstWith(qs[1..], t)
  }

  /** The loop of `process_pdf`: questions without pairs are skipped and a
      title already present keeps its first responses. */
  function Collect(qs: seq<Question>, acc: Questions): (d: Questions)
    requires DistinctKeys(acc)
    ensures DistinctKeys(d)
    ensures |acc| <= |d| && d[..|acc|] == acc
    ensures (forall i :: 0 <= i < |acc| ==> |acc[i].1| > 0) ==> forall i :: 0 <= i < |d| ==> |d[i].1| > 0
    decreases |qs|
  {
    if |qs| == 0 then acc
    else if |qs[0].responses| == 0 || qs[0].title in Keys(acc) then Collect(qs[1..], acc)
    else
      var acc' := acc + [(qs[0].title, qs[0].responses)];
      assert forall i :: 0 <= i < |acc| ==> acc[i].0 == Keys(acc)[i];
      var d := Collect(qs[1..], acc');
      assert d[..|acc|] == d[..|acc'|][..|acc|];
      d
  }

  /** For every title, the kept responses are those of its first block with pairs. */
  lemma {:induction false} CollectFirstWins(qs: seq<Question>, acc: Questions, t: string)
    requires DistinctKeys(acc)
    ensures Get(Collect(qs, acc), t) == if t in Keys(acc) then Get(acc, t) else FirstWith(qs, t)
    decreases |qs|
  {
    if |qs| > 0 {
      if |qs[0].responses| == 0 || qs[0].title in Keys(acc) {
        CollectFirstWins(qs[1..], acc, t);
      } else {
        var acc' := acc + [(qs[0].title, qs[0].responses)];
        assert forall i :: 0 <= i < |acc| ==> acc[i].0 == Keys(acc)[i];
        assert Keys(acc') == Keys(acc) + [qs[0].title];
        CollectFirstWins(qs[1..], acc', t);
        if t in Keys(acc) {
          var i := IndexOf(acc, t);
          assert IndexOf(acc', t) == i;
        } else if t == qs[0].title {
          assert IndexOf(acc', t) == |acc|;
        }
      }
    }
  }

  datatype Value = Null | Str(text: string) | Int(n: int) | PairList(pairs: seq<Pair>)

  /** A row is a Python dict from column name to value. */
  type Row = seq<(string, Value)>

  const FIXED_KEYS: seq<string> :=
    ["file", "course_number", "course_name", "instructor", "year", "term", "num_respondents"]

  function OptStr(o: Option<string>): Value {
    if o.Some? then Str(o.value) else Null
  }

  /** The seven fixed columns, before the questions are merged in. */
  function BaseRow(fname: string, m: Metadata, respondents: int): (row: Row)
    ensures Keys(row) == FIXED_KEYS && DistinctKeys(row)
  {
    [("file", Str(fname)), ("course_number", OptStr(m.courseNumber)),
     ("course_name", OptStr(m.courseName)), ("instructor", OptStr(m.instructor)),
     ("year", OptStr(m.year)), ("term", OptStr(m.term)), ("num_respondents", Int(respondents))]
  }

  /** `row.update(questions)`. */
  function Update(row: Row, d: Questions): (r: Row)
    requires DistinctKeys(row)
    ensures DistinctKeys(r)
    ensures |row| <= |r| && Keys(r)[..|row|] == Keys(row)
    decreases |d|
  {
    if |d| == 0 then row
    else
      PutDistinct(row, d[0].0, PairList(d[0].1));
      var row' := Put(row, d[0].0, PairList(d[0].1));
      var r := Update(row', d[1..]);
      assert Keys(r)[..|row|] == Keys(r)[..|row'|][..|row|];
      r
  }

  lemma KeysTail<K, V>(d: seq<(K, V)>, t: K)
    requires |d| > 0
    ensures t in Keys(d) <==> t == d[0].0 || t in Keys(d[1..])
  {
    assert Keys(d) == [d[0].0] + Keys(d[1..]);
  }

  /** Columns the update does not name keep their values. */
  lemma {:induction false} UpdateOther(row: Row, d: Questions, t: string)
    requires DistinctKeys(row) && t !in Keys(d)
    ensures Get(Update(row, d), t) == Get(row, t)
    decreases |d|
  {
    if |d| > 0 {
      KeysTail(d, t);
      PutDistinct(row, d[0].0, PairList(d[0].1));
      UpdateOther(Put(row, d[0].0, PairList(d[0].1)), d[1..], t);
      PutOther(row, d[0].0, PairList(d[0].1), t);
    }
  }

  /** Every question of the update ends up in the row with its responses. */
  lemma {:induction false} UpdateGet(row: Row, d: Questions, t: string)
    requires DistinctKeys(row) && DistinctKeys(d) && t in Keys(d)
    ensures Get(d, t).Some? && Get(Update(row, d), t) == Some(PairList(Get(d, t).value))
    decreases |d|
  {
    KeysTail(d, t);
    PutDistinct(row, d[0].0, PairList(d[0].1));
    var row' := Put(row, d[0].0, PairList(d[0].1));
    if t == d[0].0 {
      assert forall j :: 0 <= j < |d[1..]| ==> Keys(d[1..])[j] == d[j + 1].0 != t;
      UpdateOther(row', d[1..], t);
      assert IndexOf(d, t) == 0;
    } else {
      UpdateGet(row', d[1..], t);
      assert IndexOf(d, t) == 1 + IndexOf(d[1..], t);
    }
  }

  /** Columns added by the update are question titles the row did not have. */
  lemma {:induction false} UpdateNewKeys(row: Row, d: Questions)
    requires DistinctKeys(row)
    ensures forall i :: |row| <= i < |Update(row, d)| ==>
      Update(row, d)[i].0 in Keys(d) && Update(row, d)[i].0 !in Keys(row)
    decreases |d|
  {
    if |d| > 0 {
      PutDistinct(row, d[0].0, PairList(d[0].1));
      var row' := Put(row, d[0].0, PairList(d[0].1));
      var r := Update(row', d[1..]);
      UpdateNewKeys(row', d[1..]);
      forall i | |row| <= i < |r|
        ensures r[i].0 in Keys(d) && r[i].0 !in Keys(row)
      {
        KeysTail(d, r[i].0);
        if i < |row'| {
          assert Keys(r)[i] == Keys(row')[i];
          assert Keys(row')[i] == d[0].0;
        } else {
          assert forall k :: k in Keys(row) ==> k in Keys(row');
        }
      }
    }
  }

  /** `max(xs) if xs else 0`. */
  function MaxOrZero(xs: seq<nat>): (m: nat)
    ensures forall i :: 0 <= i < |xs| ==> xs[i] <= m
    ensures |xs| == 0 ==> m == 0
    ensures |xs| > 0 ==> m in xs
  {
    if |xs| == 0 then 0
    else
      var m := MaxOrZero(xs[1..]);
      assert forall i :: 1 <= i < |xs| ==> xs[i] == xs[1..][i - 1];
      if xs[0] >= m then xs[0] else m
  }

  /** Some question block (a piece after the first delimiter) is only whitespace. */
  predicate HasBlankBlock(text: string) {
    exists k :: 1 <= k < |SplitBlocks(text)| && Strip(SplitBlocks(text)[k]) == []
  }

  /** The parse of the blocks after the first fails exactly when one of them is blank. */
  lemma ParseFailsOnBlank(text: string)
    ensures ParseBlocks(SplitBlocks(text)[1..]).Failure? <==> HasBlankBlock(text)
  {
    var all := SplitBlocks(text);
    var blocks := all[1..];
    assert forall k :: 1 <= k < |all| ==> blocks[k - 1] == all[k];
    assert forall k :: 0 <= k < |blocks| ==> (QuestionTitle(blocks[k]).Failure? <==> Strip(blocks[k]) == []);
  }

  /** Lines 66-77 of `process_pdf`: the fixed columns, the merged questions,
      then the file-name count written over `num_respondents`. */
  function AssembleRow(fname: string, m: Metadata, d: Questions, n: nat): (row: Row)
    ensures DistinctKeys(row) && |row| >= 7 && Keys(row)[..7] == FIXED_KEYS
    ensures Get(row, "num_respondents") == Some(Int(n))
  {
    var respondentCounts: seq<nat> := [];
    var base := BaseRow(fname, m, MaxOrZero(respondentCounts));
    var merged := Update(base, d);
    PutDistinct(merged, "num_respondents", Int(n));
    assert Keys(merged)[..7][6] == "num_respondents";
    Put(merged, "num_respondents", Int(n))
  }

  /** `process_pdf` on the concatenated page text and the file's base name.
      The list `respondent_counts` is never appended to, so the provisional
      count is `max([]) or 0`, and the count from the file name then replaces
      it (a row is never without that column). */
  function ProcessPdf(text: string, fname: string): (r: Result<Row, ExtractError>)
    ensures r.Failure? <==> HasBlankBlock(text)
    ensures r.Success? ==> DistinctKeys(r.value) && |r.value| >= 7 && Keys(r.value)[..7] == FIXED_KEYS
    ensures r.Success? ==> Get(r.value, "num_respondents") == Some(Int(FilenameRespondents(fname)))
  {
    ParseFailsOnBlank(text);
    match ParseBlocks(SplitBlocks(text)[1..])
    case Failure(e) => Failure(e)
    case Success(qs) => Success(AssembleRow(fname, ExtractMetadata(text), Collect(qs, []), FilenameRespondents(fname)))
  }

  const META_KEYS: seq<string> := ["course_number", "course_name", "instructor", "year", "term"]

  /** Python truthiness of a cell. */
  predicate Truthy(v: Value) {
    match v
    case Null => false
    case Str(t) => |t| > 0
    case Int(n) => n != 0
    case PairList(ps) => |ps| > 0
  }

  /** `row.get(k)`, with a missing column read as `None`. */
  function Cell(row: Row, k: string): Value {
    Get(row, k).GetOr(Null)
  }

  /** The columns the list check of `is_row_complete` skips. */
  const UNCHECKED_KEYS: seq<string> := META_KEYS + ["file", "num_respondents"]

  /** What a complete row is: the five metadata columns are truthy and every
      column other than them, `file` and `num_respondents` holds a list. */
  predicate RowComplete(row: Row) {
    && (forall i :: 0 <= i < |META_KEYS| ==> Truthy(Cell(row, META_KEYS[i])))
    && (forall i :: 0 <= i < |row| ==> row[i].0 in UNCHECKED_KEYS || row[i].1.PairList?)
  }

  /** The first loop of `is_row_complete` from metadata key `i` on: it
      returns False at the first key whose cell is falsy or missing. */
  function MetaCheckFrom(row: Row, i: nat): (b: bool)
    requires i <= |META_KEYS|
    ensures b <==> forall j :: i <= j < |META_KEYS| ==> Truthy(Cell(row, META_KEYS[j]))
    decreases |META_KEYS| - i
  {
    if i == |META_KEYS| then true
    else if !Truthy(Cell(row, META_KEYS[i])) then false
    else MetaCheckFrom(row, i + 1)
  }

  /** The second loop from column `i` on: skipped columns are passed over,
      and it returns False at the first other column that is not a list. */
  function ListCheckFrom(row: Row, i: nat): (b: bool)
    requires i <= |row|
    ensures b <==> forall j :: i <= j < |row| ==> row[j].0 in UNCHECKED_KEYS || row[j].1.PairList?
    decreases |row| - i
  {
    if i == |row| then true
    else if row[i].0 in UNCHECKED_KEYS then ListCheckFrom(row, i + 1)
    else if !row[i].1.PairList? then false
    else ListCheckFrom(row, i + 1)
  }

  /** `is_row_complete`: the two loops with their early returns. */
  function IsRowComplete(row: Row): (b: bool)
    ensures b <==> RowComplete(row)
  {
    MetaCheckFrom(row, 0) && ListCheckFrom(row, 0)
  }

  /** The responses a column receives from the question blocks, if any. */
  function QuestionColumn(qs: seq<Question>, t: string): Option<Value> {
    match FirstWith(qs, t)
    case Some(ps) => Some(PairList(ps))
    case None => None
  }

  /** What every column of a row holds, except `num_respondents` (see
      `ProcessPdf`): the responses of the first block titled like the column
      that has pairs, and otherwise the fixed value (file name or metadata),
      or no column at all. */
  lemma ProcessPdfColumn(text: string, fname: string, t: string)
    requires ProcessPdf(text, fname).Success? && t != "num_respondents"
    ensures ParseBlocks(SplitBlocks(text)[1..]).Success?
    ensures var qs := ParseBlocks(SplitBlocks(text)[1..]).value;
            Get(ProcessPdf(text, fname).value, t) ==
              if QuestionColumn(qs, t).Some? then QuestionColumn(qs, t)
              else Get(BaseRow(fname, ExtractMetadata(text), 0), t)
  {
    var qs := ParseBlocks(SplitBlocks(text)[1..]).value;
    var d := Collect(qs, []);
    var base := BaseRow(fname, ExtractMetadata(text), MaxOrZero([]));
    var merged := Update(base, d);
    PutOther(merged, "num_respondents", Int(FilenameRespondents(fname)), t);
    CollectFirstWins(qs, [], t);
    if t in Keys(d) {
      UpdateGet(base, d, t);
    } else {
      UpdateOther(base, d, t);
    }
  }

  /** The columns beyond the seven fixed ones all hold response lists. */
  lemma AssembleRowExtraColumns(fname: string, m: Metadata, d: Questions, n: nat)
    requires DistinctKeys(d)
    ensures var row := AssembleRow(fname, m, d, n);
            forall i :: 7 <= i < |row| ==> row[i].0 !in FIXED_KEYS && row[i].1.PairList?
  {
    var base := BaseRow(fname, m, MaxOrZero([]));
    var merged := Update(base, d);
    var row := AssembleRow(fname, m, d, n);
    assert Keys(merged)[..7][6] == "num_respondents";
    assert IndexOf(merged, "num_respondents") == 6;
    UpdateNewKeys(base, d);
    forall i | 7 <= i < |row|
      ensures row[i].0 !in FIXED_KEYS && row[i].1.PairList?
    {
      assert row[i] == merged[i];
      GetDistinct(merged, i);
      UpdateGet(base, d, merged[i].0);
    }
  }

  lemma AssembleRowCompleteIff(fname: string, m: Metadata, d: Questions, n: nat)
    requires DistinctKeys(d)
    ensures var row := AssembleRow(fname, m, d, n);
            IsRowComplete(row) <==> forall i :: 0 <= i < |META_KEYS| ==> Truthy(Cell(row, META_KEYS[i]))
  {
    var row := AssembleRow(fname, m, d, n);
    AssembleRowExtraColumns(fname, m, d, n);
    assert forall i :: 0 <= i < 7 ==> row[i].0 == Keys(row)[..7][i] == FIXED_KEYS[i];
  }

  /** `is_row_complete` on a row of `process_pdf` reduces to its metadata
      check: the list check over the remaining columns always passes. */
  lemma ProcessPdfCompleteIff(text: string, fname: string)
    requires ProcessPdf(text, fname).Success?
    ensures var row := ProcessPdf(text, fname).value;
            IsRowComplete(row) <==> forall i :: 0 <= i < |META_KEYS| ==> Truthy(Cell(row, META_KEYS[i]))
  {
    var qs := ParseBlocks(SplitBlocks(text)[1..]).value;
    AssembleRowCompleteIff(fname, ExtractMetadata(text), Collect(qs, []), FilenameRespondents(fname));
  }

  predicate Filled(o: Option<string>) {
    o.Some? && |o.value| > 0
  }

  /** The metadata fields in the order of `META_KEYS`. */
  function MetaFields(m: Metadata): seq<Option<string>> {
    [m.courseNumber, m.courseName, m.instructor, m.year, m.term]
  }

  /** A metadata column no question overrides keeps the metadata value. */
  lemma AssembleRowMetaCell(fname: string, m: Metadata, d: Questions, n: nat, i: nat)
    requires DistinctKeys(d) && i < 5 && META_KEYS[i] !in Keys(d)
    ensures Cell(AssembleRow(fname, m, d, n), META_KEYS[i]) == OptStr(MetaFields(m)[i])
  {
    var key := META_KEYS[i];
    var base := BaseRow(fname, m, MaxOrZero([]));
    var merged := Update(base, d);
    BaseRowMeta(fname, m, MaxOrZero([]), i);
    GetDistinct(base, i + 1);
    UpdateOther(base, d, key);
    MetaKeyNotCount(i);
    PutOther(merged, "num_respondents", Int(n), key);
    assert AssembleRow(fname, m, d, n) == Put(merged, "num_respondents", Int(n));
  }

  lemma BaseRowMeta(fname: string, m: Metadata, respondents: int, i: nat)
    requires i < 5
    ensures BaseRow(fname, m, respondents)[i + 1] == (META_KEYS[i], OptStr(MetaFields(m)[i]))
  {
  }

  lemma MetaKeyNotCount(i: nat)
    requires i < 5
    ensures META_KEYS[i] != "num_respondents"
  {
    assert |META_KEYS[i]| != |"num_respondents"|;
  }

  lemma AssembleRowCompleteMetadata(fname: string, m: Metadata, d: Questions, n: nat)
    requires DistinctKeys(d)
    requires forall i :: 0 <= i < |META_KEYS| ==> META_KEYS[i] !in Keys(d)
    ensures IsRowComplete(AssembleRow(fname, m, d, n)) <==> forall i :: 0 <= i < 5 ==> Filled(MetaFields(m)[i])
  {
    AssembleRowCompleteIff(fname, m, d, n);
    forall i | 0 <= i < 5
      ensures Cell(AssembleRow(fname, m, d, n), META_KEYS[i]) == OptStr(MetaFields(m)[i])
    {
      AssembleRowMetaCell(fname, m, d, n, i);
    }
  }

  /** When no question block is titled like a metadata column, a row of
      `process_pdf` is complete exactly when all five metadata fields were
      found and the course name and instructor are not blank. */
  lemma ProcessPdfCompleteMetadata(text: string, fname: string)
    requires ProcessPdf(text, fname).Success?
    requires var qs := ParseBlocks(SplitBlocks(text)[1..]).value;
             forall i :: 0 <= i < |META_KEYS| ==> FirstWith(qs, META_KEYS[i]).None?
    ensures var m := ExtractMetadata(text);
            IsRowComplete(ProcessPdf(text, fname).value) <==>
              m.courseNumber.Some? && Filled(m.courseName) && Filled(m.instructor) && m.year.Some?
  {
    var qs := ParseBlocks(SplitBlocks(text)[1..]).value;
    var d := Collect(qs, []);
    forall i | 0 <= i < |META_KEYS|
      ensures META_KEYS[i] !in Keys(d)
    {
      CollectFirstWins(qs, [], META_KEYS[i]);
    }
    ProcessPdfAssembles(text, fname);
    AssembleRowCompleteMetadata(fname, ExtractMetadata(text), d, FilenameRespondents(fname));
    MetadataFilled(ExtractMetadata(text));
  }

  /** An unfolding step for the ProcessPdf lemmas below: a successful run
      is the row assembled from its parts. */
  lemma ProcessPdfAssembles(text: string, fname: string)
    requires ProcessPdf(text, fname).Success?
    ensures ParseBlocks(SplitBlocks(text)[1..]).Success?
    ensures ProcessPdf(text, fname).value ==
              AssembleRow(fname, ExtractMetadata(text), Collect(ParseBlocks(SplitBlocks(text)[1..]).value, []), FilenameRespondents(fname))
  {
  }

  /** The course number, year and term are never blank when found. */
  lemma MetadataFilled(m: Metadata)
    requires m.courseNumber.Some? ==> |m.courseNumber.value| > 0
    requires m.year.Some? <==> m.term.Some?
    requires m.year.Some? ==> |m.year.value| == 4
    requires m.term.Some? ==> m.term.value in TERM_NAMES
    ensures (forall i :: 0 <= i < 5 ==> Filled(MetaFields(m)[i])) <==>
              m.courseNumber.Some? && Filled(m.courseName) && Filled(m.instructor) && m.year.Some?
  {
    if m.term.Some? {
      assert |m.term.value| > 0 by { assert m.term.value in TERM_NAMES; }
    }
    assert MetaFields(m)[0] == m.courseNumber && MetaFields(m)[1] == m.courseName;
    assert MetaFields(m)[2] == m.instructor && MetaFields(m)[3] == m.year && MetaFields(m)[4] == m.term;
  }

  // ============================================= the respondent count, corrected
  //
  // `process_pdf` reads a respondent count from every question block but
  // never appends it to `respondent_counts`, and then overwrites the row's
  // count with the file-name count, which is 0 (never `None`) when the file
  // name has no `N of M responded`. The printed counts are therefore lost.

  /** A file name without digits yields no count, so the row reports 0 whatever the blocks print. */
  lemma ProcessPdfDropsPrintedCounts(text: string, fname: string)
    requires forall i :: 0 <= i < |fname| ==> !IsDigit(fname[i])
    requires ProcessPdf(text, fname).Success?
    ensures Get(ProcessPdf(text, fname).value, "num_respondents") == Some(Int(0))
  {
    forall j | 0 <= j <= |fname|
      ensures FilenameCountAt(fname[j..]).None?
    {
      if j < |fname| {
        assert fname[j..][0] == fname[j];
      }
    }
  }

  /** The counts printed in the blocks that have response rows (the ones the loop keeps going for). */
  function PrintedCounts(qs: seq<Question>): (cs: seq<nat>)
    ensures forall i :: 0 <= i < |qs| && |qs[i].responses| > 0 ==> qs[i].respondents in cs
    ensures forall c :: c in cs ==> exists i :: 0 <= i < |qs| && |qs[i].responses| > 0 && qs[i].respondents == c
  {
    if |qs| == 0 then []
    else
      var rest := PrintedCounts(qs[1..]);
      assert forall i :: 1 <= i < |qs| ==> qs[i] == qs[1..][i - 1];
      if |qs[0].responses| > 0 then [qs[0].respondents] + rest else rest
  }

  /** The file-name count when the name has one, otherwise the largest printed count. */
  function IntendedRespondents(fname: string, qs: seq<Question>): (n: nat)
    ensures FilenameRespondents(fname) > 0 ==> n == FilenameRespondents(fname)
    ensures FilenameRespondents(fname) == 0 ==>
              forall i :: 0 <= i < |qs| && |qs[i].responses| > 0 ==> qs[i].respondents <= n
    ensures FilenameRespondents(fname) == 0 && n > 0 ==>
              exists i :: 0 <= i < |qs| && |qs[i].responses| > 0 && qs[i].respondents == n
  {
    var f := FilenameRespondents(fname);
    if f > 0 then f else MaxOrZero(PrintedCounts(qs))
  }

  /** `process_pdf` with the printed counts collected and used when the file name has none. */
  function ProcessPdfIntended(text: string, fname: string): (r: Result<Row, ExtractError>)
    ensures r.Failure? <==> HasBlankBlock(text)
    ensures r.Success? ==> DistinctKeys(r.value) && |r.value| >= 7 && Keys(r.value)[..7] == FIXED_KEYS
    ensures r.Success? ==> Get(r.value, "num_respondents")
                           == Some(Int(IntendedRespondents(fname, ParseBlocks(SplitBlocks(text)[1..]).value)))
  {
    ParseFailsOnBlank(text);
    var parsed := ParseBlocks(SplitBlocks(text)[1..]);
    if parsed.Failure? then Failure(parsed.error)
    else
      var qs := parsed.value;
      Success(AssembleRow(fname, ExtractMetadata(text), Collect(qs, []), IntendedRespondents(fname, qs)))
  }

  /** The corrected row differs from the written one only in the respondent count. */
  lemma ProcessPdfIntendedAgrees(text: string, fname: string, k: string)
    requires k != "num_respondents"
    ensures ProcessPdfIntended(text, fname).Success? <==> ProcessPdf(text, fname).Success?
    ensures ProcessPdf(text, fname).Success? ==>
              Get(ProcessPdfIntended(text, fname).value, k) == Get(ProcessPdf(text, fname).value, k)
  {
    var parsed := ParseBlocks(SplitBlocks(text)[1..]);
    if parsed.Success? {
      var qs := parsed.value;
      var m := ExtractMetadata(text);
      var d := Collect(qs, []);
      AssembleRowOther(fname, m, d, FilenameRespondents(fname), IntendedRespondents(fname, qs), k);
    }
  }

  lemma AssembleRowOther(fname: string, m: Metadata, d: Questions, n1: nat, n2: nat, k: string)
    requires k != "num_respondents"
    ensures Get(AssembleRow(fname, m, d, n1), k) == Get(AssembleRow(fname, m, d, n2), k)
  {
    var merged := Update(BaseRow(fname, m, MaxOrZero([])), d);
    PutOther(merged, "num_respondents", Int(n1), k);
    PutOther(merged, "num_respondents", Int(n2), k);
  }
}
