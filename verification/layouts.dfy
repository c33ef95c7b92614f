/** The layouts the evaluation reports print, and the proofs that each
    scanner of `Extract` reads back what was printed: response rows, the
    `n/m (p%)` respondent count, the `N of M responded` file name, the
    `yyyy Term` line, the `Course:` line, and the question delimiter. */
module Layouts {
  import opened Wrappers
  import opened Text
  import opened Scan
  import opened Extract

  /** One printed response row: the weight, its count, and its share in hundredths of a percent. */
  datatype ResponseRow = ResponseRow(weight: nat, count: nat, hundredths: nat)

  predicate ValidRow(r: ResponseRow) {
    r.weight < 10 && r.hundredths < 100000
  }

  lemma PercentEndExact(s: string, e: nat, pl: nat)
    requires 1 <= pl <= 3 && e + pl + 4 <= |s| && forall k :: e <= k < e + pl ==> IsDigit(s[k])
    requires s[e + pl] == '.' && IsDigit(s[e + pl + 1]) && IsDigit(s[e + pl + 2]) && s[e + pl + 3] == '%'
    ensures PercentEnd(s, e) == Some(e + pl + 4)
  {
    DigitsFromExact(s, e, pl);
  }

  /** `s` starts with `(w) <cl digits> <pl digits>.dd%`. */
  predicate RowLayout(s: string, cl: nat, pl: nat) {
    0 < cl && 1 <= pl <= 3 && 9 + cl + pl <= |s|
    && s[0] == '(' && IsDigit(s[1]) && s[2] == ')' && s[3] == ' '
    && AllDigits(s[4..4 + cl]) && s[4 + cl] == ' '
    && AllDigits(s[5 + cl..5 + cl + pl]) && s[5 + cl + pl] == '.'
    && IsDigit(s[6 + cl + pl]) && IsDigit(s[7 + cl + pl]) && s[8 + cl + pl] == '%'
  }

  /** The response pattern on a text with that layout. */
  lemma PairAtLayout(s: string, cl: nat, pl: nat)
    requires RowLayout(s, cl, pl)
    ensures PairAt(s) == Some(((DigitValue(s[1]), DigitsValue(s[4..4 + cl])), 9 + cl + pl))
  {
    AllDigitsSlice(s, 4, cl);
    AllDigitsSlice(s, 5 + cl, pl);
    SpacesFromOne(s, 3);
    DigitsFromExact(s, 4, cl);
    SpacesFromOne(s, 4 + cl);
    PercentEndExact(s, 5 + cl, pl);
  }

  /** `12.50` for 1250 hundredths. */
  function PercentText(h: nat): string
    requires h < 100000
  {
    NatToString(h / 100) + ['.', DigitChar(h / 10 % 10), DigitChar(h % 10)]
  }

  /** `(w) count pct%`: the three fields, one space apart. */
  function ResponseLine(r: ResponseRow): string
    requires ValidRow(r)
  {
    Join(["(" + [DigitChar(r.weight)] + ")", NatToString(r.count), PercentText(r.hundredths) + "%"], ' ')
  }

  /** Where the pieces of `(w) x y.de%` sit in the printed text. */
  lemma RowPieces(s: string, w: char, x: string, y: string, d: char, e: char, rest: string)
    requires s == ['(', w, ')', ' '] + x + [' '] + y + ['.', d, e, '%'] + rest
    ensures |s| == 9 + |x| + |y| + |rest|
    ensures s[0] == '(' && s[1] == w && s[2] == ')' && s[3] == ' '
    ensures s[4..4 + |x|] == x && s[4 + |x|] == ' ' && s[5 + |x|..5 + |x| + |y|] == y
    ensures s[5 + |x| + |y|] == '.' && s[6 + |x| + |y|] == d && s[7 + |x| + |y|] == e
    ensures s[8 + |x| + |y|] == '%'
  {
    assert s[4..4 + |x|] == x;
    assert s[5 + |x|..5 + |x| + |y|] == y;
  }

  /** The printed row, character by character around its two numbers. */
  lemma ResponseLineShape(r: ResponseRow)
    requires ValidRow(r)
    ensures ResponseLine(r) == ['(', DigitChar(r.weight), ')', ' '] + NatToString(r.count) + [' ']
              + NatToString(r.hundredths / 100)
              + ['.', DigitChar(r.hundredths / 10 % 10), DigitChar(r.hundredths % 10), '%']
  {
    var parts := ["(" + [DigitChar(r.weight)] + ")", NatToString(r.count), PercentText(r.hundredths) + "%"];
    assert Join(parts[2..], ' ') == parts[2];
    assert Join(parts[1..], ' ') == parts[1] + [' '] + parts[2] by { assert parts[1..][1..] == parts[2..]; }
    assert ResponseLine(r) == parts[0] + [' '] + (parts[1] + [' '] + parts[2]);
  }

  /** A printed row has the layout the response pattern expects. */
  lemma ResponseLineLayout(r: ResponseRow, rest: string)
    requires ValidRow(r)
    ensures var cl := |NatToString(r.count)|;
            var pl := |NatToString(r.hundredths / 100)|;
            var s := ResponseLine(r) + rest;
            |ResponseLine(r)| == 9 + cl + pl && RowLayout(s, cl, pl)
            && s[1] == DigitChar(r.weight) && s[4..4 + cl] == NatToString(r.count)
  {
    NatToStringShort(r.hundredths / 100);
    ResponseLineShape(r);
    var x := NatToString(r.count);
    var y := NatToString(r.hundredths / 100);
    var d := DigitChar(r.hundredths / 10 % 10);
    var e := DigitChar(r.hundredths % 10);
    var s := ResponseLine(r) + rest;
    assert s == ['(', DigitChar(r.weight), ')', ' '] + x + [' '] + y + ['.', d, e, '%'] + rest;
    RowPieces(s, DigitChar(r.weight), x, y, d, e, rest);
  }

  /** The response pattern reads a printed row back, and the match ends where the row ends. */
  lemma PairAtLine(r: ResponseRow, rest: string)
    requires ValidRow(r)
    ensures PairAt(ResponseLine(r) + rest) == Some(((r.weight, r.count), |ResponseLine(r)|))
  {
    var s := ResponseLine(r) + rest;
    var cl := |NatToString(r.count)|;
    var pl := |NatToString(r.hundredths / 100)|;
    ResponseLineLayout(r, rest);
    PairAtLayout(s, cl, pl);
    DigitValueOfChar(r.weight);
    DigitsValueOfNatToString(r.count);
    assert DigitValue(s[1]) == r.weight && DigitsValue(s[4..4 + cl]) == r.count;
  }

  predicate ValidRows(rows: seq<ResponseRow>) {
    forall i :: 0 <= i < |rows| ==> ValidRow(rows[i])
  }

  /** The printed rows, each on its own line. */
  function RowLines(rows: seq<ResponseRow>): string
    requires ValidRows(rows)
  {
    if |rows| == 0 then "" else ResponseLine(rows[0]) + "\n" + RowLines(rows[1..])
  }

  /** The `(weight, count)` pairs the rows print. */
  function RowPairs(rows: seq<ResponseRow>): (ps: seq<Pair>)
    ensures |ps| == |rows|
  {
    seq(|rows|, i requires 0 <= i < |rows| => (rows[i].weight as int, rows[i].count as int))
  }

  /** `re.findall` of the response pattern recovers every printed row, in order. */
  lemma {:induction false} PairsInRowLines(rows: seq<ResponseRow>)
    requires ValidRows(rows)
    ensures PairsIn(RowLines(rows)) == RowPairs(rows)
  {
    if |rows| > 0 {
      var line := ResponseLine(rows[0]);
      var tail := RowLines(rows[1..]);
      var s := line + ("\n" + tail);
      assert RowLines(rows) == s;
      PairAtLine(rows[0], "\n" + tail);
      assert s[|line|..] == "\n" + tail;
      assert ("\n" + tail)[1..] == tail;
      PairsInRowLines(rows[1..]);
      assert RowPairs(rows) == [(rows[0].weight as int, rows[0].count as int)] + RowPairs(rows[1..]);
    }
  }

  // ---- the respondent count printed in a question block: `n/m (p%)`

  /** `n/m (p%)`: `n` of `m` students answered, `p` percent. */
  function CountText(n: nat, m: nat, p: nat): string {
    NatToString(n) + "/" + NatToString(m) + " (" + NatToString(p) + "%)"
  }

  /** `s` starts with `<a digits>/<b digits> (<c digits>%)`. */
  predicate CountLayout(s: string, a: nat, b: nat, c: nat) {
    0 < a && 0 < b && 1 <= c <= 3 && a + b + c + 5 <= |s|
    && AllDigits(s[..a]) && s[a] == '/' && AllDigits(s[a + 1..a + 1 + b])
    && s[a + 1 + b] == ' ' && s[a + 2 + b] == '('
    && AllDigits(s[a + 3 + b..a + 3 + b + c]) && s[a + 3 + b + c] == '%' && s[a + 4 + b + c] == ')'
  }

  lemma TextRespondentsAtLayout(s: string, a: nat, b: nat, c: nat)
    requires CountLayout(s, a, b, c)
    ensures TextRespondentsAt(s) == Some(DigitsValue(s[..a]))
  {
    CountScan(s, a, b, c);
  }

  /** Each step of the respondent-count scanner on that layout. */
  lemma CountScan(s: string, a: nat, b: nat, c: nat)
    requires CountLayout(s, a, b, c)
    ensures DigitsFrom(s, 0) == a && DigitsFrom(s, a + 1) == b && SpacesFrom(s, a + 1 + b) == 1
    ensures DigitsFrom(s, a + 3 + b) == c
  {
    AllDigitsSlice(s, 0, a);
    assert s[..a] == s[0..a];
    AllDigitsSlice(s, a + 1, b);
    AllDigitsSlice(s, a + 3 + b, c);
    DigitsFromExact(s, 0, a);
    DigitsFromExact(s, a + 1, b);
    SpacesFromOne(s, a + 1 + b);
    DigitsFromExact(s, a + 3 + b, c);
  }

  /** Where the pieces of `x/y (z%)` sit in the printed text. */
  lemma CountPieces(s: string, x: string, y: string, z: string, rest: string)
    requires s == x + ['/'] + y + [' ', '('] + z + ['%', ')'] + rest
    ensures |s| == |x| + |y| + |z| + 5 + |rest|
    ensures s[..|x|] == x && s[|x|] == '/' && s[|x| + 1..|x| + 1 + |y|] == y
    ensures s[|x| + 1 + |y|] == ' ' && s[|x| + 2 + |y|] == '('
    ensures s[|x| + 3 + |y|..|x| + 3 + |y| + |z|] == z
    ensures s[|x| + 3 + |y| + |z|] == '%' && s[|x| + 4 + |y| + |z|] == ')'
  {
    assert s[..|x|] == x;
    assert s[|x| + 1..|x| + 1 + |y|] == y;
    assert s[|x| + 3 + |y|..|x| + 3 + |y| + |z|] == z;
  }

  lemma CountTextLayout(n: nat, m: nat, p: nat, rest: string)
    requires p < 1000
    ensures var s := CountText(n, m, p) + rest;
            var a := |NatToString(n)|;
            CountLayout(s, a, |NatToString(m)|, |NatToString(p)|) && s[..a] == NatToString(n)
  {
    NatToStringShort(p);
    var s := CountText(n, m, p) + rest;
    assert s == NatToString(n) + ['/'] + NatToString(m) + [' ', '('] + NatToString(p) + ['%', ')'] + rest;
    CountPieces(s, NatToString(n), NatToString(m), NatToString(p), rest);
  }

  /** The printed count reads back as the number who answered. */
  lemma TextRespondentsAtCount(n: nat, m: nat, p: nat, rest: string)
    requires p < 1000
    ensures TextRespondentsAt(CountText(n, m, p) + rest) == Some(n)
  {
    var s := CountText(n, m, p) + rest;
    CountTextLayout(n, m, p, rest);
    TextRespondentsAtLayout(s, |NatToString(n)|, |NatToString(m)|, |NatToString(p)|);
    DigitsValueOfNatToString(n);
  }

  /** A block whose text before the count holds no digit reports that count. */
  lemma PrintedRespondentsOfCount(prefix: string, n: nat, m: nat, p: nat, rest: string)
    requires p < 1000
    requires forall i :: 0 <= i < |prefix| ==> !IsDigit(prefix[i])
    ensures PrintedRespondents(prefix + CountText(n, m, p) + rest) == n
  {
    var s := prefix + CountText(n, m, p) + rest;
    assert s[|prefix|..] == CountText(n, m, p) + rest;
    TextRespondentsAtCount(n, m, p, rest);
    forall i | 0 <= i < |prefix|
      ensures TextRespondentsAt(s[i..]).None?
    {
      assert s[i..][0] == prefix[i];
    }
    SearchFinds(s, TextRespondentsAt, |prefix|, n);
  }

  // ---- the file name: `N of M responded`

  function ResponsePhrase(n: nat, m: nat): string {
    NatToString(n) + " of " + NatToString(m) + " responded"
  }

  /** `s` starts with `<a digits> of <b digits> responded`. */
  predicate PhraseLayout(s: string, a: nat, b: nat) {
    0 < a && 0 < b && a + b + 14 <= |s|
    && AllDigits(s[..a]) && s[a] == ' ' && s[a + 1] == 'o' && s[a + 2] == 'f' && s[a + 3] == ' '
    && AllDigits(s[a + 4..a + 4 + b]) && s[a + 4 + b] == ' ' && s[a + 5 + b..a + 14 + b] == "responded"
  }

  lemma SepsFromOne(s: string, i: nat)
    requires i + 1 < |s| && s[i] == ' ' && !IsSep(s[i + 1])
    ensures SepsFrom(s, i) == 1
  {
  }

  lemma StartsWithFoldExact(s: string, i: nat, w: string)
    requires i + |w| <= |s| && s[i..i + |w|] == w
    ensures StartsWithFold(s[i..], w)
  {
    forall k | 0 <= k < |w| ensures FoldEq(s[i..][k], w[k]) {
      assert s[i..][k] == s[i..i + |w|][k];
    }
  }

  lemma FilenameCountAtLayout(s: string, a: nat, b: nat)
    requires PhraseLayout(s, a, b)
    ensures FilenameCountAt(s) == Some(DigitsValue(s[..a]))
  {
    PhraseScan(s, a, b);
  }

  /** Each step of the file-name scanner on that layout. */
  lemma PhraseScan(s: string, a: nat, b: nat)
    requires PhraseLayout(s, a, b)
    ensures DigitsFrom(s, 0) == a && SepsFrom(s, a) == 1 && StartsWithFold(s[a + 1..], "of")
    ensures SepsFrom(s, a + 3) == 1 && DigitsFrom(s, a + 4) == b && SepsFrom(s, a + 4 + b) == 1
    ensures StartsWithFold(s[a + 5 + b..], "responded")
  {
    AllDigitsSlice(s, 0, a);
    assert s[..a] == s[0..a];
    AllDigitsSlice(s, a + 4, b);
    DigitsFromExact(s, 0, a);
    SepsFromOne(s, a);
    assert s[a + 1..a + 3] == "of";
    StartsWithFoldExact(s, a + 1, "of");
    SepsFromOne(s, a + 3);
    DigitsFromExact(s, a + 4, b);
    assert s[a + 5 + b] == 'r' by { assert s[a + 5 + b..a + 14 + b][0] == s[a + 5 + b]; }
    SepsFromOne(s, a + 4 + b);
    StartsWithFoldExact(s, a + 5 + b, "responded");
  }

  /** Where the pieces of `x of y responded` sit in the printed text. */
  lemma PhrasePieces(s: string, x: string, y: string, rest: string)
    requires s == x + [' ', 'o', 'f', ' '] + y + [' '] + "responded" + rest
    ensures |s| == |x| + |y| + 14 + |rest|
    ensures s[..|x|] == x && s[|x|] == ' ' && s[|x| + 1] == 'o' && s[|x| + 2] == 'f' && s[|x| + 3] == ' '
    ensures s[|x| + 4..|x| + 4 + |y|] == y && s[|x| + 4 + |y|] == ' '
    ensures s[|x| + 5 + |y|..|x| + 14 + |y|] == "responded"
  {
    assert s[..|x|] == x;
    assert s[|x| + 4..|x| + 4 + |y|] == y;
    assert s[|x| + 5 + |y|..|x| + 14 + |y|] == "responded";
  }

  lemma ResponsePhraseLayout(n: nat, m: nat, rest: string)
    ensures var s := ResponsePhrase(n, m) + rest;
            var a := |NatToString(n)|;
            PhraseLayout(s, a, |NatToString(m)|) && s[..a] == NatToString(n)
  {
    var s := ResponsePhrase(n, m) + rest;
    assert s == NatToString(n) + [' ', 'o', 'f', ' '] + NatToString(m) + [' '] + "responded" + rest;
    PhrasePieces(s, NatToString(n), NatToString(m), rest);
  }

  /** The file-name phrase reads back as the number who responded. */
  lemma FilenameCountAtPhrase(n: nat, m: nat, rest: string)
    ensures FilenameCountAt(ResponsePhrase(n, m) + rest) == Some(n)
  {
    ResponsePhraseLayout(n, m, rest);
    FilenameCountAtLayout(ResponsePhrase(n, m) + rest, |NatToString(n)|, |NatToString(m)|);
    DigitsValueOfNatToString(n);
  }

  /** A file name with no digit before the phrase yields the phrase's count. */
  lemma FilenameRespondentsOfPhrase(prefix: string, n: nat, m: nat, rest: string)
    requires forall i :: 0 <= i < |prefix| ==> !IsDigit(prefix[i])
    ensures FilenameRespondents(prefix + ResponsePhrase(n, m) + rest) == n
  {
    var s := prefix + ResponsePhrase(n, m) + rest;
    assert s[|prefix|..] == ResponsePhrase(n, m) + rest;
    FilenameCountAtPhrase(n, m, rest);
    forall i | 0 <= i < |prefix|
      ensures FilenameCountAt(s[i..]).None?
    {
      assert s[i..][0] == prefix[i];
    }
    SearchFinds(s, FilenameCountAt, |prefix|, n);
  }

  // ---- the term line: `yyyy Term`

  /** Each term name is recognised as itself: the alternatives differ early. */
  lemma TermWordAtName(term: string, rest: string)
    requires term in TERM_NAMES
    ensures TermWordAt(term + rest) == Some(term)
  {
    var x := term + rest;
    assert x[..|term|] == term;
    assert x[0] == term[0] && x[1] == term[1];
  }

  /** A four-digit year, a space and a term name read back as `(year, term)`. */
  lemma TermAtLine(year: string, term: string, rest: string)
    requires |year| == 4 && AllDigits(year) && term in TERM_NAMES
    ensures TermAt(year + " " + term + rest) == Some((year, term))
  {
    var s := year + " " + term + rest;
    assert s[..4] == year;
    var t := s[4..];
    assert t == " " + (term + rest);
    assert !IsSpace(term[0]);
    SpanLenExact(" ", term + rest, IsSpace);
    assert t[1..] == term + rest;
    TermWordAtName(term, rest);
  }

  // ---- the course line: `Course: CODE : title`

  /** What follows the colon: one space, then the title up to the line break. */
  lemma NameAtLine(name: string, rest: string)
    requires |name| > 0 && '\n' !in name && !IsSpace(name[0]) && !IsSpace(name[|name| - 1])
    ensures NameAt(" " + name + "\n" + rest) == Some(name)
  {
    var w := " " + name + "\n" + rest;
    assert w == " " + (name + "\n" + rest);
    SpanLenExact(" ", name + "\n" + rest, IsSpace);
    var x := w[1..];
    assert x == name + ("\n" + rest);
    assert x[|name|] == '\n';
    assert NameMatches(x);
    SpanLenExact(name, "\n" + rest, c => c != '\n');
    assert LineBody(x) == name;
    StripOfNoEdgeSpaces(name);
  }

  /** `s` starts with `Course: <cl code characters> :`. */
  predicate CourseLayout(s: string, cl: nat) {
    0 < cl && 10 + cl <= |s| && s[..7] == COURSE_MARK && s[7] == ' '
    && (forall k :: 8 <= k < 8 + cl ==> IsCodeChar(s[k]))
    && s[8 + cl] == ' ' && s[9 + cl] == ':'
  }

  lemma CodeFromExact(s: string, i: nat, n: nat)
    requires i + n < |s|
    requires forall k :: i <= k < i + n ==> IsCodeChar(s[k])
    requires !IsCodeChar(s[i + n])
    ensures CodeFrom(s, i) == n
    decreases n
  {
    if n > 0 {
      CodeFromExact(s, i + 1, n - 1);
    }
  }

  lemma CourseAtLayout(s: string, cl: nat)
    requires CourseLayout(s, cl)
    ensures NameAt(s[10 + cl..]).Some? ==> CourseAt(s) == Some((s[8..8 + cl], NameAt(s[10 + cl..]).value))
  {
    assert StartsWith(s, COURSE_MARK);
    assert !IsSpace(s[8]) by { assert IsCodeChar(s[8]); }
    SpacesFromOne(s, 7);
    assert !IsCodeChar(s[8 + cl]);
    CodeFromExact(s, 8, cl);
    SpacesFromOne(s, 8 + cl);
  }

  lemma CourseTextLayout(code: string, tail: string)
    requires IsCode(code)
    ensures var s := COURSE_MARK + " " + code + " :" + tail;
            CourseLayout(s, |code|) && s[8..8 + |code|] == code && s[10 + |code|..] == tail
  {
    var s := COURSE_MARK + " " + code + " :" + tail;
    assert s == COURSE_MARK + [' '] + code + [' ', ':'] + tail;
    assert s[..7] == COURSE_MARK;
    assert s[8..8 + |code|] == code;
    assert s[10 + |code|..] == tail;
  }

  /** `Course: CODE : title` followed by a line break reads back as `(CODE, title)`. */
  lemma CourseAtLine(code: string, name: string, rest: string)
    requires IsCode(code)
    requires |name| > 0 && '\n' !in name && !IsSpace(name[0]) && !IsSpace(name[|name| - 1])
    ensures CourseAt(COURSE_MARK + " " + code + " : " + name + "\n" + rest) == Some((code, name))
  {
    var tail := " " + name + "\n" + rest;
    var s := COURSE_MARK + " " + code + " :" + tail;
    assert COURSE_MARK + " " + code + " : " + name + "\n" + rest == s;
    CourseTextLayout(code, tail);
    NameAtLine(name, rest);
    CourseAtLayout(s, |code|);
  }

  // ---- the question delimiter: `\n<number> - `

  function Delim(k: nat): string {
    "\n" + NatToString(k) + " - "
  }

  /** `s` starts with `\n<d digits> - ` and the next character is not a space. */
  predicate DelimLayout(s: string, d: nat) {
    0 < d && d + 5 <= |s| && s[0] == '\n' && AllDigits(s[1..1 + d])
    && s[1 + d] == ' ' && s[2 + d] == '-' && s[3 + d] == ' ' && !IsSpace(s[4 + d])
  }

  lemma DelimAtLayout(s: string, d: nat)
    requires DelimLayout(s, d)
    ensures DelimAt(s) == Some(4 + d)
  {
    AllDigitsSlice(s, 1, d);
    DigitsFromExact(s, 1, d);
    SpacesFromOne(s, 1 + d);
    SpacesFromOne(s, 3 + d);
  }

  lemma DelimTextLayout(k: nat, b: string)
    requires |b| > 0 && !IsSpace(b[0])
    ensures |Delim(k)| == 4 + |NatToString(k)| && DelimLayout(Delim(k) + b, |NatToString(k)|)
  {
    var s := Delim(k) + b;
    var d := |NatToString(k)|;
    assert s == ['\n'] + NatToString(k) + [' ', '-', ' '] + b;
    assert s[1..1 + d] == NatToString(k);
  }

  lemma DelimAtDelim(k: nat, b: string)
    requires |b| > 0 && !IsSpace(b[0])
    ensures DelimAt(Delim(k) + b) == Some(|Delim(k)|)
  {
    DelimTextLayout(k, b);
    DelimAtLayout(Delim(k) + b, |NatToString(k)|);
  }

  /** Text with no line break stays in the current piece. */
  lemma {:induction false} SplitBlocksPlain(a: string, x: string)
    requires '\n' !in a
    ensures SplitBlocks(a + x) == [a + SplitBlocks(x)[0]] + SplitBlocks(x)[1..]
    decreases |a|
  {
    var X := SplitBlocks(x);
    if |a| > 0 {
      var s := a + x;
      assert s[0] == a[0] && a[0] in a;
      assert s[1..] == a[1..] + x;
      SplitBlocksPlain(a[1..], x);
      var rest := SplitBlocks(s[1..]);
      assert rest[0] == a[1..] + X[0] && rest[1..] == X[1..];
      assert [a[0]] + (a[1..] + X[0]) == a + X[0];
    } else {
      assert a + x == x && a + X[0] == X[0];
      assert X == [X[0]] + X[1..];
    }
  }

  /** A delimiter at the start begins a new, empty first piece. */
  lemma SplitBlocksAtDelim(k: nat, b: string)
    requires |b| > 0 && !IsSpace(b[0])
    ensures SplitBlocks(Delim(k) + b) == [""] + SplitBlocks(b)
  {
    DelimAtDelim(k, b);
    var x := Delim(k) + b;
    assert x[|Delim(k)|..] == b;
  }

  /** A delimiter ends the piece before it. */
  lemma SplitBlocksDelim(a: string, k: nat, b: string)
    requires '\n' !in a
    requires |b| > 0 && !IsSpace(b[0])
    ensures SplitBlocks(a + Delim(k) + b) == [a] + SplitBlocks(b)
  {
    var x := Delim(k) + b;
    SplitBlocksAtDelim(k, b);
    assert a + Delim(k) + b == a + x;
    SplitBlocksPlain(a, x);
    assert a + "" == a;
  }

  /** Numbered one-line questions `\n1 - q1\n2 - q2...`, counting from `k`. */
  function Sections(k: nat, qs: seq<string>): string
    decreases |qs|
  {
    if |qs| == 0 then "" else Delim(k) + qs[0] + Sections(k + 1, qs[1..])
  }

  predicate OneLineQuestion(q: string) {
    |q| > 0 && !IsSpace(q[0]) && '\n' !in q
  }

  /** `re.split` recovers the header and every question of numbered one-line sections. */
  lemma {:induction false} SplitBlocksSections(header: string, k: nat, qs: seq<string>)
    requires '\n' !in header
    requires forall i :: 0 <= i < |qs| ==> OneLineQuestion(qs[i])
    ensures SplitBlocks(header + Sections(k, qs)) == [header] + qs
    decreases |qs|
  {
    if |qs| == 0 {
      assert header + Sections(k, qs) == header + "";
      SplitBlocksPlain(header, "");
      assert header + "" == header;
    } else {
      var b := qs[0] + Sections(k + 1, qs[1..]);
      assert header + Sections(k, qs) == header + Delim(k) + b;
      SplitBlocksDelim(header, k, b);
      SplitBlocksSections(qs[0], k + 1, qs[1..]);
      assert [qs[0]] + qs[1..] == qs;
    }
  }
}
