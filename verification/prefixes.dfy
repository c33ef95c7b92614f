/** The course prefixes the crawler searches for (eval_crawler.py
    `make_prefix_iter`): every `AS.nnn` and `EN.nnn` by default, or the ones
    a `--prefix` argument selects. */
module Prefixes {
  import opened Wrappers
  import opened Text

  const STEMS: seq<string> := ["AS", "EN"]

  /** `f"{n:03d}"`: three digits, zero-padded. */
  function Pad3(n: nat): (r: string)
    requires n < 1000
    ensures |r| == 3 && AllDigits(r)
  {
    [DigitChar(n / 100), DigitChar(n / 10 % 10), DigitChar(n % 10)]
  }

  lemma Pad3Value(n: nat)
    requires n < 1000
    ensures DigitsValue(Pad3(n)) == n
  {
    var r := Pad3(n);
    DigitValueOfChar(n / 100);
    DigitValueOfChar(n / 10 % 10);
    DigitValueOfChar(n % 10);
    assert r[..2][..1] == [r[0]] && r[..1] == [r[0]];
    assert r[..2] == [r[0], r[1]];
    assert DigitsValue(r[..1]) == n / 100;
    assert DigitsValue(r[..2]) == n / 100 * 10 + n / 10 % 10;
  }

  /** Three digits are the padding of their value. */
  lemma Pad3OfDigits(d: string)
    requires |d| == 3 && AllDigits(d)
    ensures DigitsValue(d) < 1000 && Pad3(DigitsValue(d)) == d
  {
    var a, b, c := DigitValue(d[0]), DigitValue(d[1]), DigitValue(d[2]);
    assert d[..2][..1] == [d[0]] && d[..1] == [d[0]];
    assert d[..2] == [d[0], d[1]];
    assert DigitsValue(d[..1]) == a;
    assert DigitsValue(d) == a * 100 + b * 10 + c;
    ThreeDigits(a, b, c);
    assert Pad3(DigitsValue(d)) == [DigitChar(a), DigitChar(b), DigitChar(c)];
  }

  lemma ThreeDigits(a: nat, b: nat, c: nat)
    requires a < 10 && b < 10 && c < 10
    ensures var n := a * 100 + b * 10 + c;
      n < 1000 && n / 100 == a && n / 10 % 10 == b && n % 10 == c
  {
    var n := a * 100 + b * 10 + c;
    assert n / 10 == a * 10 + b;
  }

  lemma Pad3Injective(m: nat, n: nat)
    requires m < 1000 && n < 1000 && Pad3(m) == Pad3(n)
    ensures m == n
  {
    Pad3Value(m);
    Pad3Value(n);
  }

  /** A string the pattern `(AS|EN)\.\d{3}` matches in full. */
  predicate IsFullPrefix(p: string) {
    |p| == 6 && p[..2] in STEMS && p[2] == '.' && AllDigits(p[3..])
  }

  function StemPrefixes(stem: string): (r: seq<string>)
    ensures |r| == 1000
    ensures forall n :: 0 <= n < 1000 ==> r[n] == stem + "." + Pad3(n)
  {
    seq(1000, n requires 0 <= n < 1000 => stem + "." + Pad3(n))
  }

  /** The parts of `stem + "." + Pad3(n)`. */
  lemma StemPrefixParts(stem: string, n: nat)
    requires stem in STEMS && n < 1000
    ensures var p := stem + "." + Pad3(n);
      IsFullPrefix(p) && p[..2] == stem && p[3..] == Pad3(n)
  {
    var p := stem + "." + Pad3(n);
    assert p[..2] == stem && p[3..] == Pad3(n);
  }

  /** `make_prefix_iter(None)`: `AS.000` ... `AS.999`, then `EN.000` ...
      `EN.999`. */
  function AllPrefixes(): (r: seq<string>)
    ensures |r| == 2000
    ensures forall i :: 0 <= i < |r| ==> IsFullPrefix(r[i])
    ensures r[..1000] == StemPrefixes("AS") && r[1000..] == StemPrefixes("EN")
  {
    var r := StemPrefixes("AS") + StemPrefixes("EN");
    forall i | 0 <= i < |r|
      ensures IsFullPrefix(r[i])
    {
      if i < 1000 {
        StemPrefixParts("AS", i);
      } else {
        assert r[i] == StemPrefixes("EN")[i - 1000];
        StemPrefixParts("EN", i - 1000);
      }
    }
    r
  }

  /** The prefix with stem number `b` and number `n` sits at `1000 * b + n`. */
  lemma AllPrefixesAt(b: nat, n: nat)
    requires b < 2 && n < 1000
    ensures AllPrefixes()[1000 * b + n] == STEMS[b] + "." + Pad3(n)
  {
    var i := 1000 * b + n;
    if b == 0 {
      AllPrefixesFirst(n);
      assert i == n;
    } else {
      AllPrefixesSecond(n);
      assert i == 1000 + n;
    }
  }

  lemma AllPrefixesFirst(n: nat)
    requires n < 1000
    ensures AllPrefixes()[n] == STEMS[0] + "." + Pad3(n)
  {
    var r := AllPrefixes();
    assert r[n] == r[..1000][n];
  }

  lemma AllPrefixesSecond(n: nat)
    requires n < 1000
    ensures AllPrefixes()[1000 + n] == STEMS[1] + "." + Pad3(n)
  {
    var r := AllPrefixes();
    assert r[1000 + n] == r[1000..][n];
  }

  lemma AllPrefixesDiffer(b: nat, m: nat, c: nat, n: nat)
    requires b < 2 && m < 1000 && c < 2 && n < 1000 && (b, m) != (c, n)
    ensures AllPrefixes()[1000 * b + m] != AllPrefixes()[1000 * c + n]
  {
    AllPrefixesAt(b, m);
    AllPrefixesAt(c, n);
    StemPrefixParts(STEMS[b], m);
    StemPrefixParts(STEMS[c], n);
    if m == n {
      assert STEMS[b][1] != STEMS[c][1];
    } else if Pad3(m) == Pad3(n) {
      Pad3Injective(m, n);
    }
  }

  /** The default enumeration has no repeats. */
  lemma AllPrefixesDistinct()
    ensures forall i, j :: 0 <= i < j < 2000 ==> AllPrefixes()[i] != AllPrefixes()[j]
  {
    forall i, j | 0 <= i < j < 2000
      ensures AllPrefixes()[i] != AllPrefixes()[j]
    {
      var b := if i < 1000 then 0 else 1;
      var c := if j < 1000 then 0 else 1;
      AllPrefixesDiffer(b, i - 1000 * b, c, j - 1000 * c);
    }
  }

  /** Every string of the full form is enumerated. */
  lemma AllPrefixesComplete(p: string)
    requires IsFullPrefix(p)
    ensures p in AllPrefixes()
  {
    var n := DigitsValue(p[3..]);
    Pad3OfDigits(p[3..]);
    assert p == p[..2] + "." + Pad3(n);
    AllPrefixesAt(if p[..2] == "AS" then 0 else 1, n);
  }

  /** What `_PREFIX_RE` captures: the stem and, when present, the number. */
  datatype PrefixMatch = PrefixMatch(stem: string, number: Option<string>)

  /** `_PREFIX_RE.fullmatch(s)` for `^(AS|EN)(?:\.(\d{3}))?$`. */
  function MatchPrefix(s: string): (m: Option<PrefixMatch>)
    ensures m.Some? ==> m.value.stem in STEMS
    ensures m.Some? && m.value.number.None? ==> s == m.value.stem
    ensures m.Some? && m.value.number.Some? ==>
      IsFullPrefix(s) && s == m.value.stem + "." + m.value.number.value
  {
    if |s| == 2 && s in STEMS then Some(PrefixMatch(s, None))
    else if IsFullPrefix(s) then
      assert s == s[..2] + "." + s[3..];
      Some(PrefixMatch(s[..2], Some(s[3..])))
    else None
  }

  lemma MatchPrefixAccepts(s: string)
    ensures MatchPrefix(s).Some? <==> s in STEMS || IsFullPrefix(s)
  {
  }

  /** `sys.exit` with the message naming the rejected argument. */
  datatype PrefixError = BadPrefix(argument: string)

  /** `make_prefix_iter(user_prefix)`. */
  function MakePrefixIter(user: Option<string>): (r: Result<seq<string>, PrefixError>)
    ensures r.Failure? <==> user.Some? && MatchPrefix(Upper(Strip(user.value))).None?
    ensures r.Failure? ==> r.error == BadPrefix(user.value)
    ensures user.None? ==> r == Success(AllPrefixes())
    ensures r.Success? ==> forall i :: 0 <= i < |r.value| ==> IsFullPrefix(r.value[i])
  {
    if user.None? then Success(AllPrefixes())
    else
      var m := MatchPrefix(Upper(Strip(user.value)));
      if m.None? then Failure(BadPrefix(user.value))
      else if m.value.number.None? then
        var r := StemPrefixes(m.value.stem);
        forall i | 0 <= i < |r|
          ensures IsFullPrefix(r[i])
        {
          StemPrefixParts(m.value.stem, i);
        }
        Success(r)
      else Success([m.value.stem + "." + m.value.number.value])
  }

  /** A full prefix selects exactly itself, normalised. */
  lemma MakePrefixIterFull(u: string)
    requires IsFullPrefix(Upper(Strip(u)))
    ensures MakePrefixIter(Some(u)) == Success([Upper(Strip(u))])
  {
  }

  /** A bare stem selects its thousand prefixes: the same block of the
      default enumeration. */
  lemma MakePrefixIterStem(u: string)
    requires Upper(Strip(u)) in STEMS
    ensures MakePrefixIter(Some(u)) == Success(StemPrefixes(Upper(Strip(u))))
    ensures Upper(Strip(u)) == "AS" ==> MakePrefixIter(Some(u)).value == AllPrefixes()[..1000]
    ensures Upper(Strip(u)) == "EN" ==> MakePrefixIter(Some(u)).value == AllPrefixes()[1000..]
  {
  }

  /** Whatever is selected is part of the default enumeration. */
  lemma MakePrefixIterWithinAll(user: Option<string>, p: string)
    requires MakePrefixIter(user).Success? && p in MakePrefixIter(user).value
    ensures p in AllPrefixes()
  {
    AllPrefixesComplete(p);
  }
}
