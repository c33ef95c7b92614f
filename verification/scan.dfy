/** Leftmost-match search, the part of Python's `re.search` that is the same
    for every pattern. Each pattern of the system is written as a matcher
    `at(s)` that decides whether the pattern matches at the START of `s`
    (and what it captures); `Search` then tries the suffixes of the text from
    the left, as the regular-expression engine does. */
module Scan {
  import opened Wrappers

  /** `re.search`: the first position `j` (0 to `|s|`, the end included) at
      which `at` matches `s[j..]`, with the value captured there. */
  function Search<T>(s: string, at: string -> Option<T>): (r: Option<(nat, T)>)
    ensures r.Some? ==> r.value.0 <= |s| && at(s[r.value.0..]) == Some(r.value.1)
    ensures r.Some? ==> forall j :: 0 <= j < r.value.0 ==> at(s[j..]).None?
    ensures r.None? ==> forall j :: 0 <= j <= |s| ==> at(s[j..]).None?
    decreases |s|
  {
    match at(s)
    case Some(v) => Some((0, v))
    case None =>
      if |s| == 0 then None
      else
        var r := Search(s[1..], at);
        assert forall j :: 1 <= j <= |s| ==> s[j..] == s[1..][j - 1..];
        match r
        case Some(hit) => Some((hit.0 + 1, hit.1))
        case None => None
  }

  /** Before the position `Search` reports, and everywhere when it reports
      none, nothing matches. */
  lemma SearchNoneBefore<T>(s: string, at: string -> Option<T>, j: nat)
    requires Search(s, at).Some? ==> j <= Search(s, at).value.0
    requires Search(s, at).None? ==> j <= |s|
    ensures forall i :: 0 <= i < j ==> at(s[i..]).None?
  {
  }

  /** What a reported match means: a match at `j` and none before it. */
  lemma SearchHit<T>(s: string, at: string -> Option<T>, j: nat, v: T)
    requires Search(s, at) == Some((j, v))
    ensures j <= |s| && at(s[j..]) == Some(v)
    ensures forall i :: 0 <= i < j ==> at(s[i..]).None?
  {
  }

  /** A match at `j` with none before it is the one `Search` reports. */
  lemma SearchFinds<T>(s: string, at: string -> Option<T>, j: nat, v: T)
    requires j <= |s| && at(s[j..]) == Some(v)
    requires forall i :: 0 <= i < j ==> at(s[i..]).None?
    ensures Search(s, at) == Some((j, v))
  {
  }
}
