/** The decisions of `save_pdf` (eval_crawler.py): skip a file that is
    already there, follow the JavaScript redirect of an HTML interstitial,
    and write only a response that says it is a PDF. `fetch(url)` is what
    `safe_get_retry` returns or raises for `url` (the Http module models
    how it gets there), and `urljoin` is the standard library's
    `urllib.parse.urljoin`, a parameter here. */
module Download {
  import opened Wrappers
  import opened Text
  import opened Scan
  import opened Http

  const HREF_MARK := "document.location.href"
  const HTML_TYPE := "text/html"
  const PDF_TYPE := "application/pdf"

  predicate IsQuote(c: char) {
    c == '\'' || c == '"'
  }

  /** The first position from `i` on holding a quote or a line break, or the
      end of `s`. */
  function StopFrom(s: string, i: nat): (e: nat)
    requires i <= |s|
    ensures i <= e <= |s|
    decreases |s| - i
  {
    if i == |s| || IsQuote(s[i]) || s[i] == '\n' then i else StopFrom(s, i + 1)
  }

  lemma {:induction false} StopFromExact(s: string, i: nat, n: nat)
    requires i + n < |s|
    requires forall k :: i <= k < i + n ==> !IsQuote(s[k]) && s[k] != '\n'
    requires IsQuote(s[i + n])
    ensures StopFrom(s, i) == i + n
    decreases n
  {
    if n > 0 {
      StopFromExact(s, i + 1, n - 1);
    }
  }

  /** The pattern `document\.location\.href\s*=\s*['"](.+?)['"]` matched at
      the start of `s`, yielding its group. The lazy group takes at least one
      character other than a line break and ends before the first quote
      after that character. RedirectAtScript pins the group read from a
      rendered script. */
  function RedirectAt(s: string): (r: Option<string>)
    ensures r.Some? ==> StartsWith(s, HREF_MARK)
    ensures r.Some? ==> |r.value| >= 1 && '\n' !in r.value
  {
    if !StartsWith(s, HREF_MARK) then None
    else
      var a := |HREF_MARK| + SpacesFrom(s, |HREF_MARK|);
      if a >= |s| || s[a] != '=' then None
      else
        var b := a + 1 + SpacesFrom(s, a + 1);
        if b >= |s| || !IsQuote(s[b]) then None
        else if b + 1 >= |s| || s[b + 1] == '\n' then None
        else
          var e := StopFrom(s, b + 2);
          if e == |s| || s[e] == '\n' then None
          else
            assert forall k :: b + 2 <= k < e ==> s[k] != '\n' by {
              StopFromRun(s, b + 2);
            }
            Some(s[b + 1..e])
  }

  lemma {:induction false} StopFromRun(s: string, i: nat)
    requires i <= |s|
    ensures forall k :: i <= k < StopFrom(s, i) ==> !IsQuote(s[k]) && s[k] != '\n'
    decreases |s| - i
  {
    if i < |s| && !IsQuote(s[i]) && s[i] != '\n' {
      StopFromRun(s, i + 1);
    }
  }

  /** `re.search` of the redirect pattern: its group at the leftmost match. */
  function FindRedirect(text: string): (r: Option<string>)
    ensures r.None? <==> forall j :: 0 <= j <= |text| ==> RedirectAt(text[j..]).None?
    ensures r.Some? ==> exists j :: 0 <= j <= |text| && RedirectAt(text[j..]) == r
                                    && forall i :: 0 <= i < j ==> RedirectAt(text[i..]).None?
  {
    var m := Search(text, RedirectAt);
    if m.None? then None else Some(m.value.1)
  }

  /** `"<t>" in r.headers.get("Content-Type", "")`. */
  predicate HasType(r: Response, t: string) {
    Contains(r.contentType.GetOr(""), t)
  }

  datatype SaveOutcome =
    | AlreadyExists
    | NoRedirectFound
    | NotPdf(contentType: Option<string>)
    | Written(content: string)
    | Raised(error: Error)

  /** The URLs requested and how `save_pdf` ended. */
  datatype Save = Save(fetched: seq<string>, outcome: SaveOutcome)

  /** What `save_pdf` does with a final response. */
  function Finish(r: Response): (o: SaveOutcome)
    ensures o.Written? <==> HasType(r, PDF_TYPE)
    ensures o.Written? ==> o.content == r.text
    ensures o.NotPdf? ==> o.contentType == r.contentType
    ensures o.Written? || o.NotPdf?
  {
    if HasType(r, PDF_TYPE) then Written(r.text) else NotPdf(r.contentType)
  }

  /** `save_pdf(sess, url, dst)`, with `exists` whether `dst` exists. */
  function SavePdf(present: bool, url: string, fetch: string -> Result<Response, Error>,
                   urljoin: (string, string) -> string): (s: Save)
    ensures present <==> s.outcome == AlreadyExists
    ensures present ==> s.fetched == []
    ensures !present ==> 1 <= |s.fetched| <= 2 && s.fetched[0] == url
    ensures |s.fetched| == 2 <==>
      && !present && fetch(url).Success? && HasType(fetch(url).value, HTML_TYPE)
      && FindRedirect(fetch(url).value.text).Some?
    ensures |s.fetched| == 2 ==>
      s.fetched[1] == urljoin(fetch(url).value.url, FindRedirect(fetch(url).value.text).value)
    ensures s.outcome == NoRedirectFound <==>
      && !present && fetch(url).Success? && HasType(fetch(url).value, HTML_TYPE)
      && FindRedirect(fetch(url).value.text).None?
    ensures s.outcome.Raised? ==> |s.fetched| > 0 && fetch(s.fetched[|s.fetched| - 1]) == Failure(s.outcome.error)
    ensures s.outcome.Written? || s.outcome.NotPdf? ==>
      |s.fetched| > 0 && fetch(s.fetched[|s.fetched| - 1]).Success?
      && s.outcome == Finish(fetch(s.fetched[|s.fetched| - 1]).value)
  {
    if present then Save([], AlreadyExists)
    else
      var first := fetch(url);
      if first.Failure? then Save([url], Raised(first.error))
      else if !HasType(first.value, HTML_TYPE) then Save([url], Finish(first.value))
      else
        var target := FindRedirect(first.value.text);
        if target.None? then Save([url], NoRedirectFound)
        else
          var next := urljoin(first.value.url, target.value);
          var second := fetch(next);
          Save([url, next], if second.Failure? then Raised(second.error) else Finish(second.value))
  }

  /** A file is written only from a response declaring a PDF, and then with
      that response's content. */
  lemma WrittenOnlyPdf(present: bool, url: string, fetch: string -> Result<Response, Error>,
                       urljoin: (string, string) -> string)
    requires SavePdf(present, url, fetch, urljoin).outcome.Written?
    ensures var s := SavePdf(present, url, fetch, urljoin);
      var last := fetch(s.fetched[|s.fetched| - 1]);
      last.Success? && HasType(last.value, PDF_TYPE) && s.outcome.content == last.value.text
  {
  }

  // ---- the redirect script the site serves

  /** `document.location.href = "<target>"` followed by anything. */
  function RedirectScript(target: string, rest: string): string {
    HREF_MARK + " = \"" + target + "\"" + rest
  }

  predicate PlainTarget(target: string) {
    |target| >= 1 && forall k :: 0 <= k < |target| ==> !IsQuote(target[k]) && target[k] != '\n'
  }

  /** `s` starts with the script for a target of `n` characters. */
  predicate ScriptLayout(s: string, n: nat) {
    && StartsWith(s, HREF_MARK) && 27 + n <= |s| && n >= 1
    && s[22] == ' ' && s[23] == '=' && s[24] == ' ' && s[25] == '"'
    && (forall k :: 26 <= k < 26 + n ==> !IsQuote(s[k]) && s[k] != '\n')
    && s[26 + n] == '"'
  }

  lemma RedirectAtLayout(s: string, n: nat)
    requires ScriptLayout(s, n)
    ensures RedirectAt(s) == Some(s[26..26 + n])
  {
    assert |HREF_MARK| == 22;
    SpacesFromOne(s, 22);
    SpacesFromOne(s, 24);
    StopFromExact(s, 27, n - 1);
  }

  lemma ScriptTextLayout(target: string, rest: string)
    requires PlainTarget(target)
    ensures ScriptLayout(RedirectScript(target, rest), |target|)
    ensures RedirectScript(target, rest)[26..26 + |target|] == target
  {
    var s := RedirectScript(target, rest);
    assert s == HREF_MARK + " = \"" + target + "\"" + rest;
    assert s[..22] == HREF_MARK;
    assert s[26..26 + |target|] == target;
    assert forall k :: 26 <= k < 26 + |target| ==> s[k] == target[k - 26];
  }

  /** The redirect scanner recovers the target of the script. */
  lemma RedirectAtScript(target: string, rest: string)
    requires PlainTarget(target)
    ensures RedirectAt(RedirectScript(target, rest)) == Some(target)
  {
    ScriptTextLayout(target, rest);
    RedirectAtLayout(RedirectScript(target, rest), |target|);
  }

  /** A page whose text before the script has no `d` is redirected to the
      script's target. */
  lemma FindRedirectOfPage(before: string, target: string, rest: string)
    requires PlainTarget(target) && 'd' !in before
    ensures FindRedirect(before + RedirectScript(target, rest)) == Some(target)
  {
    var s := before + RedirectScript(target, rest);
    assert s[|before|..] == RedirectScript(target, rest);
    RedirectAtScript(target, rest);
    forall i | 0 <= i < |before|
      ensures RedirectAt(s[i..]).None?
    {
      assert s[i..][0] == before[i] != HREF_MARK[0];
      assert !StartsWith(s[i..], HREF_MARK);
    }
    SearchFinds(s, RedirectAt, |before|, target);
  }
}
