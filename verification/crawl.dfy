/** The crawl loop of eval_crawler.py (`crawl`): for each prefix, page 1 of
    the HTML results and then the API pages 3, 4, ... while the site says
    there are more; every link whose key has not been seen is recorded and,
    in a live run, handed to `save_pdf`. The site is a parameter: for each
    prefix, the anchors and `more` flag of page 1 and of the API pages as
    far as they are served. Downloads are recorded, not performed. */
module Crawl {
  import opened Wrappers
  import opened Links

  /** Rows per full server chunk. */
  const CHUNK: nat := 20
  /** The first API page. */
  const FIRST_API_PAGE: nat := 3

  datatype Page = Page(anchors: seq<Anchor>, more: bool)

  /** What the site serves for one prefix: page 1, then pages 3, 4, ... */
  datatype Listing = Listing(first: Page, api: seq<Page>)

  /** The crawler's state: the `seen` set, the keys in the order they were
      added, the `save_pdf` calls made, the pages fetched, and the pages
      after which it slept. */
  datatype State = State(
    seen: set<string>,
    added: seq<string>,
    saves: seq<Link>,
    fetched: seq<(string, nat)>,
    sleeps: seq<(string, nat)>)

  /** The dedup key of an anchor's link: its joined ids, which is what
      `url.split("?", 1)[1]` yields (`KeyOfUrl`). */
  function Key(a: Anchor): string {
    Ids(a)
  }

  lemma KeyOfUrl(a: Anchor)
    ensures RequestId(PdfUrl(a)) == Some(Key(a))
  {
  }

  predicate Distinct(xs: seq<string>) {
    forall i, j :: 0 <= i < j < |xs| ==> xs[i] != xs[j]
  }

  /** `seen` is exactly the keys added, each added once; a live run saved
      one link per added key, a dry run none. */
  ghost predicate Good(st: State, live: bool) {
    && Distinct(st.added)
    && (forall k :: k in st.seen <==> k in st.added)
    && (live ==> |st.saves| == |st.added|
                 && forall i :: 0 <= i < |st.saves| ==> RequestId(st.saves[i].url) == Some(st.added[i]))
    && (!live ==> st.saves == [])
  }

  /** Nothing is forgotten: every record of `st` is a prefix of `r`'s. */
  predicate Grows(st: State, r: State) {
    st.seen <= r.seen && st.added <= r.added && st.saves <= r.saves
    && st.fetched <= r.fetched && st.sleeps <= r.sleeps
  }

  function Start(): (st: State)
    ensures forall live :: Good(st, live)
  {
    State({}, [], [], [], [])
  }

  /** The body of the row loop for one link: skip a seen key, otherwise add
      it and, in a live run, save the link. */
  function Visit(st: State, a: Anchor, live: bool): (r: State)
    ensures Grows(st, r) && r.fetched == st.fetched && r.sleeps == st.sleeps
    ensures r.seen == st.seen + {Key(a)}
    ensures Key(a) in st.seen ==> r == st
    ensures Key(a) !in st.seen ==> r.added == st.added + [Key(a)]
    ensures Key(a) !in st.seen && live ==> r.saves == st.saves + [Link(PdfUrl(a), FileName(a))]
    ensures !live ==> r.saves == st.saves
  {
    var k := Key(a);
    if k in st.seen then st
    else st.(seen := st.seen + {k}, added := st.added + [k],
             saves := if live then st.saves + [Link(PdfUrl(a), FileName(a))] else st.saves)
  }

  lemma VisitGood(st: State, a: Anchor, live: bool)
    requires Good(st, live)
    ensures Good(Visit(st, a, live), live)
  {
    var r := Visit(st, a, live);
    KeyOfUrl(a);
    if Key(a) !in st.seen {
      assert forall i :: 0 <= i < |st.added| ==> r.added[i] == st.added[i];
      assert live ==> forall i :: 0 <= i < |st.saves| ==> r.saves[i] == st.saves[i];
    }
  }

  /** The keys of a page's links, in order. */
  function KeysOf(anchors: seq<Anchor>): (ks: seq<string>)
    ensures |ks| == |anchors|
    ensures forall i :: 0 <= i < |anchors| ==> ks[i] == Key(anchors[i])
  {
    seq(|anchors|, i requires 0 <= i < |anchors| => Key(anchors[i]))
  }

  /** The row loop over one page's links: afterwards `seen` holds exactly
      the keys seen before and the page's keys. */
  function Rows(st: State, anchors: seq<Anchor>, live: bool): (r: State)
    ensures Grows(st, r) && r.fetched == st.fetched && r.sleeps == st.sleeps
    ensures forall k :: k in r.seen <==> k in st.seen || k in KeysOf(anchors)
    decreases |anchors|
  {
    if |anchors| == 0 then st
    else
      var r := Rows(Visit(st, anchors[0], live), anchors[1..], live);
      assert KeysOf(anchors) == [Key(anchors[0])] + KeysOf(anchors[1..]);
      r
  }

  lemma {:induction false} RowsGood(st: State, anchors: seq<Anchor>, live: bool)
    requires Good(st, live)
    ensures Good(Rows(st, anchors, live), live)
    decreases |anchors|
  {
    if |anchors| > 0 {
      VisitGood(st, anchors[0], live);
      RowsGood(Visit(st, anchors[0], live), anchors[1..], live);
    }
  }

  /** Pages `page`, `page + 1`, ... of one prefix, `n` of them. */
  function PageRun(pref: string, page: nat, n: nat): (r: seq<(string, nat)>)
    ensures |r| == n
    ensures forall j :: 0 <= j < n ==> r[j] == (pref, page + j)
  {
    seq(n, j requires 0 <= j < n => (pref, page + j))
  }

  /** A page that fills a server chunk. */
  predicate Full(p: Page) {
    |p.anchors| >= CHUNK
  }

  /** The pages a walk fetched and the pages after which it slept. */
  datatype Log = Log(fetched: seq<(string, nat)>, sleeps: seq<(string, nat)>)

  /** The pagination decisions of the `while more` loop alone, from API page
      `page` (served as `api[0]`) on: an empty page and a short page end the
      loop, a full page is followed by a sleep, and the loop goes on while
      the page says there are more. */
  function ApiLog(pref: string, api: seq<Page>, page: nat): (l: Log)
    decreases |api|
  {
    if |api| == 0 then Log([], [])
    else if !Full(api[0]) then Log([(pref, page)], [])
    else if !api[0].more then Log([(pref, page)], [(pref, page)])
    else
      var rest := ApiLog(pref, api[1..], page + 1);
      Log([(pref, page)] + rest.fetched, [(pref, page)] + rest.sleeps)
  }

  /** The pages the loop fetches: consecutive from `page`, at least one when
      the site serves any; it moves past a page only when that page was full
      and said there is more, and it stops at the first page that was not,
      or where the served pages end. */
  lemma {:induction false} ApiLogFetched(pref: string, api: seq<Page>, page: nat)
    ensures var m := |ApiLog(pref, api, page).fetched|;
      && m <= |api| && (|api| > 0 ==> m >= 1)
      && ApiLog(pref, api, page).fetched == PageRun(pref, page, m)
      && (forall j :: 0 <= j < m - 1 ==> Full(api[j]) && api[j].more)
      && (0 < m < |api| ==> !(Full(api[m - 1]) && api[m - 1].more))
    decreases |api|
  {
    if |api| > 0 && Full(api[0]) && api[0].more {
      ApiLogFetched(pref, api[1..], page + 1);
      var m := |ApiLog(pref, api, page).fetched|;
      assert [(pref, page)] + PageRun(pref, page + 1, m - 1) == PageRun(pref, page, m);
      assert forall j :: 1 <= j < m ==> api[1..][j - 1] == api[j];
    } else if |api| > 0 {
      assert PageRun(pref, page, 1) == [(pref, page)];
    }
  }

  /** The loop sleeps once after every full page it fetched, and at no
      other time. */
  lemma {:induction false} ApiLogSleeps(pref: string, api: seq<Page>, page: nat)
    ensures var l := ApiLog(pref, api, page);
      var m, k := |l.fetched|, |l.sleeps|;
      && l.sleeps == PageRun(pref, page, k)
      && (m == 0 ==> k == 0)
      && (0 < m <= |api| ==> (k == m <==> Full(api[m - 1])) && (k == m - 1 <==> !Full(api[m - 1])))
    decreases |api|
  {
    var l := ApiLog(pref, api, page);
    if |api| > 0 && Full(api[0]) {
      if api[0].more {
        ApiLogSleeps(pref, api[1..], page + 1);
        ApiLogFetched(pref, api[1..], page + 1);
        var k := |l.sleeps|;
        assert [(pref, page)] + PageRun(pref, page + 1, k - 1) == PageRun(pref, page, k);
        var rest := ApiLog(pref, api[1..], page + 1);
        if |rest.fetched| > 0 {
          assert api[1..][|rest.fetched| - 1] == api[|l.fetched| - 1];
        }
      } else {
        assert PageRun(pref, page, 1) == [(pref, page)];
      }
    } else {
      assert PageRun(pref, page, 0) == [];
    }
  }

  /** Fetching one page: it is logged and its rows are visited (an empty
      page has none). */
  function Fetch(st: State, pref: string, p: Page, page: nat, live: bool): (r: State)
    ensures Grows(st, r)
    ensures r.fetched == st.fetched + [(pref, page)] && r.sleeps == st.sleeps
  {
    Rows(st.(fetched := st.fetched + [(pref, page)]), p.anchors, live)
  }

  /** The `while more` loop, about to fetch API page `page`, which the site
      serves as `api[0]`: the rows of every fetched page are visited and the
      pages fetched and slept after are those `ApiLog` decides. */
  function ApiPages(st: State, pref: string, api: seq<Page>, page: nat, live: bool): (r: State)
    ensures Grows(st, r)
    ensures r.fetched == st.fetched + ApiLog(pref, api, page).fetched
    ensures r.sleeps == st.sleeps + ApiLog(pref, api, page).sleeps
    decreases |api|
  {
    if |api| == 0 then st
    else
      var st2 := Fetch(st, pref, api[0], page, live);
      if !Full(api[0]) then st2
      else
        var st3 := st2.(sleeps := st2.sleeps + [(pref, page)]);
        if !api[0].more then st3
        else
          var rest := ApiLog(pref, api[1..], page + 1);
          assert st3.fetched + rest.fetched == st.fetched + ([(pref, page)] + rest.fetched);
          assert st3.sleeps + rest.sleeps == st.sleeps + ([(pref, page)] + rest.sleeps);
          ApiPages(st3, pref, api[1..], page + 1, live)
  }

  lemma {:induction false} ApiPagesGood(st: State, pref: string, api: seq<Page>, page: nat, live: bool)
    requires Good(st, live)
    ensures Good(ApiPages(st, pref, api, page, live), live)
    decreases |api|
  {
    if |api| > 0 {
      RowsGood(st.(fetched := st.fetched + [(pref, page)]), api[0].anchors, live);
      var st2 := Fetch(st, pref, api[0], page, live);
      if Full(api[0]) && api[0].more {
        ApiPagesGood(st2.(sleeps := st2.sleeps + [(pref, page)]), pref, api[1..], page + 1, live);
      }
    }
  }

  /** One prefix: page 1 and then, while `more` holds, the API pages. */
  function Prefix(st: State, pref: string, listing: Listing, live: bool): (r: State)
    ensures Grows(st, r)
  {
    var st1 := Fetch(st, pref, listing.first, 1, live);
    if !listing.first.more then st1
    else ApiPages(st1, pref, listing.api, FIRST_API_PAGE, live)
  }

  /** A prefix fetches page 1 and then pages 3, 4, ...; the API pages are
      reached whenever page 1 says there are more, however many rows page 1
      had, and never otherwise. */
  lemma PrefixFetched(st: State, pref: string, listing: Listing, live: bool)
    ensures var r := Prefix(st, pref, listing, live);
      var m := |r.fetched| - |st.fetched| - 1;
      && m >= 0
      && r.fetched == st.fetched + [(pref, 1)] + PageRun(pref, FIRST_API_PAGE, m)
      && (!listing.first.more ==> m == 0)
      && (listing.first.more && |listing.api| > 0 ==> m >= 1)
  {
    if listing.first.more {
      ApiLogFetched(pref, listing.api, FIRST_API_PAGE);
    } else {
      assert PageRun(pref, FIRST_API_PAGE, 0) == [];
    }
  }

  lemma PrefixGood(st: State, pref: string, listing: Listing, live: bool)
    requires Good(st, live)
    ensures Good(Prefix(st, pref, listing, live), live)
  {
    RowsGood(st.(fetched := st.fetched + [(pref, 1)]), listing.first.anchors, live);
    if listing.first.more {
      ApiPagesGood(Fetch(st, pref, listing.first, 1, live), pref, listing.api, FIRST_API_PAGE, live);
    }
  }

  /** `crawl`: the prefixes in order. */
  function Crawl(st: State, prefs: seq<string>, site: string -> Listing, live: bool): (r: State)
    ensures Grows(st, r)
    decreases |prefs|
  {
    if |prefs| == 0 then st
    else
      var st1 := Prefix(st, prefs[0], site(prefs[0]), live);
      Crawl(st1, prefs[1..], site, live)
  }

  lemma {:induction false} CrawlGood(st: State, prefs: seq<string>, site: string -> Listing, live: bool)
    requires Good(st, live)
    ensures Good(Crawl(st, prefs, site, live), live)
    decreases |prefs|
  {
    if |prefs| > 0 {
      PrefixGood(st, prefs[0], site(prefs[0]), live);
      CrawlGood(Prefix(st, prefs[0], site(prefs[0]), live), prefs[1..], site, live);
    }
  }

  /** Across the whole crawl no key is saved twice, and a dry run saves
      nothing. */
  lemma CrawlSavesEachKeyOnce(prefs: seq<string>, site: string -> Listing, live: bool)
    ensures var r := Crawl(Start(), prefs, site, live);
      && (live ==> forall i, j :: 0 <= i < j < |r.saves| ==> RequestId(r.saves[i].url) != RequestId(r.saves[j].url))
      && (!live ==> r.saves == [])
  {
    var r := Crawl(Start(), prefs, site, live);
    CrawlGood(Start(), prefs, site, live);
    if live {
      forall i, j | 0 <= i < j < |r.saves|
        ensures RequestId(r.saves[i].url) != RequestId(r.saves[j].url)
      {
        assert r.added[i] != r.added[j];
      }
    }
  }

  /** A page whose keys were all seen before changes nothing. */
  lemma {:induction false} RowsSkipSeen(st: State, anchors: seq<Anchor>, live: bool)
    requires forall i :: 0 <= i < |anchors| ==> Key(anchors[i]) in st.seen
    ensures Rows(st, anchors, live) == st
    decreases |anchors|
  {
    if |anchors| > 0 {
      assert Visit(st, anchors[0], live) == st;
      RowsSkipSeen(st, anchors[1..], live);
    }
  }
}
