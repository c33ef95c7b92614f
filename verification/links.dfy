/** The report links of a result page (eval_crawler.py `extract_pdfs`) and
    the key the crawler deduplicates them by. The HTML is already parsed:
    each `a.sr-pdf` anchor is a record of its four `data-id` attributes and
    the text of the card around it. */
module Links {
  import opened Wrappers
  import opened Text

  const BASE := "https://asen-jhu.evaluationkit.com"
  const PDF_ENDPOINT := BASE + "/Reports/SRPdf.aspx"

  datatype Anchor = Anchor(id0: string, id1: string, id2: string, id3: string, title: string)

  /** One `(url, fname)` pair. */
  datatype Link = Link(url: string, fname: string)

  /** The characters `[\w\- ]` keeps. */
  predicate Kept(c: char) {
    IsWordChar(c) || c == '-' || c == ' '
  }

  /** `re.sub(r"[^\w\- ]", "_", title)`. */
  function Sanitize(t: string): (r: string)
    ensures |r| == |t|
    ensures forall i :: 0 <= i < |t| ==> Kept(r[i])
    ensures forall i :: 0 <= i < |t| ==> (r[i] == t[i] <==> Kept(t[i]))
    ensures forall i :: 0 <= i < |t| && !Kept(t[i]) ==> r[i] == '_'
  {
    seq(|t|, i requires 0 <= i < |t| => if Kept(t[i]) then t[i] else '_')
  }

  lemma SanitizeIdempotent(t: string)
    ensures Sanitize(Sanitize(t)) == Sanitize(t)
  {
  }

  /** A title made only of kept characters is used as it is. */
  lemma SanitizeKeepsClean(t: string)
    requires forall i :: 0 <= i < |t| ==> Kept(t[i])
    ensures Sanitize(t) == t
  {
  }

  /** The query: the four ids joined by commas. */
  function Ids(a: Anchor): string {
    Join([a.id0, a.id1, a.id2, a.id3], ',')
  }

  /** The report URL of an anchor: the report endpoint, one `?`, then the
      anchor's joined ids, which is the key the crawler reads back from it. */
  function PdfUrl(a: Anchor): (u: string)
    ensures |u| == |PDF_ENDPOINT| + 1 + |Ids(a)|
    ensures u[..|PDF_ENDPOINT|] == PDF_ENDPOINT && u[|PDF_ENDPOINT|] == '?' && u[|PDF_ENDPOINT| + 1..] == Ids(a)
    ensures RequestId(u) == Some(Ids(a))
  {
    assert '?' !in PDF_ENDPOINT by {
      forall i | 0 <= i < |PDF_ENDPOINT|
        ensures PDF_ENDPOINT[i] != '?'
      {
      }
    }
    RequestIdAfter(PDF_ENDPOINT, Ids(a));
    var u := PDF_ENDPOINT + "?" + Ids(a);
    assert u[..|PDF_ENDPOINT|] == PDF_ENDPOINT && u[|PDF_ENDPOINT| + 1..] == Ids(a);
    u
  }

  function FileName(a: Anchor): (f: string)
    ensures |f| == |a.title| + 4 && f[|a.title|..] == ".pdf"
    ensures f[..|a.title|] == Sanitize(a.title)
  {
    Sanitize(a.title) + ".pdf"
  }

  /** `extract_pdfs`: one link per anchor, in document order. */
  function ExtractPdfs(anchors: seq<Anchor>): (r: seq<Link>)
    ensures |r| == |anchors|
    ensures forall k :: 0 <= k < |r| ==> r[k] == Link(PdfUrl(anchors[k]), FileName(anchors[k]))
  {
    seq(|anchors|, k requires 0 <= k < |anchors| => Link(PdfUrl(anchors[k]), FileName(anchors[k])))
  }

  /** `url.split("?", 1)[1]`: the text after the first `?`; a URL without
      one makes the indexing raise. */
  function RequestId(url: string): (r: Option<string>)
    ensures r.Some? <==> '?' in url
    ensures r.Some? ==> exists i :: 0 <= i < |url| && url[i] == '?' && '?' !in url[..i] && r.value == url[i + 1..]
  {
    if |url| == 0 then None
    else if url[0] == '?' then
      assert url[..0] == [];
      Some(url[1..])
    else
      var r := RequestId(url[1..]);
      assert '?' in url <==> '?' in url[1..];
      if r.None? then None
      else
        var i :| 0 <= i < |url[1..]| && url[1..][i] == '?' && '?' !in url[1..][..i] && r.value == url[1..][i + 1..];
        assert url[..i + 1] == [url[0]] + url[1..][..i];
        r
  }

  lemma {:induction false} RequestIdAfter(p: string, rest: string)
    requires '?' !in p
    ensures RequestId(p + "?" + rest) == Some(rest)
  {
    if |p| > 0 {
      RequestIdAfter(p[1..], rest);
      assert (p + "?" + rest)[1..] == p[1..] + "?" + rest;
    } else {
      assert p + "?" + rest == ['?'] + rest;
    }
  }

  /** Anchors whose ids contain no comma share a key only when all four ids
      agree; the title plays no part in it. */
  lemma IdsInjective(a: Anchor, b: Anchor)
    requires ',' !in a.id0 && ',' !in a.id1 && ',' !in a.id2 && ',' !in a.id3
    requires ',' !in b.id0 && ',' !in b.id1 && ',' !in b.id2 && ',' !in b.id3
    requires Ids(a) == Ids(b)
    ensures a.id0 == b.id0 && a.id1 == b.id1 && a.id2 == b.id2 && a.id3 == b.id3
  {
    SplitJoin([a.id0, a.id1, a.id2, a.id3], ',');
    SplitJoin([b.id0, b.id1, b.id2, b.id3], ',');
  }
}
