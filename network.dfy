/**
  What the crawler sees of the outside world. URL parsing (`urlparse`), the
  robots.txt GET (`requests.get` with `raise_for_status`) and link scraping
  (`scrape_links`: GET, HTML parsing, `urljoin`, same-netloc filter) are
  foreign code; the model receives them as pure functions of the URL.
 */
module Network {

  import opened Text

  /** The parts of `urlparse(url)` that the crawler uses. */
  datatype UrlParts = UrlParts(scheme: string, netloc: string, path: string)

  /** The outcome of a GET: the response text, or a `RequestException`
      (transport failure or a non-2xx status). */
  datatype FetchResult = Ok(text: string) | Err

  datatype Web = Web(
    parse: string -> UrlParts,   // urlparse
    get: string -> FetchResult,  // requests.get + raise_for_status + .text
    links: string -> seq<string> // scrape_links; [] when the page fetch fails
  )

  /** `f"{scheme}://{netloc}"`: the key of the robots cache. */
  function Origin(parts: UrlParts): (origin: string)
    ensures |origin| == |parts.scheme| + 3 + |parts.netloc|
    ensures parts.scheme <= origin
    ensures origin[|parts.scheme|..|parts.scheme| + 3] == "://"
    ensures origin[|parts.scheme| + 3..] == parts.netloc
  {
    parts.scheme + "://" + parts.netloc
  }

  /** Where the robots.txt of an origin is fetched from. */
  function RobotsUrl(origin: string): (url: string)
    ensures origin <= url && url[|origin|..] == "/robots.txt"
  {
    origin + "/robots.txt"
  }

  /** The first ':' of an origin ends its scheme. */
  lemma SchemeEndsOrigin(p: UrlParts)
    requires ':' !in p.scheme
    ensures FindFirst(Origin(p), {':'}) == |p.scheme|
  {
    var o := Origin(p);
    forall k | 0 <= k < |p.scheme| ensures o[k] !in {':'} {
      assert o[k] == p.scheme[k] && p.scheme[k] in p.scheme;
    }
    assert o[|p.scheme|] == ':';
  }

  /** Two URLs share an origin exactly when their schemes and netlocs agree
      (scheme names never contain ':'). */
  lemma OriginInjective(a: UrlParts, b: UrlParts)
    requires ':' !in a.scheme && ':' !in b.scheme
    ensures Origin(a) == Origin(b) <==> a.scheme == b.scheme && a.netloc == b.netloc
  {
    if Origin(a) == Origin(b) {
      var oa, ob := Origin(a), Origin(b);
      SchemeEndsOrigin(a);
      SchemeEndsOrigin(b);
      assert a.scheme == oa[..|a.scheme|] == ob[..|b.scheme|] == b.scheme;
      assert a.netloc == oa[|a.scheme| + 3..] == ob[|b.scheme| + 3..] == b.netloc;
    }
  }

  /** Distinct origins never share a robots.txt URL. */
  lemma RobotsUrlInjective(a: string, b: string)
    ensures RobotsUrl(a) == RobotsUrl(b) <==> a == b
  {
    if RobotsUrl(a) == RobotsUrl(b) {
      assert |a| == |b|;
      assert a == RobotsUrl(a)[..|a|] == RobotsUrl(b)[..|b|] == b;
    }
  }

  /** Two URLs lead to the same robots.txt request exactly when their schemes and
      netlocs agree. */
  lemma RobotsRequestPerOrigin(p: UrlParts, q: UrlParts)
    requires ':' !in p.scheme && ':' !in q.scheme
    ensures RobotsUrl(Origin(p)) == RobotsUrl(Origin(q)) <==> p.scheme == q.scheme && p.netloc == q.netloc
  {
    RobotsUrlInjective(Origin(p), Origin(q));
    OriginInjective(p, q);
  }
}
