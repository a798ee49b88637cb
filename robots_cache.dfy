/**
  The per-origin robots.txt cache (`fetch_robots_txt` and the module-level
  `robots_cache` dictionary). Only successful fetches are stored; a failed
  fetch yields "" and leaves the cache as it was, so that origin is asked
  for again next time.
 */
module PolicyCache {

  import opened Network

  /** What a lookup returns: the robots text and the cache afterwards. */
  datatype Fetched = Fetched(text: string, cache: map<string, string>)

  /** The cache key of a URL. */
  function OriginOf(parse: string -> UrlParts, url: string): string {
    Origin(parse(url))
  }

  /** `fetch_robots_txt(url)` as a function of the cache before the call. */
  function Lookup(cache: map<string, string>, parse: string -> UrlParts, get: string -> FetchResult, url: string)
    : (f: Fetched)
    // entries are never changed or removed; only this URL's origin may be added
    ensures forall o :: o in cache ==> o in f.cache && f.cache[o] == cache[o]
    ensures f.cache.Keys <= cache.Keys + {OriginOf(parse, url)}
    // the text is the cached entry whenever there is one afterwards, and "" otherwise
    ensures OriginOf(parse, url) in f.cache ==> f.text == f.cache[OriginOf(parse, url)]
    ensures OriginOf(parse, url) !in f.cache ==> f.text == ""
  {
    var origin := OriginOf(parse, url);
    if origin in cache then Fetched(cache[origin], cache)
    else match get(RobotsUrl(origin))
      case Ok(text) => Fetched(text, cache[origin := text])
      case Err => Fetched("", cache)
  }

  /** A cache hit returns the stored text and does not depend on the network at all. */
  lemma CacheHitIgnoresNetwork(cache: map<string, string>, parse: string -> UrlParts,
                               get1: string -> FetchResult, get2: string -> FetchResult, url: string)
    requires OriginOf(parse, url) in cache
    ensures Lookup(cache, parse, get1, url) == Lookup(cache, parse, get2, url)
    ensures Lookup(cache, parse, get1, url) == Fetched(cache[OriginOf(parse, url)], cache)
  {
  }

  /** On a miss, a successful fetch is returned and stored under the origin. */
  lemma MissStoresSuccess(cache: map<string, string>, parse: string -> UrlParts,
                          get: string -> FetchResult, url: string)
    requires OriginOf(parse, url) !in cache
    requires get(RobotsUrl(OriginOf(parse, url))).Ok?
    ensures Lookup(cache, parse, get, url).text == get(RobotsUrl(OriginOf(parse, url))).text
    ensures Lookup(cache, parse, get, url).cache ==
            cache[OriginOf(parse, url) := get(RobotsUrl(OriginOf(parse, url))).text]
  {
  }

  /** On a miss, a failed fetch gives "" and leaves the cache unchanged. */
  lemma MissFailureNotCached(cache: map<string, string>, parse: string -> UrlParts,
                             get: string -> FetchResult, url: string)
    requires OriginOf(parse, url) !in cache
    requires get(RobotsUrl(OriginOf(parse, url))).Err?
    ensures Lookup(cache, parse, get, url) == Fetched("", cache)
  {
  }

  /** Looking the same URL up again right after a hit or a successful fetch is a hit:
      it returns the same text, whatever the network would now say. After a failed
      fetch it is a miss again. */
  lemma SecondLookup(cache: map<string, string>, parse: string -> UrlParts,
                     get: string -> FetchResult, get2: string -> FetchResult, url: string)
    ensures var first := Lookup(cache, parse, get, url);
            var second := Lookup(first.cache, parse, get2, url);
            if OriginOf(parse, url) in cache || get(RobotsUrl(OriginOf(parse, url))).Ok?
            then second == first
            else second == Lookup(cache, parse, get2, url)
  {
  }

  /** The module-level `robots_cache` with `fetch_robots_txt` over it. The ghost
      `requested` log lists the robots.txt URLs that were actually fetched. */
  class RobotsCache {
    var cache: map<string, string>
    ghost var requested: seq<string>

    constructor ()
      ensures cache == map[] && requested == []
    {
      cache := map[];
      requested := [];
    }

    /** `fetch_robots_txt(url)`: the cached text for the URL's origin; on a miss, GET
        `{origin}/robots.txt` and store the text if that succeeds, else return "". */
    method FetchRobotsTxt(url: string, parse: string -> UrlParts, get: string -> FetchResult)
      returns (robotsTxt: string)
      modifies this
      ensures Fetched(robotsTxt, cache) == Lookup(old(cache), parse, get, url)
      ensures requested == old(requested) +
        if OriginOf(parse, url) in old(cache) then [] else [RobotsUrl(OriginOf(parse, url))]
    {
      var parsedUrl := parse(url);
      var baseUrl := parsedUrl.scheme + "://" + parsedUrl.netloc;
      if baseUrl in cache {
        return cache[baseUrl];
      }
      var robotsUrl := baseUrl + "/robots.txt";
      var response := get(robotsUrl);
      requested := requested + [robotsUrl];
      match response {
        case Ok(text) =>
          cache := cache[baseUrl := text];
          return text;
        case Err =>
          return "";
      }
    }
  }
}
