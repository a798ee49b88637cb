/**
  The crawl engine (`crawl_site`): a depth-bounded, depth-first traversal
  that marks a URL visited and records it with its depth before consulting
  robots.txt, so a denied URL is recorded but never expanded.

  `CrawlUrl` and `CrawlLinks` give the state after a call as a function of
  the state before it; the class `Crawler` holds the module-level visited
  set, the `url_depth_list` accumulator and the robots cache, and its
  method `CrawlSite` is proved to produce exactly that state.
 */
module Crawler {

  import opened Network
  import opened Robots
  import opened PolicyCache

  /** One `(url, depth)` entry of the accumulator. */
  datatype CrawlRecord = CrawlRecord(url: string, depth: int)

  /** Everything a crawl changes: the visited set, the accumulator, the robots cache. */
  datatype CrawlState = CrawlState(visited: set<string>, records: seq<CrawlRecord>, cache: map<string, string>)

  const Initial := CrawlState({}, [], map[])

  /** How many more levels a call at `current` may descend. */
  function Budget(depth: int, current: int): nat {
    if current > depth then 0 else depth - current + 1
  }

  /** `crawl_site(url, depth, current)` on state `s`. */
  function CrawlUrl(web: Web, depth: int, s: CrawlState, url: string, current: int): CrawlState
    decreases Budget(depth, current), 1, 0
  {
    if url in s.visited then s
    else if current > depth then s
    else
      var fetched := Lookup(s.cache, web.parse, web.get, url);
      var marked := CrawlState(s.visited + {url}, s.records + [CrawlRecord(url, current)], fetched.cache);
      if fetched.text != "" && !Allowed(web.parse(url).path, fetched.text) then marked
      else CrawlLinks(web, depth, marked, web.links(url), current)
  }

  /** The `for link in links` loop of a call at depth `current`. */
  function CrawlLinks(web: Web, depth: int, s: CrawlState, links: seq<string>, current: int): CrawlState
    requires current <= depth
    decreases Budget(depth, current), 0, |links|
  {
    if links == [] then s
    else
      var next := if links[0] in s.visited then s else CrawlUrl(web, depth, s, links[0], current + 1);
      CrawlLinks(web, depth, next, links[1..], current)
  }

  // ---------------------------------------------------------------------------
  // Invariants of the accumulator

  /** Recorded URLs are pairwise distinct and all visited. */
  ghost predicate Valid(s: CrawlState) {
    && (forall i, j :: 0 <= i < j < |s.records| ==> s.records[i].url != s.records[j].url)
    && (forall i :: 0 <= i < |s.records| ==> s.records[i].url in s.visited)
  }

  /** The URLs recorded from index `from` on. */
  ghost function UrlsFrom(records: seq<CrawlRecord>, from: nat): set<string> {
    set k | from <= k < |records| :: records[k].url
  }

  /** `t` is `s` after a crawl call at depth `lo` or deeper: the accumulator has only
      grown at its end, by URLs that were not yet visited and at depths in `lo..depth`;
      the visited set has grown by exactly those URLs; cached robots texts are kept. */
  ghost predicate Extends(s: CrawlState, t: CrawlState, lo: int, depth: int) {
    && s.records <= t.records
    && (forall k :: |s.records| <= k < |t.records| ==>
          t.records[k].url !in s.visited && lo <= t.records[k].depth <= depth)
    && t.visited == s.visited + UrlsFrom(t.records, |s.records|)
    && (forall o :: o in s.cache ==> o in t.cache && t.cache[o] == s.cache[o])
  }

  lemma ExtendsTransitive(a: CrawlState, b: CrawlState, c: CrawlState, lo: int, depth: int)
    requires Extends(a, b, lo, depth) && Extends(b, c, lo, depth)
    ensures Extends(a, c, lo, depth)
  {
    assert c.visited == a.visited + UrlsFrom(c.records, |a.records|) by {
      assert UrlsFrom(c.records, |a.records|) == UrlsFrom(b.records, |a.records|) + UrlsFrom(c.records, |b.records|) by {
        forall u | u in UrlsFrom(c.records, |a.records|)
          ensures u in UrlsFrom(b.records, |a.records|) + UrlsFrom(c.records, |b.records|)
        {
          var k :| |a.records| <= k < |c.records| && c.records[k].url == u;
          if k < |b.records| {
            assert b.records[k] == c.records[k];
          }
        }
        forall u | u in UrlsFrom(b.records, |a.records|) ensures u in UrlsFrom(c.records, |a.records|) {
          var k :| |a.records| <= k < |b.records| && b.records[k].url == u;
          assert c.records[k] == b.records[k];
        }
      }
    }
    forall k | |a.records| <= k < |c.records|
      ensures c.records[k].url !in a.visited && lo <= c.records[k].depth <= depth
    {
      if k < |b.records| {
        assert c.records[k] == b.records[k];
      }
    }
  }

  /** A crawl call keeps the accumulator free of duplicates and inside the visited set,
      and changes the state only as `Extends` allows: every URL it records is new, it
      records it at `current` or deeper but never below `depth`, and it visits exactly
      the URLs it records. */
  lemma {:induction false} CrawlUrlExtends(web: Web, depth: int, s: CrawlState, url: string, current: int)
    ensures Extends(s, CrawlUrl(web, depth, s, url, current), current, depth)
    ensures Valid(s) ==> Valid(CrawlUrl(web, depth, s, url, current))
    decreases Budget(depth, current), 1, 0
  {
    var t := CrawlUrl(web, depth, s, url, current);
    if url in s.visited || current > depth {
      assert UrlsFrom(t.records, |s.records|) == {};
    } else {
      var fetched := Lookup(s.cache, web.parse, web.get, url);
      var marked := CrawlState(s.visited + {url}, s.records + [CrawlRecord(url, current)], fetched.cache);
      assert UrlsFrom(marked.records, |s.records|) == {url} by {
        assert marked.records[|s.records|].url == url;
      }
      assert Extends(s, marked, current, depth);
      if fetched.text != "" && !Allowed(web.parse(url).path, fetched.text) {
      } else {
        CrawlLinksExtends(web, depth, marked, web.links(url), current);
        ExtendsTransitive(s, marked, t, current, depth);
      }
    }
  }

  lemma {:induction false} CrawlLinksExtends(web: Web, depth: int, s: CrawlState, links: seq<string>, current: int)
    requires current <= depth
    ensures Extends(s, CrawlLinks(web, depth, s, links, current), current + 1, depth)
    ensures Valid(s) ==> Valid(CrawlLinks(web, depth, s, links, current))
    decreases Budget(depth, current), 0, |links|
  {
    var t := CrawlLinks(web, depth, s, links, current);
    if links == [] {
      assert UrlsFrom(t.records, |s.records|) == {};
    } else {
      var next := if links[0] in s.visited then s else CrawlUrl(web, depth, s, links[0], current + 1);
      if links[0] in s.visited {
        assert UrlsFrom(next.records, |s.records|) == {};
      } else {
        CrawlUrlExtends(web, depth, s, links[0], current + 1);
      }
      CrawlLinksExtends(web, depth, next, links[1..], current);
      ExtendsTransitive(s, next, t, current + 1, depth);
    }
  }

  // ---------------------------------------------------------------------------
  // Links are followed

  /** Below the depth limit, the loop over a page's links leaves every one of them
      visited: each was visited before, or is crawled by the loop. */
  lemma {:induction false} CrawlLinksVisitsAll(web: Web, depth: int, s: CrawlState, links: seq<string>, current: int)
    requires current < depth
    ensures forall l :: l in links ==> l in CrawlLinks(web, depth, s, links, current).visited
    decreases |links|
  {
    if links != [] {
      var next := if links[0] in s.visited then s else CrawlUrl(web, depth, s, links[0], current + 1);
      if links[0] !in s.visited {
        CrawlUrlExtends(web, depth, s, links[0], current + 1);
        CrawlUrlDiscovers(web, depth, s, links[0], current + 1);
        assert links[0] in UrlsFrom(next.records, |s.records|);
      }
      assert links[0] in next.visited;
      CrawlLinksExtends(web, depth, next, links[1..], current);
      CrawlLinksVisitsAll(web, depth, next, links[1..], current);
      forall l | l in links ensures l in CrawlLinks(web, depth, s, links, current).visited {
        if l != links[0] {
          assert l in links[1..];
        }
      }
    }
  }

  /** A new URL below the depth limit whose robots text is empty or allows it has every
      one of its links visited by the call: each was visited before, or is recorded by
      the call. */
  lemma CrawlUrlFollowsLinks(web: Web, depth: int, s: CrawlState, url: string, current: int)
    requires url !in s.visited && current < depth
    requires var text := Lookup(s.cache, web.parse, web.get, url).text;
             text == "" || Allowed(web.parse(url).path, text)
    ensures forall l :: l in web.links(url) ==>
              l in s.visited + UrlsFrom(CrawlUrl(web, depth, s, url, current).records, |s.records|)
  {
    var fetched := Lookup(s.cache, web.parse, web.get, url);
    var marked := CrawlState(s.visited + {url}, s.records + [CrawlRecord(url, current)], fetched.cache);
    assert CrawlUrl(web, depth, s, url, current) == CrawlLinks(web, depth, marked, web.links(url), current);
    CrawlLinksVisitsAll(web, depth, marked, web.links(url), current);
    CrawlUrlExtends(web, depth, s, url, current);
  }

  /** Depth-first order with one visited set: a page is recorded at the depth of the
      first path that reaches it, not of the shortest. With links a -> [b, c], b -> [c],
      c -> [d], depth 2 and no robots.txt anywhere, `c` is reached through `b` at depth 2
      before `a`'s own link to it is considered, so `d`, two links from `a`, is never
      recorded. */
  lemma FirstPathNotShortest(web: Web, a: string, b: string, c: string, d: string)
    requires a != b && a != c && a != d && b != c && b != d && c != d
    requires web.links(a) == [b, c] && web.links(b) == [c] && web.links(c) == [d]
    requires forall u :: web.get(u) == Err
    ensures CrawlUrl(web, 2, Initial, a, 0).records ==
            [CrawlRecord(a, 0), CrawlRecord(b, 1), CrawlRecord(c, 2)]
    ensures d !in CrawlUrl(web, 2, Initial, a, 0).visited
  {
    var m1 := CrawlState({a}, [CrawlRecord(a, 0)], map[]);
    var m2 := CrawlState({a, b}, [CrawlRecord(a, 0), CrawlRecord(b, 1)], map[]);
    var m3 := CrawlState({a, b, c}, [CrawlRecord(a, 0), CrawlRecord(b, 1), CrawlRecord(c, 2)], map[]);
    LinksAtDepthLimit(web, 2, m3, [d]);
    assert CrawlUrl(web, 2, m2, c, 2) == m3;
    assert [c][0] == c && [c][1..] == [];
    assert c !in m2.visited;
    assert CrawlLinks(web, 2, m2, [c], 1) == CrawlLinks(web, 2, CrawlUrl(web, 2, m2, c, 2), [], 1);
    assert m1.records + [CrawlRecord(b, 1)] == m2.records && m1.visited + {b} == m2.visited;
    assert CrawlUrl(web, 2, m1, b, 1) == CrawlLinks(web, 2, m2, [c], 1);
    assert [b, c][0] == b && [b, c][1..] == [c];
    assert b !in m1.visited;
    assert CrawlLinks(web, 2, m1, [b, c], 0) == CrawlLinks(web, 2, CrawlUrl(web, 2, m1, b, 1), [c], 0);
    assert c in m3.visited;
    assert CrawlLinks(web, 2, m3, [c], 0) == CrawlLinks(web, 2, m3, [], 0);
    assert Initial.records + [CrawlRecord(a, 0)] == m1.records && Initial.visited + {a} == m1.visited;
    assert CrawlUrl(web, 2, Initial, a, 0) == CrawlLinks(web, 2, m1, [b, c], 0);
  }

  // ---------------------------------------------------------------------------
  // How each record was reached

  /** Record `k` of `rs` is a link of an earlier record at index `lo` or later, and lies
      one level deeper than it. */
  ghost predicate Discovered(web: Web, rs: seq<CrawlRecord>, lo: int, k: int) {
    0 <= lo <= k < |rs| &&
    exists j :: lo <= j < k && rs[k].url in web.links(rs[j].url) && rs[k].depth == rs[j].depth + 1
  }

  /** Discovery survives appending records and widening the range of parents. */
  lemma DiscoveredStable(web: Web, rs: seq<CrawlRecord>, rs2: seq<CrawlRecord>, lo: int, lo2: int, k: int)
    requires rs <= rs2 && 0 <= lo2 <= lo && Discovered(web, rs, lo, k)
    ensures Discovered(web, rs2, lo2, k)
  {
    var j :| lo <= j < k && rs[k].url in web.links(rs[j].url) && rs[k].depth == rs[j].depth + 1;
    assert rs2[j] == rs[j] && rs2[k] == rs[k];
  }

  /** A crawl call on a new URL within the depth limit records `url` first, at
      `current`; every later record it makes is a link of an earlier record of the same
      call, one level deeper. */
  lemma {:induction false} CrawlUrlDiscovers(web: Web, depth: int, s: CrawlState, url: string, current: int)
    ensures url !in s.visited && current <= depth ==>
              && |CrawlUrl(web, depth, s, url, current).records| > |s.records|
              && CrawlUrl(web, depth, s, url, current).records[|s.records|] == CrawlRecord(url, current)
    ensures forall k :: |s.records| < k < |CrawlUrl(web, depth, s, url, current).records| ==>
              Discovered(web, CrawlUrl(web, depth, s, url, current).records, |s.records|, k)
    decreases Budget(depth, current), 1, 0
  {
    var t := CrawlUrl(web, depth, s, url, current);
    if url !in s.visited && current <= depth {
      var fetched := Lookup(s.cache, web.parse, web.get, url);
      var marked := CrawlState(s.visited + {url}, s.records + [CrawlRecord(url, current)], fetched.cache);
      assert marked.records[|s.records|] == CrawlRecord(url, current);
      if fetched.text != "" && !Allowed(web.parse(url).path, fetched.text) {
        assert t == marked;
      } else {
        assert t == CrawlLinks(web, depth, marked, web.links(url), current);
        CrawlLinksExtends(web, depth, marked, web.links(url), current);
        CrawlLinksDiscover(web, depth, marked, web.links(url), current, |s.records|);
        assert t.records[|s.records|] == marked.records[|s.records|];
      }
    } else {
      assert t == s;
    }
  }

  /** Every record the loop over the links of the record at `parent` makes is a link of
      that record or of a later one, one level deeper. */
  lemma {:induction false} CrawlLinksDiscover(web: Web, depth: int, s: CrawlState, links: seq<string>,
                                              current: int, parent: nat)
    requires current <= depth
    requires parent < |s.records| && s.records[parent].depth == current
    requires forall l :: l in links ==> l in web.links(s.records[parent].url)
    ensures forall k :: |s.records| <= k < |CrawlLinks(web, depth, s, links, current).records| ==>
              Discovered(web, CrawlLinks(web, depth, s, links, current).records, parent, k)
    decreases Budget(depth, current), 0, |links|
  {
    if links != [] {
      var t := CrawlLinks(web, depth, s, links, current);
      var next := if links[0] in s.visited then s else CrawlUrl(web, depth, s, links[0], current + 1);
      if links[0] !in s.visited {
        CrawlUrlExtends(web, depth, s, links[0], current + 1);
        CrawlUrlDiscovers(web, depth, s, links[0], current + 1);
        assert next.records[parent] == s.records[parent];
        forall k | |s.records| <= k < |next.records| ensures Discovered(web, next.records, parent, k) {
          if k == |s.records| {
            assert links[0] in links;
          } else {
            DiscoveredStable(web, next.records, next.records, |s.records|, parent, k);
          }
        }
      }
      assert forall l :: l in links[1..] ==> l in links;
      CrawlLinksExtends(web, depth, next, links[1..], current);
      CrawlLinksDiscover(web, depth, next, links[1..], current, parent);
      forall k | |s.records| <= k < |next.records| ensures Discovered(web, t.records, parent, k) {
        DiscoveredStable(web, next.records, t.records, parent, parent, k);
      }
      assert t == CrawlLinks(web, depth, next, links[1..], current);
    }
  }

  /** A crawl from a fresh state records the seed first, at depth 0; every other record is
      a link of an earlier record, one level deeper; so each recorded depth is the length
      of a chain of links from the seed. */
  lemma CrawlFromSeed(web: Web, depth: int, seed: string)
    requires depth >= 0
    ensures |CrawlUrl(web, depth, Initial, seed, 0).records| >= 1
    ensures CrawlUrl(web, depth, Initial, seed, 0).records[0] == CrawlRecord(seed, 0)
    ensures forall k :: 0 < k < |CrawlUrl(web, depth, Initial, seed, 0).records| ==>
              Discovered(web, CrawlUrl(web, depth, Initial, seed, 0).records, 0, k)
    ensures forall k :: 0 <= k < |CrawlUrl(web, depth, Initial, seed, 0).records| ==>
              0 <= CrawlUrl(web, depth, Initial, seed, 0).records[k].depth <= depth
    ensures Valid(CrawlUrl(web, depth, Initial, seed, 0))
    ensures CrawlUrl(web, depth, Initial, seed, 0).visited == UrlsFrom(CrawlUrl(web, depth, Initial, seed, 0).records, 0)
  {
    CrawlUrlExtends(web, depth, Initial, seed, 0);
    CrawlUrlDiscovers(web, depth, Initial, seed, 0);
  }

  /** If every link the oracle returns is on its page's netloc (the same-netloc filter of
      `scrape_links`), every URL a crawl from `seed` records is on the seed's netloc. */
  lemma {:induction false} CrawlStaysOnSite(web: Web, depth: int, seed: string, k: nat)
    requires depth >= 0
    requires forall u, l :: l in web.links(u) ==> web.parse(l).netloc == web.parse(u).netloc
    requires k < |CrawlUrl(web, depth, Initial, seed, 0).records|
    ensures web.parse(CrawlUrl(web, depth, Initial, seed, 0).records[k].url).netloc == web.parse(seed).netloc
  {
    CrawlFromSeed(web, depth, seed);
    var rs := CrawlUrl(web, depth, Initial, seed, 0).records;
    if k > 0 {
      assert Discovered(web, rs, 0, k);
      var j :| 0 <= j < k && rs[k].url in web.links(rs[j].url) && rs[k].depth == rs[j].depth + 1;
      CrawlStaysOnSite(web, depth, seed, j);
    }
  }

  // ---------------------------------------------------------------------------
  // Depth bound and robots gate

  /** At the depth limit the loop over links changes nothing: every child call is at
      `depth + 1` and returns at once. */
  lemma {:induction false} LinksAtDepthLimit(web: Web, depth: int, s: CrawlState, links: seq<string>)
    ensures CrawlLinks(web, depth, s, links, depth) == s
    decreases |links|
  {
    if links != [] {
      LinksAtDepthLimit(web, depth, s, links[1..]);
    }
  }

  /** A URL reached at the depth limit is visited and recorded, and none of its links is. */
  lemma RecordedAtDepthLimit(web: Web, depth: int, s: CrawlState, url: string)
    requires url !in s.visited
    ensures CrawlUrl(web, depth, s, url, depth).records == s.records + [CrawlRecord(url, depth)]
    ensures CrawlUrl(web, depth, s, url, depth).visited == s.visited + {url}
  {
    var fetched := Lookup(s.cache, web.parse, web.get, url);
    var marked := CrawlState(s.visited + {url}, s.records + [CrawlRecord(url, depth)], fetched.cache);
    LinksAtDepthLimit(web, depth, marked, web.links(url));
  }

  /** With depth 0 and a fresh state, the crawl records exactly the seed at depth 0. */
  lemma SeedOnlyAtDepthZero(web: Web, seed: string)
    ensures CrawlUrl(web, 0, Initial, seed, 0).records == [CrawlRecord(seed, 0)]
    ensures CrawlUrl(web, 0, Initial, seed, 0).visited == {seed}
  {
    RecordedAtDepthLimit(web, 0, Initial, seed);
  }

  /** A call beyond the depth limit, or on a visited URL, changes nothing. */
  lemma NoOpCall(web: Web, depth: int, s: CrawlState, url: string, current: int)
    requires url in s.visited || current > depth
    ensures CrawlUrl(web, depth, s, url, current) == s
  {
  }

  /** A URL whose non-empty robots text denies it is still visited and recorded, but
      none of its links is crawled. */
  lemma DeniedNotExpanded(web: Web, depth: int, s: CrawlState, url: string, current: int)
    requires url !in s.visited && current <= depth
    requires var text := Lookup(s.cache, web.parse, web.get, url).text;
             text != "" && !Allowed(web.parse(url).path, text)
    ensures CrawlUrl(web, depth, s, url, current).records == s.records + [CrawlRecord(url, current)]
    ensures CrawlUrl(web, depth, s, url, current).visited == s.visited + {url}
  {
  }

  /** When the robots text is empty (no robots.txt, or a failed fetch) or allows the URL,
      its links are followed: the first link, if new, is recorded right after the URL,
      one level deeper. */
  lemma FirstLinkFollowed(web: Web, depth: int, s: CrawlState, url: string, current: int)
    requires url !in s.visited && current < depth
    requires var text := Lookup(s.cache, web.parse, web.get, url).text;
             text == "" || Allowed(web.parse(url).path, text)
    requires web.links(url) != [] && web.links(url)[0] !in s.visited + {url}
    ensures |CrawlUrl(web, depth, s, url, current).records| >= |s.records| + 2
    ensures CrawlUrl(web, depth, s, url, current).records[|s.records|] == CrawlRecord(url, current)
    ensures CrawlUrl(web, depth, s, url, current).records[|s.records| + 1] ==
            CrawlRecord(web.links(url)[0], current + 1)
  {
    var links := web.links(url);
    var fetched := Lookup(s.cache, web.parse, web.get, url);
    var marked := CrawlState(s.visited + {url}, s.records + [CrawlRecord(url, current)], fetched.cache);
    var child := CrawlUrl(web, depth, marked, links[0], current + 1);
    var fetched2 := Lookup(marked.cache, web.parse, web.get, links[0]);
    var marked2 := CrawlState(marked.visited + {links[0]}, marked.records + [CrawlRecord(links[0], current + 1)], fetched2.cache);
    if fetched2.text != "" && !Allowed(web.parse(links[0]).path, fetched2.text) {
      assert child == marked2;
    } else {
      CrawlLinksExtends(web, depth, marked2, web.links(links[0]), current + 1);
    }
    assert marked2.records <= child.records;
    CrawlLinksExtends(web, depth, child, links[1..], current);
    assert CrawlUrl(web, depth, s, url, current) == CrawlLinks(web, depth, child, links[1..], current);
  }

  // ---------------------------------------------------------------------------
  // The crawler object

  /** The crawler's mutable state: the module-level `visited_urls` set, the
      `url_depth_list` accumulator threaded through the recursion, and the robots cache.
      The network is the fixed `web`. */
  class Crawler {
    const web: Web
    const robots: RobotsCache
    var visited: set<string>
    var records: seq<CrawlRecord>

    constructor (web: Web)
      ensures this.web == web && fresh(robots)
      ensures State() == Initial
    {
      this.web := web;
      robots := new RobotsCache();
      visited := {};
      records := [];
    }

    function State(): CrawlState
      reads this, robots
    {
      CrawlState(visited, records, robots.cache)
    }

    /** `crawl_site(url, depth, current_depth, url_depth_list)`. */
    method CrawlSite(url: string, depth: int, currentDepth: int)
      modifies this, robots
      ensures State() == CrawlUrl(web, depth, old(State()), url, currentDepth)
      ensures Extends(old(State()), State(), currentDepth, depth)
      ensures Valid(old(State())) ==> Valid(State())
      decreases Budget(depth, currentDepth)
    {
      CrawlUrlExtends(web, depth, State(), url, currentDepth);
      if url in visited {
        return;
      }
      if currentDepth > depth {
        return;
      }
      visited := visited + {url};
      records := records + [CrawlRecord(url, currentDepth)];

      var robotsTxt := robots.FetchRobotsTxt(url, web.parse, web.get);
      if robotsTxt != "" {
        var allowed := IsAllowedByRobots(url, robotsTxt, web.parse);
        if !allowed {
          return;
        }
      }

      var links := web.links(url);
      ghost var start := State();
      for i := 0 to |links|
        invariant CrawlLinks(web, depth, State(), links[i..], currentDepth) ==
                  CrawlLinks(web, depth, start, links, currentDepth)
      {
        assert links[i..][0] == links[i] && links[i..][1..] == links[i + 1..];
        if links[i] !in visited {
          CrawlSite(links[i], depth, currentDepth + 1);
        }
      }
      assert links[|links|..] == [];
    }
  }
}
