# Robots-aware site crawler, modelled in Dafny

This project models the crawl-control core of `scraping.py`, a small recursive web crawler. The core has three parts:

- **`is_allowed_by_robots`** decides from a robots.txt text whether a URL's path may be crawled. It collects `Allow:` and `Disallow:` prefixes once a `User-agent: *` line has been seen; that flag is never reset. A matching Allow prefix permits the path. Failing that, a matching Disallow prefix denies it. Otherwise the path is permitted.
- **`fetch_robots_txt`** is a per-origin cache (`scheme://netloc`) of robots.txt texts. Only successful fetches are stored. A failed fetch returns `""`.
- **`crawl_site`** is a depth-bounded, depth-first traversal. It marks a URL visited and records `(url, depth)` *before* consulting robots.txt, then follows the page's links one level deeper.

Files:

- `text.dfy` (module `Text`): the Python string operations the evaluator relies on, written out with their edge cases: `str.strip()`, `str.split(":")` and its inverse `join`, and `str.splitlines()`.
- `network.dfy` (module `Network`): the foreign collaborators, which are `urlparse`, the robots.txt GET and `scrape_links`. They are passed in as pure functions of the URL (`Web`). This module also builds the origin key and the robots.txt URL.
- `robots.dfy` (module `Robots`): the rule evaluator. `Allowed` is the specification function. The method `IsAllowedByRobots` follows the source's loops and is proved equal to it.
- `robots_cache.dfy` (module `PolicyCache`): the class `RobotsCache` with its `map` field. Its method `FetchRobotsTxt` is proved equal to the function `Lookup`.
- `crawler.dfy` (module `Crawler`):
  - the class `Crawler` holds the visited set, the `(url, depth)` accumulator and the robots cache;
  - its recursive method `CrawlSite` is proved to produce exactly the state given by the mutually recursive functions `CrawlUrl` and `CrawlLinks`;
  - the traversal's properties are lemmas about those functions.

Three behaviours of the code that a reader might not expect are modelled as written:

- A failed robots.txt fetch is **not** cached. The origin is fetched again on the next call (`scraping.py:35-37`).
- A rule's value is `line.split(":")[1]`, i.e. the text between the first and second colon, not everything after the first colon (`scraping.py:64`, `67`).
- A negative `depth` is not rejected. Called from `current_depth` 0, the call just records nothing.

One more consequence of the depth-first order with a single visited set is proved as a lemma (`FirstPathNotShortest`). A page is recorded at the depth of the first path that reaches it, which need not be the shortest. So a page within `depth` links of the seed can be missed: it is missed when its only route passes through a page that was first reached at the limit.

## Model

| member | source | states |
|---|---|---|
| Text.Strip | scraping.py:60 | `strip()`: the result is no longer than the line and has no whitespace at either end |
| Text.StripIsInfix | scraping.py:60 | `strip()` removes only whitespace, and only at the two ends: the result is a contiguous piece of the line with whitespace before and after it |
| Text.Split | scraping.py:64 | `split(":")` gives at least one field, exactly one when the line has no colon, and no field contains a colon |
| Text.JoinSplit | scraping.py:64 | joining the fields of `split(":")` with ":" gives the line back |
| Text.SplitJoin | scraping.py:64 | splitting colon-free fields joined with ":" gives the fields back |
| Text.SecondField | scraping.py:64 | in `head:field` or `head:field:rest`, `split(":")[1]` is `field` |
| Text.SplitLines | scraping.py:59 | `splitlines()` gives no lines exactly for the empty text, and no line contains a line boundary |
| Text.SplitLinesOne | scraping.py:59 | `splitlines()` keeps a text without a line boundary, such as an unterminated last line, as one line |
| Text.SplitLinesCons | scraping.py:59 | every boundary except a "\r" that starts "\r\n" ends the line before it, and the rest is split on its own |
| Text.SplitLinesCrLf | scraping.py:59 | "\r\n" is one boundary: it ends the line before it and starts no empty line |
| Text.SplitLinesTerminated | scraping.py:59 | `splitlines()` recovers the lines of a text where each line is followed by "\n" |
| Network.OriginInjective | scraping.py:21-23 | two URLs share a cache entry exactly when their schemes and netlocs agree |
| Network.RobotsUrlInjective | scraping.py:26 | two origins share a robots.txt URL exactly when they are equal |
| Network.RobotsRequestPerOrigin | scraping.py:20-29 | two URLs lead to the same robots.txt request exactly when their schemes and netlocs agree |
| Robots.RuleValue | scraping.py:64-67 | a rule's value contains no colon and has no surrounding whitespace |
| Robots.RuleValueUpToSecondColon | scraping.py:64-67 | the value of `Disallow:<field>[:<rest>]` or `Allow:<field>[:<rest>]` is the stripped `field`: text after a second colon is dropped |
| Robots.AnyPrefix | scraping.py:71-78 | a scan of a prefix list succeeds exactly when some prefix in the list starts the path |
| Robots.Decide | scraping.py:70-80 | a path is allowed exactly when some Allow prefix starts it, or no Disallow prefix does |
| Robots.IsAllowedByRobots | scraping.py:40-80 | the loop that parses lines and the two early-return scans give exactly `Allowed(path, robots_txt)` |
| Robots.StepWhenApplicable | scraping.py:59-68 | once collection is on, a line adds exactly its Allow and Disallow contributions and never switches collection off |
| Robots.ScanWithoutUserAgent | scraping.py:55-68 | with no `User-agent: *` line, no rule is collected |
| Robots.ScanAfterFirstUserAgent | scraping.py:55-68 | rules before the first `User-agent: *` line are ignored; every Allow and Disallow line after it is collected, in order |
| Robots.ApplicableIff | scraping.py:55-62 | after the scan, collection is on exactly when some line, once stripped, starts with `User-agent: *` |
| Robots.FlagNeverResets | scraping.py:61-62 | once `User-agent: *` has been seen, collection stays on whatever lines follow |
| Robots.AllowWins | scraping.py:71-73 | a matching collected Allow prefix allows the path even if a Disallow prefix matches too |
| Robots.DisallowDenies | scraping.py:75-78 | with no Allow match, a matching collected Disallow prefix denies the path |
| Robots.EmptyRobotsAllowsAll | scraping.py:80 | an empty robots text allows every path |
| Robots.DisallowedPrefixDenied | scraping.py:63-78 | under `User-agent: *`, a `Disallow: <p>` line denies every path that starts with the stripped `<p>` |
| Robots.CrLfUnterminatedDenied | scraping.py:59-78 | `User-agent: *` and `Disallow: <p>` separated by "\r\n" with no final newline still deny every path that starts with the stripped `<p>` |
| Robots.AllowConsultedFirst | scraping.py:70-80 | under `Allow: <a>` then `Disallow: <d>`, a path is allowed exactly when it starts with `<a>` or does not start with `<d>` |
| Robots.BareDisallowDeniesAll | scraping.py:63-78 | a bare `Disallow:` gives the empty prefix and denies every path |
| Robots.RuleBeforeUserAgentIgnored | scraping.py:55-65 | a Disallow line before `User-agent: *` has no effect |
| Robots.LaterUserAgentDoesNotReset | scraping.py:61-68 | a later `User-agent` line for another robot does not end the wildcard group; a Disallow line after it still denies |
| PolicyCache.Lookup | scraping.py:10-37 | entries are never changed or removed; only the URL's origin may be added; the text is the entry afterwards if there is one, "" otherwise |
| PolicyCache.CacheHitIgnoresNetwork | scraping.py:23-24 | on a hit, the stored text comes back, the cache is unchanged and the network has no influence |
| PolicyCache.MissStoresSuccess | scraping.py:26-33 | on a miss, a successful fetch of `{origin}/robots.txt` is returned and stored under the origin |
| PolicyCache.MissFailureNotCached | scraping.py:35-37 | on a miss, a failed fetch returns "" and leaves the cache unchanged |
| PolicyCache.SecondLookup | scraping.py:23-37 | after a hit or a successful fetch, a second lookup is a hit with the same text whatever the network says; after a failure it is a fresh miss |
| PolicyCache.RobotsCache.constructor | scraping.py:8 | the cache starts empty, with nothing fetched |
| PolicyCache.RobotsCache.FetchRobotsTxt | scraping.py:10-37 | returns the text and leaves the cache exactly as `Lookup` says; a robots.txt request is issued exactly on a miss |
| Crawler.CrawlUrlExtends | scraping.py:139-164 | a crawl call only appends records, of URLs not yet visited, at depths from `current_depth` to `depth`; it adds exactly those URLs to the visited set; it keeps cached texts; records stay distinct and all visited |
| Crawler.CrawlLinksExtends | scraping.py:162-164 | the same for the loop over a page's links, with depths from `current_depth + 1` on |
| Crawler.CrawlLinksVisitsAll | scraping.py:162-164 | below the depth limit, every link of the loop is visited afterwards: it was visited before, or the loop crawls it |
| Crawler.CrawlUrlFollowsLinks | scraping.py:147-164 | for a new URL below the depth limit whose robots text is empty or allows it, every link of the page was visited before or is recorded by the call |
| Crawler.FirstPathNotShortest | scraping.py:139-164 | with links a→[b, c], b→[c], c→[d], depth 2 and no robots.txt, the records are exactly `[(a,0), (b,1), (c,2)]` and `d`, two links from `a`, is never visited |
| Crawler.CrawlUrlDiscovers | scraping.py:147-164 | a call on a new URL within the depth limit records it first at `current_depth`; every later record is a link of an earlier record of the call, one level deeper |
| Crawler.CrawlLinksDiscover | scraping.py:159-164 | every record the link loop makes is a link of the page or of a later record, one level deeper |
| Crawler.CrawlFromSeed | scraping.py:129-164 | a crawl from a fresh state records the seed first at depth 0; every other record is a link of an earlier one, one level deeper; all depths lie in `0..depth`; records are distinct; visited is exactly the recorded URLs |
| Crawler.CrawlStaysOnSite | scraping.py:159-164 | if every link is on its page's netloc (the filter of `scrape_links`), every recorded URL is on the seed's netloc |
| Crawler.LinksAtDepthLimit | scraping.py:141-164 | at the depth limit the link loop changes nothing |
| Crawler.RecordedAtDepthLimit | scraping.py:141-164 | a new URL reached at the depth limit is recorded and visited, and none of its links is |
| Crawler.SeedOnlyAtDepthZero | scraping.py:135-142 | with depth 0 from a fresh state, the records are exactly `[(seed, 0)]` and visited is `{seed}` |
| Crawler.NoOpCall | scraping.py:139-142 | a call on a visited URL or beyond the depth limit changes nothing |
| Crawler.DeniedNotExpanded | scraping.py:147-156 | a URL denied by a non-empty robots text is recorded and visited, but none of its links is crawled |
| Crawler.FirstLinkFollowed | scraping.py:153-164 | when the robots text is empty or allows the URL, its first new link is recorded right after it, one level deeper |
| Crawler.Crawler.constructor | scraping.py:7-8 | a new crawler has an empty visited set, empty records and an empty robots cache |
| Crawler.Crawler.CrawlSite | scraping.py:129-164 | the method leaves exactly the state `CrawlUrl` gives; it only extends the state, as `Extends` describes; it keeps records distinct and visited |

## Left out

- `urlparse` (scraping.py:20, 51) is a foreign call. It is a total input function from a URL to its scheme, netloc and path.
- `requests.get` with `raise_for_status` (scraping.py:29-31) is network I/O. It is an input function from a URL to `Ok(text)` or `Err`.
- `scrape_links` (scraping.py:83-109) is network I/O plus BeautifulSoup, `urljoin` and a netloc filter. It is a total input function from a URL to a list of links. On a `RequestException` (scraping.py:107-109) the source returns `[]`, the same value as for a fetched page without same-netloc links (scraping.py:99-105); the model cannot tell the two apart. The same-netloc filter appears only as the precondition of `CrawlStaysOnSite`.
- Two ways the source aborts the whole crawl are not modelled, because the input functions are total and recursion is unbounded in Dafny. First, `urlparse` raises `ValueError` on a malformed netloc such as `[::1` (scraping.py:20, 51, and inside `urljoin` at 101). The `except` at scraping.py:107 does not catch it, so it escapes `crawl_site` and `main`, and no CSV is written. Second, Python's recursion limit raises `RecursionError` on a long chain of links when `depth` is large.
- The input functions are pure. So fetching again after a failure gets the same answer, and the model cannot express a network whose answers change during a crawl.
- `save_urls_to_csv` (scraping.py:112-126) is file I/O and is not part of this model.
- `main` (scraping.py:167-183) and every `print` are not part of this model.
- The mutable default argument `url_depth_list=[]` (scraping.py:129) is not modelled. The accumulator is a field of `Crawler`, so it persists across calls on the same object, as the module-level `visited_urls` does.
- Python whitespace and line boundaries are written out as `IsSpace` and `LineBreaks` from Python's character tables. The model works on code points; text decoding is not modelled.
- PolicyCache.RobotsCache.FetchRobotsTxt: the `requested` log is ghost. It records which robots.txt URLs were fetched, and is not program state of the source.
