/**
  The robots.txt evaluator of the crawler (`is_allowed_by_robots`).

  Rules are collected line by line: a stripped line starting with
  "User-agent: *" switches collection on for the rest of the file (it is
  never switched off again), and from then on every "Disallow:" and
  "Allow:" line contributes the stripped text between its first and second
  colon as a path prefix. A path is allowed if it starts with any Allow
  prefix; otherwise it is denied if it starts with any Disallow prefix;
  otherwise it is allowed. This is not the longest-match rule of RFC 9309.
 */
module Robots {

  import opened Text
  import opened Network

  const UserAgentAll := "User-agent: *"
  const DisallowKey := "Disallow:"
  const AllowKey := "Allow:"

  /** What the scan of the lines has collected so far. */
  datatype Rules = Rules(applicable: bool, allows: seq<string>, disallows: seq<string>)

  const NoRules := Rules(false, [], [])

  /** The prefix a rule line contributes: `line.split(":")[1].strip()`. */
  function RuleValue(line: string): (v: string)
    requires ':' in line
    ensures ':' !in v
    ensures v == [] || (!IsSpace(v[0]) && !IsSpace(v[|v| - 1]))
  {
    var fields := Split(line, ':');
    StripChars(fields[1]);
    Strip(fields[1])
  }

  /** A stripped line that starts with `key` ("Disallow:" or "Allow:") contains a colon. */
  lemma KeyedLineHasColon(line: string, key: string)
    requires key == DisallowKey || key == AllowKey
    requires key <= line
    ensures ':' in line
  {
    assert line[|key| - 1] == ':';
  }

  /** The rule value of `key + field + rest` is the stripped `field` when `field` holds
      no colon and `rest` is empty or starts with one: only the text up to the second
      colon of the line counts. */
  lemma RuleValueUpToSecondColon(key: string, field: string, rest: string)
    requires key == DisallowKey || key == AllowKey
    requires ':' !in field
    requires rest == [] || rest[0] == ':'
    ensures ':' in key + field + rest
    ensures RuleValue(key + field + rest) == Strip(field)
  {
    var head := key[..|key| - 1];
    assert key == head + [':'];
    assert ':' !in head;
    assert key + field + rest == head + [':'] + field + rest;
    SecondField(head, field, rest, ':');
  }

  /** One iteration of the parsing loop on a raw (unstripped) line. */
  function Step(r: Rules, raw: string): Rules {
    var line := Strip(raw);
    if UserAgentAll <= line then r.(applicable := true)
    else if DisallowKey <= line && r.applicable then
      KeyedLineHasColon(line, DisallowKey);
      r.(disallows := r.disallows + [RuleValue(line)])
    else if AllowKey <= line && r.applicable then
      KeyedLineHasColon(line, AllowKey);
      r.(allows := r.allows + [RuleValue(line)])
    else r
  }

  /** The rules collected from `lines`, in order. */
  function Scan(lines: seq<string>): Rules {
    if lines == [] then NoRules else Step(Scan(lines[..|lines| - 1]), lines[|lines| - 1])
  }

  /** Does `path` start with one of `prefixes`? */
  function AnyPrefix(prefixes: seq<string>, path: string): (r: bool)
    ensures r <==> exists p :: p in prefixes && p <= path
  {
    if prefixes == [] then false
    else if prefixes[0] <= path then assert prefixes[0] in prefixes; true
    else
      var r := AnyPrefix(prefixes[1..], path);
      assert r ==> exists p :: p in prefixes && p <= path by {
        if r {
          var p :| p in prefixes[1..] && p <= path;
          assert p in prefixes;
        }
      }
      assert forall p :: p in prefixes ==> p == prefixes[0] || p in prefixes[1..];
      r
  }

  /** The allow/deny decision for `path` under collected rules. */
  function Decide(r: Rules, path: string): (allowed: bool)
    ensures allowed <==>
      (exists a :: a in r.allows && a <= path) || (forall d :: d in r.disallows ==> !(d <= path))
  {
    if AnyPrefix(r.allows, path) then true
    else if AnyPrefix(r.disallows, path) then false
    else true
  }

  /** The decision on already split lines. */
  function AllowedLines(path: string, lines: seq<string>): bool {
    Decide(Scan(lines), path)
  }

  /** `is_allowed_by_robots` as a function of the path and the robots text. */
  function Allowed(path: string, robotsTxt: string): bool {
    AllowedLines(path, SplitLines(robotsTxt))
  }

  /** `is_allowed_by_robots(url, robots_txt)`: parse the lines into Allow and Disallow
      lists, then scan the Allow list and the Disallow list with early returns. */
  method IsAllowedByRobots(url: string, robotsTxt: string, parse: string -> UrlParts)
    returns (allowed: bool)
    ensures allowed == Allowed(parse(url).path, robotsTxt)
  {
    var path := parse(url).path;
    var userAgentAllowed := false;
    var disallowedPaths: seq<string> := [];
    var allowedPaths: seq<string> := [];
    var lines := SplitLines(robotsTxt);
    for i := 0 to |lines|
      invariant Scan(lines[..i]) == Rules(userAgentAllowed, allowedPaths, disallowedPaths)
    {
      assert lines[..i + 1][..i] == lines[..i];
      var line := Strip(lines[i]);
      if UserAgentAll <= line {
        userAgentAllowed := true;
      } else if DisallowKey <= line && userAgentAllowed {
        KeyedLineHasColon(line, DisallowKey);
        var disallowedPath := Strip(Split(line, ':')[1]);
        disallowedPaths := disallowedPaths + [disallowedPath];
      } else if AllowKey <= line && userAgentAllowed {
        KeyedLineHasColon(line, AllowKey);
        var allowedPath := Strip(Split(line, ':')[1]);
        allowedPaths := allowedPaths + [allowedPath];
      }
    }
    assert lines[..|lines|] == lines;

    for j := 0 to |allowedPaths|
      invariant forall k :: 0 <= k < j ==> !(allowedPaths[k] <= path)
    {
      if allowedPaths[j] <= path {
        assert allowedPaths[j] in allowedPaths;
        return true;
      }
    }
    for j := 0 to |disallowedPaths|
      invariant forall k :: 0 <= k < j ==> !(disallowedPaths[k] <= path)
    {
      if disallowedPaths[j] <= path {
        assert disallowedPaths[j] in disallowedPaths;
        return false;
      }
    }
    return true;
  }

  // ---------------------------------------------------------------------------
  // Which lines contribute rules

  /** Does a raw line open the wildcard group? */
  predicate IsUserAgentAll(raw: string) {
    UserAgentAll <= Strip(raw)
  }

  /** What a raw line adds to the `key` list once collection is on: its rule value
      if it starts with `key` after stripping, nothing otherwise. */
  function Contribution(raw: string, key: string): seq<string>
    requires key == DisallowKey || key == AllowKey
  {
    var line := Strip(raw);
    if key <= line then KeyedLineHasColon(line, key); [RuleValue(line)] else []
  }

  /** The values of the lines of `lines` that start with `key` after stripping, in order. */
  function Values(lines: seq<string>, key: string): seq<string>
    requires key == DisallowKey || key == AllowKey
  {
    if lines == [] then [] else Values(lines[..|lines| - 1], key) + Contribution(lines[|lines| - 1], key)
  }

  /** Once collection is on, a line adds exactly its contributions: a "User-agent" line
      adds nothing and switches nothing off. */
  lemma StepWhenApplicable(r: Rules, raw: string)
    requires r.applicable
    ensures Step(r, raw) ==
      Rules(true, r.allows + Contribution(raw, AllowKey), r.disallows + Contribution(raw, DisallowKey))
  {
    var line := Strip(raw);
    if UserAgentAll <= line {
      assert !(DisallowKey <= line) && !(AllowKey <= line) by { assert line[0] == 'U'; }
    } else if DisallowKey <= line {
      assert !(AllowKey <= line) by { assert line[0] == 'D'; }
    }
  }

  /** Before collection is on, only a "User-agent: *" line changes anything. */
  lemma StepWhenNotApplicable(raw: string)
    ensures Step(NoRules, raw) == if IsUserAgentAll(raw) then Rules(true, [], []) else NoRules
  {
  }

  /** Without a "User-agent: *" line, nothing is collected. */
  lemma {:induction false} ScanWithoutUserAgent(lines: seq<string>)
    requires forall j :: 0 <= j < |lines| ==> !IsUserAgentAll(lines[j])
    ensures Scan(lines) == NoRules
  {
    if lines != [] {
      ScanWithoutUserAgent(lines[..|lines| - 1]);
      StepWhenNotApplicable(lines[|lines| - 1]);
    }
  }

  /** Scanning one more line is one more step. */
  lemma ScanSnoc(lines: seq<string>, x: string)
    ensures Scan(lines + [x]) == Step(Scan(lines), x)
  {
    assert (lines + [x])[..|lines|] == lines;
  }

  /** One more line adds its contribution at the end. */
  lemma ValuesSnoc(lines: seq<string>, x: string, key: string)
    requires key == DisallowKey || key == AllowKey
    ensures Values(lines + [x], key) == Values(lines, key) + Contribution(x, key)
  {
    assert (lines + [x])[..|lines|] == lines;
  }

  /** Rules before the first "User-agent: *" line are ignored, and every Allow and
      Disallow line after it is collected, in order, whatever later "User-agent" lines
      say. */
  lemma {:induction false} ScanAfterFirstUserAgent(before: seq<string>, ua: string, after: seq<string>)
    requires IsUserAgentAll(ua)
    requires forall j :: 0 <= j < |before| ==> !IsUserAgentAll(before[j])
    ensures Scan(before + [ua] + after) ==
      Rules(true, Values(after, AllowKey), Values(after, DisallowKey))
    decreases |after|
  {
    if after == [] {
      assert before + [ua] + after == before + [ua];
      ScanSnoc(before, ua);
      ScanWithoutUserAgent(before);
      StepWhenNotApplicable(ua);
    } else {
      var init, x := after[..|after| - 1], after[|after| - 1];
      assert after == init + [x];
      var pre := before + [ua] + init;
      assert before + [ua] + after == pre + [x];
      ScanAfterFirstUserAgent(before, ua, init);
      var r := Scan(pre);
      ScanSnoc(pre, x);
      StepWhenApplicable(r, x);
      ValuesSnoc(init, x, AllowKey);
      ValuesSnoc(init, x, DisallowKey);
      calc {
        Scan(before + [ua] + after);
        Step(r, x);
        Rules(true, r.allows + Contribution(x, AllowKey), r.disallows + Contribution(x, DisallowKey));
        Rules(true, Values(after, AllowKey), Values(after, DisallowKey));
      }
    }
  }

  /** A line switches collection on exactly when it opens the wildcard group; no line
      switches it off. */
  lemma StepApplicable(r: Rules, raw: string)
    ensures Step(r, raw).applicable == (r.applicable || IsUserAgentAll(raw))
  {
  }

  /** Collection is on after a scan exactly when some line opened the wildcard group. */
  lemma {:induction false} ApplicableIff(lines: seq<string>)
    ensures Scan(lines).applicable <==> exists j :: 0 <= j < |lines| && IsUserAgentAll(lines[j])
  {
    if lines != [] {
      var init := lines[..|lines| - 1];
      ApplicableIff(init);
      StepApplicable(Scan(init), lines[|lines| - 1]);
      if Scan(lines).applicable && !IsUserAgentAll(lines[|lines| - 1]) {
        var j :| 0 <= j < |init| && IsUserAgentAll(init[j]);
        assert lines[j] == init[j];
      }
      if j :| 0 <= j < |lines| && IsUserAgentAll(lines[j]) {
        if j < |init| {
          assert init[j] == lines[j];
        }
      }
    }
  }

  /** Once "User-agent: *" has been seen, the flag stays set whatever follows. */
  lemma FlagNeverResets(lines: seq<string>, more: seq<string>)
    requires Scan(lines).applicable
    ensures Scan(lines + more).applicable
  {
    ApplicableIff(lines);
    var j :| 0 <= j < |lines| && IsUserAgentAll(lines[j]);
    assert (lines + more)[j] == lines[j];
    ApplicableIff(lines + more);
  }

  // ---------------------------------------------------------------------------
  // The decision

  /** A matching Allow prefix wins, even when a Disallow prefix matches too. */
  lemma AllowWins(path: string, lines: seq<string>, a: string)
    requires a in Scan(lines).allows && a <= path
    ensures AllowedLines(path, lines)
  {
  }

  /** Without an Allow match, a matching Disallow prefix denies the path. */
  lemma DisallowDenies(path: string, lines: seq<string>, d: string)
    requires d in Scan(lines).disallows && d <= path
    requires forall a :: a in Scan(lines).allows ==> !(a <= path)
    ensures !AllowedLines(path, lines)
  {
  }

  /** An empty robots text allows every path. */
  lemma EmptyRobotsAllowsAll(path: string)
    ensures Allowed(path, "")
  {
  }

  /** The rule value of a line that strips to `key + field`, `field` free of colons. */
  lemma ContributionOf(raw: string, key: string, field: string)
    requires key == DisallowKey || key == AllowKey
    requires Strip(raw) == key + field && ':' !in field
    ensures Contribution(raw, key) == [Strip(field)]
  {
    assert key + field == key + field + [];
    RuleValueUpToSecondColon(key, field, []);
  }

  /** A line that strips to "Allow:..." contributes no Disallow rule, and vice versa. */
  lemma KeysExclusive(raw: string)
    ensures AllowKey <= Strip(raw) ==> Contribution(raw, DisallowKey) == []
    ensures DisallowKey <= Strip(raw) ==> Contribution(raw, AllowKey) == []
  {
    var line := Strip(raw);
    if AllowKey <= line { assert line[0] == 'A'; }
    if DisallowKey <= line { assert line[0] == 'D'; }
  }

  /** The values of two lines are their contributions, in order. */
  lemma ValuesPair(x: string, y: string, key: string)
    requires key == DisallowKey || key == AllowKey
    ensures Values([x, y], key) == Contribution(x, key) + Contribution(y, key)
  {
    assert [x][..0] == [];
    assert Values([x], key) == Contribution(x, key);
    assert [x, y][..1] == [x];
  }

  /** The rules of a wildcard group line followed by `rules`. */
  lemma ScanGroup(ua: string, rules: seq<string>)
    requires IsUserAgentAll(ua)
    ensures Scan([ua] + rules) == Rules(true, Values(rules, AllowKey), Values(rules, DisallowKey))
  {
    ScanAfterFirstUserAgent([], ua, rules);
    assert [] + [ua] + rules == [ua] + rules;
  }

  /** "User-agent: *" followed by one rule line. */
  lemma ScanGroupOfOne(ua: string, x: string)
    requires IsUserAgentAll(ua)
    ensures Scan([ua, x]) == Rules(true, Contribution(x, AllowKey), Contribution(x, DisallowKey))
  {
    ScanGroup(ua, [x]);
    assert [ua] + [x] == [ua, x];
    assert [x][..0] == [];
  }

  /** "User-agent: *" followed by two rule lines. */
  lemma ScanGroupOfTwo(ua: string, x: string, y: string)
    requires IsUserAgentAll(ua)
    ensures Scan([ua, x, y]) == Rules(true,
      Contribution(x, AllowKey) + Contribution(y, AllowKey),
      Contribution(x, DisallowKey) + Contribution(y, DisallowKey))
  {
    ScanGroup(ua, [x, y]);
    assert [ua] + [x, y] == [ua, x, y];
    ValuesPair(x, y, AllowKey);
    ValuesPair(x, y, DisallowKey);
  }

  /** "User-agent: *" then "Disallow: <p>" denies every path that starts with `<p>`
      (stripped), whatever the rest of the path is. */
  lemma DisallowedPrefixDenied(ua: string, rule: string, field: string, path: string)
    requires IsUserAgentAll(ua)
    requires Strip(rule) == DisallowKey + field && ':' !in field
    requires Strip(field) <= path
    ensures !AllowedLines(path, [ua, rule])
  {
    ScanGroupOfOne(ua, rule);
    ContributionOf(rule, DisallowKey, field);
    KeysExclusive(rule);
    var r := Scan([ua, rule]);
    assert r.allows == [] && r.disallows == [Strip(field)];
    assert Strip(field) in r.disallows;
  }

  /** The same group sent with a "\r\n" boundary and no final newline, as in
      "User-agent: *\r\nDisallow: /x", still denies every path under the prefix. */
  lemma CrLfUnterminatedDenied(ua: string, rule: string, field: string, path: string)
    requires IsUserAgentAll(ua) && NoLineBreak(ua) && NoLineBreak(rule)
    requires Strip(rule) == DisallowKey + field && ':' !in field
    requires Strip(field) <= path
    ensures !Allowed(path, ua + "\r\n" + rule)
  {
    SplitLinesCrLf(ua, rule);
    assert rule != [];
    SplitLinesOne(rule);
    assert SplitLines(ua + "\r\n" + rule) == [ua, rule];
    DisallowedPrefixDenied(ua, rule, field, path);
  }

  /** An Allow prefix is consulted before any Disallow prefix: under "Allow: <a>" and
      "Disallow: <d>", a path is allowed exactly when it starts with `<a>` or does not
      start with `<d>` (so with <a> = "/public" and <d> = "/", "/public/x" is allowed). */
  lemma AllowConsultedFirst(ua: string, allowRule: string, a: string, disallowRule: string, d: string, path: string)
    requires IsUserAgentAll(ua)
    requires Strip(allowRule) == AllowKey + a && ':' !in a
    requires Strip(disallowRule) == DisallowKey + d && ':' !in d
    ensures AllowedLines(path, [ua, allowRule, disallowRule]) <==>
            Strip(a) <= path || !(Strip(d) <= path)
  {
    ScanGroupOfTwo(ua, allowRule, disallowRule);
    ContributionOf(allowRule, AllowKey, a);
    ContributionOf(disallowRule, DisallowKey, d);
    KeysExclusive(allowRule);
    KeysExclusive(disallowRule);
    var r := Scan([ua, allowRule, disallowRule]);
    assert r.allows == [Strip(a)] && r.disallows == [Strip(d)];
    assert Strip(a) in r.allows && Strip(d) in r.disallows;
  }

  /** A bare "Disallow:" contributes the empty prefix, which denies every path. */
  lemma BareDisallowDeniesAll(ua: string, rule: string, path: string)
    requires IsUserAgentAll(ua)
    requires Strip(rule) == DisallowKey
    ensures !AllowedLines(path, [ua, rule])
  {
    assert DisallowKey == DisallowKey + [];
    StripUnchanged([]);
    DisallowedPrefixDenied(ua, rule, [], path);
  }

  /** A Disallow line that comes before "User-agent: *" is ignored. */
  lemma RuleBeforeUserAgentIgnored(rule: string, ua: string, path: string)
    requires !IsUserAgentAll(rule) && IsUserAgentAll(ua)
    ensures AllowedLines(path, [rule, ua])
  {
    ScanAfterFirstUserAgent([rule], ua, []);
    assert [rule] + [ua] + [] == [rule, ua];
  }

  /** A later "User-agent" line for another robot does not end the wildcard group: a
      Disallow line after it still applies. */
  lemma LaterUserAgentDoesNotReset(ua: string, other: string, rule: string, field: string, path: string)
    requires IsUserAgentAll(ua)
    requires !(AllowKey <= Strip(other)) && !(DisallowKey <= Strip(other))
    requires Strip(rule) == DisallowKey + field && ':' !in field
    requires Strip(field) <= path
    ensures !AllowedLines(path, [ua, other, rule])
  {
    ScanGroupOfTwo(ua, other, rule);
    ContributionOf(rule, DisallowKey, field);
    KeysExclusive(rule);
    assert Contribution(other, DisallowKey) == [] && Contribution(other, AllowKey) == [];
    var r := Scan([ua, other, rule]);
    assert r.allows == [] && r.disallows == [Strip(field)];
    assert Strip(field) in r.disallows;
  }
}
