/**
  The handful of Python `str` operations the robots.txt evaluator relies on,
  written out so that their edge cases are part of the model:
  `str.strip()`, `str.split(":")`, `str.splitlines()`.
  (`str.startswith(p)` is Dafny's sequence-prefix test `p <= s`.)
 */
module Text {

  /** The characters for which Python's `str.isspace()` holds. */
  predicate IsSpace(c: char) {
    || c == ' ' || c == '\t' || c == '\n' || c == '\r'
    || c == '\U{000B}' || c == '\U{000C}'
    || c == '\U{001C}' || c == '\U{001D}' || c == '\U{001E}' || c == '\U{001F}'
    || c == '\U{0085}' || c == '\U{00A0}' || c == '\U{1680}'
    || ('\U{2000}' <= c <= '\U{200A}')
    || c == '\U{2028}' || c == '\U{2029}' || c == '\U{202F}' || c == '\U{205F}'
    || c == '\U{3000}'
  }

  /** The line boundaries recognised by Python's `str.splitlines()`. */
  const LineBreaks: set<char> :=
    {'\n', '\r', '\U{000B}', '\U{000C}', '\U{001C}', '\U{001D}', '\U{001E}',
     '\U{0085}', '\U{2028}', '\U{2029}'}

  /** Index of the first character of `s` that is in `stops`, or `|s|` if there is none. */
  function FindFirst(s: string, stops: set<char>): (i: nat)
    ensures i <= |s|
    ensures i < |s| ==> s[i] in stops
    ensures forall k :: 0 <= k < i ==> s[k] !in stops
  {
    if s == [] then 0
    else if s[0] in stops then 0
    else 1 + FindFirst(s[1..], stops)
  }

  // ---------------------------------------------------------------------------
  // str.strip()

  /** `s` with its leading whitespace removed. */
  function TrimStart(s: string): (r: string)
    ensures |r| <= |s|
    ensures r == [] || !IsSpace(r[0])
  {
    if s != [] && IsSpace(s[0]) then TrimStart(s[1..]) else s
  }

  /** `s` with its trailing whitespace removed. */
  function TrimEnd(s: string): (r: string)
    ensures |r| <= |s|
    ensures r == [] || !IsSpace(r[|r| - 1])
  {
    if s != [] && IsSpace(s[|s| - 1]) then TrimEnd(s[..|s| - 1]) else s
  }

  /** What `TrimStart` removes is a whitespace prefix. */
  lemma {:induction false} TrimStartSuffix(s: string)
    ensures TrimStart(s) == s[|s| - |TrimStart(s)|..]
    ensures forall k :: 0 <= k < |s| - |TrimStart(s)| ==> IsSpace(s[k])
  {
    if s != [] && IsSpace(s[0]) {
      TrimStartSuffix(s[1..]);
    }
  }

  /** What `TrimEnd` removes is a whitespace suffix. */
  lemma {:induction false} TrimEndPrefix(s: string)
    ensures TrimEnd(s) == s[..|TrimEnd(s)|]
    ensures forall k :: |TrimEnd(s)| <= k < |s| ==> IsSpace(s[k])
  {
    if s != [] && IsSpace(s[|s| - 1]) {
      TrimEndPrefix(s[..|s| - 1]);
    }
  }

  /** `r` is `s[i..i + |r|]` and everything of `s` around it is whitespace. */
  ghost predicate InfixWithin(s: string, r: string, i: int) {
    && 0 <= i <= |s| - |r| && r == s[i..i + |r|]
    && (forall k :: 0 <= k < i ==> IsSpace(s[k]))
    && (forall k :: i + |r| <= k < |s| ==> IsSpace(s[k]))
  }

  /** Python's `s.strip()`. */
  function Strip(s: string): (r: string)
    ensures |r| <= |s|
    ensures r == [] || (!IsSpace(r[0]) && !IsSpace(r[|r| - 1]))
  {
    var t := TrimStart(s);
    TrimEndPrefix(t);
    TrimEnd(t)
  }

  /** `strip()` removes only whitespace, and only at the two ends: its result is the
      infix of `s` between a whitespace prefix and a whitespace suffix. */
  lemma StripIsInfix(s: string) returns (i: nat)
    ensures InfixWithin(s, Strip(s), i)
  {
    var t := TrimStart(s);
    var r := TrimEnd(t);
    TrimStartSuffix(s);
    TrimEndPrefix(t);
    i := |s| - |t|;
    assert r == s[i..i + |r|];
    assert forall k :: i + |r| <= k < |s| ==> s[k] == t[k - i];
  }

  /** The characters of `strip()`'s result all come from `s`. */
  lemma StripChars(s: string)
    ensures forall c :: c in Strip(s) ==> c in s
  {
    var i := StripIsInfix(s);
    var r := Strip(s);
    forall c | c in r ensures c in s {
      var k :| 0 <= k < |r| && r[k] == c;
      assert s[i + k] == c;
    }
  }

  /** Stripping a string that has no whitespace at either end leaves it unchanged. */
  lemma StripUnchanged(s: string)
    requires s == [] || (!IsSpace(s[0]) && !IsSpace(s[|s| - 1]))
    ensures Strip(s) == s
  {
  }

  // ---------------------------------------------------------------------------
  // str.split(sep) for a one-character separator, and its inverse str.join

  /** Python's `sep.join(parts)`. */
  function Join(parts: seq<string>, sep: char): (s: string)
    requires |parts| >= 1
  {
    if |parts| == 1 then parts[0] else parts[0] + [sep] + Join(parts[1..], sep)
  }

  /** Python's `s.split(sep)`: the fields of `s` between occurrences of `sep`. */
  function Split(s: string, sep: char): (parts: seq<string>)
    ensures |parts| >= 1
    ensures |parts| == 1 <==> sep !in s
    ensures forall k :: 0 <= k < |parts| ==> sep !in parts[k]
    decreases |s|
  {
    var i := FindFirst(s, {sep});
    if i == |s| then
      assert forall c :: c in s ==> c != sep;
      [s]
    else
      assert s[..i] == s[..i];
      assert forall c :: c in s[..i] ==> c != sep;
      [s[..i]] + Split(s[i + 1..], sep)
  }

  /** Splitting and joining on the same separator gives back the original string. */
  lemma {:induction false} JoinSplit(s: string, sep: char)
    ensures Join(Split(s, sep), sep) == s
    decreases |s|
  {
    var i := FindFirst(s, {sep});
    if i < |s| {
      var head, rest := s[..i], s[i + 1..];
      var tail := Split(rest, sep);
      assert Split(s, sep) == [head] + tail;
      JoinSplit(rest, sep);
      calc {
        Join(Split(s, sep), sep);
        Join([head] + tail, sep);
        { assert ([head] + tail)[0] == head && ([head] + tail)[1..] == tail; }
        head + [sep] + Join(tail, sep);
        s[..i] + [s[i]] + s[i + 1..];
        { Reassemble(s, i); }
        s;
      }
    }
  }

  lemma Reassemble(s: string, i: nat)
    requires i < |s|
    ensures s[..i] + [s[i]] + s[i + 1..] == s
  {
  }

  /** Joining separator-free fields and splitting again gives back the fields. */
  lemma {:induction false} SplitJoin(parts: seq<string>, sep: char)
    requires |parts| >= 1
    requires forall k :: 0 <= k < |parts| ==> sep !in parts[k]
    ensures Split(Join(parts, sep), sep) == parts
  {
    var s := Join(parts, sep);
    if |parts| == 1 {
      assert FindFirst(s, {sep}) == |s|;
    } else {
      var i := FindFirst(s, {sep});
      assert s[|parts[0]|] == sep;
      assert i == |parts[0]| by {
        assert forall k :: 0 <= k < |parts[0]| ==> s[k] == parts[0][k];
      }
      assert s[i + 1..] == Join(parts[1..], sep);
      assert s[..i] == parts[0];
      SplitJoin(parts[1..], sep);
      assert Split(s, sep) == [parts[0]] + Split(Join(parts[1..], sep), sep);
      assert [parts[0]] + parts[1..] == parts;
    }
  }

  /** In `head + [sep] + tail`, the first separator is the one after `head`. */
  lemma FirstSeparator(head: string, tail: string, sep: char)
    requires sep !in head
    ensures FindFirst(head + [sep] + tail, {sep}) == |head|
  {
    var s := head + [sep] + tail;
    forall k | 0 <= k < |head| ensures s[k] !in {sep} {
      assert s[k] == head[k] && head[k] in head;
    }
    assert s[|head|] == sep;
  }

  /** A string without the separator is one field. */
  lemma NoSeparator(s: string, sep: char)
    requires sep !in s
    ensures Split(s, sep) == [s]
  {
    forall k | 0 <= k < |s| ensures s[k] !in {sep} {
      assert s[k] in s;
    }
  }

  /** Splitting `head + [sep] + tail` peels `head` off as the first field. */
  lemma SplitCons(head: string, tail: string, sep: char)
    requires sep !in head
    ensures Split(head + [sep] + tail, sep) == [head] + Split(tail, sep)
  {
    var s := head + [sep] + tail;
    FirstSeparator(head, tail, sep);
    assert s[..|head|] == head;
    assert s[|head| + 1..] == tail;
  }

  /** The second field of `head + ":" + field + rest` is `field` when `head` and `field`
      hold no separator and `rest` is empty or starts with one. */
  lemma SecondField(head: string, field: string, rest: string, sep: char)
    requires sep !in head && sep !in field
    requires rest == [] || rest[0] == sep
    ensures |Split(head + [sep] + field + rest, sep)| >= 2
    ensures Split(head + [sep] + field + rest, sep)[0] == head
    ensures Split(head + [sep] + field + rest, sep)[1] == field
  {
    var tail := field + rest;
    assert head + [sep] + field + rest == head + [sep] + tail;
    SplitCons(head, tail, sep);
    assert Split(tail, sep)[0] == field by {
      FirstFieldOf(field, rest, sep);
    }
  }

  /** The first field of `field + rest` is `field` when `field` holds no separator and
      `rest` is empty or starts with one. */
  lemma FirstFieldOf(field: string, rest: string, sep: char)
    requires sep !in field
    requires rest == [] || rest[0] == sep
    ensures Split(field + rest, sep)[0] == field
  {
    if rest == [] {
      assert field + rest == field;
      NoSeparator(field, sep);
    } else {
      var more := rest[1..];
      assert rest == [sep] + more;
      assert field + rest == field + [sep] + more;
      SplitCons(field, more, sep);
    }
  }

  // ---------------------------------------------------------------------------
  // str.splitlines()

  predicate NoLineBreak(line: string) {
    forall c :: c in line ==> c !in LineBreaks
  }

  /** Python's `s.splitlines()`: the lines of `s` without their boundaries; "\r\n" is
      one boundary, and a final boundary does not start an extra empty line. */
  function SplitLines(s: string): (lines: seq<string>)
    ensures lines == [] <==> s == []
    ensures forall k :: 0 <= k < |lines| ==> NoLineBreak(lines[k])
    decreases |s|
  {
    if s == [] then []
    else
      var i := FindFirst(s, LineBreaks);
      assert forall c :: c in s[..i] ==> c !in LineBreaks;
      if i == |s| then [s]
      else if s[i] == '\r' && i + 1 < |s| && s[i + 1] == '\n' then [s[..i]] + SplitLines(s[i + 2..])
      else [s[..i]] + SplitLines(s[i + 1..])
  }

  /** In `line + rest`, where `rest` is empty or starts with a boundary, the first
      boundary is the one right after `line`. */
  lemma FirstLineBreak(line: string, rest: string)
    requires NoLineBreak(line)
    requires rest == [] || rest[0] in LineBreaks
    ensures FindFirst(line + rest, LineBreaks) == |line|
  {
    var s := line + rest;
    forall k | 0 <= k < |line| ensures s[k] !in LineBreaks {
      assert s[k] == line[k] && line[k] in line;
    }
    if rest != [] {
      assert s[|line|] == rest[0];
    }
  }

  /** A text without a boundary is one line, even with no final newline. */
  lemma SplitLinesOne(line: string)
    requires line != [] && NoLineBreak(line)
    ensures SplitLines(line) == [line]
  {
    FirstLineBreak(line, []);
    assert line + [] == line;
  }

  /** Any boundary other than a "\r" that starts "\r\n" ends the line before it;
      what follows is split on its own, so an unterminated last line is kept. */
  lemma SplitLinesCons(line: string, b: char, rest: string)
    requires NoLineBreak(line) && b in LineBreaks
    requires !(b == '\r' && rest != [] && rest[0] == '\n')
    ensures SplitLines(line + [b] + rest) == [line] + SplitLines(rest)
  {
    var s := line + [b] + rest;
    assert s == line + ([b] + rest);
    FirstLineBreak(line, [b] + rest);
    assert s[..|line|] == line;
    assert s[|line|] == b;
    assert s[|line| + 1..] == rest;
  }

  /** "\r\n" is a single boundary: it ends one line and starts no empty one. */
  lemma SplitLinesCrLf(line: string, rest: string)
    requires NoLineBreak(line)
    ensures SplitLines(line + "\r\n" + rest) == [line] + SplitLines(rest)
  {
    var s := line + "\r\n" + rest;
    assert s == line + ("\r\n" + rest);
    FirstLineBreak(line, "\r\n" + rest);
    assert s[..|line|] == line;
    assert s[|line|] == '\r' && s[|line| + 1] == '\n';
    assert s[|line| + 2..] == rest;
  }

  /** Every line followed by "\n": the text whose `splitlines()` the evaluator reads. */
  function Terminated(lines: seq<string>): (s: string)
    ensures s == [] <==> lines == []
  {
    if lines == [] then [] else lines[0] + "\n" + Terminated(lines[1..])
  }

  /** `splitlines()` recovers the lines of a newline-terminated text. */
  lemma {:induction false} SplitLinesTerminated(lines: seq<string>)
    requires forall k :: 0 <= k < |lines| ==> NoLineBreak(lines[k])
    ensures SplitLines(Terminated(lines)) == lines
  {
    if lines != [] {
      var s := Terminated(lines);
      var l := lines[0];
      assert NoLineBreak(l);
      assert s == l + "\n" + Terminated(lines[1..]);
      assert s[|l|] == '\n';
      var i := FindFirst(s, LineBreaks);
      assert i == |l| by {
        forall k | 0 <= k < |l| ensures s[k] !in LineBreaks {
          assert s[k] == l[k] && l[k] in l;
        }
      }
      assert s[..i] == l;
      assert s[i + 1..] == Terminated(lines[1..]);
      SplitLinesTerminated(lines[1..]);
    }
  }
}
