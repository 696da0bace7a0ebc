/** The listener-log line extractor: the two pattern searches of
    `parse_log_line` and the strip / skip / accumulate loop of `parse_file`. */
module ListenerLogParser {
  import opened Options
  import opened Text

  /** The literal text that opens each of the two patterns
      `\(HOST=([^)]+)\)` and `\(USER=([^)]+)\)`. */
  const HostKey: string := "(HOST="
  const UserKey: string := "(USER="

  /** One extracted connection event. */
  datatype LogRecord = LogRecord(host: Option<string>, user: Option<string>)

  /** A pattern opener of the shape "(NAME=": it starts with '(' and holds
      neither ')' nor whitespace. */
  predicate IsKey(key: string)
  {
    |key| > 0 && key[0] == '(' && forall i :: 0 <= i < |key| ==> key[i] != ')' && !IsSpace(key[i])
  }

  lemma KeysAreKeys()
    ensures IsKey(HostKey) && IsKey(UserKey)
  {
  }

  // ---------------------------------------------------------------------
  // The regular expression \(KEY=([^)]+)\)
  // ---------------------------------------------------------------------

  /** The pattern `\(NAME=([^)]+)\)` matches `line` at position `i`: the opener
      is there, the character after it is not ')' (the group needs at least
      one), and a ')' follows somewhere. As `[^)]+` cannot step over a ')',
      the only way to finish the match is at the first ')' after the opener,
      so no other backtracking choice exists. */
  predicate MatchesAt(line: string, key: string, i: nat)
  {
    i + |key| < |line| && line[i..i + |key|] == key &&
    line[i + |key|] != ')' && ')' in line[i + |key|..]
  }

  /** The test the search makes at position `i`, the way a regex engine makes
      it: the opener compared character by character, one character that is
      not ')', and a forward scan for the closing ')'. `MatchesAt` is the same
      condition stated on slices, and `TryMatchAtSpec` proves the two equal;
      the search runs this form and its lemmas speak of `MatchesAt`. */
  predicate TryMatchAt(line: string, key: string, i: nat)
  {
    i + |key| < |line| && KeyAt(line, key, i, 0) &&
    line[i + |key|] != ')' && CloseParen(line, i + |key|) < |line|
  }

  /** `key[n..]` occurs in `line` at position `i + n`. */
  predicate KeyAt(line: string, key: string, i: nat, n: nat)
    requires i + |key| <= |line| && n <= |key|
    decreases |key| - n
  {
    n == |key| || (line[i + n] == key[n] && KeyAt(line, key, i, n + 1))
  }

  lemma {:induction false} KeyAtSpec(line: string, key: string, i: nat, n: nat)
    requires i + |key| <= |line| && n <= |key|
    ensures KeyAt(line, key, i, n) <==> line[i + n..i + |key|] == key[n..]
    decreases |key| - n
  {
    if n < |key| {
      KeyAtSpec(line, key, i, n + 1);
      assert line[i + n..i + |key|] == [line[i + n]] + line[i + n + 1..i + |key|];
      assert key[n..] == [key[n]] + key[n + 1..];
    }
  }

  /** The search's test is the pattern's match condition. */
  lemma TryMatchAtSpec(line: string, key: string, i: nat)
    ensures TryMatchAt(line, key, i) <==> MatchesAt(line, key, i)
  {
    if i + |key| < |line| {
      KeyAtSpec(line, key, i, 0);
      CloseParenSpec(line, i + |key|);
    }
  }

  /** Position of the first ')' at or after `j`, or `|line|` when there is none. */
  function CloseParen(line: string, j: nat): (k: nat)
    requires j <= |line|
    ensures j <= k <= |line|
    decreases |line| - j
  {
    if j == |line| || line[j] == ')' then j else CloseParen(line, j + 1)
  }

  lemma {:induction false} CloseParenSpec(line: string, j: nat)
    requires j <= |line|
    ensures forall m :: j <= m < CloseParen(line, j) ==> line[m] != ')'
    ensures CloseParen(line, j) < |line| <==> ')' in line[j..]
    ensures CloseParen(line, j) < |line| ==> line[CloseParen(line, j)] == ')'
    decreases |line| - j
  {
    if j < |line| && line[j] != ')' {
      CloseParenSpec(line, j + 1);
      assert line[j..] == [line[j]] + line[j + 1..];
    }
  }

  /** Group 1 when the pattern matches at `i`: the run of characters after the
      opener up to the first ')'. */
  function CaptureAt(line: string, key: string, i: nat): string
    requires i + |key| <= |line|
  {
    line[i + |key|..CloseParen(line, i + |key|)]
  }

  /** At a match, group 1 is non-empty, holds no ')', and is followed by ')'. */
  lemma CaptureAtSpec(line: string, key: string, i: nat)
    requires MatchesAt(line, key, i)
    ensures var v := CaptureAt(line, key, i);
      v != [] && ')' !in v &&
      i + |key| + |v| < |line| && line[i + |key| + |v|] == ')' &&
      line[i + |key|..i + |key| + |v|] == v
  {
    var j := i + |key|;
    CloseParenSpec(line, j);
    var k := CloseParen(line, j);
    assert forall m :: 0 <= m < k - j ==> line[j..k][m] == line[j + m];
  }

  /** The leftmost position at or after `from` where the pattern matches. */
  function SearchFrom(line: string, key: string, from: nat): (r: Option<nat>)
    requires from <= |line|
    ensures r.Some? ==> from <= r.value && r.value + |key| < |line|
    decreases |line| - from
  {
    if TryMatchAt(line, key, from) then Some(from)
    else if from == |line| then None
    else SearchFrom(line, key, from + 1)
  }

  lemma {:induction false} SearchFromSpec(line: string, key: string, from: nat)
    requires from <= |line|
    ensures var r := SearchFrom(line, key, from);
      (r.Some? ==> MatchesAt(line, key, r.value)) &&
      (r.Some? ==> forall j: nat :: from <= j < r.value ==> !MatchesAt(line, key, j)) &&
      (r.None? ==> forall j: nat :: from <= j ==> !MatchesAt(line, key, j))
    decreases |line| - from
  {
    TryMatchAtSpec(line, key, from);
    if !MatchesAt(line, key, from) && from < |line| {
      SearchFromSpec(line, key, from + 1);
    }
  }

  /** `pattern.search(line).group(1)` when there is a match, `None` otherwise. */
  function Search(line: string, key: string): Option<string>
  {
    match SearchFrom(line, key, 0)
    case None => None
    case Some(i) => Some(CaptureAt(line, key, i))
  }

  /** Without a ')' the pattern cannot match: an opener left unclosed yields nothing. */
  lemma SearchNeedsClose(line: string, key: string)
    requires ')' !in line
    ensures Search(line, key) == None
  {
    SearchSpec(line, key);
  }

  /** Search finds nothing exactly when the pattern matches nowhere, and a value
      it finds is non-empty and holds no ')'. */
  lemma SearchSpec(line: string, key: string)
    ensures Search(line, key).None? <==> forall i: nat :: !MatchesAt(line, key, i)
    ensures Search(line, key).Some? ==> Search(line, key).value != [] && ')' !in Search(line, key).value
  {
    SearchFromSpec(line, key, 0);
    if SearchFrom(line, key, 0).Some? {
      CaptureAtSpec(line, key, SearchFrom(line, key, 0).value);
    }
  }

  /** The capture at `i` is the run up to the first ')' after the opener. */
  lemma CaptureUnique(line: string, key: string, i: nat, v: string)
    requires MatchesAt(line, key, i)
    requires ')' !in v
    requires i + |key| + |v| < |line| && line[i + |key| + |v|] == ')'
    requires line[i + |key|..i + |key| + |v|] == v
    ensures CaptureAt(line, key, i) == v
  {
    CaptureAtSpec(line, key, i);
  }

  /** Search returns group 1 of the leftmost match. */
  lemma SearchLeftmost(line: string, key: string, i: nat)
    requires MatchesAt(line, key, i)
    requires forall j: nat :: j < i ==> !MatchesAt(line, key, j)
    ensures Search(line, key) == Some(CaptureAt(line, key, i))
  {
    SearchFromSpec(line, key, 0);
  }

  /** The value is taken verbatim: the text between the leftmost complete
      fragment's opener and its closing ')'. */
  lemma SearchFragment(pre: string, key: string, v: string, post: string)
    requires v != [] && ')' !in v
    requires forall j: nat :: j < |pre| ==> !MatchesAt(pre + key + v + ")" + post, key, j)
    ensures Search(pre + key + v + ")" + post, key) == Some(v)
  {
    var line := pre + key + v + ")" + post;
    var i := |pre|;
    var e := i + |key| + |v|;
    assert line[i..i + |key|] == key;
    assert line[i + |key|..e] == v;
    assert line[e] == ')';
    assert line[i + |key|] == v[0];
    assert ')' in line[i + |key|..] by {
      assert line[i + |key|..][|v|] == ')';
    }
    assert MatchesAt(line, key, i);
    CaptureUnique(line, key, i, v);
    SearchLeftmost(line, key, i);
  }

  /** A line without any '(' before the fragment yields the fragment's value. */
  lemma SearchFragmentAfterPlainText(pre: string, key: string, v: string, post: string)
    requires IsKey(key)
    requires '(' !in pre
    requires v != [] && ')' !in v
    ensures Search(pre + key + v + ")" + post, key) == Some(v)
  {
    var line := pre + key + v + ")" + post;
    forall j: nat | j < |pre|
      ensures !MatchesAt(line, key, j)
    {
    }
    SearchFragment(pre, key, v, post);
  }

  /** A match of `a + b` that starts before a match of `a` ends is a match of `a`. */
  lemma MatchOfPrefix(a: string, b: string, key: string, j: nat, e: nat)
    requires MatchesAt(a + b, key, j)
    requires j + |key| < e < |a| && a[e] == ')'
    ensures MatchesAt(a, key, j)
  {
    var line := a + b;
    assert line[j..j + |key|] == a[j..j + |key|];
    assert a[j + |key|..][e - j - |key|] == ')';
  }

  /** Once a complete match is present, text appended after the line cannot
      change what the search returns. */
  lemma SearchAppend(a: string, b: string, key: string)
    requires Search(a, key).Some?
    ensures Search(a + b, key) == Search(a, key)
  {
    SearchFromSpec(a, key, 0);
    var i := SearchFrom(a, key, 0).value;
    CaptureAtSpec(a, key, i);
    var v := CaptureAt(a, key, i);
    var line := a + b;
    var e := i + |key| + |v|;
    assert line[i..i + |key|] == a[i..i + |key|];
    assert line[i + |key|..e] == a[i + |key|..e];
    assert ')' in line[i + |key|..] by {
      assert line[i + |key|..][e - i - |key|] == ')';
    }
    assert MatchesAt(line, key, i);
    forall j: nat | j < i
      ensures !MatchesAt(line, key, j)
    {
      if MatchesAt(line, key, j) {
        MatchOfPrefix(a, b, key, j, e);
      }
    }
    CaptureUnique(line, key, i, v);
    SearchLeftmost(line, key, i);
  }

  /** Whitespace in front of a line cannot start a match ... */
  lemma NoMatchInSpace(w: string, s: string, key: string, j: nat)
    requires IsKey(key) && AllSpace(w) && j < |w|
    ensures !MatchesAt(w + s, key, j)
  {
  }

  /** ... and it only shifts the positions of the matches after it. */
  lemma MatchShift(w: string, s: string, key: string, j: nat)
    ensures MatchesAt(w + s, key, |w| + j) <==> MatchesAt(s, key, j)
  {
    var line := w + s;
    if |w| + j + |key| < |line| {
      assert line[|w| + j..|w| + j + |key|] == s[j..j + |key|];
      assert line[|w| + j + |key|..] == s[j + |key|..];
    }
  }

  lemma SearchSpacePrefix(w: string, s: string, key: string)
    requires IsKey(key) && AllSpace(w)
    ensures Search(w + s, key) == Search(s, key)
  {
    SearchFromSpec(s, key, 0);
    match SearchFrom(s, key, 0)
    case None => SearchSpacePrefixNone(w, s, key);
    case Some(i) => SearchSpacePrefixSome(w, s, key, i);
  }

  lemma SearchSpacePrefixNone(w: string, s: string, key: string)
    requires IsKey(key) && AllSpace(w)
    requires forall j: nat :: !MatchesAt(s, key, j)
    ensures Search(w + s, key) == None == Search(s, key)
  {
    forall j: nat
      ensures !MatchesAt(w + s, key, j)
    {
      if j < |w| {
        NoMatchInSpace(w, s, key, j);
      } else {
        MatchShift(w, s, key, j - |w|);
      }
    }
    SearchSpec(w + s, key);
    SearchSpec(s, key);
  }

  lemma SearchSpacePrefixSome(w: string, s: string, key: string, i: nat)
    requires IsKey(key) && AllSpace(w)
    requires MatchesAt(s, key, i)
    requires forall j: nat :: j < i ==> !MatchesAt(s, key, j)
    ensures Search(w + s, key) == Some(CaptureAt(s, key, i)) == Search(s, key)
  {
    CaptureAtSpec(s, key, i);
    var line := w + s;
    var v := CaptureAt(s, key, i);
    var n := |w| + i;
    MatchShift(w, s, key, i);
    forall j: nat | j < n
      ensures !MatchesAt(line, key, j)
    {
      if j < |w| {
        NoMatchInSpace(w, s, key, j);
      } else {
        MatchShift(w, s, key, j - |w|);
      }
    }
    assert line[n + |key|..n + |key| + |v|] == s[i + |key|..i + |key| + |v|];
    CaptureUnique(line, key, n, v);
    SearchLeftmost(line, key, n);
    SearchLeftmost(s, key, i);
  }

  /** A match of a line followed by whitespace is a match of the line itself,
      as whitespace holds no ')'. */
  lemma MatchBeforeSpace(s: string, w: string, key: string, j: nat)
    requires AllSpace(w) && MatchesAt(s + w, key, j)
    ensures MatchesAt(s, key, j)
  {
    var line := s + w;
    CloseParenSpec(line, j + |key|);
    var k := CloseParen(line, j + |key|);
    assert k < |s|;
    MatchOfPrefix(s, w, key, j, k);
  }

  /** Whitespace after a line cannot complete a match. */
  lemma SearchSpaceSuffix(s: string, w: string, key: string)
    requires AllSpace(w)
    ensures Search(s + w, key) == Search(s, key)
  {
    if Search(s, key).Some? {
      SearchAppend(s, w, key);
    } else {
      SearchSpec(s, key);
      forall j: nat
        ensures !MatchesAt(s + w, key, j)
      {
        if MatchesAt(s + w, key, j) {
          MatchBeforeSpace(s, w, key, j);
        }
      }
      SearchSpec(s + w, key);
    }
  }

  // ---------------------------------------------------------------------
  // parse_log_line
  // ---------------------------------------------------------------------

  /** Python truthiness of an optional string: present and non-empty. */
  predicate Truthy(v: Option<string>)
  {
    v.Some? && v.value != []
  }

  /** `parse_log_line`: the two independent searches, and a record only when
      one of them found something. */
  function ParseLine(line: string): (r: Option<LogRecord>)
    ensures r.Some? ==> r.value.host.Some? || r.value.user.Some?
  {
    var host := Search(line, HostKey);
    var user := Search(line, UserKey);
    if Truthy(host) || Truthy(user) then Some(LogRecord(host, user)) else None
  }

  /** No record exactly when neither pattern matches; otherwise the record holds
      both search results, at least one of them present. As a found value is
      never empty, the truthiness test of the source is a presence test. */
  lemma ParseLineSpec(line: string)
    ensures ParseLine(line).None? <==> Search(line, HostKey).None? && Search(line, UserKey).None?
    ensures ParseLine(line).Some? ==>
              ParseLine(line).value.host == Search(line, HostKey) &&
              ParseLine(line).value.user == Search(line, UserKey)
    ensures ParseLine(line).Some? ==> ParseLine(line).value.host.Some? || ParseLine(line).value.user.Some?
  {
    SearchSpec(line, HostKey);
    SearchSpec(line, UserKey);
  }

  /** A present HOST or USER value is non-empty and holds no ')'. */
  lemma ParseLineValues(line: string)
    requires ParseLine(line).Some?
    ensures var r := ParseLine(line).value;
      (r.host.Some? ==> r.host.value != [] && ')' !in r.host.value) &&
      (r.user.Some? ==> r.user.value != [] && ')' !in r.user.value)
  {
    SearchSpec(line, HostKey);
    SearchSpec(line, UserKey);
  }

  /** The HOST field of the result, missing when no record is produced. */
  function HostOf(r: Option<LogRecord>): Option<string>
  {
    if r.Some? then r.value.host else None
  }

  function UserOf(r: Option<LogRecord>): Option<string>
  {
    if r.Some? then r.value.user else None
  }

  /** Each field is decided by its own search alone: two lines on which the
      HOST search agrees give the same HOST, whatever their USER fragments. */
  lemma HostIndependentOfUser(l1: string, l2: string)
    requires Search(l1, HostKey) == Search(l2, HostKey)
    ensures HostOf(ParseLine(l1)) == HostOf(ParseLine(l2))
    ensures HostOf(ParseLine(l1)) == Search(l1, HostKey)
  {
    ParseLineSpec(l1);
    ParseLineSpec(l2);
  }

  lemma UserIndependentOfHost(l1: string, l2: string)
    requires Search(l1, UserKey) == Search(l2, UserKey)
    ensures UserOf(ParseLine(l1)) == UserOf(ParseLine(l2))
    ensures UserOf(ParseLine(l1)) == Search(l1, UserKey)
  {
    ParseLineSpec(l1);
    ParseLineSpec(l2);
  }

  /** Leading and trailing whitespace never changes the record of a line. */
  lemma {:induction false} ParseLinePadded(w1: string, s: string, w2: string)
    requires AllSpace(w1) && AllSpace(w2)
    ensures ParseLine(w1 + s + w2) == ParseLine(s)
  {
    KeysAreKeys();
    assert w1 + s + w2 == w1 + (s + w2);
    SearchSpacePrefix(w1, s + w2, HostKey);
    SearchSpacePrefix(w1, s + w2, UserKey);
    SearchSpaceSuffix(s, w2, HostKey);
    SearchSpaceSuffix(s, w2, UserKey);
  }

  /** In particular the strip in `parse_file` does not change any record. */
  lemma ParseLineStrip(line: string)
    ensures ParseLine(Strip(line)) == ParseLine(line)
  {
    var w1, w2 := StripSplits(line);
    ParseLinePadded(w1, Strip(line), w2);
  }

  /** Before the USER opener of a line that begins with plain text and a HOST
      fragment, no USER match can start. */
  lemma NoUserMatchInHostPart(a: string, h: string, rest: string, j: nat)
    requires '(' !in a && '(' !in h
    requires j < |a + HostKey + h|
    ensures !MatchesAt(a + HostKey + h + rest, UserKey, j)
  {
    var line := a + HostKey + h + rest;
    if j + |UserKey| < |line| {
      assert line[j..j + |UserKey|][0] == line[j];
      assert line[j..j + |UserKey|][1] == line[j + 1];
      if j < |a| {
        assert line[j] == a[j];
      } else if j < |a| + |HostKey| {
        assert line[j] == HostKey[j - |a|];
        assert line[j + 1] == (HostKey + h + rest)[j - |a| + 1];
      } else {
        assert line[j] == h[j - |a| - |HostKey|];
      }
    }
  }

  /** A line with a HOST fragment followed by a USER fragment: both values are
      extracted verbatim. */
  lemma ParseLineHostThenUser(a: string, h: string, u: string, c: string)
    requires '(' !in a
    requires h != [] && ')' !in h && '(' !in h
    requires u != [] && ')' !in u
    ensures ParseLine(a + HostKey + h + ")" + UserKey + u + ")" + c)
         == Some(LogRecord(Some(h), Some(u)))
  {
    var line := a + HostKey + h + ")" + UserKey + u + ")" + c;
    assert Search(line, HostKey) == Some(h) by {
      KeysAreKeys();
      assert line == a + HostKey + h + ")" + (UserKey + u + ")" + c);
      SearchFragmentAfterPlainText(a, HostKey, h, UserKey + u + ")" + c);
    }
    assert Search(line, UserKey) == Some(u) by {
      UserAfterHost(a, h, u, c);
    }
  }

  lemma UserAfterHost(a: string, h: string, u: string, c: string)
    requires '(' !in a && ')' !in h && '(' !in h
    requires u != [] && ')' !in u
    ensures Search(a + HostKey + h + ")" + UserKey + u + ")" + c, UserKey) == Some(u)
  {
    var line := a + HostKey + h + ")" + UserKey + u + ")" + c;
    var pre := a + HostKey + h + ")";
    assert line == pre + UserKey + u + ")" + c;
    forall j: nat | j < |pre|
      ensures !MatchesAt(line, UserKey, j)
    {
      if j < |a + HostKey + h| {
        assert line == a + HostKey + h + (")" + UserKey + u + ")" + c);
        NoUserMatchInHostPart(a, h, ")" + UserKey + u + ")" + c, j);
      } else {
        assert line[j] == ')';
      }
    }
    SearchFragment(pre, UserKey, u, c);
  }

  /** The example line of the log format, `... (HOST=srv01)(USER=jdoe000123) ...`,
      written with the two pattern openers. */
  lemma ParseLineExample()
    ensures ParseLine("... " + HostKey + "srv01" + ")" + UserKey + "jdoe000123" + ")" + " ...")
         == Some(LogRecord(Some("srv01"), Some("jdoe000123")))
  {
    ParseLineHostThenUser("... ", "srv01", "jdoe000123", " ...");
  }

  /** A HOST value runs to the first ')', so a USER fragment placed inside an
      unterminated HOST fragment is captured by both searches. */
  lemma ParseLineUserInsideHost(a: string, h: string, u: string, c: string)
    requires '(' !in a
    requires ')' !in h && '(' !in h
    requires u != [] && ')' !in u
    ensures ParseLine(a + HostKey + h + UserKey + u + ")" + c)
         == Some(LogRecord(Some(h + UserKey + u), Some(u)))
  {
    var line := a + HostKey + h + UserKey + u + ")" + c;
    assert Search(line, HostKey) == Some(h + UserKey + u) by {
      KeysAreKeys();
      assert line == a + HostKey + (h + UserKey + u) + ")" + c;
      assert ')' !in h + UserKey + u;
      SearchFragmentAfterPlainText(a, HostKey, h + UserKey + u, c);
    }
    assert Search(line, UserKey) == Some(u) by {
      UserInsideHost(a, h, u, c);
    }
  }

  lemma UserInsideHost(a: string, h: string, u: string, c: string)
    requires '(' !in a && ')' !in h && '(' !in h
    requires u != [] && ')' !in u
    ensures Search(a + HostKey + h + UserKey + u + ")" + c, UserKey) == Some(u)
  {
    var line := a + HostKey + h + UserKey + u + ")" + c;
    var pre := a + HostKey + h;
    assert line == pre + UserKey + u + ")" + c;
    forall j: nat | j < |pre|
      ensures !MatchesAt(line, UserKey, j)
    {
      assert line == a + HostKey + h + (UserKey + u + ")" + c);
      NoUserMatchInHostPart(a, h, UserKey + u + ")" + c, j);
    }
    SearchFragment(pre, UserKey, u, c);
  }

  /** A line without any '(' yields no record. */
  lemma ParseLineNoParen(line: string)
    requires '(' !in line
    ensures ParseLine(line) == None
  {
    KeysAreKeys();
    forall key: string, i: nat | IsKey(key) && i + |key| < |line|
      ensures !MatchesAt(line, key, i)
    {
      assert line[i..i + |key|][0] == line[i];
    }
    SearchSpec(line, HostKey);
    SearchSpec(line, UserKey);
  }

  lemma ParseLineEmpty()
    ensures ParseLine("") == None
  {
    assert forall key: string, i: nat :: !MatchesAt("", key, i);
  }

  // ---------------------------------------------------------------------
  // parse_file
  // ---------------------------------------------------------------------

  /** The records `parse_file` collects from the lines of a file: each line is
      stripped, blank lines are skipped, and the record of every other line
      that yields one is appended. */
  function ParseLines(lines: seq<string>): (r: seq<LogRecord>)
    ensures |r| <= |lines|
  {
    if lines == [] then []
    else
      var prev := ParseLines(lines[..|lines| - 1]);
      var line := Strip(lines[|lines| - 1]);
      if line == [] then prev
      else
        match ParseLine(line)
        case None => prev
        case Some(rec) => prev + [rec]
  }

  /** `parse_file` over the lines of an already opened file. */
  method ParseFile(lines: seq<string>) returns (records: seq<LogRecord>)
    ensures records == ParseLines(lines)
  {
    records := [];
    for n := 0 to |lines|
      invariant records == ParseLines(lines[..n])
    {
      assert lines[..n + 1][..n] == lines[..n];
      var line := Strip(lines[n]);
      if line == [] {
        continue;
      }
      var parsed := ParseLine(line);
      if parsed.Some? {
        records := records + [parsed.value];
      }
    }
    assert lines[..|lines|] == lines;
  }

  /** `process_and_save`: the parsed records, and whether the CSV file is
      written, which happens only when there is at least one record. */
  method ProcessAndSave(lines: seq<string>) returns (records: seq<LogRecord>, written: bool)
    ensures records == ParseLines(lines)
    ensures written <==> records != []
  {
    records := ParseFile(lines);
    written := records != [];
  }

  /** The positions of the lines that yield a record, in increasing order. */
  function MatchingLines(lines: seq<string>): (idx: seq<nat>)
    ensures forall k :: 0 <= k < |idx| ==> idx[k] < |lines| && ParseLine(lines[idx[k]]).Some?
    ensures forall k, m :: 0 <= k < m < |idx| ==> idx[k] < idx[m]
    ensures forall i :: 0 <= i < |lines| && ParseLine(lines[i]).Some? ==> i in idx
  {
    if lines == [] then []
    else
      var n := |lines| - 1;
      var prev := MatchingLines(lines[..n]);
      assert forall i :: 0 <= i < n ==> lines[..n][i] == lines[i];
      prev + (if ParseLine(lines[n]).Some? then [n] else [])
  }

  /** `parse_file` returns exactly one record per line that yields one, in line
      order, and that record is the one the line gives unstripped. */
  lemma {:induction false} ParseLinesInOrder(lines: seq<string>)
    ensures |ParseLines(lines)| == |MatchingLines(lines)|
    ensures forall k :: 0 <= k < |ParseLines(lines)| ==>
              ParseLines(lines)[k] == ParseLine(lines[MatchingLines(lines)[k]]).value
  {
    if lines != [] {
      var n := |lines| - 1;
      var init := lines[..n];
      ParseLinesInOrder(init);
      ParseLinesLast(lines);
      var prev, idx := ParseLines(init), MatchingLines(init);
      assert forall k :: 0 <= k < |idx| ==> lines[idx[k]] == init[idx[k]];
    }
  }

  /** The last line contributes the record it gives unstripped, if any. */
  lemma ParseLinesLast(lines: seq<string>)
    requires lines != []
    ensures var n := |lines| - 1;
      var r := ParseLine(lines[n]);
      ParseLines(lines) == ParseLines(lines[..n]) + (if r.Some? then [r.value] else [])
  {
    var n := |lines| - 1;
    ParseLineStrip(lines[n]);
    if Strip(lines[n]) == [] {
      ParseLineEmpty();
    }
  }

  /** Parsing the lines of two consecutive chunks of a file gives the records of
      the first chunk followed by those of the second. */
  lemma {:induction false} ParseLinesAppend(a: seq<string>, b: seq<string>)
    ensures ParseLines(a + b) == ParseLines(a) + ParseLines(b)
  {
    if b == [] {
      assert a + b == a;
    } else {
      var n := |b| - 1;
      assert (a + b)[..|a + b| - 1] == a + b[..n];
      assert (a + b)[|a + b| - 1] == b[n];
      ParseLinesAppend(a, b[..n]);
    }
  }

  /** The records of one line in the middle of a file. */
  lemma ParseLinesMiddle(a: seq<string>, line: string, b: seq<string>)
    ensures var r := ParseLine(line);
      ParseLines(a + [line] + b) == ParseLines(a) + (if r.Some? then [r.value] else []) + ParseLines(b)
  {
    ParseLinesAppend(a + [line], b);
    ParseLinesSnoc(a, line);
  }

  lemma ParseLinesSnoc(a: seq<string>, line: string)
    ensures var r := ParseLine(line);
      ParseLines(a + [line]) == ParseLines(a) + (if r.Some? then [r.value] else [])
  {
    ParseLinesLast(a + [line]);
    assert (a + [line])[..|a|] == a;
  }

  /** A line that is empty after stripping contributes nothing. */
  lemma ParseLinesSkipsBlank(a: seq<string>, line: string, b: seq<string>)
    requires AllSpace(line)
    ensures ParseLines(a + [line] + b) == ParseLines(a + b)
  {
    ParseLinesMiddle(a, line, b);
    ParseLinesAppend(a, b);
    StripSpec(line);
    ParseLineStrip(line);
    ParseLineEmpty();
  }

  /** Leading and trailing whitespace on a line never changes the output. */
  lemma ParseLinesPadded(a: seq<string>, w1: string, line: string, w2: string, b: seq<string>)
    requires AllSpace(w1) && AllSpace(w2)
    ensures ParseLines(a + [w1 + line + w2] + b) == ParseLines(a + [line] + b)
  {
    ParseLinesMiddle(a, w1 + line + w2, b);
    ParseLinesMiddle(a, line, b);
    ParseLinePadded(w1, line, w2);
  }
}
