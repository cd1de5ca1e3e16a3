/**
 * The URL feature extractor of the backend: the fixed word and shortener
 * lists, the IPv4-shape test and the record of lexical and host features.
 * The URL parser and the public-suffix lookup are outside the model: their
 * results (scheme, host name, path, registered domain) are inputs, and so is
 * the Shannon entropy of a non-empty string.
 */
module UrlFeatures {
  import opened PyStr

  const SuspiciousWords: seq<string> :=
    ["login", "secure", "update", "verify", "account", "bank", "signin", "password"]

  const ShortenerDomains: seq<string> := ["bit.ly", "tinyurl.com", "t.co", "goo.gl", "is.gd"]

  /** What `urlparse` gives for the stripped URL; a missing host name is "". */
  datatype ParsedUrl = ParsedUrl(scheme: string, hostname: string, path: string)

  datatype URLFeatures = URLFeatures(
    urlLength: nat,
    hostLength: nat,
    hostEntropy: real,
    hasIp: bool,
    hasAtSymbol: bool,
    dotCount: nat,
    suspiciousWordCount: nat,
    isHttps: bool,
    usesShortener: bool,
    pathTokenCount: nat)

  /** `simple_entropy`: the empty string has entropy 0; any other string gets the value
      of the Shannon entropy function passed in. */
  function SimpleEntropy(s: string, shannon: string -> real): (e: real)
    ensures s == "" ==> e == 0.0
    ensures s != "" ==> e == shannon(s)
  {
    if s == "" then 0.0 else shannon(s)
  }

  // ---- looks_like_ip ----

  /** Number of leading decimal digits. */
  function DigitRun(s: string): (n: nat)
    ensures n <= |s|
    ensures forall i :: 0 <= i < n ==> IsDigit(s[i])
    ensures n < |s| ==> !IsDigit(s[n])
  {
    if s != [] && IsDigit(s[0]) then 1 + DigitRun(s[1..]) else 0
  }

  /** Full match of `\d{1,3}` followed by `groups` copies of `\.\d{1,3}`. Digits and the
      dot are disjoint, so the regular expression never needs to backtrack: a group
      matches exactly when the run of leading digits is 1 to 3 long and is followed by
      a dot (or, for the last group, by the end of the text). */
  function MatchOctets(s: string, groups: nat): bool
    decreases groups
  {
    var n := DigitRun(s);
    1 <= n <= 3 &&
    if groups == 0 then n == |s|
    else n < |s| && s[n] == '.' && MatchOctets(s[n + 1..], groups - 1)
  }

  /** `looks_like_ip`: `bool(hostname)` and `re.fullmatch(r'\d{1,3}(\.\d{1,3}){3}', hostname)`. */
  function LooksLikeIp(host: string): (r: bool)
    ensures r ==> 7 <= |host| <= 15
  {
    MatchOctetsLength(host, 3);
    host != "" && MatchOctets(host, 3)
  }

  /** A text matching one group plus `groups` dotted groups has 2·groups+1 to 4·groups+3
      characters. */
  lemma {:induction false} MatchOctetsLength(s: string, groups: nat)
    ensures MatchOctets(s, groups) ==> 2 * groups + 1 <= |s| <= 4 * groups + 3
    decreases groups
  {
    if groups > 0 && MatchOctets(s, groups) {
      var n := DigitRun(s);
      MatchOctetsLength(s[n + 1..], groups - 1);
    }
  }

  /** One to three decimal digits. */
  predicate IsOctetGroup(g: string) {
    1 <= |g| <= 3 && forall i :: 0 <= i < |g| ==> IsDigit(g[i])
  }

  /** The independent reading of the test: the host is exactly `groups + 1` dot-separated
      groups of one to three digits. */
  predicate DottedGroups(s: string, groups: nat) {
    var parts := Split(s, '.');
    |parts| == groups + 1 && forall k :: 0 <= k < |parts| ==> IsOctetGroup(parts[k])
  }

  lemma DigitsHaveNoDot(s: string)
    requires forall i :: 0 <= i < |s| ==> IsDigit(s[i])
    ensures '.' !in s
  {
  }

  /** A leading group is an octet group exactly when the digit run is 1 to 3 long. */
  lemma LeadingGroup(s: string)
    ensures IsOctetGroup(s[..DigitRun(s)]) <==> 1 <= DigitRun(s) <= 3
  {
  }

  /** When the digit run stops at a character other than a dot, the first part of the
      split is not an octet group. */
  lemma FirstPartNotOctet(s: string)
    requires DigitRun(s) < |s| && s[DigitRun(s)] != '.'
    ensures !IsOctetGroup(Split(s, '.')[0])
  {
    var n := DigitRun(s);
    var first := Split(s, '.')[0];
    SplitFirstPart(s, '.');
    assert n < |first| && first[n] == s[n];
  }

  lemma DottedGroupsCons(s: string, n: nat, groups: nat)
    requires n < |s| && s[n] == '.' && '.' !in s[..n] && groups > 0
    ensures DottedGroups(s, groups) <==> IsOctetGroup(s[..n]) && DottedGroups(s[n + 1..], groups - 1)
  {
    SplitAtFirst(s, '.', n);
    var p := Split(s, '.');
    var q := Split(s[n + 1..], '.');
    assert p == [s[..n]] + q;
    assert p[0] == s[..n] && |p| == |q| + 1;
    if DottedGroups(s, groups) {
      forall k | 0 <= k < |q| ensures IsOctetGroup(q[k]) {
        assert q[k] == p[k + 1];
      }
    }
    if IsOctetGroup(s[..n]) && DottedGroups(s[n + 1..], groups - 1) {
      forall k | 0 <= k < |p| ensures IsOctetGroup(p[k]) {
        if k > 0 { assert p[k] == q[k - 1]; }
      }
    }
  }

  lemma {:induction false} MatchOctetsIff(s: string, groups: nat)
    ensures MatchOctets(s, groups) <==> DottedGroups(s, groups)
    decreases groups
  {
    var n := DigitRun(s);
    if n < |s| && s[n] == '.' {
      DigitsHaveNoDot(s[..n]);
      if groups > 0 {
        MatchOctetsIff(s[n + 1..], groups - 1);
        LeadingGroup(s);
        DottedGroupsCons(s, n, groups);
      } else {
        DotTooMany(s, n);
      }
    } else if n == |s| {
      LeadingGroup(s);
      WholeRun(s);
      assert s[..n] == s;
      assert Split(s, '.') == [s];
      assert MatchOctets(s, groups) <==> groups == 0 && IsOctetGroup(s);
      assert Split(s, '.')[0] == s;
      assert DottedGroups(s, groups) <==> groups == 0 && IsOctetGroup(s);
    } else {
      FirstPartNotOctet(s);
    }
  }

  /** A dot after the run when no group is left: more parts than one. */
  lemma DotTooMany(s: string, n: nat)
    requires n < |s| && s[n] == '.' && '.' !in s[..n]
    ensures !DottedGroups(s, 0)
  {
    SplitAtFirst(s, '.', n);
  }

  /** A string of digits only is one part, the run itself. */
  lemma WholeRun(s: string)
    requires DigitRun(s) == |s|
    ensures Split(s, '.') == [s[..DigitRun(s)]]
  {
    DigitsHaveNoDot(s[..|s|]);
    assert s[..|s|] == s;
    SplitNoSeparator(s, '.');
  }

  /** `looks_like_ip(h)` holds exactly when `h` is four dot-separated groups of one to three
      digits: no octet range check, no IPv6, and the empty host is refused. */
  lemma LooksLikeIpIff(host: string)
    ensures LooksLikeIp(host) <==> DottedGroups(host, 3)
  {
    MatchOctetsIff(host, 3);
    if host == "" {
      assert Split(host, '.') == [""];
    }
  }

  // ---- word and suffix tests ----

  /** `sum(1 for w in words if w in text)`: each listed word counts at most once; the
      count is zero exactly when no listed word occurs, and full exactly when all do. */
  function CountPresent(words: seq<string>, text: string): (n: nat)
    ensures n <= |words|
    ensures n == 0 <==> forall k :: 0 <= k < |words| ==> !Contains(text, words[k])
    ensures n == |words| <==> forall k :: 0 <= k < |words| ==> Contains(text, words[k])
  {
    if words == [] then 0
    else (if Contains(text, words[0]) then 1 else 0) + CountPresent(words[1..], text)
  }

  /** `any(host.endswith(s) for s in domains)`. */
  predicate AnyEndsWith(host: string, domains: seq<string>) {
    exists k :: 0 <= k < |domains| && EndsWith(host, domains[k])
  }

  /** The number of non-empty parts of a split. */
  function CountNonEmpty(parts: seq<string>): (n: nat)
    ensures n <= |parts|
  {
    if parts == [] then 0 else (if parts[0] != "" then 1 else 0) + CountNonEmpty(parts[1..])
  }

  /** `len([p for p in path.split("/") if p])`. */
  function PathTokenCount(path: string): nat {
    CountNonEmpty(Split(path, '/'))
  }

  /** The independent count of path segments: the positions holding a non-slash character
      that starts the text (when `afterSlash`) or follows a slash. */
  function SegmentStarts(s: string, afterSlash: bool): nat {
    if s == [] then 0
    else (if afterSlash && s[0] != '/' then 1 else 0) + SegmentStarts(s[1..], s[0] == '/')
  }

  lemma {:induction false} SegmentStartsSplit(s: string, afterSlash: bool)
    ensures SegmentStarts(s, afterSlash)
      == CountNonEmpty(Split(s, '/')) - (if !afterSlash && Split(s, '/')[0] != "" then 1 else 0)
  {
    if s != [] {
      SegmentStartsSplit(s[1..], s[0] == '/');
      var rest := Split(s[1..], '/');
      if s[0] == '/' {
        assert Split(s, '/') == [""] + rest;
        assert ([""] + rest)[1..] == rest;
      } else {
        var p := Split(s, '/');
        assert p == [[s[0]] + rest[0]] + rest[1..];
        assert p[1..] == rest[1..];
        assert CountNonEmpty(rest) == (if rest[0] != "" then 1 else 0) + CountNonEmpty(rest[1..]);
      }
    }
  }

  /** The path token count is the number of maximal runs of non-slash characters. */
  lemma PathTokenCountIsSegments(path: string)
    ensures PathTokenCount(path) == SegmentStarts(path, true)
  {
    SegmentStartsSplit(path, true);
  }

  // ---- extract_features ----

  /** `extract_features`. The URL is stripped first; `parsed` and `registeredDomain` are what
      `urlparse` and `tldextract` give for the stripped URL (an empty registered domain
      falls back to the host); `shannon` is the entropy of a non-empty string. */
  function ExtractFeatures(url: string, parsed: ParsedUrl, registeredDomain: string,
                           shannon: string -> real): (f: URLFeatures)
    ensures f.urlLength == |Strip(url)| <= |url|
    ensures f.hostLength == |if registeredDomain == "" then parsed.hostname else registeredDomain|
    ensures registeredDomain == "" && parsed.hostname == "" ==> f.hostLength == 0 && f.hostEntropy == 0.0
    ensures f.hasIp <==> DottedGroups(parsed.hostname, 3)
    ensures f.hasIp ==> f.dotCount == 3
    ensures f.hasAtSymbol <==> '@' in url
    ensures f.dotCount == |Split(parsed.hostname, '.')| - 1
    ensures f.hostEntropy == SimpleEntropy(if registeredDomain == "" then parsed.hostname else registeredDomain, shannon)
    ensures f.suspiciousWordCount == CountPresent(SuspiciousWords, Lower(Strip(url))) <= |SuspiciousWords|
    ensures f.isHttps <==> parsed.scheme == "https"
    ensures f.usesShortener <==> AnyEndsWith(parsed.hostname, ShortenerDomains)
    ensures parsed.hostname == "" ==> !f.hasIp && !f.usesShortener && f.dotCount == 0
    ensures f.pathTokenCount == SegmentStarts(parsed.path, true)
  {
    var u := Strip(url);
    var host := parsed.hostname;
    var apex := if registeredDomain == "" then host else registeredDomain;
    StripAtSign(url);
    LooksLikeIpIff(host);
    CountCharSplit(host, '.');
    PathTokenCountIsSegments(parsed.path);
    NoShortenerForEmptyHost();
    URLFeatures(
      urlLength := |u|,
      hostLength := |apex|,
      hostEntropy := SimpleEntropy(apex, shannon),
      hasIp := LooksLikeIp(host),
      hasAtSymbol := '@' in u,
      dotCount := if host == "" then 0 else CountChar(host, '.'),
      suspiciousWordCount := CountPresent(SuspiciousWords, Lower(u)),
      isHttps := parsed.scheme == "https",
      usesShortener := AnyEndsWith(host, ShortenerDomains),
      pathTokenCount := PathTokenCount(parsed.path))
  }

  /** Stripping removes whitespace only, so it never removes an `@`. */
  lemma StripAtSign(url: string)
    ensures '@' in Strip(url) <==> '@' in url
  {
    var lo := StripIsSlice(url);
    var r := Strip(url);
    if '@' in url {
      var i :| 0 <= i < |url| && url[i] == '@';
      assert lo <= i < lo + |r|;
      assert r[i - lo] == '@';
    }
  }

  lemma NoShortenerForEmptyHost()
    ensures !AnyEndsWith("", ShortenerDomains)
  {
    forall k | 0 <= k < |ShortenerDomains| ensures |ShortenerDomains[k]| > 0 {
    }
  }

  // ---- concrete cases ----

  lemma {:induction false} DigitRunOfGroup(g: string, rest: string)
    requires IsOctetGroup(g) && (rest == [] || !IsDigit(rest[0]))
    ensures DigitRun(g + rest) == |g|
    decreases |g|
  {
    if |g| > 1 {
      assert (g + rest)[1..] == g[1..] + rest;
      DigitRunOfGroup(g[1..], rest);
    } else {
      assert (g + rest)[1..] == rest;
    }
  }

  /** A leading octet group and its dot are consumed by one step of the matcher. */
  lemma MatchOctetsCons(g: string, rest: string, groups: nat)
    requires IsOctetGroup(g) && groups > 0
    ensures MatchOctets(g + "." + rest, groups) == MatchOctets(rest, groups - 1)
  {
    DigitRunOfGroup(g, "." + rest);
    assert g + "." + rest == g + ("." + rest);
    assert (g + "." + rest)[|g| + 1..] == rest;
  }

  lemma MatchOctetsLast(g: string)
    requires IsOctetGroup(g)
    ensures MatchOctets(g, 0) && !MatchOctets(g, 1)
  {
    DigitRunOfGroup(g, "");
    assert g + "" == g;
  }

  lemma FourGroupsLookLikeIp(a: string, b: string, c: string, d: string)
    requires IsOctetGroup(a) && IsOctetGroup(b) && IsOctetGroup(c) && IsOctetGroup(d)
    ensures LooksLikeIp(a + "." + b + "." + c + "." + d)
  {
    assert a + "." + b + "." + c + "." + d == a + "." + (b + "." + (c + "." + d));
    MatchOctetsCons(a, b + "." + (c + "." + d), 3);
    assert b + "." + (c + "." + d) == b + "." + (c + "." + d);
    MatchOctetsCons(b, c + "." + d, 2);
    MatchOctetsCons(c, d, 1);
    MatchOctetsLast(d);
  }

  /** No octet range check: "999.999.999.999" looks like an IP. */
  lemma LooksLikeIpOutOfRange()
    ensures LooksLikeIp("999.999.999.999")
  {
    assert "999" + "." + "999" + "." + "999" + "." + "999" == "999.999.999.999";
    FourGroupsLookLikeIp("999", "999", "999", "999");
  }

  /** Three groups, or the empty host, do not look like an IP. */
  lemma LooksLikeIpTooShort()
    ensures !LooksLikeIp("1.2.3")
    ensures !LooksLikeIp("")
  {
    assert "1.2.3" == "1" + "." + ("2" + "." + "3");
    MatchOctetsCons("1", "2" + "." + "3", 3);
    MatchOctetsCons("2", "3", 2);
    MatchOctetsLast("3");
  }

  /** The shortener test is a bare suffix test with no label boundary. */
  lemma ShortenerWithoutLabelBoundary()
    ensures AnyEndsWith("microsoft.co", ShortenerDomains)
    ensures !AnyEndsWith("", ShortenerDomains)
  {
    assert "microsoft.co"[8..] == "t.co";
    assert EndsWith("microsoft.co", ShortenerDomains[2]);
    NoShortenerForEmptyHost();
  }

  const WordyUrl: string := "http://secure-login-verify-account.com"

  lemma WordyUrlPresent()
    ensures Contains(WordyUrl, "login") && Contains(WordyUrl, "secure")
    ensures Contains(WordyUrl, "verify") && Contains(WordyUrl, "account")
  {
    ContainsAt(WordyUrl, "login", 14);
    ContainsAt(WordyUrl, "secure", 7);
    ContainsAt(WordyUrl, "verify", 20);
    ContainsAt(WordyUrl, "account", 27);
  }

  lemma WordyUrlAbsent()
    ensures !Contains(WordyUrl, "update") && !Contains(WordyUrl, "bank")
    ensures !Contains(WordyUrl, "signin") && !Contains(WordyUrl, "password")
  {
    NotContainsByChar(WordyUrl, "update", 2);
    NotContainsByChar(WordyUrl, "bank", 0);
    NotContainsByPair(WordyUrl, "signin", 0);
    NotContainsByChar(WordyUrl, "password", 4);
  }

  /** Four of the listed words (secure, login, verify, account) occur in
      "http://secure-login-verify-account.com". */
  lemma SuspiciousWordExample()
    ensures CountPresent(SuspiciousWords, Lower(WordyUrl)) == 4
  {
    LowerOfLower(WordyUrl);
    WordyUrlPresent();
    WordyUrlAbsent();
    var u := WordyUrl;
    assert CountPresent(["password"], u) == 0;
    assert CountPresent(["signin", "password"], u) == 0;
    assert CountPresent(["bank", "signin", "password"], u) == 0;
    assert CountPresent(["account", "bank", "signin", "password"], u) == 1;
    assert CountPresent(["verify", "account", "bank", "signin", "password"], u) == 2;
    assert CountPresent(["update", "verify", "account", "bank", "signin", "password"], u) == 2;
    assert CountPresent(["secure", "update", "verify", "account", "bank", "signin", "password"], u) == 3;
  }
}
