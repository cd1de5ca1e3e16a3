/**
 * The scoring part of the URL scan handler: heuristic score and signals from
 * the features, a redirect trace capped at six recorded redirects, the fused
 * final score and the advice tier. Request parsing, the classifier call and
 * the scan log are outside the model.
 */
module Scan {
  import opened Wrappers
  import opened PyStr
  import opened UrlFeatures
  import opened Heuristics
  import opened Fusion
  import opened Redirects

  /** The cap the handler passes to the redirect tracer. */
  const ScanMaxHops: int := 6

  datatype ScanResult = ScanResult(
    heuristicScore: int,
    signals: seq<string>,
    redirectTrace: seq<Hop>,
    finalScore: int,
    advice: Advice,
    adviceText: string)

  /** The scoring steps of the scan handler, in its order. */
  method ScanUrl(f: URLFeatures, mlScore: Option<int>, t: Transport) returns (res: ScanResult)
    requires mlScore.Some? ==> 0 <= mlScore.value <= 100
    ensures res.heuristicScore == HeuristicScore(f) && res.signals == Signals(f)
    ensures res.redirectTrace == Trace(t, ScanMaxHops) && 1 <= |res.redirectTrace| <= 7
    ensures 0 <= res.finalScore <= 100
    ensures mlScore.None? ==> res.finalScore == res.heuristicScore
    ensures mlScore.Some? ==> res.finalScore == Blend(res.heuristicScore, mlScore.value)
    ensures res.advice == AdviceFor(res.finalScore) && res.adviceText == AdviceText(res.advice)
  {
    var heur, signals := HeuristicScoreAndSignals(f);
    var trace := TraceRedirects(t, ScanMaxHops);
    TraceBound(t, ScanMaxHops);
    var final := CombineScores(heur, mlScore);
    var advice := if final >= 70 then High else if final >= 40 then Medium else Low;
    var text := if final >= 70 then "High risk — do NOT click."
      else if final >= 40 then "Medium risk — be cautious." else "Low risk.";
    res := ScanResult(heur, signals, trace, final, advice, text);
  }

  // ---- the worked example http://192.168.1.5/verify ----

  const IpUrl: string := "http://192.168.1.5/verify"
  const IpHostName: string := "192.168.1.5"

  lemma IpHostLooksLikeIp()
    ensures LooksLikeIp(IpHostName)
  {
    assert "192" + "." + "168" + "." + "1" + "." + "5" == IpHostName;
    FourGroupsLookLikeIp("192", "168", "1", "5");
  }

  lemma IpHostNoShortener()
    ensures !AnyEndsWith(IpHostName, ShortenerDomains)
  {
    forall k | 0 <= k < |ShortenerDomains|
      ensures !EndsWith(IpHostName, ShortenerDomains[k])
    {
      var d := ShortenerDomains[k];
      assert d[|d| - 1] != '5';
      if |d| <= |IpHostName| {
        assert IpHostName[|IpHostName| - |d|..][|d| - 1] == '5';
      }
    }
  }

  /** Of the listed words only "verify" occurs in the URL. */
  lemma IpUrlWords()
    ensures Contains(IpUrl, "verify")
    ensures !Contains(IpUrl, "login") && !Contains(IpUrl, "secure") && !Contains(IpUrl, "update")
    ensures !Contains(IpUrl, "account") && !Contains(IpUrl, "bank")
    ensures !Contains(IpUrl, "signin") && !Contains(IpUrl, "password")
  {
    ContainsAt(IpUrl, "verify", 19);
    NotContainsByChar(IpUrl, "login", 0);
    NotContainsByChar(IpUrl, "secure", 0);
    NotContainsByChar(IpUrl, "update", 0);
    NotContainsByChar(IpUrl, "account", 0);
    NotContainsByChar(IpUrl, "bank", 0);
    NotContainsByChar(IpUrl, "signin", 0);
    NotContainsByChar(IpUrl, "password", 1);
  }

  lemma IpUrlOneWord()
    ensures CountPresent(SuspiciousWords, IpUrl) == 1
  {
    IpUrlWords();
    var u := IpUrl;
    assert CountPresent(["password"], u) == 0;
    assert CountPresent(["signin", "password"], u) == 0;
    assert CountPresent(["bank", "signin", "password"], u) == 0;
    assert CountPresent(["account", "bank", "signin", "password"], u) == 0;
    assert CountPresent(["verify", "account", "bank", "signin", "password"], u) == 1;
    assert CountPresent(["update", "verify", "account", "bank", "signin", "password"], u) == 1;
    assert CountPresent(["secure", "update", "verify", "account", "bank", "signin", "password"], u) == 1;
  }

  lemma IpUrlNoAt()
    ensures '@' !in IpUrl
  {
    forall i | 0 <= i < |IpUrl| ensures IpUrl[i] != '@' {
    }
  }

  /** The URL is already stripped and lowercase. */
  lemma IpUrlNormal()
    ensures Lower(Strip(IpUrl)) == IpUrl
  {
    IpUrlStripped();
    IpUrlLower();
  }

  lemma IpUrlStripped()
    ensures Strip(IpUrl) == IpUrl
  {
    assert IpUrl[0] == 'h' && IpUrl[|IpUrl| - 1] == 'y';
  }

  lemma IpUrlLower()
    ensures Lower(IpUrl) == IpUrl
  {
    forall i | 0 <= i < |IpUrl| ensures !IsUpper(IpUrl[i]) {
    }
    LowerOfLower(IpUrl);
  }

  /** The features of http://192.168.1.5/verify: an IP host, one suspicious word, no HTTPS and
      nothing else (given a host entropy of at most 3.5 bits). With `IpWordNoHttpsScore` this URL
      scores 47 with three signals; without a classifier score that is also the final score,
      a medium risk. */
  lemma IpUrlFeatures(url: string, parsed: ParsedUrl, shannon: string -> real, f: URLFeatures)
    requires url == IpUrl && parsed == ParsedUrl("http", IpHostName, "/verify")
    requires shannon(IpHostName) <= 3.5
    requires f == ExtractFeatures(url, parsed, "", shannon)
    ensures f.hasIp && !f.hasAtSymbol && !f.usesShortener && f.suspiciousWordCount == 1
    ensures f.urlLength == 25 && !(f.hostEntropy > 3.5) && !f.isHttps
  {
    IpHostLooksLikeIp();
    assert f.hasIp;
    IpHostNoShortener();
    assert !f.usesShortener;
    IpUrlOneWord();
    IpUrlNormal();
    assert f.suspiciousWordCount == 1;
    assert Strip(IpUrl) == IpUrl;
    assert f.urlLength == 25;
    IpUrlNoAt();
    assert !f.hasAtSymbol;
    assert f.hostEntropy == shannon(IpHostName);
  }

  /** Any URL with an IP host, one suspicious word and no HTTPS, and nothing else that fires,
      scores 30 + 12 + 5 = 47 with three signals in table order. */
  lemma IpWordNoHttpsScore(f: URLFeatures)
    requires f.hasIp && !f.hasAtSymbol && !f.usesShortener && f.suspiciousWordCount == 1
    requires f.urlLength <= 75 && !(f.hostEntropy > 3.5) && !f.isHttps
    ensures HeuristicScore(f) == 47
    ensures Signals(f) == ["host looks like IP", "1 suspicious word(s)", "not HTTPS"]
  {
    IpWordNoHttpsRaw(f);
    IpWordNoHttpsSignals(f);
  }

  lemma IpWordNoHttpsRaw(f: URLFeatures)
    requires f.hasIp && !f.hasAtSymbol && !f.usesShortener && f.suspiciousWordCount == 1
    requires f.urlLength <= 75 && !(f.hostEntropy > 3.5) && !f.isHttps
    ensures RawScore(Rules, f) == 47
  {
    TableUnfolds(f);
    assert Contribution(IpHost, f) == 30 && Contribution(WordRule, f) == 12;
    assert Contribution(AtSymbol, f) == 0 && Contribution(Shortener, f) == 0;
    assert Contribution(LongUrl, f) == 0 && Contribution(HighEntropy, f) == 0;
  }

  lemma IpWordNoHttpsSignals(f: URLFeatures)
    requires f.hasIp && !f.hasAtSymbol && !f.usesShortener && f.suspiciousWordCount == 1
    requires f.urlLength <= 75 && !(f.hostEntropy > 3.5) && !f.isHttps
    ensures Signals(f) == ["host looks like IP", "1 suspicious word(s)", "not HTTPS"]
  {
    TableMessages(f);
    OneWordMessage(f);
    assert Fired(AtSymbol, f) == [] && Fired(Shortener, f) == [];
    assert Fired(LongUrl, f) == [] && Fired(HighEntropy, f) == [];
  }

  lemma OneWordMessage(f: URLFeatures)
    requires f.suspiciousWordCount == 1
    ensures Fired(WordRule, f) == ["1 suspicious word(s)"]
  {
    assert NatToString(1) == "1";
    assert "1" + " suspicious word(s)" == "1 suspicious word(s)";
  }
}
