/**
 * The heuristic scorer: a fixed, ordered table of seven rules over a feature
 * record. Every rule whose condition holds fires (there is no early exit),
 * adds its increment and appends its message; the total is clamped to [0,100].
 */
module Heuristics {
  import opened PyStr
  import opened UrlFeatures

  datatype Rule = IpHost | AtSymbol | Shortener | WordRule | LongUrl | HighEntropy | NotHttps

  /** The rules in evaluation order. */
  const Rules: seq<Rule> := [IpHost, AtSymbol, Shortener, WordRule, LongUrl, HighEntropy, NotHttps]

  predicate Fires(r: Rule, f: URLFeatures) {
    match r
    case IpHost => f.hasIp
    case AtSymbol => f.hasAtSymbol
    case Shortener => f.usesShortener
    case WordRule => f.suspiciousWordCount > 0
    case LongUrl => f.urlLength > 75
    case HighEntropy => f.hostEntropy > 3.5
    case NotHttps => !f.isHttps
  }

  /** The points a rule adds when it fires; the word rule gives 12 per word, at most 30. */
  function Increment(r: Rule, f: URLFeatures): (n: nat)
    ensures n <= 30
  {
    match r
    case IpHost => 30
    case AtSymbol => 25
    case Shortener => 20
    case WordRule => if f.suspiciousWordCount * 12 < 30 then f.suspiciousWordCount * 12 else 30
    case LongUrl => 10
    case HighEntropy => 8
    case NotHttps => 5
  }

  function Message(r: Rule, f: URLFeatures): string {
    match r
    case IpHost => "host looks like IP"
    case AtSymbol => "contains '@'"
    case Shortener => "uses shortener"
    case WordRule => NatToString(f.suspiciousWordCount) + " suspicious word(s)"
    case LongUrl => "very long URL"
    case HighEntropy => "high host entropy"
    case NotHttps => "not HTTPS"
  }

  /** What a rule adds to the raw score. */
  function Contribution(r: Rule, f: URLFeatures): nat {
    if Fires(r, f) then Increment(r, f) else 0
  }

  /** Sum of the contributions of `rules`. */
  function RawScore(rules: seq<Rule>, f: URLFeatures): nat {
    if rules == [] then 0 else Contribution(rules[0], f) + RawScore(rules[1..], f)
  }

  /** The messages of the rules of `rules` that fire, in table order. */
  function FiredMessages(rules: seq<Rule>, f: URLFeatures): seq<string> {
    if rules == [] then []
    else (if Fires(rules[0], f) then [Message(rules[0], f)] else []) + FiredMessages(rules[1..], f)
  }

  /** `max(0, min(100, score))`. */
  function Clamp(x: int): (r: int)
    ensures 0 <= r <= 100
    ensures 0 <= x <= 100 ==> r == x
    ensures x > 100 ==> r == 100
  {
    if x < 0 then 0 else if x > 100 then 100 else x
  }

  /** The heuristic score of the table. */
  function HeuristicScore(f: URLFeatures): (s: int)
    ensures 0 <= s <= 100
  {
    Clamp(RawScore(Rules, f))
  }

  /** The signal list of the table. */
  function Signals(f: URLFeatures): seq<string> {
    FiredMessages(Rules, f)
  }

  /** `heuristic_score_and_signals`: the rules in order, each adding to the score and
      appending its message when its condition holds. */
  method HeuristicScoreAndSignals(f: URLFeatures) returns (score: int, signals: seq<string>)
    ensures score == HeuristicScore(f)
    ensures signals == Signals(f)
  {
    RuleByRule(f);
    score := 0;
    signals := [];
    if f.hasIp {
      score := score + 30;
      signals := signals + ["host looks like IP"];
    }
    ghost var s1, m1 := score, signals;
    assert s1 == Contribution(IpHost, f) && m1 == Fired(IpHost, f);
    if f.hasAtSymbol {
      score := score + 25;
      signals := signals + ["contains '@'"];
    }
    ghost var s2, m2 := score, signals;
    assert s2 == s1 + Contribution(AtSymbol, f) && m2 == m1 + Fired(AtSymbol, f);
    if f.usesShortener {
      score := score + 20;
      signals := signals + ["uses shortener"];
    }
    ghost var s3, m3 := score, signals;
    assert s3 == s2 + Contribution(Shortener, f) && m3 == m2 + Fired(Shortener, f);
    if f.suspiciousWordCount > 0 {
      var cnt := f.suspiciousWordCount;
      var add := if 30 < cnt * 12 then 30 else cnt * 12;
      score := score + add;
      signals := signals + [NatToString(cnt) + " suspicious word(s)"];
    }
    ghost var s4, m4 := score, signals;
    assert s4 == s3 + Contribution(WordRule, f) && m4 == m3 + Fired(WordRule, f);
    if f.urlLength > 75 {
      score := score + 10;
      signals := signals + ["very long URL"];
    }
    ghost var s5, m5 := score, signals;
    assert s5 == s4 + Contribution(LongUrl, f) && m5 == m4 + Fired(LongUrl, f);
    if f.hostEntropy > 3.5 {
      score := score + 8;
      signals := signals + ["high host entropy"];
    }
    ghost var s6, m6 := score, signals;
    assert s6 == s5 + Contribution(HighEntropy, f) && m6 == m5 + Fired(HighEntropy, f);
    if !f.isHttps {
      score := score + 5;
      signals := signals + ["not HTTPS"];
    }
    assert score == s6 + Contribution(NotHttps, f) && signals == m6 + Fired(NotHttps, f);
    TableUnfolds(f);
    TableMessages(f);
    score := if score < 0 then 0 else if score > 100 then 100 else score;
  }

  /** Each rule's contribution and message, in the terms the scorer tests them. */
  lemma RuleByRule(f: URLFeatures)
    ensures Contribution(IpHost, f) == (if f.hasIp then 30 else 0)
    ensures Fired(IpHost, f) == (if f.hasIp then ["host looks like IP"] else [])
    ensures Contribution(AtSymbol, f) == (if f.hasAtSymbol then 25 else 0)
    ensures Fired(AtSymbol, f) == (if f.hasAtSymbol then ["contains '@'"] else [])
    ensures Contribution(Shortener, f) == (if f.usesShortener then 20 else 0)
    ensures Fired(Shortener, f) == (if f.usesShortener then ["uses shortener"] else [])
    ensures var cnt := f.suspiciousWordCount;
      Contribution(WordRule, f) == (if cnt > 0 then (if 30 < cnt * 12 then 30 else cnt * 12) else 0)
    ensures Fired(WordRule, f)
      == (if f.suspiciousWordCount > 0 then [NatToString(f.suspiciousWordCount) + " suspicious word(s)"] else [])
    ensures Contribution(LongUrl, f) == (if f.urlLength > 75 then 10 else 0)
    ensures Fired(LongUrl, f) == (if f.urlLength > 75 then ["very long URL"] else [])
    ensures Contribution(HighEntropy, f) == (if f.hostEntropy > 3.5 then 8 else 0)
    ensures Fired(HighEntropy, f) == (if f.hostEntropy > 3.5 then ["high host entropy"] else [])
    ensures Contribution(NotHttps, f) == (if !f.isHttps then 5 else 0)
    ensures Fired(NotHttps, f) == (if !f.isHttps then ["not HTTPS"] else [])
  {
  }

  /** Sum and messages of a table extended by one rule at the end. */
  lemma {:induction false} SnocRule(rules: seq<Rule>, r: Rule, f: URLFeatures)
    ensures RawScore(rules + [r], f) == RawScore(rules, f) + Contribution(r, f)
    ensures FiredMessages(rules + [r], f) == FiredMessages(rules, f) + Fired(r, f)
  {
    if rules == [] {
      assert [] + [r] == [r];
    } else {
      assert (rules + [r])[1..] == rules[1..] + [r];
      SnocRule(rules[1..], r, f);
    }
  }

  /** One more rule of the table evaluated. */
  lemma PrefixStep(f: URLFeatures, i: nat)
    requires i < |Rules|
    ensures RawScore(Rules[..i + 1], f) == RawScore(Rules[..i], f) + Contribution(Rules[i], f)
    ensures FiredMessages(Rules[..i + 1], f) == FiredMessages(Rules[..i], f) + Fired(Rules[i], f)
  {
    assert Rules[..i + 1] == Rules[..i] + [Rules[i]];
    SnocRule(Rules[..i], Rules[i], f);
  }

  /** The message a rule appends: none, or its own. */
  function Fired(r: Rule, f: URLFeatures): seq<string> {
    if Fires(r, f) then [Message(r, f)] else []
  }

  /** The messages of the table, written out rule by rule. */
  lemma TableMessages(f: URLFeatures)
    ensures FiredMessages(Rules, f) == Fired(IpHost, f) + Fired(AtSymbol, f) + Fired(Shortener, f)
      + Fired(WordRule, f) + Fired(LongUrl, f) + Fired(HighEntropy, f) + Fired(NotHttps, f)
  {
    FirstFourMessages(f);
    ghost var m4, m5, m6 := Fired(LongUrl, f), Fired(HighEntropy, f), Fired(NotHttps, f);
    ghost var front := Fired(IpHost, f) + Fired(AtSymbol, f) + Fired(Shortener, f) + Fired(WordRule, f);
    PrefixStep(f, 4);
    assert FiredMessages(Rules[..5], f) == front + m4;
    PrefixStep(f, 5);
    assert FiredMessages(Rules[..6], f) == front + m4 + m5;
    PrefixStep(f, 6);
    assert Rules[..7] == Rules;
  }

  /** The messages of the first four rules. */
  lemma FirstFourMessages(f: URLFeatures)
    ensures FiredMessages(Rules[..4], f)
      == Fired(IpHost, f) + Fired(AtSymbol, f) + Fired(Shortener, f) + Fired(WordRule, f)
  {
    ghost var m0, m1, m2, m3 := Fired(IpHost, f), Fired(AtSymbol, f), Fired(Shortener, f), Fired(WordRule, f);
    assert Rules[..0] == [];
    PrefixStep(f, 0);
    assert FiredMessages(Rules[..1], f) == m0;
    PrefixStep(f, 1);
    assert FiredMessages(Rules[..2], f) == m0 + m1;
    PrefixStep(f, 2);
    assert FiredMessages(Rules[..3], f) == m0 + m1 + m2;
    PrefixStep(f, 3);
  }

  /** The table, written out rule by rule. */
  lemma TableUnfolds(f: URLFeatures)
    ensures RawScore(Rules, f) == Contribution(IpHost, f) + Contribution(AtSymbol, f)
      + Contribution(Shortener, f) + Contribution(WordRule, f) + Contribution(LongUrl, f)
      + Contribution(HighEntropy, f) + Contribution(NotHttps, f)
  {
    assert Rules[..0] == [];
    PrefixStep(f, 0);
    PrefixStep(f, 1);
    PrefixStep(f, 2);
    PrefixStep(f, 3);
    PrefixStep(f, 4);
    PrefixStep(f, 5);
    PrefixStep(f, 6);
    assert Rules[..7] == Rules;
  }

  // ---- properties of the table ----

  /** The raw sum never exceeds 30+25+20+30+10+8+5 = 128 and reaches it when every rule fires
      with at least three suspicious words; the clamp then gives 100. */
  lemma RawScoreBound(f: URLFeatures)
    ensures RawScore(Rules, f) <= 128
    ensures (forall r :: Fires(r, f)) && f.suspiciousWordCount >= 3
      ==> RawScore(Rules, f) == 128 && HeuristicScore(f) == 100
  {
    TableUnfolds(f);
  }

  /** A rule with a larger contribution never lowers a sum. */
  lemma {:induction false} RawScoreMonotone(rules: seq<Rule>, f: URLFeatures, g: URLFeatures)
    requires forall k :: 0 <= k < |rules| ==> Contribution(rules[k], f) <= Contribution(rules[k], g)
    ensures RawScore(rules, f) <= RawScore(rules, g)
  {
    if rules != [] {
      assert Contribution(rules[0], f) <= Contribution(rules[0], g);
      RawScoreMonotone(rules[1..], f, g);
    }
  }

  /** Monotonicity: if no rule contributes less for `g` than for `f`, the score of `g` is at
      least that of `f`. */
  lemma ScoreMonotone(f: URLFeatures, g: URLFeatures)
    requires forall r :: Contribution(r, f) <= Contribution(r, g)
    ensures HeuristicScore(f) <= HeuristicScore(g)
  {
    RawScoreMonotone(Rules, f, g);
  }

  /** The feature record with the condition of one rule switched on and every other field
      left as it was. */
  function SwitchOn(r: Rule, f: URLFeatures): (g: URLFeatures)
    ensures Fires(r, g)
  {
    match r
    case IpHost => f.(hasIp := true)
    case AtSymbol => f.(hasAtSymbol := true)
    case Shortener => f.(usesShortener := true)
    case WordRule => if f.suspiciousWordCount > 0 then f else f.(suspiciousWordCount := 1)
    case LongUrl => if f.urlLength > 75 then f else f.(urlLength := 76)
    case HighEntropy => if f.hostEntropy > 3.5 then f else f.(hostEntropy := 4.0)
    case NotHttps => f.(isHttps := false)
  }

  /** Switching on one rule's condition, holding the others fixed, never lowers the score. */
  lemma SwitchOnNeverLowers(r: Rule, f: URLFeatures)
    ensures HeuristicScore(f) <= HeuristicScore(SwitchOn(r, f))
  {
    var g := SwitchOn(r, f);
    forall q ensures Contribution(q, f) <= Contribution(q, g) {
    }
    ScoreMonotone(f, g);
  }

  /** More suspicious words never lower the score. */
  lemma MoreWordsNeverLower(f: URLFeatures, n: nat)
    requires n >= f.suspiciousWordCount
    ensures HeuristicScore(f) <= HeuristicScore(f.(suspiciousWordCount := n))
  {
    var g := f.(suspiciousWordCount := n);
    forall q ensures Contribution(q, f) <= Contribution(q, g) {
    }
    ScoreMonotone(f, g);
  }

  /** At most one message per rule, in table order: as many signals as firing rules. */
  function FiringCount(rules: seq<Rule>, f: URLFeatures): (n: nat)
    ensures n <= |rules|
  {
    if rules == [] then 0 else (if Fires(rules[0], f) then 1 else 0) + FiringCount(rules[1..], f)
  }

  lemma {:induction false} FiredMessagesCount(rules: seq<Rule>, f: URLFeatures)
    ensures |FiredMessages(rules, f)| == FiringCount(rules, f) <= |rules|
  {
    if rules != [] {
      FiredMessagesCount(rules[1..], f);
    }
  }

  /** There are never more than seven signals, one per firing rule. */
  lemma SignalCount(f: URLFeatures)
    ensures |Signals(f)| == FiringCount(Rules, f) <= 7
  {
    FiredMessagesCount(Rules, f);
  }

  /** The last character of each rule's message; all seven differ. */
  function LastChar(r: Rule): char {
    match r
    case IpHost => 'P'
    case AtSymbol => '\''
    case Shortener => 'r'
    case WordRule => ')'
    case LongUrl => 'L'
    case HighEntropy => 'y'
    case NotHttps => 'S'
  }

  lemma MessageEndsWith(r: Rule, f: URLFeatures)
    ensures |Message(r, f)| > 0 && Message(r, f)[|Message(r, f)| - 1] == LastChar(r)
  {
    if r == WordRule {
      var m := Message(r, f);
      assert m[|m| - 1] == " suspicious word(s)"[18];
    }
  }

  /** Messages of different rules differ: they end in different characters. */
  lemma MessagesDistinct(r: Rule, q: Rule, f: URLFeatures)
    requires r != q
    ensures Message(r, f) != Message(q, f)
  {
    MessageEndsWith(r, f);
    MessageEndsWith(q, f);
  }

  lemma {:induction false} FiredMessagesMember(rules: seq<Rule>, r: Rule, f: URLFeatures)
    requires r in rules
    requires forall k :: 0 <= k < |rules| ==> rules[k] == r || Message(rules[k], f) != Message(r, f)
    ensures Message(r, f) in FiredMessages(rules, f) <==> Fires(r, f)
  {
    var head := if Fires(rules[0], f) then [Message(rules[0], f)] else [];
    assert FiredMessages(rules, f) == head + FiredMessages(rules[1..], f);
    if r in rules[1..] {
      FiredMessagesMember(rules[1..], r, f);
    } else {
      assert rules[0] == r;
      FiredMessagesNotMember(rules[1..], r, f);
    }
  }

  lemma {:induction false} FiredMessagesNotMember(rules: seq<Rule>, r: Rule, f: URLFeatures)
    requires r !in rules
    ensures Message(r, f) !in FiredMessages(rules, f)
  {
    if rules != [] {
      MessagesDistinct(rules[0], r, f);
      FiredMessagesNotMember(rules[1..], r, f);
    }
  }

  /** Every rule fires independently: its message is among the signals exactly when its
      condition holds, whatever the other rules do. */
  lemma SignalIffFires(r: Rule, f: URLFeatures)
    ensures Message(r, f) in Signals(f) <==> Fires(r, f)
  {
    assert r in Rules by { assert Rules[0] == IpHost; }
    forall k | 0 <= k < |Rules| ensures Rules[k] == r || Message(Rules[k], f) != Message(r, f) {
      if Rules[k] != r {
        MessagesDistinct(Rules[k], r, f);
      }
    }
    FiredMessagesMember(Rules, r, f);
  }

  /** The word-count rule's message starts with the count in decimal, which reads back as
      the count. */
  lemma WordMessageCarriesCount(f: URLFeatures)
    ensures var m := Message(WordRule, f);
      var digits := NatToString(f.suspiciousWordCount);
      m == digits + " suspicious word(s)" && DigitsValue(digits) == f.suspiciousWordCount
  {
    NatToStringRoundTrip(f.suspiciousWordCount);
  }

  /** The word rule adds 12 per word, capped at 30: 12, 24, then 30 from three words on. */
  lemma WordIncrement(f: URLFeatures)
    ensures Contribution(WordRule, f) == 0 <==> f.suspiciousWordCount == 0
    ensures f.suspiciousWordCount <= 2 ==> Contribution(WordRule, f) == 12 * f.suspiciousWordCount
    ensures f.suspiciousWordCount >= 3 ==> Contribution(WordRule, f) == 30
  {
  }
}
