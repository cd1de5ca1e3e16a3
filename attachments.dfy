/**
 * The attachment scorer: a second additive rule table over the lowercased file
 * name and the file size. Each listed extension the name ends with adds 40,
 * a file over 50 MiB adds 10, a name containing "invoice" or "payment" adds
 * 10; the sum is capped at 100 and 50 or more means "don't open".
 */
module Attachments {
  import opened PyStr

  const SuspiciousExt: seq<string> := [".exe", ".scr", ".js", ".vbs", ".bat", ".ps1", ".jar"]

  const LargeFileBytes: int := 50 * 1024 * 1024

  datatype AttachmentAdvice = DontOpen | Caution

  /** The listed extensions the name ends with, in list order. */
  function MatchedExt(exts: seq<string>, name: string): (m: seq<string>)
    ensures |m| <= |exts|
    ensures forall k :: 0 <= k < |m| ==> EndsWith(name, m[k]) && m[k] in exts
  {
    if exts == [] then []
    else
      var last := exts[|exts| - 1];
      MatchedExt(exts[..|exts| - 1], name) + (if EndsWith(name, last) then [last] else [])
  }

  /** The matched extensions are exactly the listed ones that end the name. */
  lemma {:induction false} MatchedExtExact(exts: seq<string>, name: string, e: string)
    ensures e in MatchedExt(exts, name) <==> e in exts && EndsWith(name, e)
  {
    if exts != [] {
      var init := exts[..|exts| - 1];
      MatchedExtExact(init, name, e);
      assert exts == init + [exts[|exts| - 1]];
    }
  }

  function ExtSignals(m: seq<string>): (s: seq<string>)
    ensures |s| == |m|
  {
    seq(|m|, k requires 0 <= k < |m| => "suspicious_ext:" + m[k])
  }

  predicate IsLarge(filesize: int) {
    filesize > LargeFileBytes
  }

  predicate IsPhishyName(name: string) {
    Contains(name, "invoice") || Contains(name, "payment")
  }

  /** The uncapped sum of the table. */
  function RawAttachmentScore(name: string, filesize: int): nat {
    40 * |MatchedExt(SuspiciousExt, name)|
      + (if IsLarge(filesize) then 10 else 0)
      + (if IsPhishyName(name) then 10 else 0)
  }

  /** The signals: matched extensions, then "large_file", then "phishy_filename". */
  function AttachmentSignals(name: string, filesize: int): seq<string> {
    ExtSignals(MatchedExt(SuspiciousExt, name))
      + (if IsLarge(filesize) then ["large_file"] else [])
      + (if IsPhishyName(name) then ["phishy_filename"] else [])
  }

  function AttachmentScore(name: string, filesize: int): (s: int)
    ensures 0 <= s <= 100
  {
    var raw := RawAttachmentScore(name, filesize);
    if raw < 100 then raw else 100
  }

  function AdviceFor(score: int): AttachmentAdvice {
    if score >= 50 then DontOpen else Caution
  }

  /** The scoring body of `scan_attachment`. `filename` is lowercased first; the MIME type is
      only lowercased and echoed by the handler, so it is not an input here. */
  method ScanAttachment(filename: string, filesize: int)
    returns (name: string, score: int, signals: seq<string>, advice: AttachmentAdvice)
    ensures name == Lower(filename)
    ensures score == AttachmentScore(name, filesize)
    ensures signals == AttachmentSignals(name, filesize)
    ensures advice == AdviceFor(score)
  {
    name := Lower(filename);
    score := 0;
    signals := [];
    var exts := SuspiciousExt;
    for i := 0 to |exts|
      invariant score == 40 * |MatchedExt(exts[..i], name)|
      invariant signals == ExtSignals(MatchedExt(exts[..i], name))
    {
      assert exts[..i + 1][..i] == exts[..i];
      if EndsWith(name, exts[i]) {
        score := score + 40;
        signals := signals + ["suspicious_ext:" + exts[i]];
      }
    }
    assert exts[..|exts|] == exts;
    if filesize > 50 * 1024 * 1024 {
      score := score + 10;
      signals := signals + ["large_file"];
    }
    if Contains(name, "invoice") || Contains(name, "payment") {
      score := score + 10;
      signals := signals + ["phishy_filename"];
    }
    score := if 100 < score then 100 else score;
    advice := if score >= 50 then DontOpen else Caution;
  }

  // ---- properties of the table ----

  /** No listed extension is a suffix of another. */
  lemma ExtensionsSuffixFree(i: nat, j: nat)
    requires i < |SuspiciousExt| && j < |SuspiciousExt| && i != j
    ensures !EndsWith(SuspiciousExt[j], SuspiciousExt[i])
  {
    var a := SuspiciousExt[i];
    var b := SuspiciousExt[j];
    if EndsWith(b, a) {
      DottedSuffix(a, b);
    }
  }

  /** Of two extensions, each a dot followed by dot-free text, one ends the other only when
      they are equal. */
  lemma DottedSuffix(a: string, b: string)
    requires |a| >= 1 && a[0] == '.' && '.' !in a[1..]
    requires |b| >= 1 && b[0] == '.' && '.' !in b[1..]
    requires EndsWith(b, a)
    ensures a == b
  {
    assert forall k :: 1 <= k < |b| ==> b[k] == b[1..][k - 1] != '.';
    assert b[|b| - |a|] == a[0] == '.';
  }

  /** Two different entries of a suffix-free list never both end a name. */
  lemma NotBothSuffixes(name: string, a: string, b: string)
    requires !EndsWith(a, b) && !EndsWith(b, a)
    ensures !(EndsWith(name, a) && EndsWith(name, b))
  {
    if EndsWith(name, a) && EndsWith(name, b) {
      if |a| <= |b| {
        SuffixOfSuffix(name, a, b);
      } else {
        SuffixOfSuffix(name, b, a);
      }
    }
  }

  lemma {:induction false} AtMostOneMatch(exts: seq<string>, name: string)
    requires forall i, j :: 0 <= i < |exts| && 0 <= j < |exts| && i != j ==> !EndsWith(exts[j], exts[i])
    ensures |MatchedExt(exts, name)| <= 1
  {
    if exts != [] {
      var init := exts[..|exts| - 1];
      var last := exts[|exts| - 1];
      AtMostOneMatch(init, name);
      var m := MatchedExt(init, name);
      if |m| == 1 {
        var i :| 0 <= i < |init| && init[i] == m[0];
        assert exts[i] == m[0];
        NotBothSuffixes(name, exts[i], last);
      }
    }
  }

  /** At most one extension signal fires, so the score is at most 40 + 10 + 10 = 60 and the
      cap at 100 never changes it. */
  lemma AttachmentScoreBound(name: string, filesize: int)
    ensures |MatchedExt(SuspiciousExt, name)| <= 1
    ensures RawAttachmentScore(name, filesize) <= 60
    ensures AttachmentScore(name, filesize) == RawAttachmentScore(name, filesize)
  {
    forall i, j | 0 <= i < |SuspiciousExt| && 0 <= j < |SuspiciousExt| && i != j
      ensures !EndsWith(SuspiciousExt[j], SuspiciousExt[i])
    {
      ExtensionsSuffixFree(i, j);
    }
    AtMostOneMatch(SuspiciousExt, name);
  }

  /** "Don't open" exactly when a listed extension matches and the file is also large or has
      a phishy name; an extension alone (40) or the other two rules alone (20) only give
      "Caution". */
  lemma DontOpenIff(name: string, filesize: int)
    ensures AdviceFor(AttachmentScore(name, filesize)) == DontOpen
      <==> |MatchedExt(SuspiciousExt, name)| == 1 && (IsLarge(filesize) || IsPhishyName(name))
  {
    AttachmentScoreBound(name, filesize);
  }
}
