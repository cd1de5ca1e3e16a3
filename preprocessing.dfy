/**
 * The URL text cleaner of the classifier side: `clean_text` lowercases the
 * text, turns every character outside `[a-z0-9:/._-]` into a space, replaces
 * every run of whitespace by one space and strips the ends.
 */
module Preprocessing {
  import opened PyStr

  /** The characters the cleaner keeps: `[a-z0-9:/._-]`. */
  predicate Allowed(c: char) {
    'a' <= c <= 'z' || '0' <= c <= '9' || c == ':' || c == '/' || c == '.' || c == '-' || c == '_'
  }

  lemma AllowedIsNotSpace(c: char)
    ensures Allowed(c) ==> !IsSpace(c) && !IsUpper(c)
  {
  }

  /** `re.sub(r"[^a-z0-9:/\.\-\_]", " ", text)`. */
  function Mask(s: string): (r: string)
    ensures |r| == |s|
    ensures forall i :: 0 <= i < |s| ==> r[i] == (if Allowed(s[i]) then s[i] else ' ')
  {
    seq(|s|, i requires 0 <= i < |s| => if Allowed(s[i]) then s[i] else ' ')
  }

  /** `re.sub(r"\s+", " ", text)`: a maximal run of whitespace becomes one space;
      the last character of a run is the one that is replaced. */
  function Collapse(s: string): (r: string)
    ensures |r| <= |s|
    ensures s != [] ==> r != [] && r[0] == (if IsSpace(s[0]) then ' ' else s[0])
  {
    if s == [] then []
    else if IsSpace(s[0]) then
      if |s| > 1 && IsSpace(s[1]) then Collapse(s[1..]) else [' '] + Collapse(s[1..])
    else [s[0]] + Collapse(s[1..])
  }

  /** `clean_text(text)`. */
  function CleanText(text: string): (r: string)
    ensures |r| <= |text|
    ensures text == [] ==> r == []
  {
    Strip(Collapse(Mask(Lower(text))))
  }

  /** No two adjacent spaces. */
  predicate SingleSpaced(s: string) {
    forall i :: 0 <= i < |s| - 1 ==> !(s[i] == ' ' && s[i + 1] == ' ')
  }

  /** Only kept characters and the plain space. */
  predicate CleanAlphabet(s: string) {
    forall i :: 0 <= i < |s| ==> Allowed(s[i]) || s[i] == ' '
  }

  /** What the cleaner promises of its output. */
  predicate IsClean(s: string) {
    CleanAlphabet(s) && SingleSpaced(s) && (s == [] || (s[0] != ' ' && s[|s| - 1] != ' '))
  }

  /** The characters of `s` the cleaner keeps, in order. */
  function KeepAllowed(s: string): (r: string)
    ensures forall i :: 0 <= i < |r| ==> Allowed(r[i])
  {
    if s == [] then [] else (if Allowed(s[0]) then [s[0]] else []) + KeepAllowed(s[1..])
  }

  // ---- Collapse ----

  lemma {:induction false} CollapseAlphabet(s: string)
    requires CleanAlphabet(s)
    ensures CleanAlphabet(Collapse(s))
  {
    if s != [] {
      CollapseAlphabet(s[1..]);
    }
  }

  /** After collapsing, no whitespace character is followed by another one. */
  lemma {:induction false} CollapseSingleSpaced(s: string)
    ensures forall i :: 0 <= i < |Collapse(s)| - 1 ==> !(IsSpace(Collapse(s)[i]) && IsSpace(Collapse(s)[i + 1]))
  {
    if s != [] {
      CollapseSingleSpaced(s[1..]);
    }
  }

  lemma {:induction false} CollapseKeepsNonSpace(s: string)
    ensures DropSpace(Collapse(s)) == DropSpace(s)
  {
    if s != [] {
      CollapseKeepsNonSpace(s[1..]);
      var c := Collapse(s[1..]);
      if IsSpace(s[0]) {
        if !(|s| > 1 && IsSpace(s[1])) {
          assert ([' '] + c)[1..] == c;
        }
      } else {
        assert ([s[0]] + c)[1..] == c;
      }
    }
  }

  /** A maximal run of whitespace, followed by the end or by a non-whitespace character,
      becomes exactly one space. */
  lemma {:induction false} CollapseRun(w: string, b: string)
    requires |w| >= 1 && forall i :: 0 <= i < |w| ==> IsSpace(w[i])
    requires b == [] || !IsSpace(b[0])
    ensures Collapse(w + b) == [' '] + Collapse(b)
    decreases |w|
  {
    var s := w + b;
    assert s[1..] == w[1..] + b;
    if |w| > 1 {
      assert s[1] == w[1];
      CollapseRun(w[1..], b);
    } else {
      assert s[1..] == b;
    }
  }

  /** A non-whitespace character is kept as it is. */
  lemma CollapseKeepsChar(c: char, b: string)
    requires !IsSpace(c)
    ensures Collapse([c] + b) == [c] + Collapse(b)
  {
    assert ([c] + b)[1..] == b;
  }

  /** Word separation: `clean_text("a!!b")` is "a b", the two masked characters giving
      one space. */
  lemma CleanTextSeparatesWords()
    ensures CleanText("a!!b") == "a b"
  {
    assert Lower("a!!b") == "a!!b";
    assert Mask("a!!b") == "a" + "  " + "b";
    CollapseKeepsChar('b', "");
    CollapseRun("  ", "b");
    CollapseKeepsChar('a', "  " + "b");
    assert ['a'] + ("  " + "b") == "a" + "  " + "b";
    assert Collapse("a" + "  " + "b") == "a b";
  }

  /** A text whose only whitespace is single plain spaces is left alone. */
  lemma {:induction false} CollapseIdentity(s: string)
    requires forall i :: 0 <= i < |s| ==> IsSpace(s[i]) ==> s[i] == ' '
    requires SingleSpaced(s)
    ensures Collapse(s) == s
  {
    if s != [] {
      CollapseIdentity(s[1..]);
      assert [s[0]] + s[1..] == s;
    }
  }

  // ---- Mask ----

  lemma {:induction false} MaskKeepsAllowed(s: string)
    ensures DropSpace(Mask(s)) == KeepAllowed(s)
  {
    if s != [] {
      MaskKeepsAllowed(s[1..]);
      assert Mask(s)[1..] == Mask(s[1..]);
      AllowedIsNotSpace(s[0]);
    }
  }

  // ---- clean_text ----

  /** Stripping a single-spaced text over the kept alphabet leaves a clean text. */
  lemma StripMakesClean(c: string)
    requires CleanAlphabet(c) && SingleSpaced(c)
    ensures IsClean(Strip(c))
  {
    var lo := StripIsSlice(c);
    var r := Strip(c);
    forall i | 0 <= i < |r|
      ensures Allowed(r[i]) || r[i] == ' '
    {
      assert r[i] == c[lo + i];
    }
    forall i | 0 <= i < |r| - 1
      ensures !(r[i] == ' ' && r[i + 1] == ' ')
    {
      assert r[i] == c[lo + i] && r[i + 1] == c[lo + i + 1];
    }
  }

  /** The output of `clean_text` holds only `[a-z0-9:/._-]` and single spaces, with none at the ends. */
  lemma CleanTextIsClean(text: string)
    ensures IsClean(CleanText(text))
  {
    var m := Mask(Lower(text));
    assert CleanAlphabet(m);
    CollapseAlphabet(m);
    CollapseSingleSpaced(m);
    StripMakesClean(Collapse(m));
  }

  /** The non-space characters of the output are exactly the kept characters of the
      lowercased input, in the same order. */
  lemma CleanTextKeepsAllowed(text: string)
    ensures DropSpace(CleanText(text)) == KeepAllowed(Lower(text))
  {
    var m := Mask(Lower(text));
    StripKeepsNonSpace(Collapse(m));
    CollapseKeepsNonSpace(m);
    MaskKeepsAllowed(Lower(text));
  }

  /** A clean text is a fixed point of `clean_text`. */
  lemma CleanTextFixesClean(s: string)
    requires IsClean(s)
    ensures CleanText(s) == s
  {
    forall i | 0 <= i < |s|
      ensures !IsUpper(s[i])
    {
      AllowedIsNotSpace(s[i]);
    }
    LowerOfLower(s);
    assert Mask(s) == s;
    forall i | 0 <= i < |s|
      ensures IsSpace(s[i]) ==> s[i] == ' '
    {
      AllowedIsNotSpace(s[i]);
    }
    CollapseIdentity(s);
  }

  /** `clean_text` is idempotent. */
  lemma CleanTextIdempotent(text: string)
    ensures CleanText(CleanText(text)) == CleanText(text)
  {
    CleanTextIsClean(text);
    CleanTextFixesClean(CleanText(text));
  }
}
