/** Python's str.strip, str.lstrip and str.rstrip over strings seen as
    sequences of Unicode scalar values. */
module Text {

  /** The characters for which Python's str.isspace() holds; str.strip()
      called without arguments removes exactly these. */
  predicate IsWhitespace(c: char) {
    || '\t' <= c <= '\r'
    || '\U{001C}' <= c <= ' '
    || c == '\U{0085}' || c == '\U{00A0}' || c == '\U{1680}'
    || '\U{2000}' <= c <= '\U{200A}'
    || c == '\U{2028}' || c == '\U{2029}' || c == '\U{202F}' || c == '\U{205F}' || c == '\U{3000}'
  }

  /** Every character of `s` satisfies `p`. */
  predicate All(s: string, p: char -> bool) {
    forall i :: 0 <= i < |s| ==> p(s[i])
  }

  /** Empty or made of whitespace only: what Python's `not s.strip()` tests. */
  predicate Blank(s: string) {
    All(s, IsWhitespace)
  }

  /** Neither starts nor ends with a character satisfying `p`. */
  predicate Trimmed(s: string, p: char -> bool) {
    s == [] || (!p(s[0]) && !p(s[|s| - 1]))
  }

  /** Python's `needle in hay` on two strings: a substring test. */
  predicate Substring(needle: string, hay: string)
    decreases |hay|
  {
    needle <= hay || (hay != [] && Substring(needle, hay[1..]))
  }

  /** The middle of a three-part concatenation sits right after the first
      part. */
  lemma InfixAt(a: string, b: string, c: string)
    ensures (a + b + c)[|a|..|a| + |b|] == b
  {
  }

  /** A slice that lies inside the left operand of a concatenation. */
  lemma SliceOfLeft(a: string, b: string, i: nat, j: nat)
    requires i <= j <= |a|
    ensures (a + b)[i..j] == a[i..j]
  {
  }

  /** A slice that lies inside the right operand of a concatenation. */
  lemma SliceOfRight(a: string, b: string, i: nat, j: nat)
    requires i <= j <= |b|
    ensures (a + b)[|a| + i..|a| + j] == b[i..j]
  {
  }

  /** A needle found at any offset is a substring. */
  lemma {:induction false} SubstringAt(needle: string, hay: string, k: nat)
    requires k + |needle| <= |hay| && hay[k..k + |needle|] == needle
    ensures Substring(needle, hay)
    decreases k
  {
    if k > 0 {
      assert hay[1..][k - 1..k - 1 + |needle|] == needle;
      SubstringAt(needle, hay[1..], k - 1);
    }
  }

  /** `s.lstrip(chars)`, with `drop` telling which characters are in
      `chars`: the suffix of `s` left once every leading one is removed. */
  function LStrip(s: string, drop: char -> bool): (r: string)
    ensures |r| <= |s| && r == s[|s| - |r|..]
    ensures r == [] || !drop(r[0])
    ensures All(s[..|s| - |r|], drop)
  {
    if s != [] && drop(s[0]) then
      var rest := LStrip(s[1..], drop);
      assert s[..|s| - |rest|] == [s[0]] + s[1..][..|s| - 1 - |rest|];
      rest
    else
      s
  }

  /** `lstrip` removes exactly a leading run of dropped characters that is
      followed by a kept one (or by nothing). */
  lemma {:induction false} LStripUnique(dropped: string, kept: string, drop: char -> bool)
    requires All(dropped, drop)
    requires kept == [] || !drop(kept[0])
    ensures LStrip(dropped + kept, drop) == kept
  {
    if dropped != [] {
      assert (dropped + kept)[1..] == dropped[1..] + kept;
      LStripUnique(dropped[1..], kept, drop);
    }
  }

  /** `s.rstrip(chars)`, with `drop` telling which characters are in
      `chars`: the prefix of `s` left once every trailing one is removed. */
  function RStrip(s: string, drop: char -> bool): (r: string)
    ensures |r| <= |s| && r == s[..|r|]
    ensures r == [] || !drop(r[|r| - 1])
    ensures All(s[|r|..], drop)
  {
    if s != [] && drop(s[|s| - 1]) then
      var rest := RStrip(s[..|s| - 1], drop);
      assert s[|rest|..] == s[..|s| - 1][|rest|..] + [s[|s| - 1]];
      rest
    else
      s
  }

  /** `rstrip` removes exactly a trailing run of dropped characters that
      follows a kept one (or nothing). */
  lemma {:induction false} RStripUnique(kept: string, dropped: string, drop: char -> bool)
    requires All(dropped, drop)
    requires kept == [] || !drop(kept[|kept| - 1])
    ensures RStrip(kept + dropped, drop) == kept
    decreases |dropped|
  {
    if dropped == [] {
      assert kept + dropped == kept;
    } else {
      var s, shorter := kept + dropped, dropped[..|dropped| - 1];
      assert s[|s| - 1] == dropped[|dropped| - 1];
      assert s[..|s| - 1] == kept + shorter;
      RStripUnique(kept, shorter, drop);
    }
  }

  /** `s.strip()`: `s` without its leading and trailing whitespace. */
  function Strip(s: string): (r: string)
    ensures |r| <= |s|
    ensures Trimmed(r, IsWhitespace)
    ensures r == [] <==> Blank(s)
  {
    var left := LStrip(s, IsWhitespace);
    var r := RStrip(left, IsWhitespace);
    assert r == [] ==> s == s[..|s| - |left|] + left;
    r
  }

  /** Whitespace around a trimmed middle is exactly what `strip` removes:
      the result is the input without its surrounding whitespace. */
  lemma StripUnique(lead: string, core: string, trail: string)
    requires Blank(lead) && Blank(trail)
    requires Trimmed(core, IsWhitespace)
    ensures Strip(lead + core + trail) == core
  {
    var s := lead + core + trail;
    if core == [] {
      assert forall i :: 0 <= i < |s| ==> IsWhitespace(s[i]) by {
        forall i | 0 <= i < |s|
          ensures IsWhitespace(s[i])
        {
          if i < |lead| {
            assert s[i] == lead[i];
          } else {
            assert s[i] == trail[i - |lead|];
          }
        }
      }
    } else {
      assert s == lead + (core + trail);
      LStripUnique(lead, core + trail, IsWhitespace);
      RStripUnique(core, trail, IsWhitespace);
    }
  }

  /** Removing one more trailing character that `drop` selects does not change what
      rstrip leaves: the result does not depend on how many there were. */
  lemma {:induction false} RStripAbsorbs(s: string, c: char, drop: char -> bool)
    requires drop(c)
    ensures RStrip(s + [c], drop) == RStrip(s, drop)
  {
    assert (s + [c])[..|s|] == s;
  }

  /** Stripping a string that is already trimmed leaves it as it is. */
  lemma {:induction false} StripTrimmed(s: string)
    requires Trimmed(s, IsWhitespace)
    ensures Strip(s) == s
  {
  }

  /** Stripping twice is stripping once. */
  lemma {:induction false} StripIdempotent(s: string)
    ensures Strip(Strip(s)) == Strip(s)
  {
    StripTrimmed(Strip(s));
  }
}
