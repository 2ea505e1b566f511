/**
 * The Python `str` methods the resolver relies on: `lower()`, `upper()`
 * (restricted to ASCII letters) and `rstrip`/`lstrip`/`strip` with an
 * explicit set of characters to remove.
 */
module PyStr {

  predicate IsAsciiUpper(c: char) { 'A' <= c <= 'Z' }

  predicate IsAsciiLower(c: char) { 'a' <= c <= 'z' }

  function LowerChar(c: char): char
  {
    if IsAsciiUpper(c) then (c as int + 32) as char else c
  }

  function UpperChar(c: char): char
  {
    if IsAsciiLower(c) then (c as int - 32) as char else c
  }

  /** Two strings that are equal once every ASCII letter is folded to one case. */
  ghost predicate EqualIgnoringCase(a: string, b: string)
  {
    |a| == |b| && forall i :: 0 <= i < |a| ==> LowerChar(a[i]) == LowerChar(b[i])
  }

  /** `s.lower()`: ASCII capitals become small letters, everything else is kept. */
  function Lower(s: string): (r: string)
    ensures EqualIgnoringCase(r, s)
    ensures forall i :: 0 <= i < |r| ==> !IsAsciiUpper(r[i])
    ensures forall i :: 0 <= i < |s| && !IsAsciiUpper(s[i]) ==> r[i] == s[i]
  {
    seq(|s|, i requires 0 <= i < |s| => LowerChar(s[i]))
  }

  /** `s.upper()`: ASCII small letters become capitals, everything else is kept. */
  function Upper(s: string): (r: string)
    ensures EqualIgnoringCase(r, s)
    ensures forall i :: 0 <= i < |r| ==> !IsAsciiLower(r[i])
    ensures forall i :: 0 <= i < |s| && !IsAsciiLower(s[i]) ==> r[i] == s[i]
  {
    seq(|s|, i requires 0 <= i < |s| => UpperChar(s[i]))
  }

  /** Lowering and raising depend on a string only up to its case. */
  lemma CaseFoldDetermines(a: string, b: string)
    requires EqualIgnoringCase(a, b)
    ensures Lower(a) == Lower(b)
    ensures Upper(a) == Upper(b)
  {
    forall i | 0 <= i < |a|
      ensures UpperChar(a[i]) == UpperChar(b[i])
    {
      assert UpperChar(a[i]) == UpperChar(LowerChar(a[i]));
      assert UpperChar(b[i]) == UpperChar(LowerChar(b[i]));
    }
  }

  /** `s.rstrip(chars)`: drop every trailing character that is in `chars`. */
  function RStrip(s: string, chars: set<char>): (r: string)
    ensures r <= s
    ensures r == [] || r[|r| - 1] !in chars
    ensures forall i :: |r| <= i < |s| ==> s[i] in chars
    decreases |s|
  {
    if |s| > 0 && s[|s| - 1] in chars then RStrip(s[..|s| - 1], chars) else s
  }

  /** `s.lstrip(chars)`: drop every leading character that is in `chars`. */
  function LStrip(s: string, chars: set<char>): (r: string)
    ensures |r| <= |s| && r == s[|s| - |r|..]
    ensures r == [] || r[0] !in chars
    ensures forall i :: 0 <= i < |s| - |r| ==> s[i] in chars
    decreases |s|
  {
    if |s| > 0 && s[0] in chars then LStrip(s[1..], chars) else s
  }

  /** `s.strip(chars)`. */
  function Strip(s: string, chars: set<char>): string
  {
    RStrip(LStrip(s, chars), chars)
  }

  /**
   * The three facts RStrip ensures pin its result down: any split of `s`
   * into a part not ending in `chars` and a tail made only of `chars`
   * has RStrip's result as its first part.
   */
  lemma {:induction false} RStripUnique(s: string, chars: set<char>, p: string)
    requires p <= s
    requires p == [] || p[|p| - 1] !in chars
    requires forall i :: |p| <= i < |s| ==> s[i] in chars
    ensures RStrip(s, chars) == p
    decreases |s|
  {
    if |s| > |p| {
      assert s[..|s| - 1][..|p|] == p;
      RStripUnique(s[..|s| - 1], chars, p);
    }
  }

  /** Stripping twice removes nothing more. */
  lemma RStripIdempotent(s: string, chars: set<char>)
    ensures RStrip(RStrip(s, chars), chars) == RStrip(s, chars)
  {
    var r := RStrip(s, chars);
    RStripUnique(r, chars, r);
  }

  /** Text followed by characters to strip comes back as that text. */
  lemma RStripAppended(p: string, tail: string, chars: set<char>)
    requires p == [] || p[|p| - 1] !in chars
    requires forall i :: 0 <= i < |tail| ==> tail[i] in chars
    ensures RStrip(p + tail, chars) == p
  {
    var s := p + tail;
    assert p <= s;
    forall i | |p| <= i < |s| ensures s[i] in chars {
      assert s[i] == tail[i - |p|];
    }
    RStripUnique(s, chars, p);
  }
}
