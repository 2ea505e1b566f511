/**
 * Python's `int(text)` for a `str` argument in base 10, and the decimal
 * rendering `str(n)` used as its inverse: surrounding whitespace is
 * ignored, one optional sign is allowed, and the digits may be grouped by
 * single underscores that stand between two digits (`"1_000"`), leading
 * zeros included (`"007"`).
 */
module PyInt {
  import opened Wrappers
  import PyStr

  /** The ASCII whitespace `int()` skips around a literal: space, and tab through carriage return. */
  const Whitespace: set<char> := {' ', '\t', '\n', '\U{B}', '\U{C}', '\r'}

  predicate IsDigit(c: char) { '0' <= c <= '9' }

  /** Position `i` of `s` holds a digit, or an underscore that a digit follows. */
  predicate GroupedAt(s: string, i: nat)
    requires i < |s|
  {
    IsDigit(s[i]) || (s[i] == '_' && i + 1 < |s| && IsDigit(s[i + 1]))
  }

  /** A digit string as `int()` accepts it: digits, with an underscore allowed only between two digits. */
  predicate DigitGroups(s: string)
  {
    && |s| > 0
    && IsDigit(s[0])
    && forall i :: 0 <= i < |s| ==> GroupedAt(s, i)
  }

  /** The number that the digits of `s` spell in base 10; underscores carry no value. */
  function DigitsValue(s: string): nat
  {
    if s == [] then 0
    else
      var last := s[|s| - 1];
      if IsDigit(last) then DigitsValue(s[..|s| - 1]) * 10 + (last as int - '0' as int)
      else DigitsValue(s[..|s| - 1])
  }

  /** An integer literal once surrounding whitespace is gone: an optional sign, then digit groups. */
  function ParseLiteral(t: string): (r: Option<int>)
    ensures r.Some? ==> |t| > 0 && !(t[0] in Whitespace)
  {
    if |t| > 0 && (t[0] == '-' || t[0] == '+') then
      var body := t[1..];
      var v: int := DigitsValue(body);
      if DigitGroups(body) then Some(if t[0] == '-' then -v else v) else None
    else if DigitGroups(t) then Some(DigitsValue(t))
    else None
  }

  /** `int(s)`: `None` is the `ValueError` Python raises for text that is not an integer literal. */
  function ParseInt(s: string): (r: Option<int>)
    ensures r.Some? ==> PyStr.Strip(s, Whitespace) != []
    ensures (forall i :: 0 <= i < |s| ==> s[i] in Whitespace) ==> r.None?
  {
    ParseLiteral(PyStr.Strip(s, Whitespace))
  }

  /** What `int()` accepts is made only of whitespace, digits, underscores and signs. */
  lemma {:induction false} ParseIntOnlyLiteralChars(s: string)
    requires ParseInt(s).Some?
    ensures forall i :: 0 <= i < |s| ==> s[i] in Whitespace || IsDigit(s[i]) || s[i] in {'_', '+', '-'}
  {
    var l := PyStr.LStrip(s, Whitespace);
    var t := PyStr.RStrip(l, Whitespace);
    var k := |s| - |l|;
    assert ParseLiteral(t).Some?;
    forall j | 0 <= j < |t| ensures IsDigit(t[j]) || t[j] in {'_', '+', '-'} {
      if t[0] == '-' || t[0] == '+' {
        if j > 0 {
          var body := t[1..];
          assert DigitGroups(body);
          DigitGroupsChars(body, j - 1);
          assert t[j] == body[j - 1];
        }
      } else {
        assert DigitGroups(t);
        DigitGroupsChars(t, j);
      }
    }
    forall i | 0 <= i < |s|
      ensures s[i] in Whitespace || IsDigit(s[i]) || s[i] in {'_', '+', '-'}
    {
      if i >= k {
        assert s[i] == l[i - k];
        if i - k < |t| { assert l[i - k] == t[i - k]; }
      }
    }
  }

  lemma DigitGroupsChars(s: string, j: nat)
    requires DigitGroups(s) && j < |s|
    ensures IsDigit(s[j]) || s[j] == '_'
  {
    assert GroupedAt(s, j);
  }

  function DigitChar(d: nat): (c: char)
    requires d < 10
    ensures IsDigit(c) && c as int - '0' as int == d
  {
    ('0' as int + d) as char
  }

  /** `str(n)` for a natural number: its decimal digits, without leading zeros. */
  function ShowNat(n: nat): (s: string)
    ensures |s| > 0
    ensures forall i :: 0 <= i < |s| ==> IsDigit(s[i])
    ensures |s| > 1 ==> s[0] != '0'
  {
    if n < 10 then [DigitChar(n)] else ShowNat(n / 10) + [DigitChar(n % 10)]
  }

  /** `str(n)` for any integer. */
  function ShowInt(n: int): (s: string)
    ensures |s| > 0
  {
    if n < 0 then "-" + ShowNat(-n) else ShowNat(n)
  }

  /** The digits of `str(n)` spell `n` back. */
  lemma {:induction false} ShowNatValue(n: nat)
    ensures DigitsValue(ShowNat(n)) == n
  {
    var s := ShowNat(n);
    if n >= 10 {
      ShowNatValue(n / 10);
      assert s[..|s| - 1] == ShowNat(n / 10);
    }
  }

  /** Text made only of digits has nothing for `strip` to remove. */
  lemma {:induction false} DigitsUnstripped(s: string)
    requires |s| > 0 && IsDigit(s[|s| - 1])
    requires IsDigit(s[0]) || s[0] == '-'
    ensures PyStr.Strip(s, Whitespace) == s
  {
    PyStr.RStripUnique(s, Whitespace, s);
  }

  /** Round trip: `int(str(n)) == n` for every integer `n`. */
  lemma {:induction false} ParseShowInt(n: int)
    ensures ParseInt(ShowInt(n)) == Some(n)
  {
    var s := ShowInt(n);
    ShowIntUnstripped(n);
    ShowIntLiteral(n);
    assert ParseInt(s) == ParseLiteral(PyStr.Strip(s, Whitespace));
  }

  lemma {:induction false} ShowIntUnstripped(n: int)
    ensures PyStr.Strip(ShowInt(n), Whitespace) == ShowInt(n)
  {
    var m: nat := if n < 0 then -n else n;
    var digits := ShowNat(m);
    if n < 0 {
      assert ShowInt(n) == "-" + digits;
      assert ("-" + digits)[|"-" + digits| - 1] == digits[|digits| - 1];
      DigitsUnstripped("-" + digits);
    } else {
      assert ShowInt(n) == digits;
      DigitsUnstripped(digits);
    }
  }

  lemma {:induction false} ShowIntLiteral(n: int)
    ensures ParseLiteral(ShowInt(n)) == Some(n)
  {
    var m: nat := if n < 0 then -n else n;
    var digits := ShowNat(m);
    ShowNatValue(m);
    assert DigitGroups(digits);
    if n < 0 {
      var s := "-" + digits;
      assert ShowInt(n) == s;
      assert s[0] == '-' && s[1..] == digits;
    } else {
      assert ShowInt(n) == digits;
    }
  }

  /** Whitespace around an integer literal does not change what `int()` reads. */
  lemma {:induction false} ParseIgnoresWhitespace(pre: string, s: string, post: string)
    requires forall i :: 0 <= i < |pre| ==> pre[i] in Whitespace
    requires forall i :: 0 <= i < |post| ==> post[i] in Whitespace
    requires ParseInt(s).Some?
    ensures ParseInt(pre + s + post) == ParseInt(s)
  {
    StripPadded(pre, s, post, Whitespace);
  }

  /** `strip` removes padding made of the characters it strips, once the text has something else in it. */
  lemma {:induction false} StripPadded(pre: string, s: string, post: string, chars: set<char>)
    requires forall i :: 0 <= i < |pre| ==> pre[i] in chars
    requires forall i :: 0 <= i < |post| ==> post[i] in chars
    requires PyStr.Strip(s, chars) != []
    ensures PyStr.Strip(pre + s + post, chars) == PyStr.Strip(s, chars)
  {
    var l := PyStr.LStrip(s, chars);
    assert pre + s + post == pre + (s + post);
    LStripSkips(pre, s + post, chars);
    LStripKeepsTail(s, post, chars);
    RStripPadded(l, post, chars);
  }

  /** Leading characters to strip are skipped whatever follows them. */
  lemma {:induction false} LStripSkips(pre: string, x: string, chars: set<char>)
    requires forall i :: 0 <= i < |pre| ==> pre[i] in chars
    ensures PyStr.LStrip(pre + x, chars) == PyStr.LStrip(x, chars)
    decreases |pre|
  {
    if pre == [] {
      assert pre + x == x;
    } else {
      assert (pre + x)[0] == pre[0] && pre[0] in chars;
      assert (pre + x)[1..] == pre[1..] + x;
      LStripSkips(pre[1..], x, chars);
    }
  }

  /** Once `lstrip` has reached a character it keeps, whatever follows is kept too. */
  lemma {:induction false} LStripKeepsTail(s: string, post: string, chars: set<char>)
    requires PyStr.LStrip(s, chars) != []
    ensures PyStr.LStrip(s + post, chars) == PyStr.LStrip(s, chars) + post
    decreases |s|
  {
    assert (s + post)[0] == s[0];
    if s[0] in chars {
      assert (s + post)[1..] == s[1..] + post;
      LStripKeepsTail(s[1..], post, chars);
    }
  }

  /** Trailing characters to strip are removed along with any already there. */
  lemma {:induction false} RStripPadded(l: string, post: string, chars: set<char>)
    requires forall i :: 0 <= i < |post| ==> post[i] in chars
    ensures PyStr.RStrip(l + post, chars) == PyStr.RStrip(l, chars)
  {
    var r := PyStr.RStrip(l, chars);
    var lp := l + post;
    assert r <= lp;
    forall i | |r| <= i < |lp| ensures lp[i] in chars {
      if i < |l| { assert lp[i] == l[i]; } else { assert lp[i] == post[i - |l|]; }
    }
    PyStr.RStripUnique(lp, chars, r);
  }
}
