/**
 * The few operations on Python 3 `str` values that the validation rules use:
 * `str.isspace` on one character, `str.strip()`, a full match of the regular
 * expression `\d{n}` and the substring test `w in s`.  A Python `str` is a
 * sequence of code points and a Dafny `string` is a sequence of Unicode
 * scalar values (code points other than surrogates), so for every string
 * without a lone surrogate `len(s)` is `|s|`.
 */
module PyStr {

  /** The characters for which Python 3's `str.isspace()` holds, and so the
      ones `str.strip()` with no argument removes. */
  predicate IsSpace(c: char) {
    ('\t' <= c <= '\r')                   // \t \n \v \f \r
    || ('\U{1C}' <= c <= ' ')             // file, group, record, unit separators, space
    || c == '\U{85}' || c == '\U{A0}' || c == '\U{1680}'
    || ('\U{2000}' <= c <= '\U{200A}')
    || c == '\U{2028}' || c == '\U{2029}' || c == '\U{202F}'
    || c == '\U{205F}' || c == '\U{3000}'
  }

  /** Every character of `s` is white space (vacuously so for ""). */
  predicate IsBlank(s: string) {
    forall i :: 0 <= i < |s| ==> IsSpace(s[i])
  }

  /** The characters the regular-expression class `\d` matches, restricted to ASCII. */
  predicate IsDigit(c: char) {
    '0' <= c <= '9'
  }

  /** `str.lstrip()`: `s` without its leading white space. */
  function LStrip(s: string): (r: string)
    ensures |r| <= |s| && r == s[|s| - |r|..]
    ensures forall i :: 0 <= i < |s| - |r| ==> IsSpace(s[i])
    ensures r != [] ==> !IsSpace(r[0])
  {
    if s != [] && IsSpace(s[0]) then LStrip(s[1..]) else s
  }

  /** `str.rstrip()`: `s` without its trailing white space. */
  function RStrip(s: string): (r: string)
    ensures |r| <= |s| && r == s[..|r|]
    ensures forall i :: |r| <= i < |s| ==> IsSpace(s[i])
    ensures r != [] ==> !IsSpace(r[|r| - 1])
  {
    if s != [] && IsSpace(s[|s| - 1]) then RStrip(s[..|s| - 1]) else s
  }

  /** `str.strip()`: `s` without white space at either end.  The result is
      empty exactly when `s` holds nothing but white space. */
  function Strip(s: string): (r: string)
    ensures r == [] <==> IsBlank(s)
    ensures r != [] ==> !IsSpace(r[0]) && !IsSpace(r[|r| - 1])
  {
    var l := LStrip(s);
    var r := RStrip(l);
    if r == [] then
      assert forall i :: 0 <= i < |s| ==> IsSpace(s[i]) by {
        forall i | 0 <= i < |s| ensures IsSpace(s[i]) {
          if i >= |s| - |l| {
            assert s[i] == l[i - (|s| - |l|)];
          }
        }
      }
      r
    else
      assert !IsSpace(l[0]) by { assert r[0] == l[0]; }
      assert s[|s| - |l|] == l[0];
      r
  }

  /** `re.fullmatch(r"\d{n}", s)` succeeds: the pattern, `n` repetitions of
      one digit, read off `s` one character at a time with nothing left over. */
  predicate FullMatchDigits(s: string, n: nat) {
    if n == 0 then s == [] else s != [] && IsDigit(s[0]) && FullMatchDigits(s[1..], n - 1)
  }

  /** The regular expression `\d{n}` matches all of `s` exactly when `s` has
      `n` characters, each of them a digit. */
  lemma {:induction false} FullMatchDigitsIff(s: string, n: nat)
    ensures FullMatchDigits(s, n) <==> |s| == n && forall i :: 0 <= i < |s| ==> IsDigit(s[i])
  {
    if n != 0 && s != [] {
      FullMatchDigitsIff(s[1..], n - 1);
      if IsDigit(s[0]) && |s| == n && FullMatchDigits(s[1..], n - 1) {
        forall i | 0 <= i < |s| ensures IsDigit(s[i]) {
          if i > 0 { assert s[i] == s[1..][i - 1]; }
        }
      }
      if |s| == n && forall i :: 0 <= i < |s| ==> IsDigit(s[i]) {
        assert forall i :: 0 <= i < |s[1..]| ==> IsDigit(s[1..][i]) by {
          forall i | 0 <= i < |s[1..]| ensures IsDigit(s[1..][i]) {
            assert s[1..][i] == s[i + 1];
          }
        }
      }
    }
  }

  /** `w` occurs in `s` starting at index `i`. */
  predicate OccursAt(w: string, s: string, i: int) {
    0 <= i && i + |w| <= |s| && s[i..i + |w|] == w
  }

  /** Python's `w in s` for two strings, tried at each start position from
      left to right: `w` is a prefix of `s` or occurs in `s` past its first
      character.  The empty string is in every string. */
  predicate Contains(s: string, w: string) {
    w <= s || (s != [] && Contains(s[1..], w))
  }

  /** `w in s` holds exactly when `w` occurs in `s` at some index. */
  lemma {:induction false} ContainsIffOccurs(s: string, w: string)
    ensures Contains(s, w) <==> exists i :: OccursAt(w, s, i)
  {
    if w <= s {
      assert OccursAt(w, s, 0);
    } else if s == [] {
      assert w != [];
    } else {
      ContainsIffOccurs(s[1..], w);
      assert !OccursAt(w, s, 0) by {
        if |w| <= |s| { assert s[0..|w|] == s[..|w|]; }
      }
      if i :| OccursAt(w, s[1..], i) {
        assert s[1..][i..i + |w|] == s[i + 1..i + 1 + |w|];
        assert OccursAt(w, s, i + 1);
      }
      if i :| OccursAt(w, s, i) {
        assert s[1..][i - 1..i - 1 + |w|] == s[i..i + |w|];
        assert OccursAt(w, s[1..], i - 1);
      }
    }
  }

  /** A non-empty `w` is not in a string that lacks its first character. */
  lemma {:induction false} NotContainedWithoutFirstChar(s: string, w: string)
    requires w != [] && w[0] !in s
    ensures !Contains(s, w)
  {
    if s != [] {
      assert !(w <= s) by { assert s[0] in s; }
      NotContainedWithoutFirstChar(s[1..], w);
    }
  }
}
