/** String helpers the calendar relies on from JavaScript: `String.prototype.trim`
    and the decimal reading and writing of non-negative integers. */
module Text {

  /** The whitespace `trim` removes, restricted to ASCII. */
  predicate IsSpace(c: char) {
    c == ' ' || c == '\t' || c == '\n' || c == '\r' || c == '\U{B}' || c == '\U{C}'
  }

  /** True when the string has nothing but whitespace (or nothing at all). */
  predicate IsBlank(s: string) {
    forall i :: 0 <= i < |s| ==> IsSpace(s[i])
  }

  /** `s` with its leading whitespace removed. */
  function TrimStart(s: string): (r: string)
    ensures |r| <= |s| && r == s[|s| - |r|..]
    ensures IsBlank(s[..|s| - |r|])
    ensures r == [] || !IsSpace(r[0])
  {
    if s != [] && IsSpace(s[0]) then TrimStart(s[1..]) else s
  }

  /** `s` with its trailing whitespace removed. */
  function TrimEnd(s: string): (r: string)
    ensures |r| <= |s| && r == s[..|r|]
    ensures IsBlank(s[|r|..])
    ensures r == [] || !IsSpace(r[|r| - 1])
  {
    if s != [] && IsSpace(s[|s| - 1]) then TrimEnd(s[..|s| - 1]) else s
  }

  /** `s.trim()`: never longer than `s`, and neither end of it is whitespace. */
  function Trim(s: string): (t: string)
    ensures |t| <= |s|
    ensures t == [] || (!IsSpace(t[0]) && !IsSpace(t[|t| - 1]))
  {
    var u := TrimStart(s);
    var t := TrimEnd(u);
    assert t == [] || t[0] == u[0] by {
      if t != [] {
        assert t[0] == u[..|t|][0];
      }
    }
    t
  }

  /** A trimmed string is the middle of `s` between a blank prefix and a blank
      suffix, and neither end of it is whitespace. */
  lemma {:induction false} TrimShape(s: string)
    ensures var k, t := |s| - |TrimStart(s)|, Trim(s);
      && k + |t| <= |s| && s[k..k + |t|] == t
      && IsBlank(s[..k]) && IsBlank(s[k + |t|..])
      && (t == [] || (!IsSpace(t[0]) && !IsSpace(t[|t| - 1])))
  {
    assert Trim(s) == TrimEnd(TrimStart(s));
    MiddleOfSuffix(s, |s| - |TrimStart(s)|, TrimStart(s), Trim(s));
  }

  /** A prefix `t` of the suffix `u` of `s` from `k` on, followed in `u` by
      whitespace only, sits at `k` in `s` with whitespace only after it. */
  lemma MiddleOfSuffix(s: string, k: nat, u: string, t: string)
    requires k <= |s| && u == s[k..]
    requires |t| <= |u| && t == u[..|t|] && IsBlank(u[|t|..])
    ensures k + |t| <= |s| && s[k..k + |t|] == t && IsBlank(s[k + |t|..])
  {
    assert s[k + |t|..] == u[|t|..];
  }

  /** `s.trim()` is empty exactly when `s` is blank. */
  lemma TrimEmptyIffBlank(s: string)
    ensures Trim(s) == [] <==> IsBlank(s)
  {
    var u := TrimStart(s);
    var k := |s| - |u|;
    assert u == s[k..];
    if Trim(s) == [] {
      assert IsBlank(u[0..]);
      forall i | 0 <= i < |s|
        ensures IsSpace(s[i])
      {
        if i < k {
          assert s[..k][i] == s[i];
        } else {
          assert u[0..][i - k] == s[i];
        }
      }
    } else if u != [] {
      assert u[0] == s[k];
    }
  }

  /** A string with no whitespace at either end is its own trim; in particular
      `trim` is idempotent. */
  lemma TrimOfTrimmed(s: string)
    requires s == [] || (!IsSpace(s[0]) && !IsSpace(s[|s| - 1]))
    ensures Trim(s) == s
  {
  }

  lemma TrimIdempotent(s: string)
    ensures Trim(Trim(s)) == Trim(s)
  {
    TrimOfTrimmed(Trim(s));
  }

  predicate IsDigit(c: char) {
    '0' <= c <= '9'
  }

  predicate AllDigits(s: string) {
    forall i :: 0 <= i < |s| ==> IsDigit(s[i])
  }

  function DigitChar(n: int): (c: char)
    requires 0 <= n < 10
    ensures IsDigit(c)
  {
    ('0' as int + n) as char
  }

  function DigitValue(c: char): (n: int)
    requires IsDigit(c)
    ensures 0 <= n < 10 && DigitChar(n) == c
  {
    c as int - '0' as int
  }

  /** The value of a string of decimal digits; the empty string reads as 0, as
      `Number("")` does. */
  function DecimalValue(s: string): (n: nat)
    requires AllDigits(s)
  {
    if s == [] then 0 else 10 * DecimalValue(s[..|s| - 1]) + DigitValue(s[|s| - 1])
  }

  /** The decimal numeral of `n`, as JavaScript writes a non-negative integer. */
  function NatToString(n: nat): (s: string)
    ensures s != [] && AllDigits(s)
  {
    if n < 10 then [DigitChar(n)] else NatToString(n / 10) + [DigitChar(n % 10)]
  }

  /** Writing a number and reading it back gives the number. */
  lemma {:induction false} DecimalRoundTrip(n: nat)
    ensures DecimalValue(NatToString(n)) == n
  {
    if n >= 10 {
      DecimalRoundTrip(n / 10);
      var s := NatToString(n);
      assert s[..|s| - 1] == NatToString(n / 10);
    }
  }
}
