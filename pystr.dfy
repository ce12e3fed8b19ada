/** The few Python `str` built-ins the shortener relies on: `str.isspace`
    (the characters `str.strip()` removes), `str.strip`, `str.isalnum`
    (restricted to ASCII), and `int(str)` with its inverse `str(int)`. */
module PyStr {
  import opened Wrappers

  /** `ch.isspace()`: the characters Python treats as whitespace, which are
      exactly the ones `str.strip()` and `int()` discard. */
  predicate IsSpace(ch: char) {
    ('\t' <= ch <= '\r') || ('\U{1C}' <= ch <= '\U{1F}') || ch == ' '
    || ch == '\U{85}' || ch == '\U{A0}' || ch == '\U{1680}'
    || ('\U{2000}' <= ch <= '\U{200A}') || ch == '\U{2028}' || ch == '\U{2029}'
    || ch == '\U{202F}' || ch == '\U{205F}' || ch == '\U{3000}'
  }

  predicate IsAsciiDigit(ch: char) { '0' <= ch <= '9' }
  predicate IsAsciiLower(ch: char) { 'a' <= ch <= 'z' }
  predicate IsAsciiUpper(ch: char) { 'A' <= ch <= 'Z' }
  predicate IsAsciiAlpha(ch: char) { IsAsciiLower(ch) || IsAsciiUpper(ch) }
  predicate IsAsciiAlnum(ch: char) { IsAsciiDigit(ch) || IsAsciiAlpha(ch) }

  /** `s.isalnum()` over ASCII: false for the empty string, otherwise true
      when every character is a letter or a digit. */
  predicate IsAlnum(s: string) {
    |s| > 0 && forall i :: 0 <= i < |s| ==> IsAsciiAlnum(s[i])
  }

  /** A string with no whitespace at either end. */
  predicate IsStripped(s: string) {
    s == [] || (!IsSpace(s[0]) && !IsSpace(s[|s| - 1]))
  }

  /** `s.lstrip()`: the longest suffix of `s` that does not start with whitespace. */
  function TrimStart(s: string): (r: string)
    ensures |r| <= |s| && r == s[|s| - |r|..]
    ensures forall i :: 0 <= i < |s| - |r| ==> IsSpace(s[i])
    ensures r == [] || !IsSpace(r[0])
  {
    if s != [] && IsSpace(s[0]) then TrimStart(s[1..]) else s
  }

  /** `s.rstrip()`: the longest prefix of `s` that does not end with whitespace. */
  function TrimEnd(s: string): (r: string)
    ensures |r| <= |s| && r == s[..|r|]
    ensures forall i :: |r| <= i < |s| ==> IsSpace(s[i])
    ensures r == [] || !IsSpace(r[|r| - 1])
  {
    if s != [] && IsSpace(s[|s| - 1]) then TrimEnd(s[..|s| - 1]) else s
  }

  /** `s.strip()`. */
  function Strip(s: string): string {
    TrimEnd(TrimStart(s))
  }

  /** How many characters `strip()` cuts from the front of `s`. */
  function StripOffset(s: string): (i: nat)
    ensures i <= |s|
  {
    |s| - |TrimStart(s)|
  }

  /** What `strip()` returns: the slice of the input starting at StripOffset,
      with nothing but whitespace cut from either side and no whitespace left
      at either end. */
  lemma StripSlice(s: string)
    ensures IsStripped(Strip(s))
    ensures StripOffset(s) + |Strip(s)| <= |s|
    ensures Strip(s) == s[StripOffset(s)..StripOffset(s) + |Strip(s)|]
    ensures forall k :: 0 <= k < StripOffset(s) ==> IsSpace(s[k])
    ensures forall k :: StripOffset(s) + |Strip(s)| <= k < |s| ==> IsSpace(s[k])
  {
    var t := TrimStart(s);
    var i := |s| - |t|;
    var r := TrimEnd(t);
    SliceOfSlice(s, i, |r|);
    forall k | i + |r| <= k < |s| ensures IsSpace(s[k]) {
      assert s[k] == t[k - i];
    }
  }

  lemma SliceOfSlice<T>(s: seq<T>, i: nat, n: nat)
    requires i + n <= |s|
    ensures s[i..][..n] == s[i..i + n]
  {
  }

  /** A string without whitespace at its ends is left as it is. */
  lemma StripStripped(s: string)
    requires IsStripped(s)
    ensures Strip(s) == s
  {
  }

  /** `strip()` is idempotent. */
  lemma StripIdempotent(s: string)
    ensures Strip(Strip(s)) == Strip(s)
  {
    StripSlice(s);
    StripStripped(Strip(s));
  }

  /** Whitespace on either side of a stripped string is what `strip()` removes. */
  lemma {:induction false} StripPadded(before: string, s: string, after: string)
    requires forall k :: 0 <= k < |before| ==> IsSpace(before[k])
    requires forall k :: 0 <= k < |after| ==> IsSpace(after[k])
    requires s != [] && IsStripped(s)
    ensures Strip(before + s + after) == s
  {
    var tail := s + after;
    var whole := before + tail;
    assert whole == before + s + after;
    assert tail[0] == s[0];
    TrimStartPadded(before, tail);
    TrimEndPadded(s, after);
    assert Strip(whole) == TrimEnd(tail);
  }

  lemma {:induction false} TrimStartPadded(before: string, s: string)
    requires forall k :: 0 <= k < |before| ==> IsSpace(before[k])
    requires s != [] && !IsSpace(s[0])
    ensures TrimStart(before + s) == s
  {
    if before != [] {
      var whole := before + s;
      assert whole[1..] == before[1..] + s;
      TrimStartPadded(before[1..], s);
    }
  }

  lemma {:induction false} TrimEndPadded(s: string, after: string)
    requires forall k :: 0 <= k < |after| ==> IsSpace(after[k])
    requires s != [] && !IsSpace(s[|s| - 1])
    ensures TrimEnd(s + after) == s
  {
    if after != [] {
      var n := |after| - 1;
      assert (s + after)[..|s + after| - 1] == s + after[..n];
      TrimEndPadded(s, after[..n]);
    }
  }

  // ---------------------------------------------------------------------
  // int(str) and str(int)
  // ---------------------------------------------------------------------

  predicate AllDigits(s: string) {
    forall i :: 0 <= i < |s| ==> IsAsciiDigit(s[i])
  }

  function DigitValue(ch: char): nat
    requires IsAsciiDigit(ch)
  {
    ch as int - '0' as int
  }

  function DigitChar(d: nat): (ch: char)
    requires d < 10
    ensures IsAsciiDigit(ch) && DigitValue(ch) == d
  {
    ('0' as int + d) as char
  }

  /** The value of a run of decimal digits, most significant first. */
  function DigitsValue(s: string): nat
    requires AllDigits(s)
  {
    if s == [] then 0 else DigitsValue(s[..|s| - 1]) * 10 + DigitValue(s[|s| - 1])
  }

  /** `int(s)` for a base-10 literal: surrounding whitespace is ignored, then an
      optional `+` or `-` and one or more ASCII digits; anything else is the
      ValueError, here None. */
  function ParseInt(s: string): (r: Option<int>)
    ensures r.Some? ==> Strip(s) != []
  {
    ParseLiteral(Strip(s))
  }

  /** An optional sign followed by one or more ASCII digits, and nothing else. */
  function ParseLiteral(t: string): Option<int> {
    if |t| > 1 && (t[0] == '+' || t[0] == '-') && AllDigits(t[1..]) then
      var magnitude: int := DigitsValue(t[1..]);
      Some(if t[0] == '-' then -magnitude else magnitude)
    else if |t| > 0 && AllDigits(t) then
      Some(DigitsValue(t))
    else
      None
  }

  /** The sign an `int()` literal may start with. */
  predicate IsSign(sign: string) {
    sign == "" || sign == "+" || sign == "-"
  }

  /** A run of leading zeros, which `int()` accepts and ignores. */
  predicate IsZeros(zeros: string) {
    forall k :: 0 <= k < |zeros| ==> zeros[k] == '0'
  }

  /** The integer a sign and a magnitude stand for. */
  function Signed(sign: string, n: nat): int {
    var m: int := n;
    if sign == "-" then -m else m
  }

  /** `int()` accepts exactly the strings that are, once stripped, a sign,
      some zeros and the decimal digits of a natural number. */
  lemma ParseIntIff(s: string)
    ensures ParseInt(s).Some? <==>
      exists sign, zeros, n: nat :: IsSign(sign) && IsZeros(zeros) && Strip(s) == sign + zeros + NatToString(n)
  {
    if exists sign, zeros, n: nat :: IsSign(sign) && IsZeros(zeros) && Strip(s) == sign + zeros + NatToString(n) {
      var sign, zeros, n: nat :| IsSign(sign) && IsZeros(zeros) && Strip(s) == sign + zeros + NatToString(n);
      ParseIntValue(s, sign, zeros, n);
    }
    if ParseInt(s).Some? {
      LiteralShape(Strip(s));
    }
  }

  /** The value `int()` gives such a string: the number with its sign. */
  lemma ParseIntValue(s: string, sign: string, zeros: string, n: nat)
    requires IsSign(sign) && IsZeros(zeros) && Strip(s) == sign + zeros + NatToString(n)
    ensures ParseInt(s) == Some(Signed(sign, n))
  {
    LiteralOf(sign, zeros, n);
  }

  /** Every literal `int()` accepts is a sign, zeros and a canonical number. */
  lemma LiteralShape(t: string)
    requires ParseLiteral(t).Some?
    ensures exists sign, zeros, n: nat :: IsSign(sign) && IsZeros(zeros) && t == sign + zeros + NatToString(n)
  {
    var sign, digits := SplitSign(t);
    var zeros := DigitsDecompose(digits);
    var n := DigitsValue(digits);
    Regroup(sign, zeros, NatToString(n));
  }

  /** The sign and the digits of a literal `int()` accepts. */
  lemma SplitSign(t: string) returns (sign: string, digits: string)
    requires ParseLiteral(t).Some?
    ensures IsSign(sign) && digits != [] && AllDigits(digits) && t == sign + digits
  {
    if |t| > 1 && (t[0] == '+' || t[0] == '-') && AllDigits(t[1..]) {
      sign, digits := t[..1], t[1..];
      assert sign == [t[0]];
    } else {
      sign, digits := [], t;
    }
  }

  lemma Regroup(a: string, b: string, c: string)
    ensures a + b + c == a + (b + c)
  {
  }

  /** A sign, zeros and the digits of `n` read back as `n` with that sign. */
  lemma LiteralOf(sign: string, zeros: string, n: nat)
    requires IsSign(sign) && IsZeros(zeros)
    ensures ParseLiteral(sign + zeros + NatToString(n)) == Some(Signed(sign, n))
  {
    var w := NatToString(n);
    var digits := zeros + w;
    ZerosIgnored(zeros, w);
    Regroup(sign, zeros, w);
    SignedLiteral(sign, digits);
  }

  /** A sign followed by a non-empty run of digits reads as their value with that sign. */
  lemma SignedLiteral(sign: string, digits: string)
    requires IsSign(sign) && digits != [] && AllDigits(digits)
    ensures ParseLiteral(sign + digits) == Some(Signed(sign, DigitsValue(digits)))
  {
    var t := sign + digits;
    if sign == "" {
      assert t == digits;
      assert !(t[0] == '+' || t[0] == '-');
    } else {
      assert t[0] == sign[0] && t[1..] == digits;
    }
  }

  /** Leading zeros do not change the value of a run of digits. */
  lemma {:induction false} ZerosIgnored(zeros: string, u: string)
    requires IsZeros(zeros) && AllDigits(u)
    ensures AllDigits(zeros + u) && DigitsValue(zeros + u) == DigitsValue(u)
  {
    var t := zeros + u;
    assert AllDigits(t);
    if u == [] {
      assert t == zeros;
      ZerosValue(zeros);
    } else {
      assert t[..|t| - 1] == zeros + u[..|u| - 1];
      ZerosIgnored(zeros, u[..|u| - 1]);
    }
  }

  lemma {:induction false} ZerosValue(zeros: string)
    requires IsZeros(zeros)
    ensures AllDigits(zeros) && DigitsValue(zeros) == 0
  {
    if zeros != [] {
      ZerosValue(zeros[..|zeros| - 1]);
    }
  }

  /** Every non-empty run of digits is some zeros followed by the canonical
      spelling of its value. */
  lemma DigitsDecompose(digits: string) returns (zeros: string)
    requires digits != [] && AllDigits(digits)
    ensures IsZeros(zeros) && digits == zeros + NatToString(DigitsValue(digits))
  {
    var k := LeadingZeros(digits);
    zeros := digits[..k];
    var u := digits[k..];
    assert digits == zeros + u;
    ZerosIgnored(zeros, u);
    Canonical(u);
  }

  /** The number of leading zeros of a run of digits, keeping its last digit. */
  function LeadingZeros(digits: string): (k: nat)
    requires digits != []
    ensures k < |digits| && IsZeros(digits[..k])
    ensures digits[k] != '0' || k == |digits| - 1
  {
    if |digits| > 1 && digits[0] == '0' then 1 + LeadingZeros(digits[1..]) else 0
  }

  /** A run of digits without a leading zero is the spelling of its value. */
  lemma {:induction false} Canonical(u: string)
    requires u != [] && AllDigits(u)
    requires u[0] != '0' || |u| == 1
    ensures u == NatToString(DigitsValue(u))
  {
    var p, c := u[..|u| - 1], u[|u| - 1];
    if |u| == 1 {
      assert DigitChar(DigitValue(c)) == c;
    } else {
      assert p[0] == u[0];
      Leading(p);
      Canonical(p);
      var v := DigitsValue(u);
      assert v / 10 == DigitsValue(p) && v % 10 == DigitValue(c);
      assert DigitChar(DigitValue(c)) == c;
      assert u == p + [c];
    }
  }

  /** Digits with a non-zero first digit have a positive value. */
  lemma {:induction false} Leading(p: string)
    requires p != [] && AllDigits(p) && p[0] != '0'
    ensures DigitsValue(p) > 0
  {
    if |p| > 1 {
      var q := p[..|p| - 1];
      assert q[0] == p[0];
      Leading(q);
    }
  }

  /** Worked case of `int()`: leading zeros are accepted. */
  lemma ParseIntZeros()
    ensures ParseInt("007") == Some(7)
  {
    var t := "007";
    assert NatToString(7) == "7";
    assert "" + "00" + "7" == t;
    LiteralOf("", "00", 7);
    Accepted(t);
  }

  /** Worked case of `int()`: a leading `+` is accepted. */
  lemma ParseIntPlus()
    ensures ParseInt("+5") == Some(5)
  {
    var t := "+5";
    assert NatToString(5) == "5";
    assert "+" + "" + "5" == t;
    LiteralOf("+", "", 5);
    Accepted(t);
  }

  /** Worked case of `int()`: `-0` is zero. */
  lemma ParseIntMinusZero()
    ensures ParseInt("-0") == Some(0)
  {
    var t := "-0";
    assert NatToString(0) == "0";
    assert "-" + "" + "0" == t;
    LiteralOf("-", "", 0);
    Accepted(t);
  }

  /** Worked cases of `int()`: a decimal point or letters are refused. */
  lemma ParseIntRejects()
    ensures ParseInt("1.5") == None
    ensures ParseInt("abc") == None
  {
    Refused("1.5", 1);
    Refused("abc", 0);
  }

  lemma Accepted(t: string)
    requires IsStripped(t)
    ensures ParseInt(t) == ParseLiteral(t)
  {
    StripStripped(t);
  }

  lemma Refused(t: string, k: nat)
    requires IsStripped(t) && k < |t| && !IsAsciiDigit(t[k]) && (k == 0 ==> t[0] != '+' && t[0] != '-')
    ensures ParseInt(t) == None
  {
    RefusedLiteral(t, k);
    StripStripped(t);
  }

  lemma RefusedLiteral(t: string, k: nat)
    requires k < |t| && !IsAsciiDigit(t[k]) && (k == 0 ==> t[0] != '+' && t[0] != '-')
    ensures ParseLiteral(t) == None
  {
    if k > 0 {
      assert t[1..][k - 1] == t[k];
    }
  }

  /** `str(n)` for a natural number: its decimal digits without leading zeros. */
  function NatToString(n: nat): (s: string)
    ensures |s| > 0 && AllDigits(s)
    ensures DigitsValue(s) == n
    ensures s[0] != '0' || n == 0
  {
    if n < 10 then [DigitChar(n)]
    else
      var prefix := NatToString(n / 10);
      var s := prefix + [DigitChar(n % 10)];
      assert s[..|s| - 1] == prefix;
      s
  }

  /** `str(i)`. */
  function IntToString(i: int): (s: string)
  {
    if i < 0 then "-" + NatToString(-i) else NatToString(i)
  }

  /** `int(str(i)) == i`, even with whitespace around the digits. */
  lemma ParseIntRoundTrip(before: string, i: int, after: string)
    requires forall k :: 0 <= k < |before| ==> IsSpace(before[k])
    requires forall k :: 0 <= k < |after| ==> IsSpace(after[k])
    ensures ParseInt(before + IntToString(i) + after) == Some(i)
  {
    LiteralRoundTrip(i);
    StripPadded(before, IntToString(i), after);
  }

  /** `str(i)` is a literal `int` reads back as `i`, with nothing to strip. */
  lemma LiteralRoundTrip(i: int)
    ensures IntToString(i) != [] && IsStripped(IntToString(i))
    ensures ParseLiteral(IntToString(i)) == Some(i)
  {
    var s := IntToString(i);
    if i < 0 {
      assert s[1..] == NatToString(-i);
    }
  }
}
