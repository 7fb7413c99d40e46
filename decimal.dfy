/** Decimal numerals as JavaScript template literals print non-negative
    integers (`${n}`), and the parser that reads them back. The pipeline prints
    numbers into error messages and into tile paths; the parser is what shows
    that nothing is lost in that printing. */
module Decimal {
  import opened Bytes

  predicate IsDigit(c: char) {
    '0' <= c <= '9'
  }

  predicate AllDigits(s: string) {
    forall k :: 0 <= k < |s| ==> IsDigit(s[k])
  }

  /** A numeral as `${n}` prints one: non-empty, digits only, and no leading
      zero unless it is "0" itself. */
  predicate IsCanonical(s: string) {
    s != [] && AllDigits(s) && (s[0] == '0' ==> |s| == 1)
  }

  function DigitChar(d: nat): (c: char)
    requires d < 10
    ensures IsDigit(c)
  {
    ('0' as int + d) as char
  }

  function DigitValue(c: char): (d: nat)
    requires IsDigit(c)
    ensures d < 10 && DigitChar(d) == c
  {
    c as int - '0' as int
  }

  /** `${n}` for a non-negative integer n. */
  function NatToString(n: nat): (s: string)
    ensures IsCanonical(s)
    ensures s[0] == '0' <==> n == 0
    decreases n
  {
    if n < 10 then [DigitChar(n)] else NatToString(n / 10) + [DigitChar(n % 10)]
  }

  /** The value of a string of digits, most significant first. */
  function DigitsValue(s: string): nat
    requires AllDigits(s)
    decreases |s|
  {
    if s == [] then 0 else DigitsValue(s[..|s| - 1]) * 10 + DigitValue(s[|s| - 1])
  }

  lemma {:induction false} DigitsValueOfNatToString(n: nat)
    ensures DigitsValue(NatToString(n)) == n
    decreases n
  {
    var s := NatToString(n);
    if n >= 10 {
      DigitsValueOfNatToString(n / 10);
      assert s[..|s| - 1] == NatToString(n / 10);
    }
  }

  lemma {:induction false} LeadingNonZeroValue(s: string)
    requires s != [] && AllDigits(s) && s[0] != '0'
    ensures DigitsValue(s) > 0
    decreases |s|
  {
    if |s| > 1 {
      LeadingNonZeroValue(s[..|s| - 1]);
    }
  }

  lemma {:induction false} NatToStringOfDigitsValue(s: string)
    requires IsCanonical(s)
    ensures NatToString(DigitsValue(s)) == s
    decreases |s|
  {
    if |s| > 1 {
      var init := s[..|s| - 1];
      NatToStringOfDigitsValue(init);
      LeadingNonZeroValue(init);
      var v := DigitsValue(init);
      var d := DigitValue(s[|s| - 1]);
      assert DigitsValue(s) == v * 10 + d;
      assert (v * 10 + d) / 10 == v && (v * 10 + d) % 10 == d;
      assert s == init + [s[|s| - 1]];
    }
  }

  /** Printing is injective: two different numbers never print alike. */
  lemma NatToStringInjective(m: nat, n: nat)
    ensures NatToString(m) == NatToString(n) <==> m == n
  {
    DigitsValueOfNatToString(m);
    DigitsValueOfNatToString(n);
  }

  /** Reads a numeral back; only the strings `${n}` produces are accepted. */
  function ParseNat(s: string): (r: Option<nat>)
    ensures r.Some? <==> IsCanonical(s)
    ensures r.Some? ==> NatToString(r.value) == s
  {
    if IsCanonical(s) then
      NatToStringOfDigitsValue(s);
      Some(DigitsValue(s))
    else None
  }

  lemma ParseNatOfNatToString(n: nat)
    ensures ParseNat(NatToString(n)) == Some(n)
  {
    DigitsValueOfNatToString(n);
  }

  /** Splits off the longest leading run of digits. */
  function SplitDigits(s: string): (r: (string, string))
    ensures AllDigits(r.0) && r.0 + r.1 == s
    ensures r.1 != [] ==> !IsDigit(r.1[0])
    decreases |s|
  {
    if s != [] && IsDigit(s[0]) then
      var t := SplitDigits(s[1..]);
      var d := [s[0]] + t.0;
      assert AllDigits(d) by {
        forall k | 0 <= k < |d| ensures IsDigit(d[k]) {
          if k > 0 { assert d[k] == t.0[k - 1]; }
        }
      }
      assert d + t.1 == s by {
        assert d + t.1 == [s[0]] + (t.0 + t.1);
      }
      (d, t.1)
    else ([], s)
  }

  /** A run of digits followed by a non-digit (or nothing) splits exactly there. */
  lemma {:induction false} SplitDigitsOf(d: string, rest: string)
    requires AllDigits(d)
    requires rest == [] || !IsDigit(rest[0])
    ensures SplitDigits(d + rest) == (d, rest)
    decreases |d|
  {
    if d != [] {
      assert (d + rest)[0] == d[0] && IsDigit(d[0]);
      assert (d + rest)[1..] == d[1..] + rest;
      SplitDigitsOf(d[1..], rest);
      assert [d[0]] + d[1..] == d;
    } else {
      assert d + rest == rest;
    }
  }
}
