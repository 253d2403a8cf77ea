/**
  The heart-beat interval `setupHeartBeatTimer` derives from the value of the
  `heart-beat` header of a CONNECTED frame: the first comma-separated
  component, read as a number of milliseconds, turned into seconds and scaled
  by 0.8.  `Double(String)` is modelled on plain decimal numerals only.
 */
module Heartbeat {
  import opened Wrappers
  import opened Text

  predicate IsDigit(c: char)
  {
    '0' <= c <= '9'
  }

  predicate IsDigits(s: string)
  {
    forall k :: 0 <= k < |s| ==> IsDigit(s[k])
  }

  function DigitValue(c: char): nat
    requires IsDigit(c)
  {
    (c as int) - ('0' as int)
  }

  function DigitChar(d: nat): char
    requires d < 10
  {
    (('0' as int) + d) as char
  }

  /** The value of a digit string, read left to right. */
  function DigitsValue(s: string): nat
    requires IsDigits(s)
    decreases |s|
  {
    if |s| == 0 then 0 else DigitsValue(s[..|s| - 1]) * 10 + DigitValue(s[|s| - 1])
  }

  /** `Double(s)` on a decimal numeral: a value exactly when `s` is a non-empty run of digits. */
  function ParseDecimal(s: string): (r: Option<nat>)
    ensures r.Some? <==> |s| > 0 && IsDigits(s)
  {
    if |s| > 0 && IsDigits(s) then Some(DigitsValue(s)) else None
  }

  /** The shortest numeral of `n`. */
  function Decimal(n: nat): (s: string)
    decreases n
  {
    if n < 10 then [DigitChar(n)] else Decimal(n / 10) + [DigitChar(n % 10)]
  }

  /** A numeral is a non-empty run of digits, with no leading zero unless it is "0". */
  lemma {:induction false} DecimalShape(n: nat)
    ensures |Decimal(n)| > 0 && IsDigits(Decimal(n))
    ensures |Decimal(n)| > 1 ==> Decimal(n)[0] != '0'
    ensures n < 10 <==> |Decimal(n)| == 1
    decreases n
  {
    if n >= 10 {
      DecimalShape(n / 10);
      var s := Decimal(n);
      assert s[..|s| - 1] == Decimal(n / 10);
      assert s[0] == Decimal(n / 10)[0];
    }
  }

  /** Reading the numeral of `n` gives back `n`. */
  lemma {:induction false} DecimalRoundTrip(n: nat)
    ensures ParseDecimal(Decimal(n)) == Some(n)
    decreases n
  {
    DecimalShape(n);
    var s := Decimal(n);
    if n < 10 {
      assert s[..0] == "" && DigitsValue(s[..0]) == 0;
      assert DigitValue(DigitChar(n)) == n;
    } else {
      DecimalRoundTrip(n / 10);
      assert s[..|s| - 1] == Decimal(n / 10);
      assert DigitValue(DigitChar(n % 10)) == n % 10;
    }
  }

  /** Writing the value of a numeral without a leading zero gives back the numeral. */
  lemma {:induction false} DigitsRoundTrip(s: string)
    requires |s| > 0 && IsDigits(s) && (|s| == 1 || s[0] != '0')
    ensures Decimal(DigitsValue(s)) == s
    decreases |s|
  {
    var n := DigitsValue(s);
    if |s| == 1 {
      assert s[..0] == "" && DigitsValue(s[..0]) == 0;
    } else {
      var t := s[..|s| - 1];
      assert t[0] == s[0];
      assert IsDigits(t);
      DigitsRoundTrip(t);
      LeadingDigitBound(t);
      assert n / 10 == DigitsValue(t) && n % 10 == DigitValue(s[|s| - 1]);
      assert s == t + [s[|s| - 1]];
    }
  }

  /** A numeral of two or more digits without a leading zero is at least 1. */
  lemma LeadingDigitBound(s: string)
    requires |s| > 0 && IsDigits(s) && (|s| == 1 || s[0] != '0')
    ensures |s| > 1 ==> DigitsValue(s) >= 1
  {
    if |s| > 1 {
      LeadingDigitPositive(s);
    }
  }

  /** A digit string whose first digit is not zero has a positive value. */
  lemma {:induction false} LeadingDigitPositive(s: string)
    requires |s| > 0 && IsDigits(s) && s[0] != '0'
    ensures DigitsValue(s) >= 1
    decreases |s|
  {
    if |s| > 1 {
      var t := s[..|s| - 1];
      assert t[0] == s[0];
      LeadingDigitPositive(t);
    }
  }

  /** `hearBeat.components(separatedBy: ",").first`: the text before the first comma. */
  function FirstComponent(value: string): string
  {
    Split(value, ',')[0]
  }

  /**
    The timer interval in seconds, `(pingTime / 1000) * 0.8`, or no timer when
    the first component is not a numeral.
   */
  function HeartbeatPeriod(value: string): (r: Option<real>)
    ensures var first := FirstComponent(value);
      && (r.Some? <==> |first| > 0 && IsDigits(first))
      && (r.Some? ==> r.value == DigitsValue(first) as real * 4.0 / 5000.0 && r.value >= 0.0)
  {
    match ParseDecimal(FirstComponent(value))
    case Some(ms) => Some(ms as real / 1000.0 * 0.8)
    case None => None
  }

  /** Only the first component counts: whatever follows the first comma is ignored. */
  lemma PeriodUsesFirstComponent(a: string, b: string)
    requires ',' !in a
    ensures HeartbeatPeriod(a + [','] + b) == HeartbeatPeriod(a)
  {
    SplitCons(a, b, ',');
    SplitNoSeparator(a, ',');
  }

  /** A value whose first component is the numeral of `n` gives a period of 0.8 * n milliseconds. */
  lemma PeriodOfNumeral(n: nat, rest: string)
    ensures HeartbeatPeriod(Decimal(n) + [','] + rest) == Some(n as real * 4.0 / 5000.0)
    ensures HeartbeatPeriod(Decimal(n)) == Some(n as real * 4.0 / 5000.0)
  {
    DecimalShape(n);
    DecimalRoundTrip(n);
    var s := Decimal(n);
    assert ',' !in s by {
      assert forall k :: 0 <= k < |s| ==> s[k] != ',';
    }
    SplitNoSeparator(s, ',');
    PeriodUsesFirstComponent(s, rest);
  }
}
