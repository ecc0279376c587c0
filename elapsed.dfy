/** `_format_elapsed_mm_ss` (gui.py:213-217): a duration in seconds written as minutes and
    seconds, each padded to two digits; minutes past 99 simply take more digits. */
module Elapsed {
  import opened Text

  /** `int(x)`: truncation toward zero. */
  function Trunc(x: real): (n: int)
    ensures x >= 0.0 ==> n as real <= x < n as real + 1.0
    ensures x < 0.0 ==> n as real - 1.0 < x <= n as real
  {
    if x >= 0.0 then x.Floor else -((-x).Floor)
  }

  /** The decimal digits of `n`, as `str(n)` writes them. */
  function Decimal(n: nat): (s: string)
    ensures s != [] && forall i :: 0 <= i < |s| ==> IsAsciiDigit(s[i])
  {
    if n < 10 then [DigitChar(n)] else Decimal(n / 10) + [DigitChar(n % 10)]
  }

  predicate AllDigits(s: string)
  {
    forall i :: 0 <= i < |s| ==> IsAsciiDigit(s[i])
  }

  /** The number a string of decimal digits denotes. */
  function DecimalValue(s: string): nat
    requires AllDigits(s)
  {
    if s == [] then 0 else DecimalValue(s[..|s| - 1]) * 10 + DigitValue(s[|s| - 1])
  }

  /** Reading back what `Decimal` wrote gives the number. */
  lemma {:induction false} DecimalRoundTrip(n: nat)
    ensures AllDigits(Decimal(n)) && DecimalValue(Decimal(n)) == n
    decreases n
  {
    if n >= 10 {
      DecimalRoundTrip(n / 10);
      var s := Decimal(n);
      assert s[..|s| - 1] == Decimal(n / 10);
    }
  }

  /** `f"{n:02d}"`: at least two characters, zero-padded after the sign. */
  function Pad2(n: int): (s: string)
  {
    if n < 0 then "-" + Decimal(-n)
    else if n < 10 then "0" + Decimal(n)
    else Decimal(n)
  }

  /** A number padded to two digits reads back as the number, sign included. */
  function SignedValue(s: string): int
    requires (s != [] && s[0] == '-' && AllDigits(s[1..])) || AllDigits(s)
  {
    if s != [] && s[0] == '-' then -(DecimalValue(s[1..]) as int) else DecimalValue(s)
  }

  lemma Pad2RoundTrip(n: int)
    ensures var s := Pad2(n);
      |s| >= 2 && ((s[0] == '-' && AllDigits(s[1..])) || AllDigits(s)) && SignedValue(s) == n
  {
    if n < 0 {
      DecimalRoundTrip(-n);
      assert ("-" + Decimal(-n))[1..] == Decimal(-n);
    } else if n < 10 {
      DecimalRoundTrip(n);
      var s := "0" + Decimal(n);
      assert s[..|s| - 1] == "0" && s[|s| - 1] == DigitChar(n);
      assert DecimalValue("0") == 0 by { assert "0"[..0] == []; }
    } else {
      DecimalRoundTrip(n);
      assert Decimal(n) == Decimal(n / 10) + [DigitChar(n % 10)];
    }
  }

  /** Seconds below a minute are always exactly two digits. */
  lemma Pad2Seconds(n: int)
    requires 0 <= n < 60
    ensures var s := Pad2(n); |s| == 2 && AllDigits(s) && s[0] == DigitChar(n / 10) && s[1] == DigitChar(n % 10)
  {
    if n >= 10 {
      assert Decimal(n / 10) == [DigitChar(n / 10)];
    }
  }

  /** `_format_elapsed_mm_ss`. Python's `//` and `%` round toward negative infinity; with the
      positive divisor 60 that is what Dafny's `/` and `%` do as well. */
  function FormatElapsed(seconds: real): (r: string)
    ensures var total := Trunc(seconds);
      |r| >= 5 && r[|r| - 3] == ':' && r[|r| - 2..] == Pad2(total % 60)
  {
    var total := Trunc(seconds);
    Pad2Seconds(total % 60);
    Pad2RoundTrip(total / 60);
    Pad2(total / 60) + ":" + Pad2(total % 60)
  }

  /** Reading an `mm:ss` display back into whole seconds. */
  function ReadElapsed(r: string): int
    requires |r| >= 3 && AllDigits(r[|r| - 2..])
    requires var m := r[..|r| - 3]; (m != [] && m[0] == '-' && AllDigits(m[1..])) || AllDigits(m)
  {
    SignedValue(r[..|r| - 3]) * 60 + DecimalValue(r[|r| - 2..])
  }

  /** The display is exact to the second: reading it back gives the truncated duration. */
  lemma FormatElapsedRoundTrip(seconds: real)
    ensures var r := FormatElapsed(seconds);
      && |r| >= 3 && AllDigits(r[|r| - 2..])
      && (var m := r[..|r| - 3]; (m != [] && m[0] == '-' && AllDigits(m[1..])) || AllDigits(m))
      && ReadElapsed(r) == Trunc(seconds)
  {
    var total := Trunc(seconds);
    var mm, ss := total / 60, total % 60;
    var r := FormatElapsed(seconds);
    Pad2RoundTrip(mm);
    Pad2RoundTrip(ss);
    Pad2Seconds(ss);
    assert r == Pad2(mm) + ":" + Pad2(ss);
    assert r[..|r| - 3] == Pad2(mm);
    assert r[|r| - 2..] == Pad2(ss);
  }

  /** Scenario: 3725.9 seconds display as `62:05`. */
  lemma FormatElapsedScenario()
    ensures FormatElapsed(3725.9) == "62:05"
  {
    assert Trunc(3725.9) == 3725;
    assert Decimal(62) == "62" by { assert Decimal(6) == "6"; }
    assert Decimal(5) == "5";
  }
}
