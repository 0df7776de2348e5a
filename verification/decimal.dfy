/** Decimal rendering of ids: JavaScript's `String(n)` for an integer `n`,
    `padStart(2, '0')`, and the `parseInt` that reads a `data-id` attribute
    back, restricted to the strings `String(n)` produces. */
module Decimal {
  import opened Wrappers

  predicate IsDigit(c: char) {
    '0' <= c <= '9'
  }

  predicate AllDigits(s: string) {
    forall i :: 0 <= i < |s| ==> IsDigit(s[i])
  }

  function DigitChar(d: nat): (c: char)
    requires d < 10
    ensures IsDigit(c)
    ensures DigitValue(c) == d
  {
    (48 + d) as char
  }

  function DigitValue(c: char): (d: nat)
    requires IsDigit(c)
    ensures d < 10
  {
    c as int - 48
  }

  /** The decimal digits of `n`, most significant first, without leading zeros. */
  function NatToString(n: nat): (s: string)
    ensures |s| >= 1
    ensures AllDigits(s)
    ensures s[0] == '0' <==> n == 0
    ensures |s| == 1 <==> n < 10
    decreases n
  {
    if n < 10 then [DigitChar(n)]
    else
      var s := NatToString(n / 10) + [DigitChar(n % 10)];
      assert forall i :: 0 <= i < |s| - 1 ==> s[i] == NatToString(n / 10)[i];
      s
  }

  /** `Number.MAX_SAFE_INTEGER`, 2^53 - 1: every integer up to this magnitude
      is a JavaScript number exactly, and `String` writes it in plain digits
      (exponent form starts only at 10^21). */
  const MaxSafeInteger: int := 0x1F_FFFF_FFFF_FFFF

  /** The integers a JavaScript number holds exactly. */
  type SafeInteger = n: int | -MaxSafeInteger <= n <= MaxSafeInteger

  /** `String(n)` for a safe integer `n`: a minus sign for negatives, then digits. */
  function IntToString(n: SafeInteger): (s: string)
    ensures |s| >= 1
    ensures s[0] == '-' <==> n < 0
    ensures n >= 0 ==> AllDigits(s)
    ensures n < 0 ==> |s| >= 2 && AllDigits(s[1..])
    ensures n >= 0 ==> (s[0] == '0' <==> n == 0)
    ensures n < 0 ==> s[1] != '0'
  {
    if n < 0 then "-" + NatToString(-n) else NatToString(n)
  }

  /** The value of a run of decimal digits (leading zeros allowed, the empty run is 0). */
  function ParseDigits(s: string): (n: nat)
    requires AllDigits(s)
    decreases |s|
  {
    if s == [] then 0
    else ParseDigits(s[..|s| - 1]) * 10 + DigitValue(s[|s| - 1])
  }

  /** `parseInt` on an optional minus sign followed by digits; every other
      string reads as `NaN`, which is `None` here. */
  function ParseInt(s: string): (r: Option<int>)
    ensures r.Some? <==> (|s| >= 1 && AllDigits(s)) || (|s| >= 2 && s[0] == '-' && AllDigits(s[1..]))
  {
    if |s| >= 2 && s[0] == '-' && AllDigits(s[1..]) then Some(-(ParseDigits(s[1..]) as int))
    else if |s| >= 1 && AllDigits(s) then Some(ParseDigits(s))
    else None
  }

  /** `s.padStart(width, fill)`: left-pad with `fill` up to `width` characters;
      a string already that long is returned as it is. */
  function PadStart(s: string, width: nat, fill: char): (r: string)
    ensures |r| == if |s| >= width then |s| else width
    ensures r[|r| - |s|..] == s
    ensures forall i :: 0 <= i < |r| - |s| ==> r[i] == fill
  {
    if |s| >= width then s else seq(width - |s|, _ => fill) + s
  }

  /** The label an id is shown with: `String(id).padStart(2, '0')`. */
  function IdLabel(id: SafeInteger): (r: string)
    ensures |r| >= 2
    ensures r[0] == '0' <==> 0 <= id < 10
    ensures 0 <= id < 10 ==> r == "0" + IntToString(id)
    ensures !(0 <= id < 10) ==> r == IntToString(id)
  {
    PadStart(IntToString(id), 2, '0')
  }

  /** Reading back the digits `NatToString` writes gives the number. */
  lemma {:induction false} ParseNatToString(n: nat)
    ensures ParseDigits(NatToString(n)) == n
    decreases n
  {
    var s := NatToString(n);
    if n >= 10 {
      assert s[..|s| - 1] == NatToString(n / 10);
      ParseNatToString(n / 10);
    } else {
      assert s[..|s| - 1] == [];
    }
  }

  /** A leading zero does not change the value of a digit run. */
  lemma {:induction false} ParseLeadingZero(s: string)
    requires AllDigits(s)
    ensures AllDigits("0" + s)
    ensures ParseDigits("0" + s) == ParseDigits(s)
    decreases |s|
  {
    var t := "0" + s;
    assert AllDigits(t) by {
      forall i | 0 <= i < |t| ensures IsDigit(t[i]) {
        if i > 0 { assert t[i] == s[i - 1]; }
      }
    }
    if s != [] {
      assert t[..|t| - 1] == "0" + s[..|s| - 1];
      assert t[|t| - 1] == s[|s| - 1];
      ParseLeadingZero(s[..|s| - 1]);
    } else {
      assert t[..|t| - 1] == [];
    }
  }

  /** `parseInt(String(n)) === n` for every integer `n`. */
  lemma IntToStringRoundTrip(n: SafeInteger)
    ensures ParseInt(IntToString(n)) == Some(n)
  {
    if n < 0 {
      var d := NatToString(-n);
      var s := "-" + d;
      assert s[1..] == d;
      ParseNatToString(-n);
      assert ParseInt(s) == Some(-(ParseDigits(d) as int));
    } else {
      ParseNatToString(n);
      assert ParseInt(NatToString(n)) == Some(ParseDigits(NatToString(n)) as int);
    }
  }

  /** The padded label still reads back as the id: padding adds only a
      leading zero, and only to a single non-negative digit. */
  lemma IdLabelRoundTrip(n: SafeInteger)
    ensures ParseInt(IdLabel(n)) == Some(n)
  {
    var s := IntToString(n);
    IntToStringRoundTrip(n);
    if |s| < 2 {
      assert IdLabel(n) == "0" + s;
      ParseLeadingZero(s);
    }
  }

  /** Distinct ids get distinct `data-id` strings. */
  lemma IntToStringInjective(a: SafeInteger, b: SafeInteger)
    requires IntToString(a) == IntToString(b)
    ensures a == b
  {
    IntToStringRoundTrip(a);
    IntToStringRoundTrip(b);
  }
}
