/**
 * `rgb_str` of Fig5_heatmap.py: the `rgb(r,g,b)` fill text, with each channel
 * written by Python's `str(int)` (decimal, no leading zeros, `-` for negatives).
 */
module RgbText {
  import opened Wrappers
  import opened HexColor

  predicate IsDigit(c: char)
  {
    '0' <= c <= '9'
  }

  /** Every character of `s` is a decimal digit. */
  predicate AllDigits(s: string)
  {
    forall k | 0 <= k < |s| :: IsDigit(s[k])
  }

  function DigitChar(d: nat): (c: char)
    requires d < 10
    ensures IsDigit(c) && c as int - '0' as int == d
  {
    ('0' as int + d) as char
  }

  /** Decimal digits of a natural number, most significant first. */
  function NatStr(n: nat): (s: string)
    ensures |s| >= 1
    ensures AllDigits(s)
    ensures |s| > 1 ==> s[0] != '0'
  {
    if n < 10 then [DigitChar(n)] else NatStr(n / 10) + [DigitChar(n % 10)]
  }

  /** Python's `str` of an int. */
  function IntStr(n: int): (s: string)
    ensures |s| >= 1
    ensures forall k | 0 <= k < |s| :: IsDigit(s[k]) || s[k] == '-'
    ensures (n < 0) == (s[0] == '-')
  {
    if n < 0 then "-" + NatStr(-n) else NatStr(n)
  }

  function DigitValue(c: char): nat
    requires IsDigit(c)
  {
    c as int - '0' as int
  }

  /** The value of a string of decimal digits. */
  function DigitsValue(s: string): nat
    requires AllDigits(s)
  {
    if s == [] then 0 else 10 * DigitsValue(s[..|s| - 1]) + DigitValue(s[|s| - 1])
  }

  /** Reads back what `IntStr` writes: an optional `-` and at least one digit. */
  function ParseInt(s: string): Option<int>
  {
    if |s| >= 2 && s[0] == '-' && AllDigits(s[1..]) then Some(0 - DigitsValue(s[1..]))
    else if |s| >= 1 && AllDigits(s) then Some(DigitsValue(s))
    else None
  }

  lemma {:induction false} NatStrValue(n: nat)
    ensures DigitsValue(NatStr(n)) == n
  {
    if n >= 10 {
      var s := NatStr(n);
      assert s[..|s| - 1] == NatStr(n / 10);
      NatStrValue(n / 10);
    }
  }

  /** Parsing the decimal text of an integer gives the integer back. */
  lemma IntStrRoundTrip(n: int)
    ensures ParseInt(IntStr(n)) == Some(n)
  {
    if n < 0 {
      NegativeRoundTrip(n);
    } else {
      NatStrValue(n);
    }
  }

  lemma NegativeRoundTrip(n: int)
    requires n < 0
    ensures ParseInt(IntStr(n)) == Some(n)
  {
    var s := IntStr(n);
    var digits := NatStr(-n);
    assert s[1..] == digits;
    NatStrValue(-n);
  }

  lemma IntStrInjective(m: int, n: int)
    requires IntStr(m) == IntStr(n)
    ensures m == n
  {
    IntStrRoundTrip(m);
    IntStrRoundTrip(n);
  }

  /** The three channels of `rgb_str`, separated by commas. */
  function Fields(c: Rgb): string
  {
    IntStr(c.r) + "," + IntStr(c.g) + "," + IntStr(c.b)
  }

  /** `rgb_str`: `rgb(r,g,b)`. */
  function RgbStr(c: Rgb): (s: string)
    ensures |s| >= 10 && s[..4] == "rgb(" && s[|s| - 1] == ')'
    ensures s[4..|s| - 1] == Fields(c)
  {
    "rgb(" + Fields(c) + ")"
  }

  predicate NoComma(s: string)
  {
    forall k | 0 <= k < |s| :: s[k] != ','
  }

  /** Two positions that are each the last comma of a text coincide. */
  lemma LastCommaUnique(s: string, i: nat, j: nat)
    requires i < |s| && j < |s| && s[i] == ',' && s[j] == ','
    requires forall k | i < k < |s| :: s[k] != ','
    requires forall k | j < k < |s| :: s[k] != ','
    ensures i == j
  {
  }

  /** A text split at its last comma determines both parts. */
  lemma SplitAtLastComma(x: string, y: string, x': string, y': string)
    requires NoComma(y) && NoComma(y')
    requires x + "," + y == x' + "," + y'
    ensures x == x' && y == y'
  {
    var s := x + "," + y;
    assert forall k | |x| < k < |s| :: s[k] == y[k - |x| - 1];
    assert forall k | |x'| < k < |s| :: s[k] == y'[k - |x'| - 1];
    LastCommaUnique(s, |x|, |x'|);
    assert x == s[..|x|] == x';
    assert y == s[|x| + 1..] == y';
  }

  lemma IntStrNoComma(n: int)
    ensures NoComma(IntStr(n))
  {
  }

  /** Different colours get different fill texts, so `rgb_str` loses nothing. */
  lemma RgbStrInjective(a: Rgb, b: Rgb)
    requires RgbStr(a) == RgbStr(b)
    ensures a == b
  {
    assert Fields(a) == Fields(b);
    IntStrNoComma(a.g);
    IntStrNoComma(a.b);
    IntStrNoComma(b.g);
    IntStrNoComma(b.b);
    SplitAtLastComma(IntStr(a.r) + "," + IntStr(a.g), IntStr(a.b), IntStr(b.r) + "," + IntStr(b.g), IntStr(b.b));
    SplitAtLastComma(IntStr(a.r), IntStr(a.g), IntStr(b.r), IntStr(b.g));
    IntStrInjective(a.r, b.r);
    IntStrInjective(a.g, b.g);
    IntStrInjective(a.b, b.b);
  }

  /** The numerals of the anchor colours' channels. */
  lemma AnchorNumerals()
    ensures IntStr(0) == "0" && IntStr(8) == "8"
    ensures IntStr(217) == "217" && IntStr(255) == "255"
  {
    assert NatStr(21) == "21" by {
      assert NatStr(2) == "2";
    }
    assert NatStr(25) == "25" by {
      assert NatStr(2) == "2";
    }
  }

  /** The fill text of the low anchor colour. */
  lemma LowText()
    ensures RgbStr(LOW_COLOR) == "rgb(0,8,255)"
  {
    AnchorNumerals();
  }

  /** The fill text of the mid anchor colour. */
  lemma MidText()
    ensures RgbStr(MID_COLOR) == "rgb(217,217,217)"
  {
    AnchorNumerals();
  }

  /** The fill text of the high anchor colour. */
  lemma HighText()
    ensures RgbStr(HIGH_COLOR) == "rgb(255,0,0)"
  {
    AnchorNumerals();
  }
}
