/**
 * The `#rrggbb` colour constants and `hex_to_rgb` of Fig5_heatmap.py.
 *
 * `hex_to_rgb` strips every leading `#` and applies Python's `int(.., 16)` to the
 * slices [0:2], [2:4] and [4:6] of what is left. Python slices clamp to the string,
 * so a slice may be shorter than two characters; `int` then accepts surrounding
 * ASCII whitespace (space, tab, newline, vertical tab, form feed, carriage return),
 * one leading sign and one or two hexadecimal digits of either case, and raises
 * `ValueError` for anything else, which is modelled as `None`.
 */
module HexColor {
  import opened Wrappers

  /** An RGB triple; channels are plain integers, as in the Python tuple. */
  datatype Rgb = Rgb(r: int, g: int, b: int)
  {
    /** The channel at tuple index `i`. */
    function Channel(i: nat): int
      requires i < 3
    {
      if i == 0 then r else if i == 1 then g else b
    }

    predicate InByteRange()
    {
      0 <= r <= 255 && 0 <= g <= 255 && 0 <= b <= 255
    }
  }

  const LOW_HEX: string := "#0008ff"
  const MID_HEX: string := "#d9d9d9"
  const HIGH_HEX: string := "#FF0000"

  predicate IsHexDigit(c: char)
  {
    '0' <= c <= '9' || 'a' <= c <= 'f' || 'A' <= c <= 'F'
  }

  function HexDigitValue(c: char): (v: nat)
    requires IsHexDigit(c)
    ensures v < 16
  {
    if '0' <= c <= '9' then c as int - '0' as int
    else if 'a' <= c <= 'f' then c as int - 'a' as int + 10
    else c as int - 'A' as int + 10
  }

  /**
   * The ASCII characters `int(.., 16)` skips around a numeral: space and U+0009 to
   * U+000D. (U+001C to U+001F pass `str.isspace` but make `int` raise.)
   */
  predicate IsSpace(c: char)
  {
    c == ' ' || 9 <= c as int <= 13
  }

  /** A character that may appear in a string `int(.., 16)` accepts. */
  predicate NumeralChar(c: char)
  {
    IsHexDigit(c) || IsSpace(c) || c == '+' || c == '-'
  }

  /** `str.lstrip("#")`: drops every leading `#`. */
  function StripHashes(s: string): (r: string)
    ensures |r| <= |s| && r == s[|s| - |r|..]
    ensures r == [] || r[0] != '#'
    ensures forall k | 0 <= k < |s| - |r| :: s[k] == '#'
  {
    if |s| > 0 && s[0] == '#' then StripHashes(s[1..]) else s
  }

  /** Python's `s[i:j]` for `0 <= i <= j`: both bounds are clamped to the length. */
  function Slice(s: string, i: nat, j: nat): (r: string)
    requires i <= j
    ensures |r| <= j - i
    ensures j <= |s| ==> r == s[i..j]
    ensures i < |s| < j ==> r == s[i..]
    ensures |s| <= i ==> r == []
  {
    var lo := if i < |s| then i else |s|;
    var hi := if j < |s| then j else |s|;
    s[lo..hi]
  }

  /**
   * The whitespace `int(.., 16)` ignores around the numeral, stripped from a string
   * of at most two characters: what is left is the infix after the leading
   * whitespace, it neither starts nor ends with whitespace, and everything around it
   * is whitespace.
   */
  function Strip(s: string): (t: string)
    requires |s| <= 2
    ensures t == [] || (!IsSpace(t[0]) && !IsSpace(t[|t| - 1]))
    ensures LeadingSpaces(s) + |t| <= |s| && t == s[LeadingSpaces(s)..LeadingSpaces(s) + |t|]
    ensures forall k | 0 <= k < LeadingSpaces(s) :: IsSpace(s[k])
    ensures forall k | LeadingSpaces(s) + |t| <= k < |s| :: IsSpace(s[k])
  {
    if |s| == 0 then s
    else if |s| == 1 then (if IsSpace(s[0]) then [] else s)
    else if IsSpace(s[0]) then (if IsSpace(s[1]) then [] else s[1..])
    else if IsSpace(s[1]) then s[..1]
    else s
  }

  /** How many whitespace characters a string of at most two characters starts with. */
  function LeadingSpaces(s: string): (d: nat)
    requires |s| <= 2
    ensures d <= |s|
  {
    if |s| == 0 || !IsSpace(s[0]) then 0
    else if |s| == 2 && IsSpace(s[1]) then 2
    else 1
  }

  /** The value of a two-digit hexadecimal numeral. */
  function PairValue(hi: char, lo: char): (v: nat)
    requires IsHexDigit(hi) && IsHexDigit(lo)
    ensures v <= 255
  {
    16 * HexDigitValue(hi) + HexDigitValue(lo)
  }

  /** Python's `int(t, 16)` once surrounding whitespace is gone: a sign and one digit, or one or two digits. */
  function HexNumeral(t: string): (r: Option<int>)
    requires |t| <= 2
    ensures r.Some? ==> -15 <= r.value <= 255
    ensures r.Some? ==> |t| > 0 && IsHexDigit(t[|t| - 1])
    ensures r.Some? && |t| == 2 ==> IsHexDigit(t[0]) || t[0] == '+' || t[0] == '-'
  {
    if |t| == 0 then None
    else if t[0] == '+' || t[0] == '-' then
      if |t| == 2 && IsHexDigit(t[1]) then
        var v: int := HexDigitValue(t[1]);
        Some(if t[0] == '-' then -v else v)
      else None
    else if |t| == 1 && IsHexDigit(t[0]) then Some(HexDigitValue(t[0]))
    else if |t| == 2 && IsHexDigit(t[0]) && IsHexDigit(t[1]) then Some(PairValue(t[0], t[1]))
    else None
  }

  /**
   * Python's `int(s, 16)` for a string of at most two characters (all that the
   * slices of `hex_to_rgb` can hold).
   */
  function ParseHexInt(s: string): (r: Option<int>)
    requires |s| <= 2
    ensures |s| == 2 && IsHexDigit(s[0]) && IsHexDigit(s[1]) ==> r == Some(PairValue(s[0], s[1]))
    ensures |s| == 1 && IsHexDigit(s[0]) ==> r == Some(HexDigitValue(s[0]))
    ensures |s| == 2 && (s[0] == '+' || s[0] == '-') && IsHexDigit(s[1]) ==>
      r == Some(if s[0] == '-' then -(HexDigitValue(s[1]) as int) else HexDigitValue(s[1]))
    ensures |s| == 2 && IsSpace(s[0]) && IsHexDigit(s[1]) ==> r == Some(HexDigitValue(s[1]))
    ensures |s| == 2 && IsHexDigit(s[0]) && IsSpace(s[1]) ==> r == Some(HexDigitValue(s[0]))
    ensures r.Some? ==> |s| > 0 && NumeralChar(s[0]) && (|s| == 2 ==> NumeralChar(s[1]))
    ensures r.Some? ==> IsHexDigit(s[0]) || (|s| == 2 && IsHexDigit(s[1]))
    ensures r.Some? && |s| == 2 ==> s[1] != '+' && s[1] != '-'
    ensures r.Some? ==> -15 <= r.value <= 255
  {
    HexNumeral(Strip(s))
  }

  /** True when the first six characters of `h` are hexadecimal digits. */
  predicate SixHexDigits(h: string)
  {
    && |h| >= 6
    && IsHexDigit(h[0]) && IsHexDigit(h[1]) && IsHexDigit(h[2])
    && IsHexDigit(h[3]) && IsHexDigit(h[4]) && IsHexDigit(h[5])
  }

  /** `hex_to_rgb`: `None` where Python raises `ValueError`. */
  function HexToRgb(hex: string): (r: Option<Rgb>)
    ensures |StripHashes(hex)| < 5 ==> r == None
    ensures r.Some? ==> -15 <= r.value.r <= 255 && -15 <= r.value.g <= 255 && -15 <= r.value.b <= 255
  {
    var h := StripHashes(hex);
    var c0 := ParseHexInt(Slice(h, 0, 2));
    var c1 := ParseHexInt(Slice(h, 2, 4));
    var c2 := ParseHexInt(Slice(h, 4, 6));
    if c0.Some? && c1.Some? && c2.Some? then Some(Rgb(c0.value, c1.value, c2.value)) else None
  }

  /**
   * A character after the hashes that no numeral may contain, within the first six,
   * makes one of the three `int(.., 16)` calls raise.
   */
  lemma BadCharRejected(hex: string, k: nat)
    requires k < 6 && k < |StripHashes(hex)| && !NumeralChar(StripHashes(hex)[k])
    ensures HexToRgb(hex) == None
  {
    var i := if k < 2 then 0 else if k < 4 then 2 else 4;
    SliceRejected(StripHashes(hex), i, k);
    RejectedAt(hex, i);
  }

  /** The slice `h[i:i+2]` that holds a bad character `h[k]` does not parse. */
  lemma SliceRejected(h: string, i: nat, k: nat)
    requires i <= k < i + 2 && k < |h| && !NumeralChar(h[k])
    ensures ParseHexInt(Slice(h, i, i + 2)) == None
  {
    var piece := Slice(h, i, i + 2);
    var hi := if i + 2 <= |h| then i + 2 else |h|;
    assert piece == h[i..hi];
    assert piece[k - i] == h[k];
    PieceRejected(piece, k - i);
  }

  /** One failed channel makes the whole conversion fail. */
  lemma RejectedAt(hex: string, i: nat)
    requires i == 0 || i == 2 || i == 4
    requires ParseHexInt(Slice(StripHashes(hex), i, i + 2)) == None
    ensures HexToRgb(hex) == None
  {
  }

  /** A slice holding a character no numeral may contain does not parse. */
  lemma PieceRejected(s: string, k: nat)
    requires |s| <= 2 && k < |s| && !NumeralChar(s[k])
    ensures ParseHexInt(s) == None
  {
    if k == 0 {
      assert !NumeralChar(s[0]);
    } else {
      assert !NumeralChar(s[1]);
    }
  }

  /** `"#gg0000"` is rejected: `int("gg", 16)` raises. */
  lemma NonHexRejected()
    ensures HexToRgb("#gg0000") == None
  {
    StripHashesOf("#", "gg0000");
    assert "#" + "gg0000" == "#gg0000";
    BadCharRejected("#gg0000", 0);
  }

  /**
   * U+001C to U+001F count as whitespace for `str.isspace` but not for `int`, so a
   * slice holding one of them next to a digit does not parse, and neither does a
   * colour spelled with them.
   */
  lemma SeparatorsNotSkipped(c: char, d: char)
    requires 28 <= c as int <= 31 && IsHexDigit(d)
    ensures ParseHexInt([c, d]) == None && ParseHexInt([d, c]) == None
    ensures HexToRgb("\U{001C}5\U{001C}5\U{001C}5") == None
  {
    PieceRejected([c, d], 0);
    PieceRejected([d, c], 1);
    var hex := "\U{001C}5\U{001C}5\U{001C}5";
    assert StripHashes(hex) == hex;
    BadCharRejected(hex, 0);
  }

  /** The whitespace `int` does skip: a digit padded by it parses to the digit. */
  lemma WhitespaceSkipped(c: char, d: char)
    requires (c == ' ' || 9 <= c as int <= 13) && IsHexDigit(d)
    ensures ParseHexInt([c, d]) == Some(HexDigitValue(d))
    ensures ParseHexInt([d, c]) == Some(HexDigitValue(d))
  {
  }

  /** Six hexadecimal digits after the hashes give the three byte values they spell. */
  lemma SixDigitsParse(hex: string)
    requires SixHexDigits(StripHashes(hex))
    ensures var h := StripHashes(hex);
      HexToRgb(hex) == Some(Rgb(PairValue(h[0], h[1]), PairValue(h[2], h[3]), PairValue(h[4], h[5])))
    ensures HexToRgb(hex).value.InByteRange()
  {
    var h := StripHashes(hex);
    assert Slice(h, 0, 2) == [h[0], h[1]];
    assert Slice(h, 2, 4) == [h[2], h[3]];
    assert Slice(h, 4, 6) == [h[4], h[5]];
  }

  /** The anchor colours; the `...AnchorParses` lemmas show they are what `hex_to_rgb` yields. */
  const LOW_COLOR: Rgb := Rgb(0, 8, 255)
  const MID_COLOR: Rgb := Rgb(217, 217, 217)
  const HIGH_COLOR: Rgb := Rgb(255, 0, 0)

  lemma LowAnchorParses()
    ensures HexToRgb(LOW_HEX) == Some(LOW_COLOR)
  {
    HashedColorParses(LOW_HEX, LOW_COLOR);
  }

  lemma MidAnchorParses()
    ensures HexToRgb(MID_HEX) == Some(MID_COLOR)
  {
    HashedColorParses(MID_HEX, MID_COLOR);
  }

  /** Upper-case digits, as in `HIGH_HEX`, are accepted like lower-case ones. */
  lemma HighAnchorParses()
    ensures HexToRgb(HIGH_HEX) == Some(HIGH_COLOR)
  {
    HashedColorParses(HIGH_HEX, HIGH_COLOR);
  }

  /** One `#` followed by exactly the six digits of `c` parses to `c`. */
  lemma HashedColorParses(hex: string, c: Rgb)
    requires |hex| == 7 && hex[0] == '#' && SixHexDigits(hex[1..])
    requires PairValue(hex[1], hex[2]) == c.r
    requires PairValue(hex[3], hex[4]) == c.g
    requires PairValue(hex[5], hex[6]) == c.b
    ensures HexToRgb(hex) == Some(c)
  {
    var h := hex[1..];
    assert StripHashes(h) == h;
    assert StripHashes(hex) == h;
    assert h[0] == hex[1] && h[1] == hex[2] && h[2] == hex[3] && h[3] == hex[4] && h[4] == hex[5] && h[5] == hex[6];
    SixDigitsParse(hex);
  }

  /** The hexadecimal digit for `v < 16`, lower or upper case. */
  function HexDigitChar(v: nat, upper: bool): (c: char)
    requires v < 16
    ensures IsHexDigit(c) && HexDigitValue(c) == v
    ensures c != '#'
  {
    if v < 10 then ('0' as int + v) as char
    else if upper then ('A' as int + v - 10) as char
    else ('a' as int + v - 10) as char
  }

  /** Two hexadecimal digits for a byte. */
  function ByteHex(v: nat, upper: bool): (s: string)
    requires v <= 255
    ensures |s| == 2 && IsHexDigit(s[0]) && IsHexDigit(s[1]) && PairValue(s[0], s[1]) == v
  {
    [HexDigitChar(v / 16, upper), HexDigitChar(v % 16, upper)]
  }

  /** The `#rrggbb` spelling of a colour, the inverse of `HexToRgb`. */
  function ToHex(c: Rgb, upper: bool): (s: string)
    requires c.InByteRange()
    ensures |s| == 7 && s[0] == '#'
  {
    "#" + ByteHex(c.r, upper) + ByteHex(c.g, upper) + ByteHex(c.b, upper)
  }

  /** Parsing the `#rrggbb` spelling of a colour gives it back, in either letter case. */
  lemma HexRoundTrip(c: Rgb, upper: bool)
    requires c.InByteRange()
    ensures HexToRgb(ToHex(c, upper)) == Some(c)
  {
    var s := ToHex(c, upper);
    var body := ByteHex(c.r, upper) + ByteHex(c.g, upper) + ByteHex(c.b, upper);
    assert s == "#" + body;
    assert StripHashes(s) == StripHashes(body) == body;
    assert SixHexDigits(body);
    SixDigitsParse(s);
  }

  /** Upper- and lower-case spellings of a colour parse to the same triple. */
  lemma CaseInsensitive(c: Rgb)
    requires c.InByteRange()
    ensures HexToRgb(ToHex(c, true)) == HexToRgb(ToHex(c, false))
  {
    HexRoundTrip(c, true);
    HexRoundTrip(c, false);
  }

  /** `lstrip("#")` removes exactly a leading run of hashes. */
  lemma StripHashesOf(hashes: string, rest: string)
    requires forall k | 0 <= k < |hashes| :: hashes[k] == '#'
    requires rest == [] || rest[0] != '#'
    ensures StripHashes(hashes + rest) == rest
  {
    var s := hashes + rest;
    var r := StripHashes(s);
    var d := |s| - |r|;
    assert forall k | 0 <= k < |hashes| :: s[k] == '#';
    assert |rest| > 0 ==> s[|hashes|] == rest[0];
    assert d < |s| ==> r[0] == s[d];
    assert d == |hashes|;
    assert r == s[|hashes|..] == rest;
  }

  /** Every leading `#` is ignored, and so is everything after the sixth digit. */
  lemma HashesAndTailIgnored(hashes: string, digits: string, tail: string)
    requires forall k | 0 <= k < |hashes| :: hashes[k] == '#'
    requires SixHexDigits(digits) && |digits| == 6
    ensures HexToRgb(hashes + digits + tail) == HexToRgb(digits)
  {
    var h := digits + tail;
    assert hashes + digits + tail == hashes + h;
    assert h[0] == digits[0];
    StripHashesOf(hashes, h);
    assert StripHashes(digits) == digits;
    assert forall k | 0 <= k < 6 :: h[k] == digits[k];
    SixDigitsParse(hashes + h);
    SixDigitsParse(digits);
  }

  /** A colour string with fewer than five digits after the hashes is rejected. */
  lemma ShortHexRejected()
    ensures HexToRgb("#abc") == None
    ensures HexToRgb("") == None
  {
  }
}
