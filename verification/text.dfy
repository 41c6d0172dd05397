/**
  The string conversions the drive-time code relies on: `str(n)`, `int(s)`,
  `strftime("%H:%M")`, `s.split(':')`, `s.lstrip('0')` and the `%3d` field,
  over plain `seq<char>` strings.
 */
module Text {
  import Utils

  predicate IsDigit(c: char) {
    '0' <= c <= '9'
  }

  predicate AllDigits(s: string) {
    forall i :: 0 <= i < |s| ==> IsDigit(s[i])
  }

  function DigitChar(d: int): (c: char)
    requires 0 <= d < 10
    ensures IsDigit(c) && c as int - '0' as int == d
  {
    ('0' as int + d) as char
  }

  /** `int(s)` for a string of decimal digits; leading zeros are allowed. */
  function DecimalValue(s: string): nat
    requires AllDigits(s)
  {
    if |s| == 0 then 0
    else DecimalValue(s[..|s| - 1]) * 10 + (s[|s| - 1] as int - '0' as int)
  }

  /** `str(n)` for a non-negative integer: its decimal digits, without leading zeros. */
  function NatToDecimal(n: nat): (s: string)
    ensures 1 <= |s| && AllDigits(s)
    ensures |s| > 1 ==> s[0] != '0'
    ensures n < 10 <==> |s| == 1
    decreases n
  {
    if n < 10 then [DigitChar(n)] else NatToDecimal(n / 10) + [DigitChar(n % 10)]
  }

  /** `int(str(n)) == n`. */
  lemma {:induction false} DecimalRoundTrip(n: nat)
    ensures DecimalValue(NatToDecimal(n)) == n
    decreases n
  {
    if n >= 10 {
      var s := NatToDecimal(n);
      assert s[..|s| - 1] == NatToDecimal(n / 10);
      DecimalRoundTrip(n / 10);
    }
  }

  /** Numbers below a thousand take at most three digits. */
  lemma {:induction false} DecimalWidth(n: nat)
    requires n < 1000
    ensures |NatToDecimal(n)| <= 3
    ensures n < 100 ==> |NatToDecimal(n)| <= 2
    decreases n
  {
    if n >= 10 {
      DecimalWidth(n / 10);
    }
  }

  /** The zero-padded two-digit field `%02d` of strftime. */
  function TwoDigits(n: nat): (s: string)
    requires n < 100
    ensures |s| == 2 && AllDigits(s)
    ensures DecimalValue(s) == n
  {
    var s := [DigitChar(n / 10), DigitChar(n % 10)];
    assert s[..1] == [DigitChar(n / 10)];
    assert s[..1][..0] == [];
    assert DecimalValue(s[..1]) == n / 10;
    s
  }

  /** `dt.strftime("%H:%M")` for a wall-clock minute of the day. */
  function FormatHHMM(t: int): (s: string)
    requires 0 <= t < Utils.MinutesPerDay
    ensures |s| == 5 && s[2] == ':'
    ensures AllDigits(s[..2]) && AllDigits(s[3..])
    ensures DecimalValue(s[..2]) == t / Utils.MinutesPerHour
    ensures DecimalValue(s[3..]) == t % Utils.MinutesPerHour
  {
    var s := TwoDigits(t / Utils.MinutesPerHour) + ":" + TwoDigits(t % Utils.MinutesPerHour);
    assert s[..2] == TwoDigits(t / Utils.MinutesPerHour);
    assert s[3..] == TwoDigits(t % Utils.MinutesPerHour);
    s
  }

  /** The hour half of `FormatHHMM(t).split(':')`. */
  function HourField(t: int): string
    requires 0 <= t < Utils.MinutesPerDay
  {
    FormatHHMM(t)[..2]
  }

  /** The minute half of `FormatHHMM(t).split(':')`. */
  function MinuteField(t: int): string
    requires 0 <= t < Utils.MinutesPerDay
  {
    FormatHHMM(t)[3..]
  }

  /** The test `minute == '00'` picks out exactly the instants at the top of an hour. */
  lemma OnTheHour(t: int)
    requires 0 <= t < Utils.MinutesPerDay
    ensures MinuteField(t) == "00" <==> t % Utils.MinutesPerHour == 0
  {
    var m := MinuteField(t);
    if m == "00" {
      assert m[..1] == "0";
      assert DecimalValue(m) == 0;
    }
  }

  /** `s.lstrip('0')`: the string without its leading zeros. */
  function LStripZeros(s: string): (r: string)
    ensures |r| <= |s| && r == s[|s| - |r|..]
    ensures forall i :: 0 <= i < |s| - |r| ==> s[i] == '0'
    ensures |r| > 0 ==> r[0] != '0'
  {
    if |s| > 0 && s[0] == '0' then LStripZeros(s[1..]) else s
  }

  /** `hour.lstrip('0') or '0'`: the hour label of a tick on the time axis. */
  function HourLabel(hh: string): string {
    var r := LStripZeros(hh);
    if r == "" then "0" else r
  }

  /** The hour field is the zero-padded hour. */
  lemma HourFieldIsPadded(t: int)
    requires 0 <= t < Utils.MinutesPerDay
    ensures HourField(t) == TwoDigits(t / Utils.MinutesPerHour)
  {
    var h := t / Utils.MinutesPerHour;
    var s := TwoDigits(h) + ":" + TwoDigits(t % Utils.MinutesPerHour);
    assert FormatHHMM(t) == s;
    assert s[..2] == TwoDigits(h);
  }

  /** `TwoDigits(h).lstrip('0') or '0'` is `str(h)`. */
  lemma StripPadding(h: nat)
    requires h < 100
    ensures HourLabel(TwoDigits(h)) == NatToDecimal(h)
  {
    var hh := TwoDigits(h);
    assert hh == [DigitChar(h / 10), DigitChar(h % 10)];
    if h < 10 {
      StripOneDigit(h);
    } else {
      StripTwoDigits(h);
    }
  }

  /** A one-digit hour loses its padding zero; zero itself reads "0". */
  lemma StripOneDigit(h: nat)
    requires h < 10
    ensures HourLabel([DigitChar(0), DigitChar(h)]) == NatToDecimal(h)
  {
    var hh := [DigitChar(0), DigitChar(h)];
    assert hh[1..] == [DigitChar(h)];
    if h == 0 {
      assert hh[1..][1..] == [];
      assert LStripZeros(hh) == "";
    } else {
      assert LStripZeros([DigitChar(h)]) == [DigitChar(h)];
      assert LStripZeros(hh) == [DigitChar(h)];
    }
  }

  /** A two-digit hour is left as it is. */
  lemma StripTwoDigits(h: nat)
    requires 10 <= h < 100
    ensures HourLabel([DigitChar(h / 10), DigitChar(h % 10)]) == NatToDecimal(h)
  {
    var q, d := h / 10, h % 10;
    assert 1 <= q < 10;
    var hh := [DigitChar(q), DigitChar(d)];
    assert hh[0] != '0';
    assert LStripZeros(hh) == hh;
    assert NatToDecimal(q) == [DigitChar(q)];
    assert NatToDecimal(h) == NatToDecimal(q) + [DigitChar(d)];
  }

  /**
    Stripping the zero padding of the strftime hour gives the same text as
    `str(int(hour))`: the two spellings of an hour label agree.
   */
  lemma HourLabelIsDecimal(t: int)
    requires 0 <= t < Utils.MinutesPerDay
    ensures AllDigits(HourField(t))
    ensures HourLabel(HourField(t)) == NatToDecimal(DecimalValue(HourField(t)))
    ensures HourLabel(HourField(t)) == NatToDecimal(t / Utils.MinutesPerHour)
  {
    HourFieldIsPadded(t);
    StripPadding(t / Utils.MinutesPerHour);
  }

  /** `str(n)` for any integer. */
  function IntToText(n: int): (s: string)
    ensures 1 <= |s|
    ensures n >= 0 ==> s == NatToDecimal(n)
    ensures n < 0 ==> s[0] == '-' && s[1..] == NatToDecimal(-n)
  {
    if n < 0 then "-" + NatToDecimal(-n) else NatToDecimal(n)
  }

  /** The `%3d` field: the number right-aligned in at least three columns. */
  function PadLeft3(s: string): (r: string)
    ensures |r| == if |s| < 3 then 3 else |s|
    ensures r[|r| - |s|..] == s
    ensures forall i :: 0 <= i < |r| - |s| ==> r[i] == ' '
  {
    if |s| < 3 then seq(3 - |s|, _ => ' ') + s else s
  }

  /** `" " * n` in Python: empty for a count that is not positive. */
  function Spaces(n: int): (r: string)
    ensures |r| == if n < 0 then 0 else n
    ensures forall i :: 0 <= i < |r| ==> r[i] == ' '
  {
    if n <= 0 then "" else seq(n, _ => ' ')
  }
}
