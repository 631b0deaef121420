/**
 * The text layout of `Time#asctime` (also `ctime`): the C format
 * "%s %s %2d %02d:%02d:%02d %.4d" applied to the weekday name, month name, day of month,
 * hour, minute, second and year of a broken-down time, written into a 32-byte buffer.
 */
module Format {
  import Civil

  /** `wday_names`, indexed by `tm_wday`. */
  const WdayNames: seq<string> := ["Sun", "Mon", "Tue", "Wed", "Thu", "Fri", "Sat"]

  /** `mon_names`, indexed by `tm_mon`. */
  const MonNames: seq<string> :=
    ["Jan", "Feb", "Mar", "Apr", "May", "Jun", "Jul", "Aug", "Sep", "Oct", "Nov", "Dec"]

  /** The size of the buffer `asctime` formats into, terminating NUL included. */
  const BufferSize := 32

  predicate IsDigit(c: char) {
    '0' <= c <= '9'
  }

  predicate IsDigits(s: string) {
    forall i :: 0 <= i < |s| ==> IsDigit(s[i])
  }

  function Digit(d: int): (c: char)
    requires 0 <= d < 10
    ensures IsDigit(c) && c as int - '0' as int == d
  {
    ('0' as int + d) as char
  }

  /** The decimal digits of n, most significant first, without leading zeros. */
  function Decimal(n: nat): (s: string)
    ensures 1 <= |s| && IsDigits(s)
  {
    if n < 10 then [Digit(n)] else Decimal(n / 10) + [Digit(n % 10)]
  }

  /** The number a string of decimal digits denotes; leading zeros count for nothing. */
  function DigitsValue(s: string): nat
    requires IsDigits(s)
  {
    if s == [] then 0 else DigitsValue(s[..|s| - 1]) * 10 + (s[|s| - 1] as int - '0' as int)
  }

  function Pow10(k: nat): nat {
    if k == 0 then 1 else 10 * Pow10(k - 1)
  }

  /** Reading back the digits of a number gives the number. */
  lemma {:induction false} DecimalRoundTrip(n: nat)
    ensures DigitsValue(Decimal(n)) == n
  {
    if n >= 10 {
      DecimalRoundTrip(n / 10);
      var s := Decimal(n);
      assert s[..|s| - 1] == Decimal(n / 10);
    }
  }

  /** A number below 10^k has at most k digits. */
  lemma {:induction false} DecimalLength(n: nat, k: nat)
    requires 1 <= k && n < Pow10(k)
    ensures |Decimal(n)| <= k
  {
    if n >= 10 {
      assert Pow10(1) == 10;
      DecimalLength(n / 10, k - 1);
    }
  }

  /** printf padding: `c` repeated in front of `s` up to `width` characters. */
  function PadLeft(s: string, width: int, c: char): (r: string)
    ensures |r| == if |s| >= width then |s| else width
    ensures r[|r| - |s|..] == s
    ensures forall i :: 0 <= i < |r| - |s| ==> r[i] == c
  {
    if |s| >= width then s else seq(width - |s|, _ => c) + s
  }

  /** `%<width>d` (with `pad` a space) and `%0<width>d` (with `pad` a zero); the sign counts in the width. */
  function FormatWidth(n: int, width: nat, pad: char): (s: string)
    ensures width <= |s|
  {
    if n >= 0 then PadLeft(Decimal(n), width, pad)
    else if pad == '0' then "-" + PadLeft(Decimal(-n), width - 1, '0')
    else PadLeft("-" + Decimal(-n), width, ' ')
  }

  /** `%.<precision>d`: at least `precision` digits, the sign in front of them. */
  function FormatPrecision(n: int, precision: nat): (s: string)
    ensures precision <= |s|
  {
    (if n < 0 then "-" else "") + PadLeft(Decimal(if n < 0 then -n else n), precision, '0')
  }

  /** The text `time_asctime` builds from a broken-down time. */
  function Asctime(tm: Civil.Tm): (s: string)
    requires 0 <= tm.wday < 7 && 0 <= tm.mon < 12
    ensures 24 <= |s|
  {
    NameLengths(tm.wday, tm.mon);
    WdayNames[tm.wday] + " " + MonNames[tm.mon] + " " + FormatWidth(tm.mday, 2, ' ') + " "
    + FormatWidth(tm.hour, 2, '0') + ":" + FormatWidth(tm.min, 2, '0') + ":" + FormatWidth(tm.sec, 2, '0')
    + " " + FormatPrecision(Civil.CastInt(tm.year + 1900), 4)
  }

  lemma {:induction false} LeadingZeros(z: string, s: string)
    requires forall i :: 0 <= i < |z| ==> z[i] == '0'
    requires IsDigits(s)
    ensures IsDigits(z + s) && DigitsValue(z + s) == DigitsValue(s)
    decreases |s|, |z|
  {
    if s == [] {
      if z != [] {
        assert (z + s)[..|z + s| - 1] == z[..|z| - 1] + [];
        LeadingZeros(z[..|z| - 1], []);
      }
    } else {
      assert (z + s)[..|z + s| - 1] == z + s[..|s| - 1];
      LeadingZeros(z, s[..|s| - 1]);
    }
  }

  /** A zero-padded number reads back as the number. */
  lemma ZeroPaddedValue(n: nat, width: int)
    ensures IsDigits(PadLeft(Decimal(n), width, '0'))
    ensures DigitsValue(PadLeft(Decimal(n), width, '0')) == n
  {
    var s := Decimal(n);
    var r := PadLeft(s, width, '0');
    DecimalRoundTrip(n);
    if |s| < width {
      LeadingZeros(seq(width - |s|, _ => '0'), s);
    }
  }

  /** A two-character `%2d` field read back: a leading space stands for no tens digit. */
  function FieldValue(s: string): int
    requires |s| == 2 && (s[0] == ' ' || IsDigit(s[0])) && IsDigit(s[1])
  {
    if s[0] == ' ' then DigitsValue(s[1..]) else DigitsValue(s)
  }

  lemma TwoDigits(n: int, pad: char)
    requires 0 <= n < 100 && (pad == ' ' || pad == '0')
    ensures var f := FormatWidth(n, 2, pad);
      |f| == 2 && (f[0] == pad || IsDigit(f[0])) && IsDigit(f[1])
      && (f[0] != ' ' ==> IsDigits(f)) && FieldValue(f) == n
  {
    var f := FormatWidth(n, 2, pad);
    DecimalRoundTrip(n);
    DecimalLength(n, 2);
    if pad == '0' {
      ZeroPaddedValue(n, 2);
    } else if n < 10 {
      assert f[1..] == Decimal(n);
    }
  }

  /** Every weekday and month name is three letters long. */
  lemma NameLengths(wday: int, mon: int)
    requires 0 <= wday < 7 && 0 <= mon < 12
    ensures |WdayNames[wday]| == 3 && |MonNames[mon]| == 3
  {
    assert forall i | 0 <= i < |WdayNames| :: |WdayNames[i]| == 3;
    assert forall i | 0 <= i < |MonNames| :: |MonNames[i]| == 3;
  }

  /** The text assembled from its fields, with the length of each. */
  lemma AsctimeParts(tm: Civil.Tm) returns (d: string, h: string, m: string, c: string, yy: string)
    requires Civil.ValidTm(tm)
    ensures |d| == 2 && |h| == 2 && |m| == 2 && |c| == 2
    ensures d == FormatWidth(tm.mday, 2, ' ') && h == FormatWidth(tm.hour, 2, '0')
    ensures m == FormatWidth(tm.min, 2, '0') && c == FormatWidth(tm.sec, 2, '0')
    ensures yy == FormatPrecision(Civil.CastInt(tm.year + 1900), 4)
    ensures (d[0] == ' ' || IsDigit(d[0])) && IsDigit(d[1]) && FieldValue(d) == tm.mday
    ensures IsDigits(h) && DigitsValue(h) == tm.hour
    ensures IsDigits(m) && DigitsValue(m) == tm.min
    ensures IsDigits(c) && DigitsValue(c) == tm.sec
    ensures Asctime(tm) == WdayNames[tm.wday] + " " + MonNames[tm.mon] + " " + d + " "
                           + h + ":" + m + ":" + c + " " + yy
  {
    TwoDigits(tm.mday, ' ');
    TwoDigits(tm.hour, '0');
    TwoDigits(tm.min, '0');
    TwoDigits(tm.sec, '0');
    d, h, m, c := FormatWidth(tm.mday, 2, ' '), FormatWidth(tm.hour, 2, '0'),
                  FormatWidth(tm.min, 2, '0'), FormatWidth(tm.sec, 2, '0');
    yy := FormatPrecision(Civil.CastInt(tm.year + 1900), 4);
  }

  /** Where each piece lands when pieces of asctime's widths are joined. */
  lemma Columns(w: string, mo: string, d: string, h: string, m: string, c: string, yy: string)
    requires |w| == 3 && |mo| == 3 && |d| == 2 && |h| == 2 && |m| == 2 && |c| == 2 && |yy| == 4
    ensures var s := w + " " + mo + " " + d + " " + h + ":" + m + ":" + c + " " + yy;
      && |s| == 24 && s[0..3] == w && s[3] == ' ' && s[4..7] == mo && s[7] == ' '
      && s[8..10] == d && s[10] == ' ' && s[11..13] == h && s[13] == ':'
      && s[14..16] == m && s[16] == ':' && s[17..19] == c && s[19] == ' ' && s[20..24] == yy
  {
  }

  /**
   * For a valid breakdown with a four-digit year the text is exactly 24 characters in fixed
   * columns: the names, then day, hour, minute, second and year at fixed offsets.
   */
  lemma AsctimeLayout(tm: Civil.Tm)
    requires Civil.ValidTm(tm) && 0 <= tm.year + 1900 <= 9999
    ensures var s := Asctime(tm);
      && |s| == 24
      && s[0..3] == WdayNames[tm.wday] && s[3] == ' '
      && s[4..7] == MonNames[tm.mon] && s[7] == ' '
      && s[8..10] == FormatWidth(tm.mday, 2, ' ') && s[10] == ' '
      && s[11..13] == FormatWidth(tm.hour, 2, '0') && s[13] == ':'
      && s[14..16] == FormatWidth(tm.min, 2, '0') && s[16] == ':'
      && s[17..19] == FormatWidth(tm.sec, 2, '0') && s[19] == ' '
      && s[20..24] == FormatPrecision(tm.year + 1900, 4)
  {
    var y := tm.year + 1900;
    DecimalLength(y, 4);
    var d, h, m, c, yy := AsctimeParts(tm);
    assert yy == PadLeft(Decimal(y), 4, '0');
    NameLengths(tm.wday, tm.mon);
    Columns(WdayNames[tm.wday], MonNames[tm.mon], d, h, m, c, yy);
  }

  /** Each field of a four-digit-year text reads back, from its columns, as the value formatted there. */
  lemma AsctimeReadsBack(tm: Civil.Tm)
    requires Civil.ValidTm(tm) && 0 <= tm.year + 1900 <= 9999
    ensures var s := Asctime(tm);
      && |s| == 24
      && (s[8] == ' ' || IsDigit(s[8])) && IsDigit(s[9]) && FieldValue(s[8..10]) == tm.mday
      && IsDigits(s[11..13]) && DigitsValue(s[11..13]) == tm.hour
      && IsDigits(s[14..16]) && DigitsValue(s[14..16]) == tm.min
      && IsDigits(s[17..19]) && DigitsValue(s[17..19]) == tm.sec
      && IsDigits(s[20..24]) && DigitsValue(s[20..24]) == tm.year + 1900
  {
    AsctimeLayout(tm);
    var d, h, m, c, yy := AsctimeParts(tm);
    var y := tm.year + 1900;
    assert Civil.CastInt(y) == y;
    ZeroPaddedValue(y, 4);
    FieldsAtColumns(Asctime(tm), d, h, m, c, PadLeft(Decimal(y), 4, '0'));
  }

  /** The field texts at asctime's columns read back as they did on their own. */
  lemma FieldsAtColumns(s: string, d: string, h: string, m: string, c: string, yy: string)
    requires |s| == 24 && s[8..10] == d && s[11..13] == h && s[14..16] == m && s[17..19] == c && s[20..24] == yy
    requires |d| == 2 && (d[0] == ' ' || IsDigit(d[0])) && IsDigit(d[1])
    requires IsDigits(h) && IsDigits(m) && IsDigits(c) && IsDigits(yy)
    ensures (s[8] == ' ' || IsDigit(s[8])) && IsDigit(s[9]) && FieldValue(s[8..10]) == FieldValue(d)
    ensures DigitsValue(s[11..13]) == DigitsValue(h) && DigitsValue(s[14..16]) == DigitsValue(m)
    ensures DigitsValue(s[17..19]) == DigitsValue(c) && DigitsValue(s[20..24]) == DigitsValue(yy)
  {
    assert s[8] == d[0] && s[9] == d[1];
  }

  /**
   * For every valid breakdown (a C int year) the text has at most 31 characters, so `snprintf`
   * never truncates it and the length it returns is the length written into the buffer.
   */
  lemma AsctimeFitsBuffer(tm: Civil.Tm)
    requires Civil.ValidTm(tm)
    ensures |Asctime(tm)| <= BufferSize - 1
  {
    var d, h, m, c, yy := AsctimeParts(tm);
    var y := Civil.CastInt(tm.year + 1900);
    var a := if y < 0 then -y else y;
    assert Pow10(10) == 10000000000;
    DecimalLength(a, 10);
    assert |yy| <= 11;
    NameLengths(tm.wday, tm.mon);
  }
}
