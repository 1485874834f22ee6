/** The millisecond timestamp that prefixes every syslog line:
    `"%Y-%m-%d %H:%M:%S"` followed by a comma and the milliseconds, written
    with three digits. The clock itself is not modelled: the moment is an
    argument. */
module Timestamp {

  /** The fields of a Python `datetime` that the format reads. */
  datatype DateTime = DateTime(year: int, month: int, day: int,
                               hour: int, minute: int, second: int,
                               microsecond: int)
  {
    /** The ranges `datetime` enforces on its fields. */
    predicate Valid()
    {
      && 1 <= year <= 9999 && 1 <= month <= 12 && 1 <= day <= 31
      && 0 <= hour < 24 && 0 <= minute < 60 && 0 <= second < 60
      && 0 <= microsecond < 1000000
    }
  }

  predicate IsDigit(ch: char)
  {
    '0' <= ch <= '9'
  }

  predicate AllDigits(s: string)
  {
    forall i :: 0 <= i < |s| ==> IsDigit(s[i])
  }

  function DigitChar(d: nat): (ch: char)
    requires d < 10
    ensures IsDigit(ch)
  {
    ('0' as int + d) as char
  }

  function DigitValue(ch: char): nat
    requires IsDigit(ch)
  {
    ch as int - '0' as int
  }

  function Pow10(k: nat): (p: nat)
    ensures p >= 1
  {
    if k == 0 then 1 else 10 * Pow10(k - 1)
  }

  /** The value of a string of decimal digits, most significant first. */
  function ParseDecimal(s: string): nat
    requires AllDigits(s)
  {
    if s == [] then 0
    else ParseDecimal(s[..|s| - 1]) * 10 + DigitValue(s[|s| - 1])
  }

  /** The decimal digits of `n` without leading zeros (`str(n)`). */
  function Digits(n: nat): (r: string)
    ensures |r| >= 1 && AllDigits(r)
  {
    if n < 10 then [DigitChar(n)]
    else Digits(n / 10) + [DigitChar(n % 10)]
  }

  /** Reading the digits of `n` back gives `n`. */
  lemma {:induction false} DigitsValue(n: nat)
    ensures ParseDecimal(Digits(n)) == n
  {
    var r := Digits(n);
    assert DigitValue(DigitChar(n % 10)) == n % 10;
    if n >= 10 {
      DigitsValue(n / 10);
      assert r[..|r| - 1] == Digits(n / 10);
    }
  }

  /** A number below `10^w` has at most `w` digits. */
  lemma {:induction false} DigitsWidth(n: nat, w: nat)
    requires 1 <= w && n < Pow10(w)
    ensures |Digits(n)| <= w
  {
    if n >= 10 {
      assert n / 10 < Pow10(w - 1);
      DigitsWidth(n / 10, w - 1);
    }
  }

  /** A leading zero does not change the value. */
  lemma {:induction false} LeadingZero(s: string)
    requires AllDigits(s)
    ensures AllDigits(['0'] + s) && ParseDecimal(['0'] + s) == ParseDecimal(s)
    decreases |s|
  {
    if s != [] {
      var t := ['0'] + s;
      assert t[..|t| - 1] == ['0'] + s[..|s| - 1];
      LeadingZero(s[..|s| - 1]);
    }
  }

  /** `"{:0wd}".format(n)`: `n` in decimal, zero-padded on the left to at
      least `w` characters. */
  function ZeroPad(n: nat, w: nat): (r: string)
    ensures AllDigits(r)
    ensures |r| == if |Digits(n)| >= w then |Digits(n)| else w
    decreases w
  {
    if |Digits(n)| >= w then Digits(n)
    else ['0'] + ZeroPad(n, w - 1)
  }

  /** Padding does not change the value: the padded text reads back as `n`. */
  lemma {:induction false} ZeroPadValue(n: nat, w: nat)
    ensures ParseDecimal(ZeroPad(n, w)) == n
    decreases w
  {
    if |Digits(n)| >= w {
      DigitsValue(n);
    } else {
      ZeroPadValue(n, w - 1);
      LeadingZero(ZeroPad(n, w - 1));
    }
  }

  /** `int(microsecond / 1000)` under true division: the float quotient
      truncated toward zero, which for a non-negative count is the whole
      number of milliseconds. */
  function Millis(microsecond: int): (ms: int)
    requires 0 <= microsecond < 1000000
    ensures 0 <= ms <= 999
    ensures ms * 1000 <= microsecond < ms * 1000 + 1000
  {
    microsecond / 1000
  }

  /** `"%Y-%m-%d"` of `dt`. */
  function DateText(dt: DateTime): string
    requires dt.Valid()
  {
    ZeroPad(dt.year, 4) + "-" + ZeroPad(dt.month, 2) + "-" + ZeroPad(dt.day, 2)
  }

  /** `"%H:%M:%S"` of `dt`. */
  function ClockText(dt: DateTime): string
    requires dt.Valid()
  {
    ZeroPad(dt.hour, 2) + ":" + ZeroPad(dt.minute, 2) + ":" + ZeroPad(dt.second, 2)
  }

  /** `format_with_millis(dt)`. */
  function FormatWithMillis(dt: DateTime): string
    requires dt.Valid()
  {
    DateText(dt) + " " + ClockText(dt) + "," + ZeroPad(Millis(dt.microsecond), 3)
  }

  /** A field of two or three digits below its bound is written with
      exactly that many digits and holds no newline. */
  lemma PadWidth(n: nat, w: nat)
    requires 1 <= w <= 4 && n < Pow10(w)
    ensures |ZeroPad(n, w)| == w && '\n' !in ZeroPad(n, w)
    ensures ParseDecimal(ZeroPad(n, w)) == n
  {
    DigitsWidth(n, w);
    ZeroPadValue(n, w);
    var r := ZeroPad(n, w);
    assert !IsDigit('\n');
    assert forall i :: 0 <= i < |r| ==> r[i] != '\n';
  }

  /** Three pieces of known widths around two one-character separators. */
  lemma ThreeFields(a: string, x: char, b: string, y: char, c: string)
    ensures var r := a + [x] + b + [y] + c;
      && |r| == |a| + |b| + |c| + 2
      && r[..|a|] == a && r[|a|] == x
      && r[|a| + 1..|a| + 1 + |b|] == b && r[|a| + 1 + |b|] == y
      && r[|a| + 2 + |b|..] == c
  {
  }

  /** `"%Y-%m-%d"` is ten characters; each field reads back as its value. */
  lemma DateLayout(dt: DateTime)
    requires dt.Valid()
    ensures var r := DateText(dt);
      && |r| == 10 && r[4] == '-' && r[7] == '-' && '\n' !in r
      && AllDigits(r[..4]) && ParseDecimal(r[..4]) == dt.year
      && AllDigits(r[5..7]) && ParseDecimal(r[5..7]) == dt.month
      && AllDigits(r[8..]) && ParseDecimal(r[8..]) == dt.day
  {
    assert Pow10(4) == 10000 && Pow10(2) == 100;
    PadWidth(dt.year, 4);
    PadWidth(dt.month, 2);
    PadWidth(dt.day, 2);
    ThreeFields(ZeroPad(dt.year, 4), '-', ZeroPad(dt.month, 2), '-', ZeroPad(dt.day, 2));
  }

  /** `"%H:%M:%S"` is eight characters; each field reads back as its value. */
  lemma ClockLayout(dt: DateTime)
    requires dt.Valid()
    ensures var r := ClockText(dt);
      && |r| == 8 && r[2] == ':' && r[5] == ':' && '\n' !in r
      && AllDigits(r[..2]) && ParseDecimal(r[..2]) == dt.hour
      && AllDigits(r[3..5]) && ParseDecimal(r[3..5]) == dt.minute
      && AllDigits(r[6..]) && ParseDecimal(r[6..]) == dt.second
  {
    assert Pow10(2) == 100;
    PadWidth(dt.hour, 2);
    PadWidth(dt.minute, 2);
    PadWidth(dt.second, 2);
    ThreeFields(ZeroPad(dt.hour, 2), ':', ZeroPad(dt.minute, 2), ':', ZeroPad(dt.second, 2));
  }

  /** The layout of a formatted timestamp: 23 characters, the date, a space,
      the clock time, a comma, and exactly three digits that read back as the
      whole milliseconds of the microsecond field. No newline occurs in it. */
  lemma FormatWithMillisLayout(dt: DateTime)
    requires dt.Valid()
    ensures var r := FormatWithMillis(dt);
      && |r| == 23 && '\n' !in r
      && r[..10] == DateText(dt) && r[10] == ' '
      && r[11..19] == ClockText(dt) && r[19] == ','
      && AllDigits(r[20..]) && ParseDecimal(r[20..]) == dt.microsecond / 1000
  {
    DateLayout(dt);
    ClockLayout(dt);
    assert Pow10(3) == 1000;
    PadWidth(Millis(dt.microsecond), 3);
    ThreeFields(DateText(dt), ' ', ClockText(dt), ',', ZeroPad(Millis(dt.microsecond), 3));
  }
}
