/** The C values a template variable can show, and the text `snprintf` and `strftime`
    make of them (sections 7.21.6.1 and 7.27.3.5 of ISO/IEC 9899:2011). */
module Values {
  import opened Text
  import opened Escape

  type Int32 = n: int | -0x8000_0000 <= n < 0x8000_0000
  type Int64 = n: int | -0x8000_0000_0000_0000 <= n < 0x8000_0000_0000_0000
  type Size = n: nat | n < SIZE_T

  /** A C string whose escaped form has a length that size_t can hold. */
  type CText = s: string | NUL !in s && 6 * |s| + 1 < SIZE_T

  type Magnitude = x: real | 0.0 <= x

  datatype Float = Finite(negative: bool, magnitude: Magnitude) | Infinite(negative: bool) | NaN(negative: bool)

  type Year = n: int | -0x8000_0000 + 1900 <= n < 0x8000_0000 + 1900
  type TwoDigits = n: nat | n < 100

  /** What localtime makes of a time. */
  datatype Tm = Tm(year: Year, month: TwoDigits, day: TwoDigits, hour: TwoDigits, minute: TwoDigits, second: TwoDigits)

  // ------------------------------------------------------------------- integers

  function Digit(d: nat): char
    requires d < 10
  {
    ('0' as int + d) as char
  }

  function Digits(n: nat): (s: string)
    ensures s != "" && forall k :: 0 <= k < |s| ==> '0' <= s[k] <= '9'
  {
    if n < 10 then [Digit(n)] else Digits(n / 10) + [Digit(n % 10)]
  }

  /** "%d", "%ld" and "%zu" */
  function Decimal(n: int): string {
    if n < 0 then "-" + Digits(-n) else Digits(n)
  }

  /** The number a text of digits stands for. */
  function ReadDigits(s: string): int {
    if s == "" then 0 else 10 * ReadDigits(s[..|s| - 1]) + (s[|s| - 1] as int - '0' as int)
  }

  function ReadDecimal(s: string): int {
    if s != "" && s[0] == '-' then -ReadDigits(s[1..]) else ReadDigits(s)
  }

  lemma {:induction false} DigitsRead(n: nat)
    ensures ReadDigits(Digits(n)) == n
  {
    if n < 10 {
      assert ReadDigits("") == 0;
      assert Digits(n)[..0] == "";
    } else {
      var s := Digits(n / 10);
      DigitsRead(n / 10);
      assert (s + [Digit(n % 10)])[..|s|] == s;
      assert (s + [Digit(n % 10)])[|s|] == Digit(n % 10);
    }
  }

  /** The text of an integer is read back as that integer. */
  lemma DecimalReads(n: int)
    ensures ReadDecimal(Decimal(n)) == n
  {
    DigitsRead(if n < 0 then -n else n);
    hide Digits, ReadDigits;
    if n < 0 {
      assert Decimal(n)[1..] == Digits(-n);
    }
  }

  function Pow10(k: nat): (p: nat)
    ensures p > 0
  {
    if k == 0 then 1 else 10 * Pow10(k - 1)
  }

  lemma {:induction false} DigitsLength(n: nat, k: nat)
    requires k > 0
    ensures |Digits(n)| <= k <==> n < Pow10(k)
  {
    if k == 1 {
      assert Pow10(1) == 10 * Pow10(0) == 10;
    } else if n < 10 {
      assert Pow10(k) == 10 * Pow10(k - 1) >= 10;
    } else {
      DigitsLength(n / 10, k - 1);
      assert n / 10 < Pow10(k - 1) <==> n < 10 * Pow10(k - 1);
    }
  }

  lemma Powers()
    ensures Pow10(6) == 1_000_000
    ensures Pow10(19) == 10_000_000_000_000_000_000 && Pow10(20) == 100_000_000_000_000_000_000
    ensures Pow10(23) == 100_000_000_000_000_000_000_000 && Pow10(24) == 1_000_000_000_000_000_000_000_000
  {
    assert Pow10(3) == 1_000;
    assert Pow10(6) == 1000 * Pow10(3);
    assert Pow10(9) == 1000 * Pow10(6);
    assert Pow10(12) == 1000 * Pow10(9);
    assert Pow10(15) == 1000 * Pow10(12);
    assert Pow10(18) == 1000 * Pow10(15);
    assert Pow10(20) == 10 * Pow10(19) && Pow10(19) == 10 * Pow10(18);
    assert Pow10(23) == 1000 * Pow10(20);
  }

  /** No integer of the three types needs more than 20 characters. */
  lemma DecimalLength(n: int)
    requires -0x8000_0000_0000_0000 <= n < SIZE_T
    ensures |Decimal(n)| <= 20
  {
    Powers();
    hide Pow10, Digits;
    if n < 0 {
      DigitsLength(-n, 19);
    } else {
      DigitsLength(n, 20);
    }
  }

  // ------------------------------------------------------------------ fixed point

  function Padded(n: nat, width: nat): (s: string)
    ensures |s| == width && forall k :: 0 <= k < |s| ==> '0' <= s[k] <= '9'
  {
    if width == 0 then "" else Padded(n / 10, width - 1) + [Digit(n % 10)]
  }

  lemma {:induction false} PaddedRead(n: nat, width: nat)
    requires n < Pow10(width)
    ensures ReadDigits(Padded(n, width)) == n
  {
    if width > 0 {
      PaddedRead(n / 10, width - 1);
      var s := Padded(n / 10, width - 1);
      assert (s + [Digit(n % 10)])[..|s|] == s;
    }
  }

  /** To the nearest integer, to the even one of two that are as near. */
  function Rounded(x: Magnitude): nat {
    var whole := x.Floor;
    var part := x - whole as real;
    if part < 0.5 || (part == 0.5 && whole % 2 == 0) then whole else whole + 1
  }

  lemma NearestIs(x: Magnitude)
    ensures -0.5 <= Rounded(x) as real - x <= 0.5
    ensures Rounded(x) as real - x in {-0.5, 0.5} ==> Rounded(x) % 2 == 0
  {}

  const MILLION: nat := 1_000_000

  function Micros(x: Magnitude): nat {
    Rounded(x * 1000000.0)
  }

  function Minus(negative: bool): string {
    if negative then "-" else ""
  }

  /** "%f" */
  function Fixed(x: Float): string {
    match x
    case Finite(negative, magnitude) =>
      var n := Micros(magnitude);
      Minus(negative) + Digits(n / MILLION) + "." + Padded(n % MILLION, 6)
    case Infinite(negative) => Minus(negative) + "inf"
    case NaN(negative) => Minus(negative) + "nan"
  }

  /** The digits of a finite number are those of the number of millionths that is nearest, and
      even if two are. */
  lemma FixedReads(negative: bool, magnitude: Magnitude)
    ensures var n := Micros(magnitude);
            var whole, part := Digits(n / MILLION), Padded(n % MILLION, 6);
            && Fixed(Finite(negative, magnitude)) == Minus(negative) + whole + "." + part
            && 1000000 * ReadDigits(whole) + ReadDigits(part) == n
            && -0.5 <= n as real - magnitude * 1000000.0 <= 0.5
            && (n as real - magnitude * 1000000.0 in {-0.5, 0.5} ==> n % 2 == 0)
  {
    var n := Micros(magnitude);
    NearestIs(magnitude * 1000000.0);
    hide Rounded;
    DigitsRead(n / MILLION);
    Powers();
    PaddedRead(n % MILLION, 6);
    hide Digits, Padded, ReadDigits;
  }

  /** 31 characters hold a number of up to 24 digits before the point, or 23 and a sign. */
  predicate FitsBuffer(x: Float) {
    x.Finite? ==>
      x.magnitude < (if x.negative then 99999999999999999999999.9999995 else 999999999999999999999999.9999995)
  }

  lemma RoundedBelow(x: Magnitude, bound: nat)
    requires bound % 2 == 0
    ensures Rounded(x) < bound <==> x < bound as real - 0.5
  {}

  lemma MicrosBelow(x: Magnitude, whole: nat)
    ensures Micros(x) / MILLION < whole <==> x < whole as real - 0.0000005
  {
    RoundedBelow(x * 1000000.0, whole * MILLION);
    hide Rounded;
  }

  lemma FixedLength(x: Float)
    ensures |Fixed(x)| <= 31 <==> FitsBuffer(x)
    ensures NUL !in Fixed(x)
  {
    Powers();
    hide Digits, Padded, Micros, Pow10;
    if x.Finite? {
      var n := Micros(x.magnitude);
      var k := if x.negative then 23 else 24;
      DigitsLength(n / MILLION, k);
      MicrosBelow(x.magnitude, Pow10(k));
    }
  }

  // ------------------------------------------------------------------------ times

  /** "%Y-%m-%d %H:%M:%S" */
  function Clock(t: Tm): string {
    Decimal(t.year) + "-" + Padded(t.month, 2) + "-" + Padded(t.day, 2)
    + " " + Padded(t.hour, 2) + ":" + Padded(t.minute, 2) + ":" + Padded(t.second, 2)
  }

  /** The text of a time holds the six numbers in order, each at its place. */
  lemma ClockReads(t: Tm)
    ensures var s := Clock(t);
            var n := |s| - 15;
            && n > 0 && ReadDecimal(s[..n]) == t.year && s[n] == '-' && s[n + 3] == '-' && s[n + 6] == ' '
            && s[n + 9] == ':' && s[n + 12] == ':'
            && ReadDigits(s[n + 1..n + 3]) == t.month && ReadDigits(s[n + 4..n + 6]) == t.day
            && ReadDigits(s[n + 7..n + 9]) == t.hour && ReadDigits(s[n + 10..n + 12]) == t.minute
            && ReadDigits(s[n + 13..]) == t.second
  {
    TwoDigitsRead(t.month);
    TwoDigitsRead(t.day);
    TwoDigitsRead(t.hour);
    TwoDigitsRead(t.minute);
    TwoDigitsRead(t.second);
    DecimalReads(t.year);
    DecimalIsText(t.year);
    hide Padded, Decimal, ReadDecimal, ReadDigits;
    ClockParts(Decimal(t.year), Padded(t.month, 2), Padded(t.day, 2), Padded(t.hour, 2), Padded(t.minute, 2),
      Padded(t.second, 2));
  }

  lemma TwoDigitsRead(n: TwoDigits)
    ensures |Padded(n, 2)| == 2 && ReadDigits(Padded(n, 2)) == n
  {
    assert Pow10(2) == 10 * Pow10(1) && Pow10(1) == 10 * Pow10(0);
    PaddedRead(n, 2);
  }

  lemma DecimalIsText(n: int)
    ensures Decimal(n) != ""
  {}

  lemma ClockParts(y: string, a: string, b: string, c: string, d: string, e: string)
    requires |a| == |b| == |c| == |d| == |e| == 2
    ensures var s := y + "-" + a + "-" + b + " " + c + ":" + d + ":" + e;
            var n := |y|;
            && |s| == n + 15 && s[..n] == y && s[n] == '-' && s[n + 1..n + 3] == a && s[n + 3] == '-'
            && s[n + 4..n + 6] == b && s[n + 6] == ' ' && s[n + 7..n + 9] == c && s[n + 9] == ':'
            && s[n + 10..n + 12] == d && s[n + 12] == ':' && s[n + 13..] == e
  {}

  lemma ClockLength(t: Tm)
    ensures |Clock(t)| < 64
    ensures NUL !in Clock(t)
  {
    DecimalLength(t.year);
    hide Decimal, Padded;
    DecimalText(t.year);
  }

  lemma DecimalText(n: int)
    ensures NUL !in Decimal(n)
  {
    hide Digits;
  }
}
