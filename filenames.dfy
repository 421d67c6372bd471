/**
 * The file names the history write policy produces:
 * `clipboard_<yyyyMMdd_HHmmss>.txt`, from the local clock.
 */
module FileNames {

  datatype Moment = Moment(year: int, month: int, day: int, hour: int, minute: int, second: int)

  predicate IsLeapYear(y: int) {
    y % 4 == 0 && (y % 100 != 0 || y % 400 == 0)
  }

  function DaysInMonth(y: int, m: int): int {
    if m == 2 then (if IsLeapYear(y) then 29 else 28)
    else if m == 4 || m == 6 || m == 9 || m == 11 then 30
    else 31
  }

  /** The range of .NET's DateTime, to the second. */
  predicate ValidMoment(t: Moment) {
    && 1 <= t.year <= 9999 && 1 <= t.month <= 12 && 1 <= t.day <= DaysInMonth(t.year, t.month)
    && 0 <= t.hour < 24 && 0 <= t.minute < 60 && 0 <= t.second < 60
  }

  type DateTime = t: Moment | ValidMoment(t) witness Moment(1, 1, 1, 0, 0, 0)

  const HistoryPrefix: string := "clipboard_"
  const TextSuffix: string := ".txt"

  predicate IsDigit(c: char) {
    '0' <= c <= '9'
  }

  function Pow10(n: nat): nat {
    if n == 0 then 1 else 10 * Pow10(n - 1)
  }

  /** `n` written in decimal with exactly `width` digits, zero-padded: the custom format specifiers. */
  function Digits(n: nat, width: nat): (s: string)
    requires n < Pow10(width)
    ensures |s| == width
    ensures forall i :: 0 <= i < |s| ==> IsDigit(s[i])
  {
    if width == 0 then ""
    else Digits(n / 10, width - 1) + [(48 + n % 10) as char]
  }

  /** The value of a string of decimal digits. */
  function ParseDigits(s: string): nat
    requires forall i :: 0 <= i < |s| ==> IsDigit(s[i])
  {
    if s == [] then 0
    else
      assert IsDigit(s[|s| - 1]);
      10 * ParseDigits(s[..|s| - 1]) + (s[|s| - 1] as int - 48)
  }

  lemma {:induction false} ParseDigitsOfDigits(n: nat, width: nat)
    requires n < Pow10(width)
    ensures ParseDigits(Digits(n, width)) == n
  {
    if width > 0 {
      var s := Digits(n, width);
      assert s[..|s| - 1] == Digits(n / 10, width - 1);
      ParseDigitsOfDigits(n / 10, width - 1);
    }
  }

  /** `yyyyMMdd_HHmmss` */
  function Stamp(t: DateTime): string {
    Digits(t.year, 4) + Digits(t.month, 2) + Digits(t.day, 2) + "_"
    + Digits(t.hour, 2) + Digits(t.minute, 2) + Digits(t.second, 2)
  }

  function HistoryFileName(t: DateTime): string {
    HistoryPrefix + Stamp(t) + TextSuffix
  }

  /** The name matches `clipboard_\d{8}_\d{6}\.txt`. */
  lemma HistoryFileNameShape(t: DateTime)
    ensures var name := HistoryFileName(t);
            && |name| == 29
            && name[..10] == HistoryPrefix && name[18] == '_' && name[25..] == TextSuffix
            && (forall i :: 10 <= i < 18 ==> IsDigit(name[i]))
            && (forall i :: 19 <= i < 25 ==> IsDigit(name[i]))
  {
    var name := HistoryFileName(t);
    var stamp := Stamp(t);
    assert name == HistoryPrefix + stamp + TextSuffix;
    assert forall i :: 0 <= i < 8 ==> IsDigit(stamp[i]);
    assert forall i :: 9 <= i < 15 ==> IsDigit(stamp[i]);
    assert forall i :: 10 <= i < 25 ==> name[i] == stamp[i - 10];
  }

  /** Each field of the stamp sits at a fixed offset of the name. */
  lemma HistoryFileNameFields(t: DateTime)
    ensures var name := HistoryFileName(t);
            && |name| == 29
            && name[10..14] == Digits(t.year, 4) && name[14..16] == Digits(t.month, 2)
            && name[16..18] == Digits(t.day, 2) && name[19..21] == Digits(t.hour, 2)
            && name[21..23] == Digits(t.minute, 2) && name[23..25] == Digits(t.second, 2)
  {
    var y, mo, d := Digits(t.year, 4), Digits(t.month, 2), Digits(t.day, 2);
    var h, mi, se := Digits(t.hour, 2), Digits(t.minute, 2), Digits(t.second, 2);
    var name := HistoryFileName(t);
    assert name == HistoryPrefix + y + mo + d + "_" + h + mi + se + TextSuffix;
    assert name[10..14] == y;
    assert name[14..16] == mo;
    assert name[16..18] == d;
    assert name[19..21] == h;
    assert name[21..23] == mi;
    assert name[23..25] == se;
  }

  lemma DigitsInjective(a: nat, b: nat, width: nat)
    requires a < Pow10(width) && b < Pow10(width)
    requires Digits(a, width) == Digits(b, width)
    ensures a == b
  {
    ParseDigitsOfDigits(a, width);
    ParseDigitsOfDigits(b, width);
  }

  /** Two instants that differ to the second get different names. */
  lemma HistoryFileNameInjective(t1: DateTime, t2: DateTime)
    requires HistoryFileName(t1) == HistoryFileName(t2)
    ensures t1 == t2
  {
    HistoryFileNameFields(t1);
    HistoryFileNameFields(t2);
    DigitsInjective(t1.year, t2.year, 4);
    DigitsInjective(t1.month, t2.month, 2);
    DigitsInjective(t1.day, t2.day, 2);
    DigitsInjective(t1.hour, t2.hour, 2);
    DigitsInjective(t1.minute, t2.minute, 2);
    DigitsInjective(t1.second, t2.second, 2);
  }
}
