/**
  The wall-clock value `datetime.now()` yields, and `strftime` with the format
  `%Y-%m-%d_%H-%M-%S`, the only format the service uses. `Parse` reads the
  fields back and is the inverse that makes the stamp a faithful key.
*/
module Timestamps {

  datatype DateTime = DateTime(year: int, month: int, day: int, hour: int, minute: int, second: int)

  predicate IsLeapYear(year: int) {
    year % 4 == 0 && (year % 100 != 0 || year % 400 == 0)
  }

  function DaysInMonth(year: int, month: int): int
    requires 1 <= month <= 12
  {
    if month == 2 then (if IsLeapYear(year) then 29 else 28)
    else if month in {4, 6, 9, 11} then 30
    else 31
  }

  /** The ranges a Python `datetime` keeps: MINYEAR 1 to MAXYEAR 9999, no leap second. */
  predicate Valid(t: DateTime) {
    && 1 <= t.year <= 9999
    && 1 <= t.month <= 12
    && 1 <= t.day <= DaysInMonth(t.year, t.month)
    && 0 <= t.hour < 24 && 0 <= t.minute < 60 && 0 <= t.second < 60
  }

  predicate IsDigit(c: char) {
    '0' <= c <= '9'
  }

  function DigitChar(d: nat): (c: char)
    requires d < 10
    ensures IsDigit(c) && c as int - '0' as int == d
  {
    ('0' as int + d) as char
  }

  /** The decimal value of a string of digits, most significant first. */
  function ReadNumber(s: string): int {
    if |s| == 0 then 0
    else ReadNumber(s[..|s| - 1]) * 10 + (s[|s| - 1] as int - '0' as int)
  }

  /** A two-digit, zero-padded field (`%m`, `%d`, `%H`, `%M`, `%S`). */
  function Pad2(n: nat): (s: string)
    requires n < 100
    ensures |s| == 2 && IsDigit(s[0]) && IsDigit(s[1])
    ensures ReadNumber(s) == n
  {
    var s := [DigitChar(n / 10), DigitChar(n % 10)];
    assert s[..1] == [s[0]] && s[..1][..0] == [];
    assert ReadNumber(s[..1]) == n / 10;
    s
  }

  /** A four-digit, zero-padded field (`%Y`). */
  function Pad4(n: nat): (s: string)
    requires n < 10000
    ensures |s| == 4 && forall i :: 0 <= i < 4 ==> IsDigit(s[i])
    ensures ReadNumber(s) == n
  {
    var s := [DigitChar(n / 1000), DigitChar(n / 100 % 10), DigitChar(n / 10 % 10), DigitChar(n % 10)];
    assert s[..3][..2][..1] == [s[0]] && s[..3][..2][..1][..0] == [];
    assert s[..3][..2] == [s[0], s[1]];
    assert s[..3] == [s[0], s[1], s[2]];
    assert ReadNumber(s[..3][..2][..1]) == n / 1000;
    assert ReadNumber(s[..3][..2]) == n / 100;
    assert ReadNumber(s[..3]) == n / 10;
    s
  }

  /** `t.strftime('%Y-%m-%d_%H-%M-%S')` */
  function Strftime(t: DateTime): (s: string)
    requires Valid(t)
    ensures |s| == 19
    ensures '/' !in s
    // the separators of `%Y-%m-%d_%H-%M-%S` and a digit everywhere else
    ensures s[4] == '-' && s[7] == '-' && s[10] == '_' && s[13] == '-' && s[16] == '-'
    ensures forall i :: 0 <= i < 19 && i !in {4, 7, 10, 13, 16} ==> IsDigit(s[i])
  {
    Pad4(t.year) + "-" + Pad2(t.month) + "-" + Pad2(t.day) + "_"
      + Pad2(t.hour) + "-" + Pad2(t.minute) + "-" + Pad2(t.second)
  }

  /** Reads the six fields of a 19-character stamp back. */
  function Parse(s: string): DateTime
    requires |s| == 19
  {
    DateTime(ReadNumber(s[0..4]), ReadNumber(s[5..7]), ReadNumber(s[8..10]),
             ReadNumber(s[11..13]), ReadNumber(s[14..16]), ReadNumber(s[17..19]))
  }

  /** Reading a stamp back gives the moment it was made from. */
  lemma ParseStrftime(t: DateTime)
    requires Valid(t)
    ensures Parse(Strftime(t)) == t
  {
    var s := Strftime(t);
    assert s[0..4] == Pad4(t.year);
    assert s[5..7] == Pad2(t.month);
    assert s[8..10] == Pad2(t.day);
    assert s[11..13] == Pad2(t.hour);
    assert s[14..16] == Pad2(t.minute);
    assert s[17..19] == Pad2(t.second);
  }

  /** Two stamps are equal exactly when the moments agree to the second. */
  lemma StrftimeInjective(t1: DateTime, t2: DateTime)
    requires Valid(t1) && Valid(t2)
    ensures Strftime(t1) == Strftime(t2) <==> t1 == t2
  {
    ParseStrftime(t1);
    ParseStrftime(t2);
  }
}
