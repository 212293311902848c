/** The date-time rendering of the JSON writer's encoder hook, which turns
    a `datetime` into `strftime('%Y-%m-%d %H:%M')`, together with the
    parser that reads such a string back. */
module DateFormat {
  import opened Wrappers

  /** A calendar date and a time of day at minute resolution. */
  datatype DateTime = DateTime(year: nat, month: nat, day: nat, hour: nat, minute: nat)

  predicate IsLeapYear(y: nat) {
    y % 4 == 0 && (y % 100 != 0 || y % 400 == 0)
  }

  function DaysInMonth(y: nat, m: nat): nat
    requires 1 <= m <= 12
  {
    if m == 2 then (if IsLeapYear(y) then 29 else 28)
    else if m == 4 || m == 6 || m == 9 || m == 11 then 30
    else 31
  }

  /** The values a Python `datetime` can hold (years 1 to 9999). */
  predicate Valid(dt: DateTime) {
    && 1 <= dt.year <= 9999
    && 1 <= dt.month <= 12
    && 1 <= dt.day <= DaysInMonth(dt.year, dt.month)
    && dt.hour < 24
    && dt.minute < 60
  }

  function Pow10(w: nat): nat
  {
    if w == 0 then 1 else 10 * Pow10(w - 1)
  }

  predicate IsDigit(c: char) {
    '0' <= c <= '9'
  }

  predicate AllDigits(s: string) {
    forall i :: 0 <= i < |s| ==> IsDigit(s[i])
  }

  function DigitChar(d: nat): char
    requires d < 10
  {
    ('0' as int + d) as char
  }

  function DigitValue(c: char): nat
    requires IsDigit(c)
  {
    c as int - '0' as int
  }

  /** The last `w` decimal digits of `n`, most significant first: the
      zero-padded field of `strftime`. */
  function Pad(n: nat, w: nat): (s: string)
    ensures |s| == w && AllDigits(s)
  {
    if w == 0 then [] else Pad(n / 10, w - 1) + [DigitChar(n % 10)]
  }

  /** The number a string of decimal digits denotes. */
  function Value(s: string): nat
    requires AllDigits(s)
  {
    if s == [] then 0 else 10 * Value(s[..|s| - 1]) + DigitValue(s[|s| - 1])
  }

  /** Padding loses nothing when the number fits the width. */
  lemma {:induction false} ValueOfPad(n: nat, w: nat)
    requires n < Pow10(w)
    ensures Value(Pad(n, w)) == n
  {
    if w > 0 {
      ValueOfPad(n / 10, w - 1);
      var s := Pad(n, w);
      assert s[..|s| - 1] == Pad(n / 10, w - 1);
    }
  }

  /** Every digit string is the padded form of its own value. */
  lemma {:induction false} PadOfValue(s: string)
    requires AllDigits(s)
    ensures Value(s) < Pow10(|s|)
    ensures Pad(Value(s), |s|) == s
  {
    if s != [] {
      var p := s[..|s| - 1];
      var d := DigitValue(s[|s| - 1]);
      PadOfValue(p);
      assert (10 * Value(p) + d) / 10 == Value(p);
      assert (10 * Value(p) + d) % 10 == d;
      assert s == p + [s[|s| - 1]];
    }
  }

  /** `strftime('%Y-%m-%d %H:%M')`: four-digit year, then two-digit month,
      day, hour and minute. */
  function Format(dt: DateTime): (s: string)
    ensures |s| == 16
    ensures s[4] == '-' && s[7] == '-' && s[10] == ' ' && s[13] == ':'
    ensures forall i :: 0 <= i < 16 && i != 4 && i != 7 && i != 10 && i != 13 ==> IsDigit(s[i])
  {
    Pad(dt.year, 4) + "-" + Pad(dt.month, 2) + "-" + Pad(dt.day, 2) + " " +
    Pad(dt.hour, 2) + ":" + Pad(dt.minute, 2)
  }

  /** Reads a `YYYY-MM-DD HH:MM` string back into a date-time; `None` when
      the shape is wrong or the fields name no valid date-time. */
  function Parse(s: string): (r: Option<DateTime>)
    ensures r.Some? ==> Valid(r.value)
  {
    if && |s| == 16
       && s[4] == '-' && s[7] == '-' && s[10] == ' ' && s[13] == ':'
       && AllDigits(s[0..4]) && AllDigits(s[5..7]) && AllDigits(s[8..10])
       && AllDigits(s[11..13]) && AllDigits(s[14..16])
    then
      var dt := DateTime(Value(s[0..4]), Value(s[5..7]), Value(s[8..10]),
                         Value(s[11..13]), Value(s[14..16]));
      if Valid(dt) then Some(dt) else None
    else None
  }

  /** The rendering of a valid date-time parses back to it: the format
      keeps every field. */
  lemma ParseFormat(dt: DateTime)
    requires Valid(dt)
    ensures Parse(Format(dt)) == Some(dt)
  {
    var s := Format(dt);
    assert s[0..4] == Pad(dt.year, 4);
    assert s[5..7] == Pad(dt.month, 2);
    assert s[8..10] == Pad(dt.day, 2);
    assert s[11..13] == Pad(dt.hour, 2);
    assert s[14..16] == Pad(dt.minute, 2);
    assert Pow10(2) == 100 && Pow10(4) == 10000;
    ValueOfPad(dt.year, 4);
    ValueOfPad(dt.month, 2);
    ValueOfPad(dt.day, 2);
    ValueOfPad(dt.hour, 2);
    ValueOfPad(dt.minute, 2);
  }

  /** A 16-character string is its five fields joined by its four
      separators. */
  lemma SplitAtSeparators(s: string)
    requires |s| == 16
    ensures s == s[0..4] + [s[4]] + s[5..7] + [s[7]] + s[8..10] + [s[10]] +
                 s[11..13] + [s[13]] + s[14..16]
  {
  }

  /** Every string the parser accepts is the rendering of what it parsed
      to, so the rendering is the only spelling of each date-time. */
  lemma FormatParse(s: string)
    requires Parse(s).Some?
    ensures Format(Parse(s).value) == s
  {
    var dt := Parse(s).value;
    assert dt.year == Value(s[0..4]) && dt.month == Value(s[5..7]) && dt.day == Value(s[8..10]);
    assert dt.hour == Value(s[11..13]) && dt.minute == Value(s[14..16]);
    PadOfValue(s[0..4]);
    PadOfValue(s[5..7]);
    PadOfValue(s[8..10]);
    PadOfValue(s[11..13]);
    PadOfValue(s[14..16]);
    SplitAtSeparators(s);
    assert [s[4]] == "-" && [s[7]] == "-" && [s[10]] == " " && [s[13]] == ":";
  }

  /** Two valid date-times render alike only when they are equal. */
  lemma FormatInjective(a: DateTime, b: DateTime)
    requires Valid(a) && Valid(b) && Format(a) == Format(b)
    ensures a == b
  {
    ParseFormat(a);
    ParseFormat(b);
  }
}
