/**
 * The creation timestamp of a task, at second resolution, and the fixed
 * layout "2006-01-02 15:04:05" in which the task file stores it
 * (`time.Time.Format` when saving, `time.Parse` when loading).
 */
module DateTime {
  import opened Wrappers
  import opened Decimal

  /** Calendar fields of a wall-clock time; the time zone is not modelled. */
  datatype Clock = Clock(year: nat, month: nat, day: nat, hour: nat, minute: nat, second: nat)

  predicate IsLeapYear(y: nat) { y % 4 == 0 && (y % 100 != 0 || y % 400 == 0) }

  /** Number of days of a month in the proleptic Gregorian calendar. */
  function DaysIn(month: nat, year: nat): nat
    requires 1 <= month <= 12
  {
    if month == 2 then (if IsLeapYear(year) then 29 else 28)
    else if month == 4 || month == 6 || month == 9 || month == 11 then 30
    else 31
  }

  /** The range checks `time.Parse` applies to each field (years written with four digits). */
  predicate ValidClock(c: Clock)
  {
    && c.year <= 9999
    && 1 <= c.month <= 12
    && 1 <= c.day <= DaysIn(c.month, c.year)
    && c.hour < 24 && c.minute < 60 && c.second < 60
  }

  type DateTime = c: Clock | ValidClock(c) witness Clock(1970, 1, 1, 0, 0, 0)

  function Pow10(w: nat): nat
  {
    if w == 0 then 1 else 10 * Pow10(w - 1)
  }

  /** The last `w` decimal digits of `n`, padded with leading zeros. */
  function Padded(n: nat, w: nat): (s: string)
    ensures |s| == w && AllDigits(s)
  {
    if w == 0 then [] else Padded(n / 10, w - 1) + [DigitChar(n % 10)]
  }

  lemma {:induction false} PaddedValue(n: nat, w: nat)
    requires n < Pow10(w)
    ensures DigitsValue(Padded(n, w)) == n
  {
    if w > 0 {
      var s := Padded(n, w);
      assert n / 10 < Pow10(w - 1);
      PaddedValue(n / 10, w - 1);
      assert s[..w - 1] == Padded(n / 10, w - 1);
    }
  }

  /** `t.Format("2006-01-02 15:04:05")`. */
  function Format(t: DateTime): (s: string)
    ensures |s| == 19
  {
    Padded(t.year, 4) + "-" + Padded(t.month, 2) + "-" + Padded(t.day, 2) + " "
      + Padded(t.hour, 2) + ":" + Padded(t.minute, 2) + ":" + Padded(t.second, 2)
  }

  /**
   * `time.Parse("2006-01-02 15:04:05", s)`: four year digits, two digits for
   * every other field, the separators exactly as in the layout, nothing after
   * the seconds, and every field within its calendar range.
   */
  function Parse(s: string): Option<DateTime>
  {
    if |s| != 19 || s[4] != '-' || s[7] != '-' || s[10] != ' ' || s[13] != ':' || s[16] != ':' then None
    else if !AllDigits(s[0..4]) || !AllDigits(s[5..7]) || !AllDigits(s[8..10])
         || !AllDigits(s[11..13]) || !AllDigits(s[14..16]) || !AllDigits(s[17..19]) then None
    else
      var c := Clock(DigitsValue(s[0..4]), DigitsValue(s[5..7]), DigitsValue(s[8..10]),
                     DigitsValue(s[11..13]), DigitsValue(s[14..16]), DigitsValue(s[17..19]));
      if ValidClock(c) then Some(c) else None
  }

  /** Every timestamp survives being written and read back. */
  lemma ParseFormat(t: DateTime)
    ensures Parse(Format(t)) == Some(t)
  {
    var s := Format(t);
    assert s[0..4] == Padded(t.year, 4);
    assert s[5..7] == Padded(t.month, 2);
    assert s[8..10] == Padded(t.day, 2);
    assert s[11..13] == Padded(t.hour, 2);
    assert s[14..16] == Padded(t.minute, 2);
    assert s[17..19] == Padded(t.second, 2);
    PaddedValue(t.year, 4);
    PaddedValue(t.month, 2);
    PaddedValue(t.day, 2);
    PaddedValue(t.hour, 2);
    PaddedValue(t.minute, 2);
    PaddedValue(t.second, 2);
  }

  /** Every string `Parse` accepts is the canonical form of what it returns. */
  lemma FormatParse(s: string)
    requires Parse(s).Some?
    ensures Format(Parse(s).value) == s
  {
    var t := Parse(s).value;
    DigitsPadded(s[0..4]);
    DigitsPadded(s[5..7]);
    DigitsPadded(s[8..10]);
    DigitsPadded(s[11..13]);
    DigitsPadded(s[14..16]);
    DigitsPadded(s[17..19]);
    var f := Format(t);
    forall i | 0 <= i < 19 ensures f[i] == s[i] {
      if i < 4 { assert f[i] == s[0..4][i]; }
      else if 5 <= i < 7 { assert f[i] == s[5..7][i - 5]; }
      else if 8 <= i < 10 { assert f[i] == s[8..10][i - 8]; }
      else if 11 <= i < 13 { assert f[i] == s[11..13][i - 11]; }
      else if 14 <= i < 16 { assert f[i] == s[14..16][i - 14]; }
      else if 17 <= i { assert f[i] == s[17..19][i - 17]; }
    }
  }

  /** A digit string is the padded form of its own value at its own width. */
  lemma {:induction false} DigitsPadded(s: string)
    requires AllDigits(s)
    ensures Padded(DigitsValue(s), |s|) == s
  {
    if s != [] {
      var init := s[..|s| - 1];
      DigitsPadded(init);
      var v := DigitsValue(s);
      assert v / 10 == DigitsValue(init) && v % 10 == DigitValue(s[|s| - 1]);
      assert s == init + [s[|s| - 1]];
    }
  }
}
