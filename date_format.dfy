/**
 * `strftime('%Y-%m-%d %H:%M:%S')` on a UTC calendar time, and the parser that inverts it.
 */
module DateFormat {
  import opened Wrappers
  import opened CivilTime
  import opened DecimalDigits

  /** A zero-padded two-digit field (%m, %d, %H, %M, %S). */
  function Pad2(n: int): string
    requires 0 <= n < 100
  {
    [DigitChar(n / 10), DigitChar(n % 10)]
  }

  /** A zero-padded four-digit year (%Y). */
  function Pad4(n: int): string
    requires 0 <= n < 10000
  {
    [DigitChar(n / 1000), DigitChar(n / 100 % 10), DigitChar(n / 10 % 10), DigitChar(n % 10)]
  }

  /** The positions of the separators in a formatted time. */
  predicate IsSeparatorAt(i: int) {
    i == 4 || i == 7 || i == 10 || i == 13 || i == 16
  }

  /** The shape `YYYY-MM-DD HH:MM:SS`. */
  predicate WellShaped(s: string) {
    && |s| == 19
    && s[4] == '-' && s[7] == '-' && s[10] == ' ' && s[13] == ':' && s[16] == ':'
    && forall i :: 0 <= i < 19 && !IsSeparatorAt(i) ==> IsDigit(s[i])
  }

  /** `dt.strftime('%Y-%m-%d %H:%M:%S')`. */
  function Strftime(dt: DateTime): (s: string)
    requires Valid(dt)
    ensures WellShaped(s)
  {
    Pad4(dt.year) + "-" + Pad2(dt.month) + "-" + Pad2(dt.day) + " "
      + Pad2(dt.hour) + ":" + Pad2(dt.minute) + ":" + Pad2(dt.second)
  }

  function Field2(s: string, i: int): int
    requires 0 <= i && i + 2 <= |s|
  {
    DigitValue(s[i]) * 10 + DigitValue(s[i + 1])
  }

  function Field4(s: string, i: int): int
    requires 0 <= i && i + 4 <= |s|
  {
    DigitValue(s[i]) * 1000 + DigitValue(s[i + 1]) * 100 + DigitValue(s[i + 2]) * 10 + DigitValue(s[i + 3])
  }

  /** Reads a `YYYY-MM-DD HH:MM:SS` string back into a calendar time. */
  function ParseDateTime(s: string): (r: Option<DateTime>)
    ensures r.Some? ==> Valid(r.value)
  {
    if !WellShaped(s) then None
    else
      var dt := DateTime(Field4(s, 0), Field2(s, 5), Field2(s, 8), Field2(s, 11), Field2(s, 14), Field2(s, 17));
      if Valid(dt) then Some(dt) else None
  }

  lemma Field2Of(s: string, i: int, n: int)
    requires 0 <= n < 100 && 0 <= i && i + 2 <= |s| && s[i..i + 2] == Pad2(n)
    ensures Field2(s, i) == n
  {
    assert s[i] == Pad2(n)[0] && s[i + 1] == Pad2(n)[1];
  }

  lemma Field4Of(s: string, n: int)
    requires 0 <= n < 10000 && 4 <= |s| && s[..4] == Pad4(n)
    ensures Field4(s, 0) == n
  {
    assert s[0] == Pad4(n)[0] && s[1] == Pad4(n)[1] && s[2] == Pad4(n)[2] && s[3] == Pad4(n)[3];
    assert DigitValue(s[0]) == n / 1000 && DigitValue(s[1]) == n / 100 % 10;
    assert DigitValue(s[2]) == n / 10 % 10 && DigitValue(s[3]) == n % 10;
    var q1 := n / 10;
    var q2 := q1 / 10;
    var q3 := q2 / 10;
    assert q1 * 10 + n % 10 == n && q2 * 10 + q1 % 10 == q1 && q3 * 10 + q2 % 10 == q2;
    assert q2 == n / 100 && q3 == n / 1000;
  }

  /** Round trip: the formatted string determines the calendar time. */
  lemma ParseStrftime(dt: DateTime)
    requires Valid(dt)
    ensures ParseDateTime(Strftime(dt)) == Some(dt)
  {
    var s := Strftime(dt);
    Field4Of(s, dt.year);
    Field2Of(s, 5, dt.month);
    Field2Of(s, 8, dt.day);
    Field2Of(s, 11, dt.hour);
    Field2Of(s, 14, dt.minute);
    Field2Of(s, 17, dt.second);
    var parsed := DateTime(Field4(s, 0), Field2(s, 5), Field2(s, 8), Field2(s, 11), Field2(s, 14), Field2(s, 17));
    assert parsed == dt;
  }

  /** Distinct calendar times are formatted differently. */
  lemma StrftimeInjective(dt1: DateTime, dt2: DateTime)
    requires Valid(dt1) && Valid(dt2) && Strftime(dt1) == Strftime(dt2)
    ensures dt1 == dt2
  {
    ParseStrftime(dt1);
    ParseStrftime(dt2);
  }

  /** 1700000000 seconds after the Epoch is formatted as 2023-11-14 22:13:20. */
  lemma StrftimeExample()
    ensures Strftime(FromTimestamp(1700000000)) == "2023-11-14 22:13:20"
  {
    FromTimestampExample();
  }
}
