/** The MS-DOS packed date and time that every record of the archive carries
    (`getDOSDateTime`), computed once when the writer is created. */
module DosTime {
  import opened JsBits

  /** The UTC calendar fields a JavaScript `Date` reports: `getUTCMonth` is
      zero-based, `getUTCDate` is the day of the month. */
  datatype UtcTime = UtcTime(year: int, month: int, day: int, hours: int, minutes: int, seconds: int)
  {
    /** The ranges the `Date` getters always return in. */
    predicate Valid() {
      && 0 <= month <= 11
      && 1 <= day <= 31
      && 0 <= hours <= 23
      && 0 <= minutes <= 59
      && 0 <= seconds <= 59
    }
  }

  datatype DosDateTime = DosDateTime(date: int, time: int)

  /** `(day | (month + 1) << 5 | (year - 1980) << 9) & 0xFFFF`: the day in
      bits 0-4, the one-based month in bits 5-8, and the low seven bits of
      the year offset from 1980 in bits 9-15. */
  function PackDate(t: UtcTime): (date: int)
    requires t.Valid()
    ensures 0 <= date < 0x1_0000
    ensures date % 32 == t.day
    ensures (date / 32) % 16 == t.month + 1
    ensures date / 512 == (t.year - 1980) % 128
  {
    PackDateFields(t.day, t.month + 1, t.year - 1980);
    UnpackDate(t.day, t.month + 1, (t.year - 1980) % 128);
    Low16(Or(Or(t.day, Shl(t.month + 1, 5)), Shl(t.year - 1980, 9)))
  }

  /** `((seconds >> 1) | minutes << 5 | hours << 11) & 0xFFFF`: halved
      seconds in bits 0-4, minutes in bits 5-10, hours in bits 11-15. */
  function PackTime(t: UtcTime): (time: int)
    requires t.Valid()
    ensures 0 <= time < 0x1_0000
    ensures time % 32 == t.seconds / 2
    ensures (time / 32) % 64 == t.minutes
    ensures time / 2048 == t.hours
  {
    PackTimeFields(t.seconds, t.minutes, t.hours);
    UnpackTime(t.seconds / 2, t.minutes, t.hours);
    Low16(Or(Or(Sar(t.seconds, 1), Shl(t.minutes, 5)), Shl(t.hours, 11)))
  }

  /** `getDOSDateTime(now)`. */
  function GetDosDateTime(t: UtcTime): (r: DosDateTime)
    requires t.Valid()
    ensures 0 <= r.date < 0x1_0000 && 0 <= r.time < 0x1_0000
    ensures r.date % 32 == t.day && r.time / 2048 == t.hours
  {
    DosDateTime(PackDate(t), PackTime(t))
  }

  /** Unpacking the date: for years 1980 to 2107 every field comes back. */
  lemma DateRoundTrip(t: UtcTime)
    requires t.Valid() && 1980 <= t.year < 1980 + 128
    ensures var d := PackDate(t);
      d % 32 == t.day && (d / 32) % 16 - 1 == t.month && d / 512 + 1980 == t.year
  {
  }

  /** Unpacking the time: every field comes back, except that the seconds
      lose their lowest bit. */
  lemma TimeRoundTrip(t: UtcTime)
    requires t.Valid()
    ensures var w := PackTime(t);
      w / 2048 == t.hours && (w / 32) % 64 == t.minutes && 2 * (w % 32) == t.seconds - t.seconds % 2
  {
  }

  /** A packed date splits back into its three fields. */
  lemma UnpackDate(a: int, b: int, c: int)
    requires 0 <= a < 32 && 0 <= b < 16 && 0 <= c
    ensures var v := a + 32 * b + 512 * c;
      v % 32 == a && (v / 32) % 16 == b && v / 512 == c
  {
    var v := a + 32 * b + 512 * c;
    assert v == 32 * (b + 16 * c) + a;
    assert v / 32 == b + 16 * c;
    assert v == 512 * c + (a + 32 * b);
  }

  /** A packed time splits back into its three fields. */
  lemma UnpackTime(a: int, b: int, c: int)
    requires 0 <= a < 32 && 0 <= b < 64 && 0 <= c
    ensures var v := a + 32 * b + 2048 * c;
      v % 32 == a && (v / 32) % 64 == b && v / 2048 == c
  {
    var v := a + 32 * b + 2048 * c;
    assert v == 32 * (b + 64 * c) + a;
    assert v / 32 == b + 64 * c;
    assert v == 2048 * c + (a + 32 * b);
  }

  /** The bitwise date expression equals the sum of its disjoint fields. */
  lemma PackDateFields(day: int, month1: int, yearOffset: int)
    requires 1 <= day <= 31 && 1 <= month1 <= 12
    ensures Low16(Or(Or(day, Shl(month1, 5)), Shl(yearOffset, 9)))
            == day + 32 * month1 + 512 * (yearOffset % 128)
  {
    DayAndMonth(day, month1);
    YearField(day + 32 * month1, yearOffset);
  }

  lemma DayAndMonth(day: int, month1: int)
    requires 1 <= day <= 31 && 1 <= month1 <= 12
    ensures Or(day, Shl(month1, 5)) == day + 32 * month1
  {
    ShiftBy5(month1);
    Pow2Values();
    OrOfSmallFields(day, month1, 5, 32);
  }

  /** Or-ing in the shifted year offset and masking to sixteen bits keeps
      the low seven bits of the offset. */
  lemma YearField(low: int, yearOffset: int)
    requires 0 <= low < 512
    ensures Low16(Or(low, Shl(yearOffset, 9))) == low + 512 * (yearOffset % 128)
  {
    var y := Bits(yearOffset) % 0x80_0000;
    ShiftWraps9(yearOffset);
    YearOr(low, y);
    MaskKeepsYearBits(low, y, yearOffset);
  }

  lemma YearOr(low: nat, y: nat)
    requires low < 512 && 512 * y < TWO32
    ensures Or(low, 512 * y) == low + 512 * y
  {
    Pow2Values();
    OrOfSmallFields(low, y, 9, 512);
  }

  lemma ShiftBy5(x: int)
    requires 0 <= x < 0x1_0000
    ensures Shl(x, 5) == 32 * x
  {
    Pow2Values();
    assert Bits(x) == x;
    assert Bits(x * 32) == x * 32;
  }

  lemma ShiftBy11(x: int)
    requires 0 <= x < 0x1_0000
    ensures Shl(x, 11) == 2048 * x
  {
    Pow2Values();
    assert Bits(x) == x;
    assert Bits(x * 2048) == x * 2048;
  }

  lemma OrOfSmallFields(low: nat, high: nat, k: nat, factor: nat)
    requires factor == Pow2(k) && low < factor && factor * high < TWO32 && low < TWO32
    ensures Or(low, factor * high) == low + factor * high
  {
    assert Bits(low) == low;
    assert Bits(factor * high) == factor * high;
    DisjointOrIsSum(low, high, k);
  }

  lemma ShiftWraps9(x: int)
    ensures Shl(x, 9) == 512 * (Bits(x) % 0x80_0000)
    ensures 512 * (Bits(x) % 0x80_0000) < TWO32
  {
    Pow2Values();
    var y := Bits(x) % 0x80_0000;
    var q := Bits(x) / 0x80_0000;
    assert Bits(x) == 0x80_0000 * q + y;
    assert Bits(x) * 512 == TWO32 * q + 512 * y;
  }

  lemma MaskKeepsYearBits(low: nat, y: nat, yearOffset: int)
    requires low < 512 && y == Bits(yearOffset) % 0x80_0000
    ensures Low16(low + 512 * y) == low + 512 * (yearOffset % 128)
  {
    assert low + 512 * y < TWO32;
    assert Bits(low + 512 * y) == low + 512 * y;
    YearLowBits(y, yearOffset);
    var q := y / 128;
    assert low + 512 * y == 0x1_0000 * q + (low + 512 * (y % 128));
  }

  lemma YearLowBits(y: nat, yearOffset: int)
    requires y == Bits(yearOffset) % 0x80_0000
    ensures y % 128 == yearOffset % 128
  {
    var q1 := yearOffset / TWO32;
    assert yearOffset == 128 * (0x200_0000 * q1) + Bits(yearOffset);
    var q2 := Bits(yearOffset) / 0x80_0000;
    assert Bits(yearOffset) == 128 * (0x1_0000 * q2) + y;
  }

  /** The bitwise time expression equals the sum of its disjoint fields. */
  lemma PackTimeFields(seconds: int, minutes: int, hours: int)
    requires 0 <= seconds <= 59 && 0 <= minutes <= 59 && 0 <= hours <= 23
    ensures Low16(Or(Or(Sar(seconds, 1), Shl(minutes, 5)), Shl(hours, 11)))
            == seconds / 2 + 32 * minutes + 2048 * hours
  {
    TimeShifts(seconds, minutes, hours);
    TimeOr(seconds / 2, minutes, hours);
  }

  lemma TimeShifts(seconds: int, minutes: int, hours: int)
    requires 0 <= seconds <= 59 && 0 <= minutes <= 59 && 0 <= hours <= 23
    ensures Sar(seconds, 1) == seconds / 2
    ensures Shl(minutes, 5) == 32 * minutes && Shl(hours, 11) == 2048 * hours
  {
    Pow2Values();
    assert Signed(seconds) == seconds;
    ShiftBy5(minutes);
    ShiftBy11(hours);
  }

  lemma TimeOr(half: int, minutes: int, hours: int)
    requires 0 <= half < 32 && 0 <= minutes <= 59 && 0 <= hours <= 23
    ensures Low16(Or(Or(half, 32 * minutes), 2048 * hours)) == half + 32 * minutes + 2048 * hours
  {
    SecondsAndMinutes(half, minutes);
    HoursField(half + 32 * minutes, hours);
  }

  lemma SecondsAndMinutes(half: int, minutes: int)
    requires 0 <= half < 32 && 0 <= minutes <= 59
    ensures Or(half, 32 * minutes) == half + 32 * minutes
  {
    Pow2Values();
    OrOfSmallFields(half, minutes, 5, 32);
  }

  lemma HoursField(low: int, hours: int)
    requires 0 <= low < 2048 && 0 <= hours <= 23
    ensures Low16(Or(low, 2048 * hours)) == low + 2048 * hours
  {
    HoursOr(low, hours);
    SixteenBits(low + 2048 * hours);
  }

  lemma HoursOr(low: int, hours: int)
    requires 0 <= low < 2048 && 0 <= hours <= 23
    ensures Or(low, 2048 * hours) == low + 2048 * hours
  {
    Pow2Values();
    OrOfSmallFields(low, hours, 11, 2048);
  }

  lemma SixteenBits(v: int)
    requires 0 <= v < 0x1_0000
    ensures Low16(v) == v
  {
    assert Bits(v) == v;
  }
}
