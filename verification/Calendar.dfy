// Calendar conversion for the ACPI Time and Alarm Device (section 9.18 of ACPI
// 5.0) as the mailbox driver does it (pi5-mailbox/mailbox.c): between a 16-byte
// time buffer and a 32-bit count of seconds since 1970.
module Calendar {
  type Byte = x: nat | x < 256

  const DAY: nat := 86400
  const EPOCHS: nat := 0x100000000
  const UNSPECIFIED: int := 2047

  // ----- the Gregorian calendar -----

  predicate Leap(year: nat) {
    year % 4 == 0 && (year % 100 != 0 || year % 400 == 0)
  }

  function YearDays(year: nat): nat {
    365 + if Leap(year) then 1 else 0
  }

  function MonthDays(year: nat, month: nat): (n: nat)
    requires 1 <= month <= 12
    ensures 28 <= n <= 31
  {
    [31, 28, 31, 30, 31, 30, 31, 31, 30, 31, 30, 31][month - 1] + if month == 2 && Leap(year) then 1 else 0
  }

  // Days before 1 January of a year, counting leap years in closed form.
  function BeforeYear(year: nat): nat
    requires 1 <= year
  {
    var y := year - 1;
    365 * y + y / 4 - y / 100 + y / 400
  }

  // Days of a year before a month, in closed form.
  function BeforeMonth(year: nat, month: nat): nat
    requires 1 <= month <= 13
  {
    (367 * month - 362) / 12 - if month <= 2 then 0 else if Leap(year) then 1 else 2
  }

  lemma YearsAddUp(year: nat)
    requires 1 <= year
    ensures BeforeYear(year + 1) == BeforeYear(year) + YearDays(year)
  {
    Fours(year);
    Hundreds(year);
    FourHundreds(year);
    Nested(year);
  }

  lemma Fours(n: nat)
    requires 1 <= n
    ensures n / 4 == (n - 1) / 4 + if n % 4 == 0 then 1 else 0
  {
  }

  lemma Hundreds(n: nat)
    requires 1 <= n
    ensures n / 100 == (n - 1) / 100 + if n % 100 == 0 then 1 else 0
  {
  }

  lemma FourHundreds(n: nat)
    requires 1 <= n
    ensures n / 400 == (n - 1) / 400 + if n % 400 == 0 then 1 else 0
  {
  }

  lemma Nested(n: nat)
    ensures n % 400 == 0 ==> n % 100 == 0
    ensures n % 100 == 0 ==> n % 4 == 0
  {
    OfHundred(4 * (n / 400));
    OfFour(25 * (n / 100));
  }

  lemma OfHundred(x: nat)
    ensures 100 * x % 100 == 0
  {
  }

  lemma OfFour(x: nat)
    ensures 4 * x % 4 == 0
  {
  }

  lemma MonthsAddUp(year: nat, month: nat)
    requires 1 <= month <= 12
    ensures BeforeMonth(year, month + 1) == BeforeMonth(year, month) + MonthDays(year, month)
    ensures BeforeMonth(year, 1) == 0 && BeforeMonth(year, 13) == YearDays(year)
  {
  }

  datatype Civil = Civil(year: nat, month: nat, day: nat, hour: nat, minute: nat, second: nat)

  predicate Valid(c: Civil) {
    && 1900 <= c.year <= 9999 && 1 <= c.month <= 12 && 1 <= c.day <= MonthDays(c.year, c.month)
    && c.hour < 24 && c.minute < 60 && c.second < 60
  }

  // Days and seconds since 1 January 1970, by the closed forms.
  function Days(c: Civil): int
    requires Valid(c)
  {
    BeforeYear(c.year) + BeforeMonth(c.year, c.month) + c.day - 1 - BeforeYear(1970)
  }

  function Seconds(c: Civil): int
    requires Valid(c)
  {
    Days(c) * DAY + c.hour * 3600 + c.minute * 60 + c.second
  }

  // ----- the buffer -----

  function Word(low: Byte, high: Byte): nat {
    low + 256 * high
  }

  function Signed(word: nat): int {
    if word < 0x8000 then word else word - 0x10000
  }

  // Two's complement.
  lemma SignedInverse(n: int)
    requires -0x8000 <= n < 0x8000
    ensures Signed(n % 0x10000) == n
  {
  }

  function Fields(time: seq<Byte>): Civil
    requires |time| == 16
  {
    Civil(Word(time[0], time[1]), time[2], time[3], time[4], time[5], time[6])
  }

  function Zone(time: seq<Byte>): int
    requires |time| == 16
  {
    Signed(Word(time[10], time[11]))
  }

  predicate Acceptable(time: seq<Byte>)
    requires |time| == 16
  {
    && Valid(Fields(time)) && Word(time[8], time[9]) <= 1000
    && (Zone(time) == UNSPECIFIED || -1440 <= Zone(time) <= 1440)
    && time[12] <= 3 && time[13] == time[14] == time[15] == 0
  }

  // The instant a buffer names: local time less its offset; none means UTC.
  function Instant(time: seq<Byte>): int
    requires |time| == 16 && Acceptable(time)
  {
    Seconds(Fields(time)) - if Zone(time) == UNSPECIFIED then 0 else 60 * Zone(time)
  }

  // The buffer for a count of seconds: valid, UTC, whole seconds.
  predicate IsTimeOf(time: seq<Byte>, epoch: nat) {
    && |time| == 16 && Valid(Fields(time)) && Seconds(Fields(time)) == epoch
    && time[7] == 1 && forall i :: 8 <= i < 16 ==> time[i] == 0
  }

  // ----- the two conversions -----

  // MbxTimeToEpoch: accepts exactly the well-formed times whose instant fits 32
  // bits; the loops over years and months agree with the closed forms.
  method TimeToEpoch(time: seq<Byte>) returns (ok: bool, epoch: nat)
    requires |time| == 16
    ensures ok <==> Acceptable(time) && 0 <= Instant(time) < EPOCHS
    ensures ok ==> epoch == Instant(time)
  {
    hide BeforeYear, BeforeMonth, YearDays, MonthDays;
    epoch := 0;
    var year, month, day, zone := Word(time[0], time[1]), time[2], time[3], Signed(Word(time[10], time[11]));
    if year < 1900 || year > 9999 || month < 1 || month > 12 || day < 1 || day > MonthDays(year, month) ||
       time[4] > 23 || time[5] > 59 || time[6] > 59 || Word(time[8], time[9]) > 1000 ||
       (zone != UNSPECIFIED && (zone < -1440 || zone > 1440)) || time[12] > 3 || time[13] != 0 || time[14] != 0 || time[15] != 0 {
      return false, epoch;
    }
    var days: int := 0;
    if year >= 1970 {
      for y := 1970 to year
        invariant days == BeforeYear(y) - BeforeYear(1970)
      {
        YearsAddUp(y);
        days := days + YearDays(y);
      }
    } else {
      for y := year to 1970
        invariant days == BeforeYear(year) - BeforeYear(y)
      {
        YearsAddUp(y);
        days := days - YearDays(y);
      }
    }
    MonthsAddUp(year, 1);
    for m := 1 to month
      invariant days == BeforeYear(year) - BeforeYear(1970) + BeforeMonth(year, m)
    {
      MonthsAddUp(year, m);
      days := days + MonthDays(year, m);
    }
    days := days + day - 1;
    var hour: int, minute: int, second: int := time[4], time[5], time[6];
    var seconds := days * DAY + hour * 3600 + minute * 60 + second;
    if zone != UNSPECIFIED {
      seconds := seconds - zone * 60;
    }
    if seconds < 0 || seconds >= EPOCHS {
      return false, epoch;
    }
    ok, epoch := true, seconds;
  }

  // MbxEpochToTime.
  method EpochToTime(epoch: nat) returns (time: seq<Byte>)
    requires epoch < EPOCHS
    ensures IsTimeOf(time, epoch)
  {
    hide BeforeYear, BeforeMonth;
    var days, seconds := epoch / DAY, epoch % DAY;
    var year: nat := 1970;
    while days >= YearDays(year)
      invariant 1970 <= year <= 1970 + (epoch / DAY - days) / 365
      invariant 0 <= days && days + BeforeYear(year) - BeforeYear(1970) == epoch / DAY
      decreases days
    {
      YearsAddUp(year);
      days := days - YearDays(year);
      year := year + 1;
    }
    var month: nat := 1;
    MonthsAddUp(year, 1);
    while days >= MonthDays(year, month)
      invariant 1 <= month <= 12 && 0 <= days
      invariant days + BeforeMonth(year, month) < YearDays(year)
      invariant days + BeforeMonth(year, month) + BeforeYear(year) - BeforeYear(1970) == epoch / DAY
      decreases days
    {
      MonthsAddUp(year, month);
      days := days - MonthDays(year, month);
      month := month + 1;
    }
    assert year < 9999;
    time := [year % 256, year / 256, month, days + 1, seconds / 3600, seconds / 60 % 60, seconds % 60, 1, 0, 0, 0, 0, 0, 0, 0, 0];
    assert Fields(time) == Civil(year, month, days + 1, seconds / 3600, seconds / 60 % 60, seconds % 60);
    assert seconds == seconds / 3600 * 3600 + seconds / 60 % 60 * 60 + seconds % 60;
  }

  // ----- the two are inverse -----

  // Every 32-bit count survives the round trip.
  lemma RoundTrip(epoch: nat, time: seq<Byte>)
    requires epoch < EPOCHS && IsTimeOf(time, epoch)
    ensures Acceptable(time) && Instant(time) == epoch
  {
  }

  lemma {:induction false} YearsRise(y: nat, z: nat)
    requires 1 <= y < z
    ensures BeforeYear(y) + YearDays(y) <= BeforeYear(z)
    decreases z - y
  {
    YearsAddUp(y);
    if y + 1 < z {
      YearsRise(y + 1, z);
    }
  }

  lemma {:induction false} MonthsRise(year: nat, m: nat, n: nat)
    requires 1 <= m < n <= 13
    ensures BeforeMonth(year, m) + MonthDays(year, m) <= BeforeMonth(year, n)
    decreases n - m
  {
    MonthsAddUp(year, m);
    if m + 1 < n {
      MonthsRise(year, m + 1, n);
    }
  }

  predicate Earlier(a: Civil, b: Civil) {
    || a.year < b.year
    || (a.year == b.year && (a.month < b.month || (a.month == b.month && a.day < b.day)))
  }

  // Later dates have larger day numbers.
  lemma DaysRise(a: Civil, b: Civil)
    requires Valid(a) && Valid(b) && Earlier(a, b)
    ensures Days(a) < Days(b)
  {
    MonthsRise(a.year, a.month, 13);
    MonthsAddUp(a.year, 1);
    if a.year < b.year {
      YearsRise(a.year, b.year);
    } else if a.month < b.month {
      MonthsRise(a.year, a.month, b.month);
    }
  }

  // So each instant has one civil time.
  lemma SecondsUnique(a: Civil, b: Civil)
    requires Valid(a) && Valid(b) && Seconds(a) == Seconds(b)
    ensures a == b
  {
    SplitDay(a);
    SplitDay(b);
    if Earlier(a, b) {
      DaysRise(a, b);
    } else if Earlier(b, a) {
      DaysRise(b, a);
    }
  }

  lemma SplitDay(c: Civil)
    requires Valid(c)
    ensures Seconds(c) / DAY == Days(c) && Seconds(c) % DAY == c.hour * 3600 + c.minute * 60 + c.second
  {
    var r := c.hour * 3600 + c.minute * 60 + c.second;
    assert 0 <= r < DAY;
  }

  // Converting an accepted time there and back gives the same civil instant, now
  // in UTC: the very same fields if the time was UTC already, and otherwise the
  // one civil time that lies the zone's offset earlier.
  lemma ThereAndBack(time: seq<Byte>, back: seq<Byte>)
    requires |time| == 16 && Acceptable(time) && 0 <= Instant(time) < EPOCHS && IsTimeOf(back, Instant(time))
    ensures Zone(time) == UNSPECIFIED || Zone(time) == 0 ==> Fields(back) == Fields(time)
    ensures Zone(back) == 0 && Instant(back) == Instant(time)
    ensures forall c :: Valid(c) && Seconds(c) == Seconds(Fields(time)) - 60 * (if Zone(time) == 2047 then 0 else Zone(time)) ==> c == Fields(back)
  {
    RoundTrip(Instant(time), back);
    forall c | Valid(c) && Seconds(c) == Seconds(Fields(time)) - 60 * (if Zone(time) == 2047 then 0 else Zone(time))
      ensures c == Fields(back)
    {
      SecondsUnique(c, Fields(back));
    }
  }

  // Clocks of one day that show the same second: what they name is apart by as many
  // minutes as they show apart, less what their zones are ahead of each other.
  // Moving a reading to a zone further east names an earlier instant.
  lemma ZonesApart(a: seq<Byte>, b: seq<Byte>)
    requires |a| == |b| == 16 && Acceptable(a) && Acceptable(b)
    requires a[..4] == b[..4] && a[6] == b[6]
    ensures var (east, west) := (if Zone(a) == 2047 then 0 else Zone(a), if Zone(b) == 2047 then 0 else Zone(b));
            && Instant(a) - Instant(b) == 60 * (60 * (a[4] - b[4]) + (a[5] - b[5]) - (east - west))
            && (a[4..6] == b[4..6] && east > west ==> Instant(a) < Instant(b))
  {
    hide BeforeYear, BeforeMonth;
    assert forall k :: 0 <= k < 4 ==> a[..4][k] == b[..4][k];
    assert a[4..6] == b[4..6] ==> a[4..6][0] == b[4..6][0] && a[4..6][1] == b[4..6][1];
  }

  // And the buffer for a count is unique.
  lemma TimeUnique(a: seq<Byte>, b: seq<Byte>, epoch: nat)
    requires IsTimeOf(a, epoch) && IsTimeOf(b, epoch)
    ensures a == b
  {
    hide Valid, Seconds;
    SecondsUnique(Fields(a), Fields(b));
    assert forall i :: 0 <= i < 16 ==> a[i] == b[i];
  }
}
