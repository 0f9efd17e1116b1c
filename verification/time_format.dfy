/**
 * The time-of-day encoder of `DateFormat` and `InstanteFormatter`. The
 * milliseconds since midnight become the `HH:mm:ss.SSS` digits of the
 * `date-time` format of RFC 3339 (section 5.6), written over a byte
 * template. A day window decides when the date part of the template is
 * refreshed.
 *
 * What the clock libraries answer for an instant (its date, rendered in the
 * JVM's default time zone, and the two UTC midnights around it) is an
 * input, not computed here.
 */
module TimeFormat {
  import opened Base

  const MILLIS_PER_DAY := 86_400_000

  /** Java's `(byte)` cast, kept as its unsigned pattern. */
  function ToByte(x: int): byte
  {
    (x % 256) as byte
  }

  /** Java's `(int)` cast of a `long`. */
  function ToInt(x: int): int
  {
    (x + 0x8000_0000) % 0x1_0000_0000 - 0x8000_0000
  }

  /** The cast changes nothing for a value that fits an `int`. */
  lemma {:induction false} ToIntKeeps(x: int)
    requires -0x8000_0000 <= x < 0x8000_0000
    ensures ToInt(x) == x
  {
    assert 0 <= x + 0x8000_0000 < 0x1_0000_0000;
  }

  /** The position of the `k`-th digit of `HH:mm:ss.SSS`: 11, 12, 14, 15,
      17, 18, 20, 21 and 22. */
  function TimePlace(k: int): (p: int)
    requires 0 <= k < 9
    ensures 11 <= p <= 22 && IsTimePlace(p)
  {
    if k < 2 then 11 + k else if k < 4 then 12 + k else if k < 6 then 13 + k else 14 + k
  }

  /** Position `i` holds a digit of the time, not a separator. */
  predicate IsTimePlace(i: int)
  {
    11 <= i <= 22 && i != 13 && i != 16 && i != 19
  }

  /** Which digit of the time position `i` holds. */
  function SlotOf(i: int): (k: int)
    requires IsTimePlace(i)
    ensures 0 <= k < 9 && TimePlace(k) == i
  {
    if i < 13 then i - 11 else if i < 16 then i - 12 else if i < 19 then i - 13 else i - 14
  }

  /** The template of `DateFormat`: `yyyy-MM-ddTHH:mm:ss.SSSZ`, the date and
      time bytes still zero. */
  const DateTemplate: seq<byte> :=
    [0, 0, 0, 0, 45, 0, 0, 45, 0, 0, 84, 0, 0, 58, 0, 0, 58, 0, 0, 46, 0, 0, 0, 90]

  /** The template of `InstanteFormatter`: the same 24 bytes, a space, four
      bytes left for the level name and another space. */
  const InstanteTemplate: seq<byte> :=
    [0, 0, 0, 0, 45, 0, 0, 45, 0, 0, 84, 0, 0, 58, 0, 0, 58, 0, 0, 46, 0, 0, 0, 90, 32, 0, 0, 0, 0, 32]

  /** `digitos` of `InstanteFormatter`. */
  const Digitos: seq<byte> := [48, 49, 50, 51, 52, 53, 54, 55, 56, 57]

  /** The nine digit values both `writeTimeToBytes` compute from `ms`, in
      the order of their positions, before `'0'` is added or the table is
      consulted. Java's `/` rounds toward zero, so for a negative `ms`
      every quotient and remainder of the chain is the negation of the one
      for `-ms`. */
  function DigitValues(ms: int): (v: seq<int>)
    ensures |v| == 9
  {
    if ms >= 0 then Digits(ms) else Negate(Digits(-ms))
  }

  /** The digits of `HH`, `mm`, `ss` and `SSS` for `n >= 0`: hours, then
      what is left split into minutes, seconds and milliseconds, and each
      split into tens and units. */
  function Digits(n: nat): (v: seq<int>)
    ensures |v| == 9
  {
    var hours := n / 3600000;
    var r1 := n % 3600000;
    var minutes := r1 / 60000;
    var r2 := r1 % 60000;
    var seconds := r2 / 1000;
    var r3 := r2 % 1000;
    var r4 := r3 % 100;
    [hours / 10, hours % 10, minutes / 10, minutes % 10, seconds / 10, seconds % 10, r3 / 100, r4 / 10, r4 % 10]
  }

  function Negate(v: seq<int>): (w: seq<int>)
    ensures |w| == |v| && forall k :: 0 <= k < |v| ==> w[k] == -v[k]
  {
    seq(|v|, k requires 0 <= k < |v| => -v[k])
  }

  /** `n` is the number its nine digits spell. */
  lemma {:induction false} DigitsRecompose(n: nat)
    ensures var v := Digits(n);
      n == 3600000 * (10 * v[0] + v[1]) + 60000 * (10 * v[2] + v[3]) + 1000 * (10 * v[4] + v[5]) + 100 * v[6] + 10 * v[7] + v[8]
    ensures forall k :: 1 <= k < 9 ==> 0 <= Digits(n)[k] < 10
    ensures Digits(n)[0] >= 0 && (Digits(n)[0] < 10 <==> n < 360_000_000)
    ensures n < MILLIS_PER_DAY ==> 10 * Digits(n)[0] + Digits(n)[1] < 24
    ensures Digits(n)[2] < 6 && Digits(n)[4] < 6
  {
  }

  /** `buffer` with the bytes `v` stored at the nine digit positions. */
  function Place(buffer: seq<byte>, v: seq<byte>): (r: seq<byte>)
    requires |buffer| >= 23 && |v| == 9
    ensures |r| == |buffer|
    ensures forall k :: 0 <= k < 9 ==> r[TimePlace(k)] == v[k]
    ensures forall i :: 0 <= i < |buffer| && !IsTimePlace(i) ==> r[i] == buffer[i]
  {
    seq(|buffer|, i requires 0 <= i < |buffer| => if IsTimePlace(i) then v[SlotOf(i)] else buffer[i])
  }

  /** Every digit value indexes the `digitos` table. */
  predicate AllDigits(v: seq<int>)
  {
    forall k :: 0 <= k < |v| ==> 0 <= v[k] < 10
  }

  /** `writeTimeToBytesSoma` of `InstanteFormatter`, and `writeTimeToBytes`
      of `DateFormat`, which is the same code on its own template: each
      digit is its value plus `'0'`, cast to a byte. A buffer too short for
      position 22 throws. Nothing outside the nine digit places changes, so
      the separators of the template survive. */
  function WriteSoma(ms: int, buffer: seq<byte>): (r: Result<seq<byte>>)
    ensures r.Success? <==> |buffer| >= 23
    ensures r.Success? ==> |r.value| == |buffer|
    ensures r.Success? ==> forall i :: 0 <= i < |buffer| && !IsTimePlace(i) ==> r.value[i] == buffer[i]
  {
    if |buffer| < 23 then Failure("ArrayIndexOutOfBoundsException")
    else
      Success(Place(buffer, SomaBytes(DigitValues(ms))))
  }

  /** Each digit value plus `'0'`, cast to a byte. */
  function SomaBytes(v: seq<int>): (r: seq<byte>)
    requires |v| == 9
    ensures |r| == 9
  {
    seq(9, k requires 0 <= k < 9 => ToByte(v[k] + 48))
  }

  /** Each digit value looked up in `digitos`. */
  function TableBytes(v: seq<int>): (r: seq<byte>)
    requires |v| == 9 && AllDigits(v)
    ensures |r| == 9
  {
    seq(9, k requires 0 <= k < 9 => Digitos[v[k]])
  }

  /** `writeTimeToBytes` of `InstanteFormatter`: each digit is looked up in
      `digitos`. A negative `ms`, or one of 100 hours or more, indexes the
      table out of bounds and throws, as does a short buffer. */
  function WriteTable(ms: int, buffer: seq<byte>): (r: Result<seq<byte>>)
    ensures r.Success? <==> |buffer| >= 23 && 0 <= ms < 360_000_000
  {
    var v := DigitValues(ms);
    DigitsInRange(ms);
    if |buffer| < 23 || !AllDigits(v) then Failure("ArrayIndexOutOfBoundsException")
    else Success(Place(buffer, TableBytes(v)))
  }

  /** The table lookups stay inside `digitos` exactly for the `ms` from 0
      up to 100 hours. */
  lemma {:induction false} DigitsInRange(ms: int)
    ensures AllDigits(DigitValues(ms)) <==> 0 <= ms < 360_000_000
  {
    if ms < 0 {
      DigitsRecompose(-ms);
      var w := DigitValues(ms);
      assert w[0] <= 0 && w[1] <= 0 && w[2] <= 0 && w[3] <= 0 && w[4] <= 0 && w[5] <= 0;
      assert w[6] <= 0 && w[7] <= 0 && w[8] <= 0;
    } else {
      DigitsRecompose(ms);
    }
  }

  /** Where the table lookup succeeds, it writes the very bytes that adding
      `'0'` writes. */
  lemma {:induction false} TableAgreesWithSoma(ms: int, buffer: seq<byte>)
    requires WriteTable(ms, buffer).Success?
    ensures WriteTable(ms, buffer) == WriteSoma(ms, buffer)
  {
    var v := DigitValues(ms);
    DigitsInRange(ms);
    TableIsSoma(v);
  }

  /** On digit values, the `digitos` table and adding `'0'` agree. */
  lemma {:induction false} TableIsSoma(v: seq<int>)
    requires |v| == 9 && AllDigits(v)
    ensures TableBytes(v) == SomaBytes(v)
  {
    forall k | 0 <= k < 9
      ensures TableBytes(v)[k] == SomaBytes(v)[k]
    {
      DigitTable(v[k]);
    }
  }

  /** Each entry of `digitos` is its index plus `'0'`. */
  lemma {:induction false} DigitTable(d: int)
    requires 0 <= d < 10
    ensures Digitos[d] == ToByte(d + 48)
  {
    if d < 5 {
      assert d == 0 || d == 1 || d == 2 || d == 3 || d == 4;
    } else {
      assert d == 5 || d == 6 || d == 7 || d == 8 || d == 9;
    }
  }

  /** The value of the digit at `TimePlace(k)` of `b`. */
  function DigitAt(b: seq<byte>, k: int): int
    requires |b| >= 23 && 0 <= k < 9
  {
    b[TimePlace(k)] as int - 48
  }

  function Hours(b: seq<byte>): int
    requires |b| >= 23
  {
    10 * DigitAt(b, 0) + DigitAt(b, 1)
  }

  function Minutes(b: seq<byte>): int
    requires |b| >= 23
  {
    10 * DigitAt(b, 2) + DigitAt(b, 3)
  }

  function Seconds(b: seq<byte>): int
    requires |b| >= 23
  {
    10 * DigitAt(b, 4) + DigitAt(b, 5)
  }

  function Millis(b: seq<byte>): int
    requires |b| >= 23
  {
    100 * DigitAt(b, 6) + 10 * DigitAt(b, 7) + DigitAt(b, 8)
  }

  /** The `HH:mm:ss.SSS` part of `b` is ASCII digits spelling a time of
      day. */
  predicate IsTimeOfDay(b: seq<byte>)
  {
    && |b| >= 23
    && (forall k :: 0 <= k < 9 ==> 48 <= b[TimePlace(k)] <= 57)
    && Hours(b) < 24 && Minutes(b) < 60 && Seconds(b) < 60
  }

  /** The milliseconds since midnight that the time in `b` spells. */
  function ReadTime(b: seq<byte>): int
    requires |b| >= 23
  {
    3600000 * Hours(b) + 60000 * Minutes(b) + 1000 * Seconds(b) + Millis(b)
  }

  /** The digits written for a time of day spell a time of day, and read
      back to the same milliseconds. */
  lemma {:induction false} TimeRoundTrip(ms: int, buffer: seq<byte>)
    requires 0 <= ms < MILLIS_PER_DAY && |buffer| >= 23
    ensures WriteSoma(ms, buffer).Success?
    ensures IsTimeOfDay(WriteSoma(ms, buffer).value) && ReadTime(WriteSoma(ms, buffer).value) == ms
  {
    var v := Digits(ms);
    DigitsRecompose(ms);
    assert DigitValues(ms) == v;
    SomaSpells(v, buffer);
  }

  /** Writing digit values with `'0'` added puts ASCII digits that read
      back as those values. */
  lemma {:induction false} SomaSpells(v: seq<int>, buffer: seq<byte>)
    requires |v| == 9 && AllDigits(v) && |buffer| >= 23
    ensures forall k :: 0 <= k < 9 ==> DigitAt(Place(buffer, SomaBytes(v)), k) == v[k]
    ensures forall k :: 0 <= k < 9 ==> 48 <= Place(buffer, SomaBytes(v))[TimePlace(k)] <= 57
  {
    var b := Place(buffer, SomaBytes(v));
    forall k | 0 <= k < 9
      ensures DigitAt(b, k) == v[k] && 48 <= b[TimePlace(k)] <= 57
    {
      assert b[TimePlace(k)] == SomaBytes(v)[k];
    }
  }

  /** Reading a well-formed time and writing it back over the same bytes
      changes nothing. */
  lemma {:induction false} TimeRoundTripBack(b: seq<byte>)
    requires IsTimeOfDay(b)
    ensures 0 <= ReadTime(b) < MILLIS_PER_DAY
    ensures WriteSoma(ReadTime(b), b) == Success(b)
  {
    var d := seq(9, k requires 0 <= k < 9 => DigitAt(b, k));
    assert forall k :: 0 <= k < 9 ==> 0 <= d[k] < 10;
    DigitsOf(d);
    assert ReadTime(b) == 3600000 * (10 * d[0] + d[1]) + 60000 * (10 * d[2] + d[3]) + 1000 * (10 * d[4] + d[5]) + 100 * d[6] + 10 * d[7] + d[8];
    assert DigitValues(ReadTime(b)) == d;
    SomaRewrites(d, b);
  }

  /** Writing the digit values a buffer already spells leaves it as it
      was. */
  lemma {:induction false} SomaRewrites(d: seq<int>, b: seq<byte>)
    requires |b| >= 23 && |d| == 9
    requires forall k :: 0 <= k < 9 ==> 48 <= b[TimePlace(k)] <= 57 && d[k] == DigitAt(b, k)
    ensures Place(b, SomaBytes(d)) == b
  {
    var w := Place(b, SomaBytes(d));
    forall i | 0 <= i < |b|
      ensures w[i] == b[i]
    {
      if IsTimePlace(i) {
        var k := SlotOf(i);
        assert w[i] == SomaBytes(d)[k];
      }
    }
  }

  /** Nine digits spelling a time of day are the digits of the number they
      spell. */
  lemma {:induction false} DigitsOf(d: seq<int>)
    requires |d| == 9 && forall k :: 0 <= k < 9 ==> 0 <= d[k] < 10
    requires 10 * d[0] + d[1] < 24 && d[2] < 6 && d[4] < 6
    ensures var n := 3600000 * (10 * d[0] + d[1]) + 60000 * (10 * d[2] + d[3]) + 1000 * (10 * d[4] + d[5]) + 100 * d[6] + 10 * d[7] + d[8];
      0 <= n < MILLIS_PER_DAY && Digits(n) == d
  {
    var r3 := 100 * d[6] + 10 * d[7] + d[8];
    var r2 := 1000 * (10 * d[4] + d[5]) + r3;
    var r1 := 60000 * (10 * d[2] + d[3]) + r2;
    var n := 3600000 * (10 * d[0] + d[1]) + r1;
    assert n / 3600000 == 10 * d[0] + d[1] && n % 3600000 == r1;
    assert r1 / 60000 == 10 * d[2] + d[3] && r1 % 60000 == r2;
    assert r2 / 1000 == 10 * d[4] + d[5] && r2 % 1000 == r3;
    assert r3 / 100 == d[6] && r3 % 100 == 10 * d[7] + d[8];
    assert (10 * d[0] + d[1]) / 10 == d[0] && (10 * d[0] + d[1]) % 10 == d[1];
    assert (10 * d[2] + d[3]) / 10 == d[2] && (10 * d[2] + d[3]) % 10 == d[3];
    assert (10 * d[4] + d[5]) / 10 == d[4] && (10 * d[4] + d[5]) % 10 == d[5];
    assert (10 * d[7] + d[8]) / 10 == d[7] && (10 * d[7] + d[8]) % 10 == d[8];
    assert Digits(n) == [d[0], d[1], d[2], d[3], d[4], d[5], d[6], d[7], d[8]];
    assert d == [d[0], d[1], d[2], d[3], d[4], d[5], d[6], d[7], d[8]];
  }

  /** The separators of `date-time`: `-`, `-`, `T`, `:`, `:`, `.` and `Z`. */
  predicate Separated(b: seq<byte>)
  {
    |b| >= 24 && b[4] == 45 && b[7] == 45 && b[10] == 84 && b[13] == 58 && b[16] == 58 && b[19] == 46 && b[23] == 90
  }

  /** Writing a time of day into either template gives a time stamp shaped
      like `yyyy-MM-ddTHH:mm:ss.SSSZ`. In the 30-byte template the time stamp
      is followed by a space, the four level bytes and a space. */
  lemma {:induction false} TemplatesLayout(ms: int)
    requires 0 <= ms < MILLIS_PER_DAY
    ensures |DateTemplate| == 24 && InstanteTemplate[..24] == DateTemplate && |InstanteTemplate| == 30
    ensures InstanteTemplate[24] == 32 && InstanteTemplate[29] == 32
    ensures Separated(WriteSoma(ms, DateTemplate).value) && IsTimeOfDay(WriteSoma(ms, DateTemplate).value)
    ensures Separated(WriteSoma(ms, InstanteTemplate).value) && IsTimeOfDay(WriteSoma(ms, InstanteTemplate).value)
    ensures WriteSoma(ms, InstanteTemplate).value[24..] == InstanteTemplate[24..]
  {
    TimeRoundTrip(ms, DateTemplate);
    TimeRoundTrip(ms, InstanteTemplate);
    var w := WriteSoma(ms, InstanteTemplate).value;
    assert forall i :: 24 <= i < 30 ==> !IsTimePlace(i);
    assert w[24..] == InstanteTemplate[24..];
  }

  /** The day one of the formatters has cached: the window
      `[midnightToday, midnightTomorrow)` and the template whose first ten
      bytes hold that day's date. */
  datatype Day = Day(midnightToday: int, midnightTomorrow: int, template: seq<byte>)

  /** What the clock libraries answer for an instant: its date as the ten
      bytes of `yyyy-MM-dd`, rendered in the JVM's default time zone since
      no zone is set on the `SimpleDateFormat`, and the UTC midnights that
      begin the instant's UTC day and the next. Near midnight the date and
      the UTC day can differ; the date is taken as given. */
  datatype Midnight = Midnight(today: int, tomorrow: int, date: seq<byte>)

  /** The UTC day is 86 400 000 ms long and holds the instant, and the
      date has its ten bytes. */
  predicate Covers(cal: Midnight, now: int)
  {
    cal.today <= now < cal.tomorrow && cal.tomorrow - cal.today == MILLIS_PER_DAY && |cal.date| == 10
  }

  /** The window is empty or at most a day long. */
  predicate DayWindow(d: Day)
  {
    d.midnightToday <= d.midnightTomorrow <= d.midnightToday + MILLIS_PER_DAY
  }

  /** A new formatter: the empty window `[0, 0)`, so that the first call
      refreshes it. */
  function NewDay(template: seq<byte>): (d: Day)
    ensures DayWindow(d) && d.template == template
    ensures d.midnightTomorrow <= d.midnightToday
  {
    Day(0, 0, template)
  }

  /** `millisSinceMidnight(now)`: when `now` falls outside the cached window,
      the window becomes the day of `now` and the date part of the template
      is rewritten; the result is the distance from the window's midnight.
      `cal` is the clock libraries' answer for `now`. */
  function MillisSinceMidnight(d: Day, now: int, cal: Midnight): (r: (int, Day))
    requires Covers(cal, now) && |d.template| >= 10
    ensures |r.1.template| == |d.template| && r.1.template[10..] == d.template[10..]
    ensures r.1.midnightToday <= now < r.1.midnightTomorrow && r.0 == now - r.1.midnightToday
    ensures d.midnightToday <= now < d.midnightTomorrow ==> r.1 == d
    ensures !(d.midnightToday <= now < d.midnightTomorrow) ==>
      r.1.midnightToday == cal.today && r.1.template[..10] == cal.date
    ensures DayWindow(d) ==> DayWindow(r.1) && 0 <= r.0 < MILLIS_PER_DAY
  {
    if now >= d.midnightTomorrow || now < d.midnightToday then
      var t := cal.date + d.template[10..];
      assert t[10..] == d.template[10..];
      (now - cal.today, Day(cal.today, cal.tomorrow, t))
    else
      (now - d.midnightToday, d)
  }

  /** `toBytes(time)` of `DateFormat`: the time is written into the cached
      template, and that same template is what is returned. */
  function ToBytes(d: Day, time: int, cal: Midnight): (r: (seq<byte>, Day))
    requires Covers(cal, time) && |d.template| == 24
    ensures r.0 == r.1.template && |r.0| == 24
    ensures r.1.midnightToday <= time < r.1.midnightTomorrow
    ensures d.midnightToday <= time < d.midnightTomorrow ==> r.1.midnightToday == d.midnightToday
    ensures forall i :: 0 <= i < 24 && !IsTimePlace(i) ==>
      r.0[i] == (if i < 10 && !(d.midnightToday <= time < d.midnightTomorrow) then cal.date[i] else d.template[i])
    ensures DayWindow(d) ==> DayWindow(r.1) && IsTimeOfDay(r.0) && ReadTime(r.0) == time - r.1.midnightToday
  {
    var since := MillisSinceMidnight(d, time, cal);
    var ms, d1 := since.0, since.1;
    assert forall i :: 0 <= i < 10 ==> d1.template[i] == d1.template[..10][i];
    assert forall i :: 10 <= i < 24 ==> d1.template[i] == d1.template[10..][i - 10];
    var t := WriteSoma(ToInt(ms), d1.template).value;
    assert DayWindow(d) ==> IsTimeOfDay(t) && ReadTime(t) == ms by {
      if DayWindow(d) {
        ToIntKeeps(ms);
        TimeRoundTrip(ms, d1.template);
      }
    }
    (t, d1.(template := t))
  }

  /** `formatToBytes(time, template)` of `InstanteFormatter`, the way `Log`
      calls it: its own template is the buffer, so the date refresh and the
      time land in the same bytes. The time goes through the `digitos`
      table. */
  function FormatIntoTemplate(d: Day, time: int, cal: Midnight): (r: Result<Day>)
    requires Covers(cal, time) && |d.template| == 30
    ensures r.Success? ==> |r.value.template| == 30 && r.value.template[23..] == d.template[23..]
    ensures r.Success? ==> r.value.midnightToday <= time < r.value.midnightTomorrow
    ensures DayWindow(d) ==> r.Success? && DayWindow(r.value)
    ensures DayWindow(d) ==> IsTimeOfDay(r.value.template) && ReadTime(r.value.template) == time - r.value.midnightToday
  {
    var since := MillisSinceMidnight(d, time, cal);
    var ms, d1 := since.0, since.1;
    assert d1.template[23..] == d1.template[10..][13..];
    assert DayWindow(d) ==> ToInt(ms) == ms by {
      if DayWindow(d) {
        ToIntKeeps(ms);
      }
    }
    match WriteTable(ToInt(ms), d1.template)
    case Failure(e) => Failure(e)
    case Success(t) =>
      TableAgreesWithSoma(ToInt(ms), d1.template);
      assert forall i :: 23 <= i < 30 ==> !IsTimePlace(i);
      assert t[23..] == d1.template[23..];
      assert DayWindow(d) ==> IsTimeOfDay(t) && ReadTime(t) == ms by {
        if DayWindow(d) {
          TimeRoundTrip(ms, d1.template);
        }
      }
      Success(d1.(template := t))
  }
}
