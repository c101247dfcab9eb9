/** web/src/protocol/commands/common.ts: power, brightness, flip, freeze,
    reset and clock-setting commands. Every one is a framed single packet:
    byte 0 is its length, byte 1 is 0, bytes 2-3 are the opcode. */
module CommonCommands {
  import opened Types

  /** `turnOn()`. */
  function TurnOn(): (r: seq<Byte>)
    ensures Framed(r) && |r| == 5
    ensures r[2..4] == [7, 1] && r[4] == 1
  {
    [5, 0, 7, 1, 1]
  }

  /** `turnOff()`. */
  function TurnOff(): (r: seq<Byte>)
    ensures Framed(r) && |r| == 5
    ensures r[2..4] == [7, 1] && r[4] == 0
  {
    [5, 0, 7, 1, 0]
  }

  /** Power on and off share the opcode and differ only in the state byte. */
  lemma PowerCommandsDifferInStateOnly()
    ensures TurnOn()[..4] == TurnOff()[..4] && TurnOn()[4] != TurnOff()[4]
  {
  }

  /** `setBrightness(percent)`: the percentage is clamped to 5..100 before it is
      encoded. */
  function SetBrightness(percent: int): (r: seq<Byte>)
    ensures Framed(r) && |r| == 5 && r[2..4] == [4, 128]
    ensures 5 <= r[4] <= 100
    ensures 5 <= percent <= 100 ==> r[4] == percent
    ensures percent < 5 ==> r[4] == 5
    ensures percent > 100 ==> r[4] == 100
  {
    var p := Max(5, Min(100, percent));
    [5, 0, 4, 128, p]
  }

  /** `setFlip(flipped)`. */
  function SetFlip(flipped: bool): (r: seq<Byte>)
    ensures Framed(r) && |r| == 5 && r[2..4] == [6, 128]
    ensures r[4] <= 1 && (r[4] == 1 <==> flipped)
  {
    [5, 0, 6, 128, if flipped then 1 else 0]
  }

  /** `freezeScreen()`. */
  function FreezeScreen(): (r: seq<Byte>)
    ensures Framed(r) && |r| == 4 && r[2..4] == [3, 0]
  {
    [4, 0, 3, 0]
  }

  /** `resetDevice()`: the freeze opcode with bit 7 of its second byte set. */
  function ResetDevice(): (r: seq<Byte>)
    ensures Framed(r) && |r| == 4 && r[2..4] == [3, 0x80]
    ensures r[..3] == FreezeScreen()[..3] && r[3] == FreezeScreen()[3] + 0x80
  {
    [0x04, 0x00, 0x03, 0x80]
  }

  /** The fields `setTime` reads from a JavaScript `Date`, in local time:
      `getFullYear()`, `getMonth()` (0 = January), `getDate()`, `getDay()`
      (0 = Sunday), `getHours()`, `getMinutes()`, `getSeconds()`. */
  datatype DateFields = DateFields(
    fullYear: int, month: int, date: int, day: int, hours: int, minutes: int, seconds: int)

  /** The ranges a `Date` object guarantees for its fields. */
  predicate ValidDate(d: DateFields)
  {
    && 0 <= d.month < 12 && 1 <= d.date <= 31 && 0 <= d.day < 7
    && 0 <= d.hours < 24 && 0 <= d.minutes < 60 && 0 <= d.seconds < 60
  }

  /** JavaScript `a % b` for `b > 0`: the remainder takes the sign of `a`. */
  function JsRemainder(a: int, b: int): (r: int)
    requires b > 0
    ensures -b < r < b && (a >= 0 ==> r == a % b) && (a < 0 ==> r <= 0)
    ensures (a - r) % b == 0
  {
    JsRemainderCongruent(a, b);
    if a >= 0 then a % b else -((-a) % b)
  }

  /** Both branches of `JsRemainder` differ from `a` by a multiple of `b`. */
  lemma JsRemainderCongruent(a: int, b: int)
    requires b > 0
    ensures a >= 0 ==> (a - a % b) % b == 0
    ensures a < 0 ==> (a + (-a) % b) % b == 0
  {
    if a >= 0 {
      assert a - a % b == b * (a / b);
      MultipleMod(b, a / b);
    } else {
      var q := (-a) / b;
      assert -a == b * q + (-a) % b;
      assert a + (-a) % b == b * -q;
      MultipleMod(b, -q);
    }
  }

  /** A multiple of `m` leaves no remainder. */
  lemma MultipleMod(m: int, k: int)
    requires m > 0
    ensures (m * k) % m == 0
  {
    var q := (m * k) / m;
    var d := k - q;
    assert m * d == (m * k) % m;
    if d >= 1 {
      AtLeastOnce(m, d);
      assert false;
    } else if d <= -1 {
      AtLeastOnce(m, -d);
      assert false;
    }
  }

  /** `d` positive copies of a positive `m` add up to at least `m`. */
  lemma {:induction false} AtLeastOnce(m: int, d: int)
    requires m > 0 && d >= 1
    ensures m * d >= m && m * -d <= -m
    decreases d
  {
    if d > 1 {
      AtLeastOnce(m, d - 1);
      assert m * d == m * (d - 1) + m;
    }
  }

  /** The device's weekday numbering: 1 = Monday .. 7 = Sunday. */
  function IsoWeekday(jsDay: int): (w: int)
    requires 0 <= jsDay < 7
    ensures 1 <= w <= 7 && w % 7 == jsDay
  {
    if jsDay == 0 then 7 else jsDay
  }

  /** `setTime(date)`. */
  function SetTime(d: DateFields): (r: seq<Byte>)
    requires ValidDate(d)
    ensures Framed(r) && |r| == 11 && r[2..4] == [1, 128]
    ensures d.fullYear >= 0 ==> r[4] == d.fullYear % 100
    ensures r[4] == JsRemainder(d.fullYear, 100) % 256
    ensures r[5] == d.month + 1 && 1 <= r[5] <= 12
    ensures r[6] == d.date
    ensures 1 <= r[7] <= 7 && r[7] % 7 == d.day
    ensures r[8..] == [d.hours, d.minutes, d.seconds]
  {
    var year := JsRemainder(d.fullYear, 100);
    [11, 0, 1, 128, year % 256, d.month + 1, d.date, IsoWeekday(d.day), d.hours, d.minutes, d.seconds]
  }

  /** Two dates on different weekdays get different weekday bytes: Sunday (0)
      is sent as 7 and every other day keeps its number. */
  lemma WeekdayByteDistinguishesDays(d1: DateFields, d2: DateFields)
    requires ValidDate(d1) && ValidDate(d2) && d1.day != d2.day
    ensures SetTime(d1)[7] != SetTime(d2)[7]
  {
  }

  /** Friday 15 March 2024, 14:30:05. */
  lemma SetTimeExample()
    ensures SetTime(DateFields(2024, 2, 15, 5, 14, 30, 5)) == [11, 0, 1, 128, 24, 3, 15, 5, 14, 30, 5]
  {
  }
}
