/** web/src/protocol/commands/clock.ts: the clock display command. */
module ClockCommand {
  import opened Types

  /** `(style & 0x3f) | (showDate ? 128 : 0) | (hour24 ? 64 : 0)` on 8 bits. */
  function FlagBits(style: int, showDate: bool, hour24: bool): bv8
  {
    ((style % 64) as bv8) | (if showDate then 128 else 0) | (if hour24 then 64 else 0)
  }

  /** The flags byte: the style in bits 0-5, hour24 in bit 6, showDate in bit 7. */
  function ClockFlags(style: int, showDate: bool, hour24: bool): (flags: Byte)
    ensures flags % 64 == style % 64
    ensures (flags / 64) % 2 == 1 <==> hour24
    ensures flags / 128 == 1 <==> showDate
  {
    FlagBitsValue(style, showDate, hour24);
    FlagBits(style, showDate, hour24) as int
  }

  lemma LowBits(style: int)
    ensures ((style % 64) as bv8) as int == style % 64
    ensures ((style % 64) as bv8) & 0xC0 == 0
  {
  }

  /** Setting the date bit (bit 7) of a byte whose top two bits are clear
      adds its value and leaves bit 6 clear. */
  lemma DateBit(x: bv8, showDate: bool)
    requires x & 0xC0 == 0
    ensures (x | (if showDate then 128 else 0)) as int == x as int + (if showDate then 128 else 0)
    ensures (x | (if showDate then 128 else 0)) & 64 == 0
  {
  }

  /** Setting the 24-hour bit (bit 6) of a byte where it is clear adds its value. */
  lemma HourBit(x: bv8, hour24: bool)
    requires x & 64 == 0
    ensures (x | (if hour24 then 64 else 0)) as int == x as int + (if hour24 then 64 else 0)
  {
  }

  /** The three operands of the OR occupy disjoint bits, so the OR is their sum. */
  lemma FlagBitsValue(style: int, showDate: bool, hour24: bool)
    ensures FlagBits(style, showDate, hour24) as int ==
      style % 64 + (if showDate then 128 else 0) + (if hour24 then 64 else 0)
  {
    var low := (style % 64) as bv8;
    LowBits(style);
    DateBit(low, showDate);
    var withDate := low | (if showDate then 128 else 0);
    HourBit(withDate, hour24);
    assert FlagBits(style, showDate, hour24) == withDate | (if hour24 then 64 else 0);
  }

  /** `showClock(style, showDate, hour24, color = [255, 255, 255])`; `None`
      stands for the omitted colour argument. */
  function ShowClock(style: int, showDate: bool, hour24: bool, color: Option<Rgb>): (r: seq<Byte>)
    ensures Framed(r) && |r| == 8 && r[2..4] == [6, 1]
    ensures r[4] == ClockFlags(style, showDate, hour24)
    ensures color.None? ==> r[5..] == [255, 255, 255]
    ensures color.Some? ==> r[5..] == [color.value.r % 256, color.value.g % 256, color.value.b % 256]
  {
    var c := if color.Some? then color.value else Rgb(255, 255, 255);
    [8, 0, 6, 1, ClockFlags(style, showDate, hour24), ToByte(c.r), ToByte(c.g), ToByte(c.b)]
  }
}
