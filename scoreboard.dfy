/** web/src/protocol/commands/scoreboard.ts: two three-digit counters. */
module ScoreboardCommand {
  import opened Types
  import opened Chunking

  /** `Math.max(0, Math.min(999, count))`. */
  function ClampCount(count: int): (c: int)
    ensures 0 <= c <= 999
    ensures 0 <= count <= 999 ==> c == count
    ensures count < 0 ==> c == 0
    ensures count > 999 ==> c == 999
  {
    Max(0, Min(999, count))
  }

  /** A clamped counter fits in ten bits: its 16-bit encoding reads back as
      itself and its high byte is at most 3. */
  lemma CounterBytes(c: int)
    requires 0 <= c <= 999
    ensures LittleEndian(Int16LE(c)) == c && Int16LE(c)[1] <= 3
  {
    DivModUnique(c, 0x1_0000, 0, c);
  }

  /** `scoreboard(count1, count2)`: each clamped counter as a 16-bit value, low
      byte first (`c & 0xff`, `(c >> 8) & 0xff`, the bytes of `Int16LE`). */
  function Scoreboard(count1: int, count2: int): (r: seq<Byte>)
    ensures Framed(r) && |r| == 8 && r[2..4] == [10, 128]
    ensures LittleEndian(r[4..6]) == ClampCount(count1) && r[5] <= 3
    ensures LittleEndian(r[6..8]) == ClampCount(count2) && r[7] <= 3
  {
    var lo, hi := Int16LE(ClampCount(count1)), Int16LE(ClampCount(count2));
    var r := [8, 0, 10, 128] + lo + hi;
    assert r[4..6] == lo && r[6..8] == hi;
    CounterBytes(ClampCount(count1));
    CounterBytes(ClampCount(count2));
    r
  }

  /** Counters within 0..999 reach the device unchanged. */
  lemma ScoreboardReadBack(count1: int, count2: int)
    requires 0 <= count1 <= 999 && 0 <= count2 <= 999
    ensures var r := Scoreboard(count1, count2);
      r[4] as int + 256 * r[5] as int == count1 && r[6] as int + 256 * r[7] as int == count2
  {
    var r := Scoreboard(count1, count2);
    LittleEndian2(r[4..6]);
    LittleEndian2(r[6..8]);
  }
}
