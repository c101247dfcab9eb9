/** web/src/protocol/commands/countdown.ts: the countdown timer command. */
module CountdownCommand {
  import opened Types

  /** `countdown(action, minutes, seconds)`: each argument is only truncated to
      its low byte; nothing is range-checked. */
  function Countdown(action: int, minutes: int, seconds: int): (r: seq<Byte>)
    ensures Framed(r) && |r| == 7 && r[2..4] == [8, 128]
    ensures r[4..] == [action % 256, minutes % 256, seconds % 256]
  {
    [7, 0, 8, 128, ToByte(action), ToByte(minutes), ToByte(seconds)]
  }

  /** Arguments that agree modulo 256 give the same command: out-of-range
      minutes or seconds are never clamped, only wrapped. */
  lemma CountdownWraps(action: int, minutes: int, seconds: int, k: int)
    ensures Countdown(action + 256 * k, minutes + 256 * k, seconds + 256 * k)
         == Countdown(action, minutes, seconds)
  {
    WrapByte(action, k);
    WrapByte(minutes, k);
    WrapByte(seconds, k);
  }

  lemma WrapByte(x: int, k: int)
    ensures ToByte(x + 256 * k) == ToByte(x)
  {
    assert x + 256 * k == (x / 256 + k) * 256 + x % 256;
  }
}
