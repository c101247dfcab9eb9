/** web/src/protocol/commands/fullscreen-color.ts: fill the screen with one colour. */
module FullscreenColorCommand {
  import opened Types

  /** `fullscreenColor(color)`: the channels are stored into a Uint8Array, so
      each is reduced modulo 256. */
  function FullscreenColor(color: Rgb): (r: seq<Byte>)
    ensures Framed(r) && |r| == 7 && r[2..4] == [2, 2]
    ensures r[4..] == [color.r % 256, color.g % 256, color.b % 256]
  {
    [7, 0, 2, 2, ToByte(color.r), ToByte(color.g), ToByte(color.b)]
  }

  /** Distinct byte colours give distinct commands. */
  lemma FullscreenColorInjective(c1: Rgb, c2: Rgb)
    requires 0 <= c1.r < 256 && 0 <= c1.g < 256 && 0 <= c1.b < 256
    requires 0 <= c2.r < 256 && 0 <= c2.g < 256 && 0 <= c2.b < 256
    requires FullscreenColor(c1) == FullscreenColor(c2)
    ensures c1 == c2
  {
    assert FullscreenColor(c1)[4..] == FullscreenColor(c2)[4..];
  }
}
