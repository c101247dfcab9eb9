/** web/src/protocol/commands/graffiti.ts: paint individual pixels. */
module GraffitiCommand {
  import opened Types

  /** Pixels one command carries at most; callers send larger edits in batches. */
  const MAX_PIXELS: nat := 255

  /** The two bytes a pixel occupies on the wire, each coordinate truncated. */
  function Pair(p: (int, int)): seq<Byte>
  {
    [p.0 % 256, p.1 % 256]
  }

  /** The coordinate pairs of `pixels`, in order. */
  function PairBytes(pixels: seq<(int, int)>): seq<Byte>
  {
    if |pixels| == 0 then [] else PairBytes(pixels[..|pixels| - 1]) + Pair(pixels[|pixels| - 1])
  }

  /** The 8-byte header: little-endian size, mode bytes, then the colour. */
  function GraffitiHeader(color: Rgb, size: nat): seq<Byte>
  {
    [size % 256, (size / 256) % 256, 5, 1, 0, color.r % 256, color.g % 256, color.b % 256]
  }

  /** The bytes of a graffiti command: the header, then the first 255 pixels. */
  function GraffitiBytes(color: Rgb, pixels: seq<(int, int)>): seq<Byte>
  {
    var n := Min(|pixels|, MAX_PIXELS);
    GraffitiHeader(color, 8 + 2 * n) + PairBytes(pixels[..n])
  }

  /** The coordinate pairs a device reads from a graffiti command. */
  function PixelPairs(data: seq<Byte>): seq<(Byte, Byte)>
    requires |data| >= 8 && |data| % 2 == 0
  {
    seq((|data| - 8) / 2, i requires 0 <= i < (|data| - 8) / 2 => (data[8 + 2 * i], data[9 + 2 * i]))
  }

  /** Pixel `i` sits at offsets `2i`, `2i+1` of the pixel block. */
  lemma {:induction false} PairBytesAt(pixels: seq<(int, int)>, i: nat)
    requires i < |pixels|
    ensures |PairBytes(pixels)| == 2 * |pixels|
    ensures PairBytes(pixels)[2 * i .. 2 * i + 2] == Pair(pixels[i])
    decreases |pixels|
  {
    var m := |pixels| - 1;
    var front := pixels[..m];
    if m > 0 {
      PairBytesAt(front, 0);
    }
    assert PairBytes(pixels) == PairBytes(front) + Pair(pixels[m]);
    if i < m {
      PairBytesAt(front, i);
      SliceOfAppend(PairBytes(front), Pair(pixels[m]), 2 * i, 2 * i + 2);
    }
  }

  lemma PairBytesSnoc(pixels: seq<(int, int)>, i: nat)
    requires i < |pixels|
    ensures PairBytes(pixels[..i + 1]) == PairBytes(pixels[..i]) + Pair(pixels[i])
  {
    assert pixels[..i + 1][..i] == pixels[..i];
  }

  /** Writes the pair of `p` at offsets `k`, `k+1` of `a`. */
  method PutPair(a: array<Byte>, k: nat, p: (int, int))
    requires k + 2 <= a.Length
    modifies a
    ensures a[..k + 2] == old(a[..k]) + Pair(p)
  {
    a[k] := p.0 % 256;
    a[k + 1] := p.1 % 256;
  }

  /** Writes the header for a command of `size` bytes into `a`. */
  method PutHeader(a: array<Byte>, color: Rgb, size: nat)
    requires 8 <= a.Length
    modifies a
    ensures a[..8] == GraffitiHeader(color, size)
  {
    a[0] := size % 256;
    a[1] := (size / 256) % 256;
    a[2] := 5;
    a[3] := 1;
    a[4] := 0;
    a[5] := color.r % 256;
    a[6] := color.g % 256;
    a[7] := color.b % 256;
  }

  /** `graffitiPixels(color, pixels)`, written into a fresh buffer. */
  method GraffitiPixels(color: Rgb, pixels: seq<(int, int)>) returns (data: seq<Byte>)
    ensures data == GraffitiBytes(color, pixels)
  {
    var n := Min(|pixels|, MAX_PIXELS);
    var size := 8 + 2 * n;
    var buf := new Byte[size](_ => 0);
    PutHeader(buf, color, size);
    ghost var header := GraffitiHeader(color, size);
    assert buf[..8] == header + PairBytes(pixels[..0]);
    for i := 0 to n
      invariant buf[..8 + 2 * i] == header + PairBytes(pixels[..i])
    {
      ghost var done := PairBytes(pixels[..i]);
      PutPair(buf, 8 + 2 * i, pixels[i]);
      PairBytesSnoc(pixels, i);
      assert buf[..8 + 2 * (i + 1)] == header + (done + Pair(pixels[i]));
    }
    data := buf[..];
    assert data == buf[..8 + 2 * n];
  }

  /** What a device reads from a graffiti command: its own size, the mode
      bytes, the colour, and the first 255 pixels with coordinates truncated
      to a byte; later pixels are dropped. */
  lemma GraffitiLayout(color: Rgb, pixels: seq<(int, int)>)
    ensures |GraffitiBytes(color, pixels)| == 8 + 2 * Min(|pixels|, MAX_PIXELS) <= 518
    ensures Framed(GraffitiBytes(color, pixels))
    ensures GraffitiBytes(color, pixels)[2..5] == [5, 1, 0]
    ensures GraffitiBytes(color, pixels)[5..8] == [color.r % 256, color.g % 256, color.b % 256]
    ensures PixelPairs(GraffitiBytes(color, pixels)) ==
      seq(Min(|pixels|, MAX_PIXELS), i requires 0 <= i < Min(|pixels|, MAX_PIXELS) =>
        (pixels[i].0 % 256, pixels[i].1 % 256))
  {
    var n := Min(|pixels|, MAX_PIXELS);
    var data := GraffitiBytes(color, pixels);
    var block := PairBytes(pixels[..n]);
    if n > 0 {
      PairBytesAt(pixels[..n], 0);
    }
    assert |data| == 8 + 2 * n;
    var size := 8 + 2 * n;
    assert data[0] as int + 256 * data[1] as int == size;
    var want := seq(n, i requires 0 <= i < n => (pixels[i].0 % 256, pixels[i].1 % 256));
    var got := PixelPairs(data);
    assert |got| == n;
    forall i | 0 <= i < n
      ensures got[i] == want[i]
    {
      PairBytesAt(pixels[..n], i);
      assert data[8 + 2 * i .. 10 + 2 * i] == block[2 * i .. 2 * i + 2];
      assert pixels[..n][i] == pixels[i];
    }
    assert got == want;
  }
}
