/** web/src/protocol/commands/effect.ts: animated colour effects. */
module EffectCommand {
  import opened Types

  /** The three bytes a colour occupies on the wire, each channel truncated. */
  function Triple(c: Rgb): seq<Byte>
  {
    [c.r % 256, c.g % 256, c.b % 256]
  }

  /** The colour triples of `colors`, in order. */
  function ColorBytes(colors: seq<Rgb>): seq<Byte>
  {
    if |colors| == 0 then [] else ColorBytes(colors[..|colors| - 1]) + Triple(colors[|colors| - 1])
  }

  /** The fixed 7-byte header of an effect command with `n` colours. */
  function EffectHeader(style: int, n: nat): seq<Byte>
  {
    [(6 + n) % 256, 0, 3, 2, style % 256, 90, n % 256]
  }

  /** The bytes of an effect command: header, then one triple per colour. */
  function EffectBytes(style: int, colors: seq<Rgb>): seq<Byte>
  {
    EffectHeader(style, |colors|) + ColorBytes(colors)
  }

  /** Colour `i` sits at offsets `3i`, `3i+1`, `3i+2` of the colour block. */
  lemma {:induction false} ColorBytesAt(colors: seq<Rgb>, i: nat)
    requires i < |colors|
    ensures |ColorBytes(colors)| == 3 * |colors|
    ensures ColorBytes(colors)[3 * i .. 3 * i + 3] == Triple(colors[i])
    decreases |colors|
  {
    var m := |colors| - 1;
    var front := colors[..m];
    if m > 0 {
      ColorBytesAt(front, 0);
    }
    assert ColorBytes(colors) == ColorBytes(front) + Triple(colors[m]);
    if i < m {
      ColorBytesAt(front, i);
      SliceOfAppend(ColorBytes(front), Triple(colors[m]), 3 * i, 3 * i + 3);
    }
  }

  lemma ColorBytesSnoc(colors: seq<Rgb>, i: nat)
    requires i < |colors|
    ensures ColorBytes(colors[..i + 1]) == ColorBytes(colors[..i]) + Triple(colors[i])
  {
    assert colors[..i + 1][..i] == colors[..i];
  }

  /** Writes the header of an effect command with `n` colours into `a`. */
  method PutHeader(a: array<Byte>, style: int, n: nat)
    requires 7 <= a.Length
    modifies a
    ensures a[..7] == EffectHeader(style, n)
  {
    a[0] := (6 + n) % 256;
    a[1] := 0;
    a[2] := 3;
    a[3] := 2;
    a[4] := style % 256;
    a[5] := 90;
    a[6] := n % 256;
  }

  /** Writes the triple of `c` at offsets `k`, `k+1`, `k+2` of `a`. */
  method PutTriple(a: array<Byte>, k: nat, c: Rgb)
    requires k + 3 <= a.Length
    modifies a
    ensures a[..k + 3] == old(a[..k]) + Triple(c)
  {
    a[k] := c.r % 256;
    a[k + 1] := c.g % 256;
    a[k + 2] := c.b % 256;
  }

  /** `effect(style, colors)`: a 7-byte header followed by one RGB triple per
      colour, written into a fresh buffer. */
  method Effect(style: int, colors: seq<Rgb>) returns (r: seq<Byte>)
    ensures r == EffectBytes(style, colors)
  {
    var n := |colors|;
    var totalLen := 7 + n * 3;
    var result := new Byte[totalLen](_ => 0);
    PutHeader(result, style, n);
    ghost var header := EffectHeader(style, n);
    assert result[..7] == header + ColorBytes(colors[..0]);
    for i := 0 to n
      invariant result[..7 + 3 * i] == header + ColorBytes(colors[..i])
    {
      ghost var done := ColorBytes(colors[..i]);
      PutTriple(result, 7 + 3 * i, colors[i]);
      ColorBytesSnoc(colors, i);
      assert result[..7 + 3 * (i + 1)] == header + (done + Triple(colors[i]));
    }
    assert colors[..n] == colors;
    r := result[..];
    assert r == result[..7 + 3 * n];
  }

  /** What a device reads from an effect command. The first byte is `6 + n`
      for `n` colours, not the packet length `7 + 3n`. */
  lemma EffectLayout(style: int, colors: seq<Rgb>)
    ensures |EffectBytes(style, colors)| == 7 + 3 * |colors|
    ensures var r := EffectBytes(style, colors);
      && r[0] == (6 + |colors|) % 256 && r[0] != |r|
      && r[1..4] == [0, 3, 2] && r[4] == style % 256 && r[5] == 90
      && r[6] == |colors| % 256
    ensures forall i :: 0 <= i < |colors| ==>
      EffectBytes(style, colors)[7 + 3 * i .. 10 + 3 * i] == Triple(colors[i])
  {
    var r := EffectBytes(style, colors);
    if |colors| > 0 {
      ColorBytesAt(colors, 0);
    }
    forall i | 0 <= i < |colors|
      ensures r[7 + 3 * i .. 10 + 3 * i] == Triple(colors[i])
    {
      ColorBytesAt(colors, i);
      assert r[7 + 3 * i .. 10 + 3 * i] == ColorBytes(colors)[3 * i .. 3 * i + 3];
    }
  }
}
