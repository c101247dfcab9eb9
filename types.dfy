/** Shared vocabulary of the protocol layer: bytes, colours, the packet-size
    constants of web/src/protocol/types.ts, and small wrapper datatypes. */
module Types {

  /** One element of a Uint8Array. */
  type Byte = b: int | 0 <= b < 256

  /** Largest fragment the BLE write characteristic accepts in one write. */
  const MTU_SIZE: nat := 509
  /** Payload bytes carried by one slice of an image or GIF stream. */
  const CHUNK_SIZE_4K: nat := 4096
  /** Header bytes in front of every GIF slice. */
  const GIF_HEADER_SIZE: nat := 16
  /** Header bytes in front of every DIY image slice. */
  const IMAGE_HEADER_SIZE: nat := 9

  /** An RGB triple as the UI hands it over: plain numbers, not yet truncated. */
  datatype Rgb = Rgb(r: int, g: int, b: int)

  datatype Option<T> = None | Some(value: T)

  /** Outcome of an operation that either completes or throws an error. */
  datatype Outcome<E> = Pass | Fail(error: E)

  /** The value a Uint8Array stores for an integer `x` (and what `x & 0xff` gives):
      `x` modulo 256, non-negative. */
  function ToByte(x: int): (b: Byte)
    ensures 0 <= x < 256 ==> b == x
  {
    x % 256
  }

  function Min(a: int, b: int): int
  {
    if a <= b then a else b
  }

  function Max(a: int, b: int): int
  {
    if a >= b then a else b
  }

  /** Concatenation of a sequence of sequences, in order. */
  function Flatten<T>(parts: seq<seq<T>>): seq<T>
  {
    if |parts| == 0 then [] else parts[0] + Flatten(parts[1..])
  }

  lemma {:induction false} FlattenAppend<T>(a: seq<seq<T>>, b: seq<seq<T>>)
    ensures Flatten(a + b) == Flatten(a) + Flatten(b)
  {
    if |a| == 0 {
      assert a + b == b;
    } else {
      assert (a + b)[1..] == a[1..] + b;
      FlattenAppend(a[1..], b);
    }
  }

  lemma FlattenSnoc<T>(a: seq<seq<T>>, x: seq<T>)
    ensures Flatten(a + [x]) == Flatten(a) + x
  {
    FlattenAppend(a, [x]);
    assert Flatten([x]) == x + Flatten([x][1..]);
  }

  /** A slice that lies inside the first part of a concatenation. */
  lemma SliceOfAppend<T>(a: seq<T>, b: seq<T>, lo: nat, hi: nat)
    requires lo <= hi <= |a|
    ensures (a + b)[lo..hi] == a[lo..hi]
  {
  }

  /** A slice that lies inside the second part of a concatenation. */
  lemma SliceAfterAppend<T>(a: seq<T>, b: seq<T>, lo: nat, hi: nat)
    requires |a| <= lo <= hi <= |a| + |b|
    ensures (a + b)[lo..hi] == b[lo - |a|..hi - |a|]
  {
  }

  /** Little-endian value of a byte string: byte 0 is the least significant. */
  function LittleEndian(s: seq<Byte>): nat
  {
    if |s| == 0 then 0 else s[0] + 256 * LittleEndian(s[1..])
  }

  lemma LittleEndian2(s: seq<Byte>)
    requires |s| == 2
    ensures LittleEndian(s) == s[0] as int + 256 * s[1] as int
  {
    assert LittleEndian(s[1..][1..]) == 0;
  }

  lemma LittleEndian4(s: seq<Byte>)
    requires |s| == 4
    ensures LittleEndian(s) == s[0] as int + 0x100 * s[1] as int + 0x1_0000 * s[2] as int + 0x100_0000 * s[3] as int
  {
    var t := s[1..];
    LittleEndian2(t[1..]);
  }

  /** A single-packet command whose first two bytes, little-endian, give its
      own length, followed by at least a two-byte opcode. */
  predicate Framed(cmd: seq<Byte>)
  {
    |cmd| >= 4 && cmd[0] as int + 256 * cmd[1] as int == |cmd|
  }
}
