/** web/src/protocol/chunking.ts: little-endian encoders, byte concatenation,
    fixed-size splitting, and the two multi-packet builders (DIY image stream,
    GIF stream). A stream is a sequence of packets; a packet is the sequence
    of MTU-sized fragments of one "large packet" (slice header + slice). */
module Chunking {
  import opened Types
  import opened Checksum

  // ---------------------------------------------------------------------------
  // Little-endian integer encoders

  /** Arithmetic behind the encoders: the residue modulo 256*d splits into the
      low byte and the residue of the quotient modulo d. */
  lemma ModSplit(v: int, d: int)
    requires d > 0
    ensures v % (256 * d) == v % 256 + 256 * ((v / 256) % d)
  {
    var q, r0 := v / 256, v % 256;
    var q2, r1 := q / d, q % d;
    assert v == 256 * q + r0;
    assert q == d * q2 + r1;
    assert v == (256 * d) * q2 + (256 * r1 + r0) by {
      assert 256 * q == 256 * (d * q2) + 256 * r1;
      assert 256 * (d * q2) == (256 * d) * q2;
    }
    assert 0 <= 256 * r1 + r0 < 256 * d;
    DivModUnique(v, 256 * d, q2, 256 * r1 + r0);
  }

  lemma MulMono(m: int, a: int, b: int)
    requires m >= 0
    ensures a <= b ==> m * a <= m * b
  {
    if a <= b {
      assert m * b == m * a + m * (b - a);
    }
  }

  /** Quotient and remainder are determined by `v == m * k + r`, `0 <= r < m`. */
  lemma DivModUnique(v: int, m: int, k: int, r: int)
    requires m > 0 && 0 <= r < m && v == m * k + r
    ensures v % m == r && v / m == k
  {
    MulMono(m, k + 1, v / m);
    MulMono(m, v / m + 1, k);
  }

  /** `int16LE(value)`: `value & 0xff`, `(value >> 8) & 0xff`. */
  function Int16LE(v: int): (r: seq<Byte>)
    ensures |r| == 2 && LittleEndian(r) == v % 0x1_0000
  {
    var r: seq<Byte> := [v % 256, (v / 256) % 256];
    ModSplit(v, 256);
    LittleEndian2(r);
    r
  }

  /** `int32LE(value)`: the four bytes `(value >> 8k) & 0xff`, k = 0..3. */
  function Int32LE(v: int): (r: seq<Byte>)
    ensures |r| == 4 && LittleEndian(r) == v % 0x1_0000_0000
  {
    var r: seq<Byte> := [v % 256, (v / 0x100) % 256, (v / 0x1_0000) % 256, (v / 0x100_0000) % 256];
    ModSplit(v, 0x100_0000);
    ModSplit(v / 256, 0x1_0000);
    assert (v / 256) / 256 == v / 0x1_0000;
    ModSplit(v / 0x1_0000, 256);
    assert (v / 0x1_0000) / 256 == v / 0x100_0000;
    LittleEndian4(r);
    r
  }

  /** Only the value modulo 2^16 (resp. 2^32) reaches the wire. */
  lemma EncodersTruncate(v: int)
    ensures Int16LE(v) == Int16LE(v % 0x1_0000)
    ensures Int32LE(v) == Int32LE(v % 0x1_0000_0000)
  {
    var w, x := v % 0x1_0000, v % 0x1_0000_0000;
    assert LittleEndian(Int16LE(w)) == w % 0x1_0000 == w;
    LittleEndianInjective(Int16LE(v), Int16LE(w));
    assert LittleEndian(Int32LE(x)) == x % 0x1_0000_0000 == x;
    LittleEndianInjective(Int32LE(v), Int32LE(x));
  }

  /** A 32-bit unsigned value survives `int32LE` unchanged. */
  lemma Int32LEExact(v: int)
    requires 0 <= v < 0x1_0000_0000
    ensures LittleEndian(Int32LE(v)) == v
  {
  }

  /** Two byte strings of the same length with the same little-endian value are equal. */
  lemma {:induction false} LittleEndianInjective(a: seq<Byte>, b: seq<Byte>)
    requires |a| == |b| && LittleEndian(a) == LittleEndian(b)
    ensures a == b
  {
    if |a| > 0 {
      var x, y := LittleEndian(a[1..]), LittleEndian(b[1..]);
      assert a[0] + 256 * x == b[0] + 256 * y;
      DivModUnique(LittleEndian(a), 256, x, a[0]);
      DivModUnique(LittleEndian(a), 256, y, b[0]);
      LittleEndianInjective(a[1..], b[1..]);
      assert a == [a[0]] + a[1..] && b == [b[0]] + b[1..];
    }
  }

  // ---------------------------------------------------------------------------
  // Concatenation and splitting

  /** `concatBytes(...arrays)`: sums the lengths, allocates the result and copies
      each input in at a running offset. */
  method ConcatBytes(arrays: seq<seq<Byte>>) returns (r: seq<Byte>)
    ensures r == Flatten(arrays)
  {
    var total := 0;
    for k := 0 to |arrays|
      invariant total == |Flatten(arrays[..k])|
    {
      assert arrays[..k + 1] == arrays[..k] + [arrays[k]];
      FlattenSnoc(arrays[..k], arrays[k]);
      total := total + |arrays[k]|;
    }
    assert arrays[..|arrays|] == arrays;
    var result := new Byte[total](_ => 0);
    var offset := 0;
    for k := 0 to |arrays|
      invariant offset == |Flatten(arrays[..k])|
      invariant offset + |Flatten(arrays[k..])| == total
      invariant result[..offset] == Flatten(arrays[..k])
    {
      var a := arrays[k];
      assert arrays[k..] == [a] + arrays[k + 1..];
      FlattenAppend([a], arrays[k + 1..]);
      FlattenSnoc([], a);
      for j := 0 to |a|
        invariant result[..offset + j] == Flatten(arrays[..k]) + a[..j]
      {
        result[offset + j] := a[j];
        assert result[..offset + j + 1] == result[..offset + j] + [a[j]];
        assert a[..j + 1] == a[..j] + [a[j]];
      }
      assert a[..|a|] == a;
      assert arrays[..k + 1] == arrays[..k] + [a];
      FlattenSnoc(arrays[..k], a);
      offset := offset + |a|;
    }
    assert result[..] == result[..offset];
    r := result[..];
  }

  /** The pieces `splitBySize(data, size)` yields: consecutive slices of `size`
      bytes, the last one possibly shorter (`slice` clamps its end). */
  function Chunks<T>(data: seq<T>, size: nat): seq<seq<T>>
    requires size > 0
    decreases |data|
  {
    if |data| == 0 then []
    else
      var n := Min(size, |data|);
      [data[..n]] + Chunks(data[n..], size)
  }

  /** Adding the divisor adds one to the quotient. */
  lemma DivShift(x: int, m: int)
    requires m > 0
    ensures (x + m) / m == x / m + 1
  {
    var q, r := x / m, x % m;
    assert x + m == m * (q + 1) + r;
    DivModUnique(x + m, m, q + 1, r);
  }

  /** `splitBySize` yields ceil(|data| / size) pieces. */
  lemma {:induction false} ChunksCount<T>(data: seq<T>, size: nat)
    requires size > 0
    ensures |Chunks(data, size)| == (|data| + size - 1) / size
    decreases |data|
  {
    if |data| > 0 {
      var n := Min(size, |data|);
      ChunksCount(data[n..], size);
      if n == size {
        DivShift(|data| - size + size - 1, size);
      } else {
        DivModUnique(|data| + size - 1, size, 1, |data| - 1);
      }
    }
  }

  /** Every piece is nonempty and at most `size` long; all but the last are
      exactly `size` long. */
  lemma {:induction false} ChunksSizes<T>(data: seq<T>, size: nat)
    requires size > 0
    ensures forall k :: 0 <= k < |Chunks(data, size)| ==> 0 < |Chunks(data, size)[k]| <= size
    ensures forall k :: 0 <= k < |Chunks(data, size)| - 1 ==> |Chunks(data, size)[k]| == size
    decreases |data|
  {
    if |data| > 0 {
      var n := Min(size, |data|);
      var rest := Chunks(data[n..], size);
      ChunksSizes(data[n..], size);
      assert Chunks(data, size) == [data[..n]] + rest;
      if n < size {
        assert rest == [];
      }
    }
  }

  /** Joining the pieces gives back the data. */
  lemma {:induction false} ChunksFlatten<T>(data: seq<T>, size: nat)
    requires size > 0
    ensures Flatten(Chunks(data, size)) == data
    decreases |data|
  {
    if |data| > 0 {
      var n := Min(size, |data|);
      var rest := Chunks(data[n..], size);
      ChunksFlatten(data[n..], size);
      assert ([data[..n]] + rest)[1..] == rest;
      assert data == data[..n] + data[n..];
    }
  }

  /** Everything `splitBySize` promises for a positive size. */
  lemma ChunksShape<T>(data: seq<T>, size: nat)
    requires size > 0
    ensures |Chunks(data, size)| == (|data| + size - 1) / size
    ensures data == [] <==> Chunks(data, size) == []
    ensures forall k :: 0 <= k < |Chunks(data, size)| ==> 0 < |Chunks(data, size)[k]| <= size
    ensures forall k :: 0 <= k < |Chunks(data, size)| - 1 ==> |Chunks(data, size)[k]| == size
    ensures Flatten(Chunks(data, size)) == data
  {
    ChunksCount(data, size);
    ChunksSizes(data, size);
    ChunksFlatten(data, size);
  }

  /** `splitBySize(data, chunkSize)`: pushes `data.slice(i, i + chunkSize)` for
      `i = 0, chunkSize, 2*chunkSize, ...` while `i < data.length`. A size that is
      not positive would make the source loop forever on non-empty data. */
  method SplitBySize(data: seq<Byte>, chunkSize: nat) returns (chunks: seq<seq<Byte>>)
    requires chunkSize > 0
    ensures chunks == Chunks(data, chunkSize)
  {
    chunks := [];
    var i := 0;
    while i < |data|
      invariant chunks + Chunks(data[Min(i, |data|)..], chunkSize) == Chunks(data, chunkSize)
      decreases |data| - i
    {
      var end := Min(i + chunkSize, |data|);
      var rest := data[i..];
      assert rest[..Min(chunkSize, |rest|)] == data[i..end];
      assert rest[Min(chunkSize, |rest|)..] == data[Min(i + chunkSize, |data|)..];
      chunks := chunks + [data[i..end]];
      i := i + chunkSize;
    }
    assert data[Min(i, |data|)..] == [];
  }

  /** `splitByMTU(data)`: fragments for one BLE write each. */
  method SplitByMTU(data: seq<Byte>) returns (fragments: seq<seq<Byte>>)
    ensures fragments == Chunks(data, MTU_SIZE)
  {
    fragments := SplitBySize(data, MTU_SIZE);
  }

  // ---------------------------------------------------------------------------
  // Multi-packet streams

  /** The algorithm both stream builders share: cut the payload into 4096-byte
      slices, put `header(index, slice length)` in front of each, and cut each
      such large packet into MTU-sized fragments. */
  function Stream(data: seq<Byte>, header: (nat, nat) -> seq<Byte>): seq<seq<seq<Byte>>>
  {
    var slices := Chunks(data, CHUNK_SIZE_4K);
    seq(|slices|, i requires 0 <= i < |slices| =>
      Chunks(header(i, |slices[i]|) + slices[i], MTU_SIZE))
  }

  /** What a receiver does: join each packet's fragments, drop the first
      `headerSize` bytes, and join the slices in order. */
  function Reassemble(packets: seq<seq<seq<Byte>>>, headerSize: nat): seq<Byte>
  {
    Flatten(seq(|packets|, i requires 0 <= i < |packets| =>
      var large := Flatten(packets[i]);
      if |large| >= headerSize then large[headerSize..] else []))
  }

  /** Byte 4 of every slice header: 0 for the first slice, 2 for every later one. */
  function ContinuationFlag(index: nat): Byte
  {
    if index > 0 then 2 else 0
  }

  /** Counting, fragment bound and per-packet reassembly, for any header. */
  lemma StreamShape(data: seq<Byte>, header: (nat, nat) -> seq<Byte>)
    ensures |Stream(data, header)| == (|data| + CHUNK_SIZE_4K - 1) / CHUNK_SIZE_4K
    ensures data == [] ==> Stream(data, header) == []
    ensures forall i, j :: 0 <= i < |Stream(data, header)| && 0 <= j < |Stream(data, header)[i]| ==>
      0 < |Stream(data, header)[i][j]| <= MTU_SIZE
    ensures forall i :: 0 <= i < |Stream(data, header)| ==>
      Flatten(Stream(data, header)[i]) ==
        header(i, |Chunks(data, CHUNK_SIZE_4K)[i]|) + Chunks(data, CHUNK_SIZE_4K)[i]
  {
    var slices := Chunks(data, CHUNK_SIZE_4K);
    ChunksShape(data, CHUNK_SIZE_4K);
    forall i | 0 <= i < |slices|
      ensures forall j :: 0 <= j < |Stream(data, header)[i]| ==> 0 < |Stream(data, header)[i][j]| <= MTU_SIZE
      ensures Flatten(Stream(data, header)[i]) == header(i, |slices[i]|) + slices[i]
    {
      ChunksShape(header(i, |slices[i]|) + slices[i], MTU_SIZE);
    }
  }

  /** Stripping a fixed-size header from every reassembled packet and joining the
      slices gives back the payload. */
  lemma StreamRoundTrip(data: seq<Byte>, header: (nat, nat) -> seq<Byte>, headerSize: nat)
    requires forall i: nat, n: nat :: |header(i, n)| == headerSize
    ensures Reassemble(Stream(data, header), headerSize) == data
  {
    var packets := Stream(data, header);
    var slices := Chunks(data, CHUNK_SIZE_4K);
    StreamShape(data, header);
    ChunksShape(data, CHUNK_SIZE_4K);
    var payloads := seq(|packets|, i requires 0 <= i < |packets| =>
      var large := Flatten(packets[i]);
      if |large| >= headerSize then large[headerSize..] else []);
    assert payloads == slices by {
      forall i | 0 <= i < |packets|
        ensures payloads[i] == slices[i]
      {
        var h := header(i, |slices[i]|);
        assert Flatten(packets[i]) == h + slices[i];
        assert (h + slices[i])[headerSize..] == slices[i];
      }
    }
  }

  // ---------------------------------------------------------------------------
  // DIY image stream

  /** The 9-byte header in front of slice `index` (of `sliceLen` bytes) of an
      image of `total` bytes. */
  function ImageHeader(index: nat, sliceLen: nat, total: nat): seq<Byte>
  {
    Int16LE(sliceLen + IMAGE_HEADER_SIZE) + [0, 0, ContinuationFlag(index)] + Int32LE(total)
  }

  /** The header of every image slice, by slice index and slice length. */
  function ImageHeaders(data: seq<Byte>): (nat, nat) -> seq<Byte>
  {
    (i: nat, n: nat) => ImageHeader(i, n, |data|)
  }

  function ImageStream(data: seq<Byte>): seq<seq<seq<Byte>>>
  {
    Stream(data, ImageHeaders(data))
  }

  /** The header assignments of `createImagePackets` for slice `index`. */
  method FillImageHeader(header: array<Byte>, index: nat, packetLen: int, totalLenBytes: seq<Byte>)
    requires header.Length == IMAGE_HEADER_SIZE && |totalLenBytes| == 4
    modifies header
    ensures header[..] == Int16LE(packetLen) + [0, 0, ContinuationFlag(index)] + totalLenBytes
  {
    var lenBytes := Int16LE(packetLen);
    header[0] := lenBytes[0];
    header[1] := lenBytes[1];
    header[2] := 0;
    header[3] := 0;
    header[4] := if index > 0 then 2 else 0;
    header[5] := totalLenBytes[0];
    header[6] := totalLenBytes[1];
    header[7] := totalLenBytes[2];
    header[8] := totalLenBytes[3];
  }

  /** `createImagePackets(imageData)`: one packet per 4096-byte slice, its header
      filled in place, header and slice concatenated, then split by MTU. */
  method CreateImagePackets(imageData: seq<Byte>) returns (packets: seq<seq<seq<Byte>>>)
    ensures packets == ImageStream(imageData)
  {
    var totalLenBytes := Int32LE(|imageData|);
    var chunks := SplitBySize(imageData, CHUNK_SIZE_4K);
    packets := [];
    for i := 0 to |chunks|
      invariant |packets| == i
      invariant forall j :: 0 <= j < i ==> packets[j] == ImageStream(imageData)[j]
    {
      var chunk := chunks[i];
      var packetLen := |chunk| + IMAGE_HEADER_SIZE;
      var header := new Byte[IMAGE_HEADER_SIZE](_ => 0);
      FillImageHeader(header, i, packetLen, totalLenBytes);
      assert header[..] == ImageHeader(i, |chunk|, |imageData|);
      var largePacket := ConcatBytes([header[..], chunk]);
      assert Flatten([header[..], chunk]) == header[..] + chunk by {
        FlattenSnoc([header[..]], chunk);
        FlattenSnoc([], header[..]);
        assert [header[..], chunk] == [header[..]] + [chunk];
        assert [header[..]] == [] + [header[..]];
      }
      var fragments := SplitByMTU(largePacket);
      packets := packets + [fragments];
    }
    ChunksShape(imageData, CHUNK_SIZE_4K);
  }

  /** Packet `i` of an image stream joins back to its header and slice. */
  lemma ImagePacketAt(data: seq<Byte>, i: nat)
    requires i < |ImageStream(data)|
    ensures 0 < |Chunks(data, CHUNK_SIZE_4K)[i]| <= CHUNK_SIZE_4K
    ensures Flatten(ImageStream(data)[i]) ==
      ImageHeader(i, |Chunks(data, CHUNK_SIZE_4K)[i]|, |data|) + Chunks(data, CHUNK_SIZE_4K)[i]
  {
    StreamShape(data, ImageHeaders(data));
    ChunksShape(data, CHUNK_SIZE_4K);
  }

  /** The fields of an image header followed by its slice. */
  lemma ImageHeaderFields(index: nat, slice: seq<Byte>, total: nat)
    requires 0 < |slice| <= CHUNK_SIZE_4K
    ensures var large := ImageHeader(index, |slice|, total) + slice;
      && |large| > IMAGE_HEADER_SIZE
      && LittleEndian(large[0..2]) == |large|
      && large[2] == 0 && large[3] == 0
      && large[4] == (if index == 0 then 0 else 2)
      && large[5..9] == Int32LE(total)
      && LittleEndian(large[5..9]) == total % 0x1_0000_0000
      && large[9..] == slice
  {
    var large := ImageHeader(index, |slice|, total) + slice;
    assert large[0..2] == Int16LE(|slice| + IMAGE_HEADER_SIZE);
    assert large[5..9] == Int32LE(total);
  }

  /** Field layout of every packet of an image stream, read off its reassembled
      large packet: the length field matches the packet, the total length is
      the same in every packet, and only the continuation flag tells the first
      packet from the others. */
  lemma ImagePacketLayout(data: seq<Byte>)
    ensures forall i :: 0 <= i < |ImageStream(data)| ==>
      var large := Flatten(ImageStream(data)[i]);
      && |large| > IMAGE_HEADER_SIZE
      && LittleEndian(large[0..2]) == |large|
      && large[2] == 0 && large[3] == 0
      && large[4] == (if i == 0 then 0 else 2)
      && large[5..9] == Int32LE(|data|)
      && LittleEndian(large[5..9]) == |data| % 0x1_0000_0000
      && large[9..] == Chunks(data, CHUNK_SIZE_4K)[i]
  {
    forall i | 0 <= i < |ImageStream(data)|
      ensures var large := Flatten(ImageStream(data)[i]);
        && |large| > IMAGE_HEADER_SIZE
        && LittleEndian(large[0..2]) == |large|
        && large[2] == 0 && large[3] == 0
        && large[4] == (if i == 0 then 0 else 2)
        && large[5..9] == Int32LE(|data|)
        && LittleEndian(large[5..9]) == |data| % 0x1_0000_0000
        && large[9..] == Chunks(data, CHUNK_SIZE_4K)[i]
    {
      ImagePacketAt(data, i);
      ImageHeaderFields(i, Chunks(data, CHUNK_SIZE_4K)[i], |data|);
    }
  }

  /** The image payload survives the trip through headers and fragments. */
  lemma ImageRoundTrip(data: seq<Byte>)
    ensures Reassemble(ImageStream(data), IMAGE_HEADER_SIZE) == data
  {
    StreamRoundTrip(data, ImageHeaders(data), IMAGE_HEADER_SIZE);
  }

  // ---------------------------------------------------------------------------
  // GIF stream

  /** The 16-byte header in front of slice `index` of a GIF of `total` bytes whose
      CRC-32 is `crc`. */
  function GifHeader(index: nat, sliceLen: nat, total: nat, crc: nat, gifType: int): seq<Byte>
  {
    Int16LE(sliceLen + GIF_HEADER_SIZE) + [1, 0, ContinuationFlag(index)]
      + Int32LE(total) + Int32LE(crc) + [0, 0, gifType % 256]
  }

  /** The header of every GIF slice, by slice index and slice length. */
  function GifHeaders(data: seq<Byte>, gifType: int): (nat, nat) -> seq<Byte>
  {
    (i: nat, n: nat) => GifHeader(i, n, |data|, Crc32(data), gifType)
  }

  function GifStream(data: seq<Byte>, gifType: int): seq<seq<seq<Byte>>>
  {
    Stream(data, GifHeaders(data, gifType))
  }

  /** The header assignments of `createGifPackets` for slice `index`. */
  method FillGifHeader(header: array<Byte>, index: nat, packetLen: int,
                       totalLenBytes: seq<Byte>, crcBytes: seq<Byte>, gifType: int)
    requires header.Length == GIF_HEADER_SIZE && |totalLenBytes| == 4 && |crcBytes| == 4
    modifies header
    ensures header[..] == Int16LE(packetLen) + [1, 0, ContinuationFlag(index)]
                          + totalLenBytes + crcBytes + [0, 0, gifType % 256]
  {
    var lenBytes := Int16LE(packetLen);
    header[0] := lenBytes[0];
    header[1] := lenBytes[1];
    header[2] := 1;
    header[3] := 0;
    header[4] := if index > 0 then 2 else 0;
    header[5] := totalLenBytes[0];
    header[6] := totalLenBytes[1];
    header[7] := totalLenBytes[2];
    header[8] := totalLenBytes[3];
    header[9] := crcBytes[0];
    header[10] := crcBytes[1];
    header[11] := crcBytes[2];
    header[12] := crcBytes[3];
    header[13] := 0;
    header[14] := 0;
    header[15] := gifType % 256;
  }

  /** `createGifPackets(gifData, gifType, _timeSign)`: as for images, with a
      16-byte header that repeats the CRC-32 of the whole payload. The time
      signature parameter is accepted and never used. */
  method CreateGifPackets(gifData: seq<Byte>, gifType: int, timeSign: int)
    returns (packets: seq<seq<seq<Byte>>>)
    ensures packets == GifStream(gifData, gifType)
  {
    var totalLenBytes := Int32LE(|gifData|);
    var crcValue := Crc32(gifData);
    var crcBytes := Int32LE(crcValue);
    var chunks := SplitBySize(gifData, CHUNK_SIZE_4K);
    packets := [];
    for i := 0 to |chunks|
      invariant |packets| == i
      invariant forall j :: 0 <= j < i ==> packets[j] == GifStream(gifData, gifType)[j]
    {
      var chunk := chunks[i];
      var packetLen := |chunk| + GIF_HEADER_SIZE;
      var header := new Byte[GIF_HEADER_SIZE](_ => 0);
      FillGifHeader(header, i, packetLen, totalLenBytes, crcBytes, gifType);
      assert header[..] == GifHeader(i, |chunk|, |gifData|, crcValue, gifType);
      var largePacket := ConcatBytes([header[..], chunk]);
      assert Flatten([header[..], chunk]) == header[..] + chunk by {
        FlattenSnoc([header[..]], chunk);
        FlattenSnoc([], header[..]);
        assert [header[..], chunk] == [header[..]] + [chunk];
        assert [header[..]] == [] + [header[..]];
      }
      var fragments := SplitByMTU(largePacket);
      packets := packets + [fragments];
    }
    ChunksShape(gifData, CHUNK_SIZE_4K);
  }

  /** Packet `i` of a GIF stream joins back to its header and slice. */
  lemma GifPacketAt(data: seq<Byte>, gifType: int, i: nat)
    requires i < |GifStream(data, gifType)|
    ensures 0 < |Chunks(data, CHUNK_SIZE_4K)[i]| <= CHUNK_SIZE_4K
    ensures Flatten(GifStream(data, gifType)[i]) ==
      GifHeader(i, |Chunks(data, CHUNK_SIZE_4K)[i]|, |data|, Crc32(data), gifType)
        + Chunks(data, CHUNK_SIZE_4K)[i]
  {
    StreamShape(data, GifHeaders(data, gifType));
    ChunksShape(data, CHUNK_SIZE_4K);
  }

  /** The five parts of a GIF header, read back by offset. */
  lemma GifHeaderParts(index: nat, sliceLen: nat, total: nat, crc: nat, gifType: int)
    ensures var h := GifHeader(index, sliceLen, total, crc, gifType);
      && |h| == GIF_HEADER_SIZE
      && h[0..2] == Int16LE(sliceLen + GIF_HEADER_SIZE)
      && h[2..5] == [1, 0, ContinuationFlag(index)]
      && h[5..9] == Int32LE(total)
      && h[9..13] == Int32LE(crc)
      && h[13..16] == [0, 0, gifType % 256]
  {
    var a, b := Int16LE(sliceLen + GIF_HEADER_SIZE), [1, 0, ContinuationFlag(index)];
    var c, d, e := Int32LE(total), Int32LE(crc), [0, 0, gifType % 256];
    var h := a + b + c + d + e;
    assert h == GifHeader(index, sliceLen, total, crc, gifType);
    assert h[0..2] == a && h[2..5] == b && h[5..9] == c && h[9..13] == d && h[13..16] == e;
  }

  /** The fields of a GIF header followed by its slice. */
  lemma GifHeaderFields(index: nat, slice: seq<Byte>, total: nat, crc: nat, gifType: int)
    requires 0 < |slice| <= CHUNK_SIZE_4K && crc < 0x1_0000_0000
    ensures var large := GifHeader(index, |slice|, total, crc, gifType) + slice;
      && |large| > GIF_HEADER_SIZE
      && LittleEndian(large[0..2]) == |large|
      && large[2] == 1 && large[3] == 0
      && large[4] == (if index == 0 then 0 else 2)
      && large[5..9] == Int32LE(total)
      && LittleEndian(large[5..9]) == total % 0x1_0000_0000
      && large[9..13] == Int32LE(crc)
      && LittleEndian(large[9..13]) == crc
      && large[13] == 0 && large[14] == 0 && large[15] == gifType % 256
      && large[16..] == slice
  {
    var h := GifHeader(index, |slice|, total, crc, gifType);
    GifHeaderParts(index, |slice|, total, crc, gifType);
    var large := h + slice;
    SliceOfAppend(h, slice, 0, 2);
    SliceOfAppend(h, slice, 2, 5);
    SliceOfAppend(h, slice, 5, 9);
    SliceOfAppend(h, slice, 9, 13);
    SliceOfAppend(h, slice, 13, 16);
    assert large[16..] == slice;
  }

  /** Field layout of every packet of a GIF stream: the total length and the
      checksum of the whole payload sit in every header; only the continuation
      flag and the packet length vary. */
  lemma GifPacketLayout(data: seq<Byte>, gifType: int)
    ensures forall i :: 0 <= i < |GifStream(data, gifType)| ==>
      var large := Flatten(GifStream(data, gifType)[i]);
      && |large| > GIF_HEADER_SIZE
      && LittleEndian(large[0..2]) == |large|
      && large[2] == 1 && large[3] == 0
      && large[4] == (if i == 0 then 0 else 2)
      && LittleEndian(large[5..9]) == |data| % 0x1_0000_0000
      && large[9..13] == Int32LE(Crc32(data))
      && LittleEndian(large[9..13]) == Crc32(data)
      && large[13] == 0 && large[14] == 0 && large[15] == gifType % 256
      && large[16..] == Chunks(data, CHUNK_SIZE_4K)[i]
  {
    forall i | 0 <= i < |GifStream(data, gifType)|
      ensures var large := Flatten(GifStream(data, gifType)[i]);
        && |large| > GIF_HEADER_SIZE
        && LittleEndian(large[0..2]) == |large|
        && large[2] == 1 && large[3] == 0
        && large[4] == (if i == 0 then 0 else 2)
        && LittleEndian(large[5..9]) == |data| % 0x1_0000_0000
        && large[9..13] == Int32LE(Crc32(data))
        && LittleEndian(large[9..13]) == Crc32(data)
        && large[13] == 0 && large[14] == 0 && large[15] == gifType % 256
        && large[16..] == Chunks(data, CHUNK_SIZE_4K)[i]
    {
      GifPacketAt(data, gifType, i);
      GifHeaderFields(i, Chunks(data, CHUNK_SIZE_4K)[i], |data|, Crc32(data), gifType);
    }
  }

  /** The GIF payload survives the trip through headers and fragments. */
  lemma GifRoundTrip(data: seq<Byte>, gifType: int)
    ensures Reassemble(GifStream(data, gifType), GIF_HEADER_SIZE) == data
  {
    StreamRoundTrip(data, GifHeaders(data, gifType),
                    GIF_HEADER_SIZE);
  }
}
