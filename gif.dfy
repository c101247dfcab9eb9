/** web/src/protocol/commands/gif.ts: animated GIF upload. */
module GifCommands {
  import opened Types
  import opened Checksum
  import opened Chunking

  /** The type code `gifPackets` always sends. */
  const GIF_TYPE: int := 12

  /** The packets of a GIF upload: as many as 4096-byte slices, each cut
      into fragments of at most `MTU_SIZE` bytes. */
  lemma GifStreamShape(gifData: seq<Byte>)
    ensures var packets := GifStream(gifData, GIF_TYPE);
      && |packets| == (|gifData| + CHUNK_SIZE_4K - 1) / CHUNK_SIZE_4K
      && forall i, j :: 0 <= i < |packets| && 0 <= j < |packets[i]| ==> 0 < |packets[i][j]| <= MTU_SIZE
  {
    StreamShape(gifData, GifHeaders(gifData, GIF_TYPE));
  }

  /** Every packet of a GIF upload starts with a header of type 12 that
      carries the CRC-32 of the whole GIF. */
  lemma GifStreamHeaders(gifData: seq<Byte>)
    ensures var packets := GifStream(gifData, GIF_TYPE);
      forall i :: 0 <= i < |packets| ==>
        var large := Flatten(packets[i]);
        |large| > GIF_HEADER_SIZE && large[2] == 1 && large[15] == 12
        && LittleEndian(large[9..13]) == Crc32(gifData)
  {
    GifPacketLayout(gifData, GIF_TYPE);
  }

  /** `gifPackets(gifData)`: the GIF stream with type 12 and time signature 1. */
  method GifPackets(gifData: seq<Byte>) returns (packets: seq<seq<seq<Byte>>>)
    ensures packets == GifStream(gifData, GIF_TYPE)
    ensures |packets| == (|gifData| + CHUNK_SIZE_4K - 1) / CHUNK_SIZE_4K
    ensures forall i, j :: 0 <= i < |packets| && 0 <= j < |packets[i]| ==> 0 < |packets[i][j]| <= MTU_SIZE
    ensures forall i :: 0 <= i < |packets| ==>
      var large := Flatten(packets[i]);
      |large| > GIF_HEADER_SIZE && large[2] == 1 && large[15] == 12
      && LittleEndian(large[9..13]) == Crc32(gifData)
    ensures Reassemble(packets, GIF_HEADER_SIZE) == gifData
  {
    packets := CreateGifPackets(gifData, GIF_TYPE, 1);
    GifStreamShape(gifData);
    GifStreamHeaders(gifData);
    GifRoundTrip(gifData, GIF_TYPE);
  }
}
