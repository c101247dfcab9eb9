/** web/src/protocol/commands/image.ts: DIY drawing mode and image upload. */
module ImageCommands {
  import opened Types
  import opened Chunking

  /** `enableDIYMode()`. */
  function EnableDIYMode(): (r: seq<Byte>)
    ensures Framed(r) && |r| == 5 && r[2..4] == [4, 1] && r[4] == 1
  {
    [5, 0, 4, 1, 1]
  }

  /** `disableDIYMode()`. */
  function DisableDIYMode(): (r: seq<Byte>)
    ensures Framed(r) && |r| == 5 && r[2..4] == [4, 1] && r[4] == 0
  {
    [5, 0, 4, 1, 0]
  }

  /** Enable and disable differ only in their last byte. */
  lemma DIYModeDiffersInStateOnly()
    ensures EnableDIYMode()[..4] == DisableDIYMode()[..4]
    ensures EnableDIYMode()[4] != DisableDIYMode()[4]
  {
  }

  /** `imagePackets(rgbData)`: the DIY image stream of the raw RGB bytes. */
  method ImagePackets(rgbData: seq<Byte>) returns (packets: seq<seq<seq<Byte>>>)
    ensures packets == ImageStream(rgbData)
    ensures |packets| == (|rgbData| + CHUNK_SIZE_4K - 1) / CHUNK_SIZE_4K
    ensures forall i, j :: 0 <= i < |packets| && 0 <= j < |packets[i]| ==> 0 < |packets[i][j]| <= MTU_SIZE
    ensures Reassemble(packets, IMAGE_HEADER_SIZE) == rgbData
  {
    packets := CreateImagePackets(rgbData);
    StreamShape(rgbData, ImageHeaders(rgbData));
    ImageRoundTrip(rgbData);
  }
}
