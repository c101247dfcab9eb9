/** web/src/protocol/commands/text.ts: scrolling text. Every character is
    drawn on a 16x32 canvas and packed into a 1-bit bitmap; the canvas itself
    is not modelled, its red channel is a parameter. */
module TextCommand {
  import opened Types
  import opened Checksum
  import opened Chunking

  const CHAR_WIDTH: nat := 16
  const CHAR_HEIGHT: nat := 32
  /** Bytes of one packed glyph: two bytes per row, 32 rows. */
  const GLYPH_SIZE: nat := 64
  /** Marker in front of every glyph. */
  const SEPARATOR: seq<Byte> := [0x05, 0xff, 0xff, 0xff]

  /** The red channel of pixel (x, y) after the canvas has drawn a character
      white on black, centred, in a 20px monospace font. */
  type Raster = (char, nat, nat) -> Byte

  /** A pixel counts as lit when its red channel exceeds 128. */
  predicate Lit(raster: Raster, c: char, x: nat, y: nat)
  {
    raster(c, x, y) > 128
  }

  /** `1 << n` for a bit position `n` of a byte. */
  function Mask(n: nat): bv8
    requires n < 8
  {
    match n
    case 0 => 0x01 case 1 => 0x02 case 2 => 0x04 case 3 => 0x08
    case 4 => 0x10 case 5 => 0x20 case 6 => 0x40 case _ => 0x80
  }

  lemma MaskIsShift(n: nat)
    requires n < 8
    ensures Mask(n) == (1 as bv8) << n
  {
  }

  /** Byte `i` of the glyph of `c` with only its low `n` bits filled in:
      byte `i` covers row `i / 2`, columns `8 * (i % 2)` to `8 * (i % 2) + 7`,
      and column `8 * (i % 2) + k` sets bit `k`. */
  function GlyphByte(raster: Raster, c: char, i: nat, n: nat): bv8
    requires n <= 8
  {
    if n == 0 then 0
    else SetBit(GlyphByte(raster, c, i, n - 1), n - 1, Lit(raster, c, 8 * (i % 2) + (n - 1), i / 2))
  }

  /** `b | (1 << bit)` when `on`, else `b`. */
  function SetBit(b: bv8, bit: nat, on: bool): bv8
    requires bit < 8
  {
    b | (if on then Mask(bit) else 0)
  }

  /** The packed bitmap of `c`. */
  function Glyph(raster: Raster, c: char): seq<bv8>
  {
    seq(GLYPH_SIZE, i requires 0 <= i < GLYPH_SIZE => GlyphByte(raster, c, i, 8))
  }

  /** The bitmap as the bytes a Uint8Array holds. */
  function GlyphBytes(raster: Raster, c: char): seq<Byte>
  {
    seq(GLYPH_SIZE, i requires 0 <= i < GLYPH_SIZE => Glyph(raster, c)[i] as int)
  }

  /** Setting bit `n` (or not) leaves the other bits as they were. */
  lemma OrBit(a: bv8, n: nat, k: nat, on: bool)
    requires n < 8 && k < 8
    ensures (SetBit(a, n, on) >> k) & 1 == 1 <==>
      ((a >> k) & 1 == 1 || (k == n && on))
  {
  }

  /** Bit `k` of a partly filled glyph byte is set iff `k < n` and its pixel is lit. */
  lemma {:induction false} GlyphByteBit(raster: Raster, c: char, i: nat, n: nat, k: nat)
    requires n <= 8 && k < 8
    ensures (GlyphByte(raster, c, i, n) >> k) & 1 == 1 <==>
      (k < n && Lit(raster, c, 8 * (i % 2) + k, i / 2))
  {
    if n > 0 {
      GlyphByteBit(raster, c, i, n - 1, k);
      OrBit(GlyphByte(raster, c, i, n - 1), n - 1, k, Lit(raster, c, 8 * (i % 2) + (n - 1), i / 2));
    }
  }

  /** The bitmap is LSB-first: bit `x % 8` of byte `2y + x / 8` is set iff
      pixel (x, y) is lit, for every pixel of the 16x32 canvas. */
  lemma GlyphBits(raster: Raster, c: char, x: nat, y: nat)
    requires x < CHAR_WIDTH && y < CHAR_HEIGHT
    ensures |Glyph(raster, c)| == GLYPH_SIZE
    ensures (Glyph(raster, c)[2 * y + x / 8] >> (x % 8)) & 1 == 1 <==> Lit(raster, c, x, y)
  {
    var i := 2 * y + x / 8;
    GlyphByteBit(raster, c, i, 8, x % 8);
    assert 8 * (i % 2) + x % 8 == x && i / 2 == y;
  }

  /** One pixel step of `renderCharToBitmap`: `bitmap[k] |= 1 << bit` when lit. */
  method SetPixel(bitmap: array<bv8>, k: nat, bit: nat, lit: bool)
    requires k < bitmap.Length && bit < 8
    modifies bitmap
    ensures bitmap[k] == SetBit(old(bitmap[k]), bit, lit)
    ensures forall j :: 0 <= j < bitmap.Length && j != k ==> bitmap[j] == old(bitmap[j])
  {
    MaskIsShift(bit);
    if lit {
      bitmap[k] := bitmap[k] | ((1 as bv8) << bit);
    }
  }

  /** Pixel (x, y) of the left half is bit `x` of byte `2y`: setting it when
      lit takes that byte from `x` filled bits to `x + 1`. */
  lemma RowStepLeft(raster: Raster, c: char, x: nat, y: nat)
    requires x < 8
    ensures GlyphByte(raster, c, 2 * y, x + 1) == SetBit(GlyphByte(raster, c, 2 * y, x), x, Lit(raster, c, x, y))
  {
    Halves(y);
  }

  /** Pixel (8 + b, y) of the right half is bit `b` of byte `2y + 1`. */
  lemma RowStepRight(raster: Raster, c: char, b: nat, y: nat)
    requires b < 8
    ensures GlyphByte(raster, c, 2 * y + 1, b + 1) ==
              SetBit(GlyphByte(raster, c, 2 * y + 1, b), b, Lit(raster, c, 8 + b, y))
  {
    Halves(y);
  }

  /** Bytes `2y` and `2y + 1` hold the left and right halves of row `y`. */
  lemma Halves(y: nat)
    ensures (2 * y) / 2 == y && (2 * y) % 2 == 0
    ensures (2 * y + 1) / 2 == y && (2 * y + 1) % 2 == 1
  {
  }

  /** Where `renderCharToBitmap` puts pixel (x, y): byte `y * 2 + x / 8`,
      bit `x % 8`. */
  lemma PixelPlace(x: nat, y: nat)
    requires x < CHAR_WIDTH
    ensures x < 8 ==> y * 2 + x / 8 == 2 * y && x % 8 == x
    ensures x >= 8 ==> y * 2 + x / 8 == 2 * y + 1 && x % 8 == x - 8
  {
  }

  /** The body of the inner loop of `renderCharToBitmap`: ORs pixel (x, y)
      into bit `x % 8` of byte `y * 2 + x / 8` when it is lit, which takes
      the row's two bytes from `x` filled pixels to `x + 1`. */
  method PlotPixel(bitmap: array<bv8>, c: char, x: nat, y: nat, raster: Raster)
    requires x < CHAR_WIDTH && y < CHAR_HEIGHT && bitmap.Length == GLYPH_SIZE
    requires bitmap[2 * y] == GlyphByte(raster, c, 2 * y, Min(x, 8))
    requires bitmap[2 * y + 1] == GlyphByte(raster, c, 2 * y + 1, Max(x, 8) - 8)
    modifies bitmap
    ensures bitmap[2 * y] == GlyphByte(raster, c, 2 * y, Min(x + 1, 8))
    ensures bitmap[2 * y + 1] == GlyphByte(raster, c, 2 * y + 1, Max(x + 1, 8) - 8)
    ensures forall j :: 0 <= j < GLYPH_SIZE && j != 2 * y && j != 2 * y + 1 ==> bitmap[j] == old(bitmap[j])
  {
    var k := y * 2 + x / 8;
    PixelPlace(x, y);
    if x < 8 {
      RowStepLeft(raster, c, x, y);
      assert Min(x + 1, 8) == x + 1 && Max(x + 1, 8) == Max(x, 8);
    } else {
      RowStepRight(raster, c, x - 8, y);
      assert Min(x + 1, 8) == Min(x, 8) && Max(x + 1, 8) - 8 == x - 7 && Max(x, 8) - 8 == x - 8;
    }
    SetPixel(bitmap, k, x % 8, Lit(raster, c, x, y));
  }

  /** The inner loop of `renderCharToBitmap` for row `y`: fills the row's two
      bytes from their zeroed state and leaves the other bytes alone. */
  method RenderRow(bitmap: array<bv8>, c: char, y: nat, raster: Raster)
    requires y < CHAR_HEIGHT && bitmap.Length == GLYPH_SIZE
    requires bitmap[2 * y] == 0 && bitmap[2 * y + 1] == 0
    modifies bitmap
    ensures bitmap[2 * y] == GlyphByte(raster, c, 2 * y, 8)
    ensures bitmap[2 * y + 1] == GlyphByte(raster, c, 2 * y + 1, 8)
    ensures forall j :: 0 <= j < GLYPH_SIZE && j != 2 * y && j != 2 * y + 1 ==> bitmap[j] == old(bitmap[j])
  {
    for x := 0 to CHAR_WIDTH
      invariant bitmap[2 * y] == GlyphByte(raster, c, 2 * y, Min(x, 8))
      invariant bitmap[2 * y + 1] == GlyphByte(raster, c, 2 * y + 1, Max(x, 8) - 8)
      invariant forall j :: 0 <= j < GLYPH_SIZE && j != 2 * y && j != 2 * y + 1 ==> bitmap[j] == old(bitmap[j])
    {
      PlotPixel(bitmap, c, x, y, raster);
    }
  }

  /** `renderCharToBitmap(char)`: visits the canvas row by row and sets the bit
      of every lit pixel in a zeroed 64-byte buffer. */
  method RenderCharToBitmap(c: char, raster: Raster) returns (bitmap: seq<Byte>)
    ensures bitmap == GlyphBytes(raster, c)
  {
    var buf := new bv8[GLYPH_SIZE](_ => 0);
    for y := 0 to CHAR_HEIGHT
      invariant forall j :: 0 <= j < 2 * y ==> buf[j] == GlyphByte(raster, c, j, 8)
      invariant forall j :: 2 * y <= j < GLYPH_SIZE ==> buf[j] == 0
    {
      RenderRow(buf, c, y, raster);
    }
    bitmap := seq(GLYPH_SIZE, i requires 0 <= i < GLYPH_SIZE reads buf => buf[i] as int);
    assert buf[..] == Glyph(raster, c);
  }

  // ---------------------------------------------------------------------------
  // The text command

  /** Bytes each character occupies: separator and glyph. */
  const CHAR_BLOCK: nat := 68
  /** Bytes of text metadata in front of the glyphs. */
  const TEXT_METADATA_SIZE: nat := 14
  /** Bytes of the header in front of the metadata. */
  const TEXT_HEADER_SIZE: nat := 16

  /** Separator and glyph of every character of `text`, in order. */
  function TextBitmaps(text: string, raster: Raster): (r: seq<Byte>)
    ensures |r| == CHAR_BLOCK * |text|
  {
    if |text| == 0 then []
    else TextBitmaps(text[..|text| - 1], raster) + SEPARATOR + GlyphBytes(raster, text[|text| - 1])
  }

  /** The 14 metadata bytes: character count, two fixed bytes, mode, speed,
      colour mode, text colour, background mode, background colour. */
  function TextMetadata(numChars: nat, textMode: int, speed: int, textColorMode: int,
                        textColor: Rgb, textBgMode: int, textBgColor: Rgb): seq<Byte>
  {
    Int16LE(numChars)
      + [0, 1, textMode % 256, speed % 256, textColorMode % 256,
         textColor.r % 256, textColor.g % 256, textColor.b % 256,
         textBgMode % 256, textBgColor.r % 256, textBgColor.g % 256, textBgColor.b % 256]
  }

  /** The 16-byte header in front of `packet`: total length, the text command
      code, the packet length, its CRC-32 and a fixed footer. */
  function TextHeader(packet: seq<Byte>): (h: seq<Byte>)
    ensures |h| == TEXT_HEADER_SIZE
  {
    Int16LE(|packet| + TEXT_HEADER_SIZE) + [3, 0, 0]
      + Int32LE(|packet|) + Int32LE(Crc32(packet)) + [0, 0, 12]
  }

  /** The complete text command. */
  function TextPacket(text: string, textMode: int, speed: int, textColorMode: int, textColor: Rgb,
                      textBgMode: int, textBgColor: Rgb, raster: Raster): seq<Byte>
  {
    var packet := TextMetadata(|text|, textMode, speed, textColorMode, textColor, textBgMode, textBgColor)
                   + TextBitmaps(text, raster);
    TextHeader(packet) + packet
  }

  lemma TextBitmapsSnoc(text: string, raster: Raster, i: nat)
    requires i < |text|
    ensures TextBitmaps(text[..i + 1], raster) ==
      TextBitmaps(text[..i], raster) + SEPARATOR + GlyphBytes(raster, text[i])
  {
    assert text[..i + 1][..i] == text[..i];
  }

  /** Character `i` occupies bytes `68i` to `68i + 67` of the glyph block:
      first the separator, then its glyph. */
  lemma {:induction false} TextBitmapsAt(text: string, raster: Raster, i: nat)
    requires i < |text|
    ensures |TextBitmaps(text, raster)| == CHAR_BLOCK * |text|
    ensures TextBitmaps(text, raster)[CHAR_BLOCK * i .. CHAR_BLOCK * i + 4] == SEPARATOR
    ensures TextBitmaps(text, raster)[CHAR_BLOCK * i + 4 .. CHAR_BLOCK * i + CHAR_BLOCK]
         == GlyphBytes(raster, text[i])
    decreases |text|
  {
    var m := |text| - 1;
    var front := text[..m];
    var block := SEPARATOR + GlyphBytes(raster, text[m]);
    if m > 0 {
      TextBitmapsAt(front, raster, 0);
    }
    assert TextBitmaps(text, raster) == TextBitmaps(front, raster) + block;
    if i < m {
      TextBitmapsAt(front, raster, i);
      SliceOfAppend(TextBitmaps(front, raster), block, CHAR_BLOCK * i, CHAR_BLOCK * i + 4);
      SliceOfAppend(TextBitmaps(front, raster), block, CHAR_BLOCK * i + 4, CHAR_BLOCK * i + CHAR_BLOCK);
    } else {
      assert block[..4] == SEPARATOR && block[4..] == GlyphBytes(raster, text[m]);
    }
  }

  lemma Spread2(a: seq<Byte>, rest: seq<Byte>)
    requires |a| == 2
    ensures [a[0], a[1]] + rest == a + rest
  {
    assert [a[0], a[1]] == a;
  }

  /** The header written out byte by byte is the concatenation of its fields. */
  lemma HeaderSpread(len: seq<Byte>, packetLen: seq<Byte>, crc: seq<Byte>)
    requires |len| == 2 && |packetLen| == 4 && |crc| == 4
    ensures [len[0], len[1], 3, 0, 0, packetLen[0], packetLen[1], packetLen[2], packetLen[3],
             crc[0], crc[1], crc[2], crc[3], 0, 0, 12]
         == len + [3, 0, 0] + packetLen + crc + [0, 0, 12]
  {
    assert [len[0], len[1]] == len;
    assert [packetLen[0], packetLen[1], packetLen[2], packetLen[3]] == packetLen;
    assert [crc[0], crc[1], crc[2], crc[3]] == crc;
  }

  /** The first loop of `buildTextCommand`: a separator and a rendered glyph
      per character, concatenated. */
  method RenderText(text: string, raster: Raster) returns (textBitmaps: seq<Byte>)
    ensures textBitmaps == TextBitmaps(text, raster)
  {
    var parts: seq<seq<Byte>> := [];
    for i := 0 to |text|
      invariant Flatten(parts) == TextBitmaps(text[..i], raster)
    {
      var bitmap := RenderCharToBitmap(text[i], raster);
      FlattenSnoc(parts, SEPARATOR);
      FlattenSnoc(parts + [SEPARATOR], bitmap);
      TextBitmapsSnoc(text, raster, i);
      parts := parts + [SEPARATOR] + [bitmap];
    }
    assert text[..|text|] == text;
    textBitmaps := ConcatBytes(parts);
  }

  /** The second half of `buildTextCommand`: the 16-byte header, written
      byte by byte, in front of the packet. */
  method AddHeader(packet: seq<Byte>) returns (r: seq<Byte>)
    ensures r == TextHeader(packet) + packet
  {
    var totalLen := |packet| + 16;
    var totalLenBytes := Int16LE(totalLen);
    var packetLenBytes := Int32LE(|packet|);
    var crcBytes := Int32LE(Crc32(packet));
    var header: seq<Byte> := [
      totalLenBytes[0], totalLenBytes[1],
      3, 0, 0,
      packetLenBytes[0], packetLenBytes[1], packetLenBytes[2], packetLenBytes[3],
      crcBytes[0], crcBytes[1], crcBytes[2], crcBytes[3],
      0, 0, 12];
    HeaderSpread(totalLenBytes, packetLenBytes, crcBytes);
    r := ConcatBytes([header, packet]);
    assert r == header + packet by {
      assert Flatten([packet]) == packet + Flatten([packet][1..]);
    }
  }

  /** `buildTextCommand(...)`: renders every character behind a separator,
      prepends the metadata, then the header with the length and CRC-32 of
      metadata and glyphs together. Each character of `text` is one UTF-16
      code unit, so `text.length` counts the characters rendered. */
  method BuildTextCommand(text: string, textMode: int, speed: int, textColorMode: int, textColor: Rgb,
                          textBgMode: int, textBgColor: Rgb, raster: Raster) returns (r: seq<Byte>)
    ensures r == TextPacket(text, textMode, speed, textColorMode, textColor, textBgMode, textBgColor, raster)
  {
    var textBitmaps := RenderText(text, raster);
    var numChars := |text|;
    var numCharsBytes := Int16LE(numChars);
    var textMetadata: seq<Byte> := [
      numCharsBytes[0], numCharsBytes[1],
      0, 1,
      textMode % 256,
      speed % 256,
      textColorMode % 256,
      textColor.r % 256, textColor.g % 256, textColor.b % 256,
      textBgMode % 256,
      textBgColor.r % 256, textBgColor.g % 256, textBgColor.b % 256];
    Spread2(numCharsBytes, textMetadata[2..]);
    assert textMetadata == TextMetadata(numChars, textMode, speed, textColorMode, textColor, textBgMode, textBgColor);
    var packet := ConcatBytes([textMetadata, textBitmaps]);
    assert packet == textMetadata + textBitmaps by {
      assert Flatten([textBitmaps]) == textBitmaps + Flatten([textBitmaps][1..]);
    }
    r := AddHeader(packet);
  }

  /** The fields of a text header followed by its packet. */
  lemma TextHeaderFields(packet: seq<Byte>)
    ensures var r := TextHeader(packet) + packet;
      && |r| == TEXT_HEADER_SIZE + |packet|
      && LittleEndian(r[0..2]) == |r| % 0x1_0000
      && r[2..5] == [3, 0, 0]
      && LittleEndian(r[5..9]) == |packet| % 0x1_0000_0000
      && LittleEndian(r[9..13]) == Crc32(r[16..])
      && r[13..16] == [0, 0, 12]
      && r[16..] == packet
  {
    var a, b := Int16LE(|packet| + TEXT_HEADER_SIZE), [3, 0, 0];
    var c, d, e := Int32LE(|packet|), Int32LE(Crc32(packet)), [0, 0, 12];
    var h := a + b + c + d + e;
    assert h == TextHeader(packet);
    assert h[0..2] == a && h[2..5] == b && h[5..9] == c && h[9..13] == d && h[13..16] == e;
    SliceOfAppend(h, packet, 0, 2);
    SliceOfAppend(h, packet, 2, 5);
    SliceOfAppend(h, packet, 5, 9);
    SliceOfAppend(h, packet, 9, 13);
    SliceOfAppend(h, packet, 13, 16);
    var r := h + packet;
    assert r[16..] == packet;
    assert r[9..13] == d;
    Int32LEExact(Crc32(packet));
  }

  /** Character `i` of the text sits at bytes `30 + 68i` to `97 + 68i`. */
  lemma TextGlyphAt(text: string, textMode: int, speed: int, textColorMode: int, textColor: Rgb,
                    textBgMode: int, textBgColor: Rgb, raster: Raster, i: nat)
    requires i < |text|
    ensures var r := TextPacket(text, textMode, speed, textColorMode, textColor, textBgMode, textBgColor, raster);
      && r[30 + CHAR_BLOCK * i .. 34 + CHAR_BLOCK * i] == SEPARATOR
      && r[34 + CHAR_BLOCK * i .. 30 + CHAR_BLOCK * (i + 1)] == GlyphBytes(raster, text[i])
  {
    var meta := TextMetadata(|text|, textMode, speed, textColorMode, textColor, textBgMode, textBgColor);
    TextMetadataFields(|text|, textMode, speed, textColorMode, textColor, textBgMode, textBgColor);
    var glyphs := TextBitmaps(text, raster);
    var front := TextHeader(meta + glyphs) + meta;
    assert TextPacket(text, textMode, speed, textColorMode, textColor, textBgMode, textBgColor, raster)
        == front + glyphs;
    TextBitmapsAt(text, raster, i);
    SliceAfterAppend(front, glyphs, 30 + CHAR_BLOCK * i, 34 + CHAR_BLOCK * i);
    SliceAfterAppend(front, glyphs, 34 + CHAR_BLOCK * i, 30 + CHAR_BLOCK * (i + 1));
  }

  /** The metadata bytes read back by offset. */
  lemma TextMetadataFields(numChars: nat, textMode: int, speed: int, textColorMode: int,
                           textColor: Rgb, textBgMode: int, textBgColor: Rgb)
    ensures var m := TextMetadata(numChars, textMode, speed, textColorMode, textColor, textBgMode, textBgColor);
      && |m| == TEXT_METADATA_SIZE
      && LittleEndian(m[0..2]) == numChars % 0x1_0000
      && m[2..14] == [0, 1, textMode % 256, speed % 256, textColorMode % 256,
                      textColor.r % 256, textColor.g % 256, textColor.b % 256,
                      textBgMode % 256, textBgColor.r % 256, textBgColor.g % 256, textBgColor.b % 256]
  {
    var m := TextMetadata(numChars, textMode, speed, textColorMode, textColor, textBgMode, textBgColor);
    assert m[0..2] == Int16LE(numChars);
  }

  /** What a device reads from the first 30 bytes of a text command for `k`
      characters: the total length `30 + 68k`, the text command code, the
      length `14 + 68k` and the CRC-32 of everything after the header, then
      the metadata. */
  lemma TextPacketHeader(text: string, textMode: int, speed: int, textColorMode: int, textColor: Rgb,
                         textBgMode: int, textBgColor: Rgb, raster: Raster)
    ensures var r := TextPacket(text, textMode, speed, textColorMode, textColor, textBgMode, textBgColor, raster);
      && |r| == 30 + CHAR_BLOCK * |text|
      && LittleEndian(r[0..2]) == (30 + CHAR_BLOCK * |text|) % 0x1_0000
      && r[2..5] == [3, 0, 0]
      && LittleEndian(r[5..9]) == (14 + CHAR_BLOCK * |text|) % 0x1_0000_0000
      && LittleEndian(r[9..13]) == Crc32(r[16..])
      && r[13..16] == [0, 0, 12]
      && LittleEndian(r[16..18]) == |text| % 0x1_0000
      && r[18..30] == [0, 1, textMode % 256, speed % 256, textColorMode % 256,
                       textColor.r % 256, textColor.g % 256, textColor.b % 256,
                       textBgMode % 256, textBgColor.r % 256, textBgColor.g % 256, textBgColor.b % 256]
  {
    var meta := TextMetadata(|text|, textMode, speed, textColorMode, textColor, textBgMode, textBgColor);
    var glyphs := TextBitmaps(text, raster);
    var packet := meta + glyphs;
    var h := TextHeader(packet);
    TextHeaderFields(packet);
    TextMetadataFields(|text|, textMode, speed, textColorMode, textColor, textBgMode, textBgColor);
    SliceOfAppend(meta, glyphs, 0, 2);
    SliceOfAppend(meta, glyphs, 2, 14);
    SliceAfterAppend(h, packet, 16, 18);
    SliceAfterAppend(h, packet, 18, 30);
  }

  /** Every character of the text reaches the device as a separator followed
      by its glyph, at bytes `30 + 68i` to `97 + 68i`. */
  lemma TextPacketGlyphs(text: string, textMode: int, speed: int, textColorMode: int, textColor: Rgb,
                         textBgMode: int, textBgColor: Rgb, raster: Raster)
    ensures forall i :: 0 <= i < |text| ==>
      var r := TextPacket(text, textMode, speed, textColorMode, textColor, textBgMode, textBgColor, raster);
      && r[30 + CHAR_BLOCK * i .. 34 + CHAR_BLOCK * i] == SEPARATOR
      && r[34 + CHAR_BLOCK * i .. 30 + CHAR_BLOCK * (i + 1)] == GlyphBytes(raster, text[i])
  {
    var r := TextPacket(text, textMode, speed, textColorMode, textColor, textBgMode, textBgColor, raster);
    forall i | 0 <= i < |text|
      ensures r[30 + CHAR_BLOCK * i .. 34 + CHAR_BLOCK * i] == SEPARATOR
      ensures r[34 + CHAR_BLOCK * i .. 30 + CHAR_BLOCK * (i + 1)] == GlyphBytes(raster, text[i])
    {
      TextGlyphAt(text, textMode, speed, textColorMode, textColor, textBgMode, textBgColor, raster, i);
    }
  }
}
