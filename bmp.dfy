/** The BMP variant the copier accepts: raw bytes, the 24-bit pixel, the two
    fixed headers (BITMAPFILEHEADER, then a 40-byte BITMAPINFOHEADER), the
    allow-list that main applies to them, and the scanline padding rule. */
module Bmp {

  newtype uint8 = x: int | 0 <= x < 0x100

  /** RGBTRIPLE: three channels, stored on disk blue first, no alpha. */
  datatype Pixel = Pixel(blue: uint8, green: uint8, red: uint8)

  const FileHeaderSize: nat := 14
  const InfoHeaderSize: nat := 40
  /** Both headers together; the pixel rows start right after them. */
  const HeaderSize: nat := FileHeaderSize + InfoHeaderSize

  /** Little-endian unsigned 16-bit field (WORD) at byte offset `at`. */
  function U16(b: seq<uint8>, at: nat): (v: nat)
    requires at + 2 <= |b|
    ensures v < 0x1_0000
  {
    b[at] as int + 0x100 * b[at + 1] as int
  }

  /** Little-endian unsigned 32-bit field (DWORD) at byte offset `at`. */
  function U32(b: seq<uint8>, at: nat): (v: nat)
    requires at + 4 <= |b|
    ensures v < 0x1_0000_0000
  {
    U16(b, at) + 0x1_0000 * U16(b, at + 2)
  }

  /** Little-endian two's-complement 32-bit field (LONG) at byte offset `at`. */
  function S32(b: seq<uint8>, at: nat): (v: int)
    requires at + 4 <= |b|
    ensures -0x8000_0000 <= v < 0x8000_0000
    ensures v < 0 <==> b[at + 3] >= 0x80
  {
    var u := U32(b, at);
    if u < 0x8000_0000 then u else u - 0x1_0000_0000
  }

  /** The header fields the copier looks at; every other header byte is
      carried through without being interpreted. */
  datatype Header = Header(
    bfType: nat,
    bfOffBits: nat,
    biSize: nat,
    biWidth: int,
    biHeight: int,
    biBitCount: nat,
    biCompression: nat)

  /** Reads the fields at their on-disk offsets in the 54 header bytes. */
  function DecodeHeader(raw: seq<uint8>): (h: Header)
    requires |raw| == HeaderSize
    ensures h.bfType < 0x1_0000 && h.biBitCount < 0x1_0000
    ensures h.bfOffBits < 0x1_0000_0000 && h.biSize < 0x1_0000_0000 && h.biCompression < 0x1_0000_0000
    ensures -0x8000_0000 <= h.biWidth < 0x8000_0000 && -0x8000_0000 <= h.biHeight < 0x8000_0000
  {
    Header(U16(raw, 0), U32(raw, 10), U32(raw, 14), S32(raw, 18), S32(raw, 22), U16(raw, 28), U32(raw, 30))
  }

  /** The allow-list: "BM" signature, pixels at offset 54, a 40-byte info
      header, 24 bits per pixel, no compression. */
  predicate Supported(h: Header)
  {
    h.bfType == 0x4d42 && h.bfOffBits == 54 && h.biSize == 40 &&
    h.biBitCount == 24 && h.biCompression == 0
  }

  /** The allow-list stated on the raw header bytes: exactly these sixteen
      bytes (offsets 0-1, 10-17 and 28-33) are pinned down and the other 38
      are free. */
  lemma SupportedBytes(raw: seq<uint8>)
    requires |raw| == HeaderSize
    ensures Supported(DecodeHeader(raw)) <==>
      raw[0..2] == [0x42, 0x4d] &&
      raw[10..14] == [54, 0, 0, 0] &&
      raw[14..18] == [40, 0, 0, 0] &&
      raw[28..30] == [24, 0] &&
      raw[30..34] == [0, 0, 0, 0]
  {
    U16Is(raw, 0, 0x42, 0x4d);
    U32IsSmall(raw, 10, 54);
    U32IsSmall(raw, 14, 40);
    U16Is(raw, 28, 24, 0);
    U32IsSmall(raw, 30, 0);
  }

  lemma U16Is(b: seq<uint8>, at: nat, lo: uint8, hi: uint8)
    requires at + 2 <= |b|
    ensures U16(b, at) == lo as int + 0x100 * hi as int <==> b[at..at + 2] == [lo, hi]
  {
    if U16(b, at) == lo as int + 0x100 * hi as int {
      assert b[at + 1] == hi;
      assert b[at..at + 2] == [b[at], b[at + 1]];
    }
  }

  lemma U32IsSmall(b: seq<uint8>, at: nat, v: uint8)
    requires at + 4 <= |b|
    ensures U32(b, at) == v as int <==> b[at..at + 4] == [v, 0, 0, 0]
  {
    if U32(b, at) == v as int {
      assert b[at + 3] == 0 && b[at + 2] == 0 && b[at + 1] == 0;
      assert b[at..at + 4] == [b[at], b[at + 1], b[at + 2], b[at + 3]];
    }
  }

  /** abs(biHeight): the row count, whatever the sign of the stored height.
      C's abs is undefined for INT_MIN, which is excluded. */
  function RowCount(h: Header): (n: nat)
    requires h.biHeight != -0x8000_0000
    ensures n == h.biHeight || n == -h.biHeight
  {
    if h.biHeight < 0 then -h.biHeight else h.biHeight
  }

  /** Bytes of filler after `width` pixels, so that a stored row is a whole
      number of 4-byte words. */
  function Padding(width: nat): (p: nat)
    ensures p < 4
  {
    (4 - (width * 3) % 4) % 4
  }

  /** Stored length of one row: its pixel bytes and its padding. */
  function Stride(width: nat): (s: nat)
    ensures 3 * width <= s < 3 * width + 4
  {
    3 * width + Padding(width)
  }

  /** The padded row is a whole number of 4-byte words. */
  lemma PaddingAligns(width: nat)
    ensures Padding(width) < 4 && (3 * width + Padding(width)) % 4 == 0
    ensures Stride(width) % 4 == 0
  {
  }

  /** Padding is the least filler that aligns the row: any filler below 4
      bytes that aligns it is the padding. */
  lemma PaddingUnique(width: nat, q: nat)
    requires q < 4 && (3 * width + q) % 4 == 0
    ensures q == Padding(width)
  {
  }
}
