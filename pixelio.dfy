/** The pixel section of the file: the row read loop of main (pixels in,
    padding skipped) and the row write loop (pixels out, padding written as
    zero bytes), each with the byte layout it reads or produces. */
module PixelIO {
  import opened Bmp
  import opened Grid
  import opened Transform

  /** Byte offset of row i when every row takes `stride` bytes, counted the
      way the stream advances: one stride per row. RowOffsetIsProduct gives
      the closed form i * stride. */
  function RowOffset(i: nat, stride: nat): nat
  {
    if i == 0 then 0 else RowOffset(i - 1, stride) + stride
  }

  lemma {:induction false} RowOffsetIsProduct(i: nat, stride: nat)
    ensures RowOffset(i, stride) == i * stride
  {
    if i > 0 {
      RowOffsetIsProduct(i - 1, stride);
    }
  }

  lemma {:induction false} RowOffsetMono(i: nat, j: nat, stride: nat)
    requires i <= j
    ensures RowOffset(i, stride) <= RowOffset(j, stride)
  {
    if i < j {
      RowOffsetMono(i, j - 1, stride);
    }
  }

  lemma SliceLeft<T>(a: seq<T>, b: seq<T>, lo: nat, hi: nat)
    requires lo <= hi <= |a|
    ensures (a + b)[lo..hi] == a[lo..hi]
  {
  }

  lemma SliceRight<T>(a: seq<T>, b: seq<T>, lo: nat, hi: nat)
    requires lo == |a| && hi == |a| + |b|
    ensures (a + b)[lo..hi] == b
  {
  }

  /** The bytes after the headers hold every pixel the read loop fetches:
      height - 1 whole strides, then one unpadded row. The last row's padding
      is only skipped, never read, so it may be missing. */
  predicate Covers(data: seq<uint8>, height: nat, width: nat, padding: nat)
  {
    height == 0 || RowOffset(height - 1, 3 * width + padding) + 3 * width <= |data|
  }

  /** Pixels 0..j-1 of row i lie inside the bytes Covers asks for. */
  lemma RowFits(data: seq<uint8>, height: nat, width: nat, padding: nat, i: nat, j: nat)
    requires Covers(data, height, width, padding) && i < height && j <= width
    ensures RowOffset(i, 3 * width + padding) + 3 * j <= |data|
  {
    RowOffsetMono(i, height - 1, 3 * width + padding);
  }

  /** The RGBTRIPLE stored at byte offset `at`. */
  function PixelAt(data: seq<uint8>, at: nat): Pixel
    requires at + 3 <= |data|
  {
    Pixel(data[at], data[at + 1], data[at + 2])
  }

  /** `width` consecutive pixels starting at byte offset `at`. */
  function DecodeRow(data: seq<uint8>, at: nat, width: nat): (row: seq<Pixel>)
    requires at + 3 * width <= |data|
    ensures |row| == width
  {
    seq(width, j requires 0 <= j < width => PixelAt(data, at + 3 * j))
  }

  /** The grid the read loop fills: row i is the `width` pixels at the start
      of stride i; padding bytes end up nowhere. */
  function DecodeRows(data: seq<uint8>, height: nat, width: nat, padding: nat): (g: Image)
    requires Covers(data, height, width, padding)
    ensures |g| == height && IsRect(g, width)
  {
    seq(height, i requires 0 <= i < height =>
      RowFits(data, height, width, padding, i, width); DecodeRow(data, RowOffset(i, 3 * width + padding), width))
  }

  /** The three bytes fwrite emits for one RGBTRIPLE. */
  function PixelBytes(p: Pixel): seq<uint8>
  {
    [p.blue, p.green, p.red]
  }

  /** The bytes of one row of pixels, with no padding: pixel j occupies bytes
      3j, 3j+1, 3j+2, blue first. */
  function EncodeRow(row: seq<Pixel>): (b: seq<uint8>)
    ensures |b| == 3 * |row|
    ensures forall j :: 0 <= j < |row| ==>
      b[3 * j] == row[j].blue && b[3 * j + 1] == row[j].green && b[3 * j + 2] == row[j].red
  {
    if row == [] then [] else EncodeRow(row[..|row| - 1]) + PixelBytes(row[|row| - 1])
  }

  function Zeros(n: nat): (z: seq<uint8>)
    ensures |z| == n && forall k :: 0 <= k < n ==> z[k] == 0
  {
    seq(n, _ => 0)
  }

  /** One stored row as the write loop emits it: the row's pixel bytes, then
      `padding` zero bytes. */
  function StrideBytes(row: seq<Pixel>, padding: nat): (b: seq<uint8>)
    ensures |b| == 3 * |row| + padding
  {
    EncodeRow(row) + Zeros(padding)
  }

  /** What the write loop emits: one stride per row, in row order. */
  function EncodeRows(g: Image, padding: nat): seq<uint8>
  {
    if g == [] then [] else EncodeRows(g[..|g| - 1], padding) + StrideBytes(g[|g| - 1], padding)
  }

  /** A grid of `width`-pixel rows takes one stride per row. */
  lemma {:induction false} EncodeRowsLength(g: Image, width: nat, padding: nat)
    requires IsRect(g, width)
    ensures |EncodeRows(g, padding)| == RowOffset(|g|, 3 * width + padding)
  {
    if g != [] {
      EncodeRowsLength(g[..|g| - 1], width, padding);
    }
  }

  /** The last stride of the encoding holds the last row. */
  lemma EncodedLastRow(g: Image, width: nat, padding: nat)
    requires IsRect(g, width) && g != []
    ensures RowOffset(|g|, 3 * width + padding) == |EncodeRows(g, padding)|
    ensures EncodeRows(g, padding)[RowOffset(|g| - 1, 3 * width + padding)..RowOffset(|g|, 3 * width + padding)] ==
      StrideBytes(g[|g| - 1], padding)
  {
    var front := g[..|g| - 1];
    EncodeRowsLength(front, width, padding);
    SliceRight(EncodeRows(front, padding), StrideBytes(g[|g| - 1], padding),
      RowOffset(|g| - 1, 3 * width + padding), RowOffset(|g|, 3 * width + padding));
  }

  /** Appending a stride leaves the earlier strides where they were. */
  lemma EncodedFrontRow(g: Image, width: nat, padding: nat, i: nat)
    requires IsRect(g, width) && i + 1 < |g|
    ensures RowOffset(i + 1, 3 * width + padding) <= |EncodeRows(g[..|g| - 1], padding)|
    ensures EncodeRows(g, padding)[RowOffset(i, 3 * width + padding)..RowOffset(i + 1, 3 * width + padding)] ==
      EncodeRows(g[..|g| - 1], padding)[RowOffset(i, 3 * width + padding)..RowOffset(i + 1, 3 * width + padding)]
  {
    var front := g[..|g| - 1];
    EncodeRowsLength(front, width, padding);
    RowOffsetMono(i + 1, |g| - 1, 3 * width + padding);
    RowOffsetMono(i, i + 1, 3 * width + padding);
    SliceLeft(EncodeRows(front, padding), StrideBytes(g[|g| - 1], padding),
      RowOffset(i, 3 * width + padding), RowOffset(i + 1, 3 * width + padding));
  }

  /** Stride i of the encoding holds row i's pixel bytes, then padding zero
      bytes. */
  lemma {:induction false} EncodedRow(g: Image, width: nat, padding: nat, i: nat)
    requires IsRect(g, width) && i < |g|
    ensures RowOffset(i + 1, 3 * width + padding) <= |EncodeRows(g, padding)|
    ensures EncodeRows(g, padding)[RowOffset(i, 3 * width + padding)..RowOffset(i + 1, 3 * width + padding)] ==
      StrideBytes(g[i], padding)
  {
    if i + 1 < |g| {
      var front := g[..|g| - 1];
      EncodedRow(front, width, padding, i);
      assert front[i] == g[i];
      EncodedFrontRow(g, width, padding, i);
      EncodeRowsLength(g, width, padding);
      RowOffsetMono(i + 1, |g|, 3 * width + padding);
    } else {
      EncodedLastRow(g, width, padding);
    }
  }

  /** One byte of the encoding, located by row and position in the row. */
  lemma EncodedByte(g: Image, width: nat, padding: nat, i: nat, x: nat)
    requires IsRect(g, width) && i < |g| && x < 3 * width + padding
    ensures RowOffset(i, 3 * width + padding) + x < |EncodeRows(g, padding)|
    ensures EncodeRows(g, padding)[RowOffset(i, 3 * width + padding) + x] ==
      if x < 3 * width then EncodeRow(g[i])[x] else 0
  {
    var s := 3 * width + padding;
    EncodedRow(g, width, padding, i);
    var b := EncodeRows(g, padding);
    assert b[RowOffset(i, s) + x] == b[RowOffset(i, s)..RowOffset(i + 1, s)][x] == StrideBytes(g[i], padding)[x];
  }

  /** Channel c of a pixel in on-disk order: 0 blue, 1 green, 2 red. */
  function Channel(px: Pixel, c: nat): uint8
    requires c < 3
  {
    if c == 0 then px.blue else if c == 1 then px.green else px.red
  }

  /** Byte c of pixel j in stride i of the encoding is channel c of g[i][j]. */
  lemma EncodedChannel(g: Image, width: nat, padding: nat, i: nat, j: nat, c: nat)
    requires IsRect(g, width) && i < |g| && j < width && c < 3
    ensures RowOffset(i, 3 * width + padding) + 3 * j + c < |EncodeRows(g, padding)|
    ensures EncodeRows(g, padding)[RowOffset(i, 3 * width + padding) + 3 * j + c] == Channel(g[i][j], c)
  {
    EncodedByte(g, width, padding, i, 3 * j + c);
    var row := EncodeRow(g[i]);
    assert row[3 * j + c] == Channel(g[i][j], c) by {
      assert row[3 * j] == g[i][j].blue && row[3 * j + 1] == g[i][j].green && row[3 * j + 2] == g[i][j].red;
    }
  }

  /** Channel c of the decoded pixel (k, l) is the byte it was read from. */
  lemma DecodedChannel(data: seq<uint8>, height: nat, width: nat, padding: nat, k: nat, l: nat, c: nat)
    requires Covers(data, height, width, padding) && k < height && l < width && c < 3
    ensures RowOffset(k, 3 * width + padding) + 3 * l + c < |data|
    ensures Channel(DecodeRows(data, height, width, padding)[k][l], c) == data[RowOffset(k, 3 * width + padding) + 3 * l + c]
  {
    var s := 3 * width + padding;
    RowFits(data, height, width, padding, k, width);
    var row := DecodeRows(data, height, width, padding)[k];
    assert row == DecodeRow(data, RowOffset(k, s), width);
    assert row[l] == PixelAt(data, RowOffset(k, s) + 3 * l);
  }

  /** Where the read loop takes each byte from: channel c of the decoded
      pixel (k, l) is byte k * stride + 3 * l + c of the pixel data, with
      stride = 3 * width + padding. */
  lemma DecodedChannelAt(data: seq<uint8>, height: nat, width: nat, padding: nat, k: nat, l: nat, c: nat)
    requires Covers(data, height, width, padding) && k < height && l < width && c < 3
    ensures k * (3 * width + padding) + 3 * l + c < |data|
    ensures Channel(DecodeRows(data, height, width, padding)[k][l], c) == data[k * (3 * width + padding) + 3 * l + c]
  {
    DecodedChannel(data, height, width, padding, k, l, c);
    RowOffsetIsProduct(k, 3 * width + padding);
  }

  /** Channel c of pixel (i, j) survives encoding and reading back. */
  lemma DecodeEncodeChannel(g: Image, width: nat, padding: nat, b: seq<uint8>, i: nat, j: nat, c: nat)
    requires IsRect(g, width) && i < |g| && j < width && c < 3
    requires b == EncodeRows(g, padding) && Covers(b, |g|, width, padding)
    ensures Channel(DecodeRows(b, |g|, width, padding)[i][j], c) == Channel(g[i][j], c)
  {
    DecodedChannel(b, |g|, width, padding, i, j, c);
    EncodedChannel(g, width, padding, i, j, c);
  }

  /** The grid read back from an encoding holds, at (i, j), the pixel that
      was encoded there. */
  lemma DecodeEncodePixel(g: Image, width: nat, padding: nat, b: seq<uint8>, i: nat, j: nat)
    requires IsRect(g, width) && i < |g| && j < width
    requires b == EncodeRows(g, padding) && Covers(b, |g|, width, padding)
    ensures DecodeRows(b, |g|, width, padding)[i][j] == g[i][j]
  {
    DecodeEncodeChannel(g, width, padding, b, i, j, 0);
    DecodeEncodeChannel(g, width, padding, b, i, j, 1);
    DecodeEncodeChannel(g, width, padding, b, i, j, 2);
  }

  /** Reading back what the write loop produced gives the same grid. */
  lemma DecodeEncode(g: Image, width: nat, padding: nat)
    requires IsRect(g, width)
    ensures Covers(EncodeRows(g, padding), |g|, width, padding)
    ensures DecodeRows(EncodeRows(g, padding), |g|, width, padding) == g
  {
    var b := EncodeRows(g, padding);
    EncodeRowsLength(g, width, padding);
    if g != [] {
      assert RowOffset(|g|, 3 * width + padding) == RowOffset(|g| - 1, 3 * width + padding) + 3 * width + padding;
    }
    var d := DecodeRows(b, |g|, width, padding);
    forall i | 0 <= i < |g| ensures d[i] == g[i] {
      forall j | 0 <= j < width ensures d[i][j] == g[i][j] {
        DecodeEncodePixel(g, width, padding, b, i, j);
      }
    }
  }

  /** Byte x of the encoding of a decoded row is the byte it was read from. */
  lemma EncodeDecodeByte(data: seq<uint8>, at: nat, width: nat, x: nat)
    requires at + 3 * width <= |data| && x < 3 * width
    ensures EncodeRow(DecodeRow(data, at, width))[x] == data[at + x]
  {
    var row := DecodeRow(data, at, width);
    var j := x / 3;
    assert x == 3 * j || x == 3 * j + 1 || x == 3 * j + 2;
    assert row[j] == PixelAt(data, at + 3 * j);
  }

  /** The encoding of a decoded row is the bytes it was read from. */
  lemma EncodeDecodeRow(data: seq<uint8>, at: nat, width: nat)
    requires at + 3 * width <= |data|
    ensures EncodeRow(DecodeRow(data, at, width)) == data[at..at + 3 * width]
  {
    forall x | 0 <= x < 3 * width ensures EncodeRow(DecodeRow(data, at, width))[x] == data[at + x] {
      EncodeDecodeByte(data, at, width, x);
    }
  }

  /** Row i of the decoded grid is the `width` pixels at the start of
      stride i. */
  lemma DecodedRow(data: seq<uint8>, height: nat, width: nat, padding: nat, i: nat)
    requires Covers(data, height, width, padding) && i < height
    ensures RowOffset(i, 3 * width + padding) + 3 * width <= |data|
    ensures DecodeRows(data, height, width, padding)[i] == DecodeRow(data, RowOffset(i, 3 * width + padding), width)
  {
    RowFits(data, height, width, padding, i, width);
  }

  /** Reading then writing keeps every pixel byte of row i where it was and
      replaces the row's padding with zero bytes: input padding is never
      carried over. */
  lemma EncodeDecode(data: seq<uint8>, height: nat, width: nat, padding: nat, i: nat)
    requires Covers(data, height, width, padding) && i < height
    ensures |EncodeRows(DecodeRows(data, height, width, padding), padding)| == RowOffset(height, 3 * width + padding)
    ensures RowOffset(i + 1, 3 * width + padding) <= RowOffset(height, 3 * width + padding)
    ensures RowOffset(i, 3 * width + padding) + 3 * width <= |data|
    ensures EncodeRows(DecodeRows(data, height, width, padding), padding)[RowOffset(i, 3 * width + padding)..RowOffset(i + 1, 3 * width + padding)] ==
      data[RowOffset(i, 3 * width + padding)..RowOffset(i, 3 * width + padding) + 3 * width] + Zeros(padding)
  {
    var g := DecodeRows(data, height, width, padding);
    EncodeRowsLength(g, width, padding);
    RowOffsetMono(i + 1, height, 3 * width + padding);
    EncodedRow(g, width, padding, i);
    DecodedRow(data, height, width, padding, i);
    EncodeDecodeRow(data, RowOffset(i, 3 * width + padding), width);
  }

  /** fread(image[i], sizeof(RGBTRIPLE), width, ...): row i takes the
      `width` triples starting at byte `pos`; no other row changes. */
  method ReadRow(data: seq<uint8>, image: array2<Pixel>, i: nat, pos: nat)
    requires i < image.Length0 && pos + 3 * image.Length1 <= |data|
    modifies image
    ensures forall l :: 0 <= l < image.Length1 ==> image[i, l] == DecodeRow(data, pos, image.Length1)[l]
    ensures forall k, l :: 0 <= k < image.Length0 && k != i && 0 <= l < image.Length1 ==> image[k, l] == old(image[k, l])
  {
    ghost var row := DecodeRow(data, pos, image.Length1);
    var at := pos;
    var j := 0;
    while j < image.Length1
      invariant 0 <= j <= image.Length1
      invariant at == pos + 3 * j
      invariant forall l :: 0 <= l < j ==> image[i, l] == row[l]
      invariant forall k, l :: 0 <= k < image.Length0 && k != i && 0 <= l < image.Length1 ==> image[k, l] == old(image[k, l])
    {
      image[i, j] := PixelAt(data, at);
      at := at + 3;
      j := j + 1;
    }
  }

  /** The row read loop: for each of the image's rows, fread `width` triples
      into it, then fseek past `padding` bytes. `data` is the stream after the
      two headers. */
  method ReadRows(data: seq<uint8>, image: array2<Pixel>, padding: nat)
    requires Covers(data, image.Length0, image.Length1, padding)
    modifies image
    ensures Cells(image) == DecodeRows(data, image.Length0, image.Length1, padding)
  {
    var height, width := image.Length0, image.Length1;
    ghost var g := DecodeRows(data, height, width, padding);
    var pos := 0;
    var i := 0;
    while i < height
      invariant 0 <= i <= height
      invariant pos == RowOffset(i, 3 * width + padding)
      invariant forall k, l :: 0 <= k < i && 0 <= l < width ==> image[k, l] == g[k][l]
    {
      DecodedRow(data, height, width, padding, i);
      ReadRow(data, image, i, pos);
      pos := pos + 3 * width + padding;
      i := i + 1;
    }
    forall k | 0 <= k < height ensures Cells(image)[k] == g[k] {
    }
  }

  /** fwrite(image[i], sizeof(RGBTRIPLE), width, ...): the bytes of row i,
      pixel by pixel. */
  method WriteRow(image: array2<Pixel>, i: nat) returns (out: seq<uint8>)
    requires i < image.Length0
    ensures out == EncodeRow(Cells(image)[i])
  {
    ghost var row := Cells(image)[i];
    out := [];
    var j := 0;
    while j < image.Length1
      invariant 0 <= j <= image.Length1
      invariant out == EncodeRow(row[..j])
    {
      out := out + PixelBytes(image[i, j]);
      assert row[..j + 1][..j] == row[..j];
      j := j + 1;
    }
    assert row[..image.Length1] == row;
  }

  /** The row write loop: for each row, fwrite its `width` triples, then
      fputc `padding` zero bytes. Returns everything written. */
  method WriteRows(image: array2<Pixel>, padding: nat) returns (out: seq<uint8>)
    ensures out == EncodeRows(Cells(image), padding)
  {
    ghost var g := Cells(image);
    out := [];
    var i := 0;
    while i < image.Length0
      invariant 0 <= i <= image.Length0
      invariant out == EncodeRows(g[..i], padding)
    {
      var stride := WriteRow(image, i);
      var k := 0;
      while k < padding
        invariant 0 <= k <= padding
        invariant stride == EncodeRow(g[i]) + Zeros(k)
      {
        stride := stride + [0];
        k := k + 1;
      }
      out := out + stride;
      assert g[..i + 1][..i] == g[..i];
      i := i + 1;
    }
    assert g[..image.Length0] == g;
  }
}
