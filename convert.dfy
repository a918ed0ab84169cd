/** main: read the two headers, reject anything but 24-bit uncompressed BMP,
    read the pixel rows, turn the grid with bottom_up, and write the headers
    and the rows back out with fresh zero padding. The input file is a byte
    sequence and the output file is the byte sequence returned. */
module Convert {
  import opened Bmp
  import opened Grid
  import opened Transform
  import opened PixelIO

  /** What one run leaves behind. */
  datatype Outcome =
    | Written(output: seq<uint8>)  // exit status 0: the output file's bytes
    | UnsupportedFormat            // exit status 4: the output file is left empty

  /** What the model takes for granted about the input, none of which main
      checks: both headers are present, and an accepted header has a
      non-negative width, a height whose abs is defined, and the pixel bytes
      the read loop fetches. */
  predicate Readable(input: seq<uint8>)
  {
    |input| >= HeaderSize &&
    var h := DecodeHeader(input[..HeaderSize]);
    Supported(h) ==>
      h.biWidth >= 0 && h.biHeight != -0x8000_0000 &&
      Covers(input[HeaderSize..], RowCount(h), h.biWidth, Padding(h.biWidth))
  }

  /** The header passes the allow-list. */
  predicate Accepted(input: seq<uint8>)
  {
    |input| >= HeaderSize && Supported(DecodeHeader(input[..HeaderSize]))
  }

  /** `n` rows of `w` pixels, each row stored with `p` bytes of padding: the
      layout an accepted header announces. */
  predicate Dimensions(input: seq<uint8>, n: nat, w: nat, p: nat)
    requires Readable(input) && Accepted(input)
  {
    var h := DecodeHeader(input[..HeaderSize]);
    n == RowCount(h) && w == h.biWidth && p == Padding(h.biWidth)
  }

  /** The grid the read loop builds from an accepted input. */
  function InputGrid(input: seq<uint8>): (g: Image)
    requires Readable(input) && Supported(DecodeHeader(input[..HeaderSize]))
    ensures |g| == RowCount(DecodeHeader(input[..HeaderSize]))
    ensures IsRect(g, DecodeHeader(input[..HeaderSize]).biWidth)
  {
    var h := DecodeHeader(input[..HeaderSize]);
    DecodeRows(input[HeaderSize..], RowCount(h), h.biWidth, Padding(h.biWidth))
  }

  /** The whole effect of a run on the output file. */
  function Converted(input: seq<uint8>): Outcome
    requires Readable(input)
  {
    var h := DecodeHeader(input[..HeaderSize]);
    if !Supported(h) then UnsupportedFormat
    else Written(input[..HeaderSize] + EncodeRows(Rotate180(InputGrid(input)), Padding(h.biWidth)))
  }

  /** main, from the header reads to the last fputc. */
  method Run(input: seq<uint8>) returns (outcome: Outcome)
    requires Readable(input)
    ensures outcome == Converted(input)
  {
    var header := input[..HeaderSize];
    var h := DecodeHeader(header);
    if !Supported(h) {
      return UnsupportedFormat;
    }
    var height := RowCount(h);
    var width := h.biWidth;
    var image := new Pixel[height, width];
    var padding := Padding(width);
    ReadRows(input[HeaderSize..], image, padding);
    var output := header;
    BottomUp(image);
    var pixels := WriteRows(image, padding);
    output := output + pixels;
    return Written(output);
  }

  /** Nothing is written unless all five header conditions hold, read here
      on the raw bytes: "BM", offset 54, info size 40, 24 bits, BI_RGB. */
  lemma RejectedIff(input: seq<uint8>)
    requires Readable(input)
    ensures
      Converted(input) == UnsupportedFormat <==>
        !(input[0..2] == [0x42, 0x4d] &&
          input[10..14] == [54, 0, 0, 0] &&
          input[14..18] == [40, 0, 0, 0] &&
          input[28..30] == [24, 0] &&
          input[30..34] == [0, 0, 0, 0])
  {
    var raw := input[..HeaderSize];
    SupportedBytes(raw);
    assert raw[0..2] == input[0..2] && raw[10..14] == input[10..14] && raw[14..18] == input[14..18];
    assert raw[28..30] == input[28..30] && raw[30..34] == input[30..34];
  }

  /** On success the output is the 54 header bytes unchanged, then one
      stride of 3 * width + padding bytes per row. */
  lemma OutputHeaderAndLength(input: seq<uint8>, n: nat, w: nat, p: nat)
    requires Readable(input) && Accepted(input) && Dimensions(input, n, w, p)
    ensures |Converted(input).output| == HeaderSize + n * Stride(w)
    ensures Converted(input).output[..HeaderSize] == input[..HeaderSize]
  {
    OutputRows(input, n, w, p);
    RotatedLength(DecodeRows(input[HeaderSize..], n, w, p), n, w, p);
    assert |Converted(input).output| == HeaderSize + RowOffset(n, 3 * w + p);
    assert Stride(w) == 3 * w + p;
    RowOffsetIsProduct(n, Stride(w));
  }

  /** Past the headers, the output holds the rows of the rotated grid. */
  lemma OutputRows(input: seq<uint8>, n: nat, w: nat, p: nat)
    requires Readable(input) && Accepted(input) && Dimensions(input, n, w, p)
    ensures Covers(input[HeaderSize..], n, w, p)
    ensures |Converted(input).output| >= HeaderSize
    ensures Converted(input).output[..HeaderSize] == input[..HeaderSize]
    ensures Converted(input).output[HeaderSize..] == EncodeRows(Rotate180(DecodeRows(input[HeaderSize..], n, w, p)), p)
  {
  }

  /** The rotated grid still takes one stride per row. */
  lemma RotatedLength(src: Image, n: nat, w: nat, p: nat)
    requires |src| == n && IsRect(src, w)
    ensures |EncodeRows(Rotate180(src), p)| == RowOffset(n, 3 * w + p)
  {
    RotateAt(src, w);
    EncodeRowsLength(Rotate180(src), w, p);
  }

  /** Byte c of pixel j in stride i of the written rows is channel c of
      pixel w-1-j in row n-1-i of the grid that was read. */
  lemma RotatedChannel(src: Image, n: nat, w: nat, p: nat, i: nat, j: nat, c: nat)
    requires |src| == n && IsRect(src, w) && i < n && j < w && c < 3
    ensures RowOffset(i, 3 * w + p) + 3 * j + c < |EncodeRows(Rotate180(src), p)|
    ensures EncodeRows(Rotate180(src), p)[RowOffset(i, 3 * w + p) + 3 * j + c] ==
      Channel(src[n - 1 - i][w - 1 - j], c)
  {
    var g := Rotate180(src);
    assert IsRect(g, w) && |g| == n && g[i][j] == src[n - 1 - i][w - 1 - j] by {
      RotateAt(src, w);
    }
    EncodedChannel(g, w, p, i, j, c);
  }

  /** Channel c of the pixel that lands at (i, j) is the byte it was read
      from: pixel w-1-j of stride n-1-i. */
  lemma RotatedSource(data: seq<uint8>, n: nat, w: nat, p: nat, i: nat, j: nat, c: nat)
    requires Covers(data, n, w, p) && i < n && j < w && c < 3
    ensures RowOffset(n - 1 - i, 3 * w + p) + 3 * (w - 1 - j) + c < |data|
    ensures Channel(DecodeRows(data, n, w, p)[n - 1 - i][w - 1 - j], c) ==
      data[RowOffset(n - 1 - i, 3 * w + p) + 3 * (w - 1 - j) + c]
  {
    DecodedChannel(data, n, w, p, n - 1 - i, w - 1 - j, c);
  }

  /** Byte c of pixel j in row i of the written rows is byte c of pixel
      w-1-j in row n-1-i of the rows read. */
  lemma RotatedByte(data: seq<uint8>, n: nat, w: nat, p: nat, i: nat, j: nat, c: nat)
    requires Covers(data, n, w, p) && i < n && j < w && c < 3
    ensures RowOffset(n - 1 - i, 3 * w + p) + 3 * (w - 1 - j) + c < |data|
    ensures RowOffset(i, 3 * w + p) + 3 * j + c < |EncodeRows(Rotate180(DecodeRows(data, n, w, p)), p)|
    ensures EncodeRows(Rotate180(DecodeRows(data, n, w, p)), p)[RowOffset(i, 3 * w + p) + 3 * j + c] ==
      data[RowOffset(n - 1 - i, 3 * w + p) + 3 * (w - 1 - j) + c]
  {
    RotatedSource(data, n, w, p, i, j, c);
    RotatedChannel(DecodeRows(data, n, w, p), n, w, p, i, j, c);
  }

  /** Where output row i, pixel j comes from: channel c of it is channel c of
      input row n-1-i, pixel w-1-j, rows and columns both reversed. Offsets
      are counted in the pixel sections after the headers, one stride of
      3 * w + p bytes per row (RowOffset(i, s) is i * s, by
      RowOffsetIsProduct). */
  lemma OutputPixel(input: seq<uint8>, n: nat, w: nat, p: nat, i: nat, j: nat, c: nat)
    requires Readable(input) && Accepted(input) && Dimensions(input, n, w, p)
    requires i < n && j < w && c < 3
    ensures RowOffset(n - 1 - i, 3 * w + p) + 3 * (w - 1 - j) + c < |input[HeaderSize..]|
    ensures |Converted(input).output| >= HeaderSize
    ensures RowOffset(i, 3 * w + p) + 3 * j + c < |Converted(input).output[HeaderSize..]|
    ensures Converted(input).output[HeaderSize..][RowOffset(i, 3 * w + p) + 3 * j + c] ==
      input[HeaderSize..][RowOffset(n - 1 - i, 3 * w + p) + 3 * (w - 1 - j) + c]
  {
    OutputRows(input, n, w, p);
    RotatedByte(input[HeaderSize..], n, w, p, i, j, c);
  }

  /** On success every padding byte of the output is zero, whatever the
      input's padding bytes held. */
  lemma OutputPaddingZero(input: seq<uint8>, n: nat, w: nat, p: nat, i: nat, k: nat)
    requires Readable(input) && Accepted(input) && Dimensions(input, n, w, p)
    requires i < n && k < p
    ensures |Converted(input).output| >= HeaderSize
    ensures RowOffset(i, 3 * w + p) + 3 * w + k < |Converted(input).output[HeaderSize..]|
    ensures Converted(input).output[HeaderSize..][RowOffset(i, 3 * w + p) + 3 * w + k] == 0
  {
    OutputRows(input, n, w, p);
    RotatedPadding(DecodeRows(input[HeaderSize..], n, w, p), n, w, p, i, k);
  }

  /** The padding bytes after each row of the rotated grid are zero. */
  lemma RotatedPadding(src: Image, n: nat, w: nat, p: nat, i: nat, k: nat)
    requires |src| == n && IsRect(src, w) && i < n && k < p
    ensures RowOffset(i, 3 * w + p) + 3 * w + k < |EncodeRows(Rotate180(src), p)|
    ensures EncodeRows(Rotate180(src), p)[RowOffset(i, 3 * w + p) + 3 * w + k] == 0
  {
    RotateAt(src, w);
    EncodedByte(Rotate180(src), w, p, i, 3 * w + k);
  }

  /** An image with no rows or no columns comes out as the headers alone. */
  lemma EmptyImage(input: seq<uint8>)
    requires Readable(input) && Accepted(input)
    requires RowCount(DecodeHeader(input[..HeaderSize])) == 0 || DecodeHeader(input[..HeaderSize]).biWidth == 0
    ensures Converted(input) == Written(input[..HeaderSize])
  {
    var h := DecodeHeader(input[..HeaderSize]);
    var g := InputGrid(input);
    RotateEmpty(g, h.biWidth);
    if |g| > 0 {
      assert Padding(0) == 0;
      EncodeRowsLength(g, 0, 0);
      assert RowOffset(|g|, 0) == 0 by {
        RowOffsetIsProduct(|g|, 0);
      }
    }
  }

  /** A file the program wrote is accepted again, with the same header and
      the same width and row count, and its pixels read back as the grid
      that was written. */
  lemma ReadBack(header: seq<uint8>, g: Image)
    requires |header| == HeaderSize && Supported(DecodeHeader(header))
    requires DecodeHeader(header).biWidth >= 0 && DecodeHeader(header).biHeight != -0x8000_0000
    requires |g| == RowCount(DecodeHeader(header)) && IsRect(g, DecodeHeader(header).biWidth)
    ensures var out := header + EncodeRows(g, Padding(DecodeHeader(header).biWidth));
      out[..HeaderSize] == header && Readable(out) && InputGrid(out) == g
  {
    var w := DecodeHeader(header).biWidth;
    var out := header + EncodeRows(g, Padding(w));
    assert out[..HeaderSize] == header;
    assert out[HeaderSize..] == EncodeRows(g, Padding(w));
    DecodeEncode(g, w, Padding(w));
  }

  /** Running the program on its own output gives back the input with its
      padding bytes zeroed and anything after the last row dropped: the
      transform undoes itself. */
  lemma RunTwice(input: seq<uint8>)
    requires Readable(input) && Accepted(input)
    ensures Readable(Converted(input).output)
    ensures Converted(Converted(input).output) ==
      Written(input[..HeaderSize] + EncodeRows(InputGrid(input), Padding(DecodeHeader(input[..HeaderSize]).biWidth)))
  {
    var header := input[..HeaderSize];
    var h := DecodeHeader(header);
    var src := InputGrid(input);
    RotateAt(src, h.biWidth);
    ReadBack(header, Rotate180(src));
    RotateTwice(src);
  }

  /** On a file the program wrote itself, a second run restores it byte
      for byte. */
  lemma RunTwiceOnOutput(x: seq<uint8>)
    requires Readable(x) && Accepted(x)
    ensures var o := Converted(x).output;
      Readable(o) && Converted(o).Written? &&
      Readable(Converted(o).output) && Converted(Converted(o).output) == Written(o)
  {
    RunTwice(x);
    var header := x[..HeaderSize];
    var src := InputGrid(x);
    ReadBack(header, src);
  }
}
