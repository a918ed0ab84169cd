# bottomup: a BMP copier that turns the picture over

`bottomup.c` reads a 24-bit uncompressed BMP file and checks five fields of
its two headers. It loads the pixel rows into a height x width grid and
reverses the grid with `bottom_up`. It then writes the two headers unchanged,
followed by the reversed rows, each row padded again with zero bytes to a
multiple of four bytes.

The Dafny model has five modules.

- `Bmp` covers the byte-level format:
  - the `uint8` byte and the `Pixel` (blue, green, red);
  - the header fields the program reads, decoded from the 54 header bytes;
  - the allow-list (`Supported`), the row count `abs(biHeight)` and the
    scanline padding rule.
- `Grid` holds the pixel grid as a value. `Rotate180` is what `bottom_up`
  leaves in the grid, and `FlipVertical` is the reference it is compared
  with.
- `Transform` holds `bottom_up` as an imperative method on an
  `array2<Pixel>`. It has the same two loop nests as the source: fill the
  scratch grid `image_rev` walking downwards, then copy it back walking
  upwards, one channel at a time.
- `PixelIO` covers the pixel section of the file:
  - the row read loop (`ReadRow`/`ReadRows`): `fread` `width` triples, then
    `fseek` past the padding;
  - the row write loop (`WriteRow`/`WriteRows`): `fwrite` the triples, then
    `fputc` the zero bytes;
  - the functions `DecodeRows` and `EncodeRows` that specify the two loops,
    and the lemmas relating them.
- `Convert` covers `main`. The input file is a byte sequence, and `Run`
  returns the outcome of one run: either the bytes written
  (`Written(output)`, exit status 0) or `UnsupportedFormat` (exit status 4,
  output file left empty). The function `Converted` specifies `Run`.

A stored row takes one stride of `3 * width + padding` bytes. Offsets are
written `RowOffset(i, stride)`, which adds one stride per row as the stream
does. `PixelIO.RowOffsetIsProduct` proves that it equals `i * stride`.

**The transform is a 180-degree turn, not a vertical flip.** `bottom_up`
writes `image_rev[h-1-i][w-1-j] = image[i][j]`, so it reverses the pixel order
inside every row as well as the row order. It is therefore not the vertical
flip described for this program, which reverses the rows only. The model
follows the code:
- `Transform.BottomUp` promises `image[i, j] == old(image[h-1-i, w-1-j])`.
- `Grid.RotateIsFlipIff` shows that the two transforms agree exactly when
  every row reads the same both ways.
- `Grid.RotateTwoByTwo` works through the two-row, two-column example, where
  they differ.

## Model

| member | source | states |
|---|---|---|
| `Bmp.SupportedBytes` | bottomup.c:49-50 | The allow-list holds exactly when the raw header bytes are "BM", offset 54, size 40, 24 bits and compression 0 at their offsets: sixteen bytes (offsets 0-1, 10-17 and 28-33) are fixed and the other 38 header bytes are unconstrained |
| `Bmp.RowCount` | bottomup.c:58 | The row count is `abs(biHeight)`: equal to the stored height or to its negation, and never negative |
| `Bmp.PaddingAligns` | bottomup.c:72 | The padding is below 4, and a padded row (`3 * width + padding`) is a multiple of 4 bytes |
| `Bmp.PaddingUnique` | bottomup.c:72 | Any filler below 4 bytes that makes the row a multiple of 4 is the padding, so the formula gives the least such filler |
| `Transform.BottomUp` | bottomup.c:119-145 | After the call, every cell (i, j) holds the old pixel at (h-1-i, w-1-j), so the grid is `Rotate180` of the old grid |
| `Transform.FillReversed` | bottomup.c:121-133 | The first loop nest leaves `image_rev[k][l] == image[h-1-k][w-1-l]` for every cell |
| `Transform.CopyBack` | bottomup.c:135-144 | The second loop nest leaves `image[k][l] == image_rev[k][l]` for every cell |
| `Grid.RotateAt` | bottomup.c:128 | The result has the same shape, and its pixel (i, j) is input pixel (h-1-i, w-1-j) |
| `Grid.RotateFromPixels` | bottomup.c:124-144 | A grid of the same shape whose every pixel (i, j) is input pixel (h-1-i, w-1-j) equals `Rotate180` of the input (the converse of `RotateAt`) |
| `Grid.RotateTwice` | bottomup.c:128 | Applying the transform twice restores the grid exactly |
| `Grid.RotateEmpty` | bottomup.c:124-126 | With no rows or no columns the transform changes nothing |
| `Grid.RotateKeepsPixels` | bottomup.c:129-131 | Every output pixel is some input pixel, and every input pixel appears in the output: pixels are moved, never altered |
| `Grid.RotateIsFlipIff` | bottomup.c:124-133 | The transform equals the vertical flip exactly when every row is its own mirror image |
| `Grid.RotateTwoByTwo` | bottomup.c:128 | On a 2x2 grid the flip would only swap the rows, while `bottom_up` also swaps the pixels in each row; the two results differ |
| `Grid.ReverseReverse` | bottomup.c:124-128 | Reversing an index range twice gives it back (the bijection behind both loop nests) |
| `PixelIO.RowOffsetIsProduct` | bottomup.c:75-83 | Advancing one stride per row puts row i at byte `i * stride` |
| `PixelIO.ReadRow` | bottomup.c:78 | One `fread` of `width` triples fills row i with the pixels at the current position and changes no other row |
| `PixelIO.ReadRows` | bottomup.c:75-83 | After the read loop the grid is `DecodeRows` of the pixel bytes: row i is the `width` triples at the start of stride i, and padding bytes go nowhere |
| `PixelIO.DecodedChannelAt` | bottomup.c:75-83 | Channel c of decoded pixel (k, l) is input byte `k * (3 * width + padding) + 3 * l + c`, and that byte lies inside the input: each row starts one padded stride after the previous one |
| `PixelIO.WriteRow` | bottomup.c:97 | One `fwrite` of a row emits its pixels as blue, green, red byte triples (`EncodeRow`) |
| `PixelIO.WriteRows` | bottomup.c:95-104 | The write loop emits exactly `EncodeRows` of the grid: each row's triples followed by `padding` zero bytes |
| `PixelIO.EncodeRowsLength` | bottomup.c:95-104 | The written rows take exactly one stride per row |
| `PixelIO.EncodedRow` | bottomup.c:95-104 | Stride i of the written bytes is row i's triples followed by `padding` zero bytes |
| `PixelIO.DecodeEncode` | bottomup.c:75-104 | Reading back what the write loop produced gives the same grid (the reader inverts the writer) |
| `PixelIO.EncodeDecode` | bottomup.c:75-104 | Reading and then writing keeps each row's pixel bytes in place and replaces its padding with zero bytes |
| `PixelIO.EncodeDecodeRow` | bottomup.c:78 | The encoding of the triples read from a position is the bytes at that position |
| `Convert.Run` | bottomup.c:40-116 | `main` without its I/O: either `UnsupportedFormat`, or the header followed by the written rows of the rotated grid, as `Converted` specifies |
| `Convert.RejectedIff` | bottomup.c:48-56 | The run ends with exit status 4 and writes nothing exactly when one of the five header conditions fails on the raw bytes |
| `Convert.OutputHeaderAndLength` | bottomup.c:85-104 | On success the output starts with the 54 input header bytes unchanged, and its length is `54 + height * Stride(width)` |
| `Convert.OutputPixel` | bottomup.c:75-104 | Byte c of pixel j in output row i is byte c of pixel w-1-j in input row n-1-i |
| `Convert.OutputPaddingZero` | bottomup.c:99-103 | Every padding byte of the output is zero, whatever the input's padding held |
| `Convert.EmptyImage` | bottomup.c:75-104 | With no rows or no columns the output is the 54 header bytes alone |
| `Convert.ReadBack` | bottomup.c:40-83 | A file the program wrote passes the header check again with the same dimensions, and its pixels read back as the grid that was written |
| `Convert.RunTwice` | bottomup.c:40-145 | Running the program on its own output gives back the input's header and pixel rows, with every padding byte zeroed and any bytes after the last row dropped |
| `Convert.RunTwiceOnOutput` | bottomup.c:40-145 | On a file the program wrote itself, a second run restores it byte for byte |

## Left out

- Argument checking, `fopen` failures and the exit statuses 1, 2 and 3 (bottomup.c:13-38) are I/O set-up. `Convert.Outcome` has only the two statuses the pixel pipeline can reach: 0 and 4.
- `calloc` failure and exit status 5 (bottomup.c:62-69), `free` (bottomup.c:107), and the stack array `image_rev` (bottomup.c:121) are memory management. The model allocates the grid with `new` and the scratch grid as a fresh array. It therefore does not capture the stack limit on `image_rev`: with a typical 8 MiB stack the C program overflows at roughly 2.8 million pixels. For zero height or width, `image_rev` is a zero-length array, which C leaves undefined, and `calloc` of zero bytes may return NULL (exit status 5) on some C libraries; the model treats that case as `Convert.EmptyImage` states.
- `printf`, `fclose` and the file handles are left out; the streams become byte sequences.
- `bmp.h` is not part of this model. The header fields are decoded little-endian at their standard BMP offsets (bfType at 0, bfOffBits at 10, biSize at 14, biWidth at 18, biHeight at 22, biBitCount at 28, biCompression at 30). The 54 header bytes are written back without being interpreted.
- `Convert.Run`: requires `Readable`, so short reads are not modelled. The program never checks the results of `fread` and `fseek`, and a file shorter than its header announces leaves calloc's zero pixels in place. The model instead requires the input to hold the 54 header bytes and every pixel byte the read loop fetches. The last row's padding is only skipped, never read, so it may be missing.
- `Convert.Run`: requires `biWidth >= 0` for an accepted header. For a negative width the C padding expression converts the width to an unsigned type, and `calloc` and the loops receive a negative width.
- `Convert.Run`: requires `biHeight != INT_MIN` for an accepted header, because C's `abs` is undefined there.
- Integer widths: the model's integers are unbounded. With a 64-bit `size_t`, `3 * width` fits the unsigned arithmetic of the padding expression for every width below 2^31. With a 32-bit `size_t` the product can wrap around modulo 2^32. The formula still agrees then, because 2^32 is a multiple of 4 and only the remainder modulo 4 is used.
- The program does not check that `biSizeImage` or `bfSize` match the pixel data, and neither does the model. Those bytes are copied with the rest of the header.
