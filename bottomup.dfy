/** bottom_up: the in-place transform of the height x width pixel grid held
    in a two-dimensional array. */
module Transform {
  import opened Bmp
  import opened Grid

  /** The grid currently stored in `image`, row by row. */
  function Cells(image: array2<Pixel>): (g: Image)
    reads image
    ensures |g| == image.Length0 && IsRect(g, image.Length1)
    ensures forall i, j :: 0 <= i < image.Length0 && 0 <= j < image.Length1 ==> g[i][j] == image[i, j]
  {
    seq(image.Length0, i requires 0 <= i < image.Length0 reads image =>
      seq(image.Length1, j requires 0 <= j < image.Length1 reads image => image[i, j]))
  }

  /** bottom_up: fills a scratch grid image_rev with the reversed picture,
      then copies it back over `image`. */
  method BottomUp(image: array2<Pixel>)
    modifies image
    ensures forall i, j :: 0 <= i < image.Length0 && 0 <= j < image.Length1 ==>
      image[i, j] == old(image[image.Length0 - 1 - i, image.Length1 - 1 - j])
    ensures Cells(image) == Rotate180(old(Cells(image)))
  {
    var rev := new Pixel[image.Length0, image.Length1];
    FillReversed(image, rev);
    CopyBack(rev, image);
    RotateFromPixels(old(Cells(image)), Cells(image), image.Length1);
  }

  /** The first loop nest: image_rev[h-1-i][w-1-j] = image[i][j], walking i
      and j downwards and copying one channel at a time. */
  method FillReversed(image: array2<Pixel>, rev: array2<Pixel>)
    requires rev != image
    requires rev.Length0 == image.Length0 && rev.Length1 == image.Length1
    modifies rev
    ensures forall k, l :: 0 <= k < rev.Length0 && 0 <= l < rev.Length1 ==>
      rev[k, l] == image[image.Length0 - 1 - k, image.Length1 - 1 - l]
  {
    var height, width := image.Length0, image.Length1;
    var i := height - 1;
    while i >= 0
      invariant -1 <= i < height
      invariant forall k, l :: 0 <= k < height - 1 - i && 0 <= l < width ==>
        rev[k, l] == image[height - 1 - k, width - 1 - l]
    {
      var j := width - 1;
      while j >= 0
        invariant -1 <= j < width
        invariant forall k, l :: 0 <= k < height - 1 - i && 0 <= l < width ==>
          rev[k, l] == image[height - 1 - k, width - 1 - l]
        invariant forall m :: j < m < width ==> rev[height - 1 - i, width - 1 - m] == image[i, m]
      {
        var k, l := height - i - 1, width - j - 1;
        var p := rev[k, l];
        p := p.(red := image[i, j].red);
        p := p.(green := image[i, j].green);
        p := p.(blue := image[i, j].blue);
        rev[k, l] := p;
        j := j - 1;
      }
      i := i - 1;
    }
  }

  /** The second loop nest: image[i][j] = image_rev[i][j], walking i and j
      upwards and copying one channel at a time. */
  method CopyBack(rev: array2<Pixel>, image: array2<Pixel>)
    requires rev != image
    requires rev.Length0 == image.Length0 && rev.Length1 == image.Length1
    modifies image
    ensures forall k, l :: 0 <= k < image.Length0 && 0 <= l < image.Length1 ==> image[k, l] == rev[k, l]
  {
    var height, width := image.Length0, image.Length1;
    var i := 0;
    while i < height
      invariant 0 <= i <= height
      invariant forall k, l :: 0 <= k < i && 0 <= l < width ==> image[k, l] == rev[k, l]
    {
      var j := 0;
      while j < width
        invariant 0 <= j <= width
        invariant forall k, l :: 0 <= k < i && 0 <= l < width ==> image[k, l] == rev[k, l]
        invariant forall l :: 0 <= l < j ==> image[i, l] == rev[i, l]
      {
        var p := image[i, j];
        p := p.(red := rev[i, j].red);
        p := p.(green := rev[i, j].green);
        p := p.(blue := rev[i, j].blue);
        image[i, j] := p;
        j := j + 1;
      }
      i := i + 1;
    }
  }
}
