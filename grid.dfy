/** The pixel grid as a value, and the transform bottom_up performs on it:
    both the row order and the pixel order inside every row are reversed,
    which turns the picture by 180 degrees. */
module Grid {
  import opened Bmp

  /** Rows of pixels, top row (as stored) first. */
  type Image = seq<seq<Pixel>>

  /** Every row holds exactly `width` pixels. */
  predicate IsRect(g: Image, width: nat)
  {
    forall i :: 0 <= i < |g| ==> |g[i]| == width
  }

  function Reverse<T>(s: seq<T>): (r: seq<T>)
    ensures |r| == |s|
  {
    if s == [] then [] else [s[|s| - 1]] + Reverse(s[..|s| - 1])
  }

  lemma {:induction false} ReverseAt<T>(s: seq<T>, k: nat)
    requires k < |s|
    ensures Reverse(s)[k] == s[|s| - 1 - k]
  {
    if k > 0 {
      ReverseAt(s[..|s| - 1], k - 1);
    }
  }

  lemma ReverseIndexwise<T>(s: seq<T>)
    ensures forall k :: 0 <= k < |s| ==> Reverse(s)[k] == s[|s| - 1 - k]
  {
    forall k | 0 <= k < |s| ensures Reverse(s)[k] == s[|s| - 1 - k] {
      ReverseAt(s, k);
    }
  }

  /** Reversing twice gives the sequence back. */
  lemma ReverseReverse<T>(s: seq<T>)
    ensures Reverse(Reverse(s)) == s
  {
    ReverseIndexwise(s);
    ReverseIndexwise(Reverse(s));
  }

  lemma ReverseInjective<T>(s: seq<T>, t: seq<T>)
    requires Reverse(s) == Reverse(t)
    ensures s == t
  {
    ReverseReverse(s);
    ReverseReverse(t);
  }

  /** Mirror every row left to right, keeping the row order. */
  function MirrorRows(g: Image): (r: Image)
    ensures |r| == |g|
  {
    seq(|g|, i requires 0 <= i < |g| => Reverse(g[i]))
  }

  /** The vertical flip: row order reversed, each row left as it is. */
  function FlipVertical(g: Image): (r: Image)
    ensures |r| == |g|
  {
    Reverse(g)
  }

  /** What bottom_up leaves in the grid: row order and pixel order both
      reversed. */
  function Rotate180(g: Image): (r: Image)
    ensures |r| == |g|
  {
    Reverse(MirrorRows(g))
  }

  /** Pixel (i, j) of the result is pixel (h-1-i, w-1-j) of the input, so a
      rectangular grid stays rectangular with the same width. */
  lemma RotateAt(g: Image, width: nat)
    requires IsRect(g, width)
    ensures IsRect(Rotate180(g), width)
    ensures forall i, j :: 0 <= i < |g| && 0 <= j < width ==>
      Rotate180(g)[i][j] == g[|g| - 1 - i][width - 1 - j]
  {
    var h := |g|;
    ReverseIndexwise(MirrorRows(g));
    forall i | 0 <= i < h
      ensures |Rotate180(g)[i]| == width
      ensures forall j :: 0 <= j < width ==> Rotate180(g)[i][j] == g[h - 1 - i][width - 1 - j]
    {
      ReverseIndexwise(g[h - 1 - i]);
    }
  }

  /** A grid that is given by its pixels: the converse of RotateAt. */
  lemma RotateFromPixels(g: Image, r: Image, width: nat)
    requires IsRect(g, width) && IsRect(r, width) && |r| == |g|
    requires forall i, j :: 0 <= i < |g| && 0 <= j < width ==> r[i][j] == g[|g| - 1 - i][width - 1 - j]
    ensures r == Rotate180(g)
  {
    RotateAt(g, width);
    forall i | 0 <= i < |g| ensures r[i] == Rotate180(g)[i] {
    }
  }

  /** bottom_up applied twice restores the grid exactly. */
  lemma RotateTwice(g: Image)
    ensures Rotate180(Rotate180(g)) == g
  {
    var m := MirrorRows(g);
    assert MirrorRows(Reverse(m)) == Reverse(MirrorRows(m)) by {
      ReverseIndexwise(m);
      ReverseIndexwise(MirrorRows(m));
    }
    forall i | 0 <= i < |g| ensures MirrorRows(m)[i] == g[i] {
      ReverseReverse(g[i]);
    }
    calc {
      Rotate180(Rotate180(g));
      Reverse(MirrorRows(Reverse(m)));
      Reverse(Reverse(MirrorRows(m)));
      { ReverseReverse(MirrorRows(m)); }
      MirrorRows(m);
      g;
    }
  }

  /** With no rows, or rows of no pixels, bottom_up changes nothing. */
  lemma RotateEmpty(g: Image, width: nat)
    requires IsRect(g, width) && (|g| == 0 || width == 0)
    ensures Rotate180(g) == g
  {
    RotateAt(g, width);
  }

  /** Every pixel value of the result is a pixel value of the input and the
      other way round: the transform only moves pixels, it never alters a
      channel. */
  lemma RotateKeepsPixels(g: Image, width: nat)
    requires IsRect(g, width)
    ensures IsRect(Rotate180(g), width)
    ensures forall i, j :: 0 <= i < |g| && 0 <= j < width ==>
      exists k, l :: 0 <= k < |g| && 0 <= l < width && Rotate180(g)[i][j] == g[k][l]
    ensures forall k, l :: 0 <= k < |g| && 0 <= l < width ==>
      exists i, j :: 0 <= i < |g| && 0 <= j < width && Rotate180(g)[i][j] == g[k][l]
  {
    RotateAt(g, width);
    var h := |g|;
    forall k, l | 0 <= k < h && 0 <= l < width
      ensures exists i, j :: 0 <= i < h && 0 <= j < width && Rotate180(g)[i][j] == g[k][l]
    {
      assert Rotate180(g)[h - 1 - k][width - 1 - l] == g[k][l];
    }
  }

  /** bottom_up is a vertical flip only on grids whose every row reads the
      same both ways; on any other grid it also mirrors the rows. */
  lemma RotateIsFlipIff(g: Image)
    ensures Rotate180(g) == FlipVertical(g) <==> forall i :: 0 <= i < |g| ==> Reverse(g[i]) == g[i]
  {
    if Rotate180(g) == FlipVertical(g) {
      ReverseInjective(MirrorRows(g), g);
      forall i | 0 <= i < |g| ensures Reverse(g[i]) == g[i] {
        assert MirrorRows(g)[i] == Reverse(g[i]);
      }
    }
    if forall i :: 0 <= i < |g| ==> Reverse(g[i]) == g[i] {
      assert MirrorRows(g) == g;
    }
  }

  /** Two rows of two pixels (listed as red, green, blue: (255,0,0), (0,255,0)
      over (0,0,255), (255,255,0)). The vertical flip would only swap the
      rows; bottom_up also swaps the two pixels inside each row. */
  lemma RotateTwoByTwo()
    ensures var r0 := [Pixel(0, 0, 255), Pixel(0, 255, 0)];
      var r1 := [Pixel(255, 0, 0), Pixel(0, 255, 255)];
      FlipVertical([r0, r1]) == [r1, r0] &&
      Rotate180([r0, r1]) == [[Pixel(0, 255, 255), Pixel(255, 0, 0)], [Pixel(0, 255, 0), Pixel(0, 0, 255)]] &&
      Rotate180([r0, r1]) != FlipVertical([r0, r1])
  {
    var r0 := [Pixel(0, 0, 255), Pixel(0, 255, 0)];
    var r1 := [Pixel(255, 0, 0), Pixel(0, 255, 255)];
    var g := [r0, r1];
    RotateAt(g, 2);
    ReverseIndexwise(g);
    var expected := [[Pixel(0, 255, 255), Pixel(255, 0, 0)], [Pixel(0, 255, 0), Pixel(0, 0, 255)]];
    assert Rotate180(g)[0] == expected[0];
    assert Rotate180(g)[1] == expected[1];
    assert FlipVertical(g)[0] == r1 && FlipVertical(g)[1] == r0;
    assert Rotate180(g)[0][0] != FlipVertical(g)[0][0];
  }
}
