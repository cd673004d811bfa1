/** `getTransparentSignatureBitmap(true)` of the current `SignaturePad`: four
    scans of the bitmap for the columns and rows that bound the signature,
    and the crop rectangle handed to `Bitmap.createBitmap`. */
module TrimScan {
  import opened JavaMath

  /** `Color.TRANSPARENT`, the background colour the scans skip. */
  const Transparent := 0

  /** A bitmap as rows of ARGB colours: `getPixel(x, y)` is `img[y][x]`. */
  predicate Rectangular(img: seq<seq<int>>, width: nat, height: nat)
  {
    |img| == height && forall y :: 0 <= y < height ==> |img[y]| == width
  }

  predicate Ink(img: seq<seq<int>>, x: int, y: int)
    requires 0 <= y < |img| && 0 <= x < |img[y]|
  {
    img[y][x] != Transparent
  }

  predicate Blank(img: seq<seq<int>>, width: nat, height: nat)
    requires Rectangular(img, width, height)
  {
    forall x, y :: 0 <= x < width && 0 <= y < height ==> !Ink(img, x, y)
  }

  /** Inclusive bounds of the signature: `xMin`, `yMin`, `xMax`, `yMax`. */
  datatype Box = Box(xMin: int, yMin: int, xMax: int, yMax: int)

  /** `b` is the bounding box of the ink: it lies in the bitmap, holds every
      ink pixel, and each of its four edges touches one. */
  ghost predicate TightBox(img: seq<seq<int>>, width: nat, height: nat, b: Box)
    requires Rectangular(img, width, height)
  {
    0 <= b.xMin <= b.xMax < width && 0 <= b.yMin <= b.yMax < height &&
    (forall x, y :: 0 <= x < width && 0 <= y < height && Ink(img, x, y) ==>
       b.xMin <= x <= b.xMax && b.yMin <= y <= b.yMax) &&
    (exists y :: 0 <= y < height && Ink(img, b.xMin, y)) &&
    (exists y :: 0 <= y < height && Ink(img, b.xMax, y)) &&
    (exists x :: 0 <= x < width && Ink(img, x, b.yMin)) &&
    (exists x :: 0 <= x < width && Ink(img, x, b.yMax))
  }

  /** The four scans. `None` is the `null` returned for a blank bitmap. */
  method TrimBounds(img: seq<seq<int>>, width: nat, height: nat) returns (r: Option<Box>)
    requires Rectangular(img, width, height)
    ensures r.None? <==> Blank(img, width, height)
    ensures r.Some? ==> TightBox(img, width, height, r.value)
  {
    // xMin: the first column, left to right, holding ink.
    var xMin, y0 := 0, 0;
    var foundPixel := false;
    var x := 0;
    while x < width && !foundPixel
      invariant 0 <= x <= width
      invariant forall i, j :: 0 <= i < x && 0 <= j < height ==> !Ink(img, i, j)
      invariant foundPixel ==> x == xMin < width && 0 <= y0 < height && Ink(img, xMin, y0)
      decreases width - x, if foundPixel then 0 else 1
    {
      var stop := false;
      var y := 0;
      while y < height && !stop
        invariant 0 <= y <= height
        invariant !stop ==> !foundPixel && forall j :: 0 <= j < y ==> !Ink(img, x, j)
        invariant stop ==> foundPixel && xMin == x && 0 <= y0 < height && Ink(img, x, y0)
        decreases height - y, if stop then 0 else 1
      {
        if img[y][x] != Transparent {
          xMin, y0 := x, y;
          stop, foundPixel := true, true;
        } else {
          y := y + 1;
        }
      }
      if !stop {
        x := x + 1;
      }
    }
    if !foundPixel {
      return None;
    }

    // yMin: the first row, top to bottom, holding ink right of xMin.
    var yMin, x1 := 0, xMin;
    var foundRow := false;
    var y := 0;
    while y < height && !foundRow
      invariant 0 <= y <= height
      invariant forall j, i :: 0 <= j < y && xMin <= i < width ==> !Ink(img, i, j)
      invariant !foundRow ==> y <= y0
      invariant foundRow ==> y == yMin < height && xMin <= x1 < width && Ink(img, x1, yMin)
      decreases height - y, if foundRow then 0 else 1
    {
      var stop := false;
      var i := xMin;
      while i < width && !stop
        invariant xMin <= i <= width
        invariant !stop ==> forall k :: xMin <= k < i ==> !Ink(img, k, y)
        invariant stop ==> yMin == y && xMin <= x1 < width && Ink(img, x1, y)
        decreases width - i, if stop then 0 else 1
      {
        if img[y][i] != Transparent {
          yMin, x1 := y, i;
          stop := true;
        } else {
          i := i + 1;
        }
      }
      if stop {
        foundRow := true;
      } else {
        y := y + 1;
      }
    }
    assert foundRow;

    // xMax: the first column, right to left, holding ink below yMin.
    var xMax, y1 := xMin, yMin;
    var foundColumn := false;
    var xr := width - 1;
    while xr >= xMin && !foundColumn
      invariant xMin - 1 <= xr <= width - 1
      invariant forall i, j :: xr < i < width && yMin <= j < height ==> !Ink(img, i, j)
      invariant !foundColumn ==> x1 <= xr
      invariant foundColumn ==> xr == xMax && xMin <= xMax < width && yMin <= y1 < height && Ink(img, xMax, y1)
      decreases xr - xMin + 1, if foundColumn then 0 else 1
    {
      var stop := false;
      var j := yMin;
      while j < height && !stop
        invariant yMin <= j <= height
        invariant !stop ==> forall k :: yMin <= k < j ==> !Ink(img, xr, k)
        invariant stop ==> xMax == xr && yMin <= y1 < height && Ink(img, xr, y1)
        decreases height - j, if stop then 0 else 1
      {
        if img[j][xr] != Transparent {
          xMax, y1 := xr, j;
          stop := true;
        } else {
          j := j + 1;
        }
      }
      if stop {
        foundColumn := true;
      } else {
        xr := xr - 1;
      }
    }
    assert foundColumn;

    // yMax: the first row, bottom to top, holding ink between xMin and xMax.
    var yMax, x3 := yMin, x1;
    var foundLast := false;
    var yr := height - 1;
    while yr >= yMin && !foundLast
      invariant yMin - 1 <= yr <= height - 1
      invariant forall j, i :: yr < j < height && xMin <= i <= xMax ==> !Ink(img, i, j)
      invariant !foundLast ==> yMin <= yr
      invariant foundLast ==> yr == yMax && yMin <= yMax < height && xMin <= x3 <= xMax && Ink(img, x3, yMax)
      decreases yr - yMin + 1, if foundLast then 0 else 1
    {
      var stop := false;
      var i := xMin;
      while i <= xMax && !stop
        invariant xMin <= i <= xMax + 1
        invariant !stop ==> forall k :: xMin <= k < i ==> !Ink(img, k, yr)
        invariant stop ==> yMax == yr && xMin <= x3 <= xMax && Ink(img, x3, yr)
        decreases xMax + 1 - i, if stop then 0 else 1
      {
        if img[yr][i] != Transparent {
          yMax, x3 := yr, i;
          stop := true;
        } else {
          i := i + 1;
        }
      }
      if stop {
        foundLast := true;
      } else {
        assert yr != yMin by {
          assert Ink(img, x1, yMin);
        }
        yr := yr - 1;
      }
    }
    assert foundLast;
    r := Some(Box(xMin, yMin, xMax, yMax));
  }

  /** A crop rectangle of `Bitmap.createBitmap(source, x, y, width, height)`. */
  datatype Rect = Rect(x: int, y: int, width: int, height: int)

  predicate InRect(c: Rect, x: int, y: int)
  {
    c.x <= x < c.x + c.width && c.y <= y < c.y + c.height
  }

  /** The crop as written: `xMax - xMin` by `yMax - yMin`, which leaves out
      the last column and the last row of the box. */
  function CropAsWritten(b: Box): (c: Rect)
    ensures c.x == b.xMin && c.y == b.yMin
    ensures !InRect(c, b.xMax, b.yMin) && !InRect(c, b.xMin, b.yMax)
  {
    Rect(b.xMin, b.yMin, b.xMax - b.xMin, b.yMax - b.yMin)
  }

  /** The crop as written loses ink: the pixels in the box's last column and
      last row fall outside it, and a signature one pixel wide or high gives
      a crop of width or height 0, which `createBitmap` refuses. */
  lemma CropAsWrittenLosesInk(img: seq<seq<int>>, width: nat, height: nat, b: Box)
    requires Rectangular(img, width, height) && TightBox(img, width, height, b)
    ensures exists y :: 0 <= y < height && Ink(img, b.xMax, y) && !InRect(CropAsWritten(b), b.xMax, y)
    ensures exists x :: 0 <= x < width && Ink(img, x, b.yMax) && !InRect(CropAsWritten(b), x, b.yMax)
    ensures b.xMin == b.xMax ==> CropAsWritten(b).width == 0
  {
  }

  /** A one-pixel signature, the smallest input that shows it. */
  lemma SinglePixelCrop()
    ensures var img := [[0, 0, 0], [0, 7, 0], [0, 0, 0]];
      Rectangular(img, 3, 3) && TightBox(img, 3, 3, Box(1, 1, 1, 1)) &&
      CropAsWritten(Box(1, 1, 1, 1)) == Rect(1, 1, 0, 0)
  {
    var img := [[0, 0, 0], [0, 7, 0], [0, 0, 0]];
    assert Ink(img, 1, 1);
  }

  /** The crop with the inclusive bounds counted: `xMax - xMin + 1` by
      `yMax - yMin + 1`. */
  function Crop(b: Box): (c: Rect)
    ensures c.x == b.xMin && c.y == b.yMin
    ensures b.xMin <= b.xMax && b.yMin <= b.yMax ==> 1 <= c.width && 1 <= c.height
  {
    Rect(b.xMin, b.yMin, b.xMax - b.xMin + 1, b.yMax - b.yMin + 1)
  }

  /** The corrected crop holds every ink pixel, lies within the bitmap and
      is the smallest such rectangle: each of its edges holds ink. */
  lemma CropKeepsAllInk(img: seq<seq<int>>, width: nat, height: nat, b: Box)
    requires Rectangular(img, width, height) && TightBox(img, width, height, b)
    ensures forall x, y :: 0 <= x < width && 0 <= y < height && Ink(img, x, y) ==> InRect(Crop(b), x, y)
    ensures 0 <= Crop(b).x && Crop(b).x + Crop(b).width <= width
    ensures 0 <= Crop(b).y && Crop(b).y + Crop(b).height <= height
    ensures forall c: Rect :: (forall x, y :: 0 <= x < width && 0 <= y < height && Ink(img, x, y) ==> InRect(c, x, y)) ==>
              c.x <= Crop(b).x && Crop(b).x + Crop(b).width <= c.x + c.width &&
              c.y <= Crop(b).y && Crop(b).y + Crop(b).height <= c.y + c.height
  {
    forall c: Rect | forall x, y :: 0 <= x < width && 0 <= y < height && Ink(img, x, y) ==> InRect(c, x, y)
      ensures c.x <= Crop(b).x && Crop(b).x + Crop(b).width <= c.x + c.width
      ensures c.y <= Crop(b).y && Crop(b).y + Crop(b).height <= c.y + c.height
    {
      var y0 :| 0 <= y0 < height && Ink(img, b.xMin, y0);
      var y1 :| 0 <= y1 < height && Ink(img, b.xMax, y1);
      var x0 :| 0 <= x0 < width && Ink(img, x0, b.yMin);
      var x1 :| 0 <= x1 < width && Ink(img, x1, b.yMax);
      assert InRect(c, b.xMin, y0) && InRect(c, b.xMax, y1);
      assert InRect(c, x0, b.yMin) && InRect(c, x1, b.yMax);
    }
  }
}
