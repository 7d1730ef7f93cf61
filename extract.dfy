/** Tight bounding box of the non-white pixels of a grey image
    (crack.py, `get_exactly`). */
module RegionExtract {
  import opened Images

  /** The grey level of the background. */
  const White: int := 255

  /** A PIL crop box: left and top inclusive, right and bottom exclusive. */
  datatype Box = Box(left: int, top: int, right: int, bottom: int)

  predicate Ink(im: Image<int>, x: nat, y: nat)
    requires InBounds(im, x, y)
  {
    At(im, x, y) != White
  }

  predicate ColumnHasInk(im: Image<int>, x: nat)
    requires x < im.width
  {
    exists y: nat | y < im.height :: Ink(im, x, y)
  }

  predicate RowHasInk(im: Image<int>, y: nat)
    requires y < im.height
  {
    exists x: nat | x < im.width :: Ink(im, x, y)
  }

  predicate HasInk(im: Image<int>) {
    exists x: nat, y: nat | x < im.width && y < im.height :: Ink(im, x, y)
  }

  /** Every non-white pixel lies inside the box. */
  predicate Encloses(im: Image<int>, box: Box) {
    forall x: nat, y: nat | x < im.width && y < im.height && Ink(im, x, y) ::
      box.left <= x < box.right && box.top <= y < box.bottom
  }

  /** The box is non-empty, inside the image, encloses all the ink and each
      of its four edges touches some ink. */
  predicate TightAround(im: Image<int>, box: Box) {
    && 0 <= box.left < box.right <= im.width
    && 0 <= box.top < box.bottom <= im.height
    && Encloses(im, box)
    && ColumnHasInk(im, box.left) && ColumnHasInk(im, box.right - 1)
    && RowHasInk(im, box.top) && RowHasInk(im, box.bottom - 1)
  }

  /** `get_exactly(im)`.  Columns are scanned left to right: `imax` becomes
      the last column with ink, `imin` is updated on every column while no ink
      has been seen.  Rows are scanned the same way.  Each edge of the box is
      one past the corresponding index. */
  method GetExactly(im: Image<int>) returns (box: Box)
    ensures HasInk(im) ==> TightAround(im, box)
    ensures !HasInk(im) ==> box == Box(im.width, im.height, 0, 0)
    ensures Encloses(im, box)
  {
    var imin, imax, jmin, jmax := -1, -1, -1, -1;
    var row, col := im.width, im.height;
    var i := 0;
    while i < row
      invariant 0 <= i <= row
      invariant -1 <= imin < i
      invariant forall c: nat | c <= imin :: !ColumnHasInk(im, c)
      invariant imin + 1 < i ==> ColumnHasInk(im, imin + 1)
      invariant -1 <= imax < i
      invariant imax == -1 ==> imin == i - 1
      invariant imax >= 0 ==> ColumnHasInk(im, imax)
      invariant forall c: nat | imax < c < i :: !ColumnHasInk(im, c)
    {
      var j := 0;
      ghost var imax0 := imax;
      while j < col
        invariant 0 <= j <= col
        invariant imax == imax0
        invariant forall k: nat | k < j :: !Ink(im, i, k)
      {
        if At(im, i, j) != White {
          assert Ink(im, i, j);
          imax := i;
          break;
        }
        j := j + 1;
      }
      if imax == -1 {
        imin := i;
      }
      i := i + 1;
    }

    var j := 0;
    while j < col
      invariant 0 <= j <= col
      invariant -1 <= jmin < j
      invariant forall r: nat | r <= jmin :: !RowHasInk(im, r)
      invariant jmin + 1 < j ==> RowHasInk(im, jmin + 1)
      invariant -1 <= jmax < j
      invariant jmax == -1 ==> jmin == j - 1
      invariant jmax >= 0 ==> RowHasInk(im, jmax)
      invariant forall r: nat | jmax < r < j :: !RowHasInk(im, r)
    {
      var i := 0;
      ghost var jmax0 := jmax;
      while i < row
        invariant 0 <= i <= row
        invariant jmax == jmax0
        invariant forall k: nat | k < i :: !Ink(im, k, j)
      {
        if At(im, i, j) != White {
          assert Ink(im, i, j);
          jmax := j;
          break;
        }
        i := i + 1;
      }
      if jmax == -1 {
        jmin := j;
      }
      j := j + 1;
    }
    if HasInk(im) {
      var x: nat, y: nat :| x < im.width && y < im.height && Ink(im, x, y);
      assert ColumnHasInk(im, x) && RowHasInk(im, y);
    }
    forall x: nat, y: nat | x < im.width && y < im.height && Ink(im, x, y)
      ensures imin < x <= imax && jmin < y <= jmax
    {
      assert ColumnHasInk(im, x) && RowHasInk(im, y);
    }
    box := Box(imin + 1, jmin + 1, imax + 1, jmax + 1);
  }

  /** At most one box is tight around the ink of an image, so the box
      `GetExactly` returns is determined by the ink alone. */
  lemma TightBoxUnique(im: Image<int>, b1: Box, b2: Box)
    requires TightAround(im, b1) && TightAround(im, b2)
    ensures b1 == b2
  {
    forall b, b' | b in {b1, b2} && b' in {b1, b2}
      ensures b'.left <= b.left && b.right <= b'.right && b'.top <= b.top && b.bottom <= b'.bottom
    {
      var y1: nat :| y1 < im.height && Ink(im, b.left, y1);
      var y2: nat :| y2 < im.height && Ink(im, b.right - 1, y2);
      var x1: nat :| x1 < im.width && Ink(im, x1, b.top);
      var x2: nat :| x2 < im.width && Ink(im, x2, b.bottom - 1);
    }
  }

  /** An image whose ink is exactly one filled rectangle: the tight box is
      that rectangle. */
  lemma BlockIsTight(im: Image<int>, block: Box)
    requires 0 <= block.left < block.right <= im.width
    requires 0 <= block.top < block.bottom <= im.height
    requires forall x: nat, y: nat | x < im.width && y < im.height ::
      Ink(im, x, y) <==> block.left <= x < block.right && block.top <= y < block.bottom
    ensures HasInk(im)
    ensures TightAround(im, block)
  {
    assert Ink(im, block.left, block.top) && Ink(im, block.right - 1, block.bottom - 1);
    assert Ink(im, block.left, block.bottom - 1) && Ink(im, block.right - 1, block.top);
  }

  /** On an image whose ink is one filled rectangle, the scan returns exactly
      that rectangle. */
  method ScanBlock(im: Image<int>, block: Box) returns (box: Box)
    requires 0 <= block.left < block.right <= im.width
    requires 0 <= block.top < block.bottom <= im.height
    requires forall x: nat, y: nat | x < im.width && y < im.height ::
      Ink(im, x, y) <==> block.left <= x < block.right && block.top <= y < block.bottom
    ensures box == block
  {
    box := GetExactly(im);
    BlockIsTight(im, block);
    TightBoxUnique(im, box, block);
  }
}
