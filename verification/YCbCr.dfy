/**
  Chroma-subsampled images: where each pixel's samples lie, for every rectangle of
  64-bit coordinates, and how sub-images share them.
 */
module YCbCr {
  import opened Bytes
  import opened Words

  const HALF: int := 0x8000_0000_0000_0000

  // Go's division truncates toward zero.
  function Quo(a: int, k: int): int
    requires k > 0
  {
    if a >= 0 then a / k else -((-a) / k)
  }

  datatype Point = Point(x: int64, y: int64)

  datatype Rectangle = Rectangle(min: Point, max: Point) {
    predicate Empty() { min.x >= max.x || min.y >= max.y }

    predicate Contains(p: Point) { min.x <= p.x < max.x && min.y <= p.y < max.y }

    function Intersect(s: Rectangle): Rectangle {
      var x0 := if min.x < s.min.x then s.min.x else min.x;
      var y0 := if min.y < s.min.y then s.min.y else min.y;
      var x1 := if max.x > s.max.x then s.max.x else max.x;
      var y1 := if max.y > s.max.y then s.max.y else max.y;
      var r := Rectangle(Point(x0, y0), Point(x1, y1));
      if r.Empty() then ZR else r
    }
  }

  const ZR: Rectangle := Rectangle(Point(0, 0), Point(0, 0))

  /** Intersect is intersection of sets of points. */
  lemma IntersectIsIntersection(r: Rectangle, s: Rectangle, p: Point)
    ensures r.Intersect(s).Contains(p) <==> r.Contains(p) && s.Contains(p)
  {
  }

  datatype Ratio = Ratio444 | Ratio422 | Ratio420 | Ratio440 | Ratio411 | Ratio410

  // How many pixels share a chroma sample, across and down.
  function Across(s: Ratio): (k: int)
    ensures k in {1, 2, 4}
  {
    if s.Ratio422? || s.Ratio420? then 2 else if s.Ratio411? || s.Ratio410? then 4 else 1
  }

  function Down(s: Ratio): (k: int)
    ensures k in {1, 2}
  {
    if s.Ratio420? || s.Ratio440? || s.Ratio410? then 2 else 1
  }

  // An image's slices, as positions in the memory of the image it was first made from.
  datatype Image = Image(y: int, yLen: int, c: int, cLen: int, yStride: int, cStride: int, ratio: Ratio, rect: Rectangle) {
    function YOffset(p: Point): int { (p.y - rect.min.y) * yStride + (p.x - rect.min.x) }

    function COffset(p: Point): int {
      var min := rect.min;
      match ratio
      case Ratio422 => (p.y - min.y) * cStride + (Quo(p.x, 2) - Quo(min.x, 2))
      case Ratio420 => (Quo(p.y, 2) - Quo(min.y, 2)) * cStride + (Quo(p.x, 2) - Quo(min.x, 2))
      case Ratio440 => (Quo(p.y, 2) - Quo(min.y, 2)) * cStride + (p.x - min.x)
      case Ratio411 => (p.y - min.y) * cStride + (Quo(p.x, 4) - Quo(min.x, 4))
      case Ratio410 => (Quo(p.y, 2) - Quo(min.y, 2)) * cStride + (Quo(p.x, 4) - Quo(min.x, 4))
      case Ratio444 => (p.y - min.y) * cStride + (p.x - min.x)
    }

    // Where a pixel's samples are.
    function YAddress(p: Point): int { y + YOffset(p) }

    function CAddress(p: Point): int { c + COffset(p) }

    predicate Readable(p: Point) { 0 <= YOffset(p) < yLen && 0 <= COffset(p) < cLen }

    ghost predicate Sound() {
      && 0 <= yStride && 0 <= cStride
      && forall p :: rect.Contains(p) ==> Readable(p)
    }

    // None stands for a slice expression out of range.
    function SubImage(r: Rectangle): Option<Image> {
      var s := r.Intersect(rect);
      if s.Empty() then Some(Image(0, 0, 0, 0, 0, 0, ratio, ZR))
      else
        var yi, ci := YOffset(s.min), COffset(s.min);
        if 0 <= yi <= yLen && 0 <= ci <= cLen then
          Some(Image(y + yi, yLen - yi, c + ci, cLen - ci, yStride, cStride, ratio, s))
        else None
    }
  }

  // ---------------------------------------------------------------- making an image

  // The width and height of both planes, as computed in 64-bit arithmetic.
  function Sizes(r: Rectangle, s: Ratio): (int64, int64, int64, int64) {
    var w, h := Wrap(r.max.x - r.min.x), Wrap(r.max.y - r.min.y);
    var cx2 := Wrap(Quo(Wrap(r.max.x + 1), 2) - Quo(r.min.x, 2));
    var cx4 := Wrap(Quo(Wrap(r.max.x + 3), 4) - Quo(r.min.x, 4));
    var cy2 := Wrap(Quo(Wrap(r.max.y + 1), 2) - Quo(r.min.y, 2));
    match s
    case Ratio422 => (w, h, cx2, h)
    case Ratio420 => (w, h, cx2, cy2)
    case Ratio440 => (w, h, w, cy2)
    case Ratio411 => (w, h, cx4, h)
    case Ratio410 => (w, h, cx4, cy2)
    case Ratio444 => (w, h, w, h)
  }

  // The product, or -1 if an argument is negative or it does not fit.
  function Mul3NonNeg(x: int64, y: int64, z: int64): int64 {
    if x < 0 || y < 0 || z < 0 then -1
    else
      var (hi, lo) := Mul64(x, y);
      if hi != 0 then -1
      else
        var (hi', lo') := Mul64(lo, z);
        if hi' != 0 then -1
        else
          var a := Wrap(lo');
          if a < 0 || a != lo' then -1 else a
  }

  function Add2NonNeg(x: int64, y: int64): int64 {
    if x < 0 || y < 0 then -1 else (var a := Wrap(x + y); if a < 0 then -1 else a)
  }

  // None stands for the panic on huge or negative dimensions.
  function NewYCbCr(r: Rectangle, s: Ratio): Option<Image> {
    var (w, h, cw, ch) := Sizes(r, s);
    var total := Add2NonNeg(Mul3NonNeg(1, w, h), Mul3NonNeg(2, cw, ch));
    if total < 0 then None
    else
      var i0, i1 := Wrap(Wrap(w * h) + 0), Wrap(Wrap(w * h) + Wrap(cw * ch));
      Some(Image(0, i0, i0, i1 - i0, w, cw, s, r))
  }

  /**
    The product, exactly when no factor is negative, it fits an int, and the product of
    the first two fits 64 bits: a last factor of zero does not help past that.
   */
  lemma Mul3IsExact(x: int64, y: int64, z: int64)
    ensures
      var m := Mul3NonNeg(x, y, z);
      if x >= 0 && y >= 0 && z >= 0 && x * y < W && x * y * z <= MAX_INT then m == x * y * z else m == -1
  {
    if x >= 0 && y >= 0 && z >= 0 {
      HighWord(x, y);
      var lo := Mul64(x, y).1;
      hide Mul64;
      if Mul64(x, y).0 == 0 {
        HighWord(lo, z);
        MulMono(0, lo, z);
        WrapIs(lo * z);
      }
    }
  }

  lemma HighWord(x: u64, y: u64)
    ensures x * y < W <==> Mul64(x, y).0 == 0
    ensures Mul64(x, y).0 == 0 ==> Mul64(x, y).1 == x * y
  {
  }

  /** Without a bound on the first factor that is not "iff the product fits". */
  lemma Mul3CanReject(x: int64)
    requires x == 0x2_0000_0000
    ensures Mul3NonNeg(x, x, 0) == -1 && x * x * 0 == 0
  {
    Mul3IsExact(x, x, 0);
  }

  lemma Add2IsExact(x: int64, y: int64)
    ensures
      var a := Add2NonNeg(x, y);
      if x >= 0 && y >= 0 && x + y <= MAX_INT then a == x + y else a == -1
  {
  }

  // ---------------------------------------------------------------- samples in range

  lemma QuoMonotone(a: int, b: int, k: int)
    requires a <= b && k in {1, 2, 4}
    ensures Quo(a, k) <= Quo(b, k) && Quo(a, 1) == a
  {
  }

  // The number of samples across or down, and whether the last pixel's sample is one of
  // them: truncation folds the pixels next to zero from below onto those above it.
  lemma LastSample(lo: int64, hi: int64, k: int)
    requires lo < hi && k in {1, 2, 4}
    ensures
      var n := Quo(hi + k - 1, k) - Quo(lo, k);
      var last := Quo(hi - 1, k) - Quo(lo, k);
      && 0 <= last <= n
      && (last < n <==> !(1 - k < hi <= 0 && k > 1))
  {
    QuoMonotone(lo, hi - 1, k);
  }

  predicate Straddles(hi: int64, k: int) { k > 1 && 1 - k < hi <= 0 }

  // The chroma sample of a pixel: its column and row.
  function Column(p: Point, image: Image): int {
    Quo(p.x, Across(image.ratio)) - Quo(image.rect.min.x, Across(image.ratio))
  }

  function Row(p: Point, image: Image): int {
    Quo(p.y, Down(image.ratio)) - Quo(image.rect.min.y, Down(image.ratio))
  }

  lemma COffsetOf(image: Image, p: Point)
    ensures image.COffset(p) == Row(p, image) * image.cStride + Column(p, image)
  {
  }

  // Samples of one plane along one axis.
  function Count(lo: int, hi: int, k: int): int
    requires k > 0
  {
    Quo(hi + k - 1, k) - Quo(lo, k)
  }

  lemma WrapIs(x: int)
    ensures -HALF <= x < HALF ==> Wrap(x) == x
    ensures HALF <= x < 3 * HALF ==> Wrap(x) == x - 2 * HALF
  {
  }

  lemma QuoBound(a: int)
    ensures Quo(a, 1) == a && a - 2 < 2 * Quo(a, 2) < a + 2 && a - 4 < 4 * Quo(a, 4) < a + 4
  {
  }

  // The count as computed; one that passes the check has not overflowed.
  function Computed(lo: int64, hi: int64, k: int): int64
    requires k > 0
  {
    Wrap(Quo(Wrap(hi + k - 1), k) - Quo(lo, k))
  }

  lemma WidthIsExact(lo: int64, hi: int64)
    requires lo < hi && Wrap(hi - lo) >= 0
    ensures Wrap(hi - lo) == hi - lo == Count(lo, hi, 1)
  {
    hide Wrap, Quo;
    QuoBound(hi);
    QuoBound(lo);
    WrapIs(hi - lo);
  }

  lemma CountIsExact(lo: int64, hi: int64, k: int)
    requires lo < hi && hi - lo < HALF && k in {1, 2, 4}
    ensures if hi + k - 1 <= MAX_INT then Computed(lo, hi, k) == Count(lo, hi, k) else Computed(lo, hi, k) < 0
  {
    hide Wrap, Quo;
    NoOverflow(lo, hi, hi + k - 1, k);
  }

  lemma NoOverflow(lo: int64, hi: int64, m: int, k: int)
    requires lo < hi && hi - lo < HALF && k in {1, 2, 4} && m == hi + k - 1
    ensures
      var n := Wrap(Quo(Wrap(m), k) - Quo(lo, k));
      if m < HALF then n == Quo(m, k) - Quo(lo, k) else n < 0
  {
    hide Wrap, Quo;
    WrapIs(m);
    QuoBound(lo);
    if m < HALF {
      QuoBound(m);
      WrapIs(Quo(m, k) - Quo(lo, k));
    } else {
      QuoBound(m - 2 * HALF);
      WrapIs(Quo(m - 2 * HALF, k) - Quo(lo, k));
    }
  }

  lemma SizesAreExact(r: Rectangle, s: Ratio)
    requires !r.Empty()
    ensures
      var (w, h, cw, ch) := Sizes(r, s);
      w >= 0 && h >= 0 && cw >= 0 && ch >= 0 ==>
        && w == Count(r.min.x, r.max.x, 1) && h == Count(r.min.y, r.max.y, 1)
        && cw == Count(r.min.x, r.max.x, Across(s)) && ch == Count(r.min.y, r.max.y, Down(s))
  {
    hide Wrap, Quo, Count;
    var (w, h, cw, ch) := Sizes(r, s);
    if w >= 0 && h >= 0 {
      WidthIsExact(r.min.x, r.max.x);
      WidthIsExact(r.min.y, r.max.y);
      CountIsExact(r.min.x, r.max.x, Across(s));
      CountIsExact(r.min.y, r.max.y, Down(s));
    }
  }

  /** An image that could be made has planes of exactly the sizes its rectangle needs. */
  lemma NewIsExact(r: Rectangle, s: Ratio)
    requires !r.Empty() && NewYCbCr(r, s).Some?
    ensures
      var p := NewYCbCr(r, s).value;
      && p.rect == r && p.ratio == s && p.y == 0 && p.c == p.yLen
      && p.yStride == Count(r.min.x, r.max.x, 1) && p.cStride == Count(r.min.x, r.max.x, Across(s)) >= 0
      && p.yLen == p.yStride * Count(r.min.y, r.max.y, 1)
      && p.cLen == p.cStride * Count(r.min.y, r.max.y, Down(s))
  {
    hide Sizes, Mul3NonNeg, Add2NonNeg, Count, Quo, Wrap;
    var (w, h, cw, ch) := Sizes(r, s);
    SizesAreExact(r, s);
    TotalFits(w, h, cw, ch);
    WrapIs(w * h);
    WrapIs(cw * ch);
    WrapIs(w * h + cw * ch);
  }

  lemma TotalFits(w: int64, h: int64, cw: int64, ch: int64)
    requires Add2NonNeg(Mul3NonNeg(1, w, h), Mul3NonNeg(2, cw, ch)) >= 0
    ensures w >= 0 && h >= 0 && cw >= 0 && ch >= 0
    ensures 0 <= w * h && 0 <= cw * ch && w * h + 2 * (cw * ch) <= MAX_INT
  {
    hide Mul3NonNeg, Add2NonNeg;
    Mul3IsExact(1, w, h);
    Mul3IsExact(2, cw, ch);
    Add2IsExact(Mul3NonNeg(1, w, h), Mul3NonNeg(2, cw, ch));
    Assoc(2, cw, ch);
    MulMono(0, w, if h >= 0 then h else 0);
    MulMono(0, cw, if ch >= 0 then ch else 0);
  }

  /** Exactly the rectangles whose edges, planes and total size fit an int make an image;
      for any other NewYCbCr panics. */
  lemma NewSucceeds(r: Rectangle, s: Ratio)
    requires !r.Empty()
    ensures
      var w, h := r.max.x - r.min.x, r.max.y - r.min.y;
      var cw, ch := Count(r.min.x, r.max.x, Across(s)), Count(r.min.y, r.max.y, Down(s));
      NewYCbCr(r, s).Some? <==>
        && w <= MAX_INT && h <= MAX_INT && r.max.x + Across(s) - 1 <= MAX_INT && r.max.y + Down(s) - 1 <= MAX_INT
        && w * h + 2 * (cw * ch) <= MAX_INT
  {
    hide Sizes, Mul3NonNeg, Add2NonNeg, Count, Quo, Wrap;
    SizesFit(r, s);
    var (w, h, cw, ch) := Sizes(r, s);
    TotalIs(w, h, cw, ch);
    hide *;
    NewIsTotal(r, s);
  }

  lemma NewIsTotal(r: Rectangle, s: Ratio)
    ensures
      var (w, h, cw, ch) := Sizes(r, s);
      NewYCbCr(r, s).Some? <==> Add2NonNeg(Mul3NonNeg(1, w, h), Mul3NonNeg(2, cw, ch)) >= 0
  {
  }

  lemma SizesFit(r: Rectangle, s: Ratio)
    requires !r.Empty()
    ensures
      var fits :=
        && r.max.x - r.min.x <= MAX_INT && r.max.y - r.min.y <= MAX_INT
        && r.max.x + Across(s) - 1 <= MAX_INT && r.max.y + Down(s) - 1 <= MAX_INT;
      var (w, h, cw, ch) := Sizes(r, s);
      && (w >= 0 && h >= 0 && cw >= 0 && ch >= 0 <==> fits)
      && (fits ==>
            && w == r.max.x - r.min.x && h == r.max.y - r.min.y
            && cw == Count(r.min.x, r.max.x, Across(s)) && ch == Count(r.min.y, r.max.y, Down(s)))
  {
    hide Wrap, Quo, Count;
    WrapIs(r.max.x - r.min.x);
    WrapIs(r.max.y - r.min.y);
    if r.max.x - r.min.x <= MAX_INT && r.max.y - r.min.y <= MAX_INT {
      WidthIsExact(r.min.x, r.max.x);
      WidthIsExact(r.min.y, r.max.y);
      CountIsExact(r.min.x, r.max.x, Across(s));
      CountIsExact(r.min.y, r.max.y, Down(s));
      WithinAxis(r.min.x, r.min.x, r.max.x, Across(s));
      WithinAxis(r.min.y, r.min.y, r.max.y, Down(s));
    }
  }

  lemma TotalIs(w: int64, h: int64, cw: int64, ch: int64)
    ensures Add2NonNeg(Mul3NonNeg(1, w, h), Mul3NonNeg(2, cw, ch)) >= 0 <==>
      w >= 0 && h >= 0 && cw >= 0 && ch >= 0 && w * h + 2 * (cw * ch) <= MAX_INT
  {
    hide Mul3NonNeg, Add2NonNeg;
    Mul3IsExact(1, w, h);
    Mul3IsExact(2, cw, ch);
    Add2IsExact(Mul3NonNeg(1, w, h), Mul3NonNeg(2, cw, ch));
    Assoc(2, cw, ch);
    if w >= 0 && h >= 0 && cw >= 0 && ch >= 0 {
      MulMono(0, w, h);
      MulMono(0, cw, ch);
    }
  }

  lemma InGrid(row: int, column: int, width: int, height: int)
    requires 0 <= row < height && 0 <= column < width
    ensures 0 <= row * width + column < width * height
  {
    MulMono(row + 1, height, width);
    MulMono(0, row, width);
    Dist(row, 1, width);
    Comm(height, width);
  }

  lemma PastGrid(row: int, column: int, width: int, height: int)
    requires 0 <= row <= height && 0 <= column <= width
    requires row >= height - 1 && column >= width - 1 && (row == height || column == width)
    ensures row * width + column >= width * height
  {
    if row == height {
      Comm(height, width);
    } else {
      Dist(height, -1, width);
      Comm(height, width);
    }
  }

  // The right column and the bottom row of a rectangle have samples of their own.
  predicate Fits(r: Rectangle, s: Ratio) { !Straddles(r.max.x, Across(s)) && !Straddles(r.max.y, Down(s)) }

  lemma WithinAxis(lo: int64, x: int64, hi: int64, k: int)
    requires lo <= x < hi && k in {1, 2, 4}
    ensures 0 <= Quo(x, k) - Quo(lo, k) <= Count(lo, hi, k)
    ensures !Straddles(hi, k) ==> Quo(x, k) - Quo(lo, k) < Count(lo, hi, k)
    ensures x == hi - 1 ==> Quo(x, k) - Quo(lo, k) >= Count(lo, hi, k) - 1
    ensures x == hi - 1 && Straddles(hi, k) ==> Quo(x, k) - Quo(lo, k) == Count(lo, hi, k)
    ensures Count(lo, hi, 1) == hi - lo
  {
    LastSample(lo, hi, k);
    QuoMonotone(lo, x, k);
    QuoMonotone(x, hi - 1, k);
    QuoMonotone(lo, lo, 1);
  }

  /** A pixel of a new image has its luma sample, and its chroma sample if the image fits. */
  lemma PixelIsReadable(r: Rectangle, s: Ratio, p: Point)
    requires !r.Empty() && NewYCbCr(r, s).Some? && r.Contains(p)
    ensures 0 <= NewYCbCr(r, s).value.YOffset(p) < NewYCbCr(r, s).value.yLen
    ensures Fits(r, s) ==> NewYCbCr(r, s).value.Readable(p)
  {
    hide NewYCbCr, Quo, Count;
    NewIsExact(r, s);
    var image := NewYCbCr(r, s).value;
    WithinAxis(r.min.x, p.x, r.max.x, Across(s));
    WithinAxis(r.min.y, p.y, r.max.y, Down(s));
    InGrid(p.y - r.min.y, p.x - r.min.x, image.yStride, Count(r.min.y, r.max.y, 1));
    COffsetOf(image, p);
    if Fits(r, s) {
      InGrid(Row(p, image), Column(p, image), image.cStride, Count(r.min.y, r.max.y, Down(s)));
    }
  }

  /** Division as Go defines it: the quotient is the exact one, cut off toward zero. */
  lemma QuoTruncates(a: int, k: int)
    requires k > 0
    ensures
      var rest := a - k * Quo(a, k);
      -k < rest < k && (a >= 0 ==> rest >= 0) && (a <= 0 ==> rest <= 0)
  {
    if a < 0 {
      var q := (-a) / k;
      assert k * (-q) == -(k * q);
    }
  }

  // A place in a grid has one row and one column.
  lemma OnePlace(row: int, column: int, row': int, column': int, width: int)
    requires 0 <= column < width && 0 <= column' < width
    requires row * width + column == row' * width + column'
    ensures row == row' && column == column'
  {
    Dist(row, -row', width);
    if row > row' {
      MulMono(1, row - row', width);
    } else if row < row' {
      MulMono(1, row' - row, width);
      Dist(row', -row, width);
    }
  }

  /** No two pixels share a luma sample. */
  lemma LumaIsDistinct(r: Rectangle, s: Ratio, p: Point, q: Point)
    requires !r.Empty() && NewYCbCr(r, s).Some? && r.Contains(p) && r.Contains(q)
    ensures NewYCbCr(r, s).value.YOffset(p) == NewYCbCr(r, s).value.YOffset(q) ==> p == q
  {
    hide NewYCbCr, Quo, Count;
    NewIsExact(r, s);
    var image := NewYCbCr(r, s).value;
    WithinAxis(r.min.x, p.x, r.max.x, 1);
    if image.YOffset(p) == image.YOffset(q) {
      OnePlace(p.y - r.min.y, p.x - r.min.x, q.y - r.min.y, q.x - r.min.x, image.yStride);
    }
  }

  // The pixels that share a chroma sample, by the subsampling ratio.
  predicate SameBlock(s: Ratio, p: Point, q: Point) {
    match s
    case Ratio444 => p == q
    case Ratio422 => Quo(p.x, 2) == Quo(q.x, 2) && p.y == q.y
    case Ratio420 => Quo(p.x, 2) == Quo(q.x, 2) && Quo(p.y, 2) == Quo(q.y, 2)
    case Ratio440 => p.x == q.x && Quo(p.y, 2) == Quo(q.y, 2)
    case Ratio411 => Quo(p.x, 4) == Quo(q.x, 4) && p.y == q.y
    case Ratio410 => Quo(p.x, 4) == Quo(q.x, 4) && Quo(p.y, 2) == Quo(q.y, 2)
  }

  /** Two pixels share a chroma sample exactly when they are in the same block. */
  lemma ChromaIsShared(r: Rectangle, s: Ratio, p: Point, q: Point)
    requires !r.Empty() && NewYCbCr(r, s).Some? && Fits(r, s) && r.Contains(p) && r.Contains(q)
    ensures NewYCbCr(r, s).value.COffset(p) == NewYCbCr(r, s).value.COffset(q) <==> SameBlock(s, p, q)
  {
    hide NewYCbCr, Quo, Count;
    NewIsExact(r, s);
    var image := NewYCbCr(r, s).value;
    WithinAxis(r.min.x, p.x, r.max.x, Across(s));
    WithinAxis(r.min.x, q.x, r.max.x, Across(s));
    COffsetOf(image, p);
    COffsetOf(image, q);
    QuoBound(p.x);
    QuoBound(p.y);
    QuoBound(q.x);
    QuoBound(q.y);
    if image.COffset(p) == image.COffset(q) {
      OnePlace(Row(p, image), Column(p, image), Row(q, image), Column(q, image), image.cStride);
    }
  }

  /** Neither plane is larger than it has to be: the last pixel has the last samples. */
  lemma CornerIsLast(r: Rectangle, s: Ratio)
    requires !r.Empty() && NewYCbCr(r, s).Some? && Fits(r, s)
    ensures
      var image, corner := NewYCbCr(r, s).value, Point(r.max.x - 1, r.max.y - 1);
      image.YOffset(corner) == image.yLen - 1 && image.COffset(corner) == image.cLen - 1
  {
    hide NewYCbCr, Quo, Count;
    NewIsExact(r, s);
    var image, p := NewYCbCr(r, s).value, Point(r.max.x - 1, r.max.y - 1);
    WithinAxis(r.min.x, p.x, r.max.x, Across(s));
    WithinAxis(r.min.y, p.y, r.max.y, Down(s));
    COffsetOf(image, p);
    LastPlace(Row(p, image), Column(p, image), image.cStride, Count(r.min.y, r.max.y, Down(s)));
    LastPlace(p.y - r.min.y, p.x - r.min.x, image.yStride, Count(r.min.y, r.max.y, 1));
  }

  lemma LastPlace(row: int, column: int, width: int, height: int)
    requires row == height - 1 && column == width - 1
    ensures row * width + column == width * height - 1
  {
    Dist(height, -1, width);
    Comm(height, width);
  }

  // Otherwise its last pixel has no chroma sample.
  lemma CornerIsUnreadable(r: Rectangle, s: Ratio)
    requires !r.Empty() && NewYCbCr(r, s).Some? && !Fits(r, s)
    ensures
      var corner := Point(r.max.x - 1, r.max.y - 1);
      r.Contains(corner) && NewYCbCr(r, s).value.COffset(corner) >= NewYCbCr(r, s).value.cLen
  {
    hide NewYCbCr, Quo, Count;
    NewIsExact(r, s);
    var image := NewYCbCr(r, s).value;
    var p := Point(r.max.x - 1, r.max.y - 1);
    WithinAxis(r.min.x, p.x, r.max.x, Across(s));
    WithinAxis(r.min.y, p.y, r.max.y, Down(s));
    COffsetOf(image, p);
    PastGrid(Row(p, image), Column(p, image), image.cStride, Count(r.min.y, r.max.y, Down(s)));
  }

  /**
    Every pixel of a new image can be read exactly when neither edge straddles zero, for
    any rectangle of 64-bit coordinates: with none negative it always can.
   */
  lemma NewIsSound(r: Rectangle, s: Ratio)
    requires !r.Empty() && NewYCbCr(r, s).Some?
    ensures NewYCbCr(r, s).value.Sound() <==> Fits(r, s)
    ensures r.min.x >= 0 && r.min.y >= 0 ==> Fits(r, s)
  {
    hide NewYCbCr, Count;
    NewIsExact(r, s);
    var image := NewYCbCr(r, s).value;
    WithinAxis(r.min.x, r.min.x, r.max.x, 1);
    if Fits(r, s) {
      forall p | r.Contains(p)
        ensures image.Readable(p)
      {
        PixelIsReadable(r, s, p);
      }
    } else {
      CornerIsUnreadable(r, s);
      var corner := Point(r.max.x - 1, r.max.y - 1);
      assert !image.Readable(corner);
    }
  }

  /** Two by two pixels up and left of zero: the last of them has no chroma sample. */
  lemma CornerAtZero(r: Rectangle)
    requires r == Rectangle(Point(-2, -2), Point(0, 0))
    ensures NewYCbCr(r, Ratio420).Some? && !Fits(r, Ratio420)
    ensures r.Contains(Point(-1, -1)) && !NewYCbCr(r, Ratio420).value.Readable(Point(-1, -1))
  {
    Mul3IsExact(1, 2, 2);
    Mul3IsExact(2, 1, 1);
    Add2IsExact(4, 2);
    assert Sizes(r, Ratio420) == (2, 2, 1, 1);
    hide Sizes, Mul3NonNeg, Add2NonNeg;
    assert NewYCbCr(r, Ratio420).Some?;
    CornerIsUnreadable(r, Ratio420);
  }

  // ---------------------------------------------------------------- sub-images

  // A sub-image reads every pixel it has where the image does.
  lemma SubImageShares(image: Image, r: Rectangle)
    requires image.Sound()
    ensures image.SubImage(r).Some?
    ensures
      var sub := image.SubImage(r).value;
      sub.Sound() && forall p :: sub.rect.Contains(p) <==> r.Contains(p) && image.rect.Contains(p)
    ensures
      var sub := image.SubImage(r).value;
      forall p :: sub.rect.Contains(p) ==> sub.YAddress(p) == image.YAddress(p) && sub.CAddress(p) == image.CAddress(p)
  {
    var s := r.Intersect(image.rect);
    forall p
      ensures s.Contains(p) <==> r.Contains(p) && image.rect.Contains(p)
    {
      IntersectIsIntersection(r, image.rect, p);
    }
    if !s.Empty() {
      assert s.Contains(s.min);
      assert image.Readable(s.min);
      var sub := image.SubImage(r).value;
      forall p | s.Contains(p)
        ensures sub.YAddress(p) == image.YAddress(p) && sub.CAddress(p) == image.CAddress(p) && sub.Readable(p)
      {
        assert image.Readable(p);
        SameSamples(image, sub, p);
      }
    }
  }

  // Offsets from one corner and then from another add up.
  lemma SameSamples(image: Image, sub: Image, p: Point)
    requires sub.yStride == image.yStride >= 0 && sub.cStride == image.cStride >= 0 && sub.ratio == image.ratio
    requires sub.rect.min.x <= p.x && sub.rect.min.y <= p.y
    ensures sub.YOffset(p) + image.YOffset(sub.rect.min) == image.YOffset(p) && sub.YOffset(p) >= 0
    ensures sub.COffset(p) + image.COffset(sub.rect.min) == image.COffset(p) && sub.COffset(p) >= 0
  {
    var m, k, n := sub.rect.min, Across(image.ratio), Down(image.ratio);
    COffsetOf(image, p);
    COffsetOf(sub, p);
    COffsetOf(image, m);
    QuoMonotone(m.x, p.x, k);
    QuoMonotone(m.y, p.y, n);
    hide Quo;
    Dist(p.y - m.y, m.y - image.rect.min.y, image.yStride);
    Dist(Row(p, sub), Row(m, image), image.cStride);
    MulMono(0, p.y - m.y, image.yStride);
    MulMono(0, Row(p, sub), image.cStride);
  }

  function SubImages(image: Image, rs: seq<Rectangle>): Option<Image>
    decreases |rs|
  {
    if rs == [] then Some(image)
    else
      var sub := image.SubImage(rs[0]);
      if sub.None? then None else SubImages(sub.value, rs[1..])
  }

  /** Through any chain of sub-images, the pixels left are read where they always were. */
  lemma {:induction false} SubImagesShare(image: Image, rs: seq<Rectangle>)
    requires image.Sound()
    ensures SubImages(image, rs).Some?
    ensures
      var last := SubImages(image, rs).value;
      last.Sound() && forall p :: last.rect.Contains(p) <==>
        (image.rect.Contains(p) && forall i :: 0 <= i < |rs| ==> rs[i].Contains(p))
    ensures
      var last := SubImages(image, rs).value;
      forall p :: last.rect.Contains(p) ==> last.YAddress(p) == image.YAddress(p) && last.CAddress(p) == image.CAddress(p)
    decreases |rs|
  {
    if rs != [] {
      SubImageShares(image, rs[0]);
      SubImagesShare(image.SubImage(rs[0]).value, rs[1..]);
    }
  }
}
