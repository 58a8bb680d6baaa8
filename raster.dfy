/** The raster buffer model shared by every transform of the workbench.

    A raster is a grid of 8-bit samples: a single-channel plane, or a grid of
    R, G, B triples. The source keeps both in NumPy arrays and tells them apart
    by the rank of the array; here the two cases are the constructors of
    `Image`. This module also holds the few OpenCV primitives that several
    transforms share: saturation, binary thresholding, inclusive range masks
    and resampling of the secondary operand of a two-image operation. */
module Raster {

  /** An 8-bit unsigned sample. */
  type Byte = x: int | 0 <= x <= 255

  datatype Rgb = Rgb(r: Byte, g: Byte, b: Byte)

  /** Grayscale rasters have shape (H, W); color rasters (H, W, 3), channel order R, G, B. */
  datatype Image = Gray(plane: seq<seq<Byte>>) | Color(pixels: seq<seq<Rgb>>)

  /** The outcome of a transform that may raise. */
  datatype Result<T> = Ok(value: T) | Err(msg: string)

  datatype Option<T> = None | Some(value: T)

  // ---------------------------------------------------------------------------
  // Saturation

  /** Saturating conversion to 8 bits (cv2.add / cv2.subtract / np.clip on integers). */
  function Clamp(x: int): (r: Byte)
    ensures 0 <= x <= 255 ==> r == x
    ensures x < 0 ==> r == 0
    ensures x > 255 ==> r == 255
  {
    if x < 0 then 0 else if x > 255 then 255 else x
  }

  /** `np.clip(x, 0, 255).astype(np.uint8)` on an exact real: clip, then truncate. */
  function ClipFloor(x: real): (r: Byte)
    ensures 0.0 <= x <= 255.0 ==> r as real <= x < r as real + 1.0
    ensures x < 0.0 ==> r == 0
    ensures x > 255.0 ==> r == 255
  {
    if x < 0.0 then 0 else if x > 255.0 then 255 else x.Floor
  }

  lemma ClampIsMonotone(x: int, y: int)
    requires x <= y
    ensures Clamp(x) <= Clamp(y)
  {
  }

  // ---------------------------------------------------------------------------
  // Grids

  /** Row-by-row equal dimensions. */
  predicate SameShape<A, B>(a: seq<seq<A>>, b: seq<seq<B>>)
  {
    |a| == |b| && forall i :: 0 <= i < |a| ==> |a[i]| == |b[i]|
  }

  /** Every row has the width of the first one, as in any NumPy array. */
  predicate IsRect<T>(g: seq<seq<T>>)
  {
    forall i :: 0 <= i < |g| ==> |g[i]| == |g[0]|
  }

  function Width<T>(g: seq<seq<T>>): nat
  {
    if |g| == 0 then 0 else |g[0]|
  }

  function Height(img: Image): nat
  {
    match img
    case Gray(p) => |p|
    case Color(c) => |c|
  }

  function ImageWidth(img: Image): nat
  {
    match img
    case Gray(p) => Width(p)
    case Color(c) => Width(c)
  }

  predicate IsRaster(img: Image)
  {
    match img
    case Gray(p) => IsRect(p)
    case Color(c) => IsRect(c)
  }

  /** A grid of the given dimensions, every cell holding `x`. */
  function Filled<T>(h: nat, w: nat, x: T): (r: seq<seq<T>>)
    ensures |r| == h && IsRect(r) && Width(r) == (if h == 0 then 0 else w)
    ensures forall i :: 0 <= i < h ==> |r[i]| == w
    ensures forall i, j :: 0 <= i < h && 0 <= j < w ==> r[i][j] == x
  {
    seq(h, i => seq(w, j => x))
  }

  /** Elementwise map over a grid (a NumPy ufunc applied to one array). */
  function MapGrid<A, B>(g: seq<seq<A>>, f: A -> B): (r: seq<seq<B>>)
    ensures SameShape(r, g)
    ensures forall i, j :: 0 <= i < |g| && 0 <= j < |g[i]| ==> r[i][j] == f(g[i][j])
  {
    seq(|g|, i requires 0 <= i < |g| => seq(|g[i]|, j requires 0 <= j < |g[i]| => f(g[i][j])))
  }

  /** Elementwise combination of two grids of the same shape. */
  function ZipGrid<A, B, C>(a: seq<seq<A>>, b: seq<seq<B>>, f: (A, B) -> C): (r: seq<seq<C>>)
    requires SameShape(a, b)
    ensures SameShape(r, a)
    ensures forall i, j :: 0 <= i < |a| && 0 <= j < |a[i]| ==> r[i][j] == f(a[i][j], b[i][j])
  {
    seq(|a|, i requires 0 <= i < |a| =>
      seq(|a[i]|, j requires 0 <= j < |a[i]| => f(a[i][j], b[i][j])))
  }

  /** One channel of a color grid (cv2.split). */
  function Channel(c: seq<seq<Rgb>>, ch: nat): (r: seq<seq<Byte>>)
    requires ch < 3
    ensures SameShape(r, c)
    ensures forall i, j :: 0 <= i < |c| && 0 <= j < |c[i]| ==>
      r[i][j] == (if ch == 0 then c[i][j].r else if ch == 1 then c[i][j].g else c[i][j].b)
  {
    MapGrid(c, (p: Rgb) => if ch == 0 then p.r else if ch == 1 then p.g else p.b)
  }

  /** Three planes of one shape merged into a color grid (cv2.merge). */
  function Merge(r: seq<seq<Byte>>, g: seq<seq<Byte>>, b: seq<seq<Byte>>): (c: seq<seq<Rgb>>)
    requires SameShape(r, g) && SameShape(r, b)
    ensures SameShape(c, r)
    ensures forall i, j :: 0 <= i < |r| && 0 <= j < |r[i]| ==> c[i][j] == Rgb(r[i][j], g[i][j], b[i][j])
  {
    seq(|r|, i requires 0 <= i < |r| =>
      seq(|r[i]|, j requires 0 <= j < |r[i]| => Rgb(r[i][j], g[i][j], b[i][j])))
  }

  // ---------------------------------------------------------------------------
  // Samples of an image, addressed by row, column and channel

  /** Row `i`, column `j` and channel `ch` (0 for a gray raster; 0, 1, 2 = R, G, B
      for a color one) address a sample of `img`. */
  predicate ValidPos(img: Image, i: int, j: int, ch: int)
  {
    match img
    case Gray(p) => 0 <= i < |p| && 0 <= j < |p[i]| && ch == 0
    case Color(c) => 0 <= i < |c| && 0 <= j < |c[i]| && 0 <= ch < 3
  }

  function SampleAt(img: Image, i: int, j: int, ch: int): Byte
    requires ValidPos(img, i, j, ch)
  {
    match img
    case Gray(p) => p[i][j]
    case Color(c) => if ch == 0 then c[i][j].r else if ch == 1 then c[i][j].g else c[i][j].b
  }

  /** Same kind (gray or color) and same row-by-row dimensions. */
  predicate SameGeometry(a: Image, b: Image)
  {
    match (a, b)
    case (Gray(x), Gray(y)) => SameShape(x, y)
    case (Color(x), Color(y)) => SameShape(x, y)
    case _ => false
  }

  lemma SameGeometryPos(a: Image, b: Image, i: int, j: int, ch: int)
    requires SameGeometry(a, b)
    ensures ValidPos(a, i, j, ch) <==> ValidPos(b, i, j, ch)
  {
  }

  /** Two images of the same geometry that agree on every sample are equal. */
  lemma SamplesExt(a: Image, b: Image)
    requires SameGeometry(a, b)
    requires forall i, j, ch :: ValidPos(a, i, j, ch) ==> SampleAt(a, i, j, ch) == SampleAt(b, i, j, ch)
    ensures a == b
  {
    match (a, b)
    case (Gray(x), Gray(y)) =>
      forall i | 0 <= i < |x| ensures x[i] == y[i] {
        assert |x[i]| == |y[i]|;
        forall j | 0 <= j < |x[i]| ensures x[i][j] == y[i][j] {
          assert SampleAt(a, i, j, 0) == SampleAt(b, i, j, 0);
        }
      }
    case (Color(x), Color(y)) =>
      forall i | 0 <= i < |x| ensures x[i] == y[i] {
        assert |x[i]| == |y[i]|;
        forall j | 0 <= j < |x[i]| ensures x[i][j] == y[i][j] {
          assert SampleAt(a, i, j, 0) == SampleAt(b, i, j, 0);
          assert SampleAt(a, i, j, 1) == SampleAt(b, i, j, 1);
          assert SampleAt(a, i, j, 2) == SampleAt(b, i, j, 2);
        }
      }
  }

  lemma MapGridKeepsRect<A, B>(g: seq<seq<A>>, r: seq<seq<B>>)
    requires SameShape(r, g) && IsRect(g)
    ensures IsRect(r) && Width(r) == Width(g)
  {
  }

  lemma SameGeometryDims(a: Image, b: Image)
    requires SameGeometry(a, b)
    ensures Height(a) == Height(b) && ImageWidth(a) == ImageWidth(b)
    ensures IsRaster(a) ==> IsRaster(b)
  {
  }

  /** Largest of row[lo..hi]. */
  function RangeMax(row: seq<Byte>, lo: int, hi: int): (m: Byte)
    requires 0 <= lo < hi <= |row|
    ensures forall c :: lo <= c < hi ==> row[c] <= m
    ensures exists c :: lo <= c < hi && row[c] == m
    decreases hi
  {
    if hi == lo + 1 then row[lo]
    else
      var m := RangeMax(row, lo, hi - 1);
      if row[hi - 1] > m then row[hi - 1] else m
  }

  /** Smallest of row[lo..hi]. */
  function RangeMin(row: seq<Byte>, lo: int, hi: int): (m: Byte)
    requires 0 <= lo < hi <= |row|
    ensures forall c :: lo <= c < hi ==> m <= row[c]
    ensures exists c :: lo <= c < hi && row[c] == m
    decreases hi
  {
    if hi == lo + 1 then row[lo]
    else
      var m := RangeMin(row, lo, hi - 1);
      if row[hi - 1] < m then row[hi - 1] else m
  }

  /** Channel `ch` of an image as a plane; a gray image is its own only plane. */
  function Plane(img: Image, ch: int): (r: seq<seq<Byte>>)
    requires 0 <= ch < 3
    ensures |r| == Height(img)
    ensures forall i :: 0 <= i < |r| ==> |r[i]| == (if img.Gray? then |img.plane[i]| else |img.pixels[i]|)
    ensures IsRaster(img) ==> IsRect(r) && Width(r) == ImageWidth(img)
    ensures forall i, j :: ValidPos(img, i, j, ch) ==> r[i][j] == SampleAt(img, i, j, ch)
  {
    match img
    case Gray(p) => p
    case Color(c) => Channel(c, ch)
  }

  /** Apply `f` to every sample of every channel. */
  function MapSamples(img: Image, f: Byte -> Byte): (r: Image)
    ensures SameGeometry(img, r)
    ensures forall i, j, ch :: ValidPos(img, i, j, ch) ==> SampleAt(r, i, j, ch) == f(SampleAt(img, i, j, ch))
  {
    match img
    case Gray(p) => Gray(MapGrid(p, f))
    case Color(c) => Color(MapGrid(c, (q: Rgb) => Rgb(f(q.r), f(q.g), f(q.b))))
  }

  /** Combine two images of the same geometry sample by sample; images of
      different kinds are an error, as OpenCV refuses a 3-channel and a
      1-channel operand. */
  function ZipSamples(a: Image, b: Image, f: (Byte, Byte) -> Byte): (r: Result<Image>)
    ensures r.Ok? <==> SameGeometry(a, b)
    ensures r.Ok? ==> SameGeometry(a, r.value)
    ensures r.Ok? ==> forall i, j, ch :: ValidPos(a, i, j, ch) ==>
      ValidPos(b, i, j, ch) && SampleAt(r.value, i, j, ch) == f(SampleAt(a, i, j, ch), SampleAt(b, i, j, ch))
  {
    match (a, b)
    case (Gray(x), Gray(y)) =>
      if SameShape(x, y) then Ok(Gray(ZipGrid(x, y, f))) else Err("sizes do not match")
    case (Color(x), Color(y)) =>
      if SameShape(x, y) then
        Ok(Color(ZipGrid(x, y, (p: Rgb, q: Rgb) => Rgb(f(p.r, q.r), f(p.g, q.g), f(p.b, q.b)))))
      else Err("sizes do not match")
    case _ => Err("channel counts do not match")
  }

  // ---------------------------------------------------------------------------
  // OpenCV primitives

  /** cv2.threshold(g, t, 255, THRESH_BINARY) on an 8-bit plane with an integer
      threshold: 255 where the sample is strictly above `t`, else 0. */
  function ThreshBinary(g: seq<seq<Byte>>, t: int): (r: seq<seq<Byte>>)
    ensures SameShape(r, g)
    ensures forall i, j :: 0 <= i < |g| && 0 <= j < |g[i]| ==>
      (r[i][j] == 255 <==> g[i][j] > t) && (r[i][j] == 0 <==> g[i][j] <= t)
  {
    MapGrid(g, (x: Byte) => if x > t then 255 else 0)
  }

  /** cv2.inRange(g, lo, hi): 255 where lo <= sample <= hi (both ends included), else 0. */
  function InRange(g: seq<seq<Byte>>, lo: int, hi: int): (r: seq<seq<Byte>>)
    ensures SameShape(r, g)
    ensures forall i, j :: 0 <= i < |g| && 0 <= j < |g[i]| ==>
      (r[i][j] == 255 <==> lo <= g[i][j] <= hi) && (r[i][j] == 0 <==> !(lo <= g[i][j] <= hi))
  {
    MapGrid(g, (x: Byte) => if lo <= x <= hi then 255 else 0)
  }

  /** Source index of target index `i` when resampling `n` cells onto `m`
      (nearest neighbour). */
  function NearestIndex(i: nat, m: nat, n: nat): (k: nat)
    requires i < m
    ensures k < n || n == 0
    ensures m == n ==> k == i
  {
    if n == 0 then 0 else NearestBound(i, m, n); i * n / m
  }

  lemma NearestBound(i: nat, m: nat, n: nat)
    requires i < m && 0 < n
    ensures i * n / m < n
    ensures m == n ==> i * n / m == i
  {
    var q, rem := i * n / m, i * n % m;
    assert i * n == m * q + rem && 0 <= rem < m;
    MulStrict(i, m, n);
    if q >= n {
      MulMono(n, q, m);
      assert false;
    }
    if m == n {
      if q < i {
        MulMono(q + 1, i, m);
        assert false;
      } else if q > i {
        MulMono(i + 1, q, m);
        assert false;
      }
    }
  }

  lemma MulAtLeast(a: int, d: int)
    requires a >= 1 && d > 0
    ensures a * d >= d
  {
    var b := a - 1;
    assert a * d == b * d + d;
    assert b * d >= 0;
  }

  /** Quotient and remainder are the unique q, m with x = q * d + m and 0 <= m < d. */
  lemma DivMod(x: int, d: int, q: int, m: int)
    requires d > 0 && 0 <= m < d && x == q * d + m
    ensures x / d == q && x % d == m
  {
    var q', m' := x / d, x % d;
    assert x == q' * d + m';
    if q' > q {
      MulAtLeast(q' - q, d);
      assert false;
    } else if q' < q {
      MulAtLeast(q - q', d);
      assert false;
    }
  }

  lemma MulMono(a: int, b: int, c: nat)
    requires a <= b
    ensures a * c <= b * c && c * a <= c * b
  {
  }

  lemma MulStrict(a: int, b: int, c: nat)
    requires a < b && 0 < c
    ensures a * c < b * c
  {
  }

  /** cv2.resize(g, (w, h)) of a non-empty rectangular grid, nearest neighbour. */
  function Resize<T>(g: seq<seq<T>>, h: nat, w: nat): (r: seq<seq<T>>)
    requires IsRect(g) && |g| > 0 && Width(g) > 0
    ensures |r| == h && IsRect(r) && (h > 0 ==> Width(r) == w)
    ensures forall i :: 0 <= i < h ==> |r[i]| == w
    ensures forall i, j :: 0 <= i < h && 0 <= j < w ==>
      r[i][j] == g[NearestIndex(i, h, |g|)][NearestIndex(j, w, Width(g))]
    ensures h == |g| && w == Width(g) ==> r == g
  {
    var r := seq(h, i requires 0 <= i < h =>
      seq(w, j requires 0 <= j < w => g[NearestIndex(i, h, |g|)][NearestIndex(j, w, Width(g))]));
    assert h == |g| && w == Width(g) ==> r == g by {
      if h == |g| && w == Width(g) {
        forall i | 0 <= i < h ensures r[i] == g[i] {
          assert |r[i]| == |g[i]|;
        }
      }
    }
    r
  }
}
