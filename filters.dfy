/** Spatial filters with logic of their own (src/practica4.py): the median
    size fix, the weighted-average kernel choice, the window maximum and
    minimum, the sliding-window mode and the Kirsch compass operator. */
module Filters {
  import opened Raster
  import Channels
  import Morphology

  // ---------------------------------------------------------------------------
  // Median and weighted average: kernel choice

  /** filtro_mediana: an even kernel size is bumped to the next odd one. */
  function FiltroMedianaSize(k: int): (r: int)
    ensures r % 2 == 1
    ensures k % 2 == 1 ==> r == k
    ensures k % 2 == 0 ==> r == k + 1
  {
    if k % 2 == 0 then k + 1 else k
  }

  function RealRowSum(row: seq<real>): real
  {
    if row == [] then 0.0 else row[0] + RealRowSum(row[1..])
  }

  function RealKernelSum(kernel: seq<seq<real>>): real
  {
    if kernel == [] then 0.0 else RealRowSum(kernel[0]) + RealKernelSum(kernel[1..])
  }

  /** filtro_promedio_pesado: the flat 5 x 5 kernel when k = 5, otherwise the
      3 x 3 binomial kernel over 16. */
  function KernelPromedioPesado(k: int): (kernel: seq<seq<real>>)
    ensures k == 5 ==> |kernel| == 5 && forall i :: 0 <= i < 5 ==> kernel[i] == [0.04, 0.04, 0.04, 0.04, 0.04]
    ensures k != 5 ==> kernel == [[1.0 / 16.0, 2.0 / 16.0, 1.0 / 16.0], [2.0 / 16.0, 4.0 / 16.0, 2.0 / 16.0], [1.0 / 16.0, 2.0 / 16.0, 1.0 / 16.0]]
  {
    if k == 5 then
      var row := [1.0 / 25.0, 1.0 / 25.0, 1.0 / 25.0, 1.0 / 25.0, 1.0 / 25.0];
      [row, row, row, row, row]
    else
      [[1.0 / 16.0, 2.0 / 16.0, 1.0 / 16.0], [2.0 / 16.0, 4.0 / 16.0, 2.0 / 16.0], [1.0 / 16.0, 2.0 / 16.0, 1.0 / 16.0]]
  }

  /** Either kernel is a weighted average: its weights add up to one. */
  lemma KernelPromedioPesadoNormalised(k: int)
    ensures RealKernelSum(KernelPromedioPesado(k)) == 1.0
  {
    var kernel := KernelPromedioPesado(k);
    if k == 5 {
      assert RealRowSum(kernel[0]) == 0.2;
      assert kernel[1..] == [kernel[0], kernel[0], kernel[0], kernel[0]];
      assert RealKernelSum(kernel[4..]) == 0.2;
      assert RealKernelSum(kernel[3..]) == 0.4;
      assert RealKernelSum(kernel[2..]) == 0.6;
      assert RealKernelSum(kernel[1..]) == 0.8;
    } else {
      assert RealRowSum(kernel[0]) == 0.25;
      assert RealRowSum(kernel[1]) == 0.5;
      assert RealKernelSum(kernel[2..]) == 0.25;
      assert RealKernelSum(kernel[1..]) == 0.75;
    }
  }

  // ---------------------------------------------------------------------------
  // Window maximum and minimum

  /** filtro_maximo: cv2.dilate with a k x k block of ones. */
  function FiltroMaximo(img: Image, k: int): (r: Image)
    requires IsRaster(img) && k >= 1
    ensures SameGeometry(img, r)
    ensures forall i, j, ch :: ValidPos(img, i, j, ch) ==>
      SampleAt(r, i, j, ch) == Morphology.DilateAt(Plane(img, ch), i, j, k)
  {
    Morphology.Dilatacion(img, k)
  }

  /** filtro_minimo: cv2.erode with a k x k block of ones. */
  function FiltroMinimo(img: Image, k: int): (r: Image)
    requires IsRaster(img) && k >= 1
    ensures SameGeometry(img, r)
    ensures forall i, j, ch :: ValidPos(img, i, j, ch) ==>
      SampleAt(r, i, j, ch) == Morphology.ErodeAt(Plane(img, ch), i, j, k)
  {
    Morphology.Erosion(img, k)
  }

  /** The minimum filter is never above the pixel, the maximum filter never below. */
  lemma FiltroMinMaxBracket(img: Image, k: int, i: int, j: int, ch: int)
    requires IsRaster(img) && k >= 1 && ValidPos(img, i, j, ch)
    ensures SampleAt(FiltroMinimo(img, k), i, j, ch) <= SampleAt(img, i, j, ch) <= SampleAt(FiltroMaximo(img, k), i, j, ch)
  {
    Morphology.ErosionDilatacionBracket(img, k, i, j, ch);
  }

  // ---------------------------------------------------------------------------
  // Mode

  /** How often `x` occurs in the window. */
  function Count(w: seq<Byte>, x: int): nat
  {
    multiset(w)[x]
  }

  /** The most frequent value among v..255, the smallest one on a tie. */
  function ModeAbove(w: seq<Byte>, v: int): (r: Byte)
    requires 0 <= v <= 255
    ensures v <= r
    ensures forall u :: v <= u <= 255 ==> Count(w, u) <= Count(w, r)
    ensures forall u :: v <= u < r ==> Count(w, u) < Count(w, r)
    decreases 255 - v
  {
    if v == 255 then 255
    else
      var best := ModeAbove(w, v + 1);
      if Count(w, v) >= Count(w, best) then v else best
  }

  /** get_mode: np.unique lists the values in increasing order and argmax
      takes the first largest count, so the result is the most frequent value
      of the window and, on a tie, the smallest such value. */
  function GetMode(w: seq<Byte>): (r: Byte)
    requires |w| > 0
    ensures r in w
    ensures forall x: Byte :: Count(w, x) <= Count(w, r)
    ensures forall x: Byte :: x < r ==> Count(w, x) < Count(w, r)
  {
    var r := ModeAbove(w, 0);
    assert Count(w, w[0]) <= Count(w, r);
    r
  }

  /** scipy's default 'reflect' boundary: the border sample is repeated,
      so the index pattern has period 2n (d c b a | a b c d | d c b a). */
  function Reflect(i: int, n: int): (r: int)
    requires n > 0
    ensures 0 <= r < n
    ensures 0 <= i < n ==> r == i
  {
    var m := i % (2 * n);
    if 0 <= i < n then DivMod(i, 2 * n, 0, i); m
    else if m < n then m else 2 * n - 1 - m
  }

  /** Just outside the image the index is mirrored with the edge repeated:
      -1 reads 0, -2 reads 1, n reads n - 1. */
  lemma ReflectNear(i: int, n: int)
    requires n > 0 && -n <= i < 2 * n
    ensures -n <= i < 0 ==> Reflect(i, n) == -i - 1
    ensures n <= i < 2 * n ==> Reflect(i, n) == 2 * n - 1 - i
  {
    if i < 0 {
      DivMod(i, 2 * n, -1, i + 2 * n);
    } else if i >= n {
      DivMod(i, 2 * n, 0, i);
    }
  }

  /** The k x k neighbourhood that generic_filter hands to get_mode, row by
      row: entry t is at row offset t / k and column offset t % k. */
  function ModeWindow(g: seq<seq<Byte>>, i: int, j: int, k: int): (w: seq<Byte>)
    requires IsRect(g) && |g| > 0 && Width(g) > 0 && k >= 1
    ensures |w| == k * k
  {
    seq(k * k, t requires 0 <= t < k * k =>
      g[Reflect(i - k / 2 + t / k, |g|)][Reflect(j - k / 2 + t % k, Width(g))])
  }

  /** The pixel itself is always one of the samples of its window. */
  lemma ModeWindowHasCentre(g: seq<seq<Byte>>, i: int, j: int, k: int)
    requires IsRect(g) && 0 <= i < |g| && 0 <= j < Width(g) && k >= 1
    ensures g[i][j] in ModeWindow(g, i, j, k)
  {
    var h := k / 2;
    var t := h * k + h;
    DivMod(t, k, h, h);
    assert t < k * k by {
      MulMono(h, k - 1, k);
      assert (k - 1) * k == k * k - k;
    }
    assert ModeWindow(g, i, j, k)[t] == g[i][j];
  }

  /** The mode of the window around (i, j). */
  function ModeAt(g: seq<seq<Byte>>, i: int, j: int, k: int): Byte
    requires IsRect(g) && 0 <= i < |g| && 0 <= j < Width(g) && k >= 1
  {
    GetMode(ModeWindow(g, i, j, k))
  }

  /** The mode plane: every pixel replaced by the mode of its window. */
  function ModePlane(g: seq<seq<Byte>>, k: int): (r: seq<seq<Byte>>)
    requires IsRect(g) && k >= 1
    ensures SameShape(r, g)
    ensures forall i, j :: 0 <= i < |g| && 0 <= j < |g[i]| ==> r[i][j] == ModeAt(g, i, j, k)
  {
    var r := seq(|g|, i requires 0 <= i < |g| => seq(|g[i]|, j requires 0 <= j < |g[i]| => ModeAt(g, i, j, k)));
    assert forall i, j :: 0 <= i < |g| && 0 <= j < |g[i]| ==> r[i][j] == ModeAt(g, i, j, k) by {
      forall i, j | 0 <= i < |g| && 0 <= j < |g[i]| ensures r[i][j] == ModeAt(g, i, j, k) {
        assert r[i] == seq(|g[i]|, j requires 0 <= j < |g[i]| => ModeAt(g, i, j, k));
      }
    }
    r
  }

  /** filtro_moda: the mode filter on the gray version, returned as a
      three-channel raster whose R, G and B are equal. */
  function FiltroModa(img: Image, k: int, luma: Rgb -> Byte): (r: Image)
    requires IsRaster(img) && k >= 1
    ensures r.Color? && SameShape(r.pixels, Channels.GrayOf(img, luma))
    ensures forall i, j :: 0 <= i < |r.pixels| && 0 <= j < |r.pixels[i]| ==>
      var m := ModeAt(Channels.GrayOf(img, luma), i, j, k);
      r.pixels[i][j] == Rgb(m, m, m)
  {
    Channels.GrayOfShape(img, luma);
    var g := Channels.GrayOf(img, luma);
    Color(MapGrid(ModePlane(g, k), (x: Byte) => Rgb(x, x, x)))
  }

  /** On a window where one value holds a strict majority, the mode is that value. */
  lemma GetModeMajority(w: seq<Byte>, x: Byte)
    requires |w| > 0 && 2 * Count(w, x) > |w|
    ensures GetMode(w) == x
  {
    var r := GetMode(w);
    if r != x {
      CountTwo(w, x, r);
      assert false;
    }
  }

  /** Two different values together occur at most |w| times. */
  lemma {:induction false} CountTwo(w: seq<Byte>, x: int, y: int)
    requires x != y
    ensures Count(w, x) + Count(w, y) <= |w|
  {
    if w != [] {
      assert w == [w[0]] + w[1..];
      assert multiset(w) == multiset{w[0]} + multiset(w[1..]);
      CountTwo(w[1..], x, y);
    }
  }

  // ---------------------------------------------------------------------------
  // Kirsch compass operator

  /** The eight Kirsch masks, in the order of the source (north first, then clockwise). */
  function Kirsch(n: int): (kernel: seq<seq<int>>)
    requires 0 <= n < 8
    ensures |kernel| == 3 && forall u :: 0 <= u < 3 ==> |kernel[u]| == 3
  {
    match n
    case 0 => [[5, 5, 5], [-3, 0, -3], [-3, -3, -3]]
    case 1 => [[-3, 5, 5], [-3, 0, 5], [-3, -3, -3]]
    case 2 => [[-3, -3, 5], [-3, 0, 5], [-3, -3, 5]]
    case 3 => [[-3, -3, -3], [-3, 0, 5], [-3, 5, 5]]
    case 4 => [[-3, -3, -3], [-3, 0, -3], [5, 5, 5]]
    case 5 => [[-3, -3, -3], [5, 0, -3], [5, 5, -3]]
    case 6 => [[5, -3, -3], [5, 0, -3], [5, -3, -3]]
    case _ => [[5, 5, -3], [5, 0, -3], [-3, -3, -3]]
  }

  /** The eight outer cells of a 3 x 3 mask, clockwise from the top-left corner. */
  function Ring(kernel: seq<seq<int>>): (ring: seq<int>)
    requires |kernel| == 3 && forall u :: 0 <= u < 3 ==> |kernel[u]| == 3
    ensures |ring| == 8
  {
    [kernel[0][0], kernel[0][1], kernel[0][2], kernel[1][2], kernel[2][2], kernel[2][1], kernel[2][0], kernel[1][0]]
  }

  function KernelSum(kernel: seq<seq<int>>): int
    requires |kernel| == 3 && forall u :: 0 <= u < 3 ==> |kernel[u]| == 3
  {
    kernel[0][0] + kernel[0][1] + kernel[0][2] + kernel[1][0] + kernel[1][1] + kernel[1][2] + kernel[2][0] + kernel[2][1] + kernel[2][2]
  }

  /** Every mask has a zero centre, weights summing to 0, and on its ring three
      consecutive 5s starting at position n followed by five -3s. */
  lemma KirschBalanced(n: int)
    requires 0 <= n < 8
    ensures Kirsch(n)[1][1] == 0
    ensures KernelSum(Kirsch(n)) == 0
    ensures forall p :: 0 <= p < 8 ==> Ring(Kirsch(n))[p] == (if (p - n + 8) % 8 < 3 then 5 else -3)
  {
  }

  /** Each mask is the previous one with its ring turned one step clockwise
      (and the last turns back into the first). */
  lemma KirschRotation(n: int)
    requires 0 <= n < 8
    ensures Ring(Kirsch((n + 1) % 8)) == Ring(Kirsch(n))[7..] + Ring(Kirsch(n))[..7]
  {
  }

  /** OpenCV's default filter2D border, BORDER_REFLECT_101 (g f | f g h | g),
      for indices at most one step outside. */
  function Reflect101(i: int, n: int): (r: int)
    requires n > 0 && -1 <= i <= n
    ensures 0 <= r < n
    ensures 0 <= i < n ==> r == i
  {
    if n == 1 then 0
    else if i < 0 then 1
    else if i >= n then n - 2
    else i
  }

  /** One tap of a 3 x 3 correlation: the sample at offset (du, dv) from (i, j). */
  function Tap(g: seq<seq<Byte>>, i: int, j: int, du: int, dv: int): Byte
    requires IsRect(g) && 0 <= i < |g| && 0 <= j < Width(g) && -1 <= du <= 1 && -1 <= dv <= 1
  {
    g[Reflect101(i + du, |g|)][Reflect101(j + dv, Width(g))]
  }

  /** cv2.filter2D with a 3 x 3 integer mask on an 8-bit plane: correlation
      (the mask is not flipped), anchored at the centre, then saturated. */
  function KirschResponse(g: seq<seq<Byte>>, n: int, i: int, j: int): Byte
    requires IsRect(g) && 0 <= i < |g| && 0 <= j < Width(g) && 0 <= n < 8
  {
    var kk := Kirsch(n);
    Clamp(
      kk[0][0] * Tap(g, i, j, -1, -1) + kk[0][1] * Tap(g, i, j, -1, 0) + kk[0][2] * Tap(g, i, j, -1, 1) +
      kk[1][0] * Tap(g, i, j, 0, -1) + kk[1][1] * Tap(g, i, j, 0, 0) + kk[1][2] * Tap(g, i, j, 0, 1) +
      kk[2][0] * Tap(g, i, j, 1, -1) + kk[2][1] * Tap(g, i, j, 1, 0) + kk[2][2] * Tap(g, i, j, 1, 1))
  }

  /** The response plane of mask n. */
  function KirschPlane(g: seq<seq<Byte>>, n: int): (r: seq<seq<Byte>>)
    requires IsRect(g) && 0 <= n < 8
    ensures SameShape(r, g)
    ensures forall i, j :: 0 <= i < |g| && 0 <= j < |g[i]| ==> r[i][j] == KirschResponse(g, n, i, j)
  {
    seq(|g|, i requires 0 <= i < |g| => seq(|g[i]|, j requires 0 <= j < |g[i]| => KirschResponse(g, n, i, j)))
  }

  /** np.maximum on two samples. */
  function MaxByte(x: Byte, y: Byte): Byte { if x >= y then x else y }

  /** filtro_kirsch: starting from zeros, the running pointwise maximum of
      the eight saturated mask responses. The result is at least every
      response, and is one of them (or 0, which no response is below). */
  method FiltroKirsch(img: Image, luma: Rgb -> Byte) returns (r: Image)
    requires IsRaster(img)
    ensures r.Gray? && SameShape(r.plane, Channels.GrayOf(img, luma))
    ensures forall i, j, n :: 0 <= i < |r.plane| && 0 <= j < |r.plane[i]| && 0 <= n < 8 ==>
      KirschResponse(Channels.GrayOf(img, luma), n, i, j) <= r.plane[i][j]
    ensures forall i, j :: 0 <= i < |r.plane| && 0 <= j < |r.plane[i]| ==>
      r.plane[i][j] == 0 || exists n :: 0 <= n < 8 && r.plane[i][j] == KirschResponse(Channels.GrayOf(img, luma), n, i, j)
  {
    Channels.GrayOfShape(img, luma);
    var g := Channels.GrayOf(img, luma);
    var m := Filled(|g|, Width(g), 0 as Byte);
    for n := 0 to 8
      invariant SameShape(m, g)
      invariant forall i, j, q :: 0 <= i < |g| && 0 <= j < |g[i]| && 0 <= q < n ==> KirschResponse(g, q, i, j) <= m[i][j]
      invariant forall i, j :: 0 <= i < |g| && 0 <= j < |g[i]| ==>
        m[i][j] == 0 || exists q :: 0 <= q < n && m[i][j] == KirschResponse(g, q, i, j)
    {
      var resp := KirschPlane(g, n);
      var next := ZipGrid(m, resp, MaxByte);
      forall i, j, q | 0 <= i < |g| && 0 <= j < |g[i]| && 0 <= q < n + 1
        ensures KirschResponse(g, q, i, j) <= next[i][j]
      {
        assert next[i][j] == MaxByte(m[i][j], resp[i][j]);
      }
      forall i, j | 0 <= i < |g| && 0 <= j < |g[i]|
        ensures next[i][j] == 0 || exists q :: 0 <= q < n + 1 && next[i][j] == KirschResponse(g, q, i, j)
      {
        assert next[i][j] == MaxByte(m[i][j], resp[i][j]);
        if next[i][j] == resp[i][j] {
          assert resp[i][j] == KirschResponse(g, n, i, j);
        }
      }
      m := next;
    }
    r := Gray(m);
  }

  /** On a flat neighbourhood every response is 0, because each mask's weights sum to 0. */
  lemma KirschFlat(g: seq<seq<Byte>>, n: int, i: int, j: int)
    requires IsRect(g) && 0 <= i < |g| && 0 <= j < Width(g) && 0 <= n < 8
    requires forall du, dv :: -1 <= du <= 1 && -1 <= dv <= 1 ==> Tap(g, i, j, du, dv) == g[i][j]
    ensures KirschResponse(g, n, i, j) == 0
  {
    KirschBalanced(n);
    var kk := Kirsch(n);
    var x := g[i][j];
    assert Tap(g, i, j, -1, -1) == x && Tap(g, i, j, -1, 0) == x && Tap(g, i, j, -1, 1) == x;
    assert Tap(g, i, j, 0, -1) == x && Tap(g, i, j, 0, 0) == x && Tap(g, i, j, 0, 1) == x;
    assert Tap(g, i, j, 1, -1) == x && Tap(g, i, j, 1, 0) == x && Tap(g, i, j, 1, 1) == x;
    assert kk[0][0] * x + kk[0][1] * x + kk[0][2] * x + kk[1][0] * x + kk[1][1] * x + kk[1][2] * x
      + kk[2][0] * x + kk[2][1] * x + kk[2][2] * x == KernelSum(kk) * x;
  }
}
