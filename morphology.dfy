/** Erosion, dilation and their compositions with a full k x k rectangle
    (src/practica6.py), and the window minimum / maximum they rest on.

    cv2.erode and cv2.dilate with the default anchor look, around pixel
    (i, j), at rows i - k/2 .. i - k/2 + k - 1 and the same columns; window
    cells outside the image are ignored (OpenCV pads with the neutral value of
    the operation). A color raster is processed channel by channel. */
module Morphology {
  import opened Raster

  /** obtener_kernel: the rectangular structuring element, k x k ones. */
  function ObtenerKernel(k: nat): (e: seq<seq<int>>)
    ensures |e| == k && forall i :: 0 <= i < k ==> |e[i]| == k
    ensures forall i, j :: 0 <= i < k && 0 <= j < k ==> e[i][j] == 1
  {
    Filled(k, k, 1)
  }

  // ---------------------------------------------------------------------------
  // Windows

  /** Cell (r, c) lies in the k x k window anchored at (i, j). */
  predicate InWin(i: int, j: int, r: int, c: int, k: int)
  {
    i - k / 2 <= r < i - k / 2 + k && j - k / 2 <= c < j - k / 2 + k
  }

  /** With an odd side the window is centred, so membership is symmetric. */
  lemma InWinSymmetric(i: int, j: int, r: int, c: int, k: int)
    requires k >= 1 && k % 2 == 1
    ensures InWin(i, j, r, c, k) <==> InWin(r, c, i, j, k)
  {
  }

  /** First and one-past-last index of the window along an axis of length n. */
  function WinLo(i: int, k: int): int { if i - k / 2 < 0 then 0 else i - k / 2 }
  function WinHi(i: int, k: int, n: int): int { if i - k / 2 + k > n then n else i - k / 2 + k }

  /** Largest sample of the block of rows rlo..rhi-1 and columns clo..chi-1. */
  function GridMax(p: seq<seq<Byte>>, rlo: int, rhi: int, clo: int, chi: int): (m: Byte)
    requires IsRect(p) && 0 <= rlo < rhi <= |p| && 0 <= clo < chi <= Width(p)
    ensures forall r, c :: rlo <= r < rhi && clo <= c < chi ==> p[r][c] <= m
    ensures exists r, c :: rlo <= r < rhi && clo <= c < chi && p[r][c] == m
    decreases rhi
  {
    var last := RangeMax(p[rhi - 1], clo, chi);
    if rhi == rlo + 1 then last
    else
      var m := GridMax(p, rlo, rhi - 1, clo, chi);
      if last > m then last else m
  }

  /** Smallest sample of the block of rows rlo..rhi-1 and columns clo..chi-1. */
  function GridMin(p: seq<seq<Byte>>, rlo: int, rhi: int, clo: int, chi: int): (m: Byte)
    requires IsRect(p) && 0 <= rlo < rhi <= |p| && 0 <= clo < chi <= Width(p)
    ensures forall r, c :: rlo <= r < rhi && clo <= c < chi ==> m <= p[r][c]
    ensures exists r, c :: rlo <= r < rhi && clo <= c < chi && p[r][c] == m
    decreases rhi
  {
    var last := RangeMin(p[rhi - 1], clo, chi);
    if rhi == rlo + 1 then last
    else
      var m := GridMin(p, rlo, rhi - 1, clo, chi);
      if last < m then last else m
  }

  /** Dilation of one plane at (i, j): the largest in-image sample of the window. */
  function DilateAt(p: seq<seq<Byte>>, i: int, j: int, k: int): (m: Byte)
    requires IsRect(p) && 0 <= i < |p| && 0 <= j < Width(p) && k >= 1
    ensures p[i][j] <= m
  {
    GridMax(p, WinLo(i, k), WinHi(i, k, |p|), WinLo(j, k), WinHi(j, k, Width(p)))
  }

  /** The dilation at (i, j) bounds every in-image sample of the window and is one of them. */
  lemma DilateAtWindow(p: seq<seq<Byte>>, i: int, j: int, k: int)
    requires IsRect(p) && 0 <= i < |p| && 0 <= j < Width(p) && k >= 1
    ensures forall r, c :: 0 <= r < |p| && 0 <= c < Width(p) && InWin(i, j, r, c, k) ==> p[r][c] <= DilateAt(p, i, j, k)
    ensures exists r, c :: 0 <= r < |p| && 0 <= c < Width(p) && InWin(i, j, r, c, k) && p[r][c] == DilateAt(p, i, j, k)
  {
    var rlo, rhi, clo, chi := WinLo(i, k), WinHi(i, k, |p|), WinLo(j, k), WinHi(j, k, Width(p));
    assert DilateAt(p, i, j, k) == GridMax(p, rlo, rhi, clo, chi);
    forall r, c | 0 <= r < |p| && 0 <= c < Width(p) && InWin(i, j, r, c, k)
      ensures rlo <= r < rhi && clo <= c < chi
    {
    }
  }

  /** Erosion of one plane at (i, j): the smallest in-image sample of the window. */
  function ErodeAt(p: seq<seq<Byte>>, i: int, j: int, k: int): (m: Byte)
    requires IsRect(p) && 0 <= i < |p| && 0 <= j < Width(p) && k >= 1
    ensures m <= p[i][j]
  {
    GridMin(p, WinLo(i, k), WinHi(i, k, |p|), WinLo(j, k), WinHi(j, k, Width(p)))
  }

  /** The erosion at (i, j) is below every in-image sample of the window and is one of them. */
  lemma ErodeAtWindow(p: seq<seq<Byte>>, i: int, j: int, k: int)
    requires IsRect(p) && 0 <= i < |p| && 0 <= j < Width(p) && k >= 1
    ensures forall r, c :: 0 <= r < |p| && 0 <= c < Width(p) && InWin(i, j, r, c, k) ==> ErodeAt(p, i, j, k) <= p[r][c]
    ensures exists r, c :: 0 <= r < |p| && 0 <= c < Width(p) && InWin(i, j, r, c, k) && p[r][c] == ErodeAt(p, i, j, k)
  {
    var rlo, rhi, clo, chi := WinLo(i, k), WinHi(i, k, |p|), WinLo(j, k), WinHi(j, k, Width(p));
    assert ErodeAt(p, i, j, k) == GridMin(p, rlo, rhi, clo, chi);
    forall r, c | 0 <= r < |p| && 0 <= c < Width(p) && InWin(i, j, r, c, k)
      ensures rlo <= r < rhi && clo <= c < chi
    {
    }
  }

  function DilatePlane(p: seq<seq<Byte>>, k: int): (r: seq<seq<Byte>>)
    requires IsRect(p) && k >= 1
    ensures SameShape(r, p) && IsRect(r) && Width(r) == Width(p)
    ensures forall i, j :: 0 <= i < |p| && 0 <= j < |p[i]| ==> r[i][j] == DilateAt(p, i, j, k)
  {
    seq(|p|, i requires 0 <= i < |p| => seq(|p[i]|, j requires 0 <= j < |p[i]| => DilateAt(p, i, j, k)))
  }

  function ErodePlane(p: seq<seq<Byte>>, k: int): (r: seq<seq<Byte>>)
    requires IsRect(p) && k >= 1
    ensures SameShape(r, p) && IsRect(r) && Width(r) == Width(p)
    ensures forall i, j :: 0 <= i < |p| && 0 <= j < |p[i]| ==> r[i][j] == ErodeAt(p, i, j, k)
  {
    seq(|p|, i requires 0 <= i < |p| => seq(|p[i]|, j requires 0 <= j < |p[i]| => ErodeAt(p, i, j, k)))
  }

  lemma ChannelRect(c: seq<seq<Rgb>>, ch: nat)
    requires IsRect(c) && ch < 3
    ensures IsRect(Channel(c, ch)) && Width(Channel(c, ch)) == Width(c)
  {
    MapGridKeepsRect(c, Channel(c, ch));
  }

  /** Dilatacion of a color grid, channel by channel (split, dilate, merge). */
  function DilateColor(c: seq<seq<Rgb>>, k: int): (r: seq<seq<Rgb>>)
    requires IsRect(c) && k >= 1
    ensures SameShape(r, c)
    ensures forall i, j :: 0 <= i < |c| && 0 <= j < |c[i]| ==>
      r[i][j] == Rgb(DilateAt(Channel(c, 0), i, j, k), DilateAt(Channel(c, 1), i, j, k), DilateAt(Channel(c, 2), i, j, k))
  {
    ChannelRect(c, 0);
    ChannelRect(c, 1);
    ChannelRect(c, 2);
    Merge(DilatePlane(Channel(c, 0), k), DilatePlane(Channel(c, 1), k), DilatePlane(Channel(c, 2), k))
  }

  /** Erosion of a color grid, channel by channel (split, erode, merge). */
  function ErodeColor(c: seq<seq<Rgb>>, k: int): (r: seq<seq<Rgb>>)
    requires IsRect(c) && k >= 1
    ensures SameShape(r, c)
    ensures forall i, j :: 0 <= i < |c| && 0 <= j < |c[i]| ==>
      r[i][j] == Rgb(ErodeAt(Channel(c, 0), i, j, k), ErodeAt(Channel(c, 1), i, j, k), ErodeAt(Channel(c, 2), i, j, k))
  {
    ChannelRect(c, 0);
    ChannelRect(c, 1);
    ChannelRect(c, 2);
    Merge(ErodePlane(Channel(c, 0), k), ErodePlane(Channel(c, 1), k), ErodePlane(Channel(c, 2), k))
  }

  // ---------------------------------------------------------------------------
  // The operations

  /** dilatacion (and filtro_maximo): every sample becomes the largest sample
      of its window in the same channel. */
  function Dilatacion(img: Image, k: int): (r: Image)
    requires IsRaster(img) && k >= 1
    ensures SameGeometry(img, r) && IsRaster(r)
    ensures forall i, j, ch :: ValidPos(img, i, j, ch) ==>
      SampleAt(r, i, j, ch) == DilateAt(Plane(img, ch), i, j, k)
  {
    match img
    case Gray(p) => Gray(DilatePlane(p, k))
    case Color(c) => Color(DilateColor(c, k))
  }

  /** erosion (and filtro_minimo): every sample becomes the smallest sample of
      its window in the same channel. */
  function Erosion(img: Image, k: int): (r: Image)
    requires IsRaster(img) && k >= 1
    ensures SameGeometry(img, r) && IsRaster(r)
    ensures forall i, j, ch :: ValidPos(img, i, j, ch) ==>
      SampleAt(r, i, j, ch) == ErodeAt(Plane(img, ch), i, j, k)
  {
    match img
    case Gray(p) => Gray(ErodePlane(p, k))
    case Color(c) => Color(ErodeColor(c, k))
  }

  /** Erosion never raises a sample and dilation never lowers one. */
  lemma ErosionDilatacionBracket(img: Image, k: int, i: int, j: int, ch: int)
    requires IsRaster(img) && k >= 1 && ValidPos(img, i, j, ch)
    ensures SampleAt(Erosion(img, k), i, j, ch) <= SampleAt(img, i, j, ch) <= SampleAt(Dilatacion(img, k), i, j, ch)
  {
  }

  /** apertura: erosion followed by dilation with the same element. */
  function Apertura(img: Image, k: int): (r: Image)
    requires IsRaster(img) && k >= 1
    ensures SameGeometry(img, r)
    ensures forall i, j, ch :: ValidPos(img, i, j, ch) ==>
      SampleAt(r, i, j, ch) == DilateAt(Plane(Erosion(img, k), ch), i, j, k)
  {
    SameGeometryDims(img, Erosion(img, k));
    forall i, j, ch | ValidPos(img, i, j, ch) ensures ValidPos(Erosion(img, k), i, j, ch) {
      SameGeometryPos(img, Erosion(img, k), i, j, ch);
    }
    Dilatacion(Erosion(img, k), k)
  }

  /** cierre: dilation followed by erosion with the same element. */
  function Cierre(img: Image, k: int): (r: Image)
    requires IsRaster(img) && k >= 1
    ensures SameGeometry(img, r)
    ensures forall i, j, ch :: ValidPos(img, i, j, ch) ==>
      SampleAt(r, i, j, ch) == ErodeAt(Plane(Dilatacion(img, k), ch), i, j, k)
  {
    forall i, j, ch | ValidPos(img, i, j, ch) ensures ValidPos(Dilatacion(img, k), i, j, ch) {
      SameGeometryPos(img, Dilatacion(img, k), i, j, ch);
    }
    Erosion(Dilatacion(img, k), k)
  }

  /** `q` holds, at every cell, the erosion of the plane `p` of the same dimensions. */
  predicate Erodes(p: seq<seq<Byte>>, q: seq<seq<Byte>>, k: int)
  {
    IsRect(p) && IsRect(q) && |q| == |p| && Width(q) == Width(p) && k >= 1 &&
    forall r, c :: 0 <= r < |p| && 0 <= c < Width(p) ==> q[r][c] == ErodeAt(p, r, c, k)
  }

  /** `q` holds, at every cell, the dilation of the plane `p` of the same dimensions. */
  predicate Dilates(p: seq<seq<Byte>>, q: seq<seq<Byte>>, k: int)
  {
    IsRect(p) && IsRect(q) && |q| == |p| && Width(q) == Width(p) && k >= 1 &&
    forall r, c :: 0 <= r < |p| && 0 <= c < Width(p) ==> q[r][c] == DilateAt(p, r, c, k)
  }

  /** A plane `q` that holds the erosion of `p`, dilated at (i, j), does not
      exceed p[i][j]: the window cell that gives the maximum has (i, j) in its
      own window. */
  lemma {:induction false} OpenPlaneBelow(p: seq<seq<Byte>>, q: seq<seq<Byte>>, k: int, i: int, j: int)
    requires Erodes(p, q, k) && k % 2 == 1 && 0 <= i < |p| && 0 <= j < Width(p)
    ensures DilateAt(q, i, j, k) <= p[i][j]
  {
    var m := DilateAt(q, i, j, k);
    DilateAtWindow(q, i, j, k);
    assert exists r, c :: 0 <= r < |q| && 0 <= c < Width(q) && InWin(i, j, r, c, k) && q[r][c] == m;
    var r, c :| 0 <= r < |q| && 0 <= c < Width(q) && InWin(i, j, r, c, k) && q[r][c] == m;
    InWinSymmetric(i, j, r, c, k);
    ErodeAtWindow(p, r, c, k);
    assert ErodeAt(p, r, c, k) <= p[i][j];
  }

  /** Dually, the erosion of a plane holding the dilation of `p` is not below p[i][j]. */
  lemma {:induction false} ClosePlaneAbove(p: seq<seq<Byte>>, q: seq<seq<Byte>>, k: int, i: int, j: int)
    requires Dilates(p, q, k) && k % 2 == 1 && 0 <= i < |p| && 0 <= j < Width(p)
    ensures p[i][j] <= ErodeAt(q, i, j, k)
  {
    var m := ErodeAt(q, i, j, k);
    ErodeAtWindow(q, i, j, k);
    assert exists r, c :: 0 <= r < |q| && 0 <= c < Width(q) && InWin(i, j, r, c, k) && q[r][c] == m;
    var r, c :| 0 <= r < |q| && 0 <= c < Width(q) && InWin(i, j, r, c, k) && q[r][c] == m;
    InWinSymmetric(i, j, r, c, k);
    DilateAtWindow(p, r, c, k);
    assert p[i][j] <= DilateAt(p, r, c, k);
  }

  /** Channel `ch` of the erosion is the erosion of channel `ch`. */
  lemma ErosionPlane(img: Image, k: int, ch: int)
    requires IsRaster(img) && k >= 1 && 0 <= ch < 3 && (img.Gray? ==> ch == 0)
    ensures Erodes(Plane(img, ch), Plane(Erosion(img, k), ch), k)
  {
    var e := Erosion(img, k);
    var p, q := Plane(img, ch), Plane(e, ch);
    SameGeometryDims(img, e);
    forall r, c | 0 <= r < |p| && 0 <= c < Width(p) ensures q[r][c] == ErodeAt(p, r, c, k) {
      assert ValidPos(img, r, c, ch);
      SameGeometryPos(img, e, r, c, ch);
    }
  }

  /** Channel `ch` of the dilation is the dilation of channel `ch`. */
  lemma DilatacionPlane(img: Image, k: int, ch: int)
    requires IsRaster(img) && k >= 1 && 0 <= ch < 3 && (img.Gray? ==> ch == 0)
    ensures Dilates(Plane(img, ch), Plane(Dilatacion(img, k), ch), k)
  {
    var d := Dilatacion(img, k);
    var p, q := Plane(img, ch), Plane(d, ch);
    SameGeometryDims(img, d);
    forall r, c | 0 <= r < |p| && 0 <= c < Width(p) ensures q[r][c] == DilateAt(p, r, c, k) {
      assert ValidPos(img, r, c, ch);
      SameGeometryPos(img, d, r, c, ch);
    }
  }

  /** With a centred (odd) element, opening lies between the erosion and the input. */
  lemma AperturaAntiExtensive(img: Image, k: int, i: int, j: int, ch: int)
    requires IsRaster(img) && k >= 1 && k % 2 == 1 && ValidPos(img, i, j, ch)
    ensures SampleAt(Erosion(img, k), i, j, ch) <= SampleAt(Apertura(img, k), i, j, ch) <= SampleAt(img, i, j, ch)
  {
    OpenBelowSample(img, k, i, j, ch);
  }

  lemma OpenBelowSample(img: Image, k: int, i: int, j: int, ch: int)
    requires IsRaster(img) && k >= 1 && k % 2 == 1 && ValidPos(img, i, j, ch)
    ensures DilateAt(Plane(Erosion(img, k), ch), i, j, k) <= SampleAt(img, i, j, ch)
  {
    var e := Erosion(img, k);
    var p, q := Plane(img, ch), Plane(e, ch);
    ErosionPlane(img, k, ch);
    OpenPlaneBelow(p, q, k, i, j);
  }

  /** With a centred (odd) element, closing lies between the input and the dilation. */
  lemma CierreExtensive(img: Image, k: int, i: int, j: int, ch: int)
    requires IsRaster(img) && k >= 1 && k % 2 == 1 && ValidPos(img, i, j, ch)
    ensures SampleAt(img, i, j, ch) <= SampleAt(Cierre(img, k), i, j, ch) <= SampleAt(Dilatacion(img, k), i, j, ch)
  {
    CloseAboveSample(img, k, i, j, ch);
  }

  lemma CloseAboveSample(img: Image, k: int, i: int, j: int, ch: int)
    requires IsRaster(img) && k >= 1 && k % 2 == 1 && ValidPos(img, i, j, ch)
    ensures SampleAt(img, i, j, ch) <= ErodeAt(Plane(Dilatacion(img, k), ch), i, j, k)
  {
    var d := Dilatacion(img, k);
    var p, q := Plane(img, ch), Plane(d, ch);
    DilatacionPlane(img, k, ch);
    ClosePlaneAbove(p, q, k, i, j);
  }

  function SubClamp(x: Byte, y: Byte): Byte { Clamp(x - y) }

  /** gradiente_morfologico: cv2.subtract of the erosion from the dilation,
      sample by sample, saturating at 0. */
  function Gradiente(img: Image, k: int): (r: Image)
    requires IsRaster(img) && k >= 1
    ensures SameGeometry(img, r)
    ensures forall i, j, ch :: ValidPos(img, i, j, ch) ==>
      SampleAt(r, i, j, ch) == SubClamp(SampleAt(Dilatacion(img, k), i, j, ch), SampleAt(Erosion(img, k), i, j, ch))
  {
    var d, e := Dilatacion(img, k), Erosion(img, k);
    ZipSamples(d, e, SubClamp).value
  }

  /** The saturation never bites: the dilation is never below the erosion,
      so the gradient is their exact difference. */
  lemma GradienteExact(img: Image, k: int, i: int, j: int, ch: int)
    requires IsRaster(img) && k >= 1 && ValidPos(img, i, j, ch)
    ensures SampleAt(Gradiente(img, k), i, j, ch) ==
      SampleAt(Dilatacion(img, k), i, j, ch) - SampleAt(Erosion(img, k), i, j, ch)
  {
    ErosionDilatacionBracket(img, k, i, j, ch);
  }
}
