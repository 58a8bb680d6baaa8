/** Thresholding, segmentation and the histogram lookup tables
    (src/practica5.py).

    The gray plane of an image is `Channels.GrayOf`. Statistics (counts,
    sums, means) are taken over the samples of the plane in row order, which
    is what the boolean-mask indexing of NumPy yields. Means are exact
    rationals; the LUT formulas are evaluated exactly and truncated, as the
    uint8 conversion of a clipped non-negative value does. */
module Segmentation {
  import opened Raster
  import Channels
  import Arith

  // ---------------------------------------------------------------------------
  // Samples and their statistics

  /** The samples of a plane, row after row. */
  function Flatten(g: seq<seq<Byte>>): seq<Byte>
  {
    if g == [] then [] else g[0] + Flatten(g[1..])
  }

  /** Every sample of the plane occurs in the flattened list. */
  lemma {:induction false} FlattenContains(g: seq<seq<Byte>>, i: int, j: int)
    requires 0 <= i < |g| && 0 <= j < |g[i]|
    ensures g[i][j] in Flatten(g)
  {
    if i > 0 {
      FlattenContains(g[1..], i - 1, j);
      assert g[1..][i - 1] == g[i];
    }
  }

  function Sum(s: seq<Byte>): nat
  {
    if s == [] then 0 else s[0] + Sum(s[1..])
  }

  /** Number and sum of the samples at most t, and of those above t. */
  function CountLE(s: seq<Byte>, t: int): nat
  {
    if s == [] then 0 else (if s[0] <= t then 1 else 0) + CountLE(s[1..], t)
  }

  function SumLE(s: seq<Byte>, t: int): nat
  {
    if s == [] then 0 else (if s[0] <= t then s[0] else 0) + SumLE(s[1..], t)
  }

  function CountGT(s: seq<Byte>, t: int): nat
  {
    if s == [] then 0 else (if s[0] > t then 1 else 0) + CountGT(s[1..], t)
  }

  function SumGT(s: seq<Byte>, t: int): nat
  {
    if s == [] then 0 else (if s[0] > t then s[0] else 0) + SumGT(s[1..], t)
  }

  /** Number and sum of the samples in (t, u]. */
  function CountIn(s: seq<Byte>, t: int, u: int): nat
  {
    if s == [] then 0 else (if t < s[0] <= u then 1 else 0) + CountIn(s[1..], t, u)
  }

  function SumIn(s: seq<Byte>, t: int, u: int): nat
  {
    if s == [] then 0 else (if t < s[0] <= u then s[0] else 0) + SumIn(s[1..], t, u)
  }

  /** The two classes split the samples. */
  lemma {:induction false} ClassPartition(s: seq<Byte>, t: int)
    ensures CountLE(s, t) + CountGT(s, t) == |s|
    ensures SumLE(s, t) + SumGT(s, t) == Sum(s)
  {
    if s != [] {
      ClassPartition(s[1..], t);
    }
  }

  /** Every sample of the lower class is at most t. */
  lemma {:induction false} LowerClassBound(s: seq<Byte>, t: int)
    ensures SumLE(s, t) <= t * CountLE(s, t)
  {
    if s != [] {
      LowerClassBound(s[1..], t);
      if s[0] <= t {
        assert t * CountLE(s, t) == t + t * CountLE(s[1..], t);
      }
    }
  }

  /** Every sample of the upper class lies in [t + 1, 255]. */
  lemma {:induction false} UpperClassBound(s: seq<Byte>, t: int)
    ensures (t + 1) * CountGT(s, t) <= SumGT(s, t) <= 255 * CountGT(s, t)
  {
    if s != [] {
      UpperClassBound(s[1..], t);
      if s[0] > t {
        assert (t + 1) * CountGT(s, t) == (t + 1) + (t + 1) * CountGT(s[1..], t);
      }
    }
  }

  /** Moving the threshold from t up to u moves the samples in (t, u] from the
      upper class to the lower one. */
  lemma {:induction false} ClassSplit(s: seq<Byte>, t: int, u: int)
    requires t <= u
    ensures CountLE(s, u) == CountLE(s, t) + CountIn(s, t, u)
    ensures SumLE(s, u) == SumLE(s, t) + SumIn(s, t, u)
    ensures CountGT(s, t) == CountIn(s, t, u) + CountGT(s, u)
    ensures SumGT(s, t) == SumIn(s, t, u) + SumGT(s, u)
  {
    if s != [] {
      ClassSplit(s[1..], t, u);
    }
  }

  /** The samples in (t, u] are at least t + 1. */
  lemma {:induction false} BandAbove(s: seq<Byte>, t: int, u: int)
    ensures (t + 1) * CountIn(s, t, u) <= SumIn(s, t, u)
  {
    if s != [] {
      BandAbove(s[1..], t, u);
      if t < s[0] <= u {
        assert (t + 1) * CountIn(s, t, u) == (t + 1) + (t + 1) * CountIn(s[1..], t, u);
      }
    }
  }

  /** The samples in (t, u] are at most u. */
  lemma {:induction false} BandBelow(s: seq<Byte>, t: int, u: int)
    ensures SumIn(s, t, u) <= u * CountIn(s, t, u)
  {
    if s != [] {
      BandBelow(s[1..], t, u);
      if t < s[0] <= u {
        assert u * CountIn(s, t, u) == u + u * CountIn(s[1..], t, u);
      }
    }
  }

  /** When no sample is above x, the upper class of any threshold sums to at most x per sample. */
  lemma {:induction false} NoneAbove(s: seq<Byte>, t: int, x: int)
    requires CountGT(s, x) == 0
    ensures SumGT(s, t) <= x * CountGT(s, t)
  {
    if s != [] {
      NoneAbove(s[1..], t, x);
      if s[0] > t {
        assert x * CountGT(s, t) == x + x * CountGT(s[1..], t);
      }
    }
  }

  /** When no sample is at most x, the lower class of any threshold sums to at least x + 1 per sample. */
  lemma {:induction false} NoneBelow(s: seq<Byte>, t: int, x: int)
    requires CountLE(s, x) == 0
    ensures (x + 1) * CountLE(s, t) <= SumLE(s, t)
  {
    if s != [] {
      NoneBelow(s[1..], t, x);
      if s[0] <= t {
        assert (x + 1) * CountLE(s, t) == (x + 1) + (x + 1) * CountLE(s[1..], t);
      }
    }
  }

  // ---------------------------------------------------------------------------
  // Arithmetic helpers

  lemma DivAtLeast(n: int, d: int, b: int)
    requires d > 0 && b * d <= n
    ensures b <= n / d
  {
    var q, m := n / d, n % d;
    if q < b {
      MulMono(q + 1, b, d);
      assert false;
    }
  }

  /** x > floor(n / d) exactly when x * d > n. */
  lemma AboveQuotient(x: int, n: int, d: int)
    requires d > 0
    ensures x > n / d <==> x * d > n
  {
    var q := n / d;
    if x > q {
      MulMono(q + 1, x, d);
    } else {
      MulMono(x, q, d);
    }
  }

  lemma RealDivLe(a: real, b: real, c: real, d: real)
    requires b > 0.0 && d > 0.0 && a * d <= c * b
    ensures a / b <= c / d
  {
    var x, y := a / b, c / d;
    assert a == x * b && c == y * d;
    assert x * (b * d) <= y * (b * d);
  }

  /** Casting a product of integers to a real multiplies the casts. */
  lemma CastMul(a: int, b: int)
    ensures (a * b) as real == (a as real) * (b as real)
  {
  }

  /** Adding n samples of at least t to a class whose samples are at most t
      does not lower its mean. */
  lemma MeanGrows(sum: int, count: int, add: int, n: int, t: int)
    requires count > 0 && n >= 0 && sum <= t * count && t * n <= add
    ensures sum as real / count as real <= (sum + add) as real / (count + n) as real
  {
    MulMono(sum, t * count, n);
    MulMono(t * n, add, count);
    assert t * count * n == t * n * count;
    CastMul(sum, n);
    CastMul(add, count);
    var s, c, a, m := sum as real, count as real, add as real, n as real;
    assert s * m <= a * c;
    assert s * (c + m) == s * c + s * m;
    assert (s + a) * c == s * c + a * c;
    RealDivLe(s, c, s + a, c + m);
  }

  /** Removing n samples of at most t from a class whose samples are at
      least t does not lower its mean. */
  lemma MeanShrinks(sum: int, count: int, add: int, n: int, t: int)
    requires count > 0 && n >= 0 && add <= t * n && t * count <= sum
    ensures (sum + add) as real / (count + n) as real <= sum as real / count as real
  {
    MulMono(add, t * n, count);
    MulMono(t * count, sum, n);
    assert t * n * count == t * count * n;
    CastMul(sum, n);
    CastMul(add, count);
    var s, c, a, m := sum as real, count as real, add as real, n as real;
    assert a * c <= s * m;
    assert s * (c + m) == s * c + s * m;
    assert (s + a) * c == s * c + a * c;
    RealDivLe(s + a, c + m, s, c);
  }

  // ---------------------------------------------------------------------------
  // Lookup tables

  /** apply_lut: on a gray raster, cv2.LUT indexes the table with every
      sample. A color raster goes through HSV, and only V is looked up; the
      color conversion is a library internal, the parameter `vLut`. */
  function ApplyLut(img: Image, lut: seq<Byte>, vLut: (seq<seq<Rgb>>, seq<Byte>) -> seq<seq<Rgb>>): (r: Image)
    requires |lut| == 256
    ensures img.Gray? ==> r.Gray? && SameShape(r.plane, img.plane)
    ensures img.Gray? ==> forall i, j :: 0 <= i < |img.plane| && 0 <= j < |img.plane[i]| ==>
      r.plane[i][j] == lut[img.plane[i][j]]
    ensures img.Color? ==> r == Color(vLut(img.pixels, lut))
  {
    match img
    case Gray(p) => Gray(MapGrid(p, (x: Byte) => lut[x]))
    case Color(c) => Color(vLut(c, lut))
  }

  /** Looking up through a non-decreasing table keeps the order of samples. */
  lemma ApplyLutMonotone(img: Image, lut: seq<Byte>, vLut: (seq<seq<Rgb>>, seq<Byte>) -> seq<seq<Rgb>>,
                         i1: int, j1: int, i2: int, j2: int)
    requires |lut| == 256 && img.Gray?
    requires forall a, b :: 0 <= a <= b < 256 ==> lut[a] <= lut[b]
    requires 0 <= i1 < |img.plane| && 0 <= j1 < |img.plane[i1]| && 0 <= i2 < |img.plane| && 0 <= j2 < |img.plane[i2]|
    requires img.plane[i1][j1] <= img.plane[i2][j2]
    ensures ApplyLut(img, lut, vLut).plane[i1][j1] <= ApplyLut(img, lut, vLut).plane[i2][j2]
  {
  }

  /** Entry i of the shift table: i + valor, clipped. */
  function ShiftEntry(valor: int, i: int): Byte
  {
    Clamp(i + valor)
  }

  /** The table of desplazar_histograma. */
  function ShiftTable(valor: int): (lut: seq<Byte>)
    ensures |lut| == 256
  {
    seq(256, i => ShiftEntry(valor, i))
  }

  /** The loop of desplazar_histograma: 256 entries, entry i is i + valor clipped. */
  method ShiftLut(valor: int) returns (lut: seq<Byte>)
    ensures lut == ShiftTable(valor)
  {
    var a := new Byte[256];
    for i := 0 to 256
      invariant forall q :: 0 <= q < i ==> a[q] == ShiftEntry(valor, q)
    {
      a[i] := ShiftEntry(valor, i);
    }
    lut := a[..];
  }

  /** The shift table is non-decreasing, and a non-negative shift moves every
      entry up by exactly `valor` or stops it at 255. */
  lemma ShiftTableProperties(valor: int)
    ensures |ShiftTable(valor)| == 256
    ensures forall a, b :: 0 <= a <= b < 256 ==> ShiftTable(valor)[a] <= ShiftTable(valor)[b]
    ensures valor >= 0 ==> forall a :: 0 <= a < 256 ==>
      ShiftTable(valor)[a] == (if a + valor <= 255 then a + valor else 255)
  {
    forall a, b | 0 <= a <= b < 256 ensures ShiftTable(valor)[a] <= ShiftTable(valor)[b] {
      ClampIsMonotone(a + valor, b + valor);
    }
    forall a | 0 <= a < 256 ensures ShiftTable(valor)[a] == Clamp(a + valor) {
    }
  }

  /** desplazar_histograma. */
  method DesplazarHistograma(img: Image, valor: int, vLut: (seq<seq<Rgb>>, seq<Byte>) -> seq<seq<Rgb>>) returns (r: Image)
    ensures r == ApplyLut(img, ShiftTable(valor), vLut)
    ensures img.Gray? ==> r == Arith.SumarEscalar(img, valor)
  {
    var lut := ShiftLut(valor);
    r := ApplyLut(img, lut, vLut);
    if img.Gray? {
      var s := Arith.SumarEscalar(img, valor);
      forall i, j, ch | ValidPos(r, i, j, ch) ensures SampleAt(r, i, j, ch) == SampleAt(s, i, j, ch) {
        SameGeometryPos(img, s, i, j, ch);
      }
      SamplesExt(r, s);
    }
  }

  /** Entry i of the min-max stretch for gray levels lo < hi: (i - lo) * 255 / (hi - lo), clipped and truncated. */
  function StretchEntry(lo: int, hi: int, i: int): Byte
    requires lo < hi
  {
    if i <= lo then 0
    else
      var v := (i - lo) * 255 / (hi - lo);
      if v > 255 then 255 else v
  }

  function StretchTable(lo: int, hi: int): (lut: seq<Byte>)
    requires lo < hi
    ensures |lut| == 256
  {
    seq(256, (i: int) => StretchEntry(lo, hi, i))
  }

  /** The loop of expansion_histograma. */
  method StretchLut(lo: int, hi: int) returns (lut: seq<Byte>)
    requires lo < hi
    ensures lut == StretchTable(lo, hi)
  {
    var a := new Byte[256];
    for i := 0 to 256
      invariant forall q :: 0 <= q < i ==> a[q] == StretchEntry(lo, hi, q)
    {
      a[i] := StretchEntry(lo, hi, i);
    }
    lut := a[..];
  }

  lemma DivMonotone(a: int, b: int, d: int)
    requires a <= b && d > 0
    ensures a / d <= b / d
  {
    var q := b / d;
    if a / d > q {
      MulMono(q + 1, a / d, d);
      assert false;
    }
  }

  /** The stretch is non-decreasing, sends every level up to lo to 0 and
      every level from hi on to 255. */
  lemma StretchTableProperties(lo: int, hi: int)
    requires lo < hi
    ensures |StretchTable(lo, hi)| == 256
    ensures forall a, b :: 0 <= a <= b < 256 ==> StretchTable(lo, hi)[a] <= StretchTable(lo, hi)[b]
    ensures forall a :: 0 <= a < 256 && a <= lo ==> StretchTable(lo, hi)[a] == 0
    ensures forall a :: 0 <= a < 256 && hi <= a ==> StretchTable(lo, hi)[a] == 255
  {
    var t := StretchTable(lo, hi);
    forall a, b | 0 <= a <= b < 256 ensures t[a] <= t[b] {
      if a > lo {
        MulMono(a - lo, b - lo, 255);
        DivMonotone((a - lo) * 255, (b - lo) * 255, hi - lo);
      }
    }
    forall a | 0 <= a < 256 && hi <= a ensures t[a] == 255 {
      MulMono(hi - lo, a - lo, 255);
      DivAtLeast((a - lo) * 255, hi - lo, 255);
    }
  }

  /** minMaxLoc of the gray plane; None for an empty raster. */
  function GrayRange(img: Image, luma: Rgb -> Byte): (r: Option<(Byte, Byte)>)
    ensures var f := Flatten(Channels.GrayOf(img, luma));
      r.Some? <==> |f| > 0
    ensures r.Some? ==> forall x :: x in Flatten(Channels.GrayOf(img, luma)) ==> r.value.0 <= x <= r.value.1
    ensures r.Some? ==> r.value.0 in Flatten(Channels.GrayOf(img, luma)) && r.value.1 in Flatten(Channels.GrayOf(img, luma))
  {
    var f := Flatten(Channels.GrayOf(img, luma));
    if |f| == 0 then None else Some((RangeMin(f, 0, |f|), RangeMax(f, 0, |f|)))
  }

  /** expansion_histograma: a flat (or empty) image is returned as it is;
      otherwise the stretch table for the gray minimum and maximum is applied. */
  method ExpansionHistograma(img: Image, luma: Rgb -> Byte, vLut: (seq<seq<Rgb>>, seq<Byte>) -> seq<seq<Rgb>>) returns (r: Image)
    ensures GrayRange(img, luma).None? ==> r == img
    ensures GrayRange(img, luma).Some? && GrayRange(img, luma).value.0 == GrayRange(img, luma).value.1 ==> r == img
    ensures GrayRange(img, luma).Some? && GrayRange(img, luma).value.0 < GrayRange(img, luma).value.1 ==>
      r == ApplyLut(img, StretchTable(GrayRange(img, luma).value.0, GrayRange(img, luma).value.1), vLut)
  {
    var range := GrayRange(img, luma);
    if range.None? {
      return img;
    }
    var (lo, hi) := range.value;
    if hi - lo == 0 {
      return img;
    }
    var lut := StretchLut(lo, hi);
    r := ApplyLut(img, lut, vLut);
  }

  /** On a gray raster that is not flat, the stretch sends its darkest
      samples to 0 and its brightest to 255. */
  lemma ExpansionGrayEnds(img: Image, luma: Rgb -> Byte, vLut: (seq<seq<Rgb>>, seq<Byte>) -> seq<seq<Rgb>>, i: int, j: int)
    requires img.Gray? && 0 <= i < |img.plane| && 0 <= j < |img.plane[i]|
    requires GrayRange(img, luma).Some? && GrayRange(img, luma).value.0 < GrayRange(img, luma).value.1
    ensures var (lo, hi) := GrayRange(img, luma).value;
      var out := ApplyLut(img, StretchTable(lo, hi), vLut).plane[i][j];
      (img.plane[i][j] == lo ==> out == 0) && (img.plane[i][j] == hi ==> out == 255)
  {
    var (lo, hi) := GrayRange(img, luma).value;
    StretchTableProperties(lo, hi);
  }

  /** Entry i of the compression to [minOut, maxOut]: minOut + (maxOut - minOut) * i / 255, clipped and truncated. */
  function ContractEntry(minOut: int, maxOut: int, i: int): Byte
  {
    Clamp(minOut + ((maxOut - minOut) * i) / 255)
  }

  function ContractTable(minOut: int, maxOut: int): (lut: seq<Byte>)
    ensures |lut| == 256
  {
    seq(256, (i: int) => ContractEntry(minOut, maxOut, i))
  }

  /** The loop of contraccion_histograma. */
  method ContractLut(minOut: int, maxOut: int) returns (lut: seq<Byte>)
    ensures lut == ContractTable(minOut, maxOut)
  {
    var a := new Byte[256];
    for i := 0 to 256
      invariant forall q :: 0 <= q < i ==> a[q] == ContractEntry(minOut, maxOut, q)
    {
      a[i] := ContractEntry(minOut, maxOut, i);
    }
    lut := a[..];
  }

  /** The exact value before clipping and truncation, for the record: floor
      of the rational formula equals the integer one. */
  lemma ContractEntryExact(minOut: int, maxOut: int, i: int)
    ensures ContractEntry(minOut, maxOut, i) == ClipFloor(minOut as real + (maxOut - minOut) as real * i as real / 255.0)
  {
    var n := (maxOut - minOut) * i;
    var q := n / 255;
    var x := minOut as real + (maxOut - minOut) as real * i as real / 255.0;
    assert x == minOut as real + n as real / 255.0;
    assert q as real <= n as real / 255.0 < q as real + 1.0 by {
      assert q * 255 <= n < (q + 1) * 255;
    }
    assert x.Floor == minOut + q;
  }

  /** With minOut <= maxOut the compression table is non-decreasing. */
  lemma ContractTableMonotone(minOut: int, maxOut: int)
    requires minOut <= maxOut
    ensures forall a, b :: 0 <= a <= b < 256 ==> ContractTable(minOut, maxOut)[a] <= ContractTable(minOut, maxOut)[b]
  {
    var t := ContractTable(minOut, maxOut);
    var d := maxOut - minOut;
    forall a, b | 0 <= a <= b < 256 ensures t[a] <= t[b] {
      MulMono(a, b, d);
      DivMonotone(d * a, d * b, 255);
      ClampIsMonotone(minOut + (d * a) / 255, minOut + (d * b) / 255);
    }
  }

  /** The compression table starts at minOut and ends at maxOut, when those are valid levels. */
  lemma ContractTableEnds(minOut: int, maxOut: int)
    ensures 0 <= minOut <= 255 ==> ContractTable(minOut, maxOut)[0] == minOut
    ensures 0 <= maxOut <= 255 ==> ContractTable(minOut, maxOut)[255] == maxOut
  {
    var d := maxOut - minOut;
    DivMod(d * 255, 255, d, 0);
    DivMod(d * 0, 255, 0, 0);
  }

  /** For valid levels minOut <= maxOut every entry lies between them. */
  lemma ContractTableWithin(minOut: int, maxOut: int)
    requires 0 <= minOut <= maxOut <= 255
    ensures forall a :: 0 <= a < 256 ==> minOut <= ContractTable(minOut, maxOut)[a] <= maxOut
  {
    var t := ContractTable(minOut, maxOut);
    var d := maxOut - minOut;
    DivMod(d * 255, 255, d, 0);
    DivMod(d * 0, 255, 0, 0);
    forall a | 0 <= a < 256 ensures minOut <= t[a] <= maxOut {
      MulMono(0, a, d);
      MulMono(a, 255, d);
      DivMonotone(d * 0, d * a, 255);
      DivMonotone(d * a, d * 255, 255);
    }
  }

  /** Compressing to [0, 255] is the identity table. */
  lemma ContractTableIdentity()
    ensures ContractTable(0, 255) == seq(256, i requires 0 <= i < 256 => i)
  {
    forall a | 0 <= a < 256 ensures ContractTable(0, 255)[a] == a {
      DivMod(255 * a, 255, a, 0);
    }
  }

  /** contraccion_histograma. */
  method ContraccionHistograma(img: Image, minOut: int, maxOut: int, vLut: (seq<seq<Rgb>>, seq<Byte>) -> seq<seq<Rgb>>) returns (r: Image)
    ensures r == ApplyLut(img, ContractTable(minOut, maxOut), vLut)
  {
    var lut := ContractLut(minOut, maxOut);
    r := ApplyLut(img, lut, vLut);
  }

  // ---------------------------------------------------------------------------
  // Thresholds

  /** seg_media: the mean of the gray plane as the THRESH_BINARY threshold.
      OpenCV floors a fractional threshold on 8-bit data, and an integer
      sample is above floor(mean) exactly when it is above the mean. */
  function SegMedia(img: Image, luma: Rgb -> Byte): (r: Image)
    ensures r.Gray? && SameShape(r.plane, Channels.GrayOf(img, luma))
    ensures forall i, j :: 0 <= i < |r.plane| && 0 <= j < |r.plane[i]| ==>
      var f := Flatten(Channels.GrayOf(img, luma));
      var x := Channels.GrayOf(img, luma)[i][j];
      (r.plane[i][j] == 255 <==> x * |f| > Sum(f)) && (r.plane[i][j] == 0 <==> x * |f| <= Sum(f))
  {
    var g := Channels.GrayOf(img, luma);
    var f := Flatten(g);
    var t := if |f| == 0 then 0 else Sum(f) / |f|;
    var r := Gray(ThreshBinary(g, t));
    forall i, j | 0 <= i < |g| && 0 <= j < |g[i]| ensures g[i][j] > t <==> g[i][j] * |f| > Sum(f) {
      FlattenContains(g, i, j);
      AboveQuotient(g[i][j], Sum(f), |f|);
    }
    r
  }

  /** seg_umbral_banda: 255 exactly where lower <= gray <= upper (cv2.inRange is inclusive). */
  function SegUmbralBanda(img: Image, lower: int, upper: int, luma: Rgb -> Byte): (r: Image)
    ensures r.Gray? && SameShape(r.plane, Channels.GrayOf(img, luma))
    ensures forall i, j :: 0 <= i < |r.plane| && 0 <= j < |r.plane[i]| ==>
      var x := Channels.GrayOf(img, luma)[i][j];
      (r.plane[i][j] == 255 <==> lower <= x <= upper) && (r.plane[i][j] == 0 <==> !(lower <= x <= upper))
  {
    Gray(InRange(Channels.GrayOf(img, luma), lower, upper))
  }

  /** The second threshold of seg_multiumbral: the truncated mean of the
      samples above the first one, when there are any. */
  function SegundoUmbral(f: seq<Byte>, thresh1: int): (t2: Option<int>)
    ensures t2.Some? <==> CountGT(f, thresh1) > 0
    ensures t2.Some? ==> thresh1 < t2.value <= 255
  {
    var c := CountGT(f, thresh1);
    if c == 0 then None
    else
      UpperClassBound(f, thresh1);
      DivAtLeast(SumGT(f, thresh1), c, thresh1 + 1);
      DivMonotone(SumGT(f, thresh1), 255 * c, c);
      DivMod(255 * c, c, 255, 0);
      Some(SumGT(f, thresh1) / c)
  }

  /** seg_multiumbral, with the Otsu threshold thresh1 as an input: 127 above
      thresh1, then 255 above the second threshold. */
  function SegMultiumbral(img: Image, thresh1: int, luma: Rgb -> Byte): (r: Image)
    ensures r.Gray? && SameShape(r.plane, Channels.GrayOf(img, luma))
    ensures forall i, j :: 0 <= i < |r.plane| && 0 <= j < |r.plane[i]| ==>
      var x := Channels.GrayOf(img, luma)[i][j];
      var t2 := SegundoUmbral(Flatten(Channels.GrayOf(img, luma)), thresh1);
      r.plane[i][j] in {0, 127, 255} &&
      (r.plane[i][j] == 0 <==> x <= thresh1) &&
      (r.plane[i][j] == 255 <==> t2.Some? && x > t2.value)
  {
    var g := Channels.GrayOf(img, luma);
    var t2 := SegundoUmbral(Flatten(g), thresh1);
    var mid := MapGrid<Byte, Byte>(g, (x: Byte) => if x > thresh1 then 127 as Byte else 0 as Byte);
    if t2.None? then Gray(mid)
    else
      var top: Byte := 255;
      Gray(ZipGrid<Byte, Byte, Byte>(mid, g, (m: Byte, x: Byte) => if x > t2.value then top else m))
  }

  // ---------------------------------------------------------------------------
  // Isodata (seg_min_histograma)

  /** Both classes of threshold t are populated. */
  predicate Split(s: seq<Byte>, t: int)
  {
    CountLE(s, t) > 0 && CountGT(s, t) > 0
  }

  function MeanLE(s: seq<Byte>, t: int): real
    requires CountLE(s, t) > 0
  {
    SumLE(s, t) as real / CountLE(s, t) as real
  }

  function MeanGT(s: seq<Byte>, t: int): real
    requires CountGT(s, t) > 0
  {
    SumGT(s, t) as real / CountGT(s, t) as real
  }

  /** A mean of samples bounded by lo and hi lies between them. */
  lemma MeanBetween(sum: int, count: int, lo: int, hi: int)
    requires count > 0 && lo * count <= sum <= hi * count
    ensures lo as real <= sum as real / count as real <= hi as real
  {
    RealDivLe(lo as real, 1.0, sum as real, count as real);
    RealDivLe(sum as real, count as real, hi as real, 1.0);
  }

  /** The lower mean lies in [0, t] and the upper one in [t + 1, 255]. */
  lemma MeanBounds(s: seq<Byte>, t: int)
    requires Split(s, t)
    ensures 0.0 <= MeanLE(s, t) <= t as real
    ensures (t + 1) as real <= MeanGT(s, t) <= 255.0
  {
    LowerClassBound(s, t);
    UpperClassBound(s, t);
    MeanBetween(SumLE(s, t), CountLE(s, t), 0, t);
    MeanBetween(SumGT(s, t), CountGT(s, t), t + 1, 255);
  }

  /** One Isodata step: the truncated midpoint of the two class means. */
  function IsodataStep(s: seq<Byte>, t: int): (nt: int)
    requires Split(s, t)
    ensures 0 <= nt <= 255
  {
    MeanBounds(s, t);
    ((MeanLE(s, t) + MeanGT(s, t)) / 2.0).Floor
  }

  /** A higher threshold never gives a lower step: both class means grow with t. */
  lemma IsodataStepMonotone(s: seq<Byte>, t: int, u: int)
    requires t <= u && Split(s, t) && Split(s, u)
    ensures IsodataStep(s, t) <= IsodataStep(s, u)
  {
    LowerClassBound(s, t);
    UpperClassBound(s, u);
    ClassSplit(s, t, u);
    BandAbove(s, t, u);
    BandBelow(s, t, u);
    var n, a := CountIn(s, t, u), SumIn(s, t, u);
    MulMono(t, t + 1, n);
    MeanGrows(SumLE(s, t), CountLE(s, t), a, n, t);
    MulMono(u, u + 1, CountGT(s, u));
    MeanShrinks(SumGT(s, u), CountGT(s, u), a, n, u);
    assert MeanLE(s, t) <= MeanLE(s, u);
    assert MeanGT(s, t) <= MeanGT(s, u);
  }

  /** The floor of the midpoint of m1 < m2 lies below m2, and one above it lies above m1. */
  lemma MidpointFloor(m1: real, m2: real)
    requires m1 < m2
    ensures ((m1 + m2) / 2.0).Floor as real < m2
    ensures m1 < (((m1 + m2) / 2.0).Floor + 1) as real
  {
  }

  /** The step keeps both classes populated: it lies at or above the lower
      mean's floor and below the upper mean. */
  lemma IsodataStepSplits(s: seq<Byte>, t: int)
    requires Split(s, t)
    ensures Split(s, IsodataStep(s, t))
  {
    var nt := IsodataStep(s, t);
    MeanBounds(s, t);
    MidpointFloor(MeanLE(s, t), MeanGT(s, t));
    if CountGT(s, nt) == 0 {
      NoneAbove(s, t, nt);
      UpperClassBound(s, t);
      MeanBetween(SumGT(s, t), CountGT(s, t), t + 1, nt);
      assert false;
    }
    if CountLE(s, nt) == 0 {
      NoneBelow(s, t, nt);
      LowerClassBound(s, t);
      MeanBetween(SumLE(s, t), CountLE(s, t), nt + 1, t);
      assert false;
    }
  }

  /** Where the Isodata loop may stop: an empty class or a fixed point. */
  predicate IsodataStops(s: seq<Byte>, t: int)
  {
    0 <= t <= 255 && (!Split(s, t) || IsodataStep(s, t) == t)
  }

  /** t splits the samples and the step leaves it where it is. */
  predicate Fixed(s: seq<Byte>, t: int)
  {
    Split(s, t) && IsodataStep(s, t) == t
  }

  /** The threshold the loop from 128 ends on: 128 itself when 128 does not
      split the samples; otherwise the nearest fixed point in the direction of
      the first step (the least one at or above 128 when the step from 128 goes
      up, the greatest one at or below 128 when it goes down). */
  predicate IsodataResult(s: seq<Byte>, t: int)
  {
    0 <= t <= 255 &&
    (!Split(s, 128) ==> t == 128) &&
    (Split(s, 128) ==>
       Fixed(s, t) &&
       (IsodataStep(s, 128) >= 128 ==> 128 <= t && forall u :: 128 <= u < t ==> !Fixed(s, u)) &&
       (IsodataStep(s, 128) <= 128 ==> t <= 128 && forall u :: t < u <= 128 ==> !Fixed(s, u)))
  }

  /** The description above fixes the threshold: at most one t meets it. */
  lemma IsodataResultUnique(s: seq<Byte>, t1: int, t2: int)
    requires IsodataResult(s, t1) && IsodataResult(s, t2)
    ensures t1 == t2
  {
  }

  /** The loop of seg_min_histograma, from t = 128. It always stops: after the
      first move every step goes the same way, because the step is monotone in
      t, and every threshold it passes over steps further on, so it ends on the
      first fixed point in that direction. */
  method Isodata(s: seq<Byte>) returns (t: int)
    ensures IsodataStops(s, t)
    ensures IsodataResult(s, t)
  {
    t := 128;
    ghost var dir := 0;
    while true
      invariant 0 <= t <= 255
      invariant dir == 0 ==> t == 128
      invariant !Split(s, 128) ==> t == 128
      invariant Split(s, 128) ==> Split(s, t)
      invariant dir == 1 ==> Split(s, t) && IsodataStep(s, t) >= t && t > 128
      invariant dir == -1 ==> Split(s, t) && IsodataStep(s, t) <= t && t < 128
      invariant -1 <= dir <= 1
      invariant Split(s, 128) && IsodataStep(s, 128) >= 128 ==> dir != -1
      invariant Split(s, 128) && IsodataStep(s, 128) <= 128 ==> dir != 1
      invariant dir == 1 ==> forall u :: 128 <= u < t ==> !Fixed(s, u)
      invariant dir == -1 ==> forall u :: t < u <= 128 ==> !Fixed(s, u)
      decreases (if dir == 0 then 1 else 0), (if dir == 1 then 255 - t else if dir == -1 then t else 0)
    {
      if CountLE(s, t) == 0 || CountGT(s, t) == 0 {
        break;
      }
      var nt := IsodataStep(s, t);
      if nt == t {
        break;
      }
      IsodataStepSplits(s, t);
      if nt > t {
        IsodataStepMonotone(s, t, nt);
        PassedUp(s, t, nt);
        dir := 1;
      } else {
        IsodataStepMonotone(s, nt, t);
        PassedDown(s, t, nt);
        dir := -1;
      }
      t := nt;
    }
  }

  /** A step upward from t to nt passes over no fixed point: every u in
      [t, nt) steps to at least nt. */
  lemma PassedUp(s: seq<Byte>, t: int, nt: int)
    requires Split(s, t) && Split(s, nt) && t < nt && IsodataStep(s, t) == nt
    ensures forall u :: t <= u < nt ==> !Fixed(s, u)
  {
    forall u | t <= u < nt && Split(s, u)
      ensures IsodataStep(s, u) != u
    {
      IsodataStepMonotone(s, t, u);
    }
  }

  /** A step downward from t to nt passes over no fixed point: every u in
      (nt, t] steps to at most nt. */
  lemma PassedDown(s: seq<Byte>, t: int, nt: int)
    requires Split(s, t) && Split(s, nt) && nt < t && IsodataStep(s, t) == nt
    ensures forall u :: nt < u <= t ==> !Fixed(s, u)
  {
    forall u | nt < u <= t && Split(s, u)
      ensures IsodataStep(s, u) != u
    {
      IsodataStepMonotone(s, u, t);
    }
  }

  /** seg_min_histograma: binarise at the Isodata threshold. */
  method SegMinHistograma(img: Image, luma: Rgb -> Byte) returns (r: Image)
    ensures exists t :: (IsodataResult(Flatten(Channels.GrayOf(img, luma)), t) &&
                         r == Gray(ThreshBinary(Channels.GrayOf(img, luma), t)))
  {
    var g := Channels.GrayOf(img, luma);
    var t := Isodata(Flatten(g));
    r := Gray(ThreshBinary(g, t));
  }
}
