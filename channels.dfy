/** Grayscale conversion, manual binarisation and the RGB / CMY channel views
    (src/practica1.py). The RGB-to-gray weighting of cv2.cvtColor is a library
    internal: it is the parameter `luma` wherever a color raster is reduced to
    one channel. */
module Channels {
  import opened Raster

  /** convertir_a_grises: a single-channel raster is returned as it is; a color
      raster is reduced pixel by pixel with `luma`. The same reduction is
      get_gray in the segmentation code and preparar_bordes in the filters. */
  function ConvertirAGrises(img: Image, luma: Rgb -> Byte): (r: Image)
    ensures r.Gray?
    ensures img.Gray? ==> r == img
    ensures img.Color? ==> SameShape(r.plane, img.pixels)
    ensures img.Color? ==> forall i, j :: 0 <= i < |img.pixels| && 0 <= j < |img.pixels[i]| ==>
      r.plane[i][j] == luma(img.pixels[i][j])
  {
    match img
    case Gray(_) => img
    case Color(c) => Gray(MapGrid(c, luma))
  }

  /** The plane that every gray-only transform works on. */
  function GrayOf(img: Image, luma: Rgb -> Byte): seq<seq<Byte>>
  {
    ConvertirAGrises(img, luma).plane
  }

  lemma GrayOfShape(img: Image, luma: Rgb -> Byte)
    ensures |GrayOf(img, luma)| == Height(img)
    ensures IsRaster(img) ==> IsRect(GrayOf(img, luma)) && Width(GrayOf(img, luma)) == ImageWidth(img)
  {
    if img.Color? && IsRaster(img) {
      MapGridKeepsRect(img.pixels, GrayOf(img, luma));
    }
  }

  /** Converting twice is converting once. */
  lemma ConvertirAGrisesIdempotent(img: Image, luma: Rgb -> Byte)
    ensures ConvertirAGrises(ConvertirAGrises(img, luma), luma) == ConvertirAGrises(img, luma)
  {
  }

  /** binarizar_manual: 255 exactly where the gray level is above `umbral`, else 0. */
  function BinarizarManual(img: Image, umbral: int, luma: Rgb -> Byte): (r: Image)
    ensures r.Gray? && |r.plane| == Height(img)
    ensures SameShape(r.plane, GrayOf(img, luma))
    ensures forall i, j :: 0 <= i < |r.plane| && 0 <= j < |r.plane[i]| ==>
      (r.plane[i][j] == 255 <==> GrayOf(img, luma)[i][j] > umbral) &&
      (r.plane[i][j] == 0 <==> GrayOf(img, luma)[i][j] <= umbral)
  {
    GrayOfShape(img, luma);
    Gray(ThreshBinary(GrayOf(img, luma), umbral))
  }

  /** Number of white (255) samples in a row and in a plane. */
  function CountWhiteRow(row: seq<Byte>): nat
  {
    if row == [] then 0 else (if row[0] == 255 then 1 else 0) + CountWhiteRow(row[1..])
  }

  function CountWhite(g: seq<seq<Byte>>): nat
  {
    if g == [] then 0 else CountWhiteRow(g[0]) + CountWhite(g[1..])
  }

  /** A row that is white wherever `a` is white has at least as many white samples. */
  lemma {:induction false} CountWhiteRowMono(a: seq<Byte>, b: seq<Byte>)
    requires |a| == |b|
    requires forall j :: 0 <= j < |a| && a[j] == 255 ==> b[j] == 255
    ensures CountWhiteRow(a) <= CountWhiteRow(b)
  {
    if a != [] {
      CountWhiteRowMono(a[1..], b[1..]);
    }
  }

  lemma {:induction false} CountWhiteMono(a: seq<seq<Byte>>, b: seq<seq<Byte>>)
    requires SameShape(a, b)
    requires forall i, j :: 0 <= i < |a| && 0 <= j < |a[i]| && a[i][j] == 255 ==> b[i][j] == 255
    ensures CountWhite(a) <= CountWhite(b)
  {
    if a != [] {
      CountWhiteRowMono(a[0], b[0]);
      CountWhiteMono(a[1..], b[1..]);
    }
  }

  /** Raising the threshold never adds white pixels. */
  lemma BinarizarManualMonotone(img: Image, t1: int, t2: int, luma: Rgb -> Byte)
    requires t1 <= t2
    ensures CountWhite(BinarizarManual(img, t2, luma).plane) <= CountWhite(BinarizarManual(img, t1, luma).plane)
  {
    CountWhiteMono(BinarizarManual(img, t2, luma).plane, BinarizarManual(img, t1, luma).plane);
  }

  /** obtener_canales_rgb_visual: the red, green and blue channels, each shown as
      a tinted color image of the input's size. */
  function ObtenerCanalesRgbVisual(c: seq<seq<Rgb>>): (v: (seq<seq<Rgb>>, seq<seq<Rgb>>, seq<seq<Rgb>>))
    ensures SameShape(v.0, c) && SameShape(v.1, c) && SameShape(v.2, c)
    ensures forall i, j :: 0 <= i < |c| && 0 <= j < |c[i]| ==>
      v.0[i][j] == Rgb(c[i][j].r, 0, 0) && v.1[i][j] == Rgb(0, c[i][j].g, 0) && v.2[i][j] == Rgb(0, 0, c[i][j].b)
  {
    var r, g, b := Channel(c, 0), Channel(c, 1), Channel(c, 2);
    var zeros := MapGrid(r, (_: Byte) => 0 as Byte);
    (Merge(r, zeros, zeros), Merge(zeros, g, zeros), Merge(zeros, zeros, b))
  }

  /** Adding the three RGB views channel by channel gives back the original. */
  lemma RgbVisualsRecompose(c: seq<seq<Rgb>>, i: nat, j: nat)
    requires i < |c| && j < |c[i]|
    ensures var v := ObtenerCanalesRgbVisual(c);
      v.0[i][j].r + v.1[i][j].r + v.2[i][j].r == c[i][j].r &&
      v.0[i][j].g + v.1[i][j].g + v.2[i][j].g == c[i][j].g &&
      v.0[i][j].b + v.1[i][j].b + v.2[i][j].b == c[i][j].b
  {
  }

  /** `255 - img` on an 8-bit color raster: C = 255 - R, M = 255 - G, Y = 255 - B. */
  function InvertirCmy(c: seq<seq<Rgb>>): (k: seq<seq<Rgb>>)
    ensures SameShape(k, c)
    ensures forall i, j :: 0 <= i < |c| && 0 <= j < |c[i]| ==>
      k[i][j].r + c[i][j].r == 255 && k[i][j].g + c[i][j].g == 255 && k[i][j].b + c[i][j].b == 255
  {
    MapGrid(c, (p: Rgb) => Rgb(255 - p.r, 255 - p.g, 255 - p.b))
  }

  /** The inversion is its own inverse. */
  lemma {:induction false} InvertirCmyInvolution(c: seq<seq<Rgb>>)
    ensures InvertirCmy(InvertirCmy(c)) == c
  {
    var k := InvertirCmy(InvertirCmy(c));
    assert |k| == |c|;
    forall i | 0 <= i < |c| ensures k[i] == c[i] {
      assert |k[i]| == |c[i]|;
      forall j | 0 <= j < |c[i]| ensures k[i][j] == c[i][j] {
      }
    }
  }

  /** obtener_canales_cmy_visual: cyan shown as (0, C, C), magenta as (M, 0, M),
      yellow as (Y, Y, 0), where C, M, Y are the inverted R, G, B. */
  function ObtenerCanalesCmyVisual(c: seq<seq<Rgb>>): (v: (seq<seq<Rgb>>, seq<seq<Rgb>>, seq<seq<Rgb>>))
    ensures SameShape(v.0, c) && SameShape(v.1, c) && SameShape(v.2, c)
    ensures forall i, j :: 0 <= i < |c| && 0 <= j < |c[i]| ==>
      var cy, ma, ye := 255 - c[i][j].r, 255 - c[i][j].g, 255 - c[i][j].b;
      v.0[i][j] == Rgb(0, cy, cy) && v.1[i][j] == Rgb(ma, 0, ma) && v.2[i][j] == Rgb(ye, ye, 0)
  {
    var k := InvertirCmy(c);
    var cy, ma, ye := Channel(k, 0), Channel(k, 1), Channel(k, 2);
    var zeros := MapGrid(cy, (_: Byte) => 0 as Byte);
    (Merge(zeros, cy, cy), Merge(ma, zeros, ma), Merge(ye, ye, zeros))
  }
}
