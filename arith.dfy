/** Scalar and two-image arithmetic, and bitwise logic (src/practica3.py).

    Addition and subtraction saturate at 0 and 255 (cv2.add, cv2.subtract);
    multiplication computes in floating point, clips and truncates, which on
    exact rationals is `ClipFloor`. The secondary operand of a two-image
    operation is first resampled to the primary's height and width. */
module Arith {
  import opened Raster

  // ---------------------------------------------------------------------------
  // Scalar operations

  /** sumar_escalar: every sample of every channel becomes `x + valor`, saturated. */
  function SumarEscalar(img: Image, valor: int): (r: Image)
    ensures SameGeometry(img, r)
    ensures forall i, j, ch :: ValidPos(img, i, j, ch) ==> SampleAt(r, i, j, ch) == Clamp(SampleAt(img, i, j, ch) + valor)
  {
    MapSamples(img, (x: Byte) => Clamp(x + valor))
  }

  /** Adding a non-negative scalar never wraps around: each sample grows to
      `x + valor`, or stops at 255. */
  lemma SumarEscalarSaturates(img: Image, valor: int, i: int, j: int, ch: int)
    requires valor >= 0 && ValidPos(img, i, j, ch)
    ensures var x, y := SampleAt(img, i, j, ch), SampleAt(SumarEscalar(img, valor), i, j, ch);
      x <= y && y == (if x + valor <= 255 then x + valor else 255)
  {
  }

  /** restar_escalar: every sample becomes `x - valor`, saturated. */
  function RestarEscalar(img: Image, valor: int): (r: Image)
    ensures SameGeometry(img, r)
    ensures forall i, j, ch :: ValidPos(img, i, j, ch) ==> SampleAt(r, i, j, ch) == Clamp(SampleAt(img, i, j, ch) - valor)
  {
    MapSamples(img, (x: Byte) => Clamp(x - valor))
  }

  /** Subtracting a non-negative scalar gives `max(x - valor, 0)`: it never wraps. */
  lemma RestarEscalarSaturates(img: Image, valor: int, i: int, j: int, ch: int)
    requires valor >= 0 && ValidPos(img, i, j, ch)
    ensures var x, y := SampleAt(img, i, j, ch), SampleAt(RestarEscalar(img, valor), i, j, ch);
      y <= x && y == (if x - valor >= 0 then x - valor else 0)
  {
  }

  /** Adding then subtracting the same scalar restores every sample that did
      not saturate on the way up. */
  lemma SumarRestarRoundTrip(img: Image, valor: int, i: int, j: int, ch: int)
    requires valor >= 0 && ValidPos(img, i, j, ch)
    ensures ValidPos(SumarEscalar(img, valor), i, j, ch)
    ensures SampleAt(img, i, j, ch) + valor <= 255 ==>
      SampleAt(RestarEscalar(SumarEscalar(img, valor), valor), i, j, ch) == SampleAt(img, i, j, ch)
  {
    SameGeometryPos(img, SumarEscalar(img, valor), i, j, ch);
  }

  /** One sample scaled by `valor`, clipped to [0, 255] and truncated. */
  function Scale(x: Byte, valor: real): Byte
  {
    ClipFloor(x as real * valor)
  }

  /** multiplicar_escalar: every sample becomes `floor(clip(x * valor, 0, 255))`. */
  function MultiplicarEscalar(img: Image, valor: real): (r: Image)
    ensures SameGeometry(img, r)
    ensures forall i, j, ch :: ValidPos(img, i, j, ch) ==> SampleAt(r, i, j, ch) == Scale(SampleAt(img, i, j, ch), valor)
  {
    MapSamples(img, (x: Byte) => Scale(x, valor))
  }

  /** A factor in [0, 1] darkens a sample, a factor of 1 leaves it as it is. */
  lemma ScaleBounds(x: Byte, valor: real)
    requires 0.0 <= valor <= 1.0
    ensures Scale(x, valor) <= x
    ensures valor == 1.0 ==> Scale(x, valor) == x
  {
    var p := x as real * valor;
    assert 0.0 <= p by {
      assert 0.0 <= x as real;
    }
    assert p <= x as real by {
      var d := 1.0 - valor;
      assert 0.0 <= x as real * d;
      assert x as real * valor + x as real * d == x as real;
    }
    assert Scale(x, valor) as real <= p;
  }

  lemma MultiplicarEscalarBounds(img: Image, valor: real, i: int, j: int, ch: int)
    requires 0.0 <= valor <= 1.0 && ValidPos(img, i, j, ch)
    ensures SampleAt(MultiplicarEscalar(img, valor), i, j, ch) <= SampleAt(img, i, j, ch)
    ensures valor == 1.0 ==> SampleAt(MultiplicarEscalar(img, valor), i, j, ch) == SampleAt(img, i, j, ch)
  {
    ScaleBounds(SampleAt(img, i, j, ch), valor);
  }

  // ---------------------------------------------------------------------------
  // Two-image operations

  /** preparar_img_secundaria: the secondary image resampled to the primary's
      height and width. cv2.resize refuses an empty source and an empty target
      size. */
  function PrepararImgSecundaria(base: Image, sec: Image): (r: Result<Image>)
    requires IsRaster(sec)
    ensures r.Ok? <==> Height(base) > 0 && ImageWidth(base) > 0 && Height(sec) > 0 && ImageWidth(sec) > 0
    ensures r.Ok? ==> r.value.Gray? == sec.Gray? && IsRaster(r.value)
    ensures r.Ok? ==> Height(r.value) == Height(base) && ImageWidth(r.value) == ImageWidth(base)
    ensures r.Ok? ==> forall i, j, ch :: ValidPos(r.value, i, j, ch) ==>
      var si, sj := NearestIndex(i, Height(base), Height(sec)), NearestIndex(j, ImageWidth(base), ImageWidth(sec));
      ValidPos(sec, si, sj, ch) && SampleAt(r.value, i, j, ch) == SampleAt(sec, si, sj, ch)
    ensures r.Ok? && Height(sec) == Height(base) && ImageWidth(sec) == ImageWidth(base) ==> r.value == sec
  {
    var h, w := Height(base), ImageWidth(base);
    if h == 0 || w == 0 || Height(sec) == 0 || ImageWidth(sec) == 0 then Err("empty image")
    else
      match sec
      case Gray(p) => Ok(Gray(Resize(p, h, w)))
      case Color(c) => Ok(Color(Resize(c, h, w)))
  }

  /** When a two-image operation succeeds: both operands are non-empty (so the
      secondary can be resampled) and they have the same number of channels. */
  predicate DualDefined(a: Image, b: Image)
  {
    Height(a) > 0 && ImageWidth(a) > 0 && Height(b) > 0 && ImageWidth(b) > 0 && a.Gray? == b.Gray?
  }

  /** The shared shape of every two-image operation: resample the secondary
      operand, then combine samplewise with `f`. */
  function Dual(a: Image, b: Image, f: (Byte, Byte) -> Byte): (r: Result<Image>)
    requires IsRaster(a) && IsRaster(b)
    ensures r.Ok? <==> DualDefined(a, b)
    ensures r.Ok? ==> SameGeometry(a, r.value)
    ensures r.Ok? ==> forall i, j, ch :: ValidPos(a, i, j, ch) ==>
      ValidPos(PrepararImgSecundaria(a, b).value, i, j, ch) &&
      SampleAt(r.value, i, j, ch) == f(SampleAt(a, i, j, ch), SampleAt(PrepararImgSecundaria(a, b).value, i, j, ch))
  {
    var prepared := PrepararImgSecundaria(a, b);
    if prepared.Err? then Err(prepared.msg)
    else ZipSamples(a, prepared.value, f)
  }

  /** Saturating sum and difference of two samples (cv2.add, cv2.subtract). */
  function AddSat(x: Byte, y: Byte): Byte { Clamp(x + y) }
  function SubSat(x: Byte, y: Byte): Byte { Clamp(x - y) }

  /** suma_imagenes: saturating sum of the primary and the resampled secondary. */
  function SumaImagenes(a: Image, b: Image): (r: Result<Image>)
    requires IsRaster(a) && IsRaster(b)
    ensures r.Ok? <==> DualDefined(a, b)
    ensures r.Ok? ==> SameGeometry(a, r.value)
    ensures r.Ok? ==> forall i, j, ch :: ValidPos(a, i, j, ch) ==>
      ValidPos(PrepararImgSecundaria(a, b).value, i, j, ch) &&
      SampleAt(r.value, i, j, ch) == Clamp(SampleAt(a, i, j, ch) + SampleAt(PrepararImgSecundaria(a, b).value, i, j, ch))
  {
    Dual(a, b, AddSat)
  }

  /** resta_imagenes: saturating difference, never below 0. */
  function RestaImagenes(a: Image, b: Image): (r: Result<Image>)
    requires IsRaster(a) && IsRaster(b)
    ensures r.Ok? <==> DualDefined(a, b)
    ensures r.Ok? ==> SameGeometry(a, r.value)
    ensures r.Ok? ==> forall i, j, ch :: ValidPos(a, i, j, ch) ==>
      ValidPos(PrepararImgSecundaria(a, b).value, i, j, ch) &&
      SampleAt(r.value, i, j, ch) == Clamp(SampleAt(a, i, j, ch) - SampleAt(PrepararImgSecundaria(a, b).value, i, j, ch))
  {
    Dual(a, b, SubSat)
  }

  /** Subtracting an image from itself gives black; adding black changes nothing. */
  lemma RestaImagenesSelf(a: Image)
    requires IsRaster(a) && Height(a) > 0 && ImageWidth(a) > 0
    ensures RestaImagenes(a, a).Ok?
    ensures forall i, j, ch :: ValidPos(a, i, j, ch) ==> SampleAt(RestaImagenes(a, a).value, i, j, ch) == 0
  {
  }

  /** `a * b / 255`, truncated (exact in float32 for 8-bit operands). */
  function MulNorm(x: Byte, y: Byte): (z: Byte)
    ensures z * 255 <= x * y < (z + 1) * 255
  {
    ProductBound(x, y);
    x * y / 255
  }

  lemma ProductBound(x: Byte, y: Byte)
    ensures 0 <= x * y / 255 <= 255
  {
    MulMono(x, 255, y);
    MulMono(y, 255, 255);
  }

  /** The normalised product never exceeds either operand; multiplying by 255 is the identity. */
  lemma MulNormBounds(x: Byte, y: Byte)
    ensures MulNorm(x, y) <= x && MulNorm(x, y) <= y
    ensures MulNorm(x, 255) == x && MulNorm(255, y) == y
  {
    var z := MulNorm(x, y);
    if z > x {
      MulMono(x + 1, z, 255);
      MulMono(y, 255, x);
      assert false;
    }
    if z > y {
      MulMono(y + 1, z, 255);
      MulMono(x, 255, y);
      assert false;
    }
  }

  /** multiplicacion_imagenes: `floor(a * b / 255)` samplewise. */
  function MultiplicacionImagenes(a: Image, b: Image): (r: Result<Image>)
    requires IsRaster(a) && IsRaster(b)
    ensures r.Ok? <==> DualDefined(a, b)
    ensures r.Ok? ==> SameGeometry(a, r.value)
    ensures r.Ok? ==> forall i, j, ch :: ValidPos(a, i, j, ch) ==>
      ValidPos(PrepararImgSecundaria(a, b).value, i, j, ch) &&
      SampleAt(r.value, i, j, ch) == MulNorm(SampleAt(a, i, j, ch), SampleAt(PrepararImgSecundaria(a, b).value, i, j, ch))
  {
    Dual(a, b, MulNorm)
  }

  /** The normalised product is bounded by both operands, sample by sample. */
  lemma MultiplicacionImagenesBounded(a: Image, b: Image, i: int, j: int, ch: int)
    requires IsRaster(a) && IsRaster(b) && DualDefined(a, b) && ValidPos(a, i, j, ch)
    ensures ValidPos(PrepararImgSecundaria(a, b).value, i, j, ch)
    ensures SampleAt(MultiplicacionImagenes(a, b).value, i, j, ch) <= SampleAt(a, i, j, ch)
    ensures SampleAt(MultiplicacionImagenes(a, b).value, i, j, ch) <= SampleAt(PrepararImgSecundaria(a, b).value, i, j, ch)
  {
    MulNormBounds(SampleAt(a, i, j, ch), SampleAt(PrepararImgSecundaria(a, b).value, i, j, ch));
  }

  // ---------------------------------------------------------------------------
  // Bitwise logic on 8-bit samples

  function BitAnd(x: Byte, y: Byte): Byte { ((x as bv8) & (y as bv8)) as int }
  function BitOr(x: Byte, y: Byte): Byte { ((x as bv8) | (y as bv8)) as int }
  function BitXor(x: Byte, y: Byte): Byte { ((x as bv8) ^ (y as bv8)) as int }

  lemma BitAndAllOnes(x: Byte)
    ensures BitAnd(x, 255) == x
  {
  }

  lemma BitXorSelf(x: Byte)
    ensures BitXor(x, x) == 0
  {
  }

  lemma BitOrSelf(x: Byte)
    ensures BitOr(x, x) == x
  {
  }

  /** logica_and: bitwise AND with the resampled secondary. */
  function LogicaAnd(a: Image, b: Image): (r: Result<Image>)
    requires IsRaster(a) && IsRaster(b)
    ensures r.Ok? <==> DualDefined(a, b)
    ensures r.Ok? ==> SameGeometry(a, r.value)
    ensures r.Ok? ==> forall i, j, ch :: ValidPos(a, i, j, ch) ==>
      ValidPos(PrepararImgSecundaria(a, b).value, i, j, ch) &&
      SampleAt(r.value, i, j, ch) == BitAnd(SampleAt(a, i, j, ch), SampleAt(PrepararImgSecundaria(a, b).value, i, j, ch))
  {
    Dual(a, b, BitAnd)
  }

  /** logica_or: bitwise OR with the resampled secondary. */
  function LogicaOr(a: Image, b: Image): (r: Result<Image>)
    requires IsRaster(a) && IsRaster(b)
    ensures r.Ok? <==> DualDefined(a, b)
    ensures r.Ok? ==> SameGeometry(a, r.value)
    ensures r.Ok? ==> forall i, j, ch :: ValidPos(a, i, j, ch) ==>
      ValidPos(PrepararImgSecundaria(a, b).value, i, j, ch) &&
      SampleAt(r.value, i, j, ch) == BitOr(SampleAt(a, i, j, ch), SampleAt(PrepararImgSecundaria(a, b).value, i, j, ch))
  {
    Dual(a, b, BitOr)
  }

  /** logica_xor: bitwise XOR with the resampled secondary. */
  function LogicaXor(a: Image, b: Image): (r: Result<Image>)
    requires IsRaster(a) && IsRaster(b)
    ensures r.Ok? <==> DualDefined(a, b)
    ensures r.Ok? ==> SameGeometry(a, r.value)
    ensures r.Ok? ==> forall i, j, ch :: ValidPos(a, i, j, ch) ==>
      ValidPos(PrepararImgSecundaria(a, b).value, i, j, ch) &&
      SampleAt(r.value, i, j, ch) == BitXor(SampleAt(a, i, j, ch), SampleAt(PrepararImgSecundaria(a, b).value, i, j, ch))
  {
    Dual(a, b, BitXor)
  }

  /** logica_not: every sample becomes its complement `255 - x` (bitwise NOT on 8 bits). */
  function LogicaNot(img: Image): (r: Image)
    ensures SameGeometry(img, r)
    ensures forall i, j, ch :: ValidPos(img, i, j, ch) ==> SampleAt(r, i, j, ch) + SampleAt(img, i, j, ch) == 255
  {
    MapSamples(img, (x: Byte) => 255 - x)
  }

  /** Applying NOT twice gives back the original raster. */
  lemma LogicaNotInvolution(img: Image)
    ensures LogicaNot(LogicaNot(img)) == img
  {
    var once := LogicaNot(img);
    var twice := LogicaNot(once);
    forall i, j, ch | ValidPos(img, i, j, ch) ensures SampleAt(img, i, j, ch) == SampleAt(twice, i, j, ch) {
      SameGeometryPos(img, once, i, j, ch);
    }
    SamplesExt(img, twice);
  }

  // ---------------------------------------------------------------------------
  // Laws of the two-image operations

  /** Every sample of the image is 255. */
  ghost predicate AllWhite(img: Image)
  {
    forall i, j, ch :: ValidPos(img, i, j, ch) ==> SampleAt(img, i, j, ch) == 255
  }

  /** Resampling an all-white image keeps it all white. */
  lemma PrepararAllWhite(base: Image, mask: Image)
    requires IsRaster(mask) && AllWhite(mask) && PrepararImgSecundaria(base, mask).Ok?
    ensures AllWhite(PrepararImgSecundaria(base, mask).value)
  {
  }

  /** AND with an all-white mask of the same kind returns the primary image
      unchanged, whatever the mask's size. */
  lemma LogicaAndWhiteMask(a: Image, mask: Image)
    requires IsRaster(a) && IsRaster(mask) && AllWhite(mask) && DualDefined(a, mask)
    ensures LogicaAnd(a, mask) == Ok(a)
  {
    var m := PrepararImgSecundaria(a, mask).value;
    PrepararAllWhite(a, mask);
    var r := LogicaAnd(a, mask).value;
    forall i, j, ch | ValidPos(a, i, j, ch) ensures SampleAt(a, i, j, ch) == SampleAt(r, i, j, ch) {
      BitAndAllOnes(SampleAt(a, i, j, ch));
    }
    SamplesExt(a, r);
  }

  /** Multiplying by an all-white image of the same kind returns the primary. */
  lemma MultiplicacionWhiteIdentity(a: Image, white: Image)
    requires IsRaster(a) && IsRaster(white) && AllWhite(white) && DualDefined(a, white)
    ensures MultiplicacionImagenes(a, white) == Ok(a)
  {
    PrepararAllWhite(a, white);
    var r := MultiplicacionImagenes(a, white).value;
    forall i, j, ch | ValidPos(a, i, j, ch) ensures SampleAt(a, i, j, ch) == SampleAt(r, i, j, ch) {
      MulNormBounds(SampleAt(a, i, j, ch), 255);
    }
    SamplesExt(a, r);
  }

  /** XOR of a non-empty image with itself is black everywhere; OR with itself is the image. */
  lemma LogicaSelf(a: Image)
    requires IsRaster(a) && Height(a) > 0 && ImageWidth(a) > 0
    ensures LogicaXor(a, a).Ok? && LogicaOr(a, a) == Ok(a)
    ensures forall i, j, ch :: ValidPos(a, i, j, ch) ==> SampleAt(LogicaXor(a, a).value, i, j, ch) == 0
  {
    var o := LogicaOr(a, a).value;
    forall i, j, ch | ValidPos(a, i, j, ch)
      ensures SampleAt(LogicaXor(a, a).value, i, j, ch) == 0 && SampleAt(a, i, j, ch) == SampleAt(o, i, j, ch)
    {
      BitXorSelf(SampleAt(a, i, j, ch));
      BitOrSelf(SampleAt(a, i, j, ch));
    }
    SamplesExt(a, o);
  }
}
