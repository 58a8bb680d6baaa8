/** Frequency-domain masks (src/practica7.py).

    A mask has the shape of the spectrum, rows x cols, and is indexed by row
    y and column x. Distances to the centre (rows // 2, cols // 2) are kept
    squared, as integers, and the cutoff radius as a fraction of integers,
    so no square root is needed: d_center <= d0 is compared squared, and
    (D / d0)^(2n) is (D^2 / d0^2)^n. The cutoff arrives in percent, as
    aplicar_filtro_frecuencia passes it. The Gaussian's exponential is a
    parameter `expNeg`, standing for x |-> exp(-x). */
module Frequency {
  import opened Raster

  /** Squared distance of (y, x) to the centre of a rows x cols spectrum. */
  function Dist2(rows: nat, cols: nat, y: int, x: int): nat
  {
    Square(x - cols / 2) + Square(y - rows / 2)
  }

  function Square(n: int): nat
  {
    if n >= 0 then n * n else (-n) * (-n)
  }

  /** A cutoff radius d0 = num / den, kept as a fraction of integers. */
  datatype Radius = Radius(num: int, den: nat)

  /** The smaller half-dimension, the radius a cutoff of 100 reaches. */
  function HalfMin(rows: nat, cols: nat): nat
  {
    if rows / 2 <= cols / 2 then rows / 2 else cols / 2
  }

  /** The cutoff radius for a cutoff given in percent: cutoff / 100 times
      the smaller half-dimension, with a zero radius replaced by 1e-8. */
  function CutoffRadius(rows: nat, cols: nat, cutoff: int): (d0: Radius)
    ensures d0.den > 0 && d0.num != 0
    ensures cutoff >= 0 ==> d0.num > 0
  {
    var d := cutoff * HalfMin(rows, cols);
    if d == 0 then Radius(1, 100000000) else Radius(d, 100)
  }

  /** A cutoff in [0, 100] gives a positive radius; it is the matching
      fraction of the smaller half-dimension, and at most that, unless the
      fraction is zero, when it is 1e-8. */
  lemma SliderCutoff(rows: nat, cols: nat, cutoff: int)
    requires 0 <= cutoff <= 100
    ensures var d0 := CutoffRadius(rows, cols, cutoff);
      var half := HalfMin(rows, cols);
      d0.num > 0 &&
      (cutoff > 0 && half > 0 ==> d0.num * 100 == cutoff * half * d0.den && d0.num <= half * d0.den) &&
      (cutoff == 0 || half == 0 ==> d0.num * 100000000 == d0.den)
  {
    var half := HalfMin(rows, cols);
    if cutoff > 0 && half > 0 {
      MulMono(cutoff, 100, half);
      MulStrict(0, cutoff, half);
    }
  }

  /** The point lies within the cutoff radius: d_center <= d0, compared
      squared since both are non-negative when d0 is. */
  predicate InDisc(d2: nat, d0: Radius)
  {
    d0.num >= 0 && d2 * (d0.den * d0.den) <= d0.num * d0.num
  }

  lemma SquarePositive(n: int)
    requires n != 0
    ensures n * n > 0
  {
    if n > 0 {
      MulStrict(0, n, n);
    } else {
      MulStrict(0, -n, -n);
    }
  }

  /** D^2 / d0^2, the squared distance in units of the radius. */
  function Ratio2(d2: nat, d0: Radius): (x: real)
    requires d0.num != 0
    ensures x >= 0.0
  {
    SquarePositive(d0.num);
    NonnegQuotient((d2 * (d0.den * d0.den)) as real, (d0.num * d0.num) as real);
    (d2 * (d0.den * d0.den)) as real / (d0.num * d0.num) as real
  }

  lemma NonnegQuotient(a: real, b: real)
    requires a >= 0.0 && b > 0.0
    ensures a / b >= 0.0
  {
    var q := a / b;
    assert q * b == a;
    if q < 0.0 {
      RealMulLt(q, 0.0, b);
    }
  }

  lemma RealMulLe(a: real, b: real, c: real)
    requires a <= b && c >= 0.0
    ensures a * c <= b * c
  {
    assert (b - a) * c >= 0.0;
  }

  lemma RealMulLt(a: real, b: real, c: real)
    requires a < b && c > 0.0
    ensures a * c < b * c
  {
    assert (b - a) * c > 0.0;
  }

  lemma RealDivLe(a: real, b: real, c: real, d: real)
    requires b > 0.0 && d > 0.0 && a * d <= c * b
    ensures a / b <= c / d
  {
    var x, y := a / b, c / d;
    assert a == x * b && c == y * d;
    assert x * (b * d) <= y * (b * d);
  }

  /** Farther points have a larger ratio. */
  lemma Ratio2Monotone(d2: nat, e2: nat, d0: Radius)
    requires d0.num != 0 && d2 <= e2
    ensures Ratio2(d2, d0) <= Ratio2(e2, d0)
  {
    var s := d0.den * d0.den;
    SquarePositive(d0.num);
    MulMono(d2, e2, s);
    RealDivLe((d2 * s) as real, (d0.num * d0.num) as real, (e2 * s) as real, (d0.num * d0.num) as real);
  }

  // ---------------------------------------------------------------------------
  // Ideal

  function IdealEntry(d2: nat, d0: Radius, lowPass: bool): real
  {
    if InDisc(d2, d0) == lowPass then 1.0 else 0.0
  }

  function IdealGrid(rows: nat, cols: nat, d0: Radius, lowPass: bool): (h: seq<seq<real>>)
    ensures |h| == rows && forall y :: 0 <= y < rows ==> |h[y]| == cols
  {
    seq(rows, y => seq(cols, x => IdealEntry(Dist2(rows, cols, y, x), d0, lowPass)))
  }

  /** The Ideal branch: a zero mask, then 1 written at once at every point
      inside the disc (low-pass) or outside it (high-pass). */
  method IdealMask(rows: nat, cols: nat, d0: Radius, lowPass: bool) returns (h: seq<seq<real>>)
    ensures h == IdealGrid(rows, cols, d0, lowPass)
  {
    var a := new real[rows, cols]((y, x) => 0.0);
    forall y, x | 0 <= y < rows && 0 <= x < cols && InDisc(Dist2(rows, cols, y, x), d0) == lowPass {
      a[y, x] := 1.0;
    }
    h := seq(rows, y requires 0 <= y < rows reads a => seq(cols, x requires 0 <= x < cols reads a => a[y, x]));
    assert forall y :: 0 <= y < rows ==> h[y] == IdealGrid(rows, cols, d0, lowPass)[y];
  }

  // ---------------------------------------------------------------------------
  // Gaussian and Butterworth

  function GaussEntry(d2: nat, d0: Radius, highPass: bool, expNeg: real -> real): real
    requires d0.num != 0
  {
    var g := expNeg(Ratio2(d2, d0) / 2.0);
    if highPass then 1.0 - g else g
  }

  function GaussGrid(rows: nat, cols: nat, d0: Radius, highPass: bool, expNeg: real -> real): (h: seq<seq<real>>)
    requires d0.num != 0
    ensures |h| == rows && forall y :: 0 <= y < rows ==> |h[y]| == cols
  {
    seq(rows, y => seq(cols, x => GaussEntry(Dist2(rows, cols, y, x), d0, highPass, expNeg)))
  }

  function Pow(x: real, n: nat): real
  {
    if n == 0 then 1.0 else x * Pow(x, n - 1)
  }

  lemma {:induction false} PowMonotone(x: real, y: real, n: nat)
    requires 0.0 <= x <= y
    ensures 0.0 <= Pow(x, n) <= Pow(y, n)
  {
    if n > 0 {
      PowMonotone(x, y, n - 1);
      assert x * Pow(x, n - 1) <= y * Pow(x, n - 1) <= y * Pow(y, n - 1);
    }
  }

  /** 1 / (1 + (D / d0)^(2 orden)), written with the squared ratio. */
  function ButterLow(d2: nat, d0: Radius, orden: nat): real
    requires d0.num != 0
  {
    PowMonotone(0.0, Ratio2(d2, d0), orden);
    1.0 / (1.0 + Pow(Ratio2(d2, d0), orden))
  }

  function ButterEntry(d2: nat, d0: Radius, orden: nat, highPass: bool): real
    requires d0.num != 0
  {
    if highPass then 1.0 - ButterLow(d2, d0, orden) else ButterLow(d2, d0, orden)
  }

  function ButterGrid(rows: nat, cols: nat, d0: Radius, orden: nat, highPass: bool): (h: seq<seq<real>>)
    requires d0.num != 0
    ensures |h| == rows && forall y :: 0 <= y < rows ==> |h[y]| == cols
  {
    seq(rows, y => seq(cols, x => ButterEntry(Dist2(rows, cols, y, x), d0, orden, highPass)))
  }

  /** The Butterworth low-pass gain lies in (0, 1], is 1 at the centre for a
      positive order and does not increase with distance. */
  lemma ButterworthShape(d2: nat, e2: nat, d0: Radius, orden: nat)
    requires d0.num != 0 && d2 <= e2
    ensures 0.0 < ButterLow(d2, d0, orden) <= 1.0
    ensures orden >= 1 && d2 == 0 ==> ButterLow(d2, d0, orden) == 1.0
    ensures ButterLow(e2, d0, orden) <= ButterLow(d2, d0, orden)
  {
    var x, y := Ratio2(d2, d0), Ratio2(e2, d0);
    Ratio2Monotone(d2, e2, d0);
    PowMonotone(x, y, orden);
    PowMonotone(0.0, x, orden);
    var p, q := 1.0 + Pow(x, orden), 1.0 + Pow(y, orden);
    RealDivLe(1.0, q, 1.0, p);
    RealDivLe(1.0, p, 1.0, 1.0);
    NonnegQuotient(1.0, p);
    if orden >= 1 && d2 == 0 {
      assert x == 0.0;
      assert Pow(x, orden) == 0.0;
    }
  }

  // ---------------------------------------------------------------------------
  // crear_mascara

  /** crear_mascara as a value: Err for a family it does not know, where the
      source reaches `return H` with H unbound. Ideal treats every mode but
      "Bajas" as high-pass; Gaussian and Butterworth invert only on "Altas". */
  function Mascara(rows: nat, cols: nat, family: string, mode: string, cutoff: int, orden: nat,
                   expNeg: real -> real): (r: Result<seq<seq<real>>>)
    ensures r.Ok? <==> family == "Ideal" || family == "Gaussiano" || family == "Butterworth"
    ensures r.Ok? ==> |r.value| == rows && forall y :: 0 <= y < rows ==> |r.value[y]| == cols
  {
    var d0 := CutoffRadius(rows, cols, cutoff);
    if family == "Ideal" then Ok(IdealGrid(rows, cols, d0, mode == "Bajas"))
    else if family == "Gaussiano" then Ok(GaussGrid(rows, cols, d0, mode == "Altas", expNeg))
    else if family == "Butterworth" then Ok(ButterGrid(rows, cols, d0, orden, mode == "Altas"))
    else Err("mask family not recognised")
  }

  /** crear_mascara. */
  method CrearMascara(rows: nat, cols: nat, family: string, mode: string, cutoff: int, orden: nat,
                      expNeg: real -> real) returns (r: Result<seq<seq<real>>>)
    ensures r == Mascara(rows, cols, family, mode, cutoff, orden, expNeg)
  {
    var d0 := CutoffRadius(rows, cols, cutoff);
    if family == "Ideal" {
      var h := IdealMask(rows, cols, d0, mode == "Bajas");
      r := Ok(h);
    } else if family == "Gaussiano" {
      r := Ok(GaussGrid(rows, cols, d0, mode == "Altas", expNeg));
    } else if family == "Butterworth" {
      r := Ok(ButterGrid(rows, cols, d0, orden, mode == "Altas"));
    } else {
      r := Err("mask family not recognised");
    }
  }

  /** The Ideal mask holds only 0 and 1; in "Bajas" mode it is 1 exactly
      inside the disc of radius d0, in any other mode exactly outside it. */
  lemma IdealMaskValues(rows: nat, cols: nat, mode: string, cutoff: int, orden: nat,
                        expNeg: real -> real, y: int, x: int)
    requires 0 <= y < rows && 0 <= x < cols
    ensures var h := Mascara(rows, cols, "Ideal", mode, cutoff, orden, expNeg).value[y][x];
      var d0 := CutoffRadius(rows, cols, cutoff);
      var d2 := (x - cols / 2) * (x - cols / 2) + (y - rows / 2) * (y - rows / 2);
      (h == 0.0 || h == 1.0) &&
      (h == 1.0 <==> (mode == "Bajas" <==> (d0.num >= 0 && d2 * (d0.den * d0.den) <= d0.num * d0.num)))
  {
  }

  /** For every family the low-pass and high-pass masks add up to 1. */
  lemma ModesComplementary(rows: nat, cols: nat, family: string, cutoff: int, orden: nat,
                           expNeg: real -> real, y: int, x: int)
    requires family == "Ideal" || family == "Gaussiano" || family == "Butterworth"
    requires 0 <= y < rows && 0 <= x < cols
    ensures Mascara(rows, cols, family, "Bajas", cutoff, orden, expNeg).value[y][x] +
            Mascara(rows, cols, family, "Altas", cutoff, orden, expNeg).value[y][x] == 1.0
  {
  }

  /** A mode other than "Bajas" and "Altas" gives the high-pass Ideal mask
      but the low-pass Gaussian and Butterworth masks. */
  lemma UnknownMode(rows: nat, cols: nat, mode: string, cutoff: int, orden: nat, expNeg: real -> real)
    requires mode != "Bajas" && mode != "Altas"
    ensures Mascara(rows, cols, "Ideal", mode, cutoff, orden, expNeg) ==
            Mascara(rows, cols, "Ideal", "Altas", cutoff, orden, expNeg)
    ensures Mascara(rows, cols, "Gaussiano", mode, cutoff, orden, expNeg) ==
            Mascara(rows, cols, "Gaussiano", "Bajas", cutoff, orden, expNeg)
    ensures Mascara(rows, cols, "Butterworth", mode, cutoff, orden, expNeg) ==
            Mascara(rows, cols, "Butterworth", "Bajas", cutoff, orden, expNeg)
  {
  }

  /** With an exponential whose values on [0, oo) lie in (0, 1], the Gaussian
      low-pass mask lies in (0, 1], and is 1 at the centre when exp(0) = 1;
      the high-pass mask lies in [0, 1). */
  lemma GaussianRange(rows: nat, cols: nat, mode: string, cutoff: int, orden: nat,
                      expNeg: real -> real, y: int, x: int)
    requires forall v :: v >= 0.0 ==> 0.0 < expNeg(v) <= 1.0
    requires 0 <= y < rows && 0 <= x < cols
    ensures var h := Mascara(rows, cols, "Gaussiano", mode, cutoff, orden, expNeg).value[y][x];
      (mode == "Altas" ==> 0.0 <= h < 1.0) && (mode != "Altas" ==> 0.0 < h <= 1.0)
    ensures expNeg(0.0) == 1.0 && mode != "Altas" && y == rows / 2 && x == cols / 2 ==>
      Mascara(rows, cols, "Gaussiano", mode, cutoff, orden, expNeg).value[y][x] == 1.0
  {
    var d0 := CutoffRadius(rows, cols, cutoff);
    var d2 := Dist2(rows, cols, y, x);
    assert Ratio2(d2, d0) / 2.0 >= 0.0;
    if y == rows / 2 && x == cols / 2 {
      assert d2 == 0;
      assert Ratio2(d2, d0) == 0.0;
    }
  }

  /** The Butterworth mask in both modes: the low-pass one lies in (0, 1]
      and is 1 at the centre for a positive order, the high-pass one in [0, 1). */
  lemma ButterworthRange(rows: nat, cols: nat, mode: string, cutoff: int, orden: nat,
                         expNeg: real -> real, y: int, x: int)
    requires 0 <= y < rows && 0 <= x < cols
    ensures var h := Mascara(rows, cols, "Butterworth", mode, cutoff, orden, expNeg).value[y][x];
      (mode == "Altas" ==> 0.0 <= h < 1.0) && (mode != "Altas" ==> 0.0 < h <= 1.0)
    ensures orden >= 1 && mode != "Altas" && y == rows / 2 && x == cols / 2 ==>
      Mascara(rows, cols, "Butterworth", mode, cutoff, orden, expNeg).value[y][x] == 1.0
  {
    var d0 := CutoffRadius(rows, cols, cutoff);
    var d2 := Dist2(rows, cols, y, x);
    ButterworthShape(d2, d2, d0, orden);
  }
}
