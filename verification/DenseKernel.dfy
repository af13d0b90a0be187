/** The fixed-point dense layers of the generated sine model: weights are packed into tiles of
    eight rows, sums are kept in 32 bits, and the result is scaled, rounded, shifted and
    clipped. The machine types make overflow an error. */
module DenseKernel {

  newtype int8 = x: int | -0x80 <= x < 0x80
  newtype int16 = x: int | -0x8000 <= x < 0x8000
  newtype int32 = x: int | -0x8000_0000 <= x < 0x8000_0000
  newtype int64 = x: int | -0x8000_0000_0000_0000 <= x < 0x8000_0000_0000_0000

  // ------------------------------------------------------------- the plain layer

  /** Sum of the products of the first `n` inputs and weights from `base` on. */
  function Dot(x: seq<int16>, w: seq<int16>, base: nat, n: nat): int
    requires n <= |x| && base + n <= |w|
  {
    if n == 0 then 0 else Dot(x, w, base, n - 1) + x[n - 1] as int * w[base + n - 1] as int
  }

  /** By how many bits the layers shift. */
  type Shift = s: nat | 36 <= s <= 38 witness 36

  function Unit(s: Shift): int {
    if s == 36 then 0x10_0000_0000 else if s == 37 then 0x20_0000_0000 else 0x40_0000_0000
  }

  function Clip(v: int): int {
    if v > 127 then 127 else if v < -128 then -128 else v
  }

  /** Scaling by `m / 2^s`, rounded to the nearest integer (halves up), shifted by the zero
      point, clipped to eight bits. */
  function Requantized(acc: int, m: int, s: Shift, zeroPoint: int): int {
    Clip(zeroPoint + (acc * m + Unit(s) / 2) / Unit(s))
  }

  /** Rounding to the nearest: the scaled value is within half a unit of the exact one. */
  lemma RoundsToNearest(acc: int, m: int, s: Shift)
    ensures var r := (acc * m + Unit(s) / 2) / Unit(s);
            -Unit(s) <= 2 * (acc * m - r * Unit(s)) < Unit(s)
  {
  }

  function Pow2(n: nat): int {
    if n == 0 then 1 else 2 * Pow2(n - 1)
  }

  lemma {:induction false} Pow2Sum(a: nat, b: nat)
    ensures Pow2(a + b) == Pow2(a) * Pow2(b)
    decreases a
  {
    if a > 0 {
      Pow2Sum(a - 1, b);
    }
  }

  /** The unit is what a shift by `s` bits divides by. */
  lemma UnitIsPow2(s: Shift)
    ensures Unit(s) == Pow2(s)
  {
    assert Pow2(6) == 64;
    Pow2Sum(6, 6);
    Pow2Sum(12, 12);
    Pow2Sum(24, 12);
    Pow2Sum(1, 36);
    Pow2Sum(2, 36);
  }

  /** `r` is the eight-bit value of `acc * m / 2^s`, rounded to the nearest integer (halves up),
      plus the zero point; at either end of the range it stays there. */
  ghost predicate Saturated(r: int, acc: int, m: int, s: Shift, zeroPoint: int) {
    forall q: int :: IsRounded(q, acc * m, Pow2(s)) ==>
      r == if zeroPoint + q > 127 then 127 else if zeroPoint + q < -128 then -128 else zeroPoint + q
  }

  predicate IsRounded(q: int, exact: int, unit: int) {
    -unit <= 2 * (exact - q * unit) < unit
  }

  /** There is exactly one such integer. */
  lemma OneRounded(acc: int, m: int, s: Shift)
    ensures exists q: int :: IsRounded(q, acc * m, Pow2(s))
    ensures forall p: int, q: int :: IsRounded(p, acc * m, Pow2(s)) && IsRounded(q, acc * m, Pow2(s)) ==> p == q
  {
    UnitIsPow2(s);
    RoundsToNearest(acc, m, s);
    var q := (acc * m + Unit(s) / 2) / Unit(s);
    assert IsRounded(q, acc * m, Pow2(s));
    forall p: int, q: int | IsRounded(p, acc * m, Pow2(s)) && IsRounded(q, acc * m, Pow2(s))
      ensures p == q
    {
      SameRounded(p, q, acc * m, Unit(s));
    }
  }

  lemma SameRounded(p: int, q: int, exact: int, unit: int)
    requires unit > 0 && IsRounded(p, exact, unit) && IsRounded(q, exact, unit)
    ensures p == q
  {
    var d := (q - p) * unit;
    assert d == q * unit - p * unit;
    assert -unit < d < unit;
    if p < q {
      AtLeastOne(q - p, unit);
    } else if q < p {
      AtLeastOne(p - q, unit);
    }
  }

  lemma AtLeastOne(a: int, unit: int)
    requires a >= 1 && unit > 0
    ensures a * unit >= unit && -a * unit <= -unit
  {
    NonNegative(a - 1, unit);
    assert (a - 1) * unit == a * unit - unit;
  }

  /** Main result. Requantising rounds to the nearest, adds the zero point and saturates. */
  lemma RequantizedSaturates(acc: int, m: int, s: Shift, zeroPoint: int)
    ensures Saturated(Requantized(acc, m, s, zeroPoint), acc, m, s, zeroPoint)
  {
    UnitIsPow2(s);
    RoundsToNearest(acc, m, s);
    var r := (acc * m + Unit(s) / 2) / Unit(s);
    forall q: int | IsRounded(q, acc * m, Pow2(s))
      ensures q == r
    {
      SameRounded(q, r, acc * m, Unit(s));
    }
  }

  ghost predicate Bounded(s: seq<int16>) {
    forall k :: 0 <= k < |s| ==> -255 <= s[k] <= 255
  }

  const PRODUCT: int := 255 * 255

  const MAX_BIAS: int := 0x7FFF_FFFF - 16 * PRODUCT

  lemma ProductBound(a: int, b: int)
    requires -255 <= a <= 255 && -255 <= b <= 255
    ensures -PRODUCT <= a * b <= PRODUCT
  {
    NonNegative(255 - a, 255 + b);
    NonNegative(255 + a, 255 - b);
    NonNegative(255 - a, 255 - b);
    NonNegative(255 + a, 255 + b);
  }

  lemma NonNegative(a: int, b: int)
    requires a >= 0 && b >= 0
    ensures a * b >= 0
  {
  }

  lemma {:induction false} DotBound(x: seq<int16>, w: seq<int16>, base: nat, n: nat)
    requires n <= |x| && base + n <= |w| && Bounded(x) && Bounded(w)
    ensures -(n * PRODUCT) <= Dot(x, w, base, n) <= n * PRODUCT
    decreases n
  {
    if n > 0 {
      DotBound(x, w, base, n - 1);
      ProductBound(x[n - 1] as int, w[base + n - 1] as int);
    }
  }

  /** Changing one input changes the sum by that input's weight times the difference. Together
      with the sum over zeros this says what the sum is. */
  lemma {:induction false} DotUpdate(x: seq<int16>, w: seq<int16>, base: nat, n: nat, k: nat, v: int16)
    requires n <= |x| && base + n <= |w| && k < |x|
    ensures Dot(x[k := v], w, base, n)
         == Dot(x, w, base, n) + if k < n then (v as int - x[k] as int) * w[base + k] as int else 0
    decreases n
  {
    if n > 0 {
      DotUpdate(x, w, base, n - 1, k, v);
      if k == n - 1 {
        Distribute(v as int, x[k] as int, w[base + k] as int);
      }
    }
  }

  lemma Distribute(a: int, b: int, c: int)
    ensures (a - b) * c == a * c - b * c
  {
  }

  lemma {:induction false} DotZeros(x: seq<int16>, w: seq<int16>, base: nat, n: nat)
    requires n <= |x| && base + n <= |w| && forall k :: 0 <= k < n ==> x[k] == 0
    ensures Dot(x, w, base, n) == 0
    decreases n
  {
    if n > 0 {
      DotZeros(x, w, base, n - 1);
    }
  }

  /** One more product fits into the sum. */
  lemma DotStep(x: seq<int16>, w: seq<int16>, base: nat, k: nat)
    requires k < |x| <= 16 && base + k < |w| && Bounded(x) && Bounded(w)
    ensures Dot(x, w, base, k + 1) == Dot(x, w, base, k) + x[k] as int * w[base + k] as int
    ensures -(16 * PRODUCT) <= Dot(x, w, base, k) <= 16 * PRODUCT
    ensures -(16 * PRODUCT) <= Dot(x, w, base, k + 1) <= 16 * PRODUCT
    ensures -PRODUCT <= x[k] as int * w[base + k] as int <= PRODUCT
  {
    DotBound(x, w, base, k);
    DotBound(x, w, base, k + 1);
    ProductBound(x[k] as int, w[base + k] as int);
  }

  // -------------------------------------------------------------- machine steps

  lemma ScaleBound(v: int, m: int)
    requires -0x8000_0000 <= v < 0x8000_0000 && 0 < m < 0x8000_0000
    ensures -0x4000_0000_0000_0000 <= v * m <= 0x4000_0000_0000_0000
  {
    if v >= 0 {
      assert v * m <= 0x8000_0000 * m && v * m >= 0;
    } else {
      assert v * m >= -0x8000_0000 * m && v * m <= 0;
    }
  }

  /** `(int32_t)(((int64_t)v * m + ((int64_t)1 << (s - 1))) >> s)`. */
  function Scale(v: int32, m: int64, s: Shift): (r: int32)
    requires 0 < m < 0x8000_0000
    ensures r as int == (v as int * m as int + Unit(s) / 2) / Unit(s)
    ensures -0x1000_0000 <= r <= 0x1000_0000
  {
    ScaleBound(v as int, m as int);
    var p: int64 := v as int64 * m + (Unit(s) / 2) as int64;
    (p / Unit(s) as int64) as int32
  }

  /** The two conditional expressions that clip, and the cast. */
  function ClipCast(v: int32): (r: int8)
    ensures r as int == Clip(v as int)
  {
    var v1 := if v < 127 then v else 127;
    (if v1 > -128 then v1 else -128) as int8
  }

  // --------------------------------------------------------------------- packing

  /** Where the packed weight `c` comes from: tile, column, row within the tile. */
  function PackedFrom(c: nat): (i: nat)
    requires c < 256
    ensures i < 256
  {
    c / 128 * 128 + c % 8 * 16 + c % 128 / 8
  }

  lemma PackedAt(tile: nat, k: nat, x: nat)
    requires tile < 2 && k < 16 && x < 8
    ensures tile * 128 + k * 8 + x < 256
    ensures PackedFrom(tile * 128 + k * 8 + x) == (tile * 8 + x) * 16 + k
  {
    var c := tile * 128 + k * 8 + x;
    assert c / 128 == tile && c % 128 == k * 8 + x;
    assert (k * 8 + x) / 8 == k && c % 8 == x;
  }

  method PackWeights(p1: array<int16>) returns (packed: array<int16>)
    requires p1.Length == 256
    ensures fresh(packed) && packed.Length == 256
    ensures forall c :: 0 <= c < 256 ==> packed[c] == p1[PackedFrom(c)]
  {
    packed := new int16[256];
    for z := 0 to 2
      invariant forall c :: 0 <= c < z * 128 ==> packed[c] == p1[PackedFrom(c)]
    {
      for y := 0 to 16
        invariant forall c :: 0 <= c < z * 128 + y * 8 ==> packed[c] == p1[PackedFrom(c)]
      {
        for x := 0 to 8
          invariant forall c :: 0 <= c < z * 128 + y * 8 + x ==> packed[c] == p1[PackedFrom(c)]
        {
          PackedAt(z, y, x);
          packed[z * 128 + y * 8 + x] := p1[z * 128 + x * 16 + y];
        }
      }
    }
  }

  /** One tile: the sums for eight rows, column by column. */
  method ComputeTile(p0: array<int16>, packed: array<int16>, ghost w: seq<int16>, tile: nat)
      returns (sums: array<int32>)
    requires p0.Length == 16 && packed.Length == 256 && |w| == 256 && tile < 2
    requires Bounded(p0[..]) && Bounded(w)
    requires forall c :: 0 <= c < 256 ==> packed[c] == w[PackedFrom(c)]
    ensures fresh(sums) && sums.Length == 8
    ensures forall x :: 0 <= x < 8 ==> sums[x] as int == Dot(p0[..], w, (tile * 8 + x) * 16, 16)
  {
    sums := new int32[8];
    for x := 0 to 8
      invariant forall j :: 0 <= j < x ==> sums[j] == 0
    {
      sums[x] := 0;
    }
    for k := 0 to 16
      invariant forall x :: 0 <= x < 8 ==> sums[x] as int == Dot(p0[..], w, (tile * 8 + x) * 16, k)
    {
      for x := 0 to 8
        invariant forall j :: 0 <= j < x ==> sums[j] as int == Dot(p0[..], w, (tile * 8 + j) * 16, k + 1)
        invariant forall j :: x <= j < 8 ==> sums[j] as int == Dot(p0[..], w, (tile * 8 + j) * 16, k)
      {
        hide Dot, Bounded, PackedFrom;
        PackedAt(tile, k, x);
        DotStep(p0[..], w, (tile * 8 + x) * 16, k);
        sums[x] := sums[x] + p0[k] as int32 * packed[tile * 128 + k * 8 + x] as int32;
      }
    }
  }

  /** Output `j` of the middle layer: row `j` of a 16 by 16 matrix. */
  function Layer1(x: seq<int16>, w: seq<int16>, bias: seq<int32>, zeroPoint: int32, j: nat): int
    requires |x| == 16 && |w| == 256 && |bias| == 16 && j < 16
  {
    Requantized(Dot(x, w, j * 16, 16) + bias[j] as int, 1799926384, 36, zeroPoint as int)
  }

  /** Main result. Output `j` is the product of row `j` with the input plus bias `j`, scaled by
      `1799926384 / 2^36`, rounded, shifted by the zero point and saturated. */
  lemma Layer1Saturates(x: seq<int16>, w: seq<int16>, bias: seq<int32>, zeroPoint: int32, j: nat)
    requires |x| == 16 && |w| == 256 && |bias| == 16 && j < 16
    ensures Saturated(Layer1(x, w, bias, zeroPoint, j), Dot(x, w, 16 * j, 16) + bias[j] as int, 1799926384, 36,
                      zeroPoint as int)
  {
    hide Requantized, Saturated, Dot;
    RequantizedSaturates(Dot(x, w, 16 * j, 16) + bias[j] as int, 1799926384, 36, zeroPoint as int);
  }

  ghost predicate BoundedBias(bias: seq<int32>) {
    forall j :: 0 <= j < |bias| ==> -MAX_BIAS <= bias[j] as int <= MAX_BIAS
  }

  /** The end of every layer: bias, scaling, zero point, clipping. */
  method Finish(sum: int32, bias: int32, m: int64, s: Shift, zeroPoint: int32) returns (r: int8)
    requires -(16 * PRODUCT) <= sum as int <= 16 * PRODUCT && -MAX_BIAS <= bias as int <= MAX_BIAS
    requires -128 <= zeroPoint <= 127 && 0 < m < 0x8000_0000
    ensures r as int == Requantized(sum as int + bias as int, m as int, s, zeroPoint as int)
  {
    var v := zeroPoint + Scale(sum + bias, m, s);
    r := ClipCast(v);
  }

  /** Main result. The packed and tiled layer computes the plain one, output by output, with
      every index in bounds and no overflow. */
  method DenseMultiplyAddClipCast1(p0: array<int16>, p1: array<int16>, p2: array<int32>, p3: array<int32>,
                                   tCast: array<int8>)
    requires p0.Length == 16 && p1.Length == 256 && p2.Length == 16 && p3.Length == 1 && tCast.Length == 16
    requires Bounded(p0[..]) && Bounded(p1[..]) && BoundedBias(p2[..]) && -128 <= p3[0] <= 127
    modifies tCast
    ensures forall j :: 0 <= j < 16 ==> tCast[j] as int == Layer1(p0[..], p1[..], p2[..], p3[0], j)
    ensures forall j :: 0 <= j < 16 ==>
              Saturated(tCast[j] as int, Dot(p0[..], p1[..], 16 * j, 16) + p2[j] as int, 1799926384, 36, p3[0] as int)
  {
    hide Layer1, Saturated, Dot, Bounded;
    var packed := PackWeights(p1);
    for tile := 0 to 2
      invariant forall c :: 0 <= c < 256 ==> packed[c] == p1[PackedFrom(c)]
      invariant forall j :: 0 <= j < tile * 8 ==> tCast[j] as int == Layer1(p0[..], p1[..], p2[..], p3[0], j)
    {
      var sums := ComputeTile(p0, packed, p1[..], tile);
      FinishTile1(sums, p0[..], p1[..], p2, p3[0], tile, tCast);
    }
    forall j | 0 <= j < 16
      ensures Saturated(tCast[j] as int, Dot(p0[..], p1[..], 16 * j, 16) + p2[j] as int, 1799926384, 36,
                        p3[0] as int)
    {
      Layer1Saturates(p0[..], p1[..], p2[..], p3[0], j);
    }
  }

  method FinishTile1(sums: array<int32>, ghost x: seq<int16>, ghost w: seq<int16>, p2: array<int32>, zeroPoint: int32,
                     tile: nat, tCast: array<int8>)
    requires |x| == 16 && |w| == 256 && p2.Length == 16 && tCast.Length == 16 && sums.Length == 8 && tile < 2
    requires Bounded(x) && Bounded(w) && BoundedBias(p2[..]) && -128 <= zeroPoint <= 127
    requires forall j :: 0 <= j < 8 ==> sums[j] as int == Dot(x, w, (tile * 8 + j) * 16, 16)
    modifies tCast
    ensures forall j :: 0 <= j < tile * 8 ==> tCast[j] == old(tCast[j])
    ensures forall j :: tile * 8 <= j < tile * 8 + 8 ==> tCast[j] as int == Layer1(x, w, p2[..], zeroPoint, j)
  {
    hide Requantized;
    for k := 0 to 8
      invariant forall j :: 0 <= j < tile * 8 ==> tCast[j] == old(tCast[j])
      invariant forall j :: tile * 8 <= j < tile * 8 + k ==> tCast[j] as int == Layer1(x, w, p2[..], zeroPoint, j)
    {
      var j := tile * 8 + k;
      DotBound(x, w, j * 16, 16);
      assert p2[..][j] == p2[j];
      tCast[j] := Finish(sums[k], p2[j], 1799926384, 36, zeroPoint);
    }
  }

  /** Output `j` of the first layer: one input, one weight. */
  function Layer0(x: seq<int16>, w: seq<int16>, bias: seq<int32>, zeroPoint: int32, j: nat): int
    requires |x| == 1 && |w| == 16 && |bias| == 16 && j < 16
  {
    Requantized(x[0] as int * w[j] as int + bias[j] as int, 1169592283, 37, zeroPoint as int)
  }

  /** Main result. Output `j` is the product of the input with weight `j` plus bias `j`, scaled by
      `1169592283 / 2^37`, rounded, shifted by the zero point and saturated. */
  lemma Layer0Saturates(x: seq<int16>, w: seq<int16>, bias: seq<int32>, zeroPoint: int32, j: nat)
    requires |x| == 1 && |w| == 16 && |bias| == 16 && j < 16
    ensures Saturated(Layer0(x, w, bias, zeroPoint, j), x[0] as int * w[j] as int + bias[j] as int, 1169592283, 37,
                      zeroPoint as int)
  {
    hide Requantized, Saturated;
    RequantizedSaturates(x[0] as int * w[j] as int + bias[j] as int, 1169592283, 37, zeroPoint as int);
  }

  method DenseMultiplyAddClipCast(p0: array<int16>, p1: array<int16>, p2: array<int32>, p3: array<int32>,
                                  tCast: array<int8>)
    requires p0.Length == 1 && p1.Length == 16 && p2.Length == 16 && p3.Length == 1 && tCast.Length == 16
    requires Bounded(p0[..]) && Bounded(p1[..]) && BoundedBias(p2[..]) && -128 <= p3[0] <= 127
    modifies tCast
    ensures forall j :: 0 <= j < 16 ==> tCast[j] as int == Layer0(p0[..], p1[..], p2[..], p3[0], j)
    ensures forall j :: 0 <= j < 16 ==>
              Saturated(tCast[j] as int, p0[0] as int * p1[j] as int + p2[j] as int, 1169592283, 37, p3[0] as int)
  {
    hide Layer0, Saturated;
    var packed := new int16[16];
    for z := 0 to 2
      invariant forall c :: 0 <= c < z * 8 ==> packed[c] == p1[c]
    {
      for x := 0 to 8
        invariant forall c :: 0 <= c < z * 8 + x ==> packed[c] == p1[c]
      {
        packed[z * 8 + x] := p1[z * 8 + x];
      }
    }
    for tile := 0 to 2
      invariant forall c :: 0 <= c < 16 ==> packed[c] == p1[c]
      invariant forall j :: 0 <= j < tile * 8 ==> tCast[j] as int == Layer0(p0[..], p1[..], p2[..], p3[0], j)
    {
      assert packed[..] == p1[..];
      var sums := ComputeProducts(p0, packed, tile);
      FinishTile0(sums, p0[..], p1[..], p2, p3[0], tile, tCast);
    }
    forall j | 0 <= j < 16
      ensures Saturated(tCast[j] as int, p0[0] as int * p1[j] as int + p2[j] as int, 1169592283, 37, p3[0] as int)
    {
      Layer0Saturates(p0[..], p1[..], p2[..], p3[0], j);
    }
  }

  method FinishTile0(sums: array<int32>, ghost x: seq<int16>, ghost w: seq<int16>, p2: array<int32>, zeroPoint: int32,
                     tile: nat, tCast: array<int8>)
    requires |x| == 1 && |w| == 16 && p2.Length == 16 && tCast.Length == 16 && sums.Length == 8 && tile < 2
    requires Bounded(x) && Bounded(w) && BoundedBias(p2[..]) && -128 <= zeroPoint <= 127
    requires forall j :: 0 <= j < 8 ==> sums[j] as int == x[0] as int * w[tile * 8 + j] as int
    modifies tCast
    ensures forall j :: 0 <= j < tile * 8 ==> tCast[j] == old(tCast[j])
    ensures forall j :: tile * 8 <= j < tile * 8 + 8 ==> tCast[j] as int == Layer0(x, w, p2[..], zeroPoint, j)
  {
    hide Requantized;
    for k := 0 to 8
      invariant forall j :: 0 <= j < tile * 8 ==> tCast[j] == old(tCast[j])
      invariant forall j :: tile * 8 <= j < tile * 8 + k ==> tCast[j] as int == Layer0(x, w, p2[..], zeroPoint, j)
    {
      var j := tile * 8 + k;
      ProductBound(x[0] as int, w[j] as int);
      assert p2[..][j] == p2[j];
      tCast[j] := Finish(sums[k], p2[j], 1169592283, 37, zeroPoint);
    }
  }

  method ComputeProducts(p0: array<int16>, packed: array<int16>, tile: nat) returns (sums: array<int32>)
    requires p0.Length == 1 && packed.Length == 16 && tile < 2 && Bounded(p0[..]) && Bounded(packed[..])
    ensures fresh(sums) && sums.Length == 8
    ensures forall j :: 0 <= j < 8 ==> sums[j] as int == p0[0] as int * packed[tile * 8 + j] as int
  {
    sums := new int32[8];
    for x := 0 to 8
      invariant forall j :: 0 <= j < x ==> sums[j] == 0
    {
      sums[x] := 0;
    }
    for x := 0 to 8
      invariant forall j :: 0 <= j < x ==> sums[j] as int == p0[0] as int * packed[tile * 8 + j] as int
      invariant forall j :: x <= j < 8 ==> sums[j] == 0
    {
      ProductBound(p0[..][0] as int, packed[..][tile * 8 + x] as int);
      sums[x] := sums[x] + p0[0] as int32 * packed[tile * 8 + x] as int32;
    }
  }

  /** The last layer: sixteen inputs, one output, a fixed zero point. */
  method DenseMultiplyAddClipCast2(p0: array<int16>, p1: array<int16>, p2: array<int32>, tCast: array<int8>)
    requires p0.Length == 16 && p1.Length == 16 && p2.Length == 1 && tCast.Length == 1
    requires Bounded(p0[..]) && Bounded(p1[..]) && BoundedBias(p2[..])
    modifies tCast
    ensures tCast[0] as int == Requantized(Dot(p0[..], p1[..], 0, 16) + p2[0] as int, 1623168516, 38, 4)
    ensures Saturated(tCast[0] as int, Dot(p0[..], p1[..], 0, 16) + p2[0] as int, 1623168516, 38, 4)
  {
    var sum := ComputeRow(p0, p1);
    DotBound(p0[..], p1[..], 0, 16);
    assert p2[..][0] == p2[0];
    tCast[0] := Finish(sum, p2[0], 1623168516, 38, 4);
    RequantizedSaturates(Dot(p0[..], p1[..], 0, 16) + p2[0] as int, 1623168516, 38, 4);
  }

  method ComputeRow(p0: array<int16>, p1: array<int16>) returns (sum: int32)
    requires p0.Length == 16 && p1.Length == 16 && Bounded(p0[..]) && Bounded(p1[..])
    ensures sum as int == Dot(p0[..], p1[..], 0, 16)
  {
    var packed := new int16[16];
    for y := 0 to 16
      invariant forall c :: 0 <= c < y ==> packed[c] == p1[c]
    {
      packed[y] := p1[y];
    }
    sum := 0;
    for k := 0 to 16
      invariant forall c :: 0 <= c < 16 ==> packed[c] == p1[c]
      invariant sum as int == Dot(p0[..], p1[..], 0, k)
    {
      hide Dot, Bounded;
      DotStep(p0[..], p1[..], 0, k);
      sum := sum + p0[k] as int32 * packed[k] as int32;
    }
  }

  /** What the layers are fed with: eight-bit values minus a zero point are within 255. */
  method ReshapeCastSubtract1(p0: array<int8>, p1: array<int16>, tSubtract: array<int16>)
    requires p0.Length == 16 && p1.Length == 1 && tSubtract.Length == 16 && p1 != tSubtract
    requires -128 <= p1[0] <= 127
    modifies tSubtract
    ensures Bounded(tSubtract[..])
    ensures forall k :: 0 <= k < 16 ==> tSubtract[k] as int == p0[k] as int - p1[0] as int
  {
    for k := 0 to 16
      invariant p1[0] == old(p1[0])
      invariant forall j :: 0 <= j < k ==> tSubtract[j] as int == p0[j] as int - p1[0] as int
    {
      tSubtract[k] := p0[k] as int16 - p1[0];
    }
    assert forall k :: 0 <= k < 16 ==> -255 <= tSubtract[..][k] <= 255;
  }
}
