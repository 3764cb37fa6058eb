/** The sensor's geometry and its charge-sharing model, shared by the current
    sensor class and the legacy 256 x 256 snapshot: the row-major flat index
    of a pixel, the mapping between positions (micrometres) and pixel
    indices, the physical extent of the sensor, and the fraction of a point
    deposit of energy that a pixel collects when the charge cloud is a
    Gaussian of width sigma. */
module PixelGeometry {
  import opened Numerics

  // ---------------------------------------------------------------------
  // Flat (row-major) storage: pixel (i, j) lives at cell i * ny + j.
  // ---------------------------------------------------------------------

  lemma MulMonotone(a: nat, b: nat, c: nat)
    requires a <= b
    ensures a * c <= b * c
  {
  }

  /** The cell of pixel (i, j) in an image stored as `x * n_pixel_y + y`. */
  function Flat(i: nat, j: nat, nx: nat, ny: nat): (k: nat)
    requires i < nx && j < ny
    ensures k < nx * ny
  {
    MulMonotone(i + 1, nx, ny);
    i * ny + j
  }

  lemma DivBound(k: nat, nx: nat, ny: nat)
    requires k < nx * ny
    ensures ny > 0 && k / ny < nx
  {
    var q := k / ny;
    assert q * ny <= k;
    if q >= nx {
      MulMonotone(nx, q, ny);
      assert false;
    }
  }

  /** Row index i = k / ny of the flat cell k. */
  function Row(k: nat, nx: nat, ny: nat): (i: nat)
    requires k < nx * ny
    ensures i < nx
  {
    DivBound(k, nx, ny);
    k / ny
  }

  /** Column index j = k % ny of the flat cell k. */
  function Col(k: nat, nx: nat, ny: nat): (j: nat)
    requires k < nx * ny
    ensures j < ny
  {
    k % ny
  }

  /** Two pixels of the grid never share a cell. */
  lemma FlatInjective(i: nat, j: nat, i2: nat, j2: nat, nx: nat, ny: nat)
    requires i < nx && j < ny && i2 < nx && j2 < ny
    requires Flat(i, j, nx, ny) == Flat(i2, j2, nx, ny)
    ensures i == i2 && j == j2
  {
    if i < i2 {
      EarlierRowFirst(i, j, i2, j2, ny);
    } else if i2 < i {
      EarlierRowFirst(i2, j2, i, j, ny);
    }
  }

  /** Every cell of an earlier row comes before every cell of a later one. */
  lemma EarlierRowFirst(i: nat, j: nat, i2: nat, j2: nat, ny: nat)
    requires i < i2 && j < ny
    ensures i * ny + j < i2 * ny + j2
  {
    MulMonotone(i + 1, i2, ny);
    assert (i + 1) * ny == i * ny + ny;
  }

  /** Every cell is the cell of the pixel (index / ny, index % ny). */
  lemma FlatOfRowCol(k: nat, nx: nat, ny: nat)
    requires k < nx * ny
    ensures Flat(Row(k, nx, ny), Col(k, nx, ny), nx, ny) == k
  {
  }

  /** Decomposing the cell of pixel (i, j) gives back (i, j); together with
      FlatOfRowCol, a loop over all cells visits every pixel exactly once. */
  lemma RowColOfFlat(i: nat, j: nat, nx: nat, ny: nat)
    requires i < nx && j < ny
    ensures Row(Flat(i, j, nx, ny), nx, ny) == i
    ensures Col(Flat(i, j, nx, ny), nx, ny) == j
  {
    var k := Flat(i, j, nx, ny);
    FlatOfRowCol(k, nx, ny);
    FlatInjective(i, j, Row(k, nx, ny), Col(k, nx, ny), nx, ny);
  }

  // ---------------------------------------------------------------------
  // Positions and pixel indices along one axis with n pixels of side pitch.
  // ---------------------------------------------------------------------

  /** `int(position / pixel_pitch + float(n) / 2 - 0.5)`. */
  function PixelIndex(pitch: real, n: nat, pos: real): int
    requires pitch != 0.0
  {
    Trunc(pos / pitch + n as real / 2.0 - 0.5)
  }

  /** `pixel_pitch * (float(i) - float(n) / 2 + 0.5)`. */
  function PixelCenter(pitch: real, n: nat, i: int): real
  {
    pitch * (i as real - n as real / 2.0 + 0.5)
  }

  /** `-pixel_pitch * float(n) / 2`. */
  function MinExtent(pitch: real, n: nat): real
  {
    -pitch * n as real / 2.0
  }

  /** `pixel_pitch * float(n) / 2`. */
  function MaxExtent(pitch: real, n: nat): real
  {
    pitch * n as real / 2.0
  }

  /** The index of a pixel's centre is that pixel. */
  lemma PixelIndexOfCenter(pitch: real, n: nat, i: nat)
    requires pitch != 0.0
    ensures PixelIndex(pitch, n, PixelCenter(pitch, n, i)) == i
  {
    var u := i as real - n as real / 2.0 + 0.5;
    assert PixelCenter(pitch, n, i) / pitch == u;
  }

  /** Where the index expression is non-negative, the returned pixel is the
      one whose centre c satisfies c <= pos < c + pitch: because of the
      `- 0.5`, this is the pixel whose centre is the nearest one at or below
      the position, not the pixel containing it. */
  lemma PixelIndexBrackets(pitch: real, n: nat, pos: real)
    requires pitch > 0.0
    requires pos / pitch + n as real / 2.0 - 0.5 >= 0.0
    ensures var c := PixelCenter(pitch, n, PixelIndex(pitch, n, pos));
            c <= pos < c + pitch
  {
    var u := pos / pitch + n as real / 2.0 - 0.5;
    var i := PixelIndex(pitch, n, pos);
    var d := u - i as real;
    assert 0.0 <= d < 1.0;
    var c := PixelCenter(pitch, n, i);
    assert pos - c == pitch * d by { OffsetFromCenter(pitch, n, pos, i); }
    assert 0.0 <= pitch * d < pitch by { ScaleBelowOne(pitch, d); }
  }

  lemma OffsetFromCenter(pitch: real, n: nat, pos: real, i: int)
    requires pitch != 0.0
    ensures pos - PixelCenter(pitch, n, i) == pitch * ((pos / pitch + n as real / 2.0 - 0.5) - i as real)
  {
    assert pos == pitch * (pos / pitch);
  }

  lemma ScaleBelowOne(pitch: real, d: real)
    requires pitch > 0.0 && 0.0 <= d < 1.0
    ensures 0.0 <= pitch * d < pitch
  {
  }

  /** The cast truncates toward zero, so a position whose index expression
      lies in (-1, 0) (left of the centre of pixel 0) is still mapped to
      pixel 0 although it lies below that pixel's centre. */
  lemma PixelIndexTruncatesAtLowEdge(pitch: real, n: nat, pos: real)
    requires pitch > 0.0
    requires -1.0 < pos / pitch + n as real / 2.0 - 0.5 < 0.0
    ensures PixelIndex(pitch, n, pos) == 0
    ensures pos < PixelCenter(pitch, n, 0)
  {
    var u := pos / pitch + n as real / 2.0 - 0.5;
    assert pos == pitch * (u - n as real / 2.0 + 0.5);
    assert pitch * u < 0.0;
  }

  /** The sensor extent is symmetric about 0 and the n pixels tile it: pixel
      i spans [min + i * pitch, min + (i + 1) * pitch]. */
  lemma PixelsTileExtent(pitch: real, n: nat, i: int)
    ensures MinExtent(pitch, n) == -MaxExtent(pitch, n)
    ensures PixelCenter(pitch, n, i) - pitch / 2.0 == MinExtent(pitch, n) + pitch * i as real
    ensures PixelCenter(pitch, n, i) + pitch / 2.0 == MinExtent(pitch, n) + pitch * (i + 1) as real
    ensures PixelCenter(pitch, n, n - 1) + pitch / 2.0 == MaxExtent(pitch, n)
  {
  }

  // ---------------------------------------------------------------------
  // Charge sharing: a Gaussian cloud of width sigma integrated over a pixel.
  // ---------------------------------------------------------------------

  /** `float(std::numbers::sqrt2)`: the single-precision value of the square
      root of two, which is exactly this rational. */
  const Sqrt2F: real := 1.41421353816986083984375

  /** erf of the distance from the hit `pos` to the pixel edge `edge`, in
      units of sigma * sqrt(2). */
  function EdgeErf(erf: real -> real, sigma: real, edge: real, pos: real): real
    requires sigma != 0.0
  {
    erf((edge - pos) / (sigma * Sqrt2F))
  }

  /** One axis of the shared energy: `erf((c + pitch/2 - x)/(sigma*sqrt2)) -
      erf((c - pitch/2 - x)/(sigma*sqrt2))` for a pixel centred at c. */
  function AxisShare(erf: real -> real, pitch: real, sigma: real, pos: real, center: real): real
    requires sigma != 0.0
  {
    EdgeErf(erf, sigma, center + pitch / 2.0, pos) - EdgeErf(erf, sigma, center - pitch / 2.0, pos)
  }

  /** `calculate_shared_energy`: the energy that the pixel centred at
      (cx, cy) collects from a deposit of `energy` at (x, y). */
  function SharedEnergy(erf: real -> real, pitch: real, sigma: real,
                        x: real, y: real, energy: real, cx: real, cy: real): real
    requires sigma != 0.0
  {
    0.25 * energy * AxisShare(erf, pitch, sigma, x, cx) * AxisShare(erf, pitch, sigma, y, cy)
  }

  /** The shared energy is linear in the deposited energy. */
  lemma SharedEnergyLinear(erf: real -> real, pitch: real, sigma: real, x: real, y: real,
                           a: real, e1: real, e2: real, cx: real, cy: real)
    requires sigma != 0.0
    ensures SharedEnergy(erf, pitch, sigma, x, y, a * e1 + e2, cx, cy)
         == a * SharedEnergy(erf, pitch, sigma, x, y, e1, cx, cy)
          + SharedEnergy(erf, pitch, sigma, x, y, e2, cx, cy)
  {
    var fx := AxisShare(erf, pitch, sigma, x, cx);
    var fy := AxisShare(erf, pitch, sigma, y, cy);
    assert 0.25 * (a * e1 + e2) * fx * fy == a * (0.25 * e1 * fx * fy) + 0.25 * e2 * fx * fy;
  }

  /** The shared energy depends on the hit and the pixel centre only through
      their offset: shifting both by (dx, dy) changes nothing. */
  lemma SharedEnergyTranslation(erf: real -> real, pitch: real, sigma: real, x: real, y: real,
                                energy: real, cx: real, cy: real, dx: real, dy: real)
    requires sigma != 0.0
    ensures SharedEnergy(erf, pitch, sigma, x + dx, y + dy, energy, cx + dx, cy + dy)
         == SharedEnergy(erf, pitch, sigma, x, y, energy, cx, cy)
  {
    assert (cx + dx + pitch / 2.0) - (x + dx) == (cx + pitch / 2.0) - x;
    assert (cx + dx - pitch / 2.0) - (x + dx) == (cx - pitch / 2.0) - x;
    assert (cy + dy + pitch / 2.0) - (y + dy) == (cy + pitch / 2.0) - y;
    assert (cy + dy - pitch / 2.0) - (y + dy) == (cy - pitch / 2.0) - y;
  }

  /** erf is an odd function. */
  ghost predicate IsOdd(f: real -> real)
  {
    forall u :: f(-u) == -f(u)
  }

  /** With an odd erf, two pixels placed symmetrically about the hit collect
      the same energy; in particular a hit on the edge between two pixels
      splits equally between them (d = pitch / 2). */
  lemma MirrorPixelsShareEqually(erf: real -> real, pitch: real, sigma: real, x: real, y: real,
                                 energy: real, d: real, cy: real)
    requires sigma != 0.0 && IsOdd(erf)
    ensures SharedEnergy(erf, pitch, sigma, x, y, energy, x + d, cy)
         == SharedEnergy(erf, pitch, sigma, x, y, energy, x - d, cy)
  {
    MirrorAxis(erf, pitch, sigma, x, d);
  }

  /** The x-axis half of `MirrorPixelsShareEqually`: mirrored pixels have
      the same axis share. */
  lemma MirrorAxis(erf: real -> real, pitch: real, sigma: real, x: real, d: real)
    requires sigma != 0.0 && IsOdd(erf)
    ensures AxisShare(erf, pitch, sigma, x, x - d) == AxisShare(erf, pitch, sigma, x, x + d)
  {
    var w := sigma * Sqrt2F;
    var p := d + pitch / 2.0;
    var q := d - pitch / 2.0;
    EdgeErfAt(erf, sigma, (x + d) + pitch / 2.0, x, p);
    EdgeErfAt(erf, sigma, (x + d) - pitch / 2.0, x, q);
    EdgeErfAt(erf, sigma, (x - d) + pitch / 2.0, x, -q);
    EdgeErfAt(erf, sigma, (x - d) - pitch / 2.0, x, -p);
    NegQuot(q, w);
    NegQuot(p, w);
    assert erf(-(q / w)) == -erf(q / w) && erf(-(p / w)) == -erf(p / w);
  }

  /** EdgeErf depends on the edge and the hit only through their offset. */
  lemma EdgeErfAt(erf: real -> real, sigma: real, edge: real, pos: real, offset: real)
    requires sigma != 0.0 && edge - pos == offset
    ensures EdgeErf(erf, sigma, edge, pos) == erf(offset / (sigma * Sqrt2F))
  {
  }

  /** Negating a numerator negates the quotient. */
  lemma NegQuot(a: real, w: real)
    requires w != 0.0
    ensures (-a) / w == -(a / w)
  {
  }

  /** The lower edge of pixel i along an axis. */
  function LowerEdge(pitch: real, n: nat, i: int): real
  {
    PixelCenter(pitch, n, i) - pitch / 2.0
  }

  /** g(a) + ... + g(b - 1). */
  function LineSum(g: int -> real, a: int, b: int): real
    decreases b - a
  {
    if b <= a then 0.0 else LineSum(g, a, b - 1) + g(b - 1)
  }

  /** f(i, j0) + ... + f(i, j1 - 1): one row of a block. */
  function RowSum(f: (int, int) -> real, i: int, j0: int, j1: int): real
    decreases j1 - j0
  {
    if j1 <= j0 then 0.0 else RowSum(f, i, j0, j1 - 1) + f(i, j1 - 1)
  }

  /** The sum of f over the block [i0, i1) x [j0, j1), row by row. */
  function GridSum(f: (int, int) -> real, i0: int, i1: int, j0: int, j1: int): real
    decreases i1 - i0
  {
    if i1 <= i0 then 0.0 else GridSum(f, i0, i1 - 1, j0, j1) + RowSum(f, i1 - 1, j0, j1)
  }

  /** One more term added to a product sum: e*f*s + e*f*t == e*f*(s + t),
      with the new factor named `total` so that callers' products stay
      products of named values. */
  lemma AddFactor(sum: real, next: real, e: real, f: real, s: real, t: real, total: real)
    requires sum == e * f * s && next == e * f * t && total == s + t
    ensures sum + next == e * f * total
  {
  }

  /** The same with the varying factor in the middle. */
  lemma AddMiddleFactor(sum: real, next: real, e: real, s: real, t: real, f: real, total: real)
    requires sum == e * s * f && next == e * t * f && total == s + t
    ensures sum + next == e * total * f
  {
  }

  /** The grid function (i, j) => c * g(i) * h(j). */
  function ProductOf(g: int -> real, h: int -> real, c: real): (int, int) -> real
  {
    (u, v) => c * g(u) * h(v)
  }

  /** A row of a product-form term factors. */
  lemma {:induction false} RowSumFactors(g: int -> real, h: int -> real, c: real, i: int, j0: int, j1: int)
    ensures RowSum(ProductOf(g, h, c), i, j0, j1) == c * g(i) * LineSum(h, j0, j1)
    decreases j1 - j0
  {
    if j0 < j1 {
      var f := ProductOf(g, h, c);
      RowSumFactors(g, h, c, i, j0, j1 - 1);
      AddFactor(RowSum(f, i, j0, j1 - 1), f(i, j1 - 1), c, g(i), LineSum(h, j0, j1 - 1), h(j1 - 1),
                LineSum(h, j0, j1));
    }
  }

  /** The sum over a block of a product-form term f(i, j) = c * g(i) * h(j)
      is c times the product of the two axis sums. */
  lemma {:induction false} GridSumFactors(g: int -> real, h: int -> real, c: real,
                                          i0: int, i1: int, j0: int, j1: int)
    ensures GridSum(ProductOf(g, h, c), i0, i1, j0, j1) == c * LineSum(g, i0, i1) * LineSum(h, j0, j1)
    decreases i1 - i0
  {
    if i0 < i1 {
      GridSumFactors(g, h, c, i0, i1 - 1, j0, j1);
      RowSumFactors(g, h, c, i1 - 1, j0, j1);
      GridSumStep(ProductOf(g, h, c), g, c, LineSum(h, j0, j1), i0, i1, j0, j1);
    }
  }

  /** Adding the row i1 - 1 to the block [i0, i1 - 1) x [j0, j1): when the
      smaller block and the row are in product form, so is the larger one. */
  lemma GridSumStep(f: (int, int) -> real, g: int -> real, c: real, hs: real, i0: int, i1: int, j0: int, j1: int)
    requires i0 < i1
    requires GridSum(f, i0, i1 - 1, j0, j1) == c * LineSum(g, i0, i1 - 1) * hs
    requires RowSum(f, i1 - 1, j0, j1) == c * g(i1 - 1) * hs
    ensures GridSum(f, i0, i1, j0, j1) == c * LineSum(g, i0, i1) * hs
  {
    AddMiddleFactor(GridSum(f, i0, i1 - 1, j0, j1), RowSum(f, i1 - 1, j0, j1),
                    c, LineSum(g, i0, i1 - 1), g(i1 - 1), hs, LineSum(g, i0, i1));
  }


  /** e(b) - e(a): the change of an edge function across the run of pixels
      a .. b - 1. */
  function Span(e: int -> real, a: int, b: int): real
  {
    e(b) - e(a)
  }

  /** A sum of consecutive differences e(i + 1) - e(i) telescopes. */
  lemma {:induction false} LineSumTelescopes(g: int -> real, e: int -> real, a: int, b: int)
    requires a <= b
    requires forall i {:trigger g(i)} :: g(i) == e(i + 1) - e(i)
    ensures LineSum(g, a, b) == Span(e, a, b)
    decreases b - a
  {
    if a < b {
      LineSumTelescopes(g, e, a, b - 1);
    }
  }

  /** The block sum of 0.25 * e * g(i) * h(j) is 0.25 * e times the
      product of the axis sums. */
  lemma QuarterGridSum(g: int -> real, h: int -> real, e: real, i0: int, i1: int, j0: int, j1: int)
    ensures GridSum(ProductOf(g, h, 0.25 * e), i0, i1, j0, j1) == 0.25 * e * LineSum(g, i0, i1) * LineSum(h, j0, j1)
  {
    GridSumFactors(g, h, 0.25 * e, i0, i1, j0, j1);
  }

  /** When each axis sum of shares equals the change of an edge function
      across the block, the block sum of 0.25 * e * g(i) * h(j) is 0.25 * e
      times the product of the two changes. */
  lemma QuarterConservation(g: int -> real, h: int -> real, ex: int -> real, ey: int -> real, e: real,
                            i0: int, i1: int, j0: int, j1: int)
    requires LineSum(g, i0, i1) == Span(ex, i0, i1) && LineSum(h, j0, j1) == Span(ey, j0, j1)
    ensures GridSum(ProductOf(g, h, 0.25 * e), i0, i1, j0, j1) == 0.25 * e * Span(ex, i0, i1) * Span(ey, j0, j1)
  {
    QuarterGridSum(g, h, e, i0, i1, j0, j1);
  }

  /** The axis shares of the pixels along one axis, as a function of the
      pixel index. */
  function AxisShares(erf: real -> real, pitch: real, sigma: real, n: nat, pos: real): int -> real
    requires sigma != 0.0
  {
    i => AxisShare(erf, pitch, sigma, pos, PixelCenter(pitch, n, i))
  }

  /** erf of the distance from the hit to the lower edge of pixel i, as a
      function of i. */
  function Edges(erf: real -> real, pitch: real, sigma: real, n: nat, pos: real): int -> real
    requires sigma != 0.0
  {
    i => EdgeErf(erf, sigma, LowerEdge(pitch, n, i), pos)
  }

  /** The energy each pixel (i, j) collects from a deposit at (x, y), as a
      function of the pixel index (defined beyond the grid too): 0.25 * E
      times the product of the pixel's two axis shares. */
  function Deposits(erf: real -> real, pitch: real, sigma: real, nx: nat, ny: nat,
                    x: real, y: real, energy: real): (int, int) -> real
    requires sigma != 0.0
  {
    ProductOf(AxisShares(erf, pitch, sigma, nx, x), AxisShares(erf, pitch, sigma, ny, y), 0.25 * energy)
  }

  /** Pixel (i, j)'s deposit is what `calculate_shared_energy` gives for
      the pixel centred at (get_pixel_center(i), get_pixel_center(j)). */
  lemma DepositsAreSharedEnergy(erf: real -> real, pitch: real, sigma: real, nx: nat, ny: nat,
                                x: real, y: real, energy: real, i: int, j: int)
    requires sigma != 0.0
    ensures Deposits(erf, pitch, sigma, nx, ny, x, y, energy)(i, j)
         == SharedEnergy(erf, pitch, sigma, x, y, energy, PixelCenter(pitch, nx, i), PixelCenter(pitch, ny, j))
  {
  }

  /** The upper edge of pixel i is the lower edge of pixel i + 1, so each
      axis share is the difference of the edge function between neighbouring
      pixels. */
  lemma AxisSharesTelescope(erf: real -> real, pitch: real, sigma: real, n: nat, pos: real)
    requires sigma != 0.0
    ensures var g, e := AxisShares(erf, pitch, sigma, n, pos), Edges(erf, pitch, sigma, n, pos);
            forall i {:trigger g(i)} :: g(i) == e(i + 1) - e(i)
  {
    forall i: int
      ensures PixelCenter(pitch, n, i) + pitch / 2.0 == LowerEdge(pitch, n, i + 1)
    {
    }
  }

  /** Charge conservation over a block of pixels: the energy that the block
      [i0, i1) x [j0, j1) collects is 0.25 * E * (erf(U) - erf(L)) *
      (erf(U') - erf(L')), where U, L, U', L' are the block's outer edges
      measured from the hit. As the block grows and erf saturates at +-1
      this tends to E. */
  lemma BlockEnergyConservation(erf: real -> real, pitch: real, sigma: real, nx: nat, ny: nat,
                                x: real, y: real, energy: real, i0: int, i1: int, j0: int, j1: int)
    requires sigma != 0.0 && i0 <= i1 && j0 <= j1
    ensures GridSum(Deposits(erf, pitch, sigma, nx, ny, x, y, energy), i0, i1, j0, j1)
         == 0.25 * energy * Span(Edges(erf, pitch, sigma, nx, x), i0, i1) * Span(Edges(erf, pitch, sigma, ny, y), j0, j1)
  {
    AxisSumEdges(erf, pitch, sigma, nx, x, i0, i1);
    AxisSumEdges(erf, pitch, sigma, ny, y, j0, j1);
    QuarterConservation(AxisShares(erf, pitch, sigma, nx, x), AxisShares(erf, pitch, sigma, ny, y),
                        Edges(erf, pitch, sigma, nx, x), Edges(erf, pitch, sigma, ny, y), energy, i0, i1, j0, j1);
  }

  /** Along one axis, the shares of the pixels a .. b - 1 add up to the
      change of the edge function across the run: erf at its upper outer
      edge minus erf at its lower outer edge. */
  lemma AxisSumEdges(erf: real -> real, pitch: real, sigma: real, n: nat, pos: real, a: int, b: int)
    requires sigma != 0.0 && a <= b
    ensures LineSum(AxisShares(erf, pitch, sigma, n, pos), a, b) == Span(Edges(erf, pitch, sigma, n, pos), a, b)
  {
    AxisSharesTelescope(erf, pitch, sigma, n, pos);
    LineSumTelescopes(AxisShares(erf, pitch, sigma, n, pos), Edges(erf, pitch, sigma, n, pos), a, b);
  }
}
