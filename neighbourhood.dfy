/** The neighbourhood of a photon's home pixel over which `add_photon`
    spreads its charge: the half-open block [-radius, radius) of offsets in
    both directions, with pixels outside the grid silently skipped. The
    single-pixel-mode sensor and the legacy sensor enumerate it with the
    same nested loops. */
module Neighbourhood {

  /** (i, j) lies in the window of the given radius around the home pixel
      (hi, hj): offsets run over [-radius, radius) in both directions. */
  predicate InWindow(hi: int, hj: int, radius: int, i: int, j: int)
  {
    hi - radius <= i < hi + radius && hj - radius <= j < hj + radius
  }

  /** Strict lexicographic order on pixel indices (the loops' visiting order). */
  predicate Before(p: (int, int), q: (int, int))
  {
    p.0 < q.0 || (p.0 == q.0 && p.1 < q.1)
  }

  /** The list of in-grid pixels of the window, built as the source builds
      it: outer loop over the x offset, inner loop over the y offset, each
      candidate kept only when it lies in [0, nx) x [0, ny). */
  method CollectWindow(hi: int, hj: int, radius: int, nx: nat, ny: nat) returns (pixels: seq<(nat, nat)>)
    ensures forall i: nat, j: nat :: (i, j) in pixels <==> i < nx && j < ny && InWindow(hi, hj, radius, i, j)
    ensures forall a, b | 0 <= a < b < |pixels| :: Before(pixels[a], pixels[b])
    ensures |pixels| <= if radius > 0 then 4 * radius * radius else 0
  {
    pixels := [];
    var a := -radius;
    while a < radius
      invariant -radius <= a && (a <= radius || a == -radius)
      invariant forall i: nat, j: nat :: (i, j) in pixels <==>
                  i < nx && j < ny && hi - radius <= i < hi + a && hj - radius <= j < hj + radius
      invariant forall p | p in pixels :: Before(p, (hi + a, hj - radius))
      invariant forall u, v | 0 <= u < v < |pixels| :: Before(pixels[u], pixels[v])
      invariant |pixels| <= Rows(a + radius, 2 * radius)
    {
      pixels := CollectRow(hi, hj, radius, nx, ny, a, pixels);
      a := a + 1;
    }
    if radius > 0 {
      RowsArea(2 * radius, 2 * radius);
      assert (2 * radius) * (2 * radius) == 4 * radius * radius;
    }
  }

  /** Capacity of k rows of width w, counted row by row as the outer loop
      adds them. */
  function Rows(k: int, w: int): int
    decreases k
  {
    if k <= 0 then 0 else Rows(k - 1, w) + w
  }

  /** k rows of width w hold k * w pixels. */
  lemma {:induction false} RowsArea(k: nat, w: int)
    ensures Rows(k, w) == k * w
  {
    if k > 0 {
      RowsArea(k - 1, w);
    }
  }

  /** One pass of the inner loop: the in-grid pixels of row hi + a of the
      window, in increasing column order, appended to those already kept. */
  method CollectRow(hi: int, hj: int, radius: int, nx: nat, ny: nat, a: int, kept: seq<(nat, nat)>)
    returns (pixels: seq<(nat, nat)>)
    requires -radius <= a < radius
    requires forall p | p in kept :: Before(p, (hi + a, hj - radius))
    requires forall u, v | 0 <= u < v < |kept| :: Before(kept[u], kept[v])
    ensures forall i: nat, j: nat :: (i, j) in pixels <==>
              (i, j) in kept || (i < nx && j < ny && i == hi + a && hj - radius <= j < hj + radius)
    ensures forall p | p in pixels :: Before(p, (hi + a + 1, hj - radius))
    ensures forall u, v | 0 <= u < v < |pixels| :: Before(pixels[u], pixels[v])
    ensures |pixels| <= |kept| + 2 * radius
  {
    pixels := kept;
    var b := -radius;
    while b < radius
      invariant -radius <= b <= radius
      invariant forall i: nat, j: nat :: (i, j) in pixels <==>
                  (i, j) in kept || (i < nx && j < ny && i == hi + a && hj - radius <= j < hj + b)
      invariant forall p | p in pixels :: Before(p, (hi + a, hj + b))
      invariant forall u, v | 0 <= u < v < |pixels| :: Before(pixels[u], pixels[v])
      invariant |pixels| <= |kept| + (b + radius)
    {
      var x := hi + a;
      var y := hj + b;
      if x >= 0 && x < nx && y >= 0 && y < ny {
        pixels := pixels + [(x, y)];
      }
      b := b + 1;
    }
  }

  /** In a strictly ordered list, an element does not occur before its own
      position. */
  lemma NotYetVisited(pixels: seq<(nat, nat)>, p: nat)
    requires p < |pixels|
    requires forall a, b | 0 <= a < b < |pixels| :: Before(pixels[a], pixels[b])
    ensures pixels[p] !in pixels[..p]
  {
    forall q | 0 <= q < p ensures pixels[q] != pixels[p] {
      assert Before(pixels[q], pixels[p]);
    }
  }
}
