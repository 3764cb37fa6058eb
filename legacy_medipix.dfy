/** The earlier, untimed version of the sensor class: a fixed 256 x 256 grid
    whose image is a heap buffer of 32-bit counters, a single global
    threshold (no per-pixel offsets), a wider default charge cloud, and an
    early exit for photons below the threshold. */
module LegacyDetector {
  import opened Numerics
  import opened PixelGeometry
  import opened Neighbourhood

  class Medipix {
    const nx: nat := 256
    const ny: nat := 256
    const pixelPitch: real := 55.0
    /** The error function used by the charge-sharing model. */
    const erf: real -> real

    /** Global threshold in keV. */
    var th0: real
    /** Width of the Gaussian charge cloud in micrometres. */
    var psfSigma: real
    /** Pixel counters, pixel (i, j) at cell i * ny + j. */
    var image: array<nat>

    ghost predicate Valid()
      reads this, image
    {
      && psfSigma != 0.0
      && image.Length == nx * ny
      && (forall k | 0 <= k < image.Length :: image[k] < U32)
    }

    constructor (erf: real -> real)
      ensures Valid() && fresh(image)
      ensures this.erf == erf && th0 == 6.0 && psfSigma == 15.0
      ensures forall k | 0 <= k < image.Length :: image[k] == 0
    {
      this.erf := erf;
      th0 := 6.0;
      psfSigma := 15.0;
      image := new nat[256 * 256];
      new;
      var i := 0;
      while i < ny * nx
        invariant 0 <= i <= image.Length && image.Length == nx * ny && fresh(image)
        invariant this.erf == erf && th0 == 6.0 && psfSigma == 15.0
        invariant forall k | 0 <= k < i :: image[k] == 0
      {
        image[i] := 0;
        i := i + 1;
      }
    }

    /** Replaces the image by a fresh buffer of zeros. */
    method ResetImage()
      requires Valid()
      modifies this`image
      ensures Valid() && fresh(image)
      ensures forall k | 0 <= k < image.Length :: image[k] == 0
    {
      image := new nat[nx * ny];
      var i := 0;
      while i < ny * nx
        invariant 0 <= i <= image.Length && image.Length == nx * ny && fresh(image)
        invariant forall k | 0 <= k < i :: image[k] == 0
      {
        image[i] := 0;
        i := i + 1;
      }
    }

    function GetMinX(): (r: real)
      reads {}
      ensures r == -GetMaxX()
      ensures r == PixelCenter(pixelPitch, nx, 0) - pixelPitch / 2.0
    {
      PixelsTileExtent(pixelPitch, nx, 0);
      MinExtent(pixelPitch, nx)
    }

    function GetMaxX(): (r: real)
      reads {}
      ensures r == PixelCenter(pixelPitch, nx, nx - 1) + pixelPitch / 2.0
    {
      PixelsTileExtent(pixelPitch, nx, 0);
      MaxExtent(pixelPitch, nx)
    }

    function GetMinY(): (r: real)
      reads {}
      ensures r == -GetMaxY()
      ensures r == PixelCenter(pixelPitch, ny, 0) - pixelPitch / 2.0
    {
      PixelsTileExtent(pixelPitch, ny, 0);
      MinExtent(pixelPitch, ny)
    }

    function GetMaxY(): (r: real)
      reads {}
      ensures r == PixelCenter(pixelPitch, ny, ny - 1) + pixelPitch / 2.0
    {
      PixelsTileExtent(pixelPitch, ny, 0);
      MaxExtent(pixelPitch, ny)
    }

    /** The pixel assigned to a position: the one whose centre is the
        nearest at or below it, as in the current version. */
    function GetPixelIndex(x: real, y: real): (ij: (int, int))
      reads {}
      ensures x / pixelPitch + nx as real / 2.0 - 0.5 >= 0.0 ==>
                var c := PixelCenter(pixelPitch, nx, ij.0); c <= x < c + pixelPitch
      ensures y / pixelPitch + ny as real / 2.0 - 0.5 >= 0.0 ==>
                var c := PixelCenter(pixelPitch, ny, ij.1); c <= y < c + pixelPitch
    {
      assert x / pixelPitch + nx as real / 2.0 - 0.5 >= 0.0 ==>
               var c := PixelCenter(pixelPitch, nx, PixelIndex(pixelPitch, nx, x)); c <= x < c + pixelPitch
      by {
        if x / pixelPitch + nx as real / 2.0 - 0.5 >= 0.0 {
          PixelIndexBrackets(pixelPitch, nx, x);
        }
      }
      assert y / pixelPitch + ny as real / 2.0 - 0.5 >= 0.0 ==>
               var c := PixelCenter(pixelPitch, ny, PixelIndex(pixelPitch, ny, y)); c <= y < c + pixelPitch
      by {
        if y / pixelPitch + ny as real / 2.0 - 0.5 >= 0.0 {
          PixelIndexBrackets(pixelPitch, ny, y);
        }
      }
      (PixelIndex(pixelPitch, nx, x), PixelIndex(pixelPitch, ny, y))
    }

    /** The centre of pixel (i, j); mapping it back gives (i, j). */
    function GetPixelCenter(i: int, j: int): (c: (real, real))
      reads {}
      ensures i >= 0 && j >= 0 ==> GetPixelIndex(c.0, c.1) == (i, j)
    {
      assert i >= 0 && j >= 0 ==>
               PixelIndex(pixelPitch, nx, PixelCenter(pixelPitch, nx, i)) == i
               && PixelIndex(pixelPitch, ny, PixelCenter(pixelPitch, ny, j)) == j
      by {
        if i >= 0 && j >= 0 {
          PixelIndexOfCenter(pixelPitch, nx, i);
          PixelIndexOfCenter(pixelPitch, ny, j);
        }
      }
      (PixelCenter(pixelPitch, nx, i), PixelCenter(pixelPitch, ny, j))
    }

    /** The part of a deposit of `energy` at (x, y) that the pixel centred at
        (cx, cy) collects; it depends only on the offset from the centre and
        is proportional to the energy. */
    function CalculateSharedEnergy(x: real, y: real, energy: real, cx: real, cy: real): (r: real)
      reads this`psfSigma
      requires psfSigma != 0.0
      ensures r == SharedEnergy(erf, pixelPitch, psfSigma, x - cx, y - cy, energy, 0.0, 0.0)
      ensures r == energy * SharedEnergy(erf, pixelPitch, psfSigma, x, y, 1.0, cx, cy)
    {
      SharedEnergyTranslation(erf, pixelPitch, psfSigma, x - cx, y - cy, energy, 0.0, 0.0, cx, cy);
      SharedEnergyLinear(erf, pixelPitch, psfSigma, x, y, energy, 1.0, 0.0, cx, cy);
      SharedEnergy(erf, pixelPitch, psfSigma, x, y, energy, cx, cy)
    }

    /** The energy that pixel (i, j) collects from a photon of `energy` at
        (x, y). */
    function PixelDeposit(x: real, y: real, energy: real, i: int, j: int): real
      reads this`psfSigma
      requires psfSigma != 0.0
    {
      var c := GetPixelCenter(i, j);
      CalculateSharedEnergy(x, y, energy, c.0, c.1)
    }

    /** Pixel (i, j) counts a photon that passed the early exit: it lies in
        the window around the home pixel and its share is strictly above the
        global threshold. */
    predicate CountsPhoton(energy: real, x: real, y: real, radius: int, i: int, j: int)
      reads this`psfSigma, this`th0
      requires psfSigma != 0.0
    {
      var home := GetPixelIndex(x, y);
      InWindow(home.0, home.1, radius, i, j) && PixelDeposit(x, y, energy, i, j) > th0
    }

    /** Injects a photon. One below the global threshold is dropped at once;
        otherwise every in-grid pixel of the window whose share is strictly
        above the global threshold gets one count. */
    method AddPhoton(energy: real, x: real, y: real, radius: int)
      requires Valid()
      modifies image
      ensures Valid()
      ensures energy < th0 ==> image[..] == old(image[..])
      ensures energy >= th0 ==>
                forall i: nat, j: nat | i < nx && j < ny ::
                  image[Flat(i, j, nx, ny)]
                  == if CountsPhoton(energy, x, y, radius, i, j)
                     then AddMod(old(image[Flat(i, j, nx, ny)]), 1)
                     else old(image[Flat(i, j, nx, ny)])
    {
      if energy < th0 {
        return;
      }
      var home := GetPixelIndex(x, y);
      var pixels := CollectWindow(home.0, home.1, radius, nx, ny);
      forall q | 0 <= q < |pixels| ensures pixels[q].0 < nx && pixels[q].1 < ny {
        assert pixels[q] in pixels;
      }
      CountPixels(pixels, energy, x, y);
    }

    /** The pass over the window's pixels, with the global threshold. */
    method CountPixels(pixels: seq<(nat, nat)>, energy: real, x: real, y: real)
      requires Valid()
      requires forall q | 0 <= q < |pixels| :: pixels[q].0 < nx && pixels[q].1 < ny
      requires forall a, b | 0 <= a < b < |pixels| :: Before(pixels[a], pixels[b])
      modifies image
      ensures Valid()
      ensures forall i: nat, j: nat | i < nx && j < ny ::
                image[Flat(i, j, nx, ny)]
                == if (i, j) in pixels && PixelDeposit(x, y, energy, i, j) > th0
                   then AddMod(old(image[Flat(i, j, nx, ny)]), 1)
                   else old(image[Flat(i, j, nx, ny)])
    {
      var p := 0;
      while p < |pixels|
        invariant 0 <= p <= |pixels|
        invariant Valid()
        invariant Counted(old(image[..]), image[..], pixels[..p], energy, x, y)
      {
        var (i, j) := pixels[p];
        var center := GetPixelCenter(i, j);
        var depEnergy := CalculateSharedEnergy(x, y, energy, center.0, center.1);
        NotYetVisited(pixels, p);
        ghost var before := image[..];
        if depEnergy > th0 {
          IncreaseCounter(i, j);
        }
        CountedStep(old(image[..]), before, image[..], pixels[..p], (i, j), energy, x, y);
        assert pixels[..p + 1] == pixels[..p] + [(i, j)];
        p := p + 1;
      }
      assert pixels[..p] == pixels;
    }

    /** After visiting the pixels `visited`, cell by cell the image holds the
        starting image with one count added (wrapping at 2^32) exactly at the
        visited pixels whose share is above the threshold. */
    ghost predicate Counted(image0: seq<nat>, image: seq<nat>, visited: seq<(nat, nat)>,
                            energy: real, x: real, y: real)
      reads this`psfSigma, this`th0
      requires psfSigma != 0.0
    {
      && |image| == |image0| == nx * ny
      && forall i: nat, j: nat | i < nx && j < ny ::
           image[Flat(i, j, nx, ny)]
           == if (i, j) in visited && PixelDeposit(x, y, energy, i, j) > th0
              then AddMod(image0[Flat(i, j, nx, ny)], 1)
              else image0[Flat(i, j, nx, ny)]
    }

    /** Visiting one more pixel changes its own cell only, by the rule the
        pass applies; the other cells keep what they had. */
    lemma CountedStep(image0: seq<nat>, before: seq<nat>, after: seq<nat>,
                      visited: seq<(nat, nat)>, pixel: (nat, nat), energy: real, x: real, y: real)
      requires psfSigma != 0.0
      requires pixel.0 < nx && pixel.1 < ny && pixel !in visited
      requires Counted(image0, before, visited, energy, x, y)
      requires |after| == |before|
      requires forall k | 0 <= k < |after| && k != Flat(pixel.0, pixel.1, nx, ny) :: after[k] == before[k]
      requires after[Flat(pixel.0, pixel.1, nx, ny)]
               == if PixelDeposit(x, y, energy, pixel.0, pixel.1) > th0
                  then AddMod(before[Flat(pixel.0, pixel.1, nx, ny)], 1)
                  else before[Flat(pixel.0, pixel.1, nx, ny)]
      ensures Counted(image0, after, visited + [pixel], energy, x, y)
    {
      forall a: nat, b: nat | a < nx && b < ny
        ensures after[Flat(a, b, nx, ny)]
                == if (a, b) in visited + [pixel] && PixelDeposit(x, y, energy, a, b) > th0
                   then AddMod(image0[Flat(a, b, nx, ny)], 1)
                   else image0[Flat(a, b, nx, ny)]
      {
        if (a, b) != pixel && Flat(a, b, nx, ny) == Flat(pixel.0, pixel.1, nx, ny) {
          FlatInjective(a, b, pixel.0, pixel.1, nx, ny);
        }
      }
    }

    /** Adds one count to pixel (x, y); the counter wraps at 2^32. */
    method IncreaseCounter(x: nat, y: nat)
      requires Valid() && x < nx && y < ny
      modifies image
      ensures Valid()
      ensures image[..] == old(image[..])[Flat(x, y, nx, ny) := AddMod(old(image[Flat(x, y, nx, ny)]), 1)]
      ensures Sum(image[..]) % U32 == (Sum(old(image[..])) + 1) % U32
    {
      var k := Flat(x, y, nx, ny);
      SumIncrement(image[..], k);
      image[k] := AddMod(image[k], 1);
    }

    /** The total of the image, accumulated in a 32-bit counter over the
        first ny * ny cells; since the grid is square this is the whole
        image. */
    method GetTotalCounts() returns (counts: nat)
      requires Valid()
      ensures counts == Sum(image[..ny * ny]) % U32
      ensures counts == Sum(image[..]) % U32
    {
      counts := 0;
      var i := 0;
      while i < ny * ny
        invariant 0 <= i <= ny * ny
        invariant counts == Sum(image[..i]) % U32
      {
        assert image[..i + 1][..i] == image[..i];
        AddModAccumulate(Sum(image[..i]), image[i]);
        counts := AddMod(counts, image[i]);
        i := i + 1;
      }
      assert image[..ny * ny] == image[..];
    }

    method SetPsfSigma(s: real)
      requires s != 0.0
      modifies this`psfSigma
      ensures psfSigma == s
    {
      psfSigma := s;
    }

    method SetTh0(t: real)
      modifies this`th0
      ensures th0 == t
    {
      th0 := t;
    }
  }

}
