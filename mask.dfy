/** The Gaussian window placed in Fourier space to isolate one harmonic.
    The exponential is transcendental, so it is a parameter `exp` of the
    model: every statement here holds for any function in its place, or for
    any increasing one where it says so. */
module Mask {
  import opened Failures
  import opened Numeric

  /** `gaussian_1d` at one point: `a * exp(-0.5 * (x - center)^2 / sigma^2)`. */
  function Gaussian(exp: real -> real, x: real, a: real, center: real, sigma: real): (r: real)
    requires sigma != 0.0
    ensures x == center ==> r == a * exp(0.0)
  {
    SquarePositive(sigma);
    a * exp(-0.5 * Square(x - center) / Square(sigma))
  }

  /** The Gaussian is symmetric about its centre. */
  lemma GaussianSymmetric(exp: real -> real, d: real, a: real, center: real, sigma: real)
    requires sigma != 0.0
    ensures Gaussian(exp, center + d, a, center, sigma) == Gaussian(exp, center - d, a, center, sigma)
  {
    assert Square(center + d - center) == Square(center - d - center);
  }

  /** With an increasing exponential and a non-negative amplitude, the
      Gaussian does not grow with the distance from its centre. */
  lemma GaussianDecreasesAwayFromCentre(exp: real -> real, x: real, y: real, a: real, center: real, sigma: real)
    requires sigma != 0.0 && a >= 0.0
    requires forall u, v :: u <= v ==> exp(u) <= exp(v)
    requires Abs(x - center) <= Abs(y - center)
    ensures Gaussian(exp, y, a, center, sigma) <= Gaussian(exp, x, a, center, sigma)
  {
    SquareMonotone(x - center, y - center);
    SquarePositive(sigma);
    ExponentMonotone(Square(x - center), Square(y - center), Square(sigma));
    var ex := -0.5 * Square(x - center) / Square(sigma);
    var ey := -0.5 * Square(y - center) / Square(sigma);
    assert exp(ey) <= exp(ex);
    ScaleMonotone(a, exp(ey), exp(ex));
  }

  /** Dividing by a positive number and negating reverses order. */
  lemma ExponentMonotone(p: real, q: real, d: real)
    requires d > 0.0 && p <= q
    ensures -0.5 * q / d <= -0.5 * p / d
  {
  }

  /** `mask_gaussian_1d`: a unit-amplitude Gaussian sampled at the points
      `np.linspace(0, len(data) - 1, len(data))`; fails on empty data or a
      zero width. */
  function MaskGaussian(exp: real -> real, data: seq<real>, center: real, sigma: real): (r: Result<seq<real>>)
    ensures r.Err? <==> |data| < 1 || sigma == 0.0
    ensures r.Err? ==> r.error == ValueError(InvalidParameterMessage)
    ensures r.Ok? ==> |r.value| == |data|
    ensures r.Ok? ==> forall i :: 0 <= i < |data| ==> r.value[i] == Gaussian(exp, i as real, 1.0, center, sigma)
  {
    if |data| < 1 || sigma == 0.0 then Err(ValueError(InvalidParameterMessage))
    else
      var n := |data|;
      var x := Linspace(0.0, (n - 1) as real, n);
      var mask := seq(n, i requires 0 <= i < n => Gaussian(exp, x[i], 1.0, center, sigma));
      assert forall i :: 0 <= i < n ==> mask[i] == Gaussian(exp, i as real, 1.0, center, sigma) by {
        forall i | 0 <= i < n ensures mask[i] == Gaussian(exp, i as real, 1.0, center, sigma) {
          LinspaceOfIndices(n, i);
        }
      }
      Ok(mask)
  }

  /** Mask entries at bins equally far from the centre are equal. */
  lemma MaskSymmetric(exp: real -> real, data: seq<real>, center: real, sigma: real, i: nat, j: nat)
    requires |data| >= 1 && sigma != 0.0
    requires i < |data| && j < |data| && (i + j) as real == 2.0 * center
    ensures MaskGaussian(exp, data, center, sigma).value[i] == MaskGaussian(exp, data, center, sigma).value[j]
  {
    GaussianSymmetric(exp, i as real - center, 1.0, center, sigma);
    assert j as real == center - (i as real - center);
  }

  /** With an increasing exponential the mask is a bump: a bin nearer the
      centre never carries less weight than one farther away. */
  lemma MaskIsBump(exp: real -> real, data: seq<real>, center: real, sigma: real, i: nat, j: nat)
    requires |data| >= 1 && sigma != 0.0
    requires forall u, v :: u <= v ==> exp(u) <= exp(v)
    requires i < |data| && j < |data| && Abs(i as real - center) <= Abs(j as real - center)
    ensures MaskGaussian(exp, data, center, sigma).value[j] <= MaskGaussian(exp, data, center, sigma).value[i]
  {
    GaussianDecreasesAwayFromCentre(exp, i as real, j as real, 1.0, center, sigma);
  }
}
