/** The Moire (aliasing) correction shared by `mask_position_1d` and
    `gpa_moire_correction`: when the reference periodicity `g` is below two
    pixels, the frequency 1/g lies beyond the principal band [-1/2, 1/2) of
    the discrete transform and shows up folded back by a whole number of
    cycles per sample. */
module Moire {
  import opened Failures
  import opened Numeric

  /** `k = floor(2 / g)`: how many half-bands the reference frequency spans. */
  function AliasOrder(g: real): (k: int)
    requires g != 0.0
    ensures k as real <= 2.0 / g < k as real + 1.0
  {
    (2.0 / g).Floor
  }

  /** Reference definition of the fold: the integer nearest to the reference
      frequency 1/g (ties upward), i.e. the unique whole number of cycles per
      sample that brings 1/g into the principal band. */
  function FoldOffset(g: real): (m: int)
    requires g != 0.0
    ensures -0.5 <= 1.0 / g - m as real < 0.5
  {
    (1.0 / g + 0.5).Floor
  }

  /** The reference frequency as the transform sees it after folding. */
  function FoldedFrequency(g: real): (f: real)
    requires g != 0.0
    ensures -0.5 <= f < 0.5
    ensures f + FoldOffset(g) as real == 1.0 / g
  {
    1.0 / g - FoldOffset(g) as real
  }

  /** The source's parity rule (k/2 for even k, (k+1)/2 for odd k) picks
      exactly the fold that brings 1/g into the principal band. */
  lemma ParityRuleIsFold(g: real)
    requires g != 0.0
    ensures AliasOrder(g) % 2 == 0 ==> AliasOrder(g) / 2 == FoldOffset(g)
    ensures AliasOrder(g) % 2 == 1 ==> (AliasOrder(g) + 1) / 2 == FoldOffset(g)
  {
    var x := 1.0 / g;
    var k := AliasOrder(g);
    assert 2.0 / g == 2.0 * x;
    assert k as real <= 2.0 * x < k as real + 1.0;
    var j := k / 2;
    if k % 2 == 0 {
      assert k == 2 * j;
      assert j as real <= x + 0.5 - 0.5 < j as real + 0.5;
      assert (x + 0.5).Floor == j;
    } else {
      assert k == 2 * j + 1;
      assert (j + 1) as real <= x + 0.5 < (j + 1) as real + 1.0;
      assert (x + 0.5).Floor == j + 1;
    }
  }

  /** No fold is needed when the periodicity exceeds two pixels either way. */
  lemma NoFoldAboveTwoPixels(g: real)
    requires g > 2.0 || g < -2.0
    ensures AliasOrder(g) % 2 == 0 ==> AliasOrder(g) / 2 == 0
    ensures AliasOrder(g) % 2 == 1 ==> (AliasOrder(g) + 1) / 2 == 0
    ensures FoldOffset(g) == 0
  {
    ParityRuleIsFold(g);
    if g > 2.0 {
      assert 0.0 < 1.0 / g < 0.5;
    } else {
      assert -0.5 < 1.0 / g < 0.0;
    }
  }

  /** The unrounded centre of the mask: the bin of the folded frequency in a
      spectrum of `n` bins whose zero frequency sits at bin n/2. */
  function MaskCentre(g: real, n: int): real
    requires g != 0.0
  {
    n as real * (0.5 + FoldedFrequency(g))
  }

  /** The unrounded position computed by `mask_position_1d`, one branch
      per parity of k; it is the centre of the folded frequency. */
  function SourceCentre(g: real, n: int): (c: real)
    requires g != 0.0
    ensures c == MaskCentre(g, n)
  {
    var k := AliasOrder(g);
    var size := n as real;
    ParityRuleIsFold(g);
    var m := FoldOffset(g);
    if k % 2 == 0 then
      assert k == 2 * m;
      assert (k as real) / 2.0 == m as real;
      CentreAlgebra(g, n, (k as real) / 2.0);
      0.5 * size + size / g - (k as real) / 2.0 * size
    else
      assert k + 1 == 2 * m;
      assert ((k + 1) as real) / 2.0 == m as real;
      CentreAlgebra(g, n, ((k + 1) as real) / 2.0);
      0.5 * size + size / g - ((k + 1) as real) / 2.0 * size
  }

  /** `mask_position_1d`: the Fourier bin on which the mask is centred. */
  function MaskPosition(g: real, n: int): (r: Result<int>)
    ensures r.Err? <==> g == 0.0
    ensures r.Err? ==> r.error == ValueError(InvalidPeriodicityMessage)
    ensures r.Ok? ==> MaskCentre(g, n) - 0.5 <= r.value as real <= MaskCentre(g, n) + 0.5
    ensures r.Ok? ==> r.value == RoundHalfEven(MaskCentre(g, n))
  {
    if g == 0.0 then Err(ValueError(InvalidPeriodicityMessage))
    else Ok(RoundHalfEven(SourceCentre(g, n)))
  }

  /** The source's position formula, regrouped around the folded frequency. */
  lemma CentreAlgebra(g: real, n: int, offset: real)
    requires g != 0.0 && offset == FoldOffset(g) as real
    ensures 0.5 * (n as real) + (n as real) / g - offset * (n as real) == MaskCentre(g, n)
  {
    var size := n as real;
    calc {
      0.5 * size + size / g - offset * size;
      == { assert size / g == size * (1.0 / g); }
      0.5 * size + size * (1.0 / g) - offset * size;
      ==
      size * (0.5 + (1.0 / g - offset));
      ==
      size * (0.5 + FoldedFrequency(g));
      ==
      MaskCentre(g, n);
    }
  }

  /** Scaling a number of [0, 1) by `a` keeps it between 0 and `a`. */
  lemma ScaleUnitInterval(a: real, y: real, p: real)
    requires 0.0 <= y < 1.0 && p == a * y
    ensures a > 0.0 ==> 0.0 <= p < a
    ensures a < 0.0 ==> a < p <= 0.0
    ensures a == 0.0 ==> p == 0.0
  {
    if a > 0.0 {
      calc { 0.0; <= a * y; == p; }
      calc { p; == a * y; < a * 1.0; == a; }
    } else if a < 0.0 {
      calc { a; == a * 1.0; < a * y; == p; }
      calc { p; == a * y; <= 0.0; }
    }
  }

  /** The unrounded centre lies in the spectrum [0, n). */
  lemma CentreInSpectrum(g: real, n: int)
    requires g != 0.0
    ensures n > 0 ==> 0.0 <= MaskCentre(g, n) < n as real
    ensures n < 0 ==> n as real < MaskCentre(g, n) <= 0.0
    ensures n == 0 ==> MaskCentre(g, n) == 0.0
  {
    ScaleUnitInterval(n as real, 0.5 + FoldedFrequency(g), MaskCentre(g, n));
  }

  /** Hence the mask position lies in [0, n], within the [-n, n] range the
      docstring of `mask_position_1d` promises. */
  lemma MaskPositionInSpectrum(g: real, n: int)
    requires g != 0.0
    ensures n >= 0 ==> 0 <= MaskPosition(g, n).value <= n
    ensures n < 0 ==> n <= MaskPosition(g, n).value <= 0
  {
    CentreInSpectrum(g, n);
    RoundedWithinBounds(MaskCentre(g, n), MaskPosition(g, n).value, n);
  }

  /** An integer within 1/2 of a point of [0, n) lies in [0, n]. */
  lemma RoundedWithinBounds(c: real, p: int, n: int)
    requires c - 0.5 <= p as real <= c + 0.5
    requires n > 0 ==> 0.0 <= c < n as real
    requires n < 0 ==> n as real < c <= 0.0
    requires n == 0 ==> c == 0.0
    ensures n >= 0 ==> 0 <= p <= n
    ensures n < 0 ==> n <= p <= 0
  {
  }

  /** `gpa_moire_correction`: undo the fold on a measured frequency field. */
  function MoireCorrection(result: seq<real>, g: real): (r: Result<seq<real>>)
    ensures r.Err? <==> g == 0.0
    ensures r.Err? ==> r.error == ValueError(InvalidPeriodicityMessage)
    ensures r.Ok? ==> |r.value| == |result|
    ensures r.Ok? ==> forall i :: 0 <= i < |result| ==> r.value[i] == result[i] + FoldOffset(g) as real
  {
    if g == 0.0 then Err(ValueError(InvalidPeriodicityMessage))
    else
      var k := AliasOrder(g);
      ParityRuleIsFold(g);
      if k % 2 == 0 then Ok(AddScalar(result, (k as real) / 2.0))
      else Ok(AddScalar(result, ((k + 1) as real) / 2.0))
  }

  /** `mask_position_1d` centres the mask on 1/g minus exactly the offset
      that `gpa_moire_correction` adds back. */
  lemma MaskPositionMatchesCorrection(g: real, n: int, result: seq<real>)
    requires g != 0.0 && |result| > 0
    ensures MoireCorrection(result, g).Ok?
    ensures var offset := MoireCorrection(result, g).value[0] - result[0];
            MaskCentre(g, n) == 0.5 * (n as real) + (n as real) * (1.0 / g - offset)
  {
    var offset := MoireCorrection(result, g).value[0] - result[0];
    assert offset == FoldOffset(g) as real;
  }

  /** A field measured at the folded frequency is restored to 1/g. */
  lemma CorrectionUnfoldsAlias(g: real, field: seq<real>)
    requires g != 0.0
    requires forall i :: 0 <= i < |field| ==> field[i] == FoldedFrequency(g)
    ensures MoireCorrection(field, g).Ok?
    ensures forall i :: 0 <= i < |field| ==> MoireCorrection(field, g).value[i] == 1.0 / g
  {
  }
}
