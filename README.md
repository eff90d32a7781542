# GPA sampling: the exact arithmetic of `process.py`

Geometrical Phase Analysis (GPA) estimates the local frequency of a
quasi-periodic one-dimensional signal. It isolates one harmonic with a
Gaussian mask in Fourier space, unwraps the phase of that harmonic and
differentiates it. The result is then corrected for aliasing (the Moiré
effect), turned into a strain field and scored against a two-regime ground
truth.

This project models in Dafny the parts of that pipeline that are exact
arithmetic. They all live in `process.py`:

- **Moiré correction** (`moire.dfy`, module `Moire`): `mask_position_1d` and
  `gpa_moire_correction`. Both compute `k = floor(2/g)` and an offset of
  `k/2` (k even) or `(k+1)/2` (k odd). The model proves three things about
  this offset. It is the integer nearest to the reference frequency `1/g`
  (`FoldOffset`). Subtracting it folds `1/g` into the principal band
  [-1/2, 1/2). So the unrounded mask position lies in [0, N). Both functions
  use the same offset, and the correction adds back exactly what the mask
  position takes away.
- **Mask** (`mask.dfy`, module `Mask`): the guard and the shape of
  `mask_gaussian_1d` and `gaussian_1d`. The exponential is a parameter
  `exp: real -> real`. Symmetry holds for any `exp`. The mask is a bump
  (it never grows away from its centre) for any increasing `exp`.
- **Strain** (`strain.dfy`, module `Strain`): `strain_1d`. The strain at a
  sample is the relative stretch of the local periodicity `1/f` against `g`.
- **Error metrics** (`error_metrics.dfy`, module `ErrorMetrics`):
  `error_gpa_1d` and `error_strain_1d`, which split the field at
  `int(len/2)`.
- `numeric.dfy` (module `Numeric`) holds the Python and numpy primitives:
  `round` (ties to even), `np.linspace`, `sqrt(square(y))` as a magnitude,
  scalar broadcasting, and squaring.
- `failures.dfy` (module `Failures`) holds the exceptions the code raises:
  `ValueError` with its exact messages, and `ZeroDivisionError`.

All arithmetic is over Dafny's exact `real`, not IEEE floating point. Each
exception becomes an `Err` result rather than a precondition.

Where the documented intent and the code differ, the model follows the code:

- `error_gpa_1d` and `error_strain_1d` compare against a ground truth that
  switches regime at `int(len / 2)`. `sine_1d` (process.py:21-24) generates
  L + 1 samples and switches at `int(L / 2)`, one sample earlier when L is odd.
  With L = 1023, as in main.py, the generator switches at 511 and the error
  metrics at 512. The model's ground truth (`ErrorMetrics.TwoRegimeFrequency`)
  is the one the error metrics assume.
- `error_gpa_1d` and `error_strain_1d` have no guard. With Python-float
  parameters, the eager `1 / g`, `1 / (g + delta_g)` and `delta_g / g` raise
  `ZeroDivisionError`, not a `ValueError`.
- `error_strain_1d` adds `delta_g / g + delta_g` to the second half, as
  Python's precedence reads it. It does not use `-delta_g / (g + delta_g)`
  as the expected strain (see Findings).

## Model

| member | source | states |
|---|---|---|
| `Moire.AliasOrder` | process.py:57 | `k = np.floor(2 / g)`, shared with process.py:73: k is the integer with k ≤ 2/g < k + 1 |
| `Moire.FoldedFrequency` | process.py:57-61 | the reference frequency minus the fold offset lies in [-1/2, 1/2), and adding the offset back gives 1/g |
| `Moire.ParityRuleIsFold` | process.py:57-61 | with k = floor(2/g), the source's rule (k/2 for even k, (k+1)/2 for odd k) equals the integer nearest to 1/g, i.e. the fold into the principal band |
| `Moire.NoFoldAboveTwoPixels` | process.py:73-77 | when g > 2 or g < -2 both branches of the rule give offset 0: no correction is applied |
| `Moire.SourceCentre` | process.py:57-61 | both parity branches of the unrounded position formula equal N·(1/2 + folded frequency) |
| `Moire.MaskPosition` | process.py:54-61 | fails with the periodicity ValueError exactly when g == 0; otherwise returns the round-half-to-even of the folded-frequency centre, within 1/2 of it |
| `Moire.CentreInSpectrum` | process.py:57-61 | for N > 0 the unrounded centre lies in [0, N); for N = 0 it is 0 |
| `Moire.MaskPositionInSpectrum` | process.py:52-61 | for N ≥ 0 the returned position lies in [0, N], inside the [-N, N] range the docstring promises (mirrored for negative N) |
| `Moire.MoireCorrection` | process.py:70-77 | fails with the periodicity ValueError exactly when g == 0; otherwise keeps the length and adds the same fold offset to every sample, nothing else |
| `Moire.MaskPositionMatchesCorrection` | process.py:57-77 | the mask centre is N/2 + N·(1/g − offset), where offset is what `gpa_moire_correction` adds to a sample |
| `Moire.CorrectionUnfoldsAlias` | process.py:73-77 | a field measured at the folded frequency is restored to 1/g at every sample |
| `Numeric.RoundHalfEven` | process.py:59-61 | Python `round`: the result is within 1/2 of its argument, and is even on a tie |
| `Numeric.RoundHalfEvenIsUnique` | process.py:59-61 | any integer with those two properties is the rounded value |
| `Numeric.Linspace` | process.py:41 | `np.linspace` has `num` points, starts at `start`, ends at `stop` and is evenly spaced |
| `Numeric.LinspaceOfIndices` | process.py:41 | `linspace(0, N-1, N)` samples exactly the integers 0..N-1 |
| `Numeric.Magnitude` | process.py:105 | `sqrt(square(y))` keeps the length and gives the non-negative magnitude of each sample |
| `Mask.Gaussian` | process.py:122-132 | `gaussian_1d` at one point, a·exp(−0.5·(x−center)²/sigma²) with exp a parameter; requires sigma ≠ 0, as the docstring does; at the centre the value is a·exp(0), the peak amplitude |
| `Mask.GaussianSymmetric` | process.py:131 | the Gaussian takes equal values at equal distances either side of its centre, for any exp |
| `Mask.GaussianDecreasesAwayFromCentre` | process.py:131 | for increasing exp and non-negative amplitude, a point nearer the centre never has a smaller value |
| `Mask.MaskGaussian` | process.py:37-43 | fails with the parameter ValueError exactly when the data is empty or sigma == 0; otherwise has the data's length and entry i is the unit Gaussian at x = i |
| `Mask.MaskSymmetric` | process.py:40-42 | mask entries at bins i, j with i + j = 2·center are equal |
| `Mask.MaskIsBump` | process.py:40-42 | for increasing exp, a bin nearer the centre carries at least the weight of a bin farther away |
| `Strain.Strain1d` | process.py:87-91 | fails with the periodicity ValueError exactly when g == 0; otherwise keeps the length, the local periodicity satisfies 1/f[i] = g·(1 + strain[i]), and strain[i] is 0 exactly where f[i] = 1/g |
| `Strain.StrainDeterminesFrequency` | process.py:90 | two frequency fields with the same strain are equal: the strain is invertible |
| `Strain.CorrectedAliasHasNoStrain` | process.py:73-90 | a field at the folded frequency, after the Moiré correction, has zero strain everywhere |
| `ErrorMetrics.ErrorGpa1d` | process.py:102-105 | raises ZeroDivisionError exactly when g == 0 or g + delta_g == 0; otherwise keeps the length and gives the non-negative distance of each sample from 1/g (first half) or 1/(g + delta_g) (second half) |
| `ErrorMetrics.ErrorGpaVanishesIffExact` | process.py:102-105 | the frequency error is zero everywhere if and only if the field is the two-regime ground truth |
| `ErrorMetrics.StrainOfTwoRegime` | process.py:90 | `strain_1d` maps the ground-truth frequency field to strain 0 on the first half and delta_g/g on the second |
| `ErrorMetrics.ErrorStrain1d` | process.py:116-119 | as written: raises ZeroDivisionError exactly when g == 0; otherwise keeps the length, gives abs(s[i]) on the first half and abs(s[i] + (delta_g/g + delta_g)) on the second, all non-negative |
| `ErrorMetrics.ErrorStrainMissesExactStrain` | process.py:117 | as written, the error of the exact strain at the last sample is zero only when delta_g == 0 or g == -2 |
| `ErrorMetrics.ParenthesisedOffsetCancels` | process.py:117 | had the offset been `delta_g / (g + delta_g)`, the error of the exact strain at the second half would be zero only when delta_g = 0 or delta_g = -2g |
| `ErrorMetrics.ErrorStrainCounterexample` | process.py:117 | for g = 4, delta_g = 1 and two samples: ground truth [1/4, 1/5], strain [0, 1/4], reported strain error [0, 3/2] |
| `ErrorMetrics.ErrorStrain1dCorrected` | process.py:116-119 | same failure and length; distance of each sample from the ground-truth strain (0, then delta_g/g) |
| `ErrorMetrics.ErrorStrainCorrectedVanishesIffExact` | process.py:116-119 | the corrected strain error is zero everywhere if and only if the strain field is the ground-truth strain |
| `ErrorMetrics.ExactFieldHasNoError` | process.py:102-119 | for the exact two-regime field, the frequency error and the corrected strain error of its strain are zero everywhere |

## Left out

- `sine_1d` (process.py:4-25) is not modelled. It only generates test data, and it draws from numpy's global random generator and evaluates `sin`.
- gpa.py is not part of this model. It holds the forward and inverse FFT, `fftshift`/`ifftshift`, skimage's `unwrap_phase` (a foreign library whose behaviour cannot be seen) and `np.gradient`, all floating-point transforms.
- main.py is a demo script and is not modelled. It refers to `datastruct.GPAdata`, while the class is named `GPAData`.
- datastruct.py is a field holder with no behaviour and is not modelled.
- The exponential in `gaussian_1d` is transcendental. It is a parameter `exp`, so no numeric value of the mask is stated.
- Floating-point behaviour is not modelled: rounding of intermediate results, overflow, infinities and NaN. `round` is applied to the exact real, with ties to even, as Python's `round` does.
- Strain.Strain1d requires every sample to be non-zero once g is non-zero. numpy returns an infinity or NaN for a zero sample rather than raising, and that value is not modelled.
- ErrorMetrics.ErrorGpa1d and ErrorMetrics.ErrorStrain1d take the scalar parameters to be Python numbers, as in main.py, so a zero denominator raises ZeroDivisionError. With numpy scalars numpy would return an infinity and warn instead; that case is not modelled.
- Mask.MaskGaussian takes the data as a one-dimensional sequence. The code reads only `np.shape(data)[0]`, so the other dimensions of a multi-dimensional array are not modelled.
- Moire.MaskPosition places no bound on the array length. The docstring asks for a length greater than 1, but the code does not check it, so the model does not require it.

## Findings

| source | as written | input that shows it | evidently intended | confidence | as-written member | corrected member |
|---|---|---|---|---|---|---|
| process.py:117 | the second half of the strain is shifted by `delta_g / g + delta_g` before taking magnitudes | g = 4, delta_g = 1, two samples: the exact field [1/4, 1/5] has strain [0, 1/4] under `strain_1d`, and the reported strain error is [0, 3/2] instead of [0, 0] | the error is zero on the exact strain field, as `error_gpa_1d` is on the exact frequency field: subtract delta_g/g, the strain `strain_1d` gives a sample at periodicity g + delta_g | medium, not executed | `ErrorMetrics.ErrorStrain1d`, `ErrorMetrics.ErrorStrainCounterexample` | `ErrorMetrics.ErrorStrain1dCorrected` |

The expression looks like a misplaced parenthesis for `delta_g / (g + delta_g)`.
That reading does not make the error vanish either, because `strain_1d`
measures the stretch of the periodicity (delta_g/g), not the relative change of
the frequency. `ErrorMetrics.ParenthesisedOffsetCancels` states that the error
under that reading is zero only when delta_g = 0 or delta_g = -2g.
`ErrorMetrics.ErrorStrainMissesExactStrain` states exactly when the as-written
error is zero: only when delta_g = 0 or g = -2.
