/** `error_gpa_1d` and `error_strain_1d`: sample-wise absolute error of a
    computed field against the analytic two-regime ground truth, in which
    the first half of the signal has periodicity g and the second half
    periodicity g + dg. Both split at `int(len / 2)` and both evaluate
    `1 / g`-style quotients eagerly, so a zero denominator raises Python's
    ZeroDivisionError whatever the field holds. */
module ErrorMetrics {
  import opened Failures
  import opened Numeric
  import Strain

  /** Ground-truth frequency of sample i of an n-sample two-regime signal, as
      the error metrics assume it: split at `int(n / 2)`. `sine_1d` splits its
      L + 1 samples at `int(L / 2)`, one sample earlier when L is odd. */
  function ReferenceFrequency(n: nat, i: nat, g: real, dg: real): real
    requires g != 0.0 && g + dg != 0.0
  {
    if i < n / 2 then 1.0 / g else 1.0 / (g + dg)
  }

  /** The whole ground-truth frequency field. */
  function TwoRegimeFrequency(n: nat, g: real, dg: real): seq<real>
    requires g != 0.0 && g + dg != 0.0
  {
    seq(n, i requires 0 <= i < n => ReferenceFrequency(n, i, g, dg))
  }

  /** `error_gpa_1d`: `|result - 1/g|` on the first half and
      `|result - 1/(g + dg)|` on the second. */
  function ErrorGpa1d(result: seq<real>, g: real, dg: real): (r: Result<seq<real>>)
    ensures r.Err? <==> g == 0.0 || g + dg == 0.0
    ensures r.Err? ==> r.error == ZeroDivisionError
    ensures r.Ok? ==> |r.value| == |result|
    ensures r.Ok? ==> forall i :: 0 <= i < |result| ==>
              0.0 <= r.value[i] && r.value[i] == Abs(result[i] - ReferenceFrequency(|result|, i, g, dg))
  {
    if g == 0.0 || g + dg == 0.0 then Err(ZeroDivisionError)
    else
      var h := |result| / 2;
      var y := AddScalar(result[..h], -(1.0 / g)) + AddScalar(result[h..], -(1.0 / (g + dg)));
      assert forall i :: 0 <= i < |result| ==> y[i] == result[i] - ReferenceFrequency(|result|, i, g, dg) by {
        forall i | 0 <= i < |result| ensures y[i] == result[i] - ReferenceFrequency(|result|, i, g, dg) {
          if i < h {
            assert y[i] - result[..h][i] == -(1.0 / g);
          } else {
            assert y[i] - result[h..][i - h] == -(1.0 / (g + dg));
          }
        }
      }
      Ok(Magnitude(y))
  }

  /** The frequency error vanishes everywhere exactly when the field is the
      ground truth. */
  lemma ErrorGpaVanishesIffExact(result: seq<real>, g: real, dg: real)
    requires g != 0.0 && g + dg != 0.0
    ensures (forall i :: 0 <= i < |result| ==> ErrorGpa1d(result, g, dg).value[i] == 0.0)
        <==> result == TwoRegimeFrequency(|result|, g, dg)
  {
    var e := ErrorGpa1d(result, g, dg).value;
    var truth := TwoRegimeFrequency(|result|, g, dg);
    if forall i :: 0 <= i < |result| ==> e[i] == 0.0 {
      forall i | 0 <= i < |result| ensures result[i] == truth[i] {
        assert e[i] == Abs(result[i] - truth[i]);
      }
    }
  }

  /** Strain that `strain_1d` assigns to sample i of the ground truth. */
  function ReferenceStrain(n: nat, i: nat, g: real, dg: real): real
    requires g != 0.0
  {
    if i < n / 2 then 0.0 else dg / g
  }

  /** The whole ground-truth strain field. */
  function TwoRegimeStrain(n: nat, g: real, dg: real): seq<real>
    requires g != 0.0
  {
    seq(n, i requires 0 <= i < n => ReferenceStrain(n, i, g, dg))
  }

  /** `strain_1d` maps the ground-truth frequency field onto the
      ground-truth strain field: 0, then dg / g. */
  lemma StrainOfTwoRegime(n: nat, g: real, dg: real)
    requires g != 0.0 && g + dg != 0.0
    ensures Strain.NoZeroSample(TwoRegimeFrequency(n, g, dg))
    ensures Strain.Strain1d(TwoRegimeFrequency(n, g, dg), g) == Ok(TwoRegimeStrain(n, g, dg))
  {
    var f := TwoRegimeFrequency(n, g, dg);
    assert Strain.NoZeroSample(f);
    var s := Strain.Strain1d(f, g).value;
    forall i | 0 <= i < n ensures s[i] == TwoRegimeStrain(n, g, dg)[i] {
      if i >= n / 2 {
        assert 1.0 / f[i] == g * (1.0 + s[i]);
        assert 1.0 / f[i] == g + dg;
        assert g * s[i] == dg;
        SolveForStrain(g, dg, s[i]);
      }
    }
    assert s == TwoRegimeStrain(n, g, dg);
  }

  /** If g * s == dg then s == dg / g. */
  lemma SolveForStrain(g: real, dg: real, s: real)
    requires g != 0.0 && g * s == dg
    ensures s == dg / g
  {
  }

  /** `error_strain_1d` as written: `|strain|` on the first half and
      `|strain + (dg / g + dg)|` on the second, the parenthesised term being
      read with Python's precedence as `(dg / g) + dg`. */
  function ErrorStrain1d(strain: seq<real>, g: real, dg: real): (r: Result<seq<real>>)
    ensures r.Err? <==> g == 0.0
    ensures r.Err? ==> r.error == ZeroDivisionError
    ensures r.Ok? ==> |r.value| == |strain|
    ensures r.Ok? ==> forall i :: 0 <= i < |strain| ==> 0.0 <= r.value[i]
    ensures r.Ok? ==> forall i :: 0 <= i < |strain| && i < |strain| / 2 ==> r.value[i] == Abs(strain[i])
    ensures r.Ok? ==> forall i :: |strain| / 2 <= i < |strain| ==> r.value[i] == Abs(strain[i] + (dg / g + dg))
  {
    if g == 0.0 then Err(ZeroDivisionError)
    else
      var h := |strain| / 2;
      var y := strain[..h] + AddScalar(strain[h..], dg / g + dg);
      assert forall i :: h <= i < |strain| ==> y[i] == strain[i] + (dg / g + dg) by {
        forall i | h <= i < |strain| ensures y[i] == strain[i] + (dg / g + dg) {
          assert y[i] - strain[h..][i - h] == dg / g + dg;
        }
      }
      Ok(Magnitude(y))
  }

  /** As written, the strain error of the exact ground-truth strain is not
      zero on the second half, unless dg is zero or g is -2. */
  lemma ErrorStrainMissesExactStrain(n: nat, g: real, dg: real)
    requires n >= 2 && g != 0.0 && g + dg != 0.0
    ensures ErrorStrain1d(TwoRegimeStrain(n, g, dg), g, dg).Ok?
    ensures ErrorStrain1d(TwoRegimeStrain(n, g, dg), g, dg).value[n - 1] == 0.0
        <==> dg == 0.0 || g == -2.0
  {
    var s := TwoRegimeStrain(n, g, dg);
    var e := ErrorStrain1d(s, g, dg).value;
    assert s[n - 1] == dg / g;
    assert e[n - 1] == Abs(dg / g + (dg / g + dg));
    WrittenOffsetCancels(g, dg);
  }

  /** The second-half error of the exact strain, as written, is
      dg / g + (dg / g + dg) = dg * (g + 2) / g. */
  lemma WrittenOffsetCancels(g: real, dg: real)
    requires g != 0.0
    ensures dg / g + (dg / g + dg) == 0.0 <==> dg == 0.0 || g == -2.0
  {
    var q := dg / g;
    assert q * g == dg;
    if 2.0 * q + dg == 0.0 {
      assert dg * (g + 2.0) == 0.0 by {
        calc {
          dg * (g + 2.0);
          ==
          dg * g + 2.0 * dg;
          == { assert dg == -2.0 * q; }
          -2.0 * (q * g) + 2.0 * dg;
          ==
          -2.0 * dg + 2.0 * dg;
          ==
          0.0;
        }
      }
      if dg != 0.0 {
        assert g + 2.0 == 0.0 by {
          SolveForStrain(dg, 0.0, g + 2.0);
        }
      }
    }
    if g == -2.0 {
      assert q == -0.5 * dg by {
        SolveForStrain(g, dg, -0.5 * dg);
      }
    }
  }

  /** Had the offset been meant as `dg / (g + dg)`, the second-half error of
      the exact strain would be dg / g + dg / (g + dg) = dg * (2g + dg) /
      (g * (g + dg)): zero only when dg is zero or dg is -2g. */
  lemma ParenthesisedOffsetCancels(g: real, dg: real)
    requires g != 0.0 && g + dg != 0.0
    ensures dg / g + dg / (g + dg) == 0.0 <==> dg == 0.0 || dg == -2.0 * g
  {
    var q := dg / g;
    var p := dg / (g + dg);
    assert q * g == dg;
    assert p * (g + dg) == dg;
    var d := g * (g + dg);
    assert (q + p) * d == dg * (2.0 * g + dg) by {
      calc {
        (q + p) * d;
        ==
        (q * g) * (g + dg) + (p * (g + dg)) * g;
        ==
        dg * (g + dg) + dg * g;
        ==
        dg * (2.0 * g + dg);
      }
    }
    if q + p == 0.0 {
      assert dg * (2.0 * g + dg) == 0.0;
      if dg != 0.0 {
        SolveForStrain(dg, 0.0, 2.0 * g + dg);
      }
    }
    if dg == -2.0 * g {
      SolveForStrain(g, dg, -2.0);
      SolveForStrain(g + dg, dg, 2.0);
    }
  }

  /** The smallest instance: two samples, g = 4, dg = 1. The exact field is
      [1/4, 1/5], its strain [0, 1/4], and the error reported is [0, 3/2]. */
  lemma ErrorStrainCounterexample()
    ensures TwoRegimeFrequency(2, 4.0, 1.0) == [0.25, 0.2]
    ensures Strain.Strain1d([0.25, 0.2], 4.0) == Ok([0.0, 0.25])
    ensures ErrorStrain1d([0.0, 0.25], 4.0, 1.0) == Ok([0.0, 1.5])
  {
    StrainOfTwoRegime(2, 4.0, 1.0);
    assert TwoRegimeStrain(2, 4.0, 1.0) == [0.0, 0.25];
    assert TwoRegimeFrequency(2, 4.0, 1.0) == [0.25, 0.2];
    var e := ErrorStrain1d([0.0, 0.25], 4.0, 1.0).value;
    assert e == [0.0, 1.5];
  }

  /** `error_strain_1d` as evidently intended: the distance of each sample
      from the strain that `strain_1d` assigns to the ground truth, 0 on the
      first half and dg / g on the second. */
  function ErrorStrain1dCorrected(strain: seq<real>, g: real, dg: real): (r: Result<seq<real>>)
    ensures r.Err? <==> g == 0.0
    ensures r.Err? ==> r.error == ZeroDivisionError
    ensures r.Ok? ==> |r.value| == |strain|
    ensures r.Ok? ==> forall i :: 0 <= i < |strain| ==>
              0.0 <= r.value[i] && r.value[i] == Abs(strain[i] - ReferenceStrain(|strain|, i, g, dg))
  {
    if g == 0.0 then Err(ZeroDivisionError)
    else
      var h := |strain| / 2;
      var y := strain[..h] + AddScalar(strain[h..], -(dg / g));
      assert forall i :: 0 <= i < |strain| ==> y[i] == strain[i] - ReferenceStrain(|strain|, i, g, dg) by {
        forall i | 0 <= i < |strain| ensures y[i] == strain[i] - ReferenceStrain(|strain|, i, g, dg) {
          if i >= h {
            assert y[i] - strain[h..][i - h] == -(dg / g);
          }
        }
      }
      Ok(Magnitude(y))
  }

  /** The corrected strain error vanishes everywhere exactly when the strain
      field is the ground truth. */
  lemma ErrorStrainCorrectedVanishesIffExact(strain: seq<real>, g: real, dg: real)
    requires g != 0.0
    ensures (forall i :: 0 <= i < |strain| ==> ErrorStrain1dCorrected(strain, g, dg).value[i] == 0.0)
        <==> strain == TwoRegimeStrain(|strain|, g, dg)
  {
    var e := ErrorStrain1dCorrected(strain, g, dg).value;
    var truth := TwoRegimeStrain(|strain|, g, dg);
    if forall i :: 0 <= i < |strain| ==> e[i] == 0.0 {
      forall i | 0 <= i < |strain| ensures strain[i] == truth[i] {
        assert e[i] == Abs(strain[i] - truth[i]);
      }
    }
  }

  /** End to end: the strain computed from the exact frequency field has no
      corrected strain error, as the frequency field has no frequency error. */
  lemma ExactFieldHasNoError(n: nat, g: real, dg: real)
    requires g != 0.0 && g + dg != 0.0
    ensures forall i :: 0 <= i < n ==> ErrorGpa1d(TwoRegimeFrequency(n, g, dg), g, dg).value[i] == 0.0
    ensures Strain.NoZeroSample(TwoRegimeFrequency(n, g, dg))
    ensures forall i :: 0 <= i < n ==>
              ErrorStrain1dCorrected(Strain.Strain1d(TwoRegimeFrequency(n, g, dg), g).value, g, dg).value[i] == 0.0
  {
    ErrorGpaVanishesIffExact(TwoRegimeFrequency(n, g, dg), g, dg);
    StrainOfTwoRegime(n, g, dg);
    ErrorStrainCorrectedVanishesIffExact(TwoRegimeStrain(n, g, dg), g, dg);
  }
}
