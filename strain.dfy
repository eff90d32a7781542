/** `strain_1d`: the relative strain of the measured frequency field with
    respect to an external reference periodicity. */
module Strain {
  import opened Failures
  import opened Numeric
  import Moire

  /** Every sample of a frequency field is non-zero. */
  predicate NoZeroSample(f: seq<real>)
  {
    forall i :: 0 <= i < |f| ==> f[i] != 0.0
  }

  /** The strain formula at one sample: the relative stretch of the local
      periodicity 1/f with respect to g. */
  lemma StrainAtSample(f: real, g: real)
    requires f != 0.0 && g != 0.0
    ensures 1.0 / f == g * (1.0 + (1.0 / g - f) / f)
    ensures (1.0 / g - f) / f == 0.0 <==> f == 1.0 / g
  {
    var s := (1.0 / g - f) / f;
    calc {
      g * (1.0 + s);
      ==
      g + g * s;
      == { assert s * f == 1.0 / g - f; DivideOut(g, s, f); }
      g + 1.0 / f - g;
      ==
      1.0 / f;
    }
    if s == 0.0 {
      assert s * f == 1.0 / g - f;
      assert s * f == 0.0;
    }
  }

  /** If s * f == 1/g - f then g * s == 1/f - g. */
  lemma DivideOut(g: real, s: real, f: real)
    requires f != 0.0 && g != 0.0
    requires s * f == 1.0 / g - f
    ensures g * s == 1.0 / f - g
  {
    calc {
      g * s;
      == { assert f * (1.0 / f) == 1.0; }
      g * (s * f) * (1.0 / f);
      ==
      g * (1.0 / g - f) * (1.0 / f);
      == { assert g * (1.0 / g) == 1.0; }
      (1.0 - g * f) * (1.0 / f);
      ==
      1.0 / f - g;
    }
  }

  /** `strain_1d`: `(1 / g - result) / result` sample by sample; fails when
      g is zero. A zero sample divides by zero in numpy, so the samples must
      be non-zero once the guard has passed. */
  function Strain1d(result: seq<real>, g: real): (r: Result<seq<real>>)
    requires g != 0.0 ==> NoZeroSample(result)
    ensures r.Err? <==> g == 0.0
    ensures r.Err? ==> r.error == ValueError(InvalidPeriodicityMessage)
    ensures r.Ok? ==> |r.value| == |result|
    ensures r.Ok? ==> forall i :: 0 <= i < |result| ==> 1.0 / result[i] == g * (1.0 + r.value[i])
    ensures r.Ok? ==> forall i :: 0 <= i < |result| ==> (r.value[i] == 0.0 <==> result[i] == 1.0 / g)
  {
    if g == 0.0 then Err(ValueError(InvalidPeriodicityMessage))
    else
      var strain := seq(|result|, i requires 0 <= i < |result| => (1.0 / g - result[i]) / result[i]);
      assert forall i :: 0 <= i < |result| ==>
        1.0 / result[i] == g * (1.0 + strain[i]) && (strain[i] == 0.0 <==> result[i] == 1.0 / g) by {
        forall i | 0 <= i < |result|
          ensures 1.0 / result[i] == g * (1.0 + strain[i]) && (strain[i] == 0.0 <==> result[i] == 1.0 / g)
        {
          StrainAtSample(result[i], g);
        }
      }
      Ok(strain)
  }

  /** The strain determines the frequency field it came from. */
  lemma StrainDeterminesFrequency(f1: seq<real>, f2: seq<real>, g: real)
    requires g != 0.0 && NoZeroSample(f1) && NoZeroSample(f2) && |f1| == |f2|
    requires Strain1d(f1, g) == Strain1d(f2, g)
    ensures f1 == f2
  {
    forall i | 0 <= i < |f1| ensures f1[i] == f2[i] {
      assert 1.0 / f1[i] == 1.0 / f2[i];
      Reciprocal(f1[i]);
      Reciprocal(f2[i]);
    }
  }

  /** The reciprocal of the reciprocal is the number itself. */
  lemma Reciprocal(f: real)
    requires f != 0.0
    ensures 1.0 / (1.0 / f) == f
  {
  }

  /** End to end: a field measured at the folded reference frequency,
      once corrected for the Moire effect, carries no strain. */
  lemma CorrectedAliasHasNoStrain(g: real, field: seq<real>)
    requires g != 0.0
    requires forall i :: 0 <= i < |field| ==> field[i] == Moire.FoldedFrequency(g)
    ensures Moire.MoireCorrection(field, g).Ok?
    ensures NoZeroSample(Moire.MoireCorrection(field, g).value)
    ensures forall i :: 0 <= i < |field| ==> Strain1d(Moire.MoireCorrection(field, g).value, g).value[i] == 0.0
  {
    Moire.CorrectionUnfoldsAlias(g, field);
    var corrected := Moire.MoireCorrection(field, g).value;
    assert 1.0 / g != 0.0;
  }
}
