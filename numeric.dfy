/** Exact-arithmetic counterparts of the Python and numpy primitives the
    processing functions are built from. */
module Numeric {

  /** `np.sqrt(np.square(y))` of one sample: its magnitude. */
  function Abs(x: real): (r: real)
    ensures 0.0 <= r
    ensures r == x || r == -x
  {
    if x < 0.0 then -x else x
  }

  /** Python's built-in `round` on an exact real: the nearest integer, with
      ties going to the even neighbour. */
  function RoundHalfEven(x: real): (r: int)
    ensures x - 0.5 <= r as real <= x + 0.5
    ensures (r as real - x == 0.5 || x - r as real == 0.5) ==> r % 2 == 0
  {
    var f := x.Floor;
    var d := x - f as real;
    if d < 0.5 then f
    else if d > 0.5 then f + 1
    else if f % 2 == 0 then f
    else f + 1
  }

  /** The two properties of RoundHalfEven determine its result. */
  lemma RoundHalfEvenIsUnique(x: real, m: int)
    requires x - 0.5 <= m as real <= x + 0.5
    requires (m as real - x == 0.5 || x - m as real == 0.5) ==> m % 2 == 0
    ensures m == RoundHalfEven(x)
  {
  }

  /** Python's `t ** 2`. */
  function Square(t: real): real
  {
    t * t
  }

  /** Squaring preserves the order of magnitudes. */
  lemma SquareMonotone(p: real, q: real)
    requires Abs(p) <= Abs(q)
    ensures Square(p) <= Square(q)
  {
    calc {
      Square(p);
      == { SquareOfAbs(p); }
      Abs(p) * Abs(p);
      <= { ScaleMonotone(Abs(p), Abs(p), Abs(q)); }
      Abs(p) * Abs(q);
      <= { ScaleMonotone(Abs(q), Abs(p), Abs(q)); }
      Abs(q) * Abs(q);
      == { SquareOfAbs(q); }
      Square(q);
    }
  }

  /** The square of a number is the square of its magnitude. */
  lemma SquareOfAbs(t: real)
    ensures Square(t) == Abs(t) * Abs(t)
  {
    if t < 0.0 {
      calc {
        Abs(t) * Abs(t);
        ==
        (-t) * (-t);
        ==
        t * t;
      }
    }
  }

  /** The square of a non-zero number is positive. */
  lemma SquarePositive(s: real)
    requires s != 0.0
    ensures Square(s) > 0.0
  {
    calc {
      Square(s);
      ==
      s * s;
      >
      0.0;
    }
  }

  /** Multiplying by a non-negative factor preserves order. */
  lemma ScaleMonotone(a: real, u: real, v: real)
    requires a >= 0.0 && u <= v
    ensures a * u <= a * v
  {
  }

  /** numpy broadcasting `s + c`: the scalar added to every sample. */
  function AddScalar(s: seq<real>, c: real): (r: seq<real>)
    ensures |r| == |s|
    ensures forall i :: 0 <= i < |s| ==> r[i] - s[i] == c
  {
    seq(|s|, i requires 0 <= i < |s| => s[i] + c)
  }

  /** `np.sqrt(np.square(y))`: the magnitude of every sample. */
  function Magnitude(y: seq<real>): (r: seq<real>)
    ensures |r| == |y|
    ensures forall i :: 0 <= i < |y| ==> 0.0 <= r[i] && (r[i] == y[i] || r[i] == -y[i])
  {
    seq(|y|, i requires 0 <= i < |y| => Abs(y[i]))
  }

  /** `np.linspace(start, stop, num)`: `num` evenly spaced points from
      `start` to `stop`, both ends included; a single point is `start`. */
  function Linspace(start: real, stop: real, num: nat): (r: seq<real>)
    ensures |r| == num
    ensures num >= 1 ==> r[0] == start
    ensures num >= 2 ==> r[num - 1] == stop
    ensures num >= 2 ==> forall i :: 0 <= i < num - 1 ==>
              r[i + 1] - r[i] == (stop - start) / (num - 1) as real
  {
    if num == 0 then []
    else if num == 1 then [start]
    else
      var step := (stop - start) / (num - 1) as real;
      MultiplyDivided(stop - start, (num - 1) as real, step);
      seq(num, i requires 0 <= i < num => start + i as real * step)
  }

  /** Multiplying a quotient by its divisor gives back the dividend. */
  lemma MultiplyDivided(x: real, d: real, q: real)
    requires d != 0.0 && q == x / d
    ensures d * q == x
  {
  }

  /** `np.linspace(0, n - 1, n)` samples exactly the indices 0, 1, ..., n-1. */
  lemma LinspaceOfIndices(n: nat, i: nat)
    requires i < n
    ensures Linspace(0.0, (n - 1) as real, n)[i] == i as real
  {
    if n >= 2 {
      var step := ((n - 1) as real - 0.0) / (n - 1) as real;
      MultiplyDivided((n - 1) as real - 0.0, (n - 1) as real, step);
      assert (n - 1) as real * step == (n - 1) as real * 1.0;
      assert step == 1.0;
    }
  }
}
