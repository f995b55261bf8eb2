/** Signs and the certified three-way sign test of the static filter. */
module Signs {

  /** CGAL's `Sign`: the sign of an exact quantity. */
  datatype Sign = Negative | Zero | Positive

  /** CGAL::abs on exact reals. */
  function Abs(x: real): (r: real)
    ensures r >= 0.0
    ensures r == x || r == -x
  {
    if x < 0.0 then -x else x
  }

  /** The exact sign of `x`; the reference that certified signs are compared with. */
  function SignOf(x: real): (s: Sign)
    ensures s == Positive <==> x > 0.0
    ensures s == Negative <==> x < 0.0
  {
    if x > 0.0 then Positive else if x < 0.0 then Negative else Zero
  }

  /** `sign_with_error`: classify `x` against the band [-error, error]. ZERO means
      "cannot certify the sign", not "x is zero". For a non-negative error bound a
      definite answer is always the exact sign, and the uncertain answer is given
      exactly for the values inside the band. */
  function SignWithError(x: real, error: real): (s: Sign)
    ensures error >= 0.0 ==> (s == Zero <==> Abs(x) <= error)
    ensures error >= 0.0 && s != Zero ==> s == SignOf(x)
  {
    if x > error then Positive
    else if x < -error then Negative
    else Zero
  }

  /** The two certified signs, each in terms of the band alone. */
  lemma SignWithErrorBand(x: real, error: real)
    requires error >= 0.0
    ensures SignWithError(x, error) == Positive <==> x > error
    ensures SignWithError(x, error) == Negative <==> x < -error
  {
  }

  /** Two certified signs taken together, in terms of the band alone: some sign is
      POSITIVE, none is but some is ZERO, or both are NEGATIVE. */
  lemma SignPairBand(x1: real, x2: real, error: real)
    requires error >= 0.0
    ensures var s1, s2 := SignWithError(x1, error), SignWithError(x2, error);
            && (s1 == Positive || s2 == Positive <==> x1 > error || x2 > error)
            && (s1 != Positive && s2 != Positive && (s1 == Zero || s2 == Zero) <==>
                  x1 <= error && x2 <= error && (Abs(x1) <= error || Abs(x2) <= error))
            && (s1 == Negative && s2 == Negative <==> x1 < -error && x2 < -error)
  {
    SignWithErrorBand(x1, error);
    SignWithErrorBand(x2, error);
  }

  /** Shrinking the error band never changes a definite sign: an answer certified
      against a wide band is also certified, identically, against a narrower one. */
  lemma SignWithErrorMonotone(x: real, e1: real, e2: real)
    requires 0.0 <= e1 <= e2
    requires SignWithError(x, e2) != Zero
    ensures SignWithError(x, e1) == SignWithError(x, e2)
  {
  }
}
