/** JavaScript numbers as the model sees them: finite reals. NaN and the
    infinities are never produced by the code modelled here. */
module Numbers {

  /** `Number.isInteger` on a finite number. */
  predicate IsInteger(x: real) {
    x == x.Floor as real
  }

  /** An integer written as a number is integral and reads back as itself. */
  lemma IntegerOfInt(n: int)
    ensures IsInteger(n as real) && (n as real).Floor == n
  {
  }
}
