/** What several models share: how a remote call fares, and one fact about products. */
module Common {

  /** A remote call works, or fails before or after the other side has acted on it. */
  datatype Fault = Works | FailsBefore | FailsAfter

  lemma MoreTimes(a: int, b: int, d: int)
    requires a <= b && d >= 0
    ensures a * d <= b * d
  {
    assert (b - a) * d >= 0;
  }
}
