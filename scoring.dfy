/** The scoring model of the aligner: a match/mismatch value for a pair of
    symbols and one linear gap value, all caller-supplied signed integers. */
module Scoring {

  /** The three scores the aligner is configured with (match, mismatch, gap). */
  datatype Scheme = Scheme(matchValue: int, mismatchValue: int, gap: int)

  /** `cmatch`: the positive value for equal symbols, the negative one otherwise. */
  function CMatch(a: char, b: char, positive: int, negative: int): (r: int)
    ensures a == b ==> r == positive
    ensures a != b ==> r == negative
  {
    if a == b then positive else negative
  }

  /** The value of aligning `a` against `b` under a scheme. */
  function PairScore(sc: Scheme, a: char, b: char): int
  {
    CMatch(a, b, sc.matchValue, sc.mismatchValue)
  }
}
