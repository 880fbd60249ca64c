/** Notions shared by several of the algorithms: square matrices, and the
    `INT_MAX` sentinel of the C++ programs kept apart from real values. */
module Common {

  /** `m` is an n-by-n matrix. */
  predicate IsSquare<T>(m: seq<seq<T>>, n: nat)
  {
    |m| == n && forall i :: 0 <= i < n ==> |m[i]| == n
  }

  /** A value, or the "nothing yet / unreachable" value that the C++ code
      writes as `INT_MAX`; every finite value is below it. */
  datatype Bound = Finite(value: int) | Infinity
  {
    /** `c` is strictly below this bound. */
    predicate Above(c: int)
    {
      Infinity? || c < value
    }

    /** This bound is at most `other` (Infinity is the largest). */
    predicate AtMost(other: Bound)
    {
      other.Infinity? || (Finite? && value <= other.value)
    }
  }
}
