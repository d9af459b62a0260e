/** The integers a double holds exactly. */
module Integers {

  const MAXIMUM_SAFE_INTEGER := 9_007_199_254_740_991

  predicate SafeInteger(n: int) {
    -MAXIMUM_SAFE_INTEGER <= n <= MAXIMUM_SAFE_INTEGER
  }
}
