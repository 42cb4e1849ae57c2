/** Products behind a name, so that proofs can leave them alone. */
module Arithmetic {

  ghost function Times(x: int, y: int): (r: int)
    ensures 0 <= x && 0 <= y ==> 0 <= r
  {
    x * y
  }

  ghost function RealTimes(x: real, y: real): real { x * y }
}
