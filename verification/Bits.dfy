/** Bitwise operations on natural numbers, as Python's integers have them. */
module Bits {

  /** `a & b` */
  function BitAnd(a: nat, b: nat): (c: nat) {
    if a == 0 || b == 0 then 0
    else 2 * BitAnd(a / 2, b / 2) + if a % 2 == 1 && b % 2 == 1 then 1 else 0
  }
}
