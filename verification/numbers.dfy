/** Integer minimum and maximum, shared by the parser and the colour model. */
module Numbers {

  function MinInt(a: int, b: int): int {
    if a <= b then a else b
  }

  function MaxInt(a: int, b: int): int {
    if a >= b then a else b
  }
}
