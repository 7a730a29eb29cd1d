// Small facts about numbers.
module Arithmetic {

  function Max(x: int, y: int): int {
    if x > y then x else y
  }

  function Min(x: int, y: int): int {
    if x < y then x else y
  }

  lemma AtLeast(d: int, w: int)
    requires d >= 1 && w >= 0
    ensures d * w >= w
  {
  }
}
