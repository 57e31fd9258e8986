/** Integers and their two's complement bits. */
module Numbers {
  function Min(x: int, y: int): int { if x < y then x else y }

  function Max(x: int, y: int): int { if x < y then y else x }

  function Abs(a: int): nat { if a < 0 then -a else a }

  function Pow2(n: nat): (r: nat)
    ensures r > 0
  {
    if n == 0 then 1 else 2 * Pow2(n - 1)
  }

  function Power(a: int, b: nat): int { if b == 0 then 1 else a * Power(a, b - 1) }

  function BitLength(a: nat): nat { if a == 0 then 0 else 1 + BitLength(a / 2) }

  predicate BitAt(a: int, i: nat)
    decreases i
  {
    if i == 0 then a % 2 == 1 else BitAt(a / 2, i - 1)
  }
}
