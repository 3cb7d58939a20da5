module Numbers {
  function Min(a: int, b: int): int { if a < b then a else b }
  function Max(a: int, b: int): int { if a < b then b else a }

  ghost predicate Multiple(x: int, p: int) {
    exists q: int :: x == q * p
  }
}
