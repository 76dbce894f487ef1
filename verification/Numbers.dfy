/** Small things about whole numbers. */
module Numbers {
  function Min(a: int, b: int): int { if a <= b then a else b }

  function Max(a: int, b: int): int { if a <= b then b else a }

  /** One less, but never below zero. */
  function Dec(n: nat): nat {
    if n == 0 then 0 else n - 1
  }

  ghost predicate StrictlyAscending(values: seq<int>) {
    forall i, j | 0 <= i < j < |values| :: values[i] < values[j]
  }
}
