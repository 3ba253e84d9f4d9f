/** Quotients and remainders of numbers that are not known. */
module Division {
  lemma UniqueQuotient(x: int, d: int, q: int, r: int)
    requires 0 < d && x == q * d + r && 0 <= r < d
    ensures x / d == q && x % d == r
  {
    var other := x / d;
    assert (q - other) * d == x % d - r;
    assert q - other >= 1 ==> (q - other) * d >= d;
    assert q - other <= -1 ==> (q - other) * d <= -d;
  }
}
