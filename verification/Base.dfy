/** Small definitions that every part of the model uses. */
module Base {
  datatype Option<+T> = None | Some(value: T)

  const PAGESIZE: nat := 4096

  const WORD: nat := 0x1_0000_0000_0000_0000 // the numbers of 64 bits

  /** No element occurs twice. */
  ghost predicate Distinct<T>(s: seq<T>) {
    forall i, j :: 0 <= i < j < |s| ==> s[i] != s[j]
  }

  /** ceilpg of rekernel/core/math.d, where the 64-bit sum does not wrap. */
  function CeilPg(x: nat): (r: nat)
    ensures r % PAGESIZE == 0 && x <= r < x + PAGESIZE
  {
    (x + (PAGESIZE - 1)) / PAGESIZE * PAGESIZE
  }

  function Min(a: nat, b: nat): (m: nat)
    ensures m <= a && m <= b && (m == a || m == b)
  {
    if b < a then b else a
  }

  lemma DivModUnique(x: int, d: int, k: int, r: int)
    requires d > 0 && 0 <= r < d && x == k * d + r
    ensures x / d == k && x % d == r
  {
    var e := x / d - k;
    assert e >= 1 ==> e * d >= d;
    assert e <= -1 ==> e * d <= -d;
    assert e * d == r - x % d;
  }

  lemma AlignedSum(a: int, b: int)
    requires a % PAGESIZE == 0 && b % PAGESIZE == 0
    ensures (a + b) % PAGESIZE == 0 && (a - b) % PAGESIZE == 0
  {
  }
}
