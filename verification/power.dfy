/** Powers of two and the facts about Euclidean division that the byte and
    limb arithmetic rests on. */
module Power {

  function Pow2(e: nat): (r: nat)
    ensures r >= 1
  {
    if e == 0 then 1 else 2 * Pow2(e - 1)
  }

  /** 256^n, the number of distinct byte strings of length n. */
  function Pow256(n: nat): (r: nat)
    ensures r >= 1
  {
    Pow2(8 * n)
  }

  lemma {:induction false} Pow2Add(a: nat, b: nat)
    ensures Pow2(a + b) == Pow2(a) * Pow2(b)
  {
    if a > 0 {
      Pow2Add(a - 1, b);
      assert Pow2(a + b) == 2 * Pow2(a - 1 + b);
    }
  }

  lemma {:induction false} Pow2Monotone(a: nat, b: nat)
    requires a <= b
    ensures Pow2(a) <= Pow2(b)
  {
    if a < b {
      Pow2Monotone(a, b - 1);
    }
  }

  lemma Pow256Succ(n: nat)
    ensures Pow256(n + 1) == 256 * Pow256(n)
  {
    Pow2Add(8, 8 * n);
    assert 8 * (n + 1) == 8 + 8 * n;
    assert Pow2(8) == 256;
  }

  /** Euclidean division with a positive divisor is determined by any
      quotient/remainder pair whose remainder lies in [0, d). */
  lemma DivModUnique(a: int, d: int, q: int, r: int)
    requires d > 0 && 0 <= r < d && a == d * q + r
    ensures a / d == q && a % d == r
  {
    var q', r' := a / d, a % d;
    assert d * (q - q') == r' - r;
    if q' < q {
      MulAtLeast(d, q - q');
    } else if q < q' {
      MulAtLeast(d, q' - q);
    }
  }

  /** Multiplying by a non-negative factor keeps the order. */
  lemma MulMonotone(a: int, b: int, c: nat)
    requires a <= b
    ensures a * c <= b * c
  {
  }

  lemma MulAtLeast(d: int, k: int)
    requires d > 0 && k >= 1
    ensures d * k >= d
  {
  }

  /** Dividing by b and then by p is dividing by b * p, and the two
      remainders combine into the remainder modulo b * p. This is what makes
      digit-by-digit (bit-by-bit, byte-by-byte) recursion agree with a single
      division by a power. */
  lemma DivDiv(a: int, b: int, p: int)
    requires b > 0 && p > 0
    ensures (a / b) / p == a / (b * p)
    ensures b * ((a / b) % p) + a % b == a % (b * p)
  {
    var q := a / b;
    var r := a % b;
    var q' := q / p;
    var r' := q % p;
    NestedDivision(a, b, q, r, p, q', r');
    DivModUnique(a, b * p, q', b * r' + r);
  }

  /** The arithmetic step of DivDiv: two nested quotient/remainder splits
      form one split by b * p whose remainder is in range. */
  lemma NestedDivision(a: int, b: int, q: int, r: int, p: int, q': int, r': int)
    requires b > 0 && p > 0
    requires a == b * q + r && 0 <= r < b
    requires q == p * q' + r' && 0 <= r' < p
    ensures a == (b * p) * q' + (b * r' + r)
    ensures 0 <= b * r' + r < b * p
  {
    MulDistribute(b, p * q', r');
    MulAssociate(b, p, q');
    MulMonotone(r', p - 1, b);
  }

  lemma MulDistribute(b: int, x: int, y: int)
    ensures b * (x + y) == b * x + b * y
  {
  }

  lemma MulAssociate(b: int, p: int, q: int)
    ensures b * (p * q) == (b * p) * q
  {
  }
}
