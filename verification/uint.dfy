/** The test helper `to_uint`: splits a Python integer into the `(low,
    high)` limbs of Cairo's `Uint256`, with `&` and `>>` on Python's
    unbounded two's complement integers. */
module Uint {
  import opened Power

  /** 2^128, the radix of a limb. */
  const LIMB: nat := 0x1_0000_0000_0000_0000_0000_0000_0000_0000

  lemma LimbIsPow2()
    ensures Pow2(128) == LIMB
  {
    Pow2Double(4, 16);
    Pow2Double(8, 256);
    Pow2Double(16, 0x1_0000);
    Pow2Double(32, 0x1_0000_0000);
    Pow2Double(64, 0x1_0000_0000_0000_0000);
  }

  lemma Pow2Double(e: nat, p: nat)
    requires Pow2(e) == p
    ensures Pow2(2 * e) == p * p
  {
    Pow2Add(e, e);
  }

  /** A `(low, high)` tuple as passed to a contract expecting a `Uint256`. */
  datatype Uint256 = Uint256(low: int, high: int)

  /** Both limbs fit in 128 bits. */
  predicate Valid(u: Uint256)
  {
    0 <= u.low < LIMB && 0 <= u.high < LIMB
  }

  /** Python's `a & m` for a non-negative mask `m`, taken bit by bit from
      the least significant end. `a` may be negative: its bits are those of
      its infinite two's complement, which floor halving produces. */
  function BitAnd(a: int, m: nat): (r: nat)
    ensures r <= m
    decreases m
  {
    if m == 0 then 0
    else 2 * BitAnd(a / 2, m / 2) + (a % 2) * (m % 2)
  }

  /** Python's `a >> k`: `k` floor halvings. */
  function ShiftRight(a: int, k: nat): int
    decreases k
  {
    if k == 0 then a else ShiftRight(a / 2, k - 1)
  }

  /** The value the limbs stand for: `low + high * 2^128`. */
  function Combine(u: Uint256): int
  {
    u.low + u.high * LIMB
  }

  /** `to_uint(a) = (a & ((1 << 128) - 1), a >> 128)`: the low limb is the
      value modulo 2^128 and the two limbs always recombine to `a`,
      negative `a` included. */
  function ToUint(a: int): (u: Uint256)
    ensures 0 <= u.low < LIMB
    ensures Combine(u) == a
  {
    LimbIsPow2();
    MaskIsMod(a, 128);
    ShiftIsDiv(a, 128);
    Uint256(BitAnd(a, LIMB - 1), ShiftRight(a, 128))
  }

  /** The fixture helper `uint(a) = (a, 0)`. */
  function SmallUint(a: int): Uint256
  {
    Uint256(a, 0)
  }

  // ---------------------------------------------------------------------
  // Lemmas

  /** Masking with 2^k - 1 keeps the residue modulo 2^k. */
  lemma {:induction false} MaskIsMod(a: int, k: nat)
    ensures BitAnd(a, Pow2(k) - 1) == a % Pow2(k)
    decreases k
  {
    if k > 0 {
      var h := Pow2(k - 1);
      BitAndOdd(a, h);
      MaskIsMod(a / 2, k - 1);
      DivDiv(a, 2, h);
    }
  }

  /** One step of the bit recursion on an all-ones mask 2h - 1. */
  lemma BitAndOdd(a: int, h: nat)
    requires h >= 1
    ensures BitAnd(a, 2 * h - 1) == 2 * BitAnd(a / 2, h - 1) + a % 2
  {
    DivModUnique(2 * h - 1, 2, h - 1, 1);
  }

  /** Shifting right by k is floor division by 2^k. */
  lemma {:induction false} ShiftIsDiv(a: int, k: nat)
    ensures ShiftRight(a, k) == a / Pow2(k)
    decreases k
  {
    if k > 0 {
      ShiftIsDiv(a / 2, k - 1);
      DivDiv(a, 2, Pow2(k - 1));
    }
  }

  /** The pair is a valid `Uint256` exactly for `0 <= a < 2^256`. */
  lemma ToUintValid(a: int)
    ensures Valid(ToUint(a)) <==> 0 <= a < LIMB * LIMB
  {
    var u := ToUint(a);
    if 0 <= a < LIMB * LIMB {
      if u.high >= LIMB {
        MulMonotone(LIMB, u.high, LIMB);
      } else if u.high < 0 {
        MulMonotone(u.high, -1, LIMB);
      }
    }
    if Valid(u) {
      MulMonotone(u.high, LIMB - 1, LIMB);
      MulMonotone(0, u.high, LIMB);
    }
  }

  /** Every valid pair is `to_uint` of the number it denotes. */
  lemma ToUintCombine(u: Uint256)
    requires 0 <= u.low < LIMB
    ensures ToUint(Combine(u)) == u
  {
    var v := ToUint(Combine(u));
    DivModUnique(Combine(u), LIMB, u.high, u.low);
    DivModUnique(Combine(u), LIMB, v.high, v.low);
  }

  /** `to_uint` is injective. */
  lemma ToUintInjective(a: int, b: int)
    requires ToUint(a) == ToUint(b)
    ensures a == b
  {
  }

  /** Below 2^128, `to_uint` agrees with the fixture helper `uint`. */
  lemma ToUintSmall(a: int)
    requires 0 <= a < LIMB
    ensures ToUint(a) == SmallUint(a)
  {
    ToUintCombine(SmallUint(a));
  }
}
