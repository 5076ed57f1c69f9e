/** Python's `int.from_bytes(bs, "big")`, `int.to_bytes(length, "big",
    signed=True)` and `int.bit_length()`, on byte strings. */
module BigEndian {
  import opened Power
  import opened Wrappers

  type Byte = b: int | 0 <= b < 256

  /** `int.from_bytes(bs, "big")`: the unsigned big-endian value of `bs`. */
  function FromBytes(bs: seq<Byte>): (n: nat)
    ensures n < Pow256(|bs|)
  {
    if bs == [] then 0
    else
      var p := bs[..|bs| - 1];
      var v := FromBytes(p);
      Pow256Succ(|p|);
      assert v * 256 + bs[|bs| - 1] < Pow256(|p|) * 256 by {
        assert v <= Pow256(|p|) - 1;
        assert v * 256 <= (Pow256(|p|) - 1) * 256;
      }
      v * 256 + bs[|bs| - 1]
  }

  /** Half of 256^n: the least value whose n-byte two's complement has its
      sign bit set. */
  function SignBit(n: nat): (r: nat)
    requires n >= 1
    ensures 2 * r == Pow256(n)
  {
    Pow2(8 * n - 1)
  }

  /** `int.from_bytes(bs, "big", signed=True)`: the two's complement value. */
  function SignedFromBytes(bs: seq<Byte>): int
  {
    if bs == [] then 0
    else if bs[0] >= 0x80 then FromBytes(bs) - Pow256(|bs|)
    else FromBytes(bs)
  }

  /** The integers that fit in `n` bytes of two's complement. For `n == 0`
      only zero fits (its encoding is the empty string). */
  predicate InSignedRange(x: int, n: nat)
  {
    if n == 0 then x == 0 else -(SignBit(n) as int) <= x < SignBit(n)
  }

  /** The low `n` bytes of the two's complement of `x`, most significant
      first. */
  function Digits(x: int, n: nat): (r: seq<Byte>)
    ensures |r| == n
    ensures FromBytes(r) == x % Pow256(n)
    decreases n
  {
    if n == 0 then []
    else
      var p := Digits(x / 256, n - 1);
      var r := p + [x % 256];
      var P := Pow256(n - 1);
      Pow256Succ(n - 1);
      DivDiv(x, 256, P);
      assert r[..n - 1] == p;
      assert FromBytes(r) == FromBytes(p) * 256 + x % 256;
      assert FromBytes(p) == (x / 256) % P;
      r
  }

  /** `x.to_bytes(n, "big", signed=True)`; `None` is the OverflowError
      raised when `x` does not fit. */
  function ToBytesSigned(x: int, n: nat): (r: Option<seq<Byte>>)
    ensures r.Some? <==> InSignedRange(x, n)
    ensures r.Some? ==> |r.value| == n && SignedFromBytes(r.value) == x
  {
    if InSignedRange(x, n) then
      var d := Digits(x, n);
      SignedDigits(x, n);
      Some(d)
    else None
  }

  /** `x.bit_length()`: the number of binary digits of |x|. */
  function BitLength(x: int): (b: nat)
    ensures Abs(x) < Pow2(b)
    ensures b == 0 || Pow2(b - 1) <= Abs(x)
    decreases Abs(x)
  {
    var m := Abs(x);
    if m == 0 then 0 else 1 + BitLength(m / 2)
  }

  function Abs(x: int): nat
  {
    if x < 0 then -x else x
  }

  // ---------------------------------------------------------------------
  // Lemmas

  /** Reading from the back: appending a byte shifts the value one byte up. */
  lemma FromBytesSnoc(p: seq<Byte>, l: Byte)
    ensures FromBytes(p + [l]) == FromBytes(p) * 256 + l
  {
    assert (p + [l])[..|p|] == p;
  }

  /** Reading from the front: the first byte weighs 256^(n-1). */
  lemma {:induction false} FromBytesCons(b: Byte, bs: seq<Byte>)
    ensures FromBytes([b] + bs) == b * Pow256(|bs|) + FromBytes(bs)
    decreases |bs|
  {
    if bs == [] {
      FromBytesSnoc([], b);
      assert [b] + bs == [] + [b];
    } else {
      var p := bs[..|bs| - 1];
      var l := bs[|bs| - 1];
      assert bs == p + [l];
      assert [b] + bs == ([b] + p) + [l];
      FromBytesSnoc([b] + p, l);
      FromBytesSnoc(p, l);
      FromBytesCons(b, p);
      Pow256Succ(|p|);
      ShiftArith(b, Pow256(|p|), FromBytes(p), l);
    }
  }

  lemma ShiftArith(b: int, P: int, w: int, l: int)
    ensures (b * P + w) * 256 + l == b * (256 * P) + (w * 256 + l)
  {
  }

  /** A leading zero byte does not change the unsigned value. */
  lemma LeadingZero(bs: seq<Byte>)
    ensures FromBytes([0] + bs) == FromBytes(bs)
  {
    FromBytesCons(0, bs);
  }

  /** The first byte has its top bit set exactly when the value reaches
      half of 256^n. */
  lemma HighBit(bs: seq<Byte>)
    requires |bs| >= 1
    ensures bs[0] >= 0x80 <==> FromBytes(bs) >= SignBit(|bs|)
  {
    var t := bs[1..];
    var P := Pow256(|t|);
    assert bs == [bs[0]] + t;
    FromBytesCons(bs[0], t);
    assert FromBytes(bs) == bs[0] * P + FromBytes(t);
    assert FromBytes(t) < P;
    Pow2Add(7, 8 * |t|);
    assert 8 * |bs| - 1 == 7 + 8 * |t|;
    assert SignBit(|bs|) == 128 * P;
    if bs[0] >= 0x80 {
      MulMonotone(128, bs[0], P);
    } else {
      MulMonotone(bs[0], 127, P);
    }
  }

  /** A non-zero first byte puts the value at or above 256^(n-1). */
  lemma NonZeroLead(bs: seq<Byte>)
    requires |bs| >= 1 && bs[0] != 0
    ensures FromBytes(bs) >= Pow256(|bs| - 1)
  {
    var t := bs[1..];
    assert bs == [bs[0]] + t;
    FromBytesCons(bs[0], t);
    MulMonotone(1, bs[0], Pow256(|t|));
  }

  /** The encoding of an in-range value reads back as that value. */
  lemma {:induction false} SignedDigits(x: int, n: nat)
    requires InSignedRange(x, n)
    ensures SignedFromBytes(Digits(x, n)) == x
  {
    if n > 0 {
      var d := Digits(x, n);
      var P := Pow256(n);
      if x >= 0 {
        DivModUnique(x, P, 0, x);
        HighBit(d);
      } else {
        DivModUnique(x, P, -1, x + P);
        HighBit(d);
      }
    }
  }

  /** The unsigned value of a byte string, re-encoded at the same length,
      gives back the byte string. */
  lemma {:induction false} DigitsFromBytes(bs: seq<Byte>)
    ensures Digits(FromBytes(bs), |bs|) == bs
    decreases |bs|
  {
    if bs != [] {
      var p := bs[..|bs| - 1];
      var l := bs[|bs| - 1];
      var v := FromBytes(bs);
      assert bs == p + [l];
      FromBytesSnoc(p, l);
      DivModUnique(v, 256, FromBytes(p), l);
      DigitsFromBytes(p);
      assert Digits(v, |bs|) == Digits(v / 256, |p|) + [v % 256];
    }
  }

  /** Two's complement ranges grow with the length. */
  lemma SignedRangeMonotone(x: int, n: nat, m: nat)
    requires n <= m && InSignedRange(x, n)
    ensures InSignedRange(x, m)
  {
    if n > 0 {
      Pow2Monotone(8 * n - 1, 8 * m - 1);
    }
  }

  /** `bit_length` is determined by the power-of-two interval |x| lies in. */
  lemma BitLengthUnique(x: int, e: nat)
    requires Abs(x) < Pow2(e)
    requires e == 0 || Pow2(e - 1) <= Abs(x)
    ensures BitLength(x) == e
  {
    var b := BitLength(x);
    if b < e {
      Pow2Monotone(b, e - 1);
    } else if e < b {
      Pow2Monotone(e, b - 1);
    }
  }
}
