/** The short-string codec of the deployment scripts: `str_to_felt` reads the
    UTF-8 bytes of a string as one big-endian number, `felt_to_string`
    writes a number back as its shortest signed big-endian byte string and
    decodes that as UTF-8. */
module FeltCodec {
  import opened Wrappers
  import opened Power
  import opened BigEndian
  import opened Utf8

  /** `str_to_felt(text)`. The result is not reduced modulo the Cairo field
      prime; it is whatever `int.from_bytes` returns. */
  function StrToFelt(text: string): (n: nat)
    ensures n < Pow256(|Encode(text)|)
  {
    FromBytes(Encode(text))
  }

  /** The `length` argument of `felt_to_string`:
      `(8 + (n + (n < 0)).bit_length()) // 8`. It is the least positive
      number of bytes whose two's complement range holds `n`, so the
      `to_bytes` call never overflows. */
  function FeltLength(n: int): (len: nat)
    ensures LeastFit(n, len)
  {
    var b := BitLength(n + (if n < 0 then 1 else 0));
    var len := (8 + b) / 8;
    LengthFromBitLength(n, b, len);
    len
  }

  lemma LengthFromBitLength(n: int, b: nat, len: nat)
    requires b == BitLength(n + (if n < 0 then 1 else 0)) && len == (8 + b) / 8
    ensures LeastFit(n, len)
  {
    assert 1 <= len && 8 * len - 8 <= b <= 8 * len - 1;
    FitsFromBitLength(n, b, len);
    if len >= 2 {
      NoShorterFromBitLength(n, b, len);
    }
  }

  lemma FitsFromBitLength(n: int, b: nat, len: nat)
    requires b == BitLength(n + (if n < 0 then 1 else 0))
    requires 1 <= len && b <= 8 * len - 1
    ensures InSignedRange(n, len)
  {
    Pow2Monotone(b, 8 * len - 1);
  }

  lemma NoShorterFromBitLength(n: int, b: nat, len: nat)
    requires b == BitLength(n + (if n < 0 then 1 else 0))
    requires 2 <= len && 8 * len - 8 <= b
    ensures !InSignedRange(n, len - 1)
  {
    Pow2Monotone(8 * (len - 1) - 1, b - 1);
    OutOfRange(n, len - 1, Abs(n + (if n < 0 then 1 else 0)));
  }

  /** A value whose magnitude (less one, when negative) reaches the sign
      bit does not fit. */
  lemma OutOfRange(n: int, len: nat, a: nat)
    requires len >= 1 && a == Abs(n + (if n < 0 then 1 else 0)) && SignBit(len) <= a
    ensures !InSignedRange(n, len)
  {
  }

  /** `len` is the least positive byte count whose two's complement range
      holds `n`. */
  predicate LeastFit(n: int, len: nat)
  {
    len >= 1 && InSignedRange(n, len) && (len == 1 || !InSignedRange(n, len - 1))
  }

  /** `n.to_bytes(length=FeltLength(n), byteorder='big', signed=True)`:
      always succeeds, and yields the shortest non-empty two's complement
      encoding of `n`. */
  function FeltToBytes(n: int): (r: Option<seq<Byte>>)
    ensures r.Some?
    ensures SignedFromBytes(r.value) == n
    ensures LeastFit(n, |r.value|)
  {
    ToBytesSigned(n, FeltLength(n))
  }

  /** `felt_to_string(n)`; `None` is the UnicodeDecodeError raised when the
      bytes are not well-formed UTF-8. Whatever string comes back encodes
      to `n` again, up to the two's complement offset for negative `n`. */
  function FeltToString(n: int): (r: Option<string>)
    ensures r.Some? ==> StrToFelt(r.value) == (if n >= 0 then n else n + Pow256(|Encode(r.value)|))
  {
    var bs := FeltToBytes(n).value;
    Decode(bs)
  }

  // ---------------------------------------------------------------------
  // What the round trip gives back

  /** Drops leading zero bytes. */
  function StripZeros(bs: seq<Byte>): (r: seq<Byte>)
    ensures r == [] || r[0] != 0
    ensures FromBytes(r) == FromBytes(bs)
  {
    if bs == [] || bs[0] != 0 then bs
    else
      LeadingZero(bs[1..]);
      assert bs == [0] + bs[1..];
      StripZeros(bs[1..])
  }

  /** The byte string `felt_to_string` produces for the value of `bs`:
      leading zeros dropped, then one zero byte put back if nothing is left
      or if the first remaining byte has its sign bit set. */
  function CanonicalBytes(bs: seq<Byte>): seq<Byte>
  {
    var t := StripZeros(bs);
    if t == [] then [0] else if t[0] < 0x80 then t else [0] + t
  }

  /** Drops leading U+0000 characters. */
  function StripNuls(s: string): string
  {
    if s == [] || s[0] != 0 as char then s else StripNuls(s[1..])
  }

  /** The string `felt_to_string(str_to_felt(s))` returns. */
  function Canonical(s: string): string
  {
    var t := StripNuls(s);
    if t == [] then [0 as char]
    else if (t[0] as int) < 0x80 then t
    else [0 as char] + t
  }

  // ---------------------------------------------------------------------
  // Lemmas

  /** Two positive lengths that are both the least fitting one agree. */
  lemma LeastLengthUnique(n: int, len: nat, len': nat)
    requires LeastFit(n, len) && LeastFit(n, len')
    ensures len == len'
  {
    if len < len' {
      SignedRangeMonotone(n, len, len' - 1);
    } else if len' < len {
      SignedRangeMonotone(n, len', len - 1);
    }
  }

  /** Byte-level round trip: re-encoding the unsigned value of any byte
      string gives its canonical form. */
  lemma {:induction false} FeltBytesOfValue(bs: seq<Byte>)
    ensures FeltToBytes(FromBytes(bs)) == Some(CanonicalBytes(bs))
  {
    var t := StripZeros(bs);
    if t == [] {
      assert FromBytes(bs) == 0;
      DivModUnique(0, 256, 0, 0);
    } else if t[0] < 0x80 {
      EncodedAsIs(t);
    } else {
      EncodedBehindZero(t);
    }
  }

  /** The value of a byte string with first byte in 1..0x7F is encoded as
      that very byte string. */
  lemma {:induction false} EncodedAsIs(t: seq<Byte>)
    requires |t| >= 1 && 1 <= t[0] < 0x80
    ensures FeltToBytes(FromBytes(t)) == Some(t)
  {
    LengthAsIs(t);
    DigitsFromBytes(t);
  }

  lemma {:induction false} LengthAsIs(t: seq<Byte>)
    requires |t| >= 1 && 1 <= t[0] < 0x80
    ensures FeltLength(FromBytes(t)) == |t|
  {
    FitsAsIs(t);
    LeastLengthUnique(FromBytes(t), |t|, FeltLength(FromBytes(t)));
  }

  lemma FitsAsIs(t: seq<Byte>)
    requires |t| >= 1 && 1 <= t[0] < 0x80
    ensures LeastFit(FromBytes(t), |t|)
  {
    var len := |t|;
    HighBit(t);
    if len >= 2 {
      NonZeroLead(t);
      Pow2Monotone(8 * (len - 1) - 1, 8 * (len - 1));
    }
  }

  /** The value of a byte string with its sign bit set needs one more,
      zero, byte in front. */
  lemma {:induction false} EncodedBehindZero(t: seq<Byte>)
    requires |t| >= 1 && t[0] >= 0x80
    ensures FeltToBytes(FromBytes(t)) == Some([0] + t)
  {
    LengthBehindZero(t);
    LeadingZero(t);
    DigitsFromBytes([0] + t);
  }

  lemma {:induction false} LengthBehindZero(t: seq<Byte>)
    requires |t| >= 1 && t[0] >= 0x80
    ensures FeltLength(FromBytes(t)) == |t| + 1
  {
    FitsBehindZero(t);
    LeastLengthUnique(FromBytes(t), |t| + 1, FeltLength(FromBytes(t)));
  }

  lemma FitsBehindZero(t: seq<Byte>)
    requires |t| >= 1 && t[0] >= 0x80
    ensures LeastFit(FromBytes(t), |t| + 1)
  {
    var c := [0] + t;
    HighBit(t);
    LeadingZero(t);
    HighBit(c);
  }

  /** The round trip is exact for a byte string whose first byte is in
      1..0x7F. */
  lemma {:induction false} FeltBytesRoundTrip(bs: seq<Byte>)
    requires |bs| >= 1 && 1 <= bs[0] <= 0x7F
    ensures FeltToBytes(FromBytes(bs)) == Some(bs)
  {
    FeltBytesOfValue(bs);
  }

  /** A first byte of 0x80 or more comes back behind one extra zero byte. */
  lemma {:induction false} FeltBytesHighLead(bs: seq<Byte>)
    requires |bs| >= 1 && bs[0] >= 0x80
    ensures FeltToBytes(FromBytes(bs)) == Some([0] + bs)
  {
    FeltBytesOfValue(bs);
  }

  /** `felt_to_string(0)` is the single byte 0x00, so the empty string
      comes back as "\x00". */
  lemma EmptyStringBecomesNul()
    ensures StrToFelt("") == 0
    ensures FeltToBytes(0) == Some([0])
    ensures FeltToString(StrToFelt("")) == Some([0 as char])
  {
    FeltBytesOfValue([]);
    DecodeEncode([0 as char]);
  }

  lemma {:induction false} EncodeStripNuls(s: string)
    ensures Encode(StripNuls(s)) == StripZeros(Encode(s))
  {
    if s != [] {
      EncodeLead(s);
      if s[0] == 0 as char {
        assert Encode(s) == [0] + Encode(s[1..]);
        EncodeStripNuls(s[1..]);
      }
    }
  }

  lemma {:induction false} EncodeCanonical(s: string)
    ensures Encode(Canonical(s)) == CanonicalBytes(Encode(s))
  {
    var t := StripNuls(s);
    EncodeStripNuls(s);
    if t != [] {
      EncodeLead(t);
      assert Encode([0 as char] + t) == [0] + Encode(t) by {
        assert ([0 as char] + t)[1..] == t;
      }
    }
    assert Encode([0 as char]) == [0];
  }

  /** The full round trip on strings: `felt_to_string(str_to_felt(s))`
      drops leading NULs and puts one NUL back when nothing is left or the
      first remaining character is not ASCII. */
  lemma {:induction false} RoundTrip(s: string)
    ensures FeltToString(StrToFelt(s)) == Some(Canonical(s))
  {
    FeltBytesOfValue(Encode(s));
    EncodeCanonical(s);
    DecodeEncode(Canonical(s));
  }

  /** A non-empty string starting with an ASCII character other than NUL
      survives the round trip unchanged. */
  lemma {:induction false} RoundTripAscii(s: string)
    requires s != [] && 0 < s[0] as int < 0x80
    ensures FeltToString(StrToFelt(s)) == Some(s)
  {
    RoundTrip(s);
  }

  /** A string starting with a non-ASCII character comes back with a NUL
      in front. */
  lemma {:induction false} RoundTripNonAsciiLead(s: string)
    requires s != [] && s[0] as int >= 0x80
    ensures FeltToString(StrToFelt(s)) == Some([0 as char] + s)
  {
    RoundTrip(s);
  }

  /** Leading NULs do not change the encoding, so `str_to_felt` is not
      injective. */
  lemma LeadingNulIgnored(s: string)
    ensures StrToFelt([0 as char] + s) == StrToFelt(s)
  {
    assert ([0 as char] + s)[1..] == s;
    LeadingZero(Encode(s));
  }

  lemma StrToFeltNotInjective()
    ensures exists s: string, t: string :: s != t && StrToFelt(s) == StrToFelt(t)
  {
    LeadingNulIgnored("A");
    assert [0 as char] + "A" != "A";
  }

  /** On strings without a leading NUL, `str_to_felt` is injective. */
  lemma StrToFeltInjective(s: string, t: string)
    requires s == [] || s[0] != 0 as char
    requires t == [] || t[0] != 0 as char
    requires StrToFelt(s) == StrToFelt(t)
    ensures s == t
  {
    RoundTrip(s);
    RoundTrip(t);
    CanonicalInjective(s, t);
  }

  lemma CanonicalInjective(s: string, t: string)
    requires s == [] || s[0] != 0 as char
    requires t == [] || t[0] != 0 as char
    requires Canonical(s) == Canonical(t)
    ensures s == t
  {
    var c := Canonical(s);
    assert StripNuls(s) == s && StripNuls(t) == t;
    if c[0] != 0 as char {
      assert c == s && c == t;
    } else if |c| == 1 {
      assert s == [] && t == [];
    } else {
      assert c == [0 as char] + s && c == [0 as char] + t;
      assert s == c[1..] == t;
    }
  }
}
