/** UTF-8 as defined in section 3 of RFC 3629: Python's `bytes(text,
    'UTF-8')` and the strict `bytes.decode('UTF-8')`. A Dafny `char` is a
    Unicode scalar value, which is exactly what Python's codec accepts. */
module Utf8 {
  import opened Wrappers
  import opened BigEndian

  /** A continuation byte, 10xxxxxx. */
  predicate IsCont(b: Byte)
  {
    0x80 <= b <= 0xBF
  }

  /** The one- to four-byte encoding of a single scalar value. */
  function EncodeChar(c: char): (r: seq<Byte>)
    ensures 1 <= |r| <= 4
  {
    var cp := c as int;
    if cp < 0x80 then [cp]
    else if cp < 0x800 then [0xC0 + cp / 64, 0x80 + cp % 64]
    else if cp < 0x10000 then [0xE0 + cp / 4096, 0x80 + (cp / 64) % 64, 0x80 + cp % 64]
    else [0xF0 + cp / 0x40000, 0x80 + (cp / 4096) % 64, 0x80 + (cp / 64) % 64, 0x80 + cp % 64]
  }

  function Encode(s: string): (r: seq<Byte>)
    ensures |r| >= |s|
  {
    if s == [] then [] else EncodeChar(s[0]) + Encode(s[1..])
  }

  /** Reads one well-formed character from the front of `bs` and returns
      it with the number of bytes it occupied; `None` for an ill-formed
      sequence (a stray continuation byte, a truncated sequence, an overlong
      form, a surrogate, or a value above U+10FFFF). The bytes consumed are
      exactly the encoding of the character returned. */
  function DecodeChar(bs: seq<Byte>): (r: Option<(char, nat)>)
    requires |bs| > 0
    ensures r.Some? ==> 1 <= r.value.1 <= |bs| && bs[..r.value.1] == EncodeChar(r.value.0)
  {
    var b0: int := bs[0];
    if b0 < 0x80 then
      assert bs[..1] == [b0];
      Some((b0 as char, 1))
    else if 0xC2 <= b0 <= 0xDF then
      if |bs| >= 2 && IsCont(bs[1]) then
        var cp: int := (b0 - 0xC0) * 64 + (bs[1] as int - 0x80);
        Reencode2(b0, bs[1]);
        assert bs[..2] == [b0, bs[1]];
        Some((cp as char, 2))
      else None
    else if 0xE0 <= b0 <= 0xEF then
      if |bs| >= 3 && IsCont(bs[1]) && IsCont(bs[2]) then
        var cp: int := (b0 - 0xE0) * 4096 + (bs[1] as int - 0x80) * 64 + (bs[2] as int - 0x80);
        if cp < 0x800 || 0xD800 <= cp <= 0xDFFF then None
        else
          Reencode3(b0, bs[1], bs[2]);
          assert bs[..3] == [b0, bs[1], bs[2]];
          Some((cp as char, 3))
      else None
    else if 0xF0 <= b0 <= 0xF4 then
      if |bs| >= 4 && IsCont(bs[1]) && IsCont(bs[2]) && IsCont(bs[3]) then
        var cp: int := (b0 - 0xF0) * 0x40000 + (bs[1] as int - 0x80) * 4096 + (bs[2] as int - 0x80) * 64 + (bs[3] as int - 0x80);
        if cp < 0x10000 || cp > 0x10FFFF then None
        else
          Reencode4(b0, bs[1], bs[2], bs[3]);
          assert bs[..4] == [b0, bs[1], bs[2], bs[3]];
          Some((cp as char, 4))
      else None
    else None
  }

  /** Strict decoding; `None` is the UnicodeDecodeError. Whatever it
      accepts re-encodes to the input. */
  function Decode(bs: seq<Byte>): (r: Option<string>)
    ensures r.Some? ==> Encode(r.value) == bs
    decreases |bs|
  {
    if bs == [] then Some([])
    else
      match DecodeChar(bs)
      case None => None
      case Some((c, w)) =>
        match Decode(bs[w..])
        case None => None
        case Some(rest) =>
          var s := [c] + rest;
          assert s[0] == c && s[1..] == rest;
          assert Encode(s) == bs[..w] + bs[w..] == bs;
          Some(s)
  }

  // ---------------------------------------------------------------------
  // The arithmetic behind DecodeChar: the scalar value assembled from a
  // well-formed sequence splits back into the same bytes.

  lemma Reencode2(b0: int, b1: Byte)
    requires 0xC2 <= b0 <= 0xDF && IsCont(b1)
    ensures var cp := (b0 - 0xC0) * 64 + (b1 as int - 0x80);
      0x80 <= cp < 0x800 && EncodeChar(cp as char) == [b0, b1]
  {
    var cp := (b0 - 0xC0) * 64 + (b1 as int - 0x80);
    Power.DivModUnique(cp, 64, b0 - 0xC0, b1 - 0x80);
  }

  lemma Reencode3(b0: int, b1: Byte, b2: Byte)
    requires 0xE0 <= b0 <= 0xEF && IsCont(b1) && IsCont(b2)
    ensures var cp := (b0 - 0xE0) * 4096 + (b1 as int - 0x80) * 64 + (b2 as int - 0x80);
      cp < 0x800 || 0xD800 <= cp <= 0xDFFF ||
      (0x800 <= cp < 0x10000 && EncodeChar(cp as char) == [b0, b1, b2])
  {
    var hi := (b0 - 0xE0) * 64 + (b1 as int - 0x80);
    var cp := hi * 64 + (b2 as int - 0x80);
    assert cp == (b0 - 0xE0) * 4096 + (b1 as int - 0x80) * 64 + (b2 as int - 0x80);
    Power.DivModUnique(cp, 64, hi, b2 - 0x80);
    Power.DivModUnique(hi, 64, b0 - 0xE0, b1 - 0x80);
    Power.DivModUnique(cp, 4096, b0 - 0xE0, (b1 as int - 0x80) * 64 + (b2 as int - 0x80));
  }

  lemma Reencode4(b0: int, b1: Byte, b2: Byte, b3: Byte)
    requires 0xF0 <= b0 <= 0xF4 && IsCont(b1) && IsCont(b2) && IsCont(b3)
    ensures var cp := (b0 - 0xF0) * 0x40000 + (b1 as int - 0x80) * 4096 + (b2 as int - 0x80) * 64 + (b3 as int - 0x80);
      cp < 0x10000 || cp > 0x10FFFF ||
      EncodeChar(cp as char) == [b0, b1, b2, b3]
  {
    var top := (b0 - 0xF0) * 64 + (b1 as int - 0x80);
    var hi := top * 64 + (b2 as int - 0x80);
    var cp := hi * 64 + (b3 as int - 0x80);
    assert cp == (b0 - 0xF0) * 0x40000 + (b1 as int - 0x80) * 4096 + (b2 as int - 0x80) * 64 + (b3 as int - 0x80);
    Power.DivModUnique(cp, 64, hi, b3 - 0x80);
    Power.DivModUnique(hi, 64, top, b2 - 0x80);
    Power.DivModUnique(top, 64, b0 - 0xF0, b1 - 0x80);
    Power.DivDiv(cp, 64, 64);
    Power.DivModUnique(cp, 0x40000, b0 - 0xF0, (b1 as int - 0x80) * 4096 + (b2 as int - 0x80) * 64 + (b3 as int - 0x80));
  }

  /** The decoder reads an encoded character back, whatever follows it. */
  lemma {:induction false} DecodeEncodeChar(c: char, rest: seq<Byte>)
    ensures DecodeChar(EncodeChar(c) + rest) == Some((c, |EncodeChar(c)|))
  {
    var cp := c as int;
    if cp < 0x80 {
    } else if cp < 0x800 {
      DecodeEncode2(c, rest);
    } else if cp < 0x10000 {
      DecodeEncode3(c, rest);
    } else {
      DecodeEncode4(c, rest);
    }
  }

  lemma DecodeEncode2(c: char, rest: seq<Byte>)
    requires 0x80 <= c as int < 0x800
    ensures DecodeChar(EncodeChar(c) + rest) == Some((c, 2))
  {
    var cp := c as int;
    var bs := EncodeChar(c) + rest;
    assert bs[0] == 0xC0 + cp / 64 && bs[1] == 0x80 + cp % 64;
  }

  lemma DecodeEncode3(c: char, rest: seq<Byte>)
    requires 0x800 <= c as int < 0x10000
    ensures DecodeChar(EncodeChar(c) + rest) == Some((c, 3))
  {
    var cp := c as int;
    var bs := EncodeChar(c) + rest;
    Power.DivDiv(cp, 64, 64);
    assert bs[0] == 0xE0 + cp / 4096 && bs[1] == 0x80 + (cp / 64) % 64 && bs[2] == 0x80 + cp % 64;
    assert (bs[0] as int - 0xE0) * 4096 + (bs[1] as int - 0x80) * 64 + (bs[2] as int - 0x80) == cp;
  }

  lemma DecodeEncode4(c: char, rest: seq<Byte>)
    requires 0x10000 <= c as int
    ensures DecodeChar(EncodeChar(c) + rest) == Some((c, 4))
  {
    var cp := c as int;
    var bs := EncodeChar(c) + rest;
    Power.DivDiv(cp, 64, 64);
    Power.DivDiv(cp, 4096, 64);
    Power.DivDiv(cp / 64, 64, 64);
    assert bs[0] == 0xF0 + cp / 0x40000 && bs[1] == 0x80 + (cp / 4096) % 64;
    assert bs[2] == 0x80 + (cp / 64) % 64 && bs[3] == 0x80 + cp % 64;
    assert (bs[0] as int - 0xF0) * 0x40000 + (bs[1] as int - 0x80) * 4096 + (bs[2] as int - 0x80) * 64 + (bs[3] as int - 0x80) == cp;
  }

  /** Decoding undoes encoding: `bytes(s, 'UTF-8').decode('UTF-8') == s`. */
  lemma {:induction false} DecodeEncode(s: string)
    ensures Decode(Encode(s)) == Some(s)
  {
    if s != [] {
      var e := EncodeChar(s[0]);
      var bs := Encode(s);
      DecodeEncodeChar(s[0], Encode(s[1..]));
      assert bs[|e|..] == Encode(s[1..]);
      DecodeEncode(s[1..]);
      assert [s[0]] + s[1..] == s;
    }
  }

  /** Encoding is injective, so UTF-8 is a bijection between strings and
      the byte strings `Decode` accepts. */
  lemma EncodeInjective(s: string, t: string)
    requires Encode(s) == Encode(t)
    ensures s == t
  {
    DecodeEncode(s);
    DecodeEncode(t);
  }

  /** A string's encoding starts with a zero byte exactly when the string
      starts with U+0000, and with an ASCII byte exactly when it starts
      with an ASCII character. */
  lemma EncodeLead(s: string)
    requires s != []
    ensures Encode(s)[0] == 0 <==> s[0] == 0 as char
    ensures Encode(s)[0] < 0x80 <==> (s[0] as int) < 0x80
  {
  }
}
