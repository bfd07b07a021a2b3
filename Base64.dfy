/**
 * Base64 as defined in section 4 of RFC 4648, the encoding Python's
 * `base64.b64encode` produces: the 64-character alphabet of Table 1, `=`
 * padding, no line breaks.
 */
module Base64 {
  import opened Wrappers

  type byte = b: int | 0 <= b < 256
  type Sextet = v: int | 0 <= v < 64

  const Pad: char := '='

  predicate IsAlphabetChar(c: char) {
    ('A' <= c <= 'Z') || ('a' <= c <= 'z') || ('0' <= c <= '9') || c == '+' || c == '/'
  }

  /** Table 1 of RFC 4648: values 0-25 are 'A'-'Z', 26-51 are 'a'-'z',
      52-61 are '0'-'9', 62 is '+' and 63 is '/'. */
  function CharOf(v: Sextet): (c: char)
    ensures IsAlphabetChar(c)
  {
    if v < 26 then ('A' as int + v) as char
    else if v < 52 then ('a' as int + (v - 26)) as char
    else if v < 62 then ('0' as int + (v - 52)) as char
    else if v == 62 then '+'
    else '/'
  }

  /** The 6-bit value a character of the alphabet stands for. */
  function ValueOf(c: char): (r: Option<Sextet>)
    ensures r.Some? <==> IsAlphabetChar(c)
    ensures r.Some? ==> CharOf(r.value) == c
  {
    if 'A' <= c <= 'Z' then Some(c as int - 'A' as int)
    else if 'a' <= c <= 'z' then Some(c as int - 'a' as int + 26)
    else if '0' <= c <= '9' then Some(c as int - '0' as int + 52)
    else if c == '+' then Some(62)
    else if c == '/' then Some(63)
    else None
  }

  lemma ValueOfCharOf(v: Sextet)
    ensures ValueOf(CharOf(v)) == Some(v)
  {
  }

  /** Number of `=` characters that end the encoding of `n` bytes. */
  function PadCount(n: nat): nat {
    (3 - n % 3) % 3
  }

  /** The four characters for three bytes: the 24 bits cut into four 6-bit values. */
  function EncodeTriple(b0: byte, b1: byte, b2: byte): (r: string)
    ensures |r| == 4
  {
    [CharOf(b0 / 4), CharOf((b0 % 4) * 16 + b1 / 16), CharOf((b1 % 16) * 4 + b2 / 64), CharOf(b2 % 64)]
  }

  /** `base64.b64encode`: each group of three bytes becomes four characters;
      a final group of one or two bytes is padded with zero bits and `=`. */
  function Encode(s: seq<byte>): (r: string)
    ensures |r| == 4 * ((|s| + 2) / 3)
    decreases |s|
  {
    if |s| == 0 then []
    else if |s| == 1 then [CharOf(s[0] / 4), CharOf((s[0] % 4) * 16), Pad, Pad]
    else if |s| == 2 then [CharOf(s[0] / 4), CharOf((s[0] % 4) * 16 + s[1] / 16), CharOf((s[1] % 16) * 4), Pad]
    else
      assert (|s| + 2) / 3 == (|s[3..]| + 2) / 3 + 1;
      EncodeTriple(s[0], s[1], s[2]) + Encode(s[3..])
  }

  /** Decodes one group of four characters; only the `last` group may carry
      padding, and the pad bits must be zero (section 3.5 of RFC 4648). */
  function DecodeQuad(q: string, last: bool): Option<seq<byte>>
    requires |q| == 4
  {
    var v0, v1, v2, v3 := ValueOf(q[0]), ValueOf(q[1]), ValueOf(q[2]), ValueOf(q[3]);
    if v0.None? || v1.None? then None
    else
      var c0, c1 := v0.value, v1.value;
      if v2.Some? && v3.Some? then
        var c2, c3 := v2.value, v3.value;
        Some([c0 * 4 + c1 / 16, (c1 % 16) * 16 + c2 / 4, (c2 % 4) * 64 + c3])
      else if last && v2.Some? && q[3] == Pad && v2.value % 4 == 0 then
        var c2 := v2.value;
        Some([c0 * 4 + c1 / 16, (c1 % 16) * 16 + c2 / 4])
      else if last && q[2] == Pad && q[3] == Pad && c1 % 16 == 0 then
        Some([c0 * 4 + c1 / 16])
      else None
  }

  /** The inverse of Encode: None for text that Encode cannot produce. */
  function Decode(r: string): Option<seq<byte>>
    decreases |r|
  {
    if |r| == 0 then Some([])
    else if |r| < 4 then None
    else
      match DecodeQuad(r[..4], |r| == 4)
      case None => None
      case Some(b) =>
        if |r| == 4 then Some(b)
        else
          match Decode(r[4..])
          case None => None
          case Some(rest) => Some(b + rest)
  }

  lemma DecodeEncodeTriple(b0: byte, b1: byte, b2: byte)
    ensures DecodeQuad(EncodeTriple(b0, b1, b2), false) == Some([b0, b1, b2])
    ensures DecodeQuad(EncodeTriple(b0, b1, b2), true) == Some([b0, b1, b2])
  {
    var c0, c1, c2, c3 := b0 / 4, (b0 % 4) * 16 + b1 / 16, (b1 % 16) * 4 + b2 / 64, b2 % 64;
    ValueOfCharOf(c0);
    ValueOfCharOf(c1);
    ValueOfCharOf(c2);
    ValueOfCharOf(c3);
    DivMod16(c1, b0 % 4, b1 / 16);
    DivMod4(c2, b1 % 16, b2 / 64);
  }

  /** Two final bytes round-trip through their group with one `=`. */
  lemma DecodeEncodePair(b0: byte, b1: byte)
    ensures Decode(Encode([b0, b1])) == Some([b0, b1])
  {
    var c0, c1, c2 := b0 / 4, (b0 % 4) * 16 + b1 / 16, (b1 % 16) * 4;
    var r := [CharOf(c0), CharOf(c1), CharOf(c2), Pad];
    assert Encode([b0, b1]) == r;
    ValueOfCharOf(c0);
    ValueOfCharOf(c1);
    ValueOfCharOf(c2);
    DivMod16(c1, b0 % 4, b1 / 16);
    DivMod4(c2, b1 % 16, 0);
    assert ValueOf(Pad).None?;
    assert DecodeQuad(r, true) == Some([b0, b1]);
    assert r[..4] == r;
  }

  /** One final byte round-trips through its group with two `=`. */
  lemma DecodeEncodeSingle(b0: byte)
    ensures Decode(Encode([b0])) == Some([b0])
  {
    var c0, c1 := b0 / 4, (b0 % 4) * 16;
    var r := [CharOf(c0), CharOf(c1), Pad, Pad];
    assert Encode([b0]) == r;
    ValueOfCharOf(c0);
    ValueOfCharOf(c1);
    DivMod16(c1, b0 % 4, 0);
    assert ValueOf(Pad).None?;
    assert DecodeQuad(r, true) == Some([b0]);
    assert r[..4] == r;
  }

  /** Decoding an encoding gives back the bytes. */
  lemma {:induction false} DecodeEncode(s: seq<byte>)
    ensures Decode(Encode(s)) == Some(s)
    decreases |s|
  {
    if |s| >= 3 {
      if |s| > 3 {
        DecodeEncode(s[3..]);
      }
      DecodeEncodeGroup(s);
    } else if |s| == 2 {
      assert s == [s[0], s[1]];
      DecodeEncodePair(s[0], s[1]);
    } else if |s| == 1 {
      assert s == [s[0]];
      DecodeEncodeSingle(s[0]);
    }
  }

  /** A leading group of three bytes round-trips in front of the rest. */
  lemma DecodeEncodeGroup(s: seq<byte>)
    requires |s| >= 3
    requires |s| > 3 ==> Decode(Encode(s[3..])) == Some(s[3..])
    ensures Decode(Encode(s)) == Some(s)
  {
    SplitGroup(s);
    var b, t, rest := [s[0], s[1], s[2]], EncodeTriple(s[0], s[1], s[2]), Encode(s[3..]);
    assert Encode(s) == t + rest;
    DecodeEncodeTriple(s[0], s[1], s[2]);
    if |s| > 3 {
      DecodeGroupThenRest(t, rest, b, s[3..]);
      assert Decode(t + rest) == Some(b + s[3..]);
    } else {
      assert t + rest == t;
      assert t[..4] == t;
      assert Decode(t) == Some(b);
      assert b + s[3..] == b;
    }
  }

  lemma SplitGroup(s: seq<byte>)
    requires |s| >= 3
    ensures s == [s[0], s[1], s[2]] + s[3..]
  {
  }

  /** A group that is not the last, followed by decodable text. */
  lemma DecodeGroupThenRest(q: string, rest: string, b: seq<byte>, x: seq<byte>)
    requires |q| == 4 && rest != []
    requires DecodeQuad(q, false) == Some(b) && Decode(rest) == Some(x)
    ensures Decode(q + rest) == Some(b + x)
  {
    var r := q + rest;
    assert r[..4] == q;
    assert r[4..] == rest;
  }

  /** Every character of an encoding is in the alphabet or is `=`. */
  lemma {:induction false} EncodeAlphabet(s: seq<byte>)
    ensures forall k :: 0 <= k < |Encode(s)| ==> IsAlphabetChar(Encode(s)[k]) || Encode(s)[k] == Pad
    decreases |s|
  {
    if |s| >= 3 {
      var r, t, u := Encode(s), EncodeTriple(s[0], s[1], s[2]), Encode(s[3..]);
      EncodeAlphabet(s[3..]);
      forall k | 0 <= k < |r| ensures IsAlphabetChar(r[k]) || r[k] == Pad {
        if k < 4 {
          assert r[k] == t[k];
        } else {
          assert r[k] == u[k - 4];
        }
      }
    }
  }

  /** `=` appears only as the last PadCount(|s|) characters of the encoding. */
  lemma {:induction false} EncodePadding(s: seq<byte>)
    ensures forall k :: 0 <= k < |Encode(s)| ==> (Encode(s)[k] == Pad <==> k >= |Encode(s)| - PadCount(|s|))
    decreases |s|
  {
    if |s| >= 3 {
      var r, t, u := Encode(s), EncodeTriple(s[0], s[1], s[2]), Encode(s[3..]);
      EncodePadding(s[3..]);
      TripleHasNoPad(s[0], s[1], s[2]);
      assert PadCount(|s|) == PadCount(|s| - 3);
      forall k | 0 <= k < |r| ensures r[k] == Pad <==> k >= |r| - PadCount(|s|) {
        if k < 4 {
          assert r[k] == t[k];
        } else {
          assert r[k] == u[k - 4];
        }
      }
    }
  }

  lemma TripleHasNoPad(b0: byte, b1: byte, b2: byte)
    ensures forall k :: 0 <= k < 4 ==> EncodeTriple(b0, b1, b2)[k] != Pad
  {
    var t := EncodeTriple(b0, b1, b2);
    assert IsAlphabetChar(t[0]) && IsAlphabetChar(t[1]) && IsAlphabetChar(t[2]) && IsAlphabetChar(t[3]);
  }

  /** Only what Encode produces decodes: a decoded text is the encoding of
      its bytes, so Encode and Decode are inverse bijections. */
  lemma {:induction false} EncodeDecode(r: string, s: seq<byte>)
    requires Decode(r) == Some(s)
    ensures Encode(s) == r
    decreases |r|
  {
    if |r| > 0 {
      var q := r[..4];
      var b := DecodeQuad(q, |r| == 4).value;
      EncodeDecodeQuad(q, |r| == 4);
      if |r| == 4 {
        assert q == r;
      } else {
        var x := Decode(r[4..]).value;
        EncodeDecode(r[4..], x);
        assert s == b + x;
        assert |b| == 3;
        assert (b + x)[3..] == x;
        assert Encode(s) == EncodeTriple(b[0], b[1], b[2]) + Encode(x);
        assert r == q + r[4..];
      }
    }
  }

  /** Each decodable group is the encoding of the bytes it decodes to. */
  lemma EncodeDecodeQuad(q: string, last: bool)
    requires |q| == 4 && DecodeQuad(q, last).Some?
    ensures var b := DecodeQuad(q, last).value;
      1 <= |b| <= 3 && (!last ==> |b| == 3) &&
      (|b| == 3 ==> EncodeTriple(b[0], b[1], b[2]) == q) &&
      (|b| < 3 ==> Encode(b) == q)
  {
    var b := DecodeQuad(q, last).value;
    var v0, v1, v2, v3 := ValueOf(q[0]), ValueOf(q[1]), ValueOf(q[2]), ValueOf(q[3]);
    var c0: int, c1: int := v0.value, v1.value;
    if v2.Some? && v3.Some? {
      var c2: int, c3: int := v2.value, v3.value;
      TripleArithmetic(c0, c1, c2, c3);
      var b0: byte, b1: byte, b2: byte := c0 * 4 + c1 / 16, (c1 % 16) * 16 + c2 / 4, (c2 % 4) * 64 + c3;
      assert b == [b0, b1, b2];
      TripleOfValues(c0, c1, c2, c3, b0, b1, b2);
      assert q == [q[0], q[1], q[2], q[3]];
    } else if v2.Some? {
      var c2: int := v2.value;
      PairArithmetic(c0, c1, c2);
      var b0: byte, b1: byte := c0 * 4 + c1 / 16, (c1 % 16) * 16 + c2 / 4;
      assert b == [b0, b1];
      PairOfValues(c0, c1, c2, b0, b1);
      assert q == [q[0], q[1], q[2], q[3]];
    } else {
      SingleArithmetic(c0, c1);
      var b0: byte := c0 * 4 + c1 / 16;
      assert b == [b0];
      SingleOfValues(c0, c1, b0);
      assert q == [q[0], q[1], q[2], q[3]];
    }
  }

  /** Three bytes rebuilt from four values encode back to those values. */
  lemma TripleOfValues(c0: Sextet, c1: Sextet, c2: Sextet, c3: Sextet, b0: byte, b1: byte, b2: byte)
    requires b0 / 4 == c0 && (b0 % 4) * 16 + b1 / 16 == c1
    requires (b1 % 16) * 4 + b2 / 64 == c2 && b2 % 64 == c3
    ensures EncodeTriple(b0, b1, b2) == [CharOf(c0), CharOf(c1), CharOf(c2), CharOf(c3)]
  {
  }

  /** Two bytes rebuilt from three values encode back to those values and `=`. */
  lemma PairOfValues(c0: Sextet, c1: Sextet, c2: Sextet, b0: byte, b1: byte)
    requires b0 / 4 == c0 && (b0 % 4) * 16 + b1 / 16 == c1 && (b1 % 16) * 4 == c2
    ensures Encode([b0, b1]) == [CharOf(c0), CharOf(c1), CharOf(c2), Pad]
  {
    var r, q := Encode([b0, b1]), [CharOf(c0), CharOf(c1), CharOf(c2), Pad];
    assert r[0] == q[0] && r[1] == q[1] && r[2] == q[2] && r[3] == q[3];
  }

  /** One byte rebuilt from two values encodes back to those values and `==`. */
  lemma SingleOfValues(c0: Sextet, c1: Sextet, b0: byte)
    requires b0 / 4 == c0 && (b0 % 4) * 16 == c1
    ensures Encode([b0]) == [CharOf(c0), CharOf(c1), Pad, Pad]
  {
    var r, q := Encode([b0]), [CharOf(c0), CharOf(c1), Pad, Pad];
    assert r[0] == q[0] && r[1] == q[1] && r[2] == q[2] && r[3] == q[3];
  }

  /** The decoder's bit arithmetic for a full group inverts the encoder's. */
  lemma TripleArithmetic(c0: Sextet, c1: Sextet, c2: Sextet, c3: Sextet)
    ensures var b0, b1, b2 := c0 * 4 + c1 / 16, (c1 % 16) * 16 + c2 / 4, (c2 % 4) * 64 + c3;
      0 <= b0 < 256 && 0 <= b1 < 256 && 0 <= b2 < 256 &&
      b0 / 4 == c0 && (b0 % 4) * 16 + b1 / 16 == c1 &&
      (b1 % 16) * 4 + b2 / 64 == c2 && b2 % 64 == c3
  {
    var b0: int, b1: int, b2: int := c0 * 4 + c1 / 16, (c1 % 16) * 16 + c2 / 4, (c2 % 4) * 64 + c3;
    DivMod4(b0, c0, c1 / 16);
    DivMod16(c1, c1 / 16, c1 % 16);
    DivMod16(b1, c1 % 16, c2 / 4);
    DivMod4(c2, c2 / 4, c2 % 4);
    DivMod64(b2, c2 % 4, c3);
  }

  lemma PairArithmetic(c0: Sextet, c1: Sextet, c2: Sextet)
    requires c2 % 4 == 0
    ensures var b0, b1 := c0 * 4 + c1 / 16, (c1 % 16) * 16 + c2 / 4;
      0 <= b0 < 256 && 0 <= b1 < 256 &&
      b0 / 4 == c0 && (b0 % 4) * 16 + b1 / 16 == c1 && (b1 % 16) * 4 == c2
  {
    var b0: int, b1: int := c0 * 4 + c1 / 16, (c1 % 16) * 16 + c2 / 4;
    DivMod4(b0, c0, c1 / 16);
    DivMod16(c1, c1 / 16, c1 % 16);
    DivMod16(b1, c1 % 16, c2 / 4);
    DivMod4(c2, c2 / 4, 0);
  }

  lemma SingleArithmetic(c0: Sextet, c1: Sextet)
    requires c1 % 16 == 0
    ensures var b0 := c0 * 4 + c1 / 16;
      0 <= b0 < 256 && b0 / 4 == c0 && (b0 % 4) * 16 == c1
  {
    var b0: int := c0 * 4 + c1 / 16;
    DivMod4(b0, c0, c1 / 16);
    DivMod16(c1, c1 / 16, 0);
  }

  /** Dividing by the group sizes 4, 16 and 64 gives the unique quotient
      and remainder. */
  lemma DivMod4(x: int, q: int, r: int)
    requires 0 <= r < 4 && x == q * 4 + r
    ensures x / 4 == q && x % 4 == r
  {
  }

  lemma DivMod16(x: int, q: int, r: int)
    requires 0 <= r < 16 && x == q * 16 + r
    ensures x / 16 == q && x % 16 == r
  {
  }

  lemma DivMod64(x: int, q: int, r: int)
    requires 0 <= r < 64 && x == q * 64 + r
    ensures x / 64 == q && x % 64 == r
  {
  }
}
