/** The padded base 64 encoding of section 4 of RFC 4648, which Go's
    `base64.StdEncoding.EncodeToString` produces, and a strict decoder
    that undoes it.
 */
module Base64 {
  import opened Bytes

  datatype Option<T> = None | Some(value: T)

  /** The padding character. */
  const Pad: char := '='

  /** True of the 64 characters of the alphabet (table 1 of RFC 4648). */
  predicate IsSymbol(c: char) {
    ('A' <= c <= 'Z') || ('a' <= c <= 'z') || ('0' <= c <= '9') || c == '+' || c == '/'
  }

  /** The value, 0 to 63, that an alphabet character stands for. */
  function Value(c: char): (v: nat)
    requires IsSymbol(c)
    ensures v < 64
  {
    if 'A' <= c <= 'Z' then c as int - 'A' as int
    else if 'a' <= c <= 'z' then c as int - 'a' as int + 26
    else if '0' <= c <= '9' then c as int - '0' as int + 52
    else if c == '+' then 62
    else 63
  }

  /** The alphabet character for a 6-bit value. */
  function Symbol(v: nat): (c: char)
    requires v < 64
    ensures IsSymbol(c) && c != Pad && Value(c) == v
  {
    if v < 26 then ('A' as int + v) as char
    else if v < 52 then ('a' as int + v - 26) as char
    else if v < 62 then ('0' as int + v - 52) as char
    else if v == 62 then '+'
    else '/'
  }

  /** Three octets become four characters, six bits each. */
  function EncodeTriple(b0: byte, b1: byte, b2: byte): string {
    [Symbol(b0 / 4), Symbol((b0 % 4) * 16 + b1 / 16), Symbol((b1 % 16) * 4 + b2 / 64), Symbol(b2 % 64)]
  }

  /** A final group of two octets: three characters, the last with two zero bits, and one pad. */
  function EncodePair(b0: byte, b1: byte): string {
    [Symbol(b0 / 4), Symbol((b0 % 4) * 16 + b1 / 16), Symbol((b1 % 16) * 4), Pad]
  }

  /** A final group of one octet: two characters, the last with four zero bits, and two pads. */
  function EncodeSingle(b0: byte): string {
    [Symbol(b0 / 4), Symbol((b0 % 4) * 16), Pad, Pad]
  }

  /** True of the output alphabet, alphabet characters and the pad. */
  predicate IsEncodingChar(c: char) {
    IsSymbol(c) || c == Pad
  }

  /** `EncodeToString`: whole groups of three octets first, then the padded remainder. */
  function Encode(b: seq<byte>): (r: string)
    ensures |r| == 4 * ((|b| + 2) / 3)
    ensures forall i :: 0 <= i < |r| ==> IsEncodingChar(r[i])
    ensures r == [] <==> b == []
  {
    if |b| == 0 then []
    else if |b| == 1 then EncodeSingle(b[0])
    else if |b| == 2 then EncodePair(b[0], b[1])
    else EncodeTriple(b[0], b[1], b[2]) + Encode(b[3..])
  }

  /** Decodes one four-character group; `None` for a character outside the
      alphabet, a misplaced pad, or nonzero bits under the padding. */
  function DecodeQuad(q: string): Option<seq<byte>>
    requires |q| == 4
  {
    if !(IsSymbol(q[0]) && IsSymbol(q[1])) then None
    else
      var v0, v1 := Value(q[0]), Value(q[1]);
      if q[2] == Pad && q[3] == Pad then
        if v1 % 16 == 0 then Some([v0 * 4 + v1 / 16]) else None
      else if IsSymbol(q[2]) && q[3] == Pad then
        var v2 := Value(q[2]);
        if v2 % 4 == 0 then Some([v0 * 4 + v1 / 16, (v1 % 16) * 16 + v2 / 4]) else None
      else if IsSymbol(q[2]) && IsSymbol(q[3]) then
        var v2, v3 := Value(q[2]), Value(q[3]);
        Some([v0 * 4 + v1 / 16, (v1 % 16) * 16 + v2 / 4, (v2 % 4) * 64 + v3])
      else None
  }

  /** Decodes a padded encoding; padding may end only the last group. */
  function Decode(s: string): Option<seq<byte>>
    decreases |s|
  {
    if s == [] then Some([])
    else if |s| < 4 then None
    else match DecodeQuad(s[..4])
      case None => None
      case Some(head) =>
        if |head| < 3 && |s| > 4 then None
        else match Decode(s[4..])
          case None => None
          case Some(tail) => Some(head + tail)
  }

  /** Splitting `k * d + y` with `0 <= y < d` by `d` gives back `k` and `y`. */
  lemma DivModOf(k: nat, y: nat, d: nat)
    requires d == 4 || d == 16
    requires 0 <= y < d
    ensures (k * d + y) / d == k && (k * d + y) % d == y
  {
    if d == 4 {
      assert (k * 4 + y) / 4 == k;
    } else {
      assert (k * 16 + y) / 16 == k;
    }
  }

  /** The six-bit pieces of three octets reassemble to them. */
  lemma Reassemble3(b0: byte, b1: byte, b2: byte)
    ensures var v1, v2 := (b0 % 4) * 16 + b1 / 16, (b1 % 16) * 4 + b2 / 64;
      && (b0 / 4) * 4 + v1 / 16 == b0
      && (v1 % 16) * 16 + v2 / 4 == b1
      && (v2 % 4) * 64 + b2 % 64 == b2
  {
    DivModOf(b0 % 4, b1 / 16, 16);
    DivModOf(b1 % 16, b2 / 64, 4);
  }

  /** A group of four alphabet characters carries three octets. */
  lemma DecodeFull(q: string)
    requires |q| == 4 && IsSymbol(q[0]) && IsSymbol(q[1]) && IsSymbol(q[2]) && IsSymbol(q[3])
    ensures var v0, v1, v2, v3 := Value(q[0]), Value(q[1]), Value(q[2]), Value(q[3]);
      DecodeQuad(q) == Some([v0 * 4 + v1 / 16, (v1 % 16) * 16 + v2 / 4, (v2 % 4) * 64 + v3])
  {
    assert q[2] != Pad && q[3] != Pad;
  }

  /** A group of three alphabet characters and a pad carries two octets. */
  lemma DecodeOnePad(q: string)
    requires |q| == 4 && IsSymbol(q[0]) && IsSymbol(q[1]) && IsSymbol(q[2]) && q[3] == Pad
    requires Value(q[2]) % 4 == 0
    ensures var v0, v1, v2 := Value(q[0]), Value(q[1]), Value(q[2]);
      DecodeQuad(q) == Some([v0 * 4 + v1 / 16, (v1 % 16) * 16 + v2 / 4])
  {
    assert q[2] != Pad;
  }

  /** A group of two alphabet characters and two pads carries one octet. */
  lemma DecodeTwoPads(q: string)
    requires |q| == 4 && IsSymbol(q[0]) && IsSymbol(q[1]) && q[2] == Pad && q[3] == Pad
    requires Value(q[1]) % 16 == 0
    ensures DecodeQuad(q) == Some([Value(q[0]) * 4 + Value(q[1]) / 16])
  {
  }

  /** A full group of three octets decodes back to them. */
  lemma DecodeTriple(b0: byte, b1: byte, b2: byte)
    ensures DecodeQuad(EncodeTriple(b0, b1, b2)) == Some([b0, b1, b2])
  {
    var v0, v1, v2, v3 := b0 / 4, (b0 % 4) * 16 + b1 / 16, (b1 % 16) * 4 + b2 / 64, b2 % 64;
    var q := EncodeTriple(b0, b1, b2);
    assert q == [Symbol(v0), Symbol(v1), Symbol(v2), Symbol(v3)];
    assert IsSymbol(q[0]) && IsSymbol(q[1]) && IsSymbol(q[2]) && IsSymbol(q[3]);
    assert Value(q[0]) == v0 && Value(q[1]) == v1 && Value(q[2]) == v2 && Value(q[3]) == v3;
    DecodeFull(q);
    Reassemble3(b0, b1, b2);
  }

  /** A final group of two octets decodes back to them. */
  lemma DecodePair(b0: byte, b1: byte)
    ensures DecodeQuad(EncodePair(b0, b1)) == Some([b0, b1])
  {
    var v0, v1, v2 := b0 / 4, (b0 % 4) * 16 + b1 / 16, (b1 % 16) * 4;
    var q := EncodePair(b0, b1);
    assert q == [Symbol(v0), Symbol(v1), Symbol(v2), Pad];
    assert IsSymbol(q[0]) && IsSymbol(q[1]) && IsSymbol(q[2]);
    assert Value(q[0]) == v0 && Value(q[1]) == v1 && Value(q[2]) == v2;
    assert v2 % 4 == 0 && v2 / 4 == b1 % 16 by {
      DivModOf(b1 % 16, 0, 4);
    }
    DecodeOnePad(q);
    Reassemble3(b0, b1, 0);
  }

  /** A final group of one octet decodes back to it. */
  lemma DecodeSingle(b0: byte)
    ensures DecodeQuad(EncodeSingle(b0)) == Some([b0])
  {
    var v0, v1 := b0 / 4, (b0 % 4) * 16;
    var q := EncodeSingle(b0);
    assert q == [Symbol(v0), Symbol(v1), Pad, Pad];
    assert IsSymbol(q[0]) && IsSymbol(q[1]);
    assert Value(q[0]) == v0 && Value(q[1]) == v1;
    assert v1 % 16 == 0 && v1 / 16 == b0 % 4 by {
      DivModOf(b0 % 4, 0, 16);
    }
    DecodeTwoPads(q);
  }

  /** A lone group decodes to what the group decodes to. */
  lemma DecodeLast(q: string)
    requires |q| == 4 && DecodeQuad(q).Some?
    ensures Decode(q) == DecodeQuad(q)
  {
    assert q[..4] == q && q[4..] == [];
    assert DecodeQuad(q).value + [] == DecodeQuad(q).value;
  }

  /** A full group in front decodes independently of what follows it. */
  lemma DecodeFront(q: string, rest: string, tail: seq<byte>)
    requires |q| == 4 && DecodeQuad(q).Some? && |DecodeQuad(q).value| == 3
    requires Decode(rest) == Some(tail)
    ensures Decode(q + rest) == Some(DecodeQuad(q).value + tail)
  {
    var s := q + rest;
    assert s[..4] == q && s[4..] == rest;
  }

  /** One octet survives the round trip. */
  lemma DecodeEncodeOne(b0: byte)
    ensures Decode(Encode([b0])) == Some([b0])
  {
    var q := EncodeSingle(b0);
    assert Encode([b0]) == q;
    DecodeSingle(b0);
    DecodeLast(q);
  }

  /** Two octets survive the round trip. */
  lemma DecodeEncodeTwo(b0: byte, b1: byte)
    ensures Decode(Encode([b0, b1])) == Some([b0, b1])
  {
    var q := EncodePair(b0, b1);
    assert Encode([b0, b1]) == q;
    DecodePair(b0, b1);
    DecodeLast(q);
  }

  /** A final group of one or two octets decodes back to them. */
  lemma DecodeEncodeShort(b: seq<byte>)
    requires 1 <= |b| <= 2
    ensures Decode(Encode(b)) == Some(b)
  {
    if |b| == 1 {
      assert b == [b[0]];
      DecodeEncodeOne(b[0]);
    } else {
      assert b == [b[0], b[1]];
      DecodeEncodeTwo(b[0], b[1]);
    }
  }

  /** The encoding of three or more octets is that of the first group, then the rest's. */
  lemma EncodeFront(b: seq<byte>)
    requires |b| >= 3
    ensures Encode(b) == EncodeTriple(b[0], b[1], b[2]) + Encode(b[3..])
  {
  }

  /** Encoding loses nothing: the decoder recovers every octet sequence. */
  lemma {:induction false} DecodeEncode(b: seq<byte>)
    ensures Decode(Encode(b)) == Some(b)
  {
    if 1 <= |b| <= 2 {
      DecodeEncodeShort(b);
    } else if |b| >= 3 {
      var head, rest := [b[0], b[1], b[2]], b[3..];
      var q := EncodeTriple(b[0], b[1], b[2]);
      assert Encode(b) == q + Encode(rest) by {
        EncodeFront(b);
      }
      assert Decode(q + Encode(rest)) == Some(head + rest) by {
        DecodeEncode(rest);
        DecodeTriple(b[0], b[1], b[2]);
        DecodeFront(q, Encode(rest), rest);
      }
      assert head + rest == b;
    }
  }

  /** Distinct octet sequences never share an encoding. */
  lemma EncodeInjective(a: seq<byte>, b: seq<byte>)
    requires Encode(a) == Encode(b)
    ensures a == b
  {
    DecodeEncode(a);
    DecodeEncode(b);
  }
}
