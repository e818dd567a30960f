/** Octets, and Go's conversion of a string to its bytes.

    A Dafny `string` is a sequence of Unicode scalar values, while a Go
    string is the UTF-8 encoding of its text, so `[]byte(s)` is modelled
    here as the UTF-8 encoding of section 3 of RFC 3629.
 */
module Bytes {

  /** One octet. */
  type byte = x: int | 0 <= x < 256

  /** True of a byte that continues a multi-octet UTF-8 sequence (10xxxxxx). */
  predicate IsContinuation(b: byte) {
    0x80 <= b < 0xC0
  }

  /** The UTF-8 encoding of one scalar value: one to four octets whose
      first octet announces the length and whose others are continuations. */
  function EncodeChar(c: char): (r: seq<byte>)
    ensures 1 <= |r| <= 4
    ensures |r| == 1 <==> c as int < 0x80
    ensures |r| == 2 <==> 0x80 <= c as int < 0x800
    ensures |r| == 3 <==> 0x800 <= c as int < 0x1_0000
    ensures |r| == 1 ==> r[0] == c as int
    ensures |r| == 2 ==> 0xC2 <= r[0] < 0xE0
    ensures |r| == 3 ==> 0xE0 <= r[0] < 0xF0
    ensures |r| == 4 ==> 0xF0 <= r[0] < 0xF5
    ensures forall i :: 1 <= i < |r| ==> IsContinuation(r[i])
  {
    var n := c as int;
    if n < 0x80 then [n]
    else if n < 0x800 then [0xC0 + n / 0x40, 0x80 + n % 0x40]
    else if n < 0x1_0000 then [0xE0 + n / 0x1000, 0x80 + (n / 0x40) % 0x40, 0x80 + n % 0x40]
    else [0xF0 + n / 0x4_0000, 0x80 + (n / 0x1000) % 0x40, 0x80 + (n / 0x40) % 0x40, 0x80 + n % 0x40]
  }

  /** The scalar value that a one- to four-octet UTF-8 sequence encodes. */
  function DecodeChar(r: seq<byte>): int
    requires 1 <= |r| <= 4
  {
    if |r| == 1 then r[0] as int
    else if |r| == 2 then (r[0] as int - 0xC0) * 0x40 + (r[1] as int - 0x80)
    else if |r| == 3 then (r[0] as int - 0xE0) * 0x1000 + (r[1] as int - 0x80) * 0x40 + (r[2] as int - 0x80)
    else (r[0] as int - 0xF0) * 0x4_0000 + (r[1] as int - 0x80) * 0x1000 + (r[2] as int - 0x80) * 0x40 + (r[3] as int - 0x80)
  }

  /** Encoding a character loses nothing: its octets decode back to it. */
  lemma DecodeEncodeChar(c: char)
    ensures DecodeChar(EncodeChar(c)) == c as int
  {
    var n := c as int;
    if n < 0x80 {
    } else if n < 0x800 {
      assert EncodeChar(c) == [0xC0 + n / 0x40, 0x80 + n % 0x40];
    } else if n < 0x1_0000 {
      Split3(n);
    } else {
      Split4(n);
    }
  }

  /** A three-octet character decodes back to its code point. */
  lemma Split3(n: int)
    requires 0x800 <= n < 0x1_0000 && (n < 0xD800 || 0xE000 <= n)
    ensures DecodeChar(EncodeChar(n as char)) == n
  {
    var q := n / 0x40;
    assert n == q * 0x40 + n % 0x40;
    assert q == (n / 0x1000) * 0x40 + q % 0x40;
    var r: seq<byte> := [0xE0 + n / 0x1000, 0x80 + q % 0x40, 0x80 + n % 0x40];
    assert EncodeChar(n as char) == r;
    assert DecodeChar(r) == (n / 0x1000) * 0x1000 + (q % 0x40) * 0x40 + n % 0x40;
  }

  /** A four-octet character decodes back to its code point. */
  lemma Split4(n: int)
    requires 0x1_0000 <= n < 0x11_0000
    ensures DecodeChar(EncodeChar(n as char)) == n
  {
    var q := n / 0x40;
    var p := n / 0x1000;
    assert n == q * 0x40 + n % 0x40;
    assert q == p * 0x40 + q % 0x40;
    assert p == (n / 0x4_0000) * 0x40 + p % 0x40;
    var r: seq<byte> := [0xF0 + n / 0x4_0000, 0x80 + p % 0x40, 0x80 + q % 0x40, 0x80 + n % 0x40];
    assert EncodeChar(n as char) == r;
    assert DecodeChar(r) == (n / 0x4_0000) * 0x4_0000 + (p % 0x40) * 0x1000 + (q % 0x40) * 0x40 + n % 0x40;
  }

  /** Go's `[]byte(s)`: the concatenated UTF-8 encodings of the characters of `s`. */
  function FromString(s: string): (r: seq<byte>)
    ensures |s| <= |r| <= 4 * |s|
    ensures |r| == 0 <==> |s| == 0
  {
    if s == [] then [] else EncodeChar(s[0]) + FromString(s[1..])
  }

  /** True when every character of `s` is in the ASCII range. */
  predicate IsAscii(s: string) {
    forall i :: 0 <= i < |s| ==> s[i] as int < 0x80
  }

  /** ASCII text converts octet for octet. */
  lemma {:induction false} FromAsciiString(s: string)
    requires IsAscii(s)
    ensures |FromString(s)| == |s|
    ensures forall i :: 0 <= i < |s| ==> FromString(s)[i] == s[i] as int
  {
    if s != [] {
      assert IsAscii(s[1..]) by {
        forall i | 0 <= i < |s[1..]| ensures s[1..][i] as int < 0x80 {
          assert s[1..][i] == s[i + 1];
        }
      }
      FromAsciiString(s[1..]);
    }
  }

  /** The conversion distributes over concatenation, as it does in Go. */
  lemma {:induction false} FromStringAppend(a: string, b: string)
    ensures FromString(a + b) == FromString(a) + FromString(b)
  {
    if a == [] {
      assert a + b == b;
    } else {
      assert (a + b)[0] == a[0];
      assert (a + b)[1..] == a[1..] + b;
      FromStringAppend(a[1..], b);
    }
  }
}
