/** UTF-8 encoding of strings (RFC 3629, section 3), the conversion the
    controller applies to every header line of the upload body with
    `.data(using: .utf8)`. */
module Utf8 {

  newtype uint8 = x: int | 0 <= x < 256

  /** True when the byte is part of a multi-byte UTF-8 sequence */
  predicate IsHighByte(b: uint8) {
    b >= 0x80
  }

  /** The UTF-8 byte sequence of one Unicode scalar value: one byte below
      0x80, otherwise a lead byte and one to three continuation bytes of six
      bits each. */
  function EncodeChar(c: char): seq<uint8> {
    var n := c as int;
    if n < 0x80 then
      [n as uint8]
    else if n < 0x800 then
      [(0xC0 + n / 64) as uint8, (0x80 + n % 64) as uint8]
    else if n < 0x10000 then
      [(0xE0 + n / 4096) as uint8, (0x80 + (n / 64) % 64) as uint8, (0x80 + n % 64) as uint8]
    else
      [(0xF0 + n / 262144) as uint8, (0x80 + (n / 4096) % 64) as uint8,
       (0x80 + (n / 64) % 64) as uint8, (0x80 + n % 64) as uint8]
  }

  /** Reads back the scalar value of one complete UTF-8 sequence of one to
      four bytes; the partner of EncodeChar. */
  function DecodeScalar(b: seq<uint8>): int {
    if |b| == 1 then b[0] as int
    else if |b| == 2 then (b[0] as int - 0xC0) * 64 + (b[1] as int - 0x80)
    else if |b| == 3 then
      (b[0] as int - 0xE0) * 4096 + (b[1] as int - 0x80) * 64 + (b[2] as int - 0x80)
    else if |b| == 4 then
      (b[0] as int - 0xF0) * 262144 + (b[1] as int - 0x80) * 4096
        + (b[2] as int - 0x80) * 64 + (b[3] as int - 0x80)
    else -1
  }

  /** Every character is read back from its bytes; an ASCII character is
      its own single byte and the bytes of any other character are all high. */
  lemma EncodeCharDecodes(c: char)
    ensures 1 <= |EncodeChar(c)| <= 4
    ensures DecodeScalar(EncodeChar(c)) == c as int
    ensures (c as int) < 0x80 ==> EncodeChar(c) == [c as int as uint8]
    ensures (c as int) >= 0x80 ==> forall i :: 0 <= i < |EncodeChar(c)| ==> IsHighByte(EncodeChar(c)[i])
  {
    var n := c as int;
    if 0x800 <= n < 0x10000 {
      var a, q1 := n % 64, n / 64;
      var b, q2 := q1 % 64, q1 / 64;
      Div64Twice(n);
      assert n == (q2 * 64 + b) * 64 + a;
    } else if n >= 0x10000 {
      var a, q1 := n % 64, n / 64;
      var b, q2 := q1 % 64, q1 / 64;
      var d, q3 := q2 % 64, q2 / 64;
      Div64Twice(n);
      Div64Twice(q1);
      Div4096Then64(n);
      assert n == ((q3 * 64 + d) * 64 + b) * 64 + a;
    }
  }

  /** Dividing by 64 twice is dividing by 4096. */
  lemma Div64Twice(n: nat)
    ensures n / 4096 == (n / 64) / 64
  {
    var q, r := n / 64, n % 64;
    var q2, r2 := q / 64, q % 64;
    assert n == q2 * 4096 + (r2 * 64 + r);
  }

  /** Dividing by 4096 and then by 64 is dividing by 262144. */
  lemma Div4096Then64(n: nat)
    ensures n / 262144 == (n / 4096) / 64
  {
    var q, r := n / 4096, n % 4096;
    var q2, r2 := q / 64, q % 64;
    assert n == q2 * 262144 + (r2 * 4096 + r);
  }

  /** The UTF-8 bytes of a string: the concatenation of the bytes of its characters. */
  function Encode(s: string): seq<uint8> {
    EncodeFrom(s, 0)
  }

  /** The bytes of the characters of s from index i on. */
  function EncodeFrom(s: string, i: nat): seq<uint8>
    decreases |s| - i
  {
    if i >= |s| then [] else EncodeChar(s[i]) + EncodeFrom(s, i + 1)
  }

  /** Encoding from an index is encoding the suffix at that index. */
  lemma {:induction false} EncodeFromSuffix(s: string, i: nat)
    requires i <= |s|
    ensures EncodeFrom(s, i) == Encode(s[i..])
    decreases |s| - i
  {
    if i < |s| {
      EncodeFromSuffix(s, i + 1);
      EncodeFromSuffix(s[i..], 1);
      assert s[i..][1..] == s[i + 1..];
    }
  }

  /** A non-empty string encodes as its first character followed by the rest. */
  lemma EncodeCons(s: string)
    requires |s| > 0
    ensures Encode(s) == EncodeChar(s[0]) + Encode(s[1..])
  {
    EncodeFromSuffix(s, 1);
  }

  /** Encoding commutes with concatenation. */
  lemma {:induction false} EncodeAppend(a: string, b: string)
    ensures Encode(a + b) == Encode(a) + Encode(b)
  {
    if |a| == 0 {
      assert a + b == b;
    } else {
      assert (a + b)[1..] == a[1..] + b;
      EncodeAppend(a[1..], b);
      EncodeCons(a);
      EncodeCons(a + b);
    }
  }

  /** A string of ASCII characters encodes to the character codes themselves. */
  lemma {:induction false} EncodeAscii(s: string)
    requires forall i :: 0 <= i < |s| ==> (s[i] as int) < 0x80
    ensures |Encode(s)| == |s|
    ensures forall i :: 0 <= i < |s| ==> Encode(s)[i] as int == s[i] as int
  {
    if |s| > 0 {
      EncodeAscii(s[1..]);
      EncodeCharDecodes(s[0]);
      EncodeCons(s);
      assert Encode(s) == [s[0] as int as uint8] + Encode(s[1..]);
    }
  }

  /** An ASCII byte occurs in the encoding exactly when its character occurs
      in the string: multi-byte sequences consist of high bytes only. */
  lemma {:induction false} EncodeContainsAscii(s: string, c: char)
    requires (c as int) < 0x80
    ensures (c as int as uint8) in Encode(s) <==> c in s
  {
    if |s| > 0 {
      EncodeContainsAscii(s[1..], c);
      var e := EncodeChar(s[0]);
      EncodeCharDecodes(s[0]);
      EncodeCons(s);
      assert s == [s[0]] + s[1..];
      if |e| == 1 {
        assert (c as int as uint8 in e) <==> c == s[0];
      } else {
        assert c as int as uint8 !in e by {
          forall i | 0 <= i < |e| ensures e[i] != c as int as uint8 {
            assert IsHighByte(e[i]);
          }
        }
      }
    }
  }
}
