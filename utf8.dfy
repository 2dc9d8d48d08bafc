/**
 * UTF-8, the encoding behind Rust's `str::as_bytes`: the bytes the
 * discriminator hash is computed over. Decode is a left inverse of Encode,
 * which makes the encoding injective.
 */
module Utf8 {
  import opened Wrappers

  type byte = b: int | 0 <= b < 0x100

  /** The encoding of one Unicode scalar value, one to four bytes. */
  function EncodeChar(c: char): (r: seq<byte>)
    ensures 1 <= |r| <= 4
    ensures |r| == 1 <==> c as int < 0x80
    ensures |r| == 1 ==> r[0] == c as int
  {
    var v := c as int;
    if v < 0x80 then [v]
    else if v < 0x800 then [0xC0 + v / 0x40, 0x80 + v % 0x40]
    else if v < 0x1_0000 then [0xE0 + v / 0x1000, 0x80 + (v / 0x40) % 0x40, 0x80 + v % 0x40]
    else [0xF0 + v / 0x4_0000, 0x80 + (v / 0x1000) % 0x40, 0x80 + (v / 0x40) % 0x40, 0x80 + v % 0x40]
  }

  function Encode(s: string): seq<byte>
  {
    if s == [] then [] else EncodeChar(s[0]) + Encode(s[1..])
  }

  /** The length of the sequence a lead byte announces. */
  function SequenceLength(lead: byte): nat
  {
    if lead < 0x80 then 1 else if lead < 0xE0 then 2 else if lead < 0xF0 then 3 else 4
  }

  /** The scalar value a complete sequence carries (continuation bytes are not validated). */
  function SequenceValue(b: seq<byte>): int
    requires 1 <= |b| <= 4
  {
    var b0, b1, b2, b3 := b[0] as int, if |b| > 1 then b[1] as int else 0,
      if |b| > 2 then b[2] as int else 0, if |b| > 3 then b[3] as int else 0;
    if |b| == 1 then b0
    else if |b| == 2 then (b0 - 0xC0) * 0x40 + (b1 - 0x80)
    else if |b| == 3 then (b0 - 0xE0) * 0x1000 + (b1 - 0x80) * 0x40 + (b2 - 0x80)
    else (b0 - 0xF0) * 0x4_0000 + (b1 - 0x80) * 0x1000 + (b2 - 0x80) * 0x40 + (b3 - 0x80)
  }

  predicate IsScalarValue(v: int)
  {
    0 <= v < 0xD800 || 0xE000 <= v < 0x11_0000
  }

  function Decode(b: seq<byte>): Option<string>
    decreases |b|
  {
    if b == [] then Some([])
    else
      var n := SequenceLength(b[0]);
      if |b| < n then None
      else
        var v := SequenceValue(b[..n]);
        if !IsScalarValue(v) then None
        else
          match Decode(b[n..])
          case None => None
          case Some(rest) => Some([v as char] + rest)
  }

  lemma TwoByteValue(v: int)
    requires 0x80 <= v < 0x800
    ensures var e: seq<byte> := [0xC0 + v / 0x40, 0x80 + v % 0x40];
      SequenceLength(e[0]) == 2 && SequenceValue(e) == v
  {
    var q, r := v / 0x40, v % 0x40;
    assert v == q * 0x40 + r;
  }

  lemma ThreeByteValue(v: int)
    requires 0x800 <= v < 0x1_0000
    ensures var e: seq<byte> := [0xE0 + v / 0x1000, 0x80 + (v / 0x40) % 0x40, 0x80 + v % 0x40];
      SequenceLength(e[0]) == 3 && SequenceValue(e) == v
  {
    var q, r := v / 0x40, v % 0x40;
    var q2, r2 := q / 0x40, q % 0x40;
    assert v == q * 0x40 + r;
    assert q == q2 * 0x40 + r2;
    assert q2 == v / 0x1000;
  }

  lemma FourByteValue(v: int)
    requires 0x1_0000 <= v < 0x11_0000
    ensures var e: seq<byte> := [0xF0 + v / 0x4_0000, 0x80 + (v / 0x1000) % 0x40,
        0x80 + (v / 0x40) % 0x40, 0x80 + v % 0x40];
      SequenceLength(e[0]) == 4 && SequenceValue(e) == v
  {
    var q, r := v / 0x40, v % 0x40;
    var q2, r2 := q / 0x40, q % 0x40;
    var q3, r3 := q2 / 0x40, q2 % 0x40;
    assert v == q * 0x40 + r;
    assert q == q2 * 0x40 + r2;
    assert q2 == q3 * 0x40 + r3;
    assert q2 == v / 0x1000;
    assert q3 == v / 0x4_0000;
  }

  /** One encoded character is read back whatever follows it. */
  lemma DecodeEncodeChar(c: char, rest: seq<byte>)
    ensures var e := EncodeChar(c);
      SequenceLength(e[0]) == |e| && SequenceValue(e) == c as int
      && (e + rest)[..|e|] == e && (e + rest)[|e|..] == rest
  {
    var v := c as int;
    if v < 0x80 {
    } else if v < 0x800 {
      TwoByteValue(v);
    } else if v < 0x1_0000 {
      ThreeByteValue(v);
    } else {
      FourByteValue(v);
    }
  }

  /** Decoding undoes encoding. */
  lemma {:induction false} DecodeEncode(s: string)
    ensures Decode(Encode(s)) == Some(s)
  {
    if s != [] {
      var e := EncodeChar(s[0]);
      DecodeEncodeChar(s[0], Encode(s[1..]));
      DecodeEncode(s[1..]);
      assert Encode(s) == e + Encode(s[1..]);
      assert [s[0]] + s[1..] == s;
    }
  }

  /** Distinct strings have distinct encodings. */
  lemma EncodeInjective(s: string, t: string)
    requires Encode(s) == Encode(t)
    ensures s == t
  {
    DecodeEncode(s);
    DecodeEncode(t);
  }

  /** Encoding is a homomorphism from concatenation of strings to that of bytes. */
  lemma {:induction false} EncodeAppend(s: string, t: string)
    ensures Encode(s + t) == Encode(s) + Encode(t)
  {
    if s != [] {
      assert (s + t)[0] == s[0];
      assert (s + t)[1..] == s[1..] + t;
      EncodeAppend(s[1..], t);
    } else {
      assert s + t == t;
    }
  }

  /** An ASCII string encodes to its character codes, one byte each. */
  lemma {:induction false} EncodeAscii(s: string)
    requires forall i :: 0 <= i < |s| ==> s[i] as int < 0x80
    ensures |Encode(s)| == |s|
    ensures forall i :: 0 <= i < |s| ==> Encode(s)[i] == s[i] as int
  {
    if s != [] {
      EncodeAscii(s[1..]);
    }
  }
}
