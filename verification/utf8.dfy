/** Strict UTF-8, as `bytes.decode()` applies it: the well-formed byte
    sequences of table 3-7 in chapter 3 of the Unicode Standard. Overlong forms,
    surrogates and code points above U+10FFFF are rejected, and so is a
    multi-byte sequence cut short by the end of the input. */
module Utf8 {
  import opened Options

  type Byte = b: int | 0 <= b < 256

  predicate IsCont(b: Byte) {
    0x80 <= b <= 0xBF
  }

  /** Length of the well-formed sequence that starts `bs`, or 0 when `bs` does not
      start with one. */
  function SeqLen(bs: seq<Byte>): (n: nat)
    ensures n <= |bs| && n <= 4
  {
    if |bs| == 0 then 0
    else
      var b0 := bs[0];
      if b0 <= 0x7F then 1
      else if 0xC2 <= b0 <= 0xDF then
        if |bs| >= 2 && IsCont(bs[1]) then 2 else 0
      else if 0xE0 <= b0 <= 0xEF then
        var lo := if b0 == 0xE0 then 0xA0 else 0x80;
        var hi := if b0 == 0xED then 0x9F else 0xBF;
        if |bs| >= 3 && lo <= bs[1] <= hi && IsCont(bs[2]) then 3 else 0
      else if 0xF0 <= b0 <= 0xF4 then
        var lo := if b0 == 0xF0 then 0x90 else 0x80;
        var hi := if b0 == 0xF4 then 0x8F else 0xBF;
        if |bs| >= 4 && lo <= bs[1] <= hi && IsCont(bs[2]) && IsCont(bs[3]) then 4 else 0
      else 0
  }

  predicate IsScalar(cp: int) {
    (0 <= cp < 0xD800) || (0xE000 <= cp < 0x11_0000)
  }

  /** The code point of the well-formed sequence that starts `bs`. */
  function FirstScalar(bs: seq<Byte>): (cp: int)
    requires SeqLen(bs) > 0
    ensures IsScalar(cp)
  {
    var n := SeqLen(bs);
    var b0: int := bs[0];
    if n == 1 then b0
    else
      var b1: int := bs[1];
      if n == 2 then (b0 - 0xC0) * 64 + (b1 - 0x80)
      else
        var b2: int := bs[2];
        if n == 3 then (b0 - 0xE0) * 4096 + (b1 - 0x80) * 64 + (b2 - 0x80)
        else
          var b3: int := bs[3];
          (b0 - 0xF0) * 262144 + (b1 - 0x80) * 4096 + (b2 - 0x80) * 64 + (b3 - 0x80)
  }

  /** `bs.decode()`: `None` where Python raises `UnicodeDecodeError`. Every
      decoded character takes one to four bytes. */
  function Decode(bs: seq<Byte>): (r: Option<string>)
    ensures r.Some? ==> |r.value| <= |bs| <= 4 * |r.value|
    decreases |bs|
  {
    if |bs| == 0 then Some("")
    else
      var n := SeqLen(bs);
      if n == 0 then None
      else
        match Decode(bs[n..])
        case None => None
        case Some(rest) => Some([FirstScalar(bs) as char] + rest)
  }

  /** The UTF-8 encoding of one character. */
  function EncodeChar(c: char): (bs: seq<Byte>)
    ensures 1 <= |bs| <= 4
  {
    var cp := c as int;
    if cp < 0x80 then [cp]
    else if cp < 0x800 then [0xC0 + cp / 64, 0x80 + cp % 64]
    else if cp < 0x1_0000 then [0xE0 + cp / 4096, 0x80 + (cp / 64) % 64, 0x80 + cp % 64]
    else [0xF0 + cp / 262144, 0x80 + (cp / 4096) % 64, 0x80 + (cp / 64) % 64, 0x80 + cp % 64]
  }

  function Encode(s: string): seq<Byte>
  {
    if |s| == 0 then [] else EncodeChar(s[0]) + Encode(s[1..])
  }

  lemma EncodeCharDecodes(c: char, rest: seq<Byte>)
    ensures SeqLen(EncodeChar(c) + rest) == |EncodeChar(c)|
    ensures FirstScalar(EncodeChar(c) + rest) == c as int
  {
    var cp := c as int;
    if cp < 0x80 {
    } else if cp < 0x800 {
      EncodeTwoDecodes(cp, EncodeChar(c) + rest);
    } else if cp < 0x1_0000 {
      EncodeThreeDecodes(cp, EncodeChar(c) + rest);
    } else {
      EncodeFourDecodes(cp, EncodeChar(c) + rest);
    }
  }

  lemma EncodeTwoDecodes(cp: int, bs: seq<Byte>)
    requires 0x80 <= cp < 0x800
    requires |bs| >= 2 && bs[0] == 0xC0 + cp / 64 && bs[1] == 0x80 + cp % 64
    ensures SeqLen(bs) == 2 && FirstScalar(bs) == cp
  {
    assert cp == (cp / 64) * 64 + cp % 64;
  }

  lemma EncodeThreeDecodes(cp: int, bs: seq<Byte>)
    requires IsScalar(cp) && 0x800 <= cp < 0x1_0000
    requires |bs| >= 3 && bs[0] == 0xE0 + cp / 4096 && bs[1] == 0x80 + (cp / 64) % 64
    requires bs[2] == 0x80 + cp % 64
    ensures SeqLen(bs) == 3 && FirstScalar(bs) == cp
  {
    var q := cp / 64;
    assert cp == q * 64 + cp % 64;
    assert q == (q / 64) * 64 + q % 64;
    assert cp / 4096 == q / 64;
  }

  lemma EncodeFourDecodes(cp: int, bs: seq<Byte>)
    requires 0x1_0000 <= cp < 0x11_0000
    requires |bs| >= 4 && bs[0] == 0xF0 + cp / 262144 && bs[1] == 0x80 + (cp / 4096) % 64
    requires bs[2] == 0x80 + (cp / 64) % 64 && bs[3] == 0x80 + cp % 64
    ensures SeqLen(bs) == 4 && FirstScalar(bs) == cp
  {
    var q := cp / 64;
    var q2 := q / 64;
    assert cp == q * 64 + cp % 64;
    assert q == q2 * 64 + q % 64;
    assert q2 == (q2 / 64) * 64 + q2 % 64;
    assert cp / 4096 == q2;
    assert cp / 262144 == q2 / 64;
  }

  /** Decoding undoes encoding: every string survives a UTF-8 round trip. */
  lemma {:induction false} DecodeEncode(s: string)
    ensures Decode(Encode(s)) == Some(s)
  {
    if |s| > 0 {
      var e := EncodeChar(s[0]);
      var bs := Encode(s);
      assert bs == e + Encode(s[1..]);
      EncodeCharDecodes(s[0], Encode(s[1..]));
      assert bs[|e|..] == Encode(s[1..]);
      DecodeEncode(s[1..]);
      assert [s[0]] + s[1..] == s;
    }
  }

  lemma FirstScalarEncodes(bs: seq<Byte>)
    requires SeqLen(bs) > 0
    ensures EncodeChar(FirstScalar(bs) as char) == bs[..SeqLen(bs)]
  {
    var n := SeqLen(bs);
    if n == 2 {
      TwoEncodes(bs[0], bs[1], FirstScalar(bs));
    } else if n == 3 {
      ThreeEncodes(bs[0], bs[1], bs[2], FirstScalar(bs));
    } else if n == 4 {
      FourEncodes(bs[0], bs[1], bs[2], bs[3], FirstScalar(bs));
    }
  }

  lemma TwoEncodes(b0: int, b1: int, cp: int)
    requires 0xC2 <= b0 <= 0xDF && 0x80 <= b1 <= 0xBF
    requires cp == (b0 - 0xC0) * 64 + (b1 - 0x80)
    ensures 0x80 <= cp < 0x800
    ensures cp / 64 == b0 - 0xC0 && cp % 64 == b1 - 0x80
  {
  }

  lemma ThreeEncodes(b0: int, b1: int, b2: int, cp: int)
    requires 0xE0 <= b0 <= 0xEF && 0x80 <= b1 <= 0xBF && 0x80 <= b2 <= 0xBF
    requires b0 == 0xE0 ==> b1 >= 0xA0
    requires cp == (b0 - 0xE0) * 4096 + (b1 - 0x80) * 64 + (b2 - 0x80)
    ensures 0x800 <= cp < 0x1_0000
    ensures cp / 4096 == b0 - 0xE0 && (cp / 64) % 64 == b1 - 0x80 && cp % 64 == b2 - 0x80
  {
    var q := (b0 - 0xE0) * 64 + (b1 - 0x80);
    assert cp == q * 64 + (b2 - 0x80);
    assert cp / 64 == q && cp % 64 == b2 - 0x80;
    assert q / 64 == b0 - 0xE0 && q % 64 == b1 - 0x80;
    assert cp / 4096 == q / 64;
  }

  lemma FourEncodes(b0: int, b1: int, b2: int, b3: int, cp: int)
    requires 0xF0 <= b0 <= 0xF4 && 0x80 <= b1 <= 0xBF && 0x80 <= b2 <= 0xBF && 0x80 <= b3 <= 0xBF
    requires b0 == 0xF0 ==> b1 >= 0x90
    requires cp == (b0 - 0xF0) * 262144 + (b1 - 0x80) * 4096 + (b2 - 0x80) * 64 + (b3 - 0x80)
    ensures 0x1_0000 <= cp
    ensures cp / 262144 == b0 - 0xF0 && (cp / 4096) % 64 == b1 - 0x80
    ensures (cp / 64) % 64 == b2 - 0x80 && cp % 64 == b3 - 0x80
  {
    var q2 := (b0 - 0xF0) * 64 + (b1 - 0x80);
    var q := q2 * 64 + (b2 - 0x80);
    assert cp == q * 64 + (b3 - 0x80);
    assert cp / 64 == q && cp % 64 == b3 - 0x80;
    assert q / 64 == q2 && q % 64 == b2 - 0x80;
    assert q2 / 64 == b0 - 0xF0 && q2 % 64 == b1 - 0x80;
    assert cp / 4096 == q2;
    assert cp / 262144 == q2 / 64;
  }

  /** Encoding undoes a successful decoding: decoding drops no byte and is
      injective, so the decoded text determines the bytes it came from. */
  lemma {:induction false} EncodeDecode(bs: seq<Byte>)
    requires Decode(bs).Some?
    ensures Encode(Decode(bs).value) == bs
    decreases |bs|
  {
    if |bs| > 0 {
      var n := SeqLen(bs);
      var tail := bs[n..];
      EncodeDecode(tail);
      ConsEncodes(bs, Decode(tail).value);
    }
  }

  /** The first character decoded, re-encoded, is the first well-formed sequence. */
  lemma ConsEncodes(bs: seq<Byte>, rest: string)
    requires SeqLen(bs) > 0
    ensures Encode([FirstScalar(bs) as char] + rest) == bs[..SeqLen(bs)] + Encode(rest)
    ensures Encode(rest) == bs[SeqLen(bs)..] ==> Encode([FirstScalar(bs) as char] + rest) == bs
  {
    assert bs == bs[..SeqLen(bs)] + bs[SeqLen(bs)..];
    var c := FirstScalar(bs) as char;
    assert ([c] + rest)[1..] == rest;
    FirstScalarEncodes(bs);
  }

  lemma {:induction false} EncodeAppend(a: string, b: string)
    ensures Encode(a + b) == Encode(a) + Encode(b)
  {
    if |a| == 0 {
      assert a + b == b;
    } else {
      assert (a + b)[1..] == a[1..] + b;
      EncodeAppend(a[1..], b);
    }
  }

  /** Well-formed inputs decode piecewise: the decoding of a concatenation is
      the concatenation of the decodings. */
  lemma DecodeAppend(a: seq<Byte>, b: seq<Byte>)
    requires Decode(a).Some? && Decode(b).Some?
    ensures Decode(a + b) == Some(Decode(a).value + Decode(b).value)
  {
    var x, y := Decode(a).value, Decode(b).value;
    EncodeDecode(a);
    EncodeDecode(b);
    EncodeAppend(x, y);
    DecodeEncode(x + y);
  }
}
