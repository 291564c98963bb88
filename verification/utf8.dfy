/**
 * UTF-8, as section 3.9 of the Unicode Standard defines it. Rust strings are
 * UTF-8: `String::into_bytes` is `Encode`, and `fs::read_to_string` accepts a
 * file exactly when `Decode` does (Rust's validator checks the well-formed
 * byte sequences of Table 3-7).
 */
module Utf8 {
  import opened Base

  /** The code units of one scalar value (Table 3-6). */
  function EncodeChar(c: char): (bs: seq<byte>)
    ensures 1 <= |bs| <= 4
    ensures |bs| == 1 <==> c as int < 0x80
  {
    var n := c as int;
    if n < 0x80 then [n]
    else if n < 0x800 then [0xC0 + n / 64, 0x80 + n % 64]
    else if n < 0x1_0000 then [0xE0 + n / 4096, 0x80 + (n / 64) % 64, 0x80 + n % 64]
    else [0xF0 + n / 262144, 0x80 + (n / 4096) % 64, 0x80 + (n / 64) % 64, 0x80 + n % 64]
  }

  function Encode(s: string): (bs: seq<byte>)
    ensures |s| <= |bs| <= 4 * |s|
  {
    if s == [] then [] else EncodeChar(s[0]) + Encode(s[1..])
  }

  predicate IsContinuation(b: int) {
    0x80 <= b <= 0xBF
  }

  /**
   * Length of the well-formed code-unit sequence at the head of bs
   * (Table 3-7), or 0 when the head is ill-formed.
   */
  function HeadLength(bs: seq<byte>): (n: nat)
    requires |bs| > 0
    ensures n <= 4 && n <= |bs|
  {
    var b0 := bs[0];
    if b0 <= 0x7F then 1
    else if 0xC2 <= b0 <= 0xDF then
      if |bs| >= 2 && IsContinuation(bs[1]) then 2 else 0
    else if 0xE0 <= b0 <= 0xEF then
      var lo := if b0 == 0xE0 then 0xA0 else 0x80;
      var hi := if b0 == 0xED then 0x9F else 0xBF;
      if |bs| >= 3 && lo <= bs[1] <= hi && IsContinuation(bs[2]) then 3 else 0
    else if 0xF0 <= b0 <= 0xF4 then
      var lo := if b0 == 0xF0 then 0x90 else 0x80;
      var hi := if b0 == 0xF4 then 0x8F else 0xBF;
      if |bs| >= 4 && lo <= bs[1] <= hi && IsContinuation(bs[2]) && IsContinuation(bs[3]) then 4 else 0
    else 0
  }

  /** The scalar value a well-formed head sequence stands for. */
  function HeadValue(bs: seq<byte>): (cp: int)
    requires |bs| > 0 && HeadLength(bs) > 0
    ensures 0 <= cp < 0xD800 || 0xE000 <= cp < 0x11_0000
  {
    var n := HeadLength(bs);
    var b0: int := bs[0];
    if n == 1 then b0
    else
      var b1: int := bs[1];
      if n == 2 then (b0 - 0xC0) * 64 + (b1 - 0x80)
      else
        var b2: int := bs[2];
        if n == 3 then (b0 - 0xE0) * 4096 + (b1 - 0x80) * 64 + (b2 - 0x80)
        else
          var b3: int := bs[3];
          (b0 - 0xF0) * 262144 + (b1 - 0x80) * 4096 + (b2 - 0x80) * 64 + (b3 - 0x80)
  }

  /** The text bs encodes, or None when bs is not well-formed UTF-8. */
  function Decode(bs: seq<byte>): (r: Option<string>)
    ensures r.Some? ==> |r.value| <= |bs| <= 4 * |r.value|
    decreases |bs|
  {
    if bs == [] then Some([])
    else
      var n := HeadLength(bs);
      if n == 0 then None
      else
        match Decode(bs[n..])
        case None => None
        case Some(rest) => Some([HeadValue(bs) as char] + rest)
  }

  /** Encoding works one character at a time. */
  lemma EncodeCons(c: char, s: string)
    ensures Encode([c] + s) == EncodeChar(c) + Encode(s)
  {
    assert ([c] + s)[1..] == s;
  }

  lemma {:induction false} EncodeAppend(a: string, b: string)
    ensures Encode(a + b) == Encode(a) + Encode(b)
    decreases |a|
  {
    if a == [] {
      assert a + b == b;
    } else {
      var c, tail := a[0], a[1..];
      assert a == [c] + tail;
      AppendAssoc([c], tail, b);
      EncodeCons(c, tail + b);
      EncodeCons(c, tail);
      EncodeAppend(tail, b);
      AppendAssoc(EncodeChar(c), Encode(tail), Encode(b));
    }
  }

  /** Division by 64 recovers the quotient and remainder it was built from. */
  lemma Split64(x: int, q: int, r: int)
    requires 0 <= r < 64 && x == 64 * q + r
    ensures x / 64 == q && x % 64 == r
  {
  }

  /** Writes a code point as base-64 digits, the pieces UTF-8 spreads over its bytes. */
  lemma Digits(n: nat)
    ensures n == 64 * (n / 64) + n % 64
    ensures n / 4096 == (n / 64) / 64
    ensures n / 262144 == ((n / 64) / 64) / 64
  {
    var q1 := n / 64;
    var q2 := q1 / 64;
    var q3 := q2 / 64;
    Split64(n, q1, n % 64);
    assert n == 4096 * q2 + 64 * (q1 % 64) + n % 64;
    assert n / 4096 == q2;
    assert n == 262144 * q3 + 4096 * (q2 % 64) + 64 * (q1 % 64) + n % 64;
  }

  /** The two bytes of a code point in 0x80..0x7FF form a well-formed head standing for it. */
  lemma Bytes2(n: int)
    requires 0x80 <= n < 0x800
    ensures var b0, b1 := 0xC0 + n / 64, 0x80 + n % 64;
      0xC2 <= b0 <= 0xDF && IsContinuation(b1) && (b0 - 0xC0) * 64 + (b1 - 0x80) == n
  {
    Digits(n);
  }

  /** The three bytes of a code point in 0x800..0xFFFF (surrogates excluded) form a well-formed head standing for it. */
  lemma Bytes3(n: int)
    requires 0x800 <= n < 0x1_0000 && !(0xD800 <= n < 0xE000)
    ensures var b0, b1, b2 := 0xE0 + n / 4096, 0x80 + (n / 64) % 64, 0x80 + n % 64;
      && 0xE0 <= b0 <= 0xEF && IsContinuation(b1) && IsContinuation(b2)
      && (if b0 == 0xE0 then 0xA0 else 0x80) <= b1 <= (if b0 == 0xED then 0x9F else 0xBF)
      && (b0 - 0xE0) * 4096 + (b1 - 0x80) * 64 + (b2 - 0x80) == n
  {
    Digits(n);
    Digits(n / 64);
  }

  /** The four bytes of a code point from 0x10000 on form a well-formed head standing for it. */
  lemma Bytes4(n: int)
    requires 0x1_0000 <= n < 0x11_0000
    ensures var b0, b1, b2, b3 := 0xF0 + n / 262144, 0x80 + (n / 4096) % 64, 0x80 + (n / 64) % 64, 0x80 + n % 64;
      && 0xF0 <= b0 <= 0xF4 && IsContinuation(b1) && IsContinuation(b2) && IsContinuation(b3)
      && (if b0 == 0xF0 then 0x90 else 0x80) <= b1 <= (if b0 == 0xF4 then 0x8F else 0xBF)
      && (b0 - 0xF0) * 262144 + (b1 - 0x80) * 4096 + (b2 - 0x80) * 64 + (b3 - 0x80) == n
  {
    Digits(n);
    Digits(n / 64);
    Digits(n / 4096);
  }

  /** The encoding of one character is read back as that character, whatever follows it. */
  lemma EncodeCharHead(c: char, rest: seq<byte>)
    ensures HeadLength(EncodeChar(c) + rest) == |EncodeChar(c)|
    ensures HeadValue(EncodeChar(c) + rest) == c as int
  {
    var n := c as int;
    if n < 0x80 {
    } else if n < 0x800 {
      EncodeCharHead2(c, rest);
    } else if n < 0x1_0000 {
      EncodeCharHead3(c, rest);
    } else {
      EncodeCharHead4(c, rest);
    }
  }

  lemma EncodeCharHead2(c: char, rest: seq<byte>)
    requires 0x80 <= c as int < 0x800
    ensures HeadLength(EncodeChar(c) + rest) == 2 == |EncodeChar(c)|
    ensures HeadValue(EncodeChar(c) + rest) == c as int
  {
    var n := c as int;
    var bs := EncodeChar(c) + rest;
    Bytes2(n);
    assert bs[0] == 0xC0 + n / 64 && bs[1] == 0x80 + n % 64;
  }

  lemma EncodeCharHead3(c: char, rest: seq<byte>)
    requires 0x800 <= c as int < 0x1_0000
    ensures HeadLength(EncodeChar(c) + rest) == 3 == |EncodeChar(c)|
    ensures HeadValue(EncodeChar(c) + rest) == c as int
  {
    var n := c as int;
    var bs := EncodeChar(c) + rest;
    Bytes3(n);
    assert bs[0] == 0xE0 + n / 4096 && bs[1] == 0x80 + (n / 64) % 64 && bs[2] == 0x80 + n % 64;
  }

  lemma EncodeCharHead4(c: char, rest: seq<byte>)
    requires 0x1_0000 <= c as int
    ensures HeadLength(EncodeChar(c) + rest) == 4 == |EncodeChar(c)|
    ensures HeadValue(EncodeChar(c) + rest) == c as int
  {
    var n := c as int;
    var bs := EncodeChar(c) + rest;
    Bytes4(n);
    assert bs[0] == 0xF0 + n / 262144 && bs[1] == 0x80 + (n / 4096) % 64;
    assert bs[2] == 0x80 + (n / 64) % 64 && bs[3] == 0x80 + n % 64;
  }

  /** Encoding then decoding gives the text back. */
  lemma {:induction false} DecodeEncode(s: string)
    ensures Decode(Encode(s)) == Some(s)
    decreases |s|
  {
    if s != [] {
      var head := EncodeChar(s[0]);
      var bs := Encode(s);
      EncodeCharHead(s[0], Encode(s[1..]));
      assert bs[|head|..] == Encode(s[1..]);
      DecodeEncode(s[1..]);
      assert [s[0]] + s[1..] == s;
    }
  }

  lemma HeadEncodes2(b0: int, b1: int)
    requires 0xC2 <= b0 <= 0xDF && IsContinuation(b1)
    ensures var cp := (b0 - 0xC0) * 64 + (b1 - 0x80);
      0x80 <= cp < 0x800 && 0xC0 + cp / 64 == b0 && 0x80 + cp % 64 == b1
  {
    Split64((b0 - 0xC0) * 64 + (b1 - 0x80), b0 - 0xC0, b1 - 0x80);
  }

  lemma HeadEncodes3(b0: int, b1: int, b2: int)
    requires 0xE0 <= b0 <= 0xEF && IsContinuation(b1) && IsContinuation(b2)
    requires b0 == 0xE0 ==> b1 >= 0xA0
    ensures var cp := (b0 - 0xE0) * 4096 + (b1 - 0x80) * 64 + (b2 - 0x80);
      && 0x800 <= cp < 0x1_0000
      && 0xE0 + cp / 4096 == b0 && 0x80 + (cp / 64) % 64 == b1 && 0x80 + cp % 64 == b2
  {
    var cp := (b0 - 0xE0) * 4096 + (b1 - 0x80) * 64 + (b2 - 0x80);
    var q1 := (b0 - 0xE0) * 64 + (b1 - 0x80);
    Split64(cp, q1, b2 - 0x80);
    Split64(q1, b0 - 0xE0, b1 - 0x80);
    Digits(cp);
  }

  lemma HeadEncodes4(b0: int, b1: int, b2: int, b3: int)
    requires 0xF0 <= b0 <= 0xF4 && IsContinuation(b1) && IsContinuation(b2) && IsContinuation(b3)
    requires b0 == 0xF0 ==> b1 >= 0x90
    ensures var cp := (b0 - 0xF0) * 262144 + (b1 - 0x80) * 4096 + (b2 - 0x80) * 64 + (b3 - 0x80);
      && 0x1_0000 <= cp
      && 0xF0 + cp / 262144 == b0 && 0x80 + (cp / 4096) % 64 == b1
      && 0x80 + (cp / 64) % 64 == b2 && 0x80 + cp % 64 == b3
  {
    var cp := (b0 - 0xF0) * 262144 + (b1 - 0x80) * 4096 + (b2 - 0x80) * 64 + (b3 - 0x80);
    var q2 := (b0 - 0xF0) * 64 + (b1 - 0x80);
    var q1 := q2 * 64 + (b2 - 0x80);
    Split64(cp, q1, b3 - 0x80);
    Split64(q1, q2, b2 - 0x80);
    Split64(q2, b0 - 0xF0, b1 - 0x80);
    Digits(cp);
  }

  /** A well-formed head sequence is the encoding of the character it stands for. */
  lemma HeadEncodes(bs: seq<byte>)
    requires |bs| > 0 && HeadLength(bs) > 0
    ensures EncodeChar(HeadValue(bs) as char) == bs[..HeadLength(bs)]
  {
    var n := HeadLength(bs);
    if n == 2 {
      HeadEncodesTwo(bs);
    } else if n == 3 {
      HeadEncodesThree(bs);
    } else if n == 4 {
      HeadEncodesFour(bs);
    }
  }

  lemma HeadEncodesTwo(bs: seq<byte>)
    requires |bs| > 0 && HeadLength(bs) == 2
    ensures EncodeChar(HeadValue(bs) as char) == bs[..2]
  {
    HeadEncodes2(bs[0], bs[1]);
  }

  lemma HeadEncodesThree(bs: seq<byte>)
    requires |bs| > 0 && HeadLength(bs) == 3
    ensures EncodeChar(HeadValue(bs) as char) == bs[..3]
  {
    HeadEncodes3(bs[0], bs[1], bs[2]);
  }

  lemma HeadEncodesFour(bs: seq<byte>)
    requires |bs| > 0 && HeadLength(bs) == 4
    ensures EncodeChar(HeadValue(bs) as char) == bs[..4]
  {
    HeadEncodes4(bs[0], bs[1], bs[2], bs[3]);
  }

  /** Decoding reads one head sequence and then the rest. */
  lemma DecodeStep(bs: seq<byte>)
    requires bs != [] && Decode(bs).Some?
    ensures HeadLength(bs) > 0 && Decode(bs[HeadLength(bs)..]).Some?
    ensures Decode(bs).value == [HeadValue(bs) as char] + Decode(bs[HeadLength(bs)..]).value
  {
  }

  /** Text read from well-formed bytes encodes back to exactly those bytes. */
  lemma {:induction false} EncodeDecode(bs: seq<byte>)
    requires Decode(bs).Some?
    ensures Encode(Decode(bs).value) == bs
    decreases |bs|
  {
    if bs != [] {
      DecodeStep(bs);
      var n := HeadLength(bs);
      var tail := bs[n..];
      EncodeDecode(tail);
      HeadEncodes(bs);
      Rejoin(bs, n, HeadValue(bs) as char, Decode(tail).value);
    }
  }

  /** A character encoded as the head of bs, followed by text encoded as the rest, encodes to bs. */
  lemma Rejoin(bs: seq<byte>, n: nat, c: char, rest: string)
    requires n <= |bs| && EncodeChar(c) == bs[..n] && Encode(rest) == bs[n..]
    ensures Encode([c] + rest) == bs
  {
    EncodeCons(c, rest);
    assert bs == bs[..n] + bs[n..];
  }
}
