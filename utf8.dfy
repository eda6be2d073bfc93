/** UTF-8 as `String::from_utf8` accepts it (section 3 of RFC 3629): a byte
    string is valid when it splits into well-formed sequences of one to four
    bytes, none of them overlong, none encoding a surrogate, none above U+10FFFF.
    `Decode` returns the scalar values of a valid string and `None` otherwise;
    `Encode` is its inverse. Dafny's `char` is a Unicode scalar value, as Rust's is. */
module Utf8 {
  import opened LittleEndian
  import opened Outcomes

  /** A continuation byte, 10xxxxxx. */
  predicate Cont(b: byte) {
    0x80 <= b < 0xC0
  }

  /** The scalar value at the front of `b` and the number of bytes it takes, or
      `None` when `b` does not start with a well-formed sequence. */
  function DecodeFirst(b: seq<byte>): (r: Option<(char, nat)>)
    requires |b| > 0
    ensures r.Some? ==> 1 <= r.value.1 <= |b| && r.value.1 <= 4
  {
    var b0 := b[0] as int;
    if b0 < 0x80 then
      Some((b0 as char, 1))
    else if 0xC2 <= b0 < 0xE0 then
      if |b| >= 2 && Cont(b[1]) then
        Some((((b0 - 0xC0) * 0x40 + (b[1] as int - 0x80)) as char, 2))
      else None
    else if 0xE0 <= b0 < 0xF0 then
      var lo := if b0 == 0xE0 then 0xA0 else 0x80;
      var hi := if b0 == 0xED then 0xA0 else 0xC0;
      if |b| >= 3 && lo <= b[1] as int < hi && Cont(b[2]) then
        Some((((b0 - 0xE0) * 0x1000 + (b[1] as int - 0x80) * 0x40 + (b[2] as int - 0x80)) as char, 3))
      else None
    else if 0xF0 <= b0 < 0xF5 then
      var lo := if b0 == 0xF0 then 0x90 else 0x80;
      var hi := if b0 == 0xF4 then 0x90 else 0xC0;
      if |b| >= 4 && lo <= b[1] as int < hi && Cont(b[2]) && Cont(b[3]) then
        Some((((b0 - 0xF0) * 0x4_0000 + (b[1] as int - 0x80) * 0x1000
               + (b[2] as int - 0x80) * 0x40 + (b[3] as int - 0x80)) as char, 4))
      else None
    else
      None
  }

  /** `String::from_utf8`: the text `b` encodes, or `None` when it is not UTF-8. */
  function Decode(b: seq<byte>): (r: Option<string>)
    ensures r.Some? ==> |r.value| <= |b|
    decreases |b|
  {
    if b == [] then Some([])
    else
      match DecodeFirst(b)
      case None => None
      case Some((c, n)) =>
        match Decode(b[n..])
        case None => None
        case Some(rest) => Some([c] + rest)
  }

  /** The byte string is UTF-8. */
  predicate Valid(b: seq<byte>) {
    Decode(b).Some?
  }

  /** The one to four bytes that encode `c`. */
  function EncodeChar(c: char): (b: seq<byte>)
    ensures 1 <= |b| <= 4
  {
    var n := c as int;
    if n < 0x80 then
      [n as byte]
    else if n < 0x800 then
      [(0xC0 + n / 0x40) as byte, (0x80 + n % 0x40) as byte]
    else if n < 0x1_0000 then
      [(0xE0 + n / 0x1000) as byte, (0x80 + n / 0x40 % 0x40) as byte, (0x80 + n % 0x40) as byte]
    else
      [(0xF0 + n / 0x4_0000) as byte, (0x80 + n / 0x1000 % 0x40) as byte,
       (0x80 + n / 0x40 % 0x40) as byte, (0x80 + n % 0x40) as byte]
  }

  /** The UTF-8 encoding of a text, as `String::into_bytes` gives it. */
  function Encode(s: string): (b: seq<byte>)
    ensures |b| >= |s|
  {
    if s == [] then [] else EncodeChar(s[0]) + Encode(s[1..])
  }

  lemma DecodeFirstOfEncodeChar(c: char, rest: seq<byte>)
    ensures DecodeFirst(EncodeChar(c) + rest) == Some((c, |EncodeChar(c)|))
  {
    var n := c as int;
    var e := EncodeChar(c);
    var b := e + rest;
    if n < 0x80 {
    } else if n < 0x800 {
      SplitTwo(n);
      assert b[..2] == e;
    } else if n < 0x1_0000 {
      SplitThree(n);
      assert b[..3] == e;
    } else {
      SplitFour(n);
      assert b[..4] == e;
    }
  }

  lemma SplitTwo(n: int)
    requires 0x80 <= n < 0x800
    ensures var b0, b1 := 0xC0 + n / 0x40, 0x80 + n % 0x40;
            0xC2 <= b0 < 0xE0 && 0x80 <= b1 < 0xC0 && n == (b0 - 0xC0) * 0x40 + (b1 - 0x80)
  {
  }

  lemma SplitThree(n: int)
    requires 0x800 <= n < 0x1_0000 && (n < 0xD800 || 0xE000 <= n)
    ensures var b0, b1, b2 := 0xE0 + n / 0x1000, 0x80 + n / 0x40 % 0x40, 0x80 + n % 0x40;
            0xE0 <= b0 < 0xF0 && 0x80 <= b1 < 0xC0 && 0x80 <= b2 < 0xC0
            && (b0 == 0xE0 ==> 0xA0 <= b1) && (b0 == 0xED ==> b1 < 0xA0)
            && n == (b0 - 0xE0) * 0x1000 + (b1 - 0x80) * 0x40 + (b2 - 0x80)
  {
    var q := n / 0x40;
    assert n / 0x1000 == q / 0x40;
    assert n == (q / 0x40) * 0x1000 + (q % 0x40) * 0x40 + n % 0x40;
  }

  lemma SplitFour(n: int)
    requires 0x1_0000 <= n < 0x11_0000
    ensures var b0, b1, b2, b3 := 0xF0 + n / 0x4_0000, 0x80 + n / 0x1000 % 0x40, 0x80 + n / 0x40 % 0x40, 0x80 + n % 0x40;
            0xF0 <= b0 < 0xF5 && 0x80 <= b1 < 0xC0 && 0x80 <= b2 < 0xC0 && 0x80 <= b3 < 0xC0
            && (b0 == 0xF0 ==> 0x90 <= b1) && (b0 == 0xF4 ==> b1 < 0x90)
            && n == (b0 - 0xF0) * 0x4_0000 + (b1 - 0x80) * 0x1000 + (b2 - 0x80) * 0x40 + (b3 - 0x80)
  {
    var q1 := n / 0x40;
    var q2 := q1 / 0x40;
    assert n / 0x1000 == q2;
    assert n / 0x4_0000 == q2 / 0x40;
    assert n == (q2 / 0x40) * 0x4_0000 + (q2 % 0x40) * 0x1000 + (q1 % 0x40) * 0x40 + n % 0x40;
  }

  /** Decoding undoes encoding: every text is recovered from its UTF-8 bytes. */
  lemma {:induction false} DecodeEncode(s: string)
    ensures Decode(Encode(s)) == Some(s)
  {
    if s != [] {
      var e := EncodeChar(s[0]);
      DecodeFirstOfEncodeChar(s[0], Encode(s[1..]));
      assert (e + Encode(s[1..]))[|e|..] == Encode(s[1..]);
      DecodeEncode(s[1..]);
      assert [s[0]] + s[1..] == s;
    }
  }

  lemma EncodeCharOfDecodeFirst(b: seq<byte>)
    requires |b| > 0 && DecodeFirst(b).Some?
    ensures EncodeChar(DecodeFirst(b).value.0) == b[..DecodeFirst(b).value.1]
  {
    var k := DecodeFirst(b).value.1;
    if k == 2 {
      EncodeTwo(b[0], b[1]);
      assert b[..2] == [b[0], b[1]];
    } else if k == 3 {
      EncodeThree(b[0], b[1], b[2]);
      assert b[..3] == [b[0], b[1], b[2]];
    } else if k == 4 {
      EncodeFour(b[0], b[1], b[2], b[3]);
      assert b[..4] == [b[0], b[1], b[2], b[3]];
    }
  }

  lemma EncodeTwo(b0: byte, b1: byte)
    requires 0xC2 <= b0 < 0xE0 && Cont(b1)
    ensures EncodeChar(((b0 as int - 0xC0) * 0x40 + (b1 as int - 0x80)) as char) == [b0, b1]
  {
    var n := (b0 as int - 0xC0) * 0x40 + (b1 as int - 0x80);
    DivMod64(n, b0 as int - 0xC0, b1 as int - 0x80);
  }

  lemma EncodeThree(b0: byte, b1: byte, b2: byte)
    requires 0xE0 <= b0 < 0xF0 && Cont(b1) && Cont(b2)
    requires b0 == 0xE0 ==> 0xA0 <= b1
    requires b0 == 0xED ==> b1 < 0xA0
    ensures var n := (b0 as int - 0xE0) * 0x1000 + (b1 as int - 0x80) * 0x40 + (b2 as int - 0x80);
            0x800 <= n < 0x1_0000 && (n < 0xD800 || 0xE000 <= n)
            && EncodeChar(n as char) == [b0, b1, b2]
  {
    var x1, x2 := b1 as int - 0x80, b2 as int - 0x80;
    var q := (b0 as int - 0xE0) * 0x40 + x1;
    var n := q * 0x40 + x2;
    DivMod64(n, q, x2);
    DivMod64(q, b0 as int - 0xE0, x1);
    assert n / 0x1000 == n / 0x40 / 0x40;
  }

  lemma EncodeFour(b0: byte, b1: byte, b2: byte, b3: byte)
    requires 0xF0 <= b0 < 0xF5 && Cont(b1) && Cont(b2) && Cont(b3)
    requires b0 == 0xF0 ==> 0x90 <= b1
    requires b0 == 0xF4 ==> b1 < 0x90
    ensures var n := (b0 as int - 0xF0) * 0x4_0000 + (b1 as int - 0x80) * 0x1000
                     + (b2 as int - 0x80) * 0x40 + (b3 as int - 0x80);
            0x1_0000 <= n < 0x11_0000 && EncodeChar(n as char) == [b0, b1, b2, b3]
  {
    var x1, x2, x3 := b1 as int - 0x80, b2 as int - 0x80, b3 as int - 0x80;
    var q2 := (b0 as int - 0xF0) * 0x40 + x1;
    var q1 := q2 * 0x40 + x2;
    var n := q1 * 0x40 + x3;
    DivMod64(n, q1, x3);
    DivMod64(q1, q2, x2);
    DivMod64(q2, b0 as int - 0xF0, x1);
    assert n / 0x1000 == n / 0x40 / 0x40;
    assert n / 0x4_0000 == n / 0x40 / 0x40 / 0x40;
  }

  lemma DivMod64(n: int, q: int, r: int)
    requires 0 <= r < 0x40 && n == q * 0x40 + r
    ensures n / 0x40 == q && n % 0x40 == r
  {
  }

  /** Encoding undoes decoding: a valid byte string is exactly the encoding of
      the text it decodes to, so `Valid` holds of the encodings and nothing else. */
  lemma {:induction false} EncodeDecode(b: seq<byte>)
    requires Valid(b)
    ensures Encode(Decode(b).value) == b
    decreases |b|
  {
    if b != [] {
      var first := DecodeFirst(b);
      assert first.Some?;
      var c, n := first.value.0, first.value.1;
      var tail := Decode(b[n..]);
      assert tail.Some?;
      var s := Decode(b).value;
      assert s == [c] + tail.value;
      EncodeCharOfDecodeFirst(b);
      EncodeDecode(b[n..]);
      EncodeCons(b, n, c, tail.value);
    }
  }

  lemma EncodeCons(b: seq<byte>, n: nat, c: char, tail: string)
    requires n <= |b| && EncodeChar(c) == b[..n] && Encode(tail) == b[n..]
    ensures Encode([c] + tail) == b
  {
    var s := [c] + tail;
    assert s[0] == c && s[1..] == tail;
    assert b[..n] + b[n..] == b;
  }
}
