/** Standard base64 (section 4 of RFC 4648), the encoding
    `general_purpose::STANDARD.encode` produces: every three bytes become four
    symbols of the alphabet A-Z a-z 0-9 + /, and a final group of one or two bytes
    is padded with `=` to four symbols. `Decode` is the inverse used to state what
    the encoder preserves; it accepts canonical padded text only. */
module Base64 {
  import opened LittleEndian
  import opened Outcomes

  /** A six-bit group, the index of one symbol in the alphabet. */
  type Sextet = x: int | 0 <= x < 64

  const Pad: char := '='

  /** The symbol for a six-bit group (Table 1 of RFC 4648). */
  function Symbol(i: Sextet): (c: char)
    ensures c != Pad
  {
    if i < 26 then ('A' as int + i) as char
    else if i < 52 then ('a' as int + (i - 26)) as char
    else if i < 62 then ('0' as int + (i - 52)) as char
    else if i == 62 then '+'
    else '/'
  }

  /** The six-bit group a symbol stands for, `None` for any other character. */
  function Index(c: char): (r: Option<Sextet>)
    ensures r.Some? ==> Symbol(r.value) == c
  {
    if 'A' <= c <= 'Z' then Some(c as int - 'A' as int)
    else if 'a' <= c <= 'z' then Some(c as int - 'a' as int + 26)
    else if '0' <= c <= '9' then Some(c as int - '0' as int + 52)
    else if c == '+' then Some(62)
    else if c == '/' then Some(63)
    else None
  }

  lemma IndexOfSymbol(i: Sextet)
    ensures Index(Symbol(i)) == Some(i)
  {
  }

  /** The four symbols of one full three-byte group. */
  function EncodeGroup(a: byte, b: byte, c: byte): (s: string) {
    [Symbol(a as int / 4), Symbol(a as int % 4 * 16 + b as int / 16),
     Symbol(b as int % 16 * 4 + c as int / 64), Symbol(c as int % 64)]
  }

  /** `general_purpose::STANDARD.encode`. */
  function Encode(b: seq<byte>): (s: string)
    ensures |s| % 4 == 0 && (|s| == 0 <==> |b| == 0)
  {
    if |b| == 0 then []
    else if |b| == 1 then
      [Symbol(b[0] as int / 4), Symbol(b[0] as int % 4 * 16), Pad, Pad]
    else if |b| == 2 then
      [Symbol(b[0] as int / 4), Symbol(b[0] as int % 4 * 16 + b[1] as int / 16),
       Symbol(b[1] as int % 16 * 4), Pad]
    else
      EncodeGroup(b[0], b[1], b[2]) + Encode(b[3..])
  }

  /** Four symbols for every three bytes, a final partial group rounded up. */
  lemma {:induction false} EncodeLength(b: seq<byte>)
    ensures |Encode(b)| == 4 * ((|b| + 2) / 3)
    decreases |b|
  {
    if |b| >= 3 {
      EncodeLength(b[3..]);
      assert (|b| + 2) / 3 == (|b[3..]| + 2) / 3 + 1;
    }
  }

  /** Every character of the encoding is in the alphabet or is padding, and
      padding only ends the text. */
  lemma {:induction false} EncodeAlphabet(b: seq<byte>)
    ensures var s := Encode(b);
      forall k :: 0 <= k < |s| ==> Index(s[k]).Some? || (s[k] == Pad && |s| - 2 <= k)
    decreases |b|
  {
    if |b| >= 3 {
      IndexOfSymbol(b[0] as int / 4);
      IndexOfSymbol(b[0] as int % 4 * 16 + b[1] as int / 16);
      IndexOfSymbol(b[1] as int % 16 * 4 + b[2] as int / 64);
      IndexOfSymbol(b[2] as int % 64);
      EncodeAlphabet(b[3..]);
      var s := Encode(b);
      assert s == EncodeGroup(b[0], b[1], b[2]) + Encode(b[3..]);
      forall k | 4 <= k < |s|
        ensures s[k] == Encode(b[3..])[k - 4]
      {
      }
    } else if |b| == 2 {
      IndexOfSymbol(b[0] as int / 4);
      IndexOfSymbol(b[0] as int % 4 * 16 + b[1] as int / 16);
      IndexOfSymbol(b[1] as int % 16 * 4);
    } else if |b| == 1 {
      IndexOfSymbol(b[0] as int / 4);
      IndexOfSymbol(b[0] as int % 4 * 16);
    }
  }

  /** The bytes of one four-symbol group, honouring `=` padding only in the last
      group and only when the bits it drops are zero. */
  function DecodeGroup(q: string, last: bool): (r: Option<seq<byte>>)
    requires |q| == 4
  {
    var i0, i1, i2, i3 := Index(q[0]), Index(q[1]), Index(q[2]), Index(q[3]);
    if i0.None? || i1.None? then None
    else
      var x0, x1 := i0.value, i1.value;
      var first := (x0 * 4 + x1 / 16) as byte;
      if last && q[2] == Pad && q[3] == Pad then
        if x1 % 16 == 0 then Some([first]) else None
      else if i2.None? then None
      else
        var x2 := i2.value;
        var second := (x1 % 16 * 16 + x2 / 4) as byte;
        if last && q[3] == Pad then
          if x2 % 4 == 0 then Some([first, second]) else None
        else if i3.None? then None
        else Some([first, second, (x2 % 4 * 64 + i3.value) as byte])
  }

  /** The bytes a canonical base64 text stands for. */
  function Decode(s: string): (r: Option<seq<byte>>)
    decreases |s|
  {
    if s == [] then Some([])
    else if |s| < 4 then None
    else
      match DecodeGroup(s[..4], |s| == 4)
      case None => None
      case Some(g) =>
        match Decode(s[4..])
        case None => None
        case Some(rest) => Some(g + rest)
  }

  lemma Split4(hi: int, lo: int)
    requires 0 <= lo < 4
    ensures (hi * 4 + lo) / 4 == hi && (hi * 4 + lo) % 4 == lo
  {
  }

  lemma Split16(hi: int, lo: int)
    requires 0 <= lo < 16
    ensures (hi * 16 + lo) / 16 == hi && (hi * 16 + lo) % 16 == lo
  {
  }

  lemma Split64(hi: int, lo: int)
    requires 0 <= lo < 64
    ensures (hi * 64 + lo) / 64 == hi && (hi * 64 + lo) % 64 == lo
  {
  }

  /** The six-bit groups of two consecutive bytes `a`, `b` recombine to them. */
  lemma Regroup(a: byte, b: byte)
    ensures var x1 := a as int % 4 * 16 + b as int / 16;
            a as int / 4 * 4 + x1 / 16 == a as int && x1 % 16 == b as int / 16
  {
    Split16(a as int % 4, b as int / 16);
  }

  lemma GroupRoundTrip(a: byte, b: byte, c: byte, last: bool)
    ensures DecodeGroup(EncodeGroup(a, b, c), last) == Some([a, b, c])
  {
    var x0, x1 := a as int / 4, a as int % 4 * 16 + b as int / 16;
    var x2, x3 := b as int % 16 * 4 + c as int / 64, c as int % 64;
    IndexOfSymbol(x0);
    IndexOfSymbol(x1);
    IndexOfSymbol(x2);
    IndexOfSymbol(x3);
    Regroup(a, b);
    Split4(b as int % 16, c as int / 64);
    assert x1 % 16 * 16 + x2 / 4 == b as int;
    assert x2 % 4 * 64 + x3 == c as int;
  }

  /** Decoding undoes the encoder: base64 text determines the bytes it encodes. */
  lemma {:induction false} DecodeEncode(b: seq<byte>)
    ensures Decode(Encode(b)) == Some(b)
    decreases |b|
  {
    if |b| == 1 {
      FinalOne(b);
    } else if |b| == 2 {
      FinalTwo(b);
    } else if |b| >= 3 {
      var s := Encode(b);
      var g := EncodeGroup(b[0], b[1], b[2]);
      assert s[..4] == g && s[4..] == Encode(b[3..]);
      GroupRoundTrip(b[0], b[1], b[2], |s| == 4);
      assert b[..3] == [b[0], b[1], b[2]];
      DecodeEncode(b[3..]);
      assert b[..3] + b[3..] == b;
    }
  }

  /** A final single byte, padded with two `=`. */
  lemma FinalOne(b: seq<byte>)
    requires |b| == 1
    ensures Decode(Encode(b)) == Some(b)
  {
    var g := [Symbol(b[0] as int / 4), Symbol(b[0] as int % 4 * 16), Pad, Pad];
    assert Encode(b) == g;
    PaddedTwo(b[0]);
    assert b == [b[0]];
    LastGroup(g);
  }

  /** A final pair of bytes, padded with one `=`. */
  lemma FinalTwo(b: seq<byte>)
    requires |b| == 2
    ensures Decode(Encode(b)) == Some(b)
  {
    var g := [Symbol(b[0] as int / 4), Symbol(b[0] as int % 4 * 16 + b[1] as int / 16),
              Symbol(b[1] as int % 16 * 4), Pad];
    assert Encode(b) == g;
    PaddedOne(b[0], b[1]);
    assert b == [b[0], b[1]];
    LastGroup(g);
  }

  /** The group ending in `==` that encodes a lone byte decodes to it. */
  lemma PaddedTwo(a: byte)
    ensures DecodeGroup([Symbol(a as int / 4), Symbol(a as int % 4 * 16), Pad, Pad], true) == Some([a])
  {
    var x0, x1 := a as int / 4, a as int % 4 * 16;
    IndexOfSymbol(x0);
    IndexOfSymbol(x1);
    Split16(a as int % 4, 0);
    assert x1 % 16 == 0 && x0 * 4 + x1 / 16 == a as int;
  }

  /** The group ending in one `=` that encodes a byte pair decodes to it. */
  lemma PaddedOne(a: byte, c: byte)
    ensures DecodeGroup([Symbol(a as int / 4), Symbol(a as int % 4 * 16 + c as int / 16),
                         Symbol(c as int % 16 * 4), Pad], true) == Some([a, c])
  {
    var x0, x1, x2 := a as int / 4, a as int % 4 * 16 + c as int / 16, c as int % 16 * 4;
    IndexOfSymbol(x0);
    IndexOfSymbol(x1);
    IndexOfSymbol(x2);
    Regroup(a, c);
    Split4(c as int % 16, 0);
    assert x2 % 4 == 0 && x0 * 4 + x1 / 16 == a as int && x1 % 16 * 16 + x2 / 4 == c as int;
  }

  /** Text of one group decodes as that group, taken as the last. */
  lemma LastGroup(s: string)
    requires |s| == 4
    ensures Decode(s) == DecodeGroup(s, true)
  {
    assert s[..4] == s && s[4..] == [];
    if DecodeGroup(s, true).Some? {
      assert DecodeGroup(s, true).value + [] == DecodeGroup(s, true).value;
    }
  }
}
