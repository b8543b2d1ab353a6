/** UTF-8 (section 3 of RFC 3629), the encoding of every Ruby string the codec touches. */
module Utf8 {
  import opened Wrappers

  type Byte = b: int | 0 <= b < 256

  function EncodeChar(c: char): (bs: seq<Byte>)
    ensures 1 <= |bs| <= 4
  {
    var n := c as int;
    if n < 0x80 then [n]
    else if n < 0x800 then [0xC0 + n / 64, 0x80 + n % 64]
    else if n < 0x10000 then [0xE0 + n / 64 / 64, 0x80 + n / 64 % 64, 0x80 + n % 64]
    else [0xF0 + n / 64 / 64 / 64, 0x80 + n / 64 / 64 % 64, 0x80 + n / 64 % 64, 0x80 + n % 64]
  }

  function Encode(s: string): seq<Byte> {
    if s == "" then [] else EncodeChar(s[0]) + Encode(s[1..])
  }

  predicate Continuation(b: Byte) {
    0x80 <= b < 0xC0
  }

  /** What a byte holds beyond its length marker. */
  function Bits(b: Byte, marker: int): int {
    b - marker
  }

  /** The scalar value `n`, when it is one and needs at least `least` to be in this form. */
  function Scalar(n: int, least: int): Option<char> {
    if least <= n < 0xD800 || (0xE000 <= n < 0x110000 && least <= n) then
      if 0 <= n then Some(n as char) else None
    else None
  }

  /** The first character, and how many bytes it took. */
  function DecodeChar(bs: seq<Byte>): (r: Option<(char, nat)>)
    ensures r.Some? ==> 1 <= r.value.1 <= |bs|
  {
    if |bs| >= 1 && bs[0] < 0x80 then
      Some((bs[0] as char, 1))
    else if |bs| >= 2 && 0xC0 <= bs[0] < 0xE0 && Continuation(bs[1]) then
      var c :- Scalar(Bits(bs[0], 0xC0) * 64 + Bits(bs[1], 0x80), 0x80);
      Some((c, 2))
    else if |bs| >= 3 && 0xE0 <= bs[0] < 0xF0 && Continuation(bs[1]) && Continuation(bs[2]) then
      var c :- Scalar(Bits(bs[0], 0xE0) * 4096 + Bits(bs[1], 0x80) * 64 + Bits(bs[2], 0x80), 0x800);
      Some((c, 3))
    else if |bs| >= 4 && 0xF0 <= bs[0] < 0xF8 && Continuation(bs[1]) && Continuation(bs[2]) && Continuation(bs[3]) then
      var n := Bits(bs[0], 0xF0) * 262144 + Bits(bs[1], 0x80) * 4096 + Bits(bs[2], 0x80) * 64 + Bits(bs[3], 0x80);
      var c :- Scalar(n, 0x10000);
      Some((c, 4))
    else
      None
  }

  function Decode(bs: seq<Byte>): Option<string> {
    if bs == [] then Some("")
    else
      var first :- DecodeChar(bs);
      var rest :- Decode(bs[first.1..]);
      Some([first.0] + rest)
  }

  lemma DecodeEncodeChar(c: char, rest: seq<Byte>)
    ensures DecodeChar(EncodeChar(c) + rest) == Some((c, |EncodeChar(c)|))
  {
    var n := c as int;
    var head := EncodeChar(c);
    var bs := head + rest;
    assert forall i | 0 <= i < |head| :: bs[i] == head[i];
    if 0x800 <= n {
      var q := n / 64;
      assert n == q * 64 + n % 64 && q == q / 64 * 64 + q % 64;
      if 0x10000 <= n {
        var p := q / 64;
        assert p == p / 64 * 64 + p % 64;
      }
    }
  }

  lemma {:induction false} DecodeEncode(s: string)
    ensures Decode(Encode(s)) == Some(s)
  {
    if s != "" {
      var head, tail := EncodeChar(s[0]), Encode(s[1..]);
      DecodeEncodeChar(s[0], tail);
      assert (head + tail)[|head|..] == tail;
      DecodeEncode(s[1..]);
      assert s == [s[0]] + s[1..];
    }
  }

  lemma EncodeDecodeChar(bs: seq<Byte>)
    requires DecodeChar(bs).Some?
    ensures var (c, k) := DecodeChar(bs).value; EncodeChar(c) == bs[..k]
  {
    var (c, k) := DecodeChar(bs).value;
    var n := c as int;
    if k == 1 {
      assert bs[..1] == [bs[0]];
    } else if k == 2 {
      assert bs[..2] == [bs[0], bs[1]];
      assert n / 64 == bs[0] - 0xC0;
    } else if k == 3 {
      assert bs[..3] == [bs[0], bs[1], bs[2]];
      assert n / 64 == Bits(bs[0], 0xE0) * 64 + Bits(bs[1], 0x80);
    } else {
      assert bs[..4] == [bs[0], bs[1], bs[2], bs[3]];
      assert n / 64 == Bits(bs[0], 0xF0) * 4096 + Bits(bs[1], 0x80) * 64 + Bits(bs[2], 0x80);
      assert n / 64 / 64 == Bits(bs[0], 0xF0) * 64 + Bits(bs[1], 0x80);
    }
  }

  lemma DecodeStep(bs: seq<Byte>)
    requires bs != [] && Decode(bs).Some?
    ensures DecodeChar(bs).Some?
    ensures var (c, k) := DecodeChar(bs).value; Decode(bs[k..]).Some? && Decode(bs).value == [c] + Decode(bs[k..]).value
  {
    hide DecodeChar;
  }

  lemma EncodeStep(c: char, s: string)
    ensures Encode([c] + s) == EncodeChar(c) + Encode(s)
  {
    hide EncodeChar;
    assert ([c] + s)[1..] == s;
  }

  lemma EncodeDecodeStep(bs: seq<Byte>, c: char, k: nat, rest: string)
    requires k <= |bs| && EncodeChar(c) == bs[..k] && Encode(rest) == bs[k..]
    ensures Encode([c] + rest) == bs
  {
    hide Encode, EncodeChar;
    EncodeStep(c, rest);
    assert bs == bs[..k] + bs[k..];
  }

  /** Bytes that decode are the encoding of what they decode to: no overlong forms. */
  lemma {:induction false} EncodeDecode(bs: seq<Byte>)
    requires Decode(bs).Some?
    ensures Encode(Decode(bs).value) == bs
    decreases |bs|
  {
    hide DecodeChar, EncodeChar;
    if bs != [] {
      DecodeStep(bs);
      var (c, k) := DecodeChar(bs).value;
      EncodeDecodeChar(bs);
      EncodeDecode(bs[k..]);
      EncodeDecodeStep(bs, c, k, Decode(bs[k..]).value);
    }
  }
}
