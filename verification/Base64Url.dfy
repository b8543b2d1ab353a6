/** Ruby's Base64.urlsafe_encode64 (padding: false) and Base64.urlsafe_decode64
    over the alphabets of sections 4 and 5 of RFC 4648. */
module Base64Url {
  import opened Wrappers
  import opened Utf8

  // Six bits at a time

  type Sextet = i: int | 0 <= i < 64

  function S0(a: Byte): Sextet { a / 4 }
  function S1(a: Byte, b: Byte): Sextet { a % 4 * 16 + b / 16 }
  function S2(b: Byte, c: Byte): Sextet { b % 16 * 4 + c / 64 }
  function S3(c: Byte): Sextet { c % 64 }

  function B0(p: Sextet, q: Sextet): Byte { p * 4 + q / 16 }
  function B1(q: Sextet, r: Sextet): Byte { q % 16 * 16 + r / 4 }
  function B2(r: Sextet, t: Sextet): Byte { r % 4 * 64 + t }

  /** Three bytes are four sextets; one or two bytes are padded with zero bits. */
  function Sextets(b: seq<Byte>): seq<Sextet> {
    if b == [] then []
    else if |b| == 1 then [S0(b[0]), S1(b[0], 0)]
    else if |b| == 2 then [S0(b[0]), S1(b[0], b[1]), S2(b[1], 0)]
    else [S0(b[0]), S1(b[0], b[1]), S2(b[1], b[2]), S3(b[2])] + Sextets(b[3..])
  }

  /** The way back; a single sextet is no byte, and padding bits must be zero. */
  function Bytes(x: seq<Sextet>): Option<seq<Byte>> {
    if x == [] then Some([])
    else if |x| == 1 then None
    else if |x| == 2 then
      if x[1] % 16 == 0 then Some([B0(x[0], x[1])]) else None
    else if |x| == 3 then
      if x[2] % 4 == 0 then Some([B0(x[0], x[1]), B1(x[1], x[2])]) else None
    else
      var rest :- Bytes(x[4..]);
      Some([B0(x[0], x[1]), B1(x[1], x[2]), B2(x[2], x[3])] + rest)
  }

  lemma BitsOfBytes(a: Byte, b: Byte, c: Byte)
    ensures B0(S0(a), S1(a, b)) == a && B1(S1(a, b), S2(b, c)) == b && B2(S2(b, c), S3(c)) == c
    ensures S1(a, 0) % 16 == 0 && S2(b, 0) % 4 == 0
  {
  }

  lemma {:induction false} BytesOfSextets(b: seq<Byte>)
    ensures Bytes(Sextets(b)) == Some(b)
    ensures |Sextets(b)| == (4 * |b| + 2) / 3
  {
    hide S0, S1, S2, S3, B0, B1, B2;
    if b != [] {
      var b1 := if |b| >= 2 then b[1] else 0;
      BitsOfBytes(b[0], b1, if |b| >= 3 then b[2] else 0);
      if |b| >= 3 {
        BytesOfSextets(b[3..]);
        assert Sextets(b)[4..] == Sextets(b[3..]);
        assert b == [b[0], b[1], b[2]] + b[3..];
      } else {
        assert b == if |b| == 1 then [b[0]] else [b[0], b[1]];
      }
    }
  }

  lemma BitsOfSextets(p: Sextet, q: Sextet, r: Sextet, t: Sextet)
    ensures S0(B0(p, q)) == p && S3(B2(r, t)) == t
    ensures S1(B0(p, q), B1(q, r)) == q && S2(B1(q, r), B2(r, t)) == r
    ensures q % 16 == 0 ==> S1(B0(p, q), 0) == q
    ensures r % 4 == 0 ==> S2(B1(q, r), 0) == r
  {
  }

  lemma {:induction false} SextetsOfBytes(x: seq<Sextet>)
    requires Bytes(x).Some?
    ensures Sextets(Bytes(x).value) == x
  {
    hide S0, S1, S2, S3, B0, B1, B2;
    if x != [] {
      BitsOfSextets(x[0], x[1], if |x| >= 3 then x[2] else 0, if |x| >= 4 then x[3] else 0);
      if |x| >= 4 {
        SextetsOfBytes(x[4..]);
        assert Bytes(x).value[3..] == Bytes(x[4..]).value;
        assert x == [x[0], x[1], x[2], x[3]] + x[4..];
      } else {
        assert x == if |x| == 2 then [x[0], x[1]] else [x[0], x[1], x[2]];
      }
    }
  }

  // Characters

  /** Section 4: the standard alphabet. */
  function Symbol(i: Sextet): char {
    if i < 26 then (i + 65) as char
    else if i < 52 then (i + 71) as char
    else if i < 62 then (i - 4) as char
    else if i == 62 then '+'
    else '/'
  }

  predicate InAlphabet(c: char) {
    'A' <= c <= 'Z' || 'a' <= c <= 'z' || '0' <= c <= '9' || c == '+' || c == '/'
  }

  function IndexOf(c: char): (i: Sextet)
    requires InAlphabet(c)
  {
    if 'A' <= c <= 'Z' then c as int - 65
    else if 'a' <= c <= 'z' then c as int - 71
    else if '0' <= c <= '9' then c as int + 4
    else if c == '+' then 62
    else 63
  }

  function Text(x: seq<Sextet>): string {
    seq(|x|, k requires 0 <= k < |x| => Symbol(x[k]))
  }

  predicate Readable(s: string) {
    forall k | 0 <= k < |s| :: InAlphabet(s[k])
  }

  function Indices(s: string): seq<Sextet>
    requires Readable(s)
  {
    seq(|s|, k requires 0 <= k < |s| => IndexOf(s[k]))
  }

  lemma IndicesOfText(x: seq<Sextet>)
    ensures Readable(Text(x)) && Indices(Text(x)) == x
  {
    assert forall i: Sextet :: InAlphabet(Symbol(i)) && IndexOf(Symbol(i)) == i;
  }

  lemma TextOfIndices(s: string)
    requires Readable(s)
    ensures Text(Indices(s)) == s
  {
    assert forall c | InAlphabet(c) :: Symbol(IndexOf(c)) == c;
  }

  // The standard encoding, strict about its padding

  /** Padding to a multiple of four characters (section 3.2). */
  function Padding(length: nat): string {
    if length % 3 == 1 then "==" else if length % 3 == 2 then "=" else ""
  }

  function StrictEncode(b: seq<Byte>): string {
    Text(Sextets(b)) + Padding(|b|)
  }

  predicate EndsWith(s: string, suffix: string) {
    |suffix| <= |s| && s[|s| - |suffix|..] == suffix
  }

  /** chomp!("==") or chomp!("="). */
  function Chomp(s: string): string {
    if EndsWith(s, "==") then s[..|s| - 2]
    else if EndsWith(s, "=") then s[..|s| - 1]
    else s
  }

  function StrictDecode(s: string): Option<seq<Byte>> {
    if |s| % 4 == 0 && Readable(Chomp(s)) then Bytes(Indices(Chomp(s))) else None
  }

  // The URL-safe encoding

  /** Section 5: the URL- and filename-safe alphabet. */
  predicate UrlSafe(c: char) {
    'A' <= c <= 'Z' || 'a' <= c <= 'z' || '0' <= c <= '9' || c == '-' || c == '_'
  }

  ghost predicate UrlSafeText(s: string) {
    forall i | 0 <= i < |s| :: UrlSafe(s[i])
  }

  /** tr("+/", "-_"). */
  function ToUrl(s: string): string {
    seq(|s|, i requires 0 <= i < |s| => if s[i] == '+' then '-' else if s[i] == '/' then '_' else s[i])
  }

  /** tr("-_", "+/"). */
  function FromUrl(s: string): string {
    seq(|s|, i requires 0 <= i < |s| => if s[i] == '-' then '+' else if s[i] == '_' then '/' else s[i])
  }

  /** ljust to the next multiple of four. */
  function LJust(s: string): string {
    s + seq((4 - |s| % 4) % 4, _ => '=')
  }

  function UrlsafeEncode(b: seq<Byte>): string {
    ToUrl(Chomp(StrictEncode(b)))
  }

  function UrlsafeDecode(s: string): Option<seq<Byte>> {
    StrictDecode(FromUrl(if !EndsWith(s, "=") && |s| % 4 != 0 then LJust(s) else s))
  }

  // Round trips

  lemma ChompDropsPadding(s: string, n: nat)
    requires Readable(s)
    ensures Chomp(s + Padding(n)) == s
  {
    var t := s + Padding(n);
    assert n % 3 == 1 ==> t[|t| - 2..] == "==";
    assert n % 3 == 2 ==> t[|t| - 1..] == "=" && (|s| > 0 ==> t[|t| - 2] == s[|s| - 1]);
    assert n % 3 == 0 && s != "" ==> t[|t| - 1] == s[|s| - 1];
  }

  lemma LJustPads(s: string, n: nat)
    requires (|s| + |Padding(n)|) % 4 == 0
    ensures (if |s| % 4 != 0 then LJust(s) else s) == s + Padding(n)
  {
    assert Padding(n) == seq(|Padding(n)|, _ => '=');
    assert (4 - |s| % 4) % 4 == |Padding(n)|;
  }

  /** What urlsafe_decode64 makes of an unpadded URL-safe text: its sextets, read as bytes. */
  lemma DecodeUnpadded(s: string)
    requires UrlSafeText(s)
    ensures Readable(FromUrl(s)) && ToUrl(FromUrl(s)) == s
    ensures UrlsafeDecode(s) == if |s| % 4 == 1 then None else Bytes(Indices(FromUrl(s)))
  {
    hide Bytes, Indices, Chomp;
    assert s != "" ==> s[|s| - 1..][0] == s[|s| - 1];
    assert !EndsWith(s, "=");
    var t := FromUrl(s);
    if |s| % 4 == 1 {
      assert FromUrl(LJust(s)) == t + "===";
      OnePaddedTooMuch(t);
    } else {
      var n := if |s| % 4 == 2 then 1 else if |s| % 4 == 3 then 2 else 0;
      LJustPads(s, n);
      assert FromUrl(s + Padding(n)) == t + Padding(n);
      ChompDropsPadding(t, n);
    }
  }

  lemma OnePaddedTooMuch(s: string)
    ensures !Readable(Chomp(s + "==="))
  {
    var t := s + "===";
    assert t[|t| - 2..] == "==";
    assert Chomp(t)[|s|] == '=';
  }

  /** Decoding an encoding gives the bytes back; the encoding is URL-safe and unpadded. */
  lemma UrlsafeRoundTrip(b: seq<Byte>)
    ensures UrlsafeDecode(UrlsafeEncode(b)) == Some(b)
    ensures UrlSafeText(UrlsafeEncode(b))
    ensures |UrlsafeEncode(b)| == (4 * |b| + 2) / 3
  {
    BytesOfSextets(b);
    IndicesOfText(Sextets(b));
    hide Sextets, Bytes, Text, UrlsafeDecode;
    var s := Text(Sextets(b));
    ChompDropsPadding(s, |b|);
    ToUrlSafe(s);
    DecodeUnpadded(ToUrl(s));
    TextLength(Sextets(b));
    NeverOneLeft(|b|);
  }

  lemma NeverOneLeft(n: nat)
    ensures ((4 * n + 2) / 3) % 4 != 1
  {
    var q, r := n / 3, n % 3;
    assert (4 * n + 2) / 3 == 4 * q + (if r == 0 then 0 else r + 1);
  }

  lemma TextLength(x: seq<Sextet>)
    ensures |Text(x)| == |x|
  {
  }

  lemma ToUrlSafe(s: string)
    requires Readable(s)
    ensures UrlSafeText(ToUrl(s)) && FromUrl(ToUrl(s)) == s && |ToUrl(s)| == |s|
  {
  }

  /** An unpadded URL-safe text that decodes is the encoding of what it decodes to:
      no two such texts stand for the same bytes. */
  lemma UrlsafeCanonical(s: string)
    requires UrlSafeText(s) && UrlsafeDecode(s).Some?
    ensures UrlsafeEncode(UrlsafeDecode(s).value) == s
  {
    DecodeUnpadded(s);
    var t := FromUrl(s);
    var b := UrlsafeDecode(s).value;
    SextetsOfBytes(Indices(t));
    TextOfIndices(t);
    ChompDropsPadding(t, |b|);
  }

  /** Padding may be there as long as it is the right one: a padded text decodes like the unpadded one, and a text that
      ends in a padding character at the wrong length does not decode. */
  lemma PaddedDecodes(s: string)
    requires UrlSafeText(s)
    ensures |s| % 4 == 2 ==> UrlsafeDecode(s + "==") == UrlsafeDecode(s)
    ensures |s| % 4 == 3 ==> UrlsafeDecode(s + "=") == UrlsafeDecode(s)
    ensures |s| % 4 != 3 ==> UrlsafeDecode(s + "=") == None
  {
    hide Bytes, Indices, Chomp, FromUrl;
    DecodeUnpadded(s);
    DecodeWithMark(s);
    if |s| % 4 == 2 {
      DecodeWithMark(s + "=");
      assert s + "=" + "=" == s + "==";
      FromUrlPadded(s, "==");
      ChompDropsPadding(FromUrl(s), 1);
    } else if |s| % 4 == 3 {
      FromUrlPadded(s, "=");
      ChompDropsPadding(FromUrl(s), 2);
    }
  }

  lemma DecodeWithMark(s: string)
    ensures UrlsafeDecode(s + "=") == StrictDecode(FromUrl(s + "="))
    ensures |FromUrl(s + "=")| == |s| + 1
  {
    hide StrictDecode;
    assert (s + "=")[|s|..] == "=";
  }

  lemma FromUrlPadded(s: string, pad: string)
    requires pad == "=" || pad == "=="
    ensures FromUrl(s + pad) == FromUrl(s) + pad && |FromUrl(s)| == |s|
  {
    assert FromUrl(s + pad) == FromUrl(s) + pad;
  }
}
