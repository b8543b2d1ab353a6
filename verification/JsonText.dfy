/** JSON text (RFC 8259): JSON.generate on a flat object, and JSON.parse. */
module JsonText {
  import opened Wrappers
  import opened Text
  import opened Json

  /** JSON.parse's max_nesting. */
  const MAX_NESTING: nat := 100

  // Generating

  function HexChar(d: int): (c: char)
    requires 0 <= d < 16
    ensures HexValue(c) == Some(d)
  {
    if d < 10 then (d + 48) as char else (d + 87) as char
  }

  function HexValue(c: char): (r: Option<int>)
    ensures r.Some? ==> 0 <= r.value < 16
  {
    if '0' <= c <= '9' then Some(c as int - 48)
    else if 'a' <= c <= 'f' then Some(c as int - 87)
    else if 'A' <= c <= 'F' then Some(c as int - 55)
    else None
  }

  /** Section 7: what a character becomes inside a JSON string. */
  function EscapeChar(c: char): (s: string)
    ensures 1 <= |s| <= 6
  {
    var n := c as int;
    if c == '"' then "\\\""
    else if c == '\\' then "\\\\"
    else if n == 8 then "\\b"
    else if n == 9 then "\\t"
    else if n == 10 then "\\n"
    else if n == 12 then "\\f"
    else if n == 13 then "\\r"
    else if n < 32 then ['\\', 'u', '0', '0', HexChar(n / 16), HexChar(n % 16)]
    else [c]
  }

  function Escape(s: string): string {
    if s == "" then "" else EscapeChar(s[0]) + Escape(s[1..])
  }

  function Quote(s: string): string {
    "\"" + Escape(s) + "\""
  }

  predicate Scalar(v: Value) {
    v.Null? || v.Num? || v.Str?
  }

  function PrintScalar(v: Value): string
    requires Scalar(v)
  {
    match v
    case Null => "null"
    case Num(n) => IntText(n)
    case Str(s) => Quote(s)
  }

  /** Keys and values in insertion order. */
  type Members = seq<(string, Value)>

  ghost predicate FlatMembers(ms: Members) {
    forall m | m in ms :: Scalar(m.1)
  }

  function PrintMember(m: (string, Value)): string
    requires Scalar(m.1)
  {
    Quote(m.0) + ":" + PrintScalar(m.1)
  }

  /** Everything after the opening brace. */
  function PrintMembers(ms: Members): string
    requires ms != [] && FlatMembers(ms)
  {
    PrintMember(ms[0]) + (if |ms| == 1 then "}" else "," + PrintMembers(ms[1..]))
  }

  function Generate(ms: Members): string
    requires ms != [] && FlatMembers(ms)
  {
    "{" + PrintMembers(ms)
  }

  /** The hash a list of members builds; a later key replaces an earlier one. */
  function ToHash(acc: Hash, ms: Members): Hash
    decreases |ms|
  {
    if ms == [] then acc else ToHash(acc[ms[0].0 := ms[0].1], ms[1..])
  }

  // Parsing. Each reader returns what it read and the text left over.

  predicate JsonSpace(c: char) {
    c == ' ' || c == '\t' || c == '\n' || c == '\r'
  }

  function SkipSpace(s: string): (r: string)
    ensures |r| <= |s|
  {
    if s != "" && JsonSpace(s[0]) then SkipSpace(s[1..]) else s
  }

  /** Four hexadecimal digits. */
  function ReadHex4(s: string): (r: Option<int>)
    ensures r.Some? ==> |s| >= 4 && 0 <= r.value < 65536
  {
    if |s| < 4 then None
    else
      var a :- HexValue(s[0]);
      var b :- HexValue(s[1]);
      var c :- HexValue(s[2]);
      var d :- HexValue(s[3]);
      Some(((a * 16 + b) * 16 + c) * 16 + d)
  }

  /** The character of an escape sequence, after its backslash. */
  function ReadEscape(s: string): (r: Option<(char, string)>)
    ensures r.Some? ==> |r.value.1| < |s|
  {
    if s == "" then None
    else if s[0] == '"' || s[0] == '\\' || s[0] == '/' then Some((s[0], s[1..]))
    else if s[0] == 'b' then Some((8 as char, s[1..]))
    else if s[0] == 't' then Some(('\t', s[1..]))
    else if s[0] == 'n' then Some(('\n', s[1..]))
    else if s[0] == 'f' then Some((12 as char, s[1..]))
    else if s[0] == 'r' then Some(('\r', s[1..]))
    else if s[0] == 'u' then
      var hi :- ReadHex4(s[1..]);
      if hi < 0xD800 || hi >= 0xE000 then Some((hi as char, s[5..]))
      else if hi < 0xDC00 && |s| >= 7 && s[5] == '\\' && s[6] == 'u' then
        var lo :- ReadHex4(s[7..]);
        if 0xDC00 <= lo < 0xE000 then
          Some((((hi - 0xD800) * 1024 + (lo - 0xDC00) + 0x10000) as char, s[11..]))
        else None
      else None
    else None
  }

  /** A string, after its opening quotation mark. */
  function ReadString(s: string): (r: Option<(string, string)>)
    ensures r.Some? ==> |r.value.1| < |s|
    decreases |s|
  {
    if s == "" then None
    else if s[0] == '"' then Some(("", s[1..]))
    else if s[0] == '\\' then
      var first :- ReadEscape(s[1..]);
      var rest :- ReadString(first.1);
      Some(([first.0] + rest.0, rest.1))
    else if s[0] as int < 32 then None
    else
      var rest :- ReadString(s[1..]);
      Some(([s[0]] + rest.0, rest.1))
  }

  /** Digits without a leading zero, not followed by a fraction or an exponent. */
  function ReadDigits(s: string): (r: Option<(nat, string)>)
    ensures r.Some? ==> |r.value.1| < |s|
  {
    var k := DigitSpan(s);
    if k == 0 || (k > 1 && s[0] == '0') then None
    else if k < |s| && (s[k] == '.' || s[k] == 'e' || s[k] == 'E') then None
    else Some((NatValue(s[..k]), s[k..]))
  }

  /** An integer. Fractions and exponents are not read. */
  function ReadNumber(s: string): (r: Option<(int, string)>)
    ensures r.Some? ==> |r.value.1| < |s|
  {
    if s != "" && s[0] == '-' then
      var r :- ReadDigits(s[1..]);
      Some((0 - r.0, r.1))
    else
      var r :- ReadDigits(s);
      Some((r.0, r.1))
  }

  function ReadValue(s: string, depth: nat): (r: Option<(Value, string)>)
    ensures r.Some? ==> |r.value.1| < |s|
    decreases |s|, 0
  {
    if s == "" then None
    else if s[0] == '"' then
      var r :- ReadString(s[1..]);
      Some((Str(r.0), r.1))
    else if s[0] == '{' then
      var t := SkipSpace(s[1..]);
      if depth == 0 || t == "" then None
      else if t[0] == '}' then Some((Obj(map[]), t[1..]))
      else
        var r :- ReadMembers(t, depth - 1, map[]);
        Some((Obj(r.0), r.1))
    else if s[0] == '[' then
      var t := SkipSpace(s[1..]);
      if depth == 0 || t == "" then None
      else if t[0] == ']' then Some((Arr([]), t[1..]))
      else
        var r :- ReadItems(t, depth - 1);
        Some((Arr(r.0), r.1))
    else if "null" <= s then Some((Null, s[4..]))
    else if "true" <= s then Some((Bool(true), s[4..]))
    else if "false" <= s then Some((Bool(false), s[5..]))
    else
      var r :- ReadNumber(s);
      Some((Num(r.0), r.1))
  }

  /** A key, a colon and a value. */
  function ReadMember(s: string, depth: nat): (r: Option<((string, Value), string)>)
    ensures r.Some? ==> |r.value.1| < |s|
    decreases |s|, 1
  {
    if s == "" || s[0] != '"' then None
    else
      var key :- ReadString(s[1..]);
      var t := SkipSpace(key.1);
      if t == "" || t[0] != ':' then None
      else
        var value :- ReadValue(SkipSpace(t[1..]), depth);
        Some(((key.0, value.0), value.1))
  }

  /** Members up to and including the closing brace. */
  function ReadMembers(s: string, depth: nat, acc: Hash): (r: Option<(Hash, string)>)
    ensures r.Some? ==> |r.value.1| < |s|
    decreases |s|, 2
  {
    var m :- ReadMember(s, depth);
    var acc' := acc[m.0.0 := m.0.1];
    var t := SkipSpace(m.1);
    if t == "" then None
    else if t[0] == '}' then Some((acc', t[1..]))
    else if t[0] == ',' then ReadMembers(SkipSpace(t[1..]), depth, acc')
    else None
  }

  /** Items up to and including the closing bracket. */
  function ReadItems(s: string, depth: nat): (r: Option<(seq<Value>, string)>)
    ensures r.Some? ==> |r.value.1| < |s|
    decreases |s|, 2
  {
    var v :- ReadValue(s, depth);
    var t := SkipSpace(v.1);
    if t == "" then None
    else if t[0] == ']' then Some(([v.0], t[1..]))
    else if t[0] == ',' then
      var rest :- ReadItems(SkipSpace(t[1..]), depth);
      Some(([v.0] + rest.0, rest.1))
    else None
  }

  function Parse(text: string): Option<Value> {
    var r :- ReadValue(SkipSpace(text), MAX_NESTING);
    if SkipSpace(r.1) == "" then Some(r.0) else None
  }

  // Generating, then parsing

  lemma ReadEscapedChar(c: char, rest: string)
    ensures var s := EscapeChar(c) + rest;
            if c == '"' || c == '\\' || c as int < 32
            then s[0] == '\\' && ReadEscape(s[1..]) == Some((c, rest))
            else s == [c] + rest
  {
    var n := c as int;
    var s := EscapeChar(c) + rest;
    if c != '"' && c != '\\' && n < 32 && n != 8 && n != 9 && n != 10 && n != 12 && n != 13 {
      var h, l := HexChar(n / 16), HexChar(n % 16);
      assert EscapeChar(c) == ['\\', 'u', '0', '0', h, l];
      assert s[1..] == ['u', '0', '0', h, l] + rest;
      assert s[1..][1..] == ['0', '0', h, l] + rest;
      assert ReadHex4(s[1..][1..]) == Some(n);
      assert s[1..][5..] == rest;
    } else if |EscapeChar(c)| == 2 {
      assert s[1..][1..] == rest;
    }
  }

  lemma ReadStringStep(c: char, tail: string, read: (string, string))
    requires ReadString(tail) == Some(read)
    ensures ReadString(EscapeChar(c) + tail) == Some(([c] + read.0, read.1))
  {
    ReadEscapedChar(c, tail);
    hide ReadEscape, EscapeChar;
    var s := EscapeChar(c) + tail;
    if !(c == '"' || c == '\\' || c as int < 32) {
      assert s[1..] == tail;
    }
  }

  /** Reading back an escaped string stops at its closing quotation mark. */
  lemma {:induction false} ReadEscaped(s: string, rest: string)
    ensures ReadString(Escape(s) + "\"" + rest) == Some((s, rest))
  {
    var text := Escape(s) + "\"" + rest;
    if s == "" {
      assert text == "\"" + rest;
    } else {
      hide ReadString, EscapeChar;
      var tail := Escape(s[1..]) + "\"" + rest;
      assert text == EscapeChar(s[0]) + tail;
      ReadEscaped(s[1..], rest);
      ReadStringStep(s[0], tail, (s[1..], rest));
      assert s == [s[0]] + s[1..];
    }
  }

  lemma ReadPrintedNat(n: nat, rest: string)
    requires rest != "" ==> !IsDigit(rest[0]) && rest[0] !in {'.', 'e', 'E'}
    ensures ReadDigits(NatText(n) + rest) == Some((n, rest))
  {
    hide DigitSpan, NatValue, NatText;
    var ds := NatText(n);
    DigitSpanOfPrefix(ds, rest);
    NatValueOfText(n);
    assert (ds + rest)[..|ds|] == ds && (ds + rest)[|ds|..] == rest;
  }

  /** A printed integer reads back when nothing numeric follows it. */
  lemma ReadPrintedInt(n: int, rest: string)
    requires rest != "" ==> !IsDigit(rest[0]) && rest[0] !in {'.', 'e', 'E'}
    ensures ReadNumber(IntText(n) + rest) == Some((n, rest))
  {
    hide ReadDigits, NatText;
    var ds := NatText(if n < 0 then -n else n);
    assert IsDigit(ds[0]);
    ReadPrintedNat(if n < 0 then -n else n, rest);
    assert n < 0 ==> (IntText(n) + rest)[1..] == ds + rest;
  }

  /** A printed scalar reads back when a comma or a closing brace follows it. */
  lemma ReadPrintedScalar(v: Value, rest: string, depth: nat)
    requires Scalar(v)
    requires rest != "" && rest[0] in {',', '}'}
    ensures ReadValue(PrintScalar(v) + rest, depth) == Some((v, rest))
    ensures !JsonSpace((PrintScalar(v) + rest)[0])
  {
    hide ReadString, ReadNumber, Escape, NatText;
    var text := PrintScalar(v) + rest;
    match v
    case Null =>
      assert text[4..] == rest;
    case Str(s) =>
      ReadEscaped(s, rest);
      assert text[1..] == Escape(s) + "\"" + rest;
    case Num(n) =>
      ReadPrintedInt(n, rest);
      var ds := if n < 0 then NatText(-n) else NatText(n);
      assert IsDigit(ds[0]);
      assert text[0] == if n < 0 then '-' else ds[0];
  }

  lemma ReadPrintedMember(m: (string, Value), rest: string, depth: nat)
    requires Scalar(m.1)
    requires rest != "" && rest[0] in {',', '}'}
    ensures ReadMember(PrintMember(m) + rest, depth) == Some((m, rest))
  {
    hide ReadString, ReadValue, Escape, PrintScalar;
    var text := PrintMember(m) + rest;
    var after := PrintScalar(m.1) + rest;
    assert text[0] == '"' && text[1..] == Escape(m.0) + "\"" + (":" + after);
    ReadEscaped(m.0, ":" + after);
    assert (":" + after)[1..] == after;
    ReadPrintedScalar(m.1, rest, depth);
    assert m == (m.0, m.1);
  }

  lemma {:induction false} ReadPrintedMembers(ms: Members, rest: string, depth: nat, acc: Hash)
    requires ms != [] && FlatMembers(ms)
    ensures ReadMembers(PrintMembers(ms) + rest, depth, acc) == Some((ToHash(acc, ms), rest))
    decreases |ms|
  {
    hide ReadMember, PrintMember;
    var acc' := acc[ms[0].0 := ms[0].1];
    var text := PrintMembers(ms) + rest;
    if |ms| == 1 {
      assert text == PrintMember(ms[0]) + ("}" + rest);
      ReadPrintedMember(ms[0], "}" + rest, depth);
      assert ToHash(acc', ms[1..]) == acc';
    } else {
      var tail := PrintMembers(ms[1..]) + rest;
      assert text == PrintMember(ms[0]) + ("," + tail);
      ReadPrintedMember(ms[0], "," + tail, depth);
      PrintedMemberStart(ms[1..]);
      assert tail[0] == '"';
      assert ("," + tail)[1..] == tail;
      ReadPrintedMembers(ms[1..], rest, depth, acc');
    }
  }

  lemma PrintedMemberStart(ms: Members)
    requires ms != [] && FlatMembers(ms)
    ensures PrintMembers(ms) != "" && PrintMembers(ms)[0] == '"'
  {
    assert PrintMember(ms[0])[0] == '"';
  }

  /** JSON.parse undoes JSON.generate: the hash read back holds the printed members. */
  lemma ParseGenerate(ms: Members)
    requires ms != [] && FlatMembers(ms)
    ensures Parse(Generate(ms)) == Some(Obj(ToHash(map[], ms)))
  {
    hide ReadMembers, PrintMembers, ToHash;
    var text := Generate(ms);
    assert text[1..] == PrintMembers(ms);
    assert PrintMembers(ms) + "" == PrintMembers(ms);
    PrintedMemberStart(ms);
    ReadPrintedMembers(ms, "", MAX_NESTING - 1, map[]);
  }
}
