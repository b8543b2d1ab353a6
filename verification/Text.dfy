/** Decimal integers and blank strings, as Ruby prints and tests them. */
module Text {

  predicate IsDigit(c: char) {
    '0' <= c <= '9'
  }

  function DigitChar(d: int): (c: char)
    requires 0 <= d < 10
    ensures IsDigit(c) && DigitValue(c) == d
  {
    (d + 48) as char
  }

  function DigitValue(c: char): (d: int)
    requires IsDigit(c)
    ensures 0 <= d < 10
  {
    c as int - 48
  }

  ghost predicate AllDigits(s: string) {
    forall c | c in s :: IsDigit(c)
  }

  function NatText(n: nat): (s: string)
    ensures s != "" && AllDigits(s)
    ensures n > 0 ==> s[0] != '0'
    ensures n == 0 ==> s == "0"
  {
    if n < 10 then [DigitChar(n)] else NatText(n / 10) + [DigitChar(n % 10)]
  }

  function IntText(n: int): string {
    if n < 0 then "-" + NatText(-n) else NatText(n)
  }

  /** The value of a run of decimal digits. */
  function NatValue(s: string): nat
    requires AllDigits(s)
  {
    if s == "" then 0
    else NatValue(s[..|s| - 1]) * 10 + DigitValue(s[|s| - 1])
  }

  lemma {:induction false} NatValueOfText(n: nat)
    ensures NatValue(NatText(n)) == n
  {
    if n >= 10 {
      NatValueOfText(n / 10);
      assert NatText(n)[..|NatText(n)| - 1] == NatText(n / 10);
    }
  }

  /** Printing an integer loses nothing. */
  lemma IntTextInjective(a: int, b: int)
    requires IntText(a) == IntText(b)
    ensures a == b
  {
    var Abs := (x: int) => if x < 0 then -x else x;
    assert (a < 0) == (b < 0) by {
      assert a < 0 ==> IntText(a)[0] == '-';
      assert b < 0 ==> IntText(b)[0] == '-';
      assert a >= 0 ==> IsDigit(NatText(a)[0]);
      assert b >= 0 ==> IsDigit(NatText(b)[0]);
    }
    if a < 0 {
      assert IntText(a)[1..] == NatText(-a);
      assert IntText(b)[1..] == NatText(-b);
    }
    NatValueOfText(Abs(a));
    NatValueOfText(Abs(b));
  }

  /** How many digits a text starts with. */
  function DigitSpan(s: string): (k: nat)
    ensures k <= |s|
    ensures AllDigits(s[..k])
    ensures k < |s| ==> !IsDigit(s[k])
  {
    if s == "" || !IsDigit(s[0]) then 0
    else
      var k := 1 + DigitSpan(s[1..]);
      assert s[..k] == [s[0]] + s[1..][..k - 1];
      k
  }

  /** Digits followed by something else: the digits are the whole span. */
  lemma {:induction false} DigitSpanOfPrefix(ds: string, rest: string)
    requires AllDigits(ds)
    requires rest == "" || !IsDigit(rest[0])
    ensures DigitSpan(ds + rest) == |ds|
  {
    if ds == "" {
      assert ds + rest == rest;
    } else {
      assert (ds + rest)[1..] == ds[1..] + rest;
      DigitSpanOfPrefix(ds[1..], rest);
    }
  }

  /** The characters of POSIX [[:space:]] in Unicode text. */
  predicate IsSpace(c: char) {
    var n := c as int;
    || 0x09 <= n <= 0x0D || n == 0x20 || n == 0x85 || n == 0xA0 || n == 0x1680
    || 0x2000 <= n <= 0x200A || n == 0x2028 || n == 0x2029 || n == 0x202F || n == 0x205F || n == 0x3000
  }

  /** The characters one by one. */
  lemma SpaceCodes(c: char)
    ensures var spaces := [ 0x09, 0x0A, 0x0B, 0x0C, 0x0D, 0x20, 0x85, 0xA0, 0x1680, 0x2000, 0x2001, 0x2002, 0x2003,
                            0x2004, 0x2005, 0x2006, 0x2007, 0x2008, 0x2009, 0x200A, 0x2028, 0x2029, 0x202F, 0x205F,
                            0x3000 ];
            IsSpace(c) <==> c as int in spaces
  {
  }

  /** String#blank?: empty, or white space only. */
  predicate BlankText(s: string) {
    forall i | 0 <= i < |s| :: IsSpace(s[i])
  }

  /** Array#join. */
  function Join(parts: seq<string>, separator: char): string {
    if parts == [] then ""
    else if |parts| == 1 then parts[0]
    else parts[0] + [separator] + Join(parts[1..], separator)
  }
}
