/** JSON.parse on every document with integers for numbers, printed with white space wherever it is allowed. */
module JsonDocuments {
  import opened Wrappers
  import opened Text
  import opened Json
  import opened JsonText

  /** A document as written: members in order, and keys that may repeat. */
  datatype Doc =
    | Nil
    | Truth(b: bool)
    | Integer(n: int)
    | Words(s: string)
    | List(items: seq<Doc>)
    | Members(members: seq<Member>)

  datatype Member = Member(key: string, value: Doc)

  predicate Gap(g: string) {
    forall i | 0 <= i < |g| :: g[i] in [' ', '\t', '\n', '\r']
  }

  function Print(d: Doc, g: string): string
    decreases d, 0
  {
    match d
    case Nil => "null"
    case Truth(b) => if b then "true" else "false"
    case Integer(n) => IntText(n)
    case Words(s) => Quote(s)
    case List(items) => "[" + g + (if items == [] then "]" else PrintItems(items, g))
    case Members(members) => "{" + g + (if members == [] then "}" else PrintMemberList(members, g))
  }

  function PrintItems(items: seq<Doc>, g: string): string
    requires items != []
    decreases items, 1
  {
    Print(items[0], g) + (g + if |items| == 1 then "]" else "," + g + PrintItems(items[1..], g))
  }

  function PrintMemberList(members: seq<Member>, g: string): string
    requires members != []
    decreases members, 1
  {
    var m := members[0];
    PrintMember(m, g) + (g + if |members| == 1 then "}" else "," + g + PrintMemberList(members[1..], g))
  }

  function PrintMember(m: Member, g: string): string
    decreases m, 0
  {
    Quote(m.key) + g + ":" + g + Print(m.value, g)
  }

  /** What the document means; a later member replaces an earlier one of the same key. */
  function ValueOf(d: Doc): Value
    decreases d, 0
  {
    match d
    case Nil => Null
    case Truth(b) => Bool(b)
    case Integer(n) => Num(n)
    case Words(s) => Str(s)
    case List(items) => Arr(ItemsOf(items))
    case Members(members) => Obj(HashOf(map[], members))
  }

  function ItemsOf(items: seq<Doc>): seq<Value>
    decreases items, 1
  {
    if items == [] then [] else [ValueOf(items[0])] + ItemsOf(items[1..])
  }

  function HashOf(acc: Hash, members: seq<Member>): Hash
    decreases members, 1
  {
    if members == [] then acc else HashOf(acc[members[0].key := ValueOf(members[0].value)], members[1..])
  }

  function Larger(a: nat, b: nat): nat {
    if a < b then b else a
  }

  /** How deep lists and objects are nested. */
  function Height(d: Doc): nat
    decreases d, 0
  {
    match d
    case List(items) => 1 + ItemsHeight(items)
    case Members(members) => 1 + MembersHeight(members)
    case _ => 0
  }

  function ItemsHeight(items: seq<Doc>): nat
    decreases items, 1
  {
    if items == [] then 0 else Larger(Height(items[0]), ItemsHeight(items[1..]))
  }

  function MembersHeight(members: seq<Member>): nat
    decreases members, 1
  {
    if members == [] then 0 else Larger(Height(members[0].value), MembersHeight(members[1..]))
  }

  /** What may follow a value: the end, white space, or a mark that closes or goes on. */
  predicate After(rest: string) {
    rest != "" ==> rest[0] in [' ', '\t', '\n', '\r', ',', ']', '}']
  }

  lemma {:induction false} SkipGap(g: string, rest: string)
    requires Gap(g) && (rest != "" ==> !JsonSpace(rest[0]))
    ensures SkipSpace(g + rest) == rest
  {
    if g == "" {
      assert g + rest == rest;
    } else {
      assert (g + rest)[1..] == g[1..] + rest;
      SkipGap(g[1..], rest);
    }
  }

  lemma GapBefore(g: string, mark: string)
    requires Gap(g) && mark != "" && mark[0] in [',', ']', '}']
    ensures After(g + mark) && SkipSpace(g + mark) == mark
  {
    SkipGap(g, mark);
  }

  lemma PrintedStart(d: Doc, g: string)
    ensures Print(d, g) != "" && !JsonSpace(Print(d, g)[0]) && Print(d, g)[0] !in [']', '}']
  {
    if d.Integer? {
      var ds := NatText(if d.n < 0 then -d.n else d.n);
      assert IsDigit(ds[0]);
      assert IntText(d.n)[0] == if d.n < 0 then '-' else ds[0];
    }
  }

  lemma ReadAtom(d: Doc, g: string, rest: string, depth: nat)
    requires !d.List? && !d.Members? && After(rest)
    ensures ReadValue(Print(d, g) + rest, depth) == Some((ValueOf(d), rest))
  {
    hide ReadString, ReadNumber, Escape, NatText;
    var text := Print(d, g) + rest;
    match d
    case Nil =>
      assert text[4..] == rest;
    case Truth(b) =>
      assert text[0] == if b then 't' else 'f';
      assert b ==> text[..4] == "true" && text[4..] == rest;
      assert !b ==> text[..5] == "false" && text[5..] == rest;
    case Words(s) =>
      ReadEscaped(s, rest);
      assert text[1..] == Escape(s) + "\"" + rest;
    case Integer(n) =>
      ReadPrintedInt(n, rest);
      var ds := if n < 0 then NatText(-n) else NatText(n);
      assert IsDigit(ds[0]);
      assert text[0] == if n < 0 then '-' else ds[0];
  }

  /** Reading a printed value gives what it means and stops right after it, unless it is nested too deep. */
  lemma {:induction false} ReadDocument(d: Doc, g: string, rest: string, depth: nat)
    requires Gap(g) && After(rest)
    ensures ReadValue(Print(d, g) + rest, depth) == if Height(d) <= depth then Some((ValueOf(d), rest)) else None
    decreases d, 0
  {
    hide ReadItems, ReadMembers, ReadString, ReadNumber, PrintItems, PrintMemberList, ReadValue;
    match d
    case List(items) =>
      if items == [] {
        ReadEmpty("[", g, "]", rest, depth);
      } else {
        PrintedItemsStart(items, g);
        ReadOpened("[", g, PrintItems(items, g), rest, depth);
        if depth > 0 {
          ReadDocItems(items, g, rest, depth - 1);
        }
      }
    case Members(members) =>
      if members == [] {
        ReadEmpty("{", g, "}", rest, depth);
      } else {
        PrintedMembersStart(members, g);
        ReadOpened("{", g, PrintMemberList(members, g), rest, depth);
        if depth > 0 {
          ReadDocMembers(members, g, rest, depth - 1, map[]);
        }
      }
    case _ =>
      ReadAtom(d, g, rest, depth);
  }

  lemma ReadEmpty(open: string, g: string, close: string, rest: string, depth: nat)
    requires Gap(g) && ((open == "[" && close == "]") || (open == "{" && close == "}"))
    ensures ReadValue(open + g + close + rest, depth)
         == if depth == 0 then None else Some((if open == "[" then Arr([]) else Obj(map[]), rest))
  {
    var text := open + g + close + rest;
    SkipGap(g, close + rest);
    assert text[1..] == g + (close + rest) && (close + rest)[1..] == rest;
  }

  lemma ReadOpened(open: string, g: string, inner: string, rest: string, depth: nat)
    requires Gap(g) && (open == "[" || open == "{")
    requires inner != "" && !JsonSpace(inner[0]) && inner[0] !in [']', '}']
    ensures ReadValue(open + g + inner + rest, depth)
         == if depth == 0 then None
            else if open == "[" then
              match ReadItems(inner + rest, depth - 1) case None => None case Some(r) => Some((Arr(r.0), r.1))
            else
              match ReadMembers(inner + rest, depth - 1, map[]) case None => None case Some(r) => Some((Obj(r.0), r.1))
  {
    hide ReadItems, ReadMembers;
    var text := open + g + inner + rest;
    SkipGap(g, inner + rest);
    assert text[1..] == g + (inner + rest);
  }

  lemma PrintedItemsStart(items: seq<Doc>, g: string)
    requires items != []
    ensures PrintItems(items, g) != "" && !JsonSpace(PrintItems(items, g)[0]) && PrintItems(items, g)[0] !in [']', '}']
  {
    PrintedStart(items[0], g);
  }

  lemma PrintedMembersStart(members: seq<Member>, g: string)
    requires members != []
    ensures PrintMemberList(members, g) != "" && PrintMemberList(members, g)[0] == '"'
  {
    assert PrintMember(members[0], g)[0] == '"';
  }

  /** What reading the items comes to after one value: the end of the list, or the next item. */
  lemma ItemRead(text: string, depth: nat, v: (Value, string), after: string)
    requires ReadValue(text, depth) == Some(v)
    ensures SkipSpace(v.1) == "]" + after ==> ReadItems(text, depth) == Some(([v.0], after))
    ensures SkipSpace(v.1) == "," + after ==>
              ReadItems(text, depth)
                == match ReadItems(SkipSpace(after), depth)
                   case Some(more) => Some(([v.0] + more.0, more.1))
                   case None => None
  {
    hide ReadValue, SkipSpace;
    assert ("]" + after)[1..] == after && ("," + after)[1..] == after;
  }

  lemma NoItemRead(text: string, depth: nat)
    requires ReadValue(text, depth) == None
    ensures ReadItems(text, depth) == None
  {
    hide ReadValue;
  }

  lemma Tack(a: string, g: string, b: string, rest: string)
    ensures a + (g + b) + rest == a + (g + (b + rest))
  {
  }

  lemma Comma(g: string, b: string, rest: string)
    ensures "," + g + b + rest == "," + (g + (b + rest))
  {
  }

  /** The text of items, up to the first mark. */
  lemma ItemsText(items: seq<Doc>, g: string, rest: string)
    requires items != []
    ensures PrintItems(items, g) + rest
         == Print(items[0], g)
            + (g + if |items| == 1 then "]" + rest else "," + (g + (PrintItems(items[1..], g) + rest)))
  {
    hide Print;
    if |items| == 1 {
      Tack(Print(items[0], g), g, "]", rest);
    } else {
      Tack(Print(items[0], g), g, "," + g + PrintItems(items[1..], g), rest);
      Comma(g, PrintItems(items[1..], g), rest);
    }
  }

  lemma ItemsStep(items: seq<Doc>)
    requires items != []
    ensures ItemsHeight(items) == Larger(Height(items[0]), ItemsHeight(items[1..]))
    ensures ItemsOf(items) == [ValueOf(items[0])] + ItemsOf(items[1..])
    ensures |items| == 1 ==> ItemsHeight(items) == Height(items[0]) && ItemsOf(items) == [ValueOf(items[0])]
  {
    if |items| == 1 {
      assert items[1..] == [];
    }
  }

  lemma {:induction false} ReadDocItems(items: seq<Doc>, g: string, rest: string, depth: nat)
    requires Gap(g) && items != []
    ensures ReadItems(PrintItems(items, g) + rest, depth)
         == if ItemsHeight(items) <= depth then Some((ItemsOf(items), rest)) else None
    decreases items, 1
  {
    hide ReadValue, Print, ValueOf, Height, ReadItems, PrintItems, ItemsHeight, ItemsOf, SkipSpace;
    var d := items[0];
    var text := PrintItems(items, g) + rest;
    var tail := if |items| == 1 then rest else PrintItems(items[1..], g) + rest;
    var mark := if |items| == 1 then "]" + rest else "," + (g + tail);
    ItemsText(items, g, rest);
    ItemsStep(items);
    GapBefore(g, mark);
    ReadDocument(d, g, g + mark, depth);
    if Height(d) > depth {
      NoItemRead(text, depth);
    } else if |items| == 1 {
      ItemRead(text, depth, (ValueOf(d), g + mark), rest);
    } else {
      ItemRead(text, depth, (ValueOf(d), g + mark), g + tail);
      PrintedItemsStart(items[1..], g);
      SkipGap(g, tail);
      ReadDocItems(items[1..], g, rest, depth);
    }
  }

  lemma MemberRead(text: string, depth: nat, acc: Hash, m: ((string, Value), string), after: string)
    requires ReadMember(text, depth) == Some(m)
    ensures SkipSpace(m.1) == "}" + after ==> ReadMembers(text, depth, acc) == Some((acc[m.0.0 := m.0.1], after))
    ensures SkipSpace(m.1) == "," + after ==>
              ReadMembers(text, depth, acc) == ReadMembers(SkipSpace(after), depth, acc[m.0.0 := m.0.1])
  {
    hide ReadMember, SkipSpace;
    assert ("}" + after)[1..] == after && ("," + after)[1..] == after;
  }

  lemma NoMemberRead(text: string, depth: nat, acc: Hash)
    requires ReadMember(text, depth) == None
    ensures ReadMembers(text, depth, acc) == None
  {
    hide ReadMember;
  }

  lemma MembersText(members: seq<Member>, g: string, rest: string)
    requires members != []
    ensures PrintMemberList(members, g) + rest
         == PrintMember(members[0], g)
            + (g + if |members| == 1 then "}" + rest else "," + (g + (PrintMemberList(members[1..], g) + rest)))
  {
    hide PrintMember;
    if |members| == 1 {
      Tack(PrintMember(members[0], g), g, "}", rest);
    } else {
      Tack(PrintMember(members[0], g), g, "," + g + PrintMemberList(members[1..], g), rest);
      Comma(g, PrintMemberList(members[1..], g), rest);
    }
  }

  lemma MembersStep(members: seq<Member>, acc: Hash)
    requires members != []
    ensures MembersHeight(members) == Larger(Height(members[0].value), MembersHeight(members[1..]))
    ensures HashOf(acc, members) == HashOf(acc[members[0].key := ValueOf(members[0].value)], members[1..])
    ensures |members| == 1 ==>
              && MembersHeight(members) == Height(members[0].value)
              && HashOf(acc, members) == acc[members[0].key := ValueOf(members[0].value)]
  {
    if |members| == 1 {
      assert members[1..] == [];
    }
  }

  lemma {:induction false} ReadDocMembers(members: seq<Member>, g: string, rest: string, depth: nat, acc: Hash)
    requires Gap(g) && members != []
    ensures ReadMembers(PrintMemberList(members, g) + rest, depth, acc)
         == if MembersHeight(members) <= depth then Some((HashOf(acc, members), rest)) else None
    decreases members, 1
  {
    hide ReadValue, Print, PrintMember, ValueOf, Height, ReadMembers, PrintMemberList, ReadMember, MembersHeight,
         HashOf, SkipSpace;
    var Member(key, d) := members[0];
    var text := PrintMemberList(members, g) + rest;
    var tail := if |members| == 1 then rest else PrintMemberList(members[1..], g) + rest;
    var mark := if |members| == 1 then "}" + rest else "," + (g + tail);
    MembersText(members, g, rest);
    MembersStep(members, acc);
    GapBefore(g, mark);
    ReadDocument(d, g, g + mark, depth);
    ReadDocMember(key, d, g, g + mark, depth);
    if Height(d) > depth {
      NoMemberRead(text, depth, acc);
    } else if |members| == 1 {
      MemberRead(text, depth, acc, ((key, ValueOf(d)), g + mark), rest);
    } else {
      MemberRead(text, depth, acc, ((key, ValueOf(d)), g + mark), g + tail);
      PrintedMembersStart(members[1..], g);
      SkipGap(g, tail);
      ReadDocMembers(members[1..], g, rest, depth, acc[key := ValueOf(d)]);
    }
  }

  lemma ReadDocMember(key: string, value: Doc, g: string, rest: string, depth: nat)
    requires Gap(g)
    ensures ReadMember(PrintMember(Member(key, value), g) + rest, depth)
         == match ReadValue(Print(value, g) + rest, depth)
            case Some(v) => Some(((key, v.0), v.1))
            case None => None
  {
    hide ReadValue, ReadString, Escape;
    PrintedStart(value, g);
    hide Print;
    var after := Print(value, g) + rest;
    var colon := ":" + g + after;
    var text := Quote(key) + g + ":" + g + Print(value, g) + rest;
    assert text == Quote(key) + (g + colon);
    assert text[0] == '"' && text[1..] == Escape(key) + "\"" + (g + colon);
    ReadEscaped(key, g + colon);
    SkipGap(g, colon);
    assert colon[1..] == g + after;
    SkipGap(g, after);
  }

  /** JSON.parse gives every document its value, whatever the white space in it, up to a hundred levels of
      nesting, and refuses deeper ones. */
  lemma ParseDocument(d: Doc, g: string)
    requires Gap(g)
    ensures Parse(g + Print(d, g) + g) == if Height(d) <= 100 then Some(ValueOf(d)) else None
  {
    hide ReadValue, Print;
    PrintedStart(d, g);
    assert g + Print(d, g) + g == g + (Print(d, g) + g);
    SkipGap(g, Print(d, g) + g);
    ReadDocument(d, g, g, 100);
    SkipGap(g, "");
    assert g + "" == g;
  }

  // Escapes a string may hold that are never printed

  /** A solidus, any character of the basic plane by its code in either case, and others by a surrogate pair. */
  lemma ReadOtherEscapes(c: char, rest: string)
    ensures ReadEscape("/" + rest) == Some(('/', rest))
    ensures var n := c as int;
            n < 0x10000 ==> ReadEscape("u" + Hex4(n) + rest) == Some((c, rest))
    ensures var n := c as int;
            n >= 0x10000 ==>
              ReadEscape("u" + Hex4(0xD800 + (n - 0x10000) / 1024) + "\\u" + Hex4(0xDC00 + (n - 0x10000) % 1024) + rest)
                == Some((c, rest))
  {
    hide ReadHex4, Hex4;
    var n := c as int;
    assert ("/" + rest)[1..] == rest;
    if n < 0x10000 {
      ReadHexOf(n, rest);
      var s := "u" + Hex4(n) + rest;
      assert s[1..] == Hex4(n) + rest && s[5..] == rest;
    } else {
      var hi, lo := 0xD800 + (n - 0x10000) / 1024, 0xDC00 + (n - 0x10000) % 1024;
      var low := Hex4(lo) + rest;
      var s := "u" + Hex4(hi) + "\\u" + Hex4(lo) + rest;
      ReadHexOf(hi, "\\u" + low);
      ReadHexOf(lo, rest);
      assert s[1..] == Hex4(hi) + ("\\u" + low) && s[5] == '\\' && s[6] == 'u' && s[7..] == low && s[11..] == rest;
    }
  }

  /** Four hexadecimal digits, upper case. */
  function Hex4(n: int): (s: string)
    requires 0 <= n < 0x10000
    ensures |s| == 4
  {
    [Hex(n / 4096), Hex(n / 256 % 16), Hex(n / 16 % 16), Hex(n % 16)]
  }

  function Hex(d: int): (c: char)
    requires 0 <= d < 16
    ensures HexValue(c) == Some(d)
  {
    if d < 10 then (d + 48) as char else (d + 55) as char
  }

  lemma ReadHexOf(n: int, rest: string)
    requires 0 <= n < 0x10000
    ensures ReadHex4(Hex4(n) + rest) == Some(n)
  {
    var s := Hex4(n) + rest;
    var q := n / 16;
    var p := q / 16;
    assert n == q * 16 + n % 16 && q == p * 16 + q % 16 && p == p / 16 * 16 + p % 16;
    assert n / 256 == p && n / 4096 == p / 16;
    hide Hex, HexValue;
    assert s[0] == Hex(n / 4096) && s[1] == Hex(n / 256 % 16) && s[2] == Hex(n / 16 % 16) && s[3] == Hex(n % 16);
  }

  // What is refused, and how control characters are printed

  /** The short escapes of section 7 where there is one. */
  lemma ShortEscapes()
    ensures EscapeChar(8 as char) == "\\b" && EscapeChar('\t') == "\\t" && EscapeChar('\n') == "\\n"
    ensures EscapeChar(12 as char) == "\\f" && EscapeChar('\r') == "\\r"
  {
  }

  /** A raw control character in a string, half a surrogate pair, a leading zero, and a fraction or an exponent. */
  lemma ReaderRefuses(c: char, hi: int, n: nat, mark: char, rest: string)
    ensures c as int < 32 ==> ReadString([c] + rest) == None
    ensures 0xD800 <= hi < 0xE000 && !("\\u" <= rest) ==> ReadEscape("u" + Hex4(hi) + rest) == None
    ensures ReadNumber("0" + NatText(n) + rest) == None
    ensures mark in ['.', 'e', 'E'] ==> ReadNumber(NatText(n) + [mark] + rest) == None
  {
    if 0xD800 <= hi < 0xE000 && !("\\u" <= rest) {
      HalfPair(hi, rest);
    }
    LeadingZero(n, rest);
    if mark in ['.', 'e', 'E'] {
      Fraction(n, mark, rest);
    }
  }

  lemma HalfPair(hi: int, rest: string)
    requires 0xD800 <= hi < 0xE000 && !("\\u" <= rest)
    ensures ReadEscape("u" + Hex4(hi) + rest) == None
  {
    hide ReadHex4, Hex4;
    ReadHexOf(hi, rest);
    var s := "u" + Hex4(hi) + rest;
    assert s[1..] == Hex4(hi) + rest && s[5..] == rest;
    assert |rest| >= 2 && rest[0] == '\\' && rest[1] == 'u' ==> "\\u" <= rest;
  }

  lemma LeadingZero(n: nat, rest: string)
    ensures ReadNumber("0" + NatText(n) + rest) == None
  {
    hide NatText, NatValue;
    var s := "0" + NatText(n) + rest;
    var digits := NatText(n);
    assert s[0] == '0' && s[1] == digits[0] && IsDigit(digits[0]);
    assert s[1..][0] == s[1];
    assert DigitSpan(s) == 1 + DigitSpan(s[1..]) && DigitSpan(s[1..]) >= 1;
  }

  lemma Fraction(n: nat, mark: char, rest: string)
    requires mark in ['.', 'e', 'E']
    ensures ReadNumber(NatText(n) + [mark] + rest) == None
  {
    hide NatText, NatValue, DigitSpan;
    var digits := NatText(n);
    DigitSpanOfPrefix(digits, [mark] + rest);
    assert digits + [mark] + rest == digits + ([mark] + rest);
    assert IsDigit(digits[0]) && (digits + [mark] + rest)[|digits|] == mark;
  }
}
