/** Conditional GET validators of a single resource (If-None-Match, section 13.1.2 of RFC 9110). */
module Fingerprint {
  import opened Wrappers
  import opened Text

  // Joining

  ghost predicate Lacks(s: string, c: char) {
    forall i | 0 <= i < |s| :: s[i] != c
  }

  /** Up to a separator, two joined texts can only agree part by part. */
  lemma SplitAtSeparator(a: string, rest: string, b: string, rest': string, c: char)
    requires Lacks(a, c) && Lacks(b, c) && a + [c] + rest == b + [c] + rest'
    ensures a == b && rest == rest'
  {
    var s := a + [c] + rest;
    var t := b + [c] + rest';
    assert s[|a|] == c && t[|b|] == c;
    assert forall i | 0 <= i < |a| :: s[i] == a[i];
    assert forall i | 0 <= i < |b| :: t[i] == b[i];
    assert |a| == |b|;
    assert a == s[..|a|] && b == t[..|b|] && rest == s[|a| + 1..] && rest' == t[|b| + 1..];
  }

  /** Parts without the separator are recovered from the join, whatever follows them. */
  lemma {:induction false} JoinPrefix(
    parts: seq<string>, parts': seq<string>, tail: seq<string>, tail': seq<string>, c: char
  )
    requires |parts| == |parts'|
    requires (forall p | p in parts :: Lacks(p, c)) && (forall p | p in parts' :: Lacks(p, c))
    requires Join(parts + tail, c) == Join(parts' + tail', c)
    ensures parts == parts'
    decreases |parts|
  {
    if parts != [] {
      var all, all' := parts + tail, parts' + tail';
      assert all[1..] == parts[1..] + tail && all'[1..] == parts'[1..] + tail';
      assert all[0] == parts[0] && parts[0] in parts && all'[0] == parts'[0] && parts'[0] in parts';
      assert |all| > 1 ==> Join(all, c)[|parts[0]|] == c;
      assert |all'| > 1 ==> Join(all', c)[|parts'[0]|] == c;
      if |all| > 1 && |all'| > 1 {
        SplitAtSeparator(parts[0], Join(all[1..], c), parts'[0], Join(all'[1..], c), c);
        JoinPrefix(parts[1..], parts'[1..], tail, tail', c);
      }
      assert parts == [parts[0]] + parts[1..] && parts' == [parts'[0]] + parts'[1..];
    }
  }

  /** Without following parts the lengths must agree too. */
  lemma {:induction false} JoinInjective(a: seq<string>, b: seq<string>, c: char)
    requires (forall p | p in a :: Lacks(p, c) && p != "") && (forall p | p in b :: Lacks(p, c) && p != "")
    requires Join(a, c) == Join(b, c)
    ensures a == b
    decreases |a|
  {
    if |a| > 1 && |b| > 1 {
      SplitAtSeparator(a[0], Join(a[1..], c), b[0], Join(b[1..], c), c);
      JoinInjective(a[1..], b[1..], c);
      assert a == [a[0]] + a[1..] && b == [b[0]] + b[1..];
    } else {
      assert |a| > 1 ==> Join(a, c)[|a[0]|] == c;
      assert |b| > 1 ==> Join(b, c)[|b[0]|] == c;
      assert |a| == 1 ==> Lacks(Join(a, c), c) && Join(a, c) == a[0] && a == [a[0]];
      assert |b| == 1 ==> Lacks(Join(b, c), c) && Join(b, c) == b[0] && b == [b[0]];
    }
  }

  // Times

  function Pow10(n: nat): nat {
    if n == 0 then 1 else 10 * Pow10(n - 1)
  }

  /** The last `width` decimal digits. */
  function FixedText(n: nat, width: nat): (s: string)
    ensures |s| == width && AllDigits(s)
  {
    if width == 0 then "" else FixedText(n / 10, width - 1) + [DigitChar(n % 10)]
  }

  lemma {:induction false} FixedInjective(n: nat, m: nat, width: nat)
    requires n < Pow10(width) && m < Pow10(width) && FixedText(n, width) == FixedText(m, width)
    ensures n == m
  {
    if width > 0 {
      var s, t := FixedText(n, width), FixedText(m, width);
      assert s[..width - 1] == FixedText(n / 10, width - 1) && s[width - 1] == DigitChar(n % 10);
      assert t[..width - 1] == FixedText(m / 10, width - 1) && t[width - 1] == DigitChar(m % 10);
      FixedInjective(n / 10, m / 10, width - 1);
      assert DigitValue(DigitChar(n % 10)) == DigitValue(DigitChar(m % 10));
    }
  }

  /** Trailing zeros dropped, down to one digit. */
  function Strip(s: string): (r: string)
    requires s != ""
    ensures r != "" && |r| <= |s|
    ensures s == r + seq(|s| - |r|, _ => '0')
    ensures |r| > 1 ==> r[|r| - 1] != '0'
  {
    if |s| > 1 && s[|s| - 1] == '0' then
      var r := Strip(s[..|s| - 1]);
      assert s == s[..|s| - 1] + ['0'];
      r
    else s
  }

  lemma StripInjective(s: string, t: string)
    requires |s| == |t| > 0 && Strip(s) == Strip(t)
    ensures s == t
  {
  }

  /** Time#to_f of a time in whole microseconds since 1970, as Ruby prints it. */
  function FloatText(micros: nat): string {
    NatText(micros / 1000000) + "." + Strip(FixedText(micros % 1000000, 6))
  }

  lemma FloatTextInjective(a: nat, b: nat)
    requires FloatText(a) == FloatText(b)
    ensures a == b
  {
    assert Lacks(NatText(a / 1000000), '.') by { DigitsLack(NatText(a / 1000000), '.'); }
    assert Lacks(NatText(b / 1000000), '.') by { DigitsLack(NatText(b / 1000000), '.'); }
    var f, g := FixedText(a % 1000000, 6), FixedText(b % 1000000, 6);
    SplitAtSeparator(NatText(a / 1000000), Strip(f), NatText(b / 1000000), Strip(g), '.');
    NatValueOfText(a / 1000000);
    NatValueOfText(b / 1000000);
    StripInjective(f, g);
    assert Pow10(6) == 1000000;
    FixedInjective(a % 1000000, b % 1000000, 6);
  }

  lemma DigitsLack(s: string, c: char)
    requires AllDigits(s) && !IsDigit(c)
    ensures Lacks(s, c)
  {
    assert forall i | 0 <= i < |s| :: s[i] in s;
  }

  lemma FloatTextLacksSlash(micros: nat)
    ensures Lacks(FloatText(micros), '/')
  {
    var whole, fraction := NatText(micros / 1000000), FixedText(micros % 1000000, 6);
    DigitsLack(whole, '/');
    DigitsLack(fraction, '/');
    assert forall i | 0 <= i < |Strip(fraction)| :: Strip(fraction)[i] == fraction[i];
  }

  // Locales

  predicate TextBefore(a: string, b: string)
    decreases |a|
  {
    a == "" || (b != "" && (a[0] < b[0] || (a[0] == b[0] && TextBefore(a[1..], b[1..]))))
  }

  function Insert(x: string, xs: seq<string>): (r: seq<string>)
    ensures multiset(r) == multiset(xs) + multiset{x}
  {
    if xs == [] || TextBefore(x, xs[0]) then [x] + xs
    else
      assert xs == [xs[0]] + xs[1..];
      [xs[0]] + Insert(x, xs[1..])
  }

  function Sort(xs: seq<string>): (r: seq<string>)
    ensures multiset(r) == multiset(xs)
  {
    if xs == [] then []
    else
      assert xs == [xs[0]] + xs[1..];
      Insert(xs[0], Sort(xs[1..]))
  }

  ghost predicate Sorted(xs: seq<string>) {
    forall i, j | 0 <= i < j < |xs| :: TextBefore(xs[i], xs[j])
  }

  lemma {:induction false} TextOrder(a: string, b: string, c: string)
    ensures TextBefore(a, b) || TextBefore(b, a)
    ensures TextBefore(a, b) && TextBefore(b, a) ==> a == b
    ensures TextBefore(a, b) && TextBefore(b, c) ==> TextBefore(a, c)
    decreases |a|
  {
    if a != "" && b != "" {
      assert a == [a[0]] + a[1..] && b == [b[0]] + b[1..];
      TextOrder(a[1..], b[1..], if c == "" then "" else c[1..]);
    }
  }

  lemma {:induction false} InsertSorts(x: string, xs: seq<string>)
    requires Sorted(xs)
    ensures Sorted(Insert(x, xs))
  {
    if xs != [] {
      TextOrder(x, xs[0], "");
      if TextBefore(x, xs[0]) {
        forall j | 0 <= j < |xs| ensures TextBefore(x, xs[j]) {
          TextOrder(x, xs[0], xs[j]);
        }
      } else {
        InsertSorts(x, xs[1..]);
        var rest := Insert(x, xs[1..]);
        assert multiset(rest) == multiset(xs[1..]) + multiset{x};
        forall j | 0 <= j < |rest| ensures TextBefore(xs[0], rest[j]) {
          assert rest[j] in multiset(rest);
          assert rest[j] == x || rest[j] in xs[1..];
        }
      }
    }
  }

  lemma {:induction false} SortSorts(xs: seq<string>)
    ensures Sorted(Sort(xs))
  {
    if xs != [] {
      SortSorts(xs[1..]);
      InsertSorts(xs[0], Sort(xs[1..]));
    }
  }

  lemma SortedTail(xs: seq<string>)
    requires Sorted(xs) && xs != []
    ensures Sorted(xs[1..]) && multiset(xs) == multiset{xs[0]} + multiset(xs[1..])
  {
    assert xs == [xs[0]] + xs[1..];
  }

  lemma SortedHead(xs: seq<string>, x: string)
    requires Sorted(xs) && x in multiset(xs)
    ensures xs != [] && TextBefore(xs[0], x)
  {
    var i :| 0 <= i < |xs| && xs[i] == x;
    TextOrder(x, x, x);
  }

  lemma SortedHeadsAgree(xs: seq<string>, ys: seq<string>)
    requires Sorted(xs) && Sorted(ys) && multiset(xs) == multiset(ys) && xs != [] && ys != []
    ensures xs[0] == ys[0]
  {
    hide Sorted, TextBefore;
    assert xs[0] in multiset(xs) && ys[0] in multiset(ys);
    SortedHead(ys, xs[0]);
    SortedHead(xs, ys[0]);
    TextOrder(xs[0], ys[0], "");
  }

  lemma SameWithout(head: multiset<string>, a: multiset<string>, b: multiset<string>)
    requires head + a == head + b
    ensures a == b
  {
    assert head + a - head == a && head + b - head == b;
  }

  lemma {:induction false} SortedUnique(xs: seq<string>, ys: seq<string>)
    requires Sorted(xs) && Sorted(ys) && multiset(xs) == multiset(ys)
    ensures xs == ys
  {
    hide Sorted, TextBefore;
    assert |multiset(xs)| == |xs| && |multiset(ys)| == |ys|;
    if xs != [] {
      SortedHeadsAgree(xs, ys);
      SortedTail(xs);
      SortedTail(ys);
      SameWithout(multiset{xs[0]}, multiset(xs[1..]), multiset(ys[1..]));
      SortedUnique(xs[1..], ys[1..]);
      assert xs == [xs[0]] + xs[1..] && ys == [ys[0]] + ys[1..];
    }
  }

  /** Sorting forgets the order and nothing else. */
  lemma SortIsCanonical(a: seq<string>, b: seq<string>)
    ensures Sort(a) == Sort(b) <==> multiset(a) == multiset(b)
  {
    if multiset(a) == multiset(b) {
      SortSorts(a);
      SortSorts(b);
      SortedUnique(Sort(a), Sort(b));
    } else {
      assert multiset(Sort(a)) != multiset(Sort(b));
    }
  }

  // The ETag

  datatype Context = Context(
    organization: int,
    className: string,
    record: int,
    lastModified: nat,
    client: Option<int>,
    actAs: Option<int>,
    locales: seq<string>,
    segments: seq<string>
  )

  /** Class and locale names hold no separator. */
  ghost predicate ValidContext(c: Context) {
    && Lacks(c.className, '/')
    && forall l | l in c.locales :: l != "" && Lacks(l, '/') && Lacks(l, ',')
  }

  function OptionalIntText(n: Option<int>): string {
    match n case None => "" case Some(i) => IntText(i)
  }

  function FixedParts(c: Context): seq<string> {
    [ IntText(c.organization), c.className, IntText(c.record), FloatText(c.lastModified),
      OptionalIntText(c.client), OptionalIntText(c.actAs), Join(Sort(c.locales), ',') ]
  }

  function EtagInput(c: Context): string {
    Join(FixedParts(c) + c.segments, '/')
  }

  function Etag(sha256: string -> string, c: Context): string {
    "\"" + sha256(EtagInput(c)) + "\""
  }

  /** The text of the tag: seven parts, an absent client or actor as nothing, then the segments. */
  lemma EtagInputParts(c: Context)
    ensures EtagInput(c)
         == Join([ IntText(c.organization), c.className, IntText(c.record), FloatText(c.lastModified),
                   if c.client == None then "" else IntText(c.client.value),
                   if c.actAs == None then "" else IntText(c.actAs.value), Join(Sort(c.locales), ',') ]
                 + c.segments, '/')
  {
  }

  lemma IntTextLacks(n: int, c: char)
    requires !IsDigit(c) && c != '-'
    ensures Lacks(IntText(n), c) && IntText(n) != ""
  {
    var ds := NatText(if n < 0 then -n else n);
    DigitsLack(ds, c);
  }

  lemma {:induction false} JoinLacks(parts: seq<string>, separator: char, c: char)
    requires c != separator && forall p | p in parts :: Lacks(p, c)
    ensures Lacks(Join(parts, separator), c)
  {
    if parts != [] {
      assert parts[0] in parts;
      JoinLacks(parts[1..], separator, c);
    }
  }

  lemma SortedMembers(xs: seq<string>, x: string)
    ensures x in Sort(xs) <==> x in xs
  {
    assert x in multiset(Sort(xs)) <==> x in multiset(xs);
  }

  lemma FixedPartsLackSlash(c: Context)
    requires ValidContext(c)
    ensures forall p | p in FixedParts(c) :: Lacks(p, '/')
  {
    hide FloatText, Sort, Join;
    IntTextLacks(c.organization, '/');
    IntTextLacks(c.record, '/');
    FloatTextLacksSlash(c.lastModified);
    if c.client.Some? { IntTextLacks(c.client.value, '/'); }
    if c.actAs.Some? { IntTextLacks(c.actAs.value, '/'); }
    forall l | l in Sort(c.locales) ensures Lacks(l, '/') {
      SortedMembers(c.locales, l);
    }
    JoinLacks(Sort(c.locales), ',', '/');
  }

  ghost predicate SameRequest(a: Context, b: Context) {
    && a.organization == b.organization && a.className == b.className && a.record == b.record
    && a.lastModified == b.lastModified && a.client == b.client && a.actAs == b.actAs
    && multiset(a.locales) == multiset(b.locales)
  }

  lemma OptionalIntTextInjective(a: Option<int>, b: Option<int>)
    requires OptionalIntText(a) == OptionalIntText(b)
    ensures a == b
  {
    if a.Some? { IntTextLacks(a.value, '/'); }
    if b.Some? { IntTextLacks(b.value, '/'); }
    if a.Some? && b.Some? { IntTextInjective(a.value, b.value); }
  }

  lemma LocalesRecovered(a: seq<string>, b: seq<string>)
    requires forall l | l in a :: l != "" && Lacks(l, ',')
    requires forall l | l in b :: l != "" && Lacks(l, ',')
    requires Join(Sort(a), ',') == Join(Sort(b), ',')
    ensures multiset(a) == multiset(b)
  {
    forall l | l in Sort(a) ensures l != "" && Lacks(l, ',') { SortedMembers(a, l); }
    forall l | l in Sort(b) ensures l != "" && Lacks(l, ',') { SortedMembers(b, l); }
    JoinInjective(Sort(a), Sort(b), ',');
  }

  /** With a collision-free digest, equal ETags mean the same organization, record, client, actor,
      locales and last modification. */
  lemma EtagDeterminesRequest(sha256: string -> string, a: Context, b: Context)
    requires forall x, y :: sha256(x) == sha256(y) ==> x == y
    requires ValidContext(a) && ValidContext(b)
    requires Etag(sha256, a) == Etag(sha256, b)
    ensures SameRequest(a, b)
  {
    assert Etag(sha256, a)[1..|Etag(sha256, a)| - 1] == sha256(EtagInput(a));
    assert Etag(sha256, b)[1..|Etag(sha256, b)| - 1] == sha256(EtagInput(b));
    assert EtagInput(a) == EtagInput(b);
    hide FloatText, Sort, Join, NatText, OptionalIntText, IntText;
    FixedPartsLackSlash(a);
    FixedPartsLackSlash(b);
    JoinPrefix(FixedParts(a), FixedParts(b), a.segments, b.segments, '/');
    var p, q := FixedParts(a), FixedParts(b);
    assert p[0] == q[0] && p[1] == q[1] && p[2] == q[2] && p[3] == q[3] && p[4] == q[4] && p[5] == q[5] && p[6] == q[6];
    IntTextInjective(a.organization, b.organization);
    IntTextInjective(a.record, b.record);
    FloatTextInjective(a.lastModified, b.lastModified);
    OptionalIntTextInjective(a.client, b.client);
    OptionalIntTextInjective(a.actAs, b.actAs);
    LocalesRecovered(a.locales, b.locales);
  }

  /** What the contributor segments add to the text of the tag. */
  function SegmentText(segments: seq<string>): string {
    if segments == [] then "" else "/" + segments[0] + SegmentText(segments[1..])
  }

  lemma JoinStep(part: string, rest: seq<string>, c: char)
    requires rest != []
    ensures Join([part] + rest, c) == part + [c] + Join(rest, c)
  {
    assert ([part] + rest)[1..] == rest;
  }

  lemma {:induction false} JoinWithSegments(parts: seq<string>, segments: seq<string>)
    requires parts != []
    ensures Join(parts + segments, '/') == Join(parts, '/') + SegmentText(segments)
    decreases |parts|
  {
    hide Join, SegmentText;
    var rest := parts[1..];
    assert parts == [parts[0]] + rest;
    if rest != [] {
      JoinWithSegments(rest, segments);
      JoinStep(parts[0], rest, '/');
      JoinStep(parts[0], rest + segments, '/');
      assert parts + segments == [parts[0]] + (rest + segments);
    } else {
      JoinOne(parts[0], segments);
      JoinAlone(parts[0]);
      assert parts == [parts[0]];
    }
  }

  lemma JoinAlone(part: string)
    ensures Join([part], '/') == part
  {
  }

  lemma {:induction false} JoinOne(part: string, segments: seq<string>)
    ensures Join([part] + segments, '/') == part + SegmentText(segments)
    decreases |segments|
  {
    if segments == [] {
      assert [part] + segments == [part];
    } else {
      var rest := SegmentText(segments[1..]);
      assert SegmentText(segments) == "/" + segments[0] + rest;
      hide Join, SegmentText;
      JoinStep(part, segments, '/');
      JoinOne(segments[0], segments[1..]);
      assert segments == [segments[0]] + segments[1..];
      assert part + ['/'] + (segments[0] + rest) == part + ("/" + segments[0] + rest);
    }
  }

  /** Equal ETags mean the same request and the same segment text, and nothing less: the order in which
      locales are listed makes no difference. */
  lemma EtagsAgreeIff(sha256: string -> string, a: Context, b: Context)
    requires forall x, y :: sha256(x) == sha256(y) ==> x == y
    requires ValidContext(a) && ValidContext(b)
    ensures Etag(sha256, a) == Etag(sha256, b)
       <==> SameRequest(a, b) && SegmentText(a.segments) == SegmentText(b.segments)
  {
    hide FloatText, Sort, Join, NatText, OptionalIntText, IntText;
    JoinWithSegments(FixedParts(a), a.segments);
    JoinWithSegments(FixedParts(b), b.segments);
    if Etag(sha256, a) == Etag(sha256, b) {
      assert Etag(sha256, a)[1..|Etag(sha256, a)| - 1] == sha256(EtagInput(a));
      assert Etag(sha256, b)[1..|Etag(sha256, b)| - 1] == sha256(EtagInput(b));
      EtagDeterminesRequest(sha256, a, b);
    }
    if SameRequest(a, b) {
      SortIsCanonical(a.locales, b.locales);
      var head := Join(FixedParts(a), '/');
      assert FixedParts(a) == FixedParts(b);
      assert EtagInput(a)[|head|..] == SegmentText(a.segments) && EtagInput(b)[|head|..] == SegmentText(b.segments);
    }
  }
}
