/** Composite role ids: base64url of a five-key JSON object. */
module RoleIdCodec {
  import opened Wrappers
  import opened Text
  import opened Json
  import Base64Url
  import JsonText
  import Utf8

  /** What callers pass as invited_at: nothing, a time (its ISO 8601 text), or a string. */
  datatype Invitation = NotInvited | Time(iso8601: string) | Note(text: string)

  function NormalizeInvitedAt(value: Invitation): Option<string> {
    match value
    case NotInvited => None
    case Time(iso8601) => Some(iso8601)
    case Note(text) => if BlankText(text) then None else Some(text)
  }

  function OptionalText(s: Option<string>): Value {
    match s case None => Null case Some(t) => Str(t)
  }

  function OptionalInt(n: Option<int>): Value {
    match n case None => Null case Some(i) => Num(i)
  }

  /** The payload hash, in insertion order. */
  function Payload(resourceType: string, resourceId: int, userId: Option<int>, invitedAt: Invitation, kind: string)
    : JsonText.Members
  {
    [ ("resource_type", Str(resourceType)),
      ("resource_id", Num(resourceId)),
      ("user_id", OptionalInt(userId)),
      ("invited_at", OptionalText(NormalizeInvitedAt(invitedAt))),
      ("type", Str(kind)) ]
  }

  function Encode(
    resourceType: string, resourceId: int, userId: Option<int>, invitedAt: Invitation, kind: string
  ): string {
    Base64Url.UrlsafeEncode(Utf8.Encode(JsonText.Generate(Payload(resourceType, resourceId, userId, invitedAt, kind))))
  }

  /** A decoded id; `Unconvertible` is Ruby's NoMethodError, which decode does not rescue. */
  datatype Decoded =
    | Invalid
    | Unconvertible
    | RoleId(resourceType: Value, resourceId: int, userId: Option<int>, invitedAt: Value, kind: Value)

  /** Digits with single underscores between them, as String#to_i reads them. */
  function LeadingDigits(s: string): (r: string)
    ensures AllDigits(r)
  {
    if s == "" then ""
    else if IsDigit(s[0]) then
      [s[0]] + LeadingDigits(if |s| >= 3 && s[1] == '_' then s[2..] else s[1..])
    else ""
  }

  /** String#to_i: white space, a sign, then digits; anything else counts as zero. */
  function TextToInt(s: string): int
    decreases |s|
  {
    if s == "" then 0
    else if s[0] == ' ' || 9 <= s[0] as int <= 13 then TextToInt(s[1..])
    else if s[0] == '-' then -(NatValue(LeadingDigits(s[1..])) as int)
    else if s[0] == '+' then NatValue(LeadingDigits(s[1..]))
    else NatValue(LeadingDigits(s))
  }

  /** to_i on a parsed value; None where the value has no such method. */
  function ToInt(v: Value): Option<int> {
    match v
    case Null => Some(0)
    case Num(n) => Some(n)
    case Str(s) => Some(TextToInt(s))
    case _ => None
  }

  function Lookup(h: Hash, key: string): Value {
    if key in h then h[key] else Null
  }

  function DecodeHash(h: Hash): Decoded {
    var resourceId := ToInt(Lookup(h, "resource_id"));
    var user := Lookup(h, "user_id");
    var userId := ToInt(user);
    if resourceId.None? || userId.None? then Unconvertible
    else
      RoleId(Lookup(h, "resource_type"), resourceId.value,
             if user.Null? then None else userId, Lookup(h, "invited_at"), Lookup(h, "type"))
  }

  /** slice with five arguments: an array or a string takes at most two and raises the rescued
      ArgumentError, a hash is cut down, and the other values have no such method. */
  function DecodeValue(v: Value): Decoded {
    match v
    case Obj(h) => DecodeHash(h)
    case Arr(_) => Invalid
    case Str(_) => Invalid
    case _ => Unconvertible
  }

  function ParseId(id: string): Option<Value> {
    var bytes :- Base64Url.UrlsafeDecode(id);
    var text :- Utf8.Decode(bytes);
    JsonText.Parse(text)
  }

  function Decode(id: string): Decoded {
    match ParseId(id)
    case None => Invalid
    case Some(v) => DecodeValue(v)
  }

  /** The tuple an encoded id stands for: blank invitations are nil, present ones are text. */
  function Normalized(
    resourceType: string, resourceId: int, userId: Option<int>, invitedAt: Invitation, kind: string
  ): Decoded {
    RoleId(Str(resourceType), resourceId, userId, OptionalText(NormalizeInvitedAt(invitedAt)), Str(kind))
  }

  lemma PayloadHash(ms: JsonText.Members)
    requires |ms| == 5
    requires ms[0].0 == "resource_type" && ms[1].0 == "resource_id" && ms[2].0 == "user_id"
    requires ms[3].0 == "invited_at" && ms[4].0 == "type"
    ensures var h := JsonText.ToHash(map[], ms);
            && Lookup(h, "resource_type") == ms[0].1 && Lookup(h, "resource_id") == ms[1].1
            && Lookup(h, "user_id") == ms[2].1 && Lookup(h, "invited_at") == ms[3].1 && Lookup(h, "type") == ms[4].1
  {
    assert |"resource_type"| == 13 && |"resource_id"| == 11 && |"user_id"| == 7 && |"invited_at"| == 10
        && |"type"| == 4;
    var h1: Hash := map["resource_type" := ms[0].1];
    var h2 := h1["resource_id" := ms[1].1];
    var h3 := h2["user_id" := ms[2].1];
    var h4 := h3["invited_at" := ms[3].1];
    assert JsonText.ToHash(map[], ms) == JsonText.ToHash(h1, ms[1..]);
    assert JsonText.ToHash(h1, ms[1..]) == JsonText.ToHash(h2, ms[2..]) by { assert ms[1..][1..] == ms[2..]; }
    assert JsonText.ToHash(h2, ms[2..]) == JsonText.ToHash(h3, ms[3..]) by { assert ms[2..][1..] == ms[3..]; }
    assert JsonText.ToHash(h3, ms[3..]) == JsonText.ToHash(h4, ms[4..]) by { assert ms[3..][1..] == ms[4..]; }
    assert JsonText.ToHash(h4, ms[4..]) == h4["type" := ms[4].1] by { assert ms[4..][1..] == []; }
  }

  /** What normalising leaves: a time as its ISO 8601 text, a string with something in it as it is, else nil. */
  lemma NormalizedInvitation(
    resourceType: string, resourceId: int, userId: Option<int>, invitedAt: Invitation, kind: string
  )
    ensures Normalized(resourceType, resourceId, userId, invitedAt, kind)
         == RoleId(Str(resourceType), resourceId, userId,
                   match invitedAt
                   case NotInvited => Null
                   case Time(iso8601) => Str(iso8601)
                   case Note(text) => (if exists i :: 0 <= i < |text| && !IsSpace(text[i]) then Str(text) else Null),
                   Str(kind))
  {
  }

  lemma {:induction false} DigitsLead(s: string, rest: string)
    requires AllDigits(s) && (rest == "" || (!IsDigit(rest[0]) && rest[0] != '_'))
    ensures LeadingDigits(s + rest) == s
  {
    if s == "" {
      assert s + rest == rest;
    } else {
      assert (s + rest)[1..] == s[1..] + rest;
      assert AllDigits(s[1..]) && IsDigit(s[0]) by { assert s[0] in s; }
      assert |s + rest| >= 2 ==> (s + rest)[1] != '_' by {
        if |s| >= 2 {
          assert s[1] in s;
        }
      }
      DigitsLead(s[1..], rest);
    }
  }

  lemma DigitsReadAsInt(digits: string, rest: string)
    requires digits != "" && AllDigits(digits) && (rest == "" || (!IsDigit(rest[0]) && rest[0] != '_'))
    ensures TextToInt(digits + rest) == NatValue(digits)
    ensures TextToInt("-" + digits + rest) == -(NatValue(digits) as int)
    ensures TextToInt("+" + digits + rest) == NatValue(digits)
  {
    DigitsLead(digits, rest);
    hide LeadingDigits, NatValue;
    var s := digits + rest;
    assert digits[0] in digits && s[0] == digits[0];
    assert "-" + digits + rest == ['-'] + s && "+" + digits + rest == ['+'] + s;
    assert (['-'] + s)[1..] == s && (['+'] + s)[1..] == s;
  }

  /** A printed integer reads back, behind white space or a plus sign too, and whatever follows it but a digit or an
      underscore is ignored. */
  lemma TextReadsAsInt(n: int, rest: string)
    requires rest == "" || (!IsDigit(rest[0]) && rest[0] != '_')
    ensures TextToInt(IntText(n) + rest) == n
    ensures forall c | c in [' ', '\t', '\n', 11 as char, 12 as char, '\r'] :: TextToInt([c] + (IntText(n) + rest)) == n
    ensures n >= 0 ==> TextToInt("+" + IntText(n) + rest) == n
  {
    var digits := NatText(if n < 0 then -n else n);
    NatValueOfText(if n < 0 then -n else n);
    DigitsReadAsInt(digits, rest);
    forall c | c in [' ', '\t', '\n', 11 as char, 12 as char, '\r'] ensures TextToInt([c] + (IntText(n) + rest)) == n {
      assert ([c] + (IntText(n) + rest))[1..] == IntText(n) + rest;
    }
    hide NatText, NatValue, LeadingDigits;
    assert IntText(n) == if n < 0 then "-" + digits else digits;
  }

  /** Text without a number in front counts as zero, and an underscore joins two digits. */
  lemma OtherTextReadsAs(c: char, rest: string, a: nat, b: nat)
    requires !IsDigit(c) && c !in [' ', '\t', '\n', 11 as char, 12 as char, '\r', '+', '-'] && a < 10 && b < 10
    ensures TextToInt([c] + rest) == 0 && TextToInt("") == 0
    ensures TextToInt([DigitChar(a), '_', DigitChar(b)]) == 10 * a + b
    ensures TextToInt([DigitChar(a), '_', '_', DigitChar(b)]) == a
  {
    assert LeadingDigits([c] + rest) == "" && NatValue("") == 0;
    var x, y := DigitChar(a), DigitChar(b);
    OneDigit(b);
    OneDigit(a);
    assert [x, '_', y][2..] == [y] && LeadingDigits([x, '_', y]) == [x] + [y];
    assert NatValue([x, y]) == 10 * a + b by {
      assert [x, y][..1] == [x];
    }
    assert [x, '_', '_', y][2..] == ['_', y] && LeadingDigits(['_', y]) == "";
    assert LeadingDigits([x, '_', '_', y]) == [x] && [x][..0] == "";
  }

  lemma OneDigit(a: nat)
    requires a < 10
    ensures LeadingDigits([DigitChar(a)]) == [DigitChar(a)] && NatValue([DigitChar(a)]) == a
  {
    assert [DigitChar(a)][1..] == "" && [DigitChar(a)][..0] == "";
  }

  /** Any JSON object decodes, missing keys as nil: an id that is no number or text has no to_i; other values than
      objects do not decode. */
  lemma DecodedObject(id: string)
    ensures match ParseId(id)
            case None => Decode(id) == Invalid
            case Some(Obj(h)) =>
              var rid, user := Lookup(h, "resource_id"), Lookup(h, "user_id");
              if rid.Bool? || rid.Arr? || rid.Obj? || user.Bool? || user.Arr? || user.Obj?
              then Decode(id) == Unconvertible
              else
                && Decode(id).RoleId?
                && Decode(id).kind == Lookup(h, "type") && Decode(id).resourceType == Lookup(h, "resource_type")
                && Decode(id).invitedAt == Lookup(h, "invited_at")
                && (user.Null? <==> Decode(id).userId == None) && (user.Num? ==> Decode(id).userId == Some(user.n))
                && (rid.Null? ==> Decode(id).resourceId == 0) && (rid.Num? ==> Decode(id).resourceId == rid.n)
            case Some(Arr(_)) => Decode(id) == Invalid
            case Some(Str(_)) => Decode(id) == Invalid
            case Some(_) => Decode(id) == Unconvertible
  {
    hide ParseId;
  }

  /** Decoding an encoded id returns the normalised tuple. */
  lemma DecodeEncode(resourceType: string, resourceId: int, userId: Option<int>, invitedAt: Invitation, kind: string)
    ensures Decode(Encode(resourceType, resourceId, userId, invitedAt, kind))
         == Normalized(resourceType, resourceId, userId, invitedAt, kind)
  {
    hide JsonText.Generate, JsonText.Parse, JsonText.ToHash, Base64Url.UrlsafeEncode, Base64Url.UrlsafeDecode,
        Utf8.Encode, Utf8.Decode;
    var ms := Payload(resourceType, resourceId, userId, invitedAt, kind);
    var text := JsonText.Generate(ms);
    Base64Url.UrlsafeRoundTrip(Utf8.Encode(text));
    Utf8.DecodeEncode(text);
    JsonText.ParseGenerate(ms);
    PayloadHash(ms);
  }

  /** An unpadded URL-safe id that decodes, whoever made it, is the encoding of one JSON text,
      and that text is an object. */
  lemma DecodedIdIsItsText(id: string) returns (text: string)
    requires Base64Url.UrlSafeText(id) && Decode(id).RoleId?
    ensures id == Base64Url.UrlsafeEncode(Utf8.Encode(text))
    ensures JsonText.Parse(text).Some? && JsonText.Parse(text).value.Obj?
    ensures Decode(id) == DecodeHash(JsonText.Parse(text).value.fields)
  {
    hide JsonText.Parse, Base64Url.UrlsafeEncode, Base64Url.UrlsafeDecode, Utf8.Encode, Utf8.Decode, DecodeHash;
    var bytes := Base64Url.UrlsafeDecode(id).value;
    text := Utf8.Decode(bytes).value;
    Base64Url.UrlsafeCanonical(id);
    Utf8.EncodeDecode(bytes);
  }

  /** Every id is URL-safe text without padding. */
  lemma EncodeUrlSafe(resourceType: string, resourceId: int, userId: Option<int>, invitedAt: Invitation, kind: string)
    ensures Base64Url.UrlSafeText(Encode(resourceType, resourceId, userId, invitedAt, kind))
  {
    var payload := Payload(resourceType, resourceId, userId, invitedAt, kind);
    Base64Url.UrlsafeRoundTrip(Utf8.Encode(JsonText.Generate(payload)));
  }

  /** Tuples share an id exactly when they normalise to the same tuple. */
  lemma EncodeInjective(rt: string, rid: int, user: Option<int>, inv: Invitation, kind: string,
                        rt': string, rid': int, user': Option<int>, inv': Invitation, kind': string)
    ensures Encode(rt, rid, user, inv, kind) == Encode(rt', rid', user', inv', kind')
       <==> Normalized(rt, rid, user, inv, kind) == Normalized(rt', rid', user', inv', kind')
  {
    hide Encode, Decode;
    DecodeEncode(rt, rid, user, inv, kind);
    DecodeEncode(rt', rid', user', inv', kind');
    if Normalized(rt, rid, user, inv, kind) == Normalized(rt', rid', user', inv', kind') {
      hide JsonText.Generate, Base64Url.UrlsafeEncode, Utf8.Encode;
      SamePayload(rt, rid, user, inv, kind, rt', rid', user', inv', kind');
    }
  }

  lemma SamePayload(rt: string, rid: int, user: Option<int>, inv: Invitation, kind: string,
                    rt': string, rid': int, user': Option<int>, inv': Invitation, kind': string)
    requires Normalized(rt, rid, user, inv, kind) == Normalized(rt', rid', user', inv', kind')
    ensures Encode(rt, rid, user, inv, kind) == Encode(rt', rid', user', inv', kind')
  {
    hide JsonText.Generate, Base64Url.UrlsafeEncode, Utf8.Encode;
  }
}
