/** What `read_headers` and `read_post_headers` do with each header: the server's global flags and
    the fixed-size fields of the header record. */
module RequestHeaders {
  import opened CStrings
  import opened HeaderFraming
  import opened HeaderFields

  // ----- the state as values -----

  /** The global variables that header lines set; `hasTimeTarget` is `if_modified_since != NULL`. */
  datatype Flags = Flags(
    keepAlive: bool, contentLength: int, cookie: bool, headerError: bool,
    acceptableText: bool, acceptableCharset: bool, acceptableEncoding: bool, userAgent: string,
    hasTimeTarget: bool, timeIsValid: bool)

  /** The header record; each text field is the whole memory of its buffer. */
  datatype Info = Info(
    headerLen: int, contentLength: int, hasAuth: bool, authMethod: string, authCipher: string,
    contentType: string, disposition: string, bodyType: string)

  const METHOD_SIZE: nat := 16
  const CIPHER_SIZE: nat := 128
  const FIELD_SIZE: nat := 128
  const AGENT_SIZE: nat := 512

  predicate Sized(i: Info) {
    && |i.authMethod| == METHOD_SIZE && |i.authCipher| == CIPHER_SIZE
    && |i.contentType| == FIELD_SIZE && |i.disposition| == FIELD_SIZE && |i.bodyType| == FIELD_SIZE
  }

  // ----- C copies -----

  /** `strcpy(buf, text)`. */
  function StrCpy(buf: string, text: string): (r: string)
    requires |text| < |buf|
    ensures |r| == |buf|
    ensures forall i :: 0 <= i < |r| ==> r[i] == if i < |text| then text[i] else if i == |text| then '\0' else buf[i]
  {
    text + ['\0'] + buf[|text| + 1..]
  }

  /** `memcpy(buf, text, len); buf[len+1] = '\0'`: the character behind the text stays. */
  function MemCpy(buf: string, text: string): (r: string)
    requires |text| + 1 < |buf|
    ensures |r| == |buf|
    ensures forall i :: 0 <= i < |r| ==>
              r[i] == if i < |text| then text[i] else if i == |text| + 1 then '\0' else buf[i]
  {
    text + [buf[|text|]] + ['\0'] + buf[|text| + 2..]
  }

  lemma StrCpyHolds(buf: string, text: string)
    requires |text| < |buf| && '\0' !in text
    ensures CStr(StrCpy(buf, text)) == text
  {
    CStrOf(text, buf[|text| + 1..]);
  }

  /** The NUL is written one place too far, so the field holds the text exactly when the place
      behind it was already NUL, as it is in a cleared record. */
  lemma MemCpyHoldsIfCleared(buf: string, text: string)
    requires |text| + 1 < |buf| && '\0' !in text
    ensures CStr(MemCpy(buf, text)) == text <==> buf[|text|] == '\0'
  {
    var c := buf[|text|];
    var mem := MemCpy(buf, text);
    if c == '\0' {
      assert mem == text + ['\0'] + (['\0'] + buf[|text| + 2..]);
      CStrOf(text, ['\0'] + buf[|text| + 2..]);
    } else {
      assert mem == (text + [c]) + ['\0'] + buf[|text| + 2..];
      CStrOf(text + [c], buf[|text| + 2..]);
    }
  }

  method StrCpyInto(dst: array<char>, text: string)
    requires |text| < dst.Length
    modifies dst
    ensures dst[..] == StrCpy(old(dst[..]), text)
  {
    forall i | 0 <= i < |text| {
      dst[i] := text[i];
    }
    dst[|text|] := '\0';
  }

  method MemCpyInto(dst: array<char>, text: string)
    requires |text| + 1 < dst.Length
    modifies dst
    ensures dst[..] == MemCpy(old(dst[..]), text)
  {
    forall i | 0 <= i < |text| {
      dst[i] := text[i];
    }
    dst[|text| + 1] := '\0';
  }

  // ----- one header -----

  function SkipBlanks(s: string): string {
    if s != [] && IsFold(s[0]) then SkipBlanks(s[1..]) else s
  }

  /** The value of a header that has a colon at offset `t`. */
  function Value(h: string, t: nat): string
    requires t < |h|
  {
    SkipBlanks(h[t + 1..])
  }

  lemma {:induction false} BlanksSkipped(blanks: string, rest: string)
    requires forall i :: 0 <= i < |blanks| ==> blanks[i] in " \t\U{000B}\U{000C}"
    requires rest == "" || rest[0] !in " \t\U{000B}\U{000C}"
    ensures SkipBlanks(blanks + rest) == rest
  {
    if blanks == "" {
      assert blanks + rest == rest;
    } else {
      assert blanks[0] in " \t\U{000B}\U{000C}";
      assert (blanks + rest)[1..] == blanks[1..] + rest;
      BlanksSkipped(blanks[1..], rest);
    }
  }

  /** The value is what stands behind the colon and any blanks and tabs; a line end is no blank. */
  lemma ValueExactly(name: string, blanks: string, value: string)
    requires forall i :: 0 <= i < |blanks| ==> blanks[i] in " \t\U{000B}\U{000C}"
    requires value == "" || value[0] !in " \t\U{000B}\U{000C}"
    ensures Value(name + (":" + (blanks + value)), |name|) == value
  {
    var h := name + (":" + (blanks + value));
    assert h[|name| + 1..] == blanks + value;
    BlanksSkipped(blanks, value);
  }

  const MAX_INT: int := 0x7fff_ffff

  function Digits(s: string, acc: int): int {
    if s != [] && '0' <= s[0] <= '9' then Digits(s[1..], 10 * acc + (s[0] as int - '0' as int)) else acc
  }

  /** `atoi`: leading whitespace, an optional sign, digits. */
  function Atoi(s: string): int {
    if s == [] then 0
    else if IsSpace(s[0]) then Atoi(s[1..])
    else if s[0] == '-' then -Digits(s[1..], 0)
    else if s[0] == '+' then Digits(s[1..], 0)
    else Digits(s, 0)
  }

  /** The value names a scheme and a cipher that fit their fields. */
  predicate AuthFits(value: string) {
    var sp := IndexOf(value, ' ');
    sp < |value| && sp + 1 < METHOD_SIZE
    && var cipher := value[sp + 1..]; var nl := IndexOf(cipher, '\n'); nl < |cipher| && nl + 1 < CIPHER_SIZE
  }

  function StoreAuth(i: Info, value: string): (r: Info)
    requires Sized(i) && AuthFits(value)
    ensures Sized(r)
  {
    var sp := IndexOf(value, ' ');
    var cipher := value[sp + 1..];
    i.(hasAuth := true, authMethod := MemCpy(i.authMethod, value[..sp]),
       authCipher := MemCpy(i.authCipher, cipher[..IndexOf(cipher, '\n')]))
  }

  datatype GetState = GetState(flags: Flags, info: Info)

  /** What a branch of `read_headers` copies fits where it is copied to. */
  predicate GetFieldFits(field: Field, value: string) {
    match field
    case Authorization => AuthFits(value)
    case UserAgent => |value| < AGENT_SIZE
    case ContentLength => -MAX_INT - 1 <= Atoi(value) <= MAX_INT
    case _ => true
  }

  predicate GetFits(h: string) {
    var t := IndexOf(h, ':');
    t < |h| ==> GetFieldFits(Select(h, t, GET_CHAIN), Value(h, t))
  }

  /** The effect of a comma list; languages only ever switch the flag on. */
  ghost function ApplyList(f: Flags, field: Field, value: string): Flags {
    f.(acceptableText := match field
                         case AcceptLanguage => f.acceptableText || ListNames(value, LANGUAGES)
                         case Accept => ListNames(value, TEXT_TYPES)
                         case _ => f.acceptableText,
       acceptableCharset := if field == AcceptCharset then ListNames(value, CHARSETS) else f.acceptableCharset)
  }

  lemma ListFrame(f: Flags, field: Field, value: string)
    ensures var n := ApplyList(f, field, value);
            && n == f.(acceptableText := n.acceptableText, acceptableCharset := n.acceptableCharset)
            && (field !in {AcceptLanguage, Accept, AcceptCharset} ==> n == f)
  {
    hide ListNames;
  }

  /** The setting a Connection header leaves, which is the old one when neither word is there. */
  function KeepAlive(value: string, keepAlive: bool): bool {
    if PrefixNoCase("keep-alive", value) then true
    else if PrefixNoCase("close", value) then false
    else keepAlive
  }

  /** The effect of a GET header on the flags. */
  ghost function ApplyGetFlag(f: Flags, field: Field, value: string): Flags {
    ApplyList(f, field, value).(
      keepAlive := if field == Connection then KeepAlive(value, f.keepAlive) else f.keepAlive,
      contentLength := if field == ContentLength then Atoi(value) else f.contentLength,
      cookie := f.cookie || field == Cookie,
      timeIsValid := f.timeIsValid && (field == IfModifiedSince ==> f.hasTimeTarget),
      acceptableEncoding := f.acceptableEncoding && field != AcceptEncoding,
      userAgent := if field == UserAgent then value else f.userAgent)
  }

  /** Each branch touches what it is there for. */
  lemma GetFlagCases(f: Flags, field: Field, value: string)
    ensures field == Connection ==> ApplyGetFlag(f, field, value) == f.(keepAlive := KeepAlive(value, f.keepAlive))
    ensures field == ContentLength ==> ApplyGetFlag(f, field, value) == f.(contentLength := Atoi(value))
    ensures field == Cookie ==> ApplyGetFlag(f, field, value) == f.(cookie := true)
    ensures field == AcceptEncoding ==> ApplyGetFlag(f, field, value) == f.(acceptableEncoding := false)
    ensures field == UserAgent ==> ApplyGetFlag(f, field, value) == f.(userAgent := value)
    ensures field == IfModifiedSince ==>
              ApplyGetFlag(f, field, value) == f.(timeIsValid := f.timeIsValid && f.hasTimeTarget)
    ensures field in {AcceptLanguage, Accept, AcceptCharset} ==>
              ApplyGetFlag(f, field, value) == ApplyList(f, field, value)
    ensures field in {Authorization, ContentType, ContentDisposition, Unknown} ==> ApplyGetFlag(f, field, value) == f
  {
    hide ApplyList, Atoi, KeepAlive;
    ListFrame(f, field, value);
    match field {
      case Connection =>
      case ContentLength =>
      case Cookie =>
      case AcceptEncoding =>
      case UserAgent =>
      case IfModifiedSince =>
      case _ =>
    }
  }

  /** The effect of one header `h` of a GET request. */
  ghost function ApplyGet(s: GetState, h: string): (r: GetState)
    requires Sized(s.info) && GetFits(h)
    ensures Sized(r.info)
  {
    var t := IndexOf(h, ':');
    if t == |h| then s.(flags := s.flags.(headerError := true)) else
    var field, value := Select(h, t, GET_CHAIN), Value(h, t);
    if field == Authorization then s.(info := StoreAuth(s.info, value))
    else s.(flags := ApplyGetFlag(s.flags, field, value))
  }

  predicate GetFitsAll(items: seq<Item>) {
    forall j :: 0 <= j < |items| ==> GetFits(CStr(items[j].text))
  }

  ghost function ApplyGetAll(s: GetState, items: seq<Item>): (r: GetState)
    requires Sized(s.info) && GetFitsAll(items)
    ensures Sized(r.info)
    decreases |items|
  {
    if items == [] then s else ApplyGetAll(ApplyGet(s, CStr(items[0].text)), items[1..])
  }

  /** `inBody`: a delimiter line has been seen. */
  datatype PostState = PostState(flags: Flags, info: Info, inBody: bool)

  predicate PostFieldFits(inBody: bool, field: Field, value: string) {
    match field
    case Authorization => AuthFits(value)
    case UserAgent => |value| < AGENT_SIZE
    case ContentLength => -MAX_INT - 1 <= Atoi(value) <= MAX_INT
    case ContentType => |value| < FIELD_SIZE
    case ContentDisposition => inBody ==> |value| < FIELD_SIZE
    case _ => true
  }

  predicate PostFits(inBody: bool, h: string) {
    var t := IndexOf(h, ':');
    t < |h| ==> PostFieldFits(inBody, Select(h, t, POST_CHAIN), Value(h, t))
  }

  /** The effect of a POST header on the flags, ... */
  ghost function ApplyPostFlag(f: Flags, field: Field, value: string): Flags {
    (if field == Accept then ApplyList(f, Accept, value) else f).(
      acceptableEncoding := f.acceptableEncoding && field != AcceptEncoding,
      userAgent := if field == UserAgent then value else f.userAgent)
  }

  /** ... and on the record. */
  function ApplyPostInfo(i: Info, inBody: bool, field: Field, value: string): (r: Info)
    requires Sized(i) && PostFieldFits(inBody, field, value)
    ensures Sized(r)
  {
    match field
    case Authorization => StoreAuth(i, value)
    case ContentLength => i.(contentLength := Atoi(value))
    case ContentType =>
      if inBody then i.(bodyType := StrCpy(i.bodyType, value)) else i.(contentType := StrCpy(i.contentType, value))
    case ContentDisposition => if inBody then i.(disposition := StrCpy(i.disposition, value)) else i
    case _ => i
  }

  /** The effect of one header `h` of a POST request or of a body part. */
  ghost function ApplyPostHeader(s: PostState, h: string): (r: PostState)
    requires Sized(s.info) && PostFits(s.inBody, h)
    ensures Sized(r.info) && r.inBody == s.inBody
  {
    var t := IndexOf(h, ':');
    if t == |h| then s.(flags := s.flags.(headerError := true)) else
    var field, value := Select(h, t, POST_CHAIN), Value(h, t);
    s.(flags := ApplyPostFlag(s.flags, field, value), info := ApplyPostInfo(s.info, s.inBody, field, value))
  }

  predicate PostItemFits(inBody: bool, item: Item) {
    item.Header? ==> PostFits(inBody, CStr(item.text))
  }

  predicate PostFitsAll(inBody: bool, items: seq<Item>)
    decreases |items|
  {
    items != [] ==> PostItemFits(inBody, items[0]) && PostFitsAll(inBody || items[0].Delimiter?, items[1..])
  }

  ghost function ApplyPost(s: PostState, item: Item): (r: PostState)
    requires Sized(s.info) && PostItemFits(s.inBody, item)
    ensures Sized(r.info) && r.inBody == (s.inBody || item.Delimiter?)
  {
    match item
    case Delimiter(text) => s.(info := s.info.(headerLen := s.info.headerLen + |text|), inBody := true)
    case Header(text, first) =>
      ApplyPostHeader(s.(info := s.info.(headerLen := s.info.headerLen + first)), CStr(text))
  }

  /** A whole block; its empty line counts one towards the length. */
  ghost function ApplyPostAll(s: PostState, items: seq<Item>): (r: PostState)
    requires Sized(s.info) && PostFitsAll(s.inBody, items)
    ensures Sized(r.info)
    decreases |items|
  {
    if items == [] then s.(info := s.info.(headerLen := s.info.headerLen + 1))
    else ApplyPostAll(ApplyPost(s, items[0]), items[1..])
  }

  // ----- consequences -----

  lemma TextStaysOn(s: GetState, h: string)
    requires Sized(s.info) && GetFits(h) && s.flags.acceptableText
    ensures ApplyGet(s, h).flags.acceptableText
  {
    hide Select, StoreAuth, AuthFits, Atoi, ListNames, KeepAlive, Value, Sized, IndexOf;
    var t := IndexOf(h, ':');
    if t < |h| {
      GetAcceptIsDead(h, t);
    }
  }

  /** Neither branch that looks at languages or media types in a GET request ever refuses: the flag
      is on before each request, and no sequence of headers turns it off. */
  lemma {:induction false} GetNeverRefusesText(s: GetState, items: seq<Item>)
    requires Sized(s.info) && GetFitsAll(items)
    requires s.flags.acceptableText
    ensures ApplyGetAll(s, items).flags.acceptableText
    decreases |items|
  {
    hide ApplyGet, GetFits, CStr;
    if items == [] {
    } else {
      assert GetFits(CStr(items[0].text));
      assert forall j :: 0 <= j < |items| - 1 ==> items[1..][j] == items[j + 1];
      TextStaysOn(s, CStr(items[0].text));
      GetNeverRefusesText(ApplyGet(s, CStr(items[0].text)), items[1..]);
    }
  }

  /** The decimal digits of a number. */
  function Decimal(n: nat): string {
    (if n < 10 then [] else Decimal(n / 10)) + [('0' as int + n % 10) as char]
  }

  /** Base ten, the highest digit first. */
  lemma DecimalExactly(n: nat, d: nat)
    requires d < 10
    ensures Decimal(d) == ["0123456789"[d]]
    ensures n > 0 ==> Decimal(10 * n + d) == Decimal(n) + ["0123456789"[d]]
  {
    assert (10 * n + d) / 10 == n && (10 * n + d) % 10 == d;
    assert "0123456789"[d] == ('0' as int + d) as char;
  }

  lemma {:induction false} DigitsOfDecimal(n: nat, tail: string)
    ensures Digits(Decimal(n) + tail, 0) == Digits(tail, n)
    ensures '0' <= Decimal(n)[0] <= '9'
  {
    var d := [('0' as int + n % 10) as char];
    if n < 10 {
      assert Decimal(n) == d;
      assert (d + tail)[1..] == tail;
    } else {
      DigitsOfDecimal(n / 10, d + tail);
      assert Decimal(n) + tail == Decimal(n / 10) + (d + tail);
      assert (d + tail)[1..] == tail;
    }
  }

  lemma {:induction false} ZerosBefore(k: nat, n: nat, tail: string)
    ensures Digits(seq(k, i => '0') + (Decimal(n) + tail), 0) == Digits(tail, n)
  {
    var zeros := seq(k, i => '0');
    if k == 0 {
      assert zeros + (Decimal(n) + tail) == Decimal(n) + tail;
      DigitsOfDecimal(n, tail);
    } else {
      ZerosBefore(k - 1, n, tail);
      assert zeros == ['0'] + seq(k - 1, i => '0');
      assert (zeros + (Decimal(n) + tail))[1..] == seq(k - 1, i => '0') + (Decimal(n) + tail);
    }
  }

  lemma {:induction false} SpacesBefore(spaces: string, rest: string)
    requires forall i :: 0 <= i < |spaces| ==> IsSpace(spaces[i])
    ensures Atoi(spaces + rest) == Atoi(rest)
  {
    if spaces == "" {
      assert spaces + rest == rest;
    } else {
      assert (spaces + rest)[1..] == spaces[1..] + rest;
      SpacesBefore(spaces[1..], rest);
    }
  }

  /** The number a text starts with: whitespace, a sign and leading zeros in front of it, anything but a
      digit behind it; and none where no digit stands. */
  lemma AtoiExactly(spaces: string, sign: string, zeros: nat, n: nat, tail: string)
    requires forall i :: 0 <= i < |spaces| ==> IsSpace(spaces[i])
    requires sign == "" || sign == "+" || sign == "-"
    requires tail == "" || !('0' <= tail[0] <= '9')
    ensures var a := Atoi(spaces + (sign + (seq(zeros, i => '0') + (Decimal(n) + tail))));
            a == if sign == "-" then 0 - n else n as int
    ensures (tail == "" || (!IsSpace(tail[0]) && tail[0] != '+' && tail[0] != '-')) ==> Atoi(spaces + tail) == 0
    ensures sign != "" ==> Atoi(spaces + (sign + tail)) == 0
  {
    var digits := seq(zeros, i => '0') + (Decimal(n) + tail);
    ZerosBefore(zeros, n, tail);
    DigitsOfDecimal(n, tail);
    SpacesBefore(spaces, sign + digits);
    SpacesBefore(spaces, tail);
    SpacesBefore(spaces, sign + tail);
    assert digits != "" && '0' <= digits[0] <= '9';
    if sign == "" {
      assert sign + digits == digits;
    } else {
      assert (sign + digits)[1..] == digits && (sign + tail)[1..] == tail;
    }
  }

  /** A Content-Length line is read back as the number that was written. */
  lemma ContentLengthRoundTrip(n: nat)
    ensures Atoi(Decimal(n) + "\n") == n
  {
    DigitsOfDecimal(n, "\n");
    assert Digits("\n", n) == n;
    assert (Decimal(n) + "\n")[0] == Decimal(n)[0];
  }
}
