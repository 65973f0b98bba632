/** What one header line leaves in the record when it stands among others in a POST request or in a
    body part. */
module HeaderArrival {
  import opened CStrings
  import opened HeaderFraming
  import opened HeaderFields
  import opened RequestHeaders

  /** The value starts right behind the blanks and is plain text. */
  predicate IsValue(value: string) {
    value != "" && !IsSpace(value[0]) && '\0' !in value
  }

  /** The POST reader takes this item for a header of the field `f`. */
  predicate Names(item: Item, f: Field) {
    item.Header? && var h := CStr(item.text); var t := IndexOf(h, ':');
    t < |h| && Select(h, t, POST_CHAIN) == f
  }

  /** The value of a header line; the empty text when it has no colon. */
  function ValueOf(item: Item): string {
    var h := CStr(item.text); var t := IndexOf(h, ':');
    if t < |h| then Value(h, t) else ""
  }

  predicate HasColon(item: Item) {
    ':' in CStr(item.text)
  }

  lemma ColonFound(h: string)
    ensures IndexOf(h, ':') < |h| <==> ':' in h
  {
    var t := IndexOf(h, ':');
    assert t == |h| ==> h[..t] == h;
  }

  /** A name, a colon, and the rest of the line. */
  lemma LineParts(name: string, rest: string)
    requires ':' !in name && '\0' !in name && '\0' !in rest
    ensures var h := name + (":" + rest);
            CStr(h) == h && IndexOf(h, ':') == |name| && h[..|name|] == name && |name| < |h|
  {
    var h := name + (":" + rest);
    assert h[..|name|] == name;
    IndexOfIs(h, ':', |name|);
    CStrIdentity(h);
  }

  lemma NoNulInBlanks(blanks: string)
    requires forall i :: 0 <= i < |blanks| ==> blanks[i] in " \t\U{000B}\U{000C}"
    ensures '\0' !in blanks
  {
    assert '\0' !in " \t\U{000B}\U{000C}";
  }

  /** Which header lines of a POST request or a part are which, whatever their letter case and value. */
  lemma PostLinesSpelt(name: string, blanks: string, value: string, first: nat)
    requires ':' !in name && '\0' !in name
    requires IsValue(value) && forall i :: 0 <= i < |blanks| ==> blanks[i] in " \t\U{000B}\U{000C}"
    ensures var item := Header(name + (":" + (blanks + value)), first);
            && HasColon(item) && ValueOf(item) == value
            && (AnyCase(name, "authorization") ==> Names(item, Authorization))
            && (AnyCase(name, "content-length") ==> Names(item, ContentLength))
            && (AnyCase(name, "accept") ==> Names(item, Accept))
            && (AnyCase(name, "accept-encoding") ==> Names(item, AcceptEncoding))
            && (AnyCase(name, "user-agent") ==> Names(item, UserAgent))
            && (AnyCase(name, "content-type") ==> Names(item, ContentType))
            && (AnyCase(name, "content-disposition") ==> Names(item, ContentDisposition))
  {
    hide AnyCase, Select, CStr, IndexOf;
    var rest := blanks + value;
    NoNulInBlanks(blanks);
    SpaceExactly(value[0]);
    LineParts(name, rest);
    ValueExactly(name, blanks, value);
    PostNamesSpelt(name + (":" + rest), |name|);
    ColonFound(name + (":" + rest));
  }

  /** The value of an Authorization header, section 2 of RFC 7617. */
  function SchemeValue(scheme: string, cipher: string): string {
    scheme + [' '] + (cipher + ['\n'])
  }

  /** What the two fields can take. */
  predicate IsScheme(scheme: string) {
    scheme != "" && !IsSpace(scheme[0]) && ' ' !in scheme && '\0' !in scheme && |scheme| + 1 < METHOD_SIZE
  }

  predicate IsCipher(cipher: string) {
    '\n' !in cipher && '\0' !in cipher && |cipher| + 1 < CIPHER_SIZE
  }

  /** A value in two parts; nothing asks what the scheme is. */
  lemma ValueParts(scheme: string, cipher: string)
    requires ' ' !in scheme && '\n' !in cipher
    ensures var value := SchemeValue(scheme, cipher);
            && IndexOf(value, ' ') == |scheme| < |value| && value[..|scheme|] == scheme
            && value[|scheme| + 1..] == cipher + ['\n']
    ensures IndexOf(cipher + ['\n'], '\n') == |cipher| && (cipher + ['\n'])[..|cipher|] == cipher
  {
    hide IndexOf;
    var rest := cipher + ['\n'];
    assert SchemeValue(scheme, cipher) == scheme + ([' '] + rest);
    CutAt(SchemeValue(scheme, cipher), scheme, ' ', rest);
    assert rest == cipher + (['\n'] + []);
    CutAt(rest, cipher, '\n', []);
  }

  lemma SchemeValueIsValue(scheme: string, cipher: string)
    requires IsScheme(scheme) && IsCipher(cipher)
    ensures IsValue(SchemeValue(scheme, cipher))
  {
  }

  lemma SchemeStored(i: Info, scheme: string, cipher: string)
    requires Sized(i) && IsScheme(scheme) && IsCipher(cipher)
    ensures AuthFits(SchemeValue(scheme, cipher))
    ensures StoreAuth(i, SchemeValue(scheme, cipher))
            == i.(hasAuth := true, authMethod := MemCpy(i.authMethod, scheme),
                  authCipher := MemCpy(i.authCipher, cipher))
  {
    hide IndexOf, MemCpy, SchemeValue;
    ValueParts(scheme, cipher);
  }

  /** An item names one field at most, and fits when its value does. */
  lemma NamedFits(item: Item, f: Field, inBody: bool)
    requires Names(item, f)
    ensures PostItemFits(inBody, item) <==> PostFieldFits(inBody, f, ValueOf(item))
    ensures forall g :: Names(item, g) <==> g == f
  {
    hide Select, Value, CStr, IndexOf, PostFieldFits;
  }

  // ----- one header among others -----

  /** The fields of the record that the branch for `f` writes are the same. */
  predicate Same(f: Field, a: Info, b: Info) {
    match f
    case Authorization => a.hasAuth == b.hasAuth && a.authMethod == b.authMethod && a.authCipher == b.authCipher
    case ContentLength => a.contentLength == b.contentLength
    case ContentType => a.contentType == b.contentType && a.bodyType == b.bodyType
    case ContentDisposition => a.disposition == b.disposition
    case _ => true
  }

  lemma OthersKeep(s: PostState, item: Item, f: Field)
    requires Sized(s.info) && PostItemFits(s.inBody, item) && !Names(item, f)
    ensures Same(f, s.info, ApplyPost(s, item).info)
  {
    hide Select, Atoi, ListNames, StrCpy, MemCpy, AuthFits, Value, ApplyPostFlag;
  }

  lemma {:induction false} OthersKeepAll(s: PostState, items: seq<Item>, f: Field)
    requires Sized(s.info) && PostFitsAll(s.inBody, items)
    requires forall j :: 0 <= j < |items| ==> !Names(items[j], f)
    ensures Same(f, s.info, ApplyPostAll(s, items).info)
    decreases |items|
  {
    hide ApplyPost, PostItemFits, Names;
    if items == [] {
    } else {
      OthersKeep(s, items[0], f);
      OthersKeepAll(ApplyPost(s, items[0]), items[1..], f);
    }
  }

  /** A delimiter line stands in front of the item at `at`. */
  predicate BehindDelimiter(items: seq<Item>, at: nat)
    requires at <= |items|
  {
    exists d :: 0 <= d < at && items[d].Delimiter?
  }

  lemma BehindLater(items: seq<Item>, at: nat)
    requires 0 < at <= |items|
    ensures BehindDelimiter(items, at) <==> items[0].Delimiter? || BehindDelimiter(items[1..], at - 1)
  {
    if BehindDelimiter(items, at) {
      var d :| 0 <= d < at && items[d].Delimiter?;
      assert d > 0 ==> items[1..][d - 1].Delimiter?;
    }
  }

  /** Wherever the only header of a field stands, the field ends up as if it alone had been read, in a
      body part if a delimiter line stands in front of it. */
  lemma {:induction false} OneHeaderDecides(s: PostState, items: seq<Item>, at: nat, f: Field)
    returns (before: PostState)
    requires Sized(s.info) && PostFitsAll(s.inBody, items)
    requires at < |items| && forall j :: 0 <= j < |items| && j != at ==> !Names(items[j], f)
    ensures Sized(before.info) && PostItemFits(before.inBody, items[at])
    ensures Same(f, s.info, before.info)
    ensures before.inBody <==> s.inBody || BehindDelimiter(items, at)
    ensures Same(f, ApplyPost(before, items[at]).info, ApplyPostAll(s, items).info)
    decreases |items|
  {
    hide ApplyPost, PostItemFits, Names;
    var later := items[1..];
    assert forall j :: 0 <= j < |later| ==> later[j] == items[j + 1];
    if at == 0 {
      before := s;
      OthersKeepAll(ApplyPost(s, items[0]), later, f);
    } else {
      OthersKeep(s, items[0], f);
      BehindLater(items, at);
      before := OneHeaderDecides(ApplyPost(s, items[0]), later, at - 1, f);
    }
  }

  /** What the branch for `f` does to the record. */
  lemma NamedApplies(s: PostState, item: Item, f: Field)
    requires Sized(s.info) && Names(item, f)
    ensures item.Header?
    ensures PostItemFits(s.inBody, item) <==> PostFieldFits(s.inBody, f, ValueOf(item))
    ensures PostItemFits(s.inBody, item) ==>
              ApplyPost(s, item).info
              == ApplyPostInfo(s.info.(headerLen := s.info.headerLen + item.first), s.inBody, f, ValueOf(item))
  {
    hide Select, Value, CStr, IndexOf, ApplyPostInfo, ApplyPostFlag, PostFieldFits;
  }

  // ----- the fields an upload needs -----

  /** The item at `at` is the field's only header, with this value. */
  predicate OnlyHeader(items: seq<Item>, at: nat, f: Field, value: string) {
    && at < |items| && Names(items[at], f) && ValueOf(items[at]) == value
    && forall j :: 0 <= j < |items| && j != at ==> !Names(items[j], f)
  }

  /** The disposition of a part is stored exactly when a delimiter line was seen before it. */
  lemma DispositionArrives(s: PostState, items: seq<Item>, at: nat, value: string)
    requires IsValue(value) && Sized(s.info) && !s.inBody && PostFitsAll(false, items)
    requires OnlyHeader(items, at, ContentDisposition, value)
    ensures !BehindDelimiter(items, at) ==> ApplyPostAll(s, items).info.disposition == s.info.disposition
    ensures BehindDelimiter(items, at) ==>
              && |value| < FIELD_SIZE
              && ApplyPostAll(s, items).info.disposition == StrCpy(s.info.disposition, value)
              && CStr(ApplyPostAll(s, items).info.disposition) == value
  {
    hide ApplyPostAll, StoreAuth, AuthFits, PostFitsAll, ApplyPost, PostItemFits, Names, ValueOf, CStr, StrCpy,
         BehindDelimiter;
    var before := OneHeaderDecides(s, items, at, ContentDisposition);
    NamedApplies(before, items[at], ContentDisposition);
    if |value| < FIELD_SIZE {
      StrCpyHolds(s.info.disposition, value);
    }
  }

  /** The Content-Type of the request, in front of any delimiter line, fills its field; that of a part fills
      the other. */
  lemma ContentTypeArrives(s: PostState, items: seq<Item>, at: nat, value: string)
    requires IsValue(value) && Sized(s.info) && !s.inBody && PostFitsAll(false, items)
    requires OnlyHeader(items, at, ContentType, value)
    ensures |value| < FIELD_SIZE
    ensures BehindDelimiter(items, at) ==>
              && ApplyPostAll(s, items).info.contentType == s.info.contentType
              && ApplyPostAll(s, items).info.bodyType == StrCpy(s.info.bodyType, value)
    ensures !BehindDelimiter(items, at) ==>
              && ApplyPostAll(s, items).info.contentType == StrCpy(s.info.contentType, value)
              && ApplyPostAll(s, items).info.bodyType == s.info.bodyType
  {
    hide ApplyPostAll, StoreAuth, AuthFits, IsValue, PostFitsAll, ApplyPost, PostItemFits, Names, ValueOf, StrCpy,
         BehindDelimiter;
    var before := OneHeaderDecides(s, items, at, ContentType);
    NamedApplies(before, items[at], ContentType);
  }

  /** So does its Content-Length. */
  lemma ContentLengthArrives(s: PostState, items: seq<Item>, at: nat, n: nat)
    requires Sized(s.info) && PostFitsAll(s.inBody, items)
    requires OnlyHeader(items, at, ContentLength, Decimal(n) + "\n")
    ensures ApplyPostAll(s, items).info.contentLength == n
  {
    hide ApplyPostAll, StoreAuth, AuthFits, IsValue, PostFitsAll, ApplyPost, PostItemFits, Names, ValueOf,
         BehindDelimiter, Atoi, Decimal;
    var before := OneHeaderDecides(s, items, at, ContentLength);
    NamedApplies(before, items[at], ContentLength);
    ContentLengthRoundTrip(n);
  }

  lemma {:induction false} DecimalIsPlain(n: nat)
    ensures '\0' !in Decimal(n) && '\n' !in Decimal(n) && '\r' !in Decimal(n) && '-' !in Decimal(n)
    ensures Decimal(n) != ""
  {
    if n < 10 {
    } else {
      DecimalIsPlain(n / 10);
    }
  }

  lemma DecimalIsValue(n: nat)
    ensures IsValue(Decimal(n) + "\n")
  {
    hide Decimal;
    DecimalIsPlain(n);
    DigitsOfDecimal(n, "\n");
    assert (Decimal(n) + "\n")[0] == Decimal(n)[0];
  }
}
