/** What a whole header block leaves in the server's flags: which header sets which flag, and which of
    several decides. The branches and their texts are spelt out here. */
module HeaderEffects {
  import opened CStrings
  import opened LineEnds
  import opened HeaderFraming
  import opened HeaderFields
  import opened RequestHeaders
  import opened HeaderArrival

  // ----- one header -----

  /** The GET reader takes this item for a header of the field `f`. */
  predicate GetTakes(item: Item, f: Field) {
    var h := CStr(item.text); var t := IndexOf(h, ':');
    t < |h| && Select(h, t, GET_CHAIN) == f
  }

  /** Which header lines of a GET request are which, whatever their letter case and value. */
  lemma GetLinesSpelt(name: string, blanks: string, value: string, first: nat)
    requires ':' !in name && '\0' !in name
    requires IsValue(value) && forall i :: 0 <= i < |blanks| ==> blanks[i] in " \t\U{000B}\U{000C}"
    ensures var item := Header(name + (":" + (blanks + value)), first);
            && HasColon(item) && ValueOf(item) == value
            && (AnyCase(name, "connection") ==> GetTakes(item, Connection))
            && (AnyCase(name, "content-length") ==> GetTakes(item, ContentLength))
            && (AnyCase(name, "cookie") ==> GetTakes(item, Cookie))
            && (AnyCase(name, "if-modified-since") ==> GetTakes(item, IfModifiedSince))
            && (AnyCase(name, "accept-language") || AnyCase(name, "accept") ==> GetTakes(item, AcceptLanguage))
            && (AnyCase(name, "accept-charset") ==> GetTakes(item, AcceptCharset))
            && (AnyCase(name, "accept-encoding") ==> GetTakes(item, AcceptEncoding))
            && (AnyCase(name, "user-agent") ==> GetTakes(item, UserAgent))
            && (AnyCase(name, "authorization") ==> GetTakes(item, Authorization))
  {
    hide AnyCase, Select, CStr, IndexOf;
    var rest := blanks + value;
    NoNulInBlanks(blanks);
    SpaceExactly(value[0]);
    LineParts(name, rest);
    ValueExactly(name, blanks, value);
    GetNamesSpelt(name + (":" + rest), |name|);
    ColonFound(name + (":" + rest));
  }

  /** The comma lists, and what each is asked for. */
  lemma ListExactly(f: Flags, field: Field, v: string)
    ensures var n := ApplyList(f, field, v);
            && n.acceptableText
               == (if field == AcceptLanguage then f.acceptableText || ListNames(v, ["text/plain", "en-US", "en"])
                   else if field == Accept then ListNames(v, ["text/plain", "text/html"])
                   else f.acceptableText)
            && n.acceptableCharset
               == (if field == AcceptCharset then ListNames(v, ["ISO-8859-1"]) else f.acceptableCharset)
  {
    hide ListNames;
    TokensSpelt();
  }

  /** What one branch does to each of the other flags. */
  lemma GetBranchExactly(f: Flags, field: Field, v: string)
    ensures var n, l := ApplyGetFlag(f, field, v), ApplyList(f, field, v);
            && n.acceptableText == l.acceptableText && n.acceptableCharset == l.acceptableCharset
            && n.headerError == f.headerError && n.hasTimeTarget == f.hasTimeTarget
            && (n.cookie <==> f.cookie || field == Cookie)
            && (n.acceptableEncoding <==> f.acceptableEncoding && field != AcceptEncoding)
            && (n.timeIsValid <==> f.timeIsValid && (f.hasTimeTarget || field != IfModifiedSince))
            && n.keepAlive == (if field == Connection then KeepAlive(v, f.keepAlive) else f.keepAlive)
            && n.contentLength == (if field == ContentLength then Atoi(v) else f.contentLength)
            && n.userAgent == (if field == UserAgent then v else f.userAgent)
  {
    hide Atoi, ListNames, KeepAlive, ApplyList;
    ListFrame(f, field, v);
  }

  lemma KeepAliveSpelt(v: string, keepAlive: bool)
    ensures KeepAlive(v, keepAlive)
            == if PrefixNoCase("keep-alive", v) then true else if PrefixNoCase("close", v) then false else keepAlive
  {
    hide PrefixNoCase;
  }

  /** The branch that is taken. */
  lemma GetTakenBranch(s: GetState, item: Item) returns (field: Field)
    requires Sized(s.info) && GetFits(CStr(item.text))
    ensures field != Accept
    ensures HasColon(item) ==> forall f :: GetTakes(item, f) <==> f == field
    ensures !HasColon(item) ==> forall f :: !GetTakes(item, f)
    ensures ApplyGet(s, CStr(item.text)).flags
            == if !HasColon(item) then s.flags.(headerError := true)
               else if field == Authorization then s.flags
               else ApplyGetFlag(s.flags, field, ValueOf(item))
  {
    hide Select, Value, CStr, IndexOf, StoreAuth, AuthFits, ApplyGetFlag;
    var h := CStr(item.text);
    ColonFound(h);
    if ':' in h {
      GetAcceptIsDead(h, IndexOf(h, ':'));
      field := Select(h, IndexOf(h, ':'), GET_CHAIN);
    } else {
      field := Unknown;
    }
  }

  /** What one GET header does to each flag. */
  lemma GetHeaderExactly(s: GetState, item: Item)
    requires Sized(s.info) && GetFits(CStr(item.text))
    ensures var n, v := ApplyGet(s, CStr(item.text)).flags, ValueOf(item);
            && (n.headerError <==> s.flags.headerError || !HasColon(item))
            && (n.cookie <==> s.flags.cookie || GetTakes(item, Cookie))
            && (n.acceptableEncoding <==> s.flags.acceptableEncoding && !GetTakes(item, AcceptEncoding))
            && (n.acceptableText <==>
                  s.flags.acceptableText
                  || (GetTakes(item, AcceptLanguage) && ListNames(v, ["text/plain", "en-US", "en"])))
            && n.acceptableCharset
               == (if GetTakes(item, AcceptCharset) then ListNames(v, ["ISO-8859-1"]) else s.flags.acceptableCharset)
            && n.keepAlive
               == (if GetTakes(item, Connection) && PrefixNoCase("keep-alive", v) then true
                   else if GetTakes(item, Connection) && PrefixNoCase("close", v) then false
                   else s.flags.keepAlive)
            && n.contentLength == (if GetTakes(item, ContentLength) then Atoi(v) else s.flags.contentLength)
            && n.userAgent == (if GetTakes(item, UserAgent) then v else s.flags.userAgent)
            && n.hasTimeTarget == s.flags.hasTimeTarget
            && (n.timeIsValid <==> s.flags.timeIsValid && (s.flags.hasTimeTarget || !GetTakes(item, IfModifiedSince)))
  {
    hide CStr, Atoi, ListNames, PrefixNoCase, KeepAlive, ApplyGet, ApplyGetFlag, ApplyList, GetTakes, HasColon, ValueOf;
    var field := GetTakenBranch(s, item);
    GetBranchExactly(s.flags, field, ValueOf(item));
    KeepAliveSpelt(ValueOf(item), s.flags.keepAlive);
    ListExactly(s.flags, field, ValueOf(item));
  }

  /** And to the record: nothing, unless it is an Authorization header. */
  lemma GetRecordKept(s: GetState, item: Item)
    requires Sized(s.info) && GetFits(CStr(item.text)) && !GetTakes(item, Authorization)
    ensures ApplyGet(s, CStr(item.text)).info == s.info
  {
    hide Select, Value, CStr, IndexOf, ApplyGetFlag, StoreAuth, AuthFits;
  }

  // ----- a GET block -----

  ghost predicate AnyTakes(items: seq<Item>, f: Field) {
    exists j :: 0 <= j < |items| && GetTakes(items[j], f)
  }

  lemma GetFirst(s: GetState, items: seq<Item>)
    requires Sized(s.info) && GetFitsAll(items) && items != []
    ensures GetFits(CStr(items[0].text)) && GetFitsAll(items[1..])
    ensures ApplyGetAll(s, items) == ApplyGetAll(ApplyGet(s, CStr(items[0].text)), items[1..])
    ensures forall f :: AnyTakes(items, f) <==> GetTakes(items[0], f) || AnyTakes(items[1..], f)
  {
    hide ApplyGet, GetFits, CStr, GetTakes;
    var later := items[1..];
    assert forall j :: 0 <= j < |later| ==> later[j] == items[j + 1];
    forall f ensures AnyTakes(items, f) <==> GetTakes(items[0], f) || AnyTakes(later, f) {
      if j :| 0 <= j < |items| && GetTakes(items[j], f) {
        assert j > 0 ==> GetTakes(later[j - 1], f);
      }
      if j :| 0 <= j < |later| && GetTakes(later[j], f) {
        assert GetTakes(items[j + 1], f);
      }
    }
  }

  /** Some line of the block has no colon. */
  ghost predicate SomeWithoutColon(items: seq<Item>) {
    exists j :: 0 <= j < |items| && !HasColon(items[j])
  }

  lemma WithoutColonFirst(items: seq<Item>)
    requires items != []
    ensures SomeWithoutColon(items) <==> !HasColon(items[0]) || SomeWithoutColon(items[1..])
  {
    hide HasColon;
    var later := items[1..];
    assert forall j :: 0 <= j < |later| ==> later[j] == items[j + 1];
    if j :| 0 <= j < |items| && !HasColon(items[j]) {
      assert j > 0 ==> !HasColon(later[j - 1]);
    }
    if j :| 0 <= j < |later| && !HasColon(later[j]) {
      assert !HasColon(items[j + 1]);
    }
  }

  lemma NothingTaken()
    ensures !SomeWithoutColon([]) && forall f :: !AnyTakes([], f)
  {
  }

  /** The flags that every header of a field moves the same way. */
  lemma {:induction false} GetStickyFlags(s: GetState, items: seq<Item>)
    requires Sized(s.info) && GetFitsAll(items)
    ensures var n := ApplyGetAll(s, items).flags;
            && (n.cookie <==> s.flags.cookie || AnyTakes(items, Cookie))
            && (n.headerError <==> s.flags.headerError || SomeWithoutColon(items))
            && (n.acceptableEncoding <==> s.flags.acceptableEncoding && !AnyTakes(items, AcceptEncoding))
            && n.hasTimeTarget == s.flags.hasTimeTarget
            && (n.timeIsValid <==> s.flags.timeIsValid && (s.flags.hasTimeTarget || !AnyTakes(items, IfModifiedSince)))
    decreases |items|
  {
    hide ApplyGet, GetFits, CStr, GetTakes, AnyTakes, HasColon, SomeWithoutColon;
    if items == [] {
      NothingTaken();
    } else {
      GetFirst(s, items);
      WithoutColonFirst(items);
      GetHeaderExactly(s, items[0]);
      GetStickyFlags(ApplyGet(s, CStr(items[0].text)), items[1..]);
    }
  }

  /** An acceptable language or type turns the text flag on, and nothing turns it off. */
  ghost predicate SomeAcceptable(items: seq<Item>) {
    exists j :: 0 <= j < |items| && GetTakes(items[j], AcceptLanguage)
                && ListNames(ValueOf(items[j]), ["text/plain", "en-US", "en"])
  }

  lemma SomeAcceptableFirst(items: seq<Item>)
    requires items != []
    ensures SomeAcceptable(items) <==>
            SomeAcceptable(items[1..])
            || (GetTakes(items[0], AcceptLanguage) && ListNames(ValueOf(items[0]), ["text/plain", "en-US", "en"]))
  {
    hide ListNames, GetTakes, ValueOf;
    var tokens := ["text/plain", "en-US", "en"];
    var later := items[1..];
    assert forall j :: 0 <= j < |later| ==> later[j] == items[j + 1];
    if j :| 0 <= j < |items| && GetTakes(items[j], AcceptLanguage) && ListNames(ValueOf(items[j]), tokens) {
      assert j > 0 ==> GetTakes(later[j - 1], AcceptLanguage);
    }
    if j :| 0 <= j < |later| && GetTakes(later[j], AcceptLanguage) && ListNames(ValueOf(later[j]), tokens) {
      assert GetTakes(items[j + 1], AcceptLanguage);
    }
  }

  lemma NoneAcceptable()
    ensures !SomeAcceptable([])
  {
  }

  lemma {:induction false} GetTextFlag(s: GetState, items: seq<Item>)
    requires Sized(s.info) && GetFitsAll(items)
    ensures ApplyGetAll(s, items).flags.acceptableText <==> s.flags.acceptableText || SomeAcceptable(items)
    decreases |items|
  {
    hide ApplyGet, GetFits, CStr, GetTakes, SomeAcceptable, ListNames, ValueOf;
    if items == [] {
      NoneAcceptable();
    } else {
      GetFirst(s, items);
      SomeAcceptableFirst(items);
      GetHeaderExactly(s, items[0]);
      GetTextFlag(ApplyGet(s, CStr(items[0].text)), items[1..]);
    }
  }

  /** A Connection header with one of the two words the code looks for. */
  predicate Speaks(item: Item) {
    GetTakes(item, Connection)
    && (PrefixNoCase("keep-alive", ValueOf(item)) || PrefixNoCase("close", ValueOf(item)))
  }

  /** No header of a field: what it would set stays as it is. */
  lemma {:induction false} GetSilentFlags(s: GetState, items: seq<Item>)
    requires Sized(s.info) && GetFitsAll(items)
    ensures var n := ApplyGetAll(s, items).flags;
            && ((forall j :: 0 <= j < |items| ==> !Speaks(items[j])) ==> n.keepAlive == s.flags.keepAlive)
            && (!AnyTakes(items, ContentLength) ==> n.contentLength == s.flags.contentLength)
            && (!AnyTakes(items, AcceptCharset) ==> n.acceptableCharset == s.flags.acceptableCharset)
            && (!AnyTakes(items, UserAgent) ==> n.userAgent == s.flags.userAgent)
    ensures !AnyTakes(items, Authorization) ==> ApplyGetAll(s, items).info == s.info
    decreases |items|
  {
    hide ApplyGet, GetFits, CStr, GetTakes, AnyTakes, HasColon, ListNames, ValueOf, PrefixNoCase;
    if items == [] {
    } else {
      assert forall j :: 0 <= j < |items[1..]| ==> items[1..][j] == items[j + 1];
      GetFirst(s, items);
      GetHeaderExactly(s, items[0]);
      if !GetTakes(items[0], Authorization) {
        GetRecordKept(s, items[0]);
      }
      GetSilentFlags(ApplyGet(s, CStr(items[0].text)), items[1..]);
    }
  }

  lemma {:induction false} GetSplit(s: GetState, items: seq<Item>, at: nat) returns (before: GetState)
    requires Sized(s.info) && GetFitsAll(items) && at < |items|
    ensures Sized(before.info) && GetFitsAll(items[..at]) && before == ApplyGetAll(s, items[..at])
    ensures GetFits(CStr(items[at].text)) && GetFitsAll(items[at + 1..])
    ensures ApplyGetAll(s, items) == ApplyGetAll(ApplyGet(before, CStr(items[at].text)), items[at + 1..])
    decreases |items|
  {
    hide ApplyGet, GetFits, CStr, GetTakes, AnyTakes;
    GetFirst(s, items);
    if at == 0 {
      before := s;
    } else {
      var later := items[1..];
      before := GetSplit(ApplyGet(s, CStr(items[0].text)), later, at - 1);
      assert later[at..] == items[at + 1..] && items[..at][1..] == later[..at - 1];
      assert items[at] == later[at - 1];
      assert forall j :: 0 <= j < at ==> items[..at][j] == items[j];
    }
  }

  /** Of several headers the last decides; for Connection, the last that has one of its two words. */
  lemma GetLastDecides(s: GetState, items: seq<Item>, at: nat)
    requires Sized(s.info) && GetFitsAll(items) && at < |items|
    ensures var n, v, later := ApplyGetAll(s, items).flags, ValueOf(items[at]), items[at + 1..];
            && (Speaks(items[at]) && (forall j :: 0 <= j < |later| ==> !Speaks(later[j])) ==>
                  n.keepAlive == PrefixNoCase("keep-alive", v))
            && (GetTakes(items[at], ContentLength) && !AnyTakes(later, ContentLength) ==> n.contentLength == Atoi(v))
            && (GetTakes(items[at], AcceptCharset) && !AnyTakes(later, AcceptCharset) ==>
                  n.acceptableCharset == ListNames(v, ["ISO-8859-1"]))
            && (GetTakes(items[at], UserAgent) && !AnyTakes(later, UserAgent) ==> n.userAgent == v)
  {
    hide ApplyGet, ApplyGetAll, GetFits, GetFitsAll, CStr, GetTakes, AnyTakes, HasColon, ListNames, ValueOf,
         PrefixNoCase, Atoi;
    var before := GetSplit(s, items, at);
    GetHeaderExactly(before, items[at]);
    GetSilentFlags(ApplyGet(before, CStr(items[at].text)), items[at + 1..]);
  }

  lemma GetAuthorizationApplies(s: GetState, item: Item)
    requires Sized(s.info) && GetTakes(item, Authorization) && GetFits(CStr(item.text))
    ensures AuthFits(ValueOf(item)) && ApplyGet(s, CStr(item.text)).info == StoreAuth(s.info, ValueOf(item))
  {
    hide CStr, IndexOf, Select, StoreAuth, AuthFits, ApplyGetFlag, Value;
  }

  /** One Authorization header among the headers of a GET request, whatever its scheme: scheme and cipher
      end up in the record, and nothing else in it changes. */
  lemma GetCipherArrives(s: GetState, items: seq<Item>, at: nat, scheme: string, cipher: string)
    requires Sized(s.info) && GetFitsAll(items) && at < |items|
    requires IsScheme(scheme) && IsCipher(cipher)
    requires GetTakes(items[at], Authorization) && ValueOf(items[at]) == SchemeValue(scheme, cipher)
    requires forall j :: 0 <= j < |items| && j != at ==> !GetTakes(items[j], Authorization)
    ensures ApplyGetAll(s, items).info
            == s.info.(hasAuth := true, authMethod := MemCpy(s.info.authMethod, scheme),
                       authCipher := MemCpy(s.info.authCipher, cipher))
  {
    hide ApplyGet, ApplyGetAll, GetFits, GetFitsAll, CStr, GetTakes, ApplyGetFlag, MemCpy, ValueOf, SchemeValue;
    var before := GetSplit(s, items, at);
    var front, later := items[..at], items[at + 1..];
    assert forall j :: 0 <= j < |later| ==> later[j] == items[at + 1 + j];
    GetSilentFlags(s, front);
    SchemeStored(s.info, scheme, cipher);
    GetAuthorizationApplies(before, items[at]);
    GetSilentFlags(ApplyGet(before, CStr(items[at].text)), later);
  }

  // ----- a POST block -----

  /** What one item of a POST block does to the flags. */
  lemma PostItemExactly(s: PostState, item: Item)
    requires Sized(s.info) && PostItemFits(s.inBody, item)
    ensures var v := ValueOf(item);
            ApplyPost(s, item).flags
            == s.flags.(headerError := s.flags.headerError || (item.Header? && !HasColon(item)),
                        acceptableText := if Names(item, Accept) then ListNames(v, ["text/plain", "text/html"])
                                          else s.flags.acceptableText,
                        acceptableEncoding := s.flags.acceptableEncoding && !Names(item, AcceptEncoding),
                        userAgent := if Names(item, UserAgent) then v else s.flags.userAgent)
  {
    hide Select, Value, CStr, IndexOf, ListNames, ApplyPostInfo, PostFieldFits, ApplyList;
    ColonFound(CStr(item.text));
    if item.Header? && HasColon(item) {
      ListExactly(s.flags, Accept, ValueOf(item));
      ListFrame(s.flags, Accept, ValueOf(item));
    }
  }

  ghost predicate AnyNames(items: seq<Item>, f: Field) {
    exists j :: 0 <= j < |items| && Names(items[j], f)
  }

  ghost predicate SomeHeaderWithoutColon(items: seq<Item>) {
    exists j :: 0 <= j < |items| && items[j].Header? && !HasColon(items[j])
  }

  lemma PostFirst(items: seq<Item>)
    requires items != []
    ensures SomeHeaderWithoutColon(items)
            <==> (items[0].Header? && !HasColon(items[0])) || SomeHeaderWithoutColon(items[1..])
    ensures forall f :: AnyNames(items, f) <==> Names(items[0], f) || AnyNames(items[1..], f)
  {
    hide HasColon, Names;
    var later := items[1..];
    assert forall j :: 0 <= j < |later| ==> later[j] == items[j + 1];
    if j :| 0 <= j < |items| && items[j].Header? && !HasColon(items[j]) {
      assert j > 0 ==> !HasColon(later[j - 1]);
    }
    if j :| 0 <= j < |later| && later[j].Header? && !HasColon(later[j]) {
      assert !HasColon(items[j + 1]);
    }
    forall f ensures AnyNames(items, f) <==> Names(items[0], f) || AnyNames(later, f) {
      if j :| 0 <= j < |items| && Names(items[j], f) {
        assert j > 0 ==> Names(later[j - 1], f);
      }
      if j :| 0 <= j < |later| && Names(later[j], f) {
        assert Names(items[j + 1], f);
      }
    }
  }

  lemma NothingNamed()
    ensures !SomeHeaderWithoutColon([]) && forall f :: !AnyNames([], f)
  {
  }

  /** A whole POST block or body part: the flags that change, and that no other does. */
  lemma {:induction false} PostFlags(s: PostState, items: seq<Item>)
    requires Sized(s.info) && PostFitsAll(s.inBody, items)
    ensures var n := ApplyPostAll(s, items).flags;
            && (n.headerError <==> s.flags.headerError || SomeHeaderWithoutColon(items))
            && (n.acceptableEncoding <==> s.flags.acceptableEncoding && !AnyNames(items, AcceptEncoding))
            && (!AnyNames(items, Accept) ==> n.acceptableText == s.flags.acceptableText)
            && (!AnyNames(items, UserAgent) ==> n.userAgent == s.flags.userAgent)
            && n == s.flags.(headerError := n.headerError, acceptableEncoding := n.acceptableEncoding,
                             acceptableText := n.acceptableText, userAgent := n.userAgent)
    decreases |items|
  {
    hide ApplyPost, PostItemFits, Names, HasColon, ValueOf, ListNames, AnyNames, SomeHeaderWithoutColon;
    if items == [] {
      NothingNamed();
    } else {
      PostFirst(items);
      PostItemExactly(s, items[0]);
      PostFlags(ApplyPost(s, items[0]), items[1..]);
    }
  }

  /** Of several Accept or User-Agent headers the last decides. */
  lemma {:induction false} PostLastDecides(s: PostState, items: seq<Item>, at: nat)
    requires Sized(s.info) && PostFitsAll(s.inBody, items) && at < |items|
    ensures var n, v, later := ApplyPostAll(s, items).flags, ValueOf(items[at]), items[at + 1..];
            && (Names(items[at], Accept) && !AnyNames(later, Accept) ==>
                  n.acceptableText == ListNames(v, ["text/plain", "text/html"]))
            && (Names(items[at], UserAgent) && !AnyNames(later, UserAgent) ==> n.userAgent == v)
    decreases |items|
  {
    hide ApplyPost, PostItemFits, Names, HasColon, ValueOf, ListNames, AnyNames, SomeHeaderWithoutColon;
    var next := ApplyPost(s, items[0]);
    if at == 0 {
      PostItemExactly(s, items[0]);
      PostFlags(next, items[1..]);
    } else {
      assert items[1..][at - 1] == items[at] && items[1..][at..] == items[at + 1..];
      PostLastDecides(next, items[1..], at - 1);
    }
  }

  /** The lengths of the delimiter lines and of the first lines of headers. */
  function FirstLengths(items: seq<Item>): nat {
    if items == [] then 0
    else (match items[0] case Header(_, first) => first case Delimiter(text) => |text|) + FirstLengths(items[1..])
  }

  lemma HeaderLengthStep(s: PostState, item: Item)
    requires Sized(s.info) && PostItemFits(s.inBody, item)
    ensures ApplyPost(s, item).info.headerLen == s.info.headerLen + FirstLengths([item])
  {
    hide Select, Value, CStr, IndexOf, Atoi, AuthFits, ApplyPostFlag;
    assert [item][1..] == [];
  }

  /** The header length counts first lines and the empty line, but no continuation. */
  lemma {:induction false} HeaderLengthCounts(s: PostState, items: seq<Item>)
    requires Sized(s.info) && PostFitsAll(s.inBody, items)
    ensures ApplyPostAll(s, items).info.headerLen == s.info.headerLen + FirstLengths(items) + 1
    decreases |items|
  {
    hide PostItemFits, PostFits, ApplyPostHeader;
    if items == [] {
    } else {
      HeaderLengthStep(s, items[0]);
      HeaderLengthCounts(ApplyPost(s, items[0]), items[1..]);
    }
  }

  /** Without continuation lines it is the length of the block on the connection. */
  lemma {:induction false} NoContinuationLengths(lines: seq<string>)
    requires AreHeaderLines(lines) && forall i :: 0 <= i < |lines| ==> !IsFold(lines[i][0])
    ensures FirstLengths(Unfold(lines, true)) == |Concat(lines)|
  {
    hide IsDelimiter, IsFold;
    if lines == [] {
    } else {
      var later := lines[1..];
      assert forall j :: 0 <= j < |later| ==> later[j] == lines[j + 1];
      assert Continuations(later) == 0;
      NoContinuationLengths(later);
      assert lines[1 + 0..] == later;
      var items := Unfold(lines, true);
      assert items[1..] == Unfold(later, true);
    }
  }
}
