/** Authorization of a POST request as a whole: from the bytes on the connection to the verdict. */
module PostAuthorization {
  import opened CStrings
  import opened Base64
  import opened Base64Codec
  import opened LineEnds
  import opened LineReader
  import opened HeaderFraming
  import opened HeaderFields
  import opened RequestHeaders
  import opened RequestReader
  import opened HeaderArrival
  import opened HeaderEffects
  import opened Authorization

  datatype Outcome = Unauthorized | Checked(verdict: Verdict)

  /** The outcome for a request whose headers are `items`, read into a cleared record. */
  ghost function OutcomeOf(users: seq<CgiUser>, flags: Flags, items: seq<Item>): Outcome
    requires PostFitsAll(false, items)
  {
    var info := ApplyPostAll(PostState(flags, CLEARED, false), items).info;
    if info.hasAuth then Checked(Judge(users, CStr(info.authCipher))) else Unauthorized
  }

  /** The cipher field always holds a NUL: copies leave its last character alone or set it to NUL. */
  predicate Ended(i: Info) {
    Sized(i) && i.authCipher[CIPHER_SIZE - 1] == '\0'
  }

  lemma StoreKeepsEnd(i: Info, value: string)
    requires Ended(i) && AuthFits(value)
    ensures Ended(StoreAuth(i, value))
  {
  }

  lemma StaysEnded(s: PostState, item: Item)
    requires Ended(s.info) && PostItemFits(s.inBody, item)
    ensures Ended(ApplyPost(s, item).info)
  {
    hide Select, Atoi, ListNames, StrCpy, StoreAuth, AuthFits, Value;
    if item.Header? && Names(item, Authorization) {
      var h := CStr(item.text);
      StoreKeepsEnd(s.info.(headerLen := s.info.headerLen + item.first), Value(h, IndexOf(h, ':')));
    }
  }

  lemma {:induction false} EndedAfterAll(s: PostState, items: seq<Item>)
    requires Ended(s.info) && PostFitsAll(s.inBody, items)
    ensures Ended(ApplyPostAll(s, items).info)
    decreases |items|
  {
    hide ApplyPost, PostItemFits;
    if items == [] {
    } else {
      StaysEnded(s, items[0]);
      EndedAfterAll(ApplyPost(s, items[0]), items[1..]);
    }
  }

  lemma CipherIsTerminated(flags: Flags, items: seq<Item>)
    requires PostFitsAll(false, items)
    ensures var field := ApplyPostAll(PostState(flags, CLEARED, false), items).info.authCipher;
            |field| == CIPHER_SIZE && IndexOf(field, '\0') < |field|
  {
    hide ApplyPostAll, PostFitsAll;
    var s := PostState(flags, CLEARED, false);
    EndedAfterAll(s, items);
    var field := ApplyPostAll(s, items).info.authCipher;
    assert '\0' in field;
    assert field[..|field|] == field;
  }

  // ----- no Authorization header -----

  lemma AuthorizationSetsFlag(s: PostState, item: Item)
    requires Sized(s.info) && PostItemFits(s.inBody, item) && Names(item, Authorization)
    ensures ApplyPost(s, item).info.hasAuth
  {
    hide ApplyPost, PostItemFits, Names, AuthFits, ValueOf;
    NamedApplies(s, item, Authorization);
  }

  lemma {:induction false} HasAuthExactly(s: PostState, items: seq<Item>)
    requires Sized(s.info) && PostFitsAll(s.inBody, items)
    ensures ApplyPostAll(s, items).info.hasAuth <==> s.info.hasAuth || AnyNames(items, Authorization)
    decreases |items|
  {
    hide ApplyPost, PostItemFits, Names, AnyNames;
    if items == [] {
      NothingNamed();
    } else {
      PostFirst(items);
      if Names(items[0], Authorization) {
        AuthorizationSetsFlag(s, items[0]);
      } else {
        OthersKeep(s, items[0], Authorization);
      }
      HasAuthExactly(ApplyPost(s, items[0]), items[1..]);
    }
  }

  /** A request is turned away as unauthorized exactly when none of its headers is an Authorization
      header; with one, the verdict is that on its credentials. */
  lemma UnauthorizedExactly(users: seq<CgiUser>, flags: Flags, items: seq<Item>)
    requires PostFitsAll(false, items)
    ensures OutcomeOf(users, flags, items) == Unauthorized
            <==> forall j :: 0 <= j < |items| ==> !Names(items[j], Authorization)
    ensures OutcomeOf(users, flags, []) == Unauthorized
  {
    hide ApplyPostAll, Names, Judge, CStr;
    HasAuthExactly(PostState(flags, CLEARED, false), items);
    HasAuthExactly(PostState(flags, CLEARED, false), []);
    NothingNamed();
  }

  /** The verdict on a record; a request that is turned away does not keep its connection. */
  method JudgeRecord(users: seq<CgiUser>, rec: HeaderRecord, g: Globals) returns (o: Outcome)
    requires rec.Valid() && IndexOf(rec.authCipher[..], '\0') < CIPHER_SIZE
    modifies g`keepAlive
    ensures o == if rec.hasAuth then Checked(Judge(users, CStr(rec.authCipher[..]))) else Unauthorized
    ensures g.View() == if o == Unauthorized || o == Checked(Refused) then old(g.View()).(keepAlive := false)
                        else old(g.View())
  {
    hide Judge;
    if !rec.hasAuth {
      g.keepAlive := false;
      return Unauthorized;
    }
    var field := rec.authCipher[..];
    var end := IndexOf(field, '\0');
    assert field[..end + 1] == CStr(field) + ['\0'];
    var v := CheckAuthorization(users, field[..end + 1]);
    assert field[..end + 1][..end] == CStr(field);
    if v == Refused {
      g.keepAlive := false;
    }
    o := Checked(v);
  }

  /** The opening of `http_post_request`: clears a record, reads the headers and judges them. */
  method AuthorizePost(users: seq<CgiUser>, sock: Socket, g: Globals) returns (o: Outcome, rec: HeaderRecord)
    requires sock.Valid()
    requires var b := ReadBlock(Normalise(sock.Unread()), true); b.Some? && PostFitsAll(false, b.value.items)
    modifies sock`cursor, g
    ensures var b := ReadBlock(Normalise(old(sock.Unread())), true).value;
            var s := ApplyPostAll(PostState(old(g.View()), CLEARED, false), b.items);
            && o == OutcomeOf(users, old(g.View()), b.items)
            && (o == Unauthorized <==> forall j :: 0 <= j < |b.items| ==> !Names(b.items[j], Authorization))
            && fresh(rec) && fresh(rec.Buffers()) && rec.Valid() && rec.View() == s.info
            && sock.Valid() && Normalise(sock.Unread()) == b.rest
            && g.View() == if o == Unauthorized || o == Checked(Refused) then s.flags.(keepAlive := false) else s.flags
  {
    hide ReadBlock, ApplyPostAll, PostFitsAll, Judge, Normalise, Names;
    ghost var items := ReadBlock(Normalise(sock.Unread()), true).value.items;
    UnauthorizedExactly(users, g.View(), items);
    CipherIsTerminated(g.View(), items);
    rec := new HeaderRecord.Cleared();
    ReadPostHeaders(sock, rec, g);
    o := JudgeRecord(users, rec, g);
  }

  lemma ZerosAreEmpty()
    ensures CStr(Zeros(FIELD_SIZE)) == ""
  {
    IndexOfIs(Zeros(FIELD_SIZE), '\0', 0);
  }

  /** What the record holds where no header of a field was sent, and how many characters it counted. */
  lemma AbsentFields(flags: Flags, items: seq<Item>)
    requires PostFitsAll(false, items)
    ensures var i := ApplyPostAll(PostState(flags, CLEARED, false), items).info;
            && (!AnyNames(items, ContentLength) ==> i.contentLength == 0)
            && (!AnyNames(items, ContentType) ==> CStr(i.contentType) == "" && CStr(i.bodyType) == "")
            && (!AnyNames(items, ContentDisposition) ==> CStr(i.disposition) == "")
            && i.headerLen == FirstLengths(items) + 1
  {
    hide ApplyPostAll, PostFitsAll, Names, CStr;
    var s := PostState(flags, CLEARED, false);
    HeaderLengthCounts(s, items);
    ZerosAreEmpty();
    if !AnyNames(items, ContentLength) {
      OthersKeepAll(s, items, ContentLength);
    }
    if !AnyNames(items, ContentType) {
      OthersKeepAll(s, items, ContentType);
    }
    if !AnyNames(items, ContentDisposition) {
      OthersKeepAll(s, items, ContentDisposition);
    }
  }

  // ----- one Authorization header among others -----

  lemma SchemeCopies(s: PostState, item: Item, scheme: string, cipher: string)
    requires Sized(s.info) && IsScheme(scheme) && IsCipher(cipher)
    requires Names(item, Authorization) && ValueOf(item) == SchemeValue(scheme, cipher)
    ensures PostItemFits(s.inBody, item)
    ensures var r := ApplyPost(s, item).info;
            && r.hasAuth && r.authMethod == MemCpy(s.info.authMethod, scheme)
            && r.authCipher == MemCpy(s.info.authCipher, cipher)
  {
    hide AuthFits, StoreAuth, MemCpy, ApplyPost, PostItemFits, Names, ValueOf, SchemeValue;
    NamedApplies(s, item, Authorization);
    SchemeStored(s.info.(headerLen := s.info.headerLen + item.first), scheme, cipher);
  }

  /** Wherever the Authorization header stands among the others, and whatever its scheme, its cipher is
      what gets checked. */
  lemma CipherArrives(s: PostState, items: seq<Item>, at: nat, scheme: string, cipher: string)
    requires Sized(s.info) && s.info.authCipher == Zeros(CIPHER_SIZE) && s.info.authMethod == Zeros(METHOD_SIZE)
    requires PostFitsAll(s.inBody, items) && IsScheme(scheme) && IsCipher(cipher)
    requires OnlyHeader(items, at, Authorization, SchemeValue(scheme, cipher))
    ensures var r := ApplyPostAll(s, items).info;
            r.hasAuth && CStr(r.authCipher) == cipher && CStr(r.authMethod) == scheme
  {
    hide ApplyPost, ApplyPostAll, PostItemFits, PostFitsAll, Names, ValueOf, CStr, MemCpy, BehindDelimiter, SchemeValue;
    var before := OneHeaderDecides(s, items, at, Authorization);
    SchemeCopies(before, items[at], scheme, cipher);
    MemCpyHoldsIfCleared(s.info.authCipher, cipher);
    MemCpyHoldsIfCleared(s.info.authMethod, scheme);
  }

  lemma LettersArePlain(s: string)
    requires LettersAndPads(s)
    ensures '\n' !in s && '\0' !in s && '\r' !in s && '-' !in s
  {
    forall c | c in s ensures StartsGroup(c) {
      var j :| 0 <= j < |s| && s[j] == c;
    }
  }

  lemma CipherIsPlain(d: string)
    requires Octets(d)
    ensures '\n' !in Encode(d) && '\0' !in Encode(d) && '\r' !in Encode(d) && '-' !in Encode(d)
  {
    hide Encode, Decode;
    DecodeEncode(d);
    LettersArePlain(Encode(d));
  }

  /** End to end: among any other headers, one Authorization header with the credentials of a pair that
      RFC 7617 allows is granted exactly when the pair is in the user table. */
  lemma GrantedExactlyForUsers(users: seq<CgiUser>, flags: Flags, items: seq<Item>, at: nat, scheme: string,
                               user: string, pwd: string)
    requires IsUserPass(user, pwd) && Octets(user + ":" + pwd)
    requires |Encode(user + ":" + pwd)| <= 126 && IsScheme(scheme)
    requires PostFitsAll(false, items)
    requires OnlyHeader(items, at, Authorization, SchemeValue(scheme, Encode(user + ":" + pwd)))
    ensures OutcomeOf(users, flags, items) == Checked(if CgiUser(user, pwd) in users then Granted else Refused)
  {
    hide ApplyPostAll, Names, Encode, CStr, Credentials, PostFitsAll, OnlyHeader, SchemeValue;
    var cipher := Encode(user + ":" + pwd);
    CipherIsPlain(user + ":" + pwd);
    CipherArrives(PostState(flags, CLEARED, false), items, at, scheme, cipher);
    CredentialsRoundTrip(user, pwd);
  }

  lemma StaleCharacter(buf: string, text: string)
    requires |text| + 1 < |buf| && '\0' !in text && buf[|text|] != '\0'
    ensures CStr(MemCpy(buf, text)) == text + [buf[|text|]]
  {
    var shown := text + [buf[|text|]];
    assert MemCpy(buf, text) == shown + ['\0'] + buf[|text| + 2..];
    CStrOf(shown, buf[|text| + 2..]);
  }

  /** Two Authorization headers, and no more, anywhere among others. */
  predicate TwoCiphers(items: seq<Item>, a1: nat, a2: nat, scheme: string, c1: string, c2: string) {
    && a1 < a2 < |items| && IsScheme(scheme) && IsCipher(c1) && IsCipher(c2)
    && Names(items[a1], Authorization) && ValueOf(items[a1]) == SchemeValue(scheme, c1)
    && Names(items[a2], Authorization) && ValueOf(items[a2]) == SchemeValue(scheme, c2)
    && forall j :: 0 <= j < |items| && j != a1 && j != a2 ==> !Names(items[j], Authorization)
  }

  /** The second is copied over the first. */
  lemma {:induction false} TwoHeadersCopy(s: PostState, items: seq<Item>, a1: nat, a2: nat, scheme: string,
                                          c1: string, c2: string)
    requires Sized(s.info) && PostFitsAll(s.inBody, items)
    requires TwoCiphers(items, a1, a2, scheme, c1, c2)
    ensures ApplyPostAll(s, items).info.authCipher == MemCpy(MemCpy(s.info.authCipher, c1), c2)
    decreases |items|
  {
    hide ApplyPost, PostItemFits, Names, ValueOf, MemCpy, BehindDelimiter, SchemeValue, IsScheme;
    var next, later := ApplyPost(s, items[0]), items[1..];
    assert forall j :: 0 <= j < |later| ==> later[j] == items[j + 1];
    if a1 == 0 {
      SchemeCopies(s, items[0], scheme, c1);
      var before := OneHeaderDecides(next, later, a2 - 1, Authorization);
      SchemeCopies(before, items[a2], scheme, c2);
    } else {
      OthersKeep(s, items[0], Authorization);
      TwoHeadersCopy(next, later, a1 - 1, a2 - 1, scheme, c1, c2);
    }
  }

  /** Of two Authorization headers the second cipher is read back exactly when it is not shorter than the
      first; otherwise one character of the first shows behind it. */
  lemma SecondHeaderReadsBack(flags: Flags, items: seq<Item>, a1: nat, a2: nat, scheme: string, c1: string, c2: string)
    requires PostFitsAll(false, items) && TwoCiphers(items, a1, a2, scheme, c1, c2)
    ensures var field := CStr(ApplyPostAll(PostState(flags, CLEARED, false), items).info.authCipher);
            && (field == c2 <==> |c1| <= |c2|)
            && (|c2| < |c1| ==> field == c2 + [c1[|c2|]])
  {
    hide ApplyPostAll, PostFitsAll, CStr, ValueOf, SchemeValue, IsScheme, Names;
    TwoHeadersCopy(PostState(flags, CLEARED, false), items, a1, a2, scheme, c1, c2);
    var once := MemCpy(Zeros(CIPHER_SIZE), c1);
    assert once[|c2|] == if |c2| < |c1| then c1[|c2|] else '\0';
    MemCpyHoldsIfCleared(once, c2);
    assert |c2| < |c1| ==> c1[|c2|] in c1;
    if |c2| < |c1| {
      StaleCharacter(once, c2);
    }
  }

  // ----- on the wire -----

  /** A header block as lines, sent with CRLF. */
  ghost predicate IsSent(lines: seq<string>) {
    && AreHeaderLines(lines) && Fit(Unfold(lines, true))
    && (forall i :: 0 <= i < |lines| ==> '\r' !in lines[i])
    && PostFitsAll(false, Unfold(lines, true))
  }

  /** From the bytes on the connection: any lines that fit, the credentials in one header among them. */
  lemma RequestIsGranted(users: seq<CgiUser>, flags: Flags, lines: seq<string>, at: nat, scheme: string,
                         user: string, pwd: string, rest: string)
    requires IsUserPass(user, pwd) && Octets(user + ":" + pwd)
    requires |Encode(user + ":" + pwd)| <= 126 && IsScheme(scheme)
    requires IsSent(lines)
    requires OnlyHeader(Unfold(lines, true), at, Authorization, SchemeValue(scheme, Encode(user + ":" + pwd)))
    ensures var b := ReadBlock(Normalise(WithEol(Concat(lines) + "\n", "\r\n") + rest), true);
            && b.Some? && b.value.rest == Normalise(rest) && PostFitsAll(false, b.value.items)
            && OutcomeOf(users, flags, b.value.items)
               == Checked(if CgiUser(user, pwd) in users then Granted else Refused)
  {
    hide ReadBlock, Normalise, WithEol, Concat, Unfold, Fit, PostFitsAll, OutcomeOf, Encode, OnlyHeader, SchemeValue;
    BlockOnTheWire(lines, true, rest);
    GrantedExactlyForUsers(users, flags, Unfold(lines, true), at, scheme, user, pwd);
  }

  /** And the other way: a request none of whose lines makes an Authorization header is turned away. */
  lemma RequestWithoutCredentials(users: seq<CgiUser>, flags: Flags, lines: seq<string>, rest: string)
    requires IsSent(lines)
    ensures var b := ReadBlock(Normalise(WithEol(Concat(lines) + "\n", "\r\n") + rest), true);
            && b.Some? && b.value.rest == Normalise(rest) && PostFitsAll(false, b.value.items)
            && (OutcomeOf(users, flags, b.value.items) == Unauthorized
                <==> forall j :: 0 <= j < |Unfold(lines, true)| ==> !Names(Unfold(lines, true)[j], Authorization))
  {
    hide ReadBlock, Normalise, WithEol, Concat, Unfold, Fit, PostFitsAll, OutcomeOf, Names;
    BlockOnTheWire(lines, true, rest);
    UnauthorizedExactly(users, flags, Unfold(lines, true));
  }

  /** The header line of RFC 7617. */
  function BasicLine(cipher: string): string {
    "Authorization: Basic " + cipher + "\n"
  }

  lemma BasicIsScheme()
    ensures IsScheme("Basic") && ':' !in "Authorization" && '\0' !in "Authorization"
    ensures AnyCase("Authorization", "authorization")
  {
  }

  lemma BasicItem(cipher: string, first: nat)
    requires IsCipher(cipher)
    ensures OnlyHeader([Header(BasicLine(cipher), first)], 0, Authorization, SchemeValue("Basic", cipher))
  {
    hide AnyCase, Names, ValueOf, IsScheme;
    BasicIsScheme();
    SchemeValueIsValue("Basic", cipher);
    var value := SchemeValue("Basic", cipher);
    PostLinesSpelt("Authorization", " ", value, first);
    assert BasicLine(cipher) == "Authorization" + (":" + (" " + value));
  }

  lemma BasicItemFits(cipher: string, first: nat, inBody: bool)
    requires IsCipher(cipher)
    ensures PostItemFits(inBody, Header(BasicLine(cipher), first))
  {
    hide Names, ValueOf, PostItemFits, ApplyPost, SchemeValue, BasicLine, IsScheme;
    BasicIsScheme();
    BasicItem(cipher, first);
    var flags := Flags(true, -1, false, false, true, true, true, "", false, true);
    SchemeCopies(PostState(flags, CLEARED, inBody), Header(BasicLine(cipher), first), "Basic", cipher);
  }

  lemma DelimiterHasDash(line: string)
    requires IsDelimiter(line)
    ensures '-' in line
  {
    var s := CStr(line);
    var i: nat :| OccursAt(s, DASHES, i);
    assert s[i..i + |DASHES|][0] == '-';
    assert line[i] == s[i];
  }

  lemma NoDashNoDelimiter(line: string)
    requires '-' !in line
    ensures !IsDelimiter(line)
  {
    if IsDelimiter(line) {
      DelimiterHasDash(line);
    }
  }

  lemma BasicLineIsLine(cipher: string)
    requires '\n' !in cipher && '-' !in cipher
    ensures IsLine(BasicLine(cipher)) && BasicLine(cipher) != "\n" && '-' !in BasicLine(cipher)
  {
    var front := "Authorization: Basic " + cipher;
    assert '\n' !in "Authorization: Basic " && '-' !in "Authorization: Basic ";
    assert BasicLine(cipher)[..|front|] == front;
  }

  lemma TwoLineEnds(front: string, rest: string)
    requires '\r' !in front
    ensures Normalise(front + ("\r\n" + ("\r\n" + rest))) == (front + "\n") + ("\n" + Normalise(rest))
  {
    hide Normalise;
    NormaliseConcat(front, "\r\n" + ("\r\n" + rest));
    NormaliseIdentity(front);
    CrLfFirst("\r\n" + rest);
    CrLfFirst(rest);
    assert front + ("\n" + ("\n" + Normalise(rest))) == (front + "\n") + ("\n" + Normalise(rest));
  }

  lemma BasicRequestNormalised(cipher: string, rest: string)
    requires '\r' !in cipher
    ensures Normalise("Authorization: Basic " + cipher + ("\r\n" + ("\r\n" + rest)))
            == BasicLine(cipher) + ("\n" + Normalise(rest))
  {
    hide Normalise;
    var front := "Authorization: Basic " + cipher;
    assert '\r' !in "Authorization: Basic ";
    TwoLineEnds(front, rest);
  }

  lemma BasicLineFits(cipher: string)
    requires LettersAndPads(cipher) && |cipher| <= 126
    ensures PostFitsAll(false, [Header(BasicLine(cipher), |BasicLine(cipher)|)])
  {
    hide PostItemFits, BasicLine;
    LettersArePlain(cipher);
    BasicItemFits(cipher, |BasicLine(cipher)|, false);
    assert [Header(BasicLine(cipher), |BasicLine(cipher)|)][1..] == [];
  }

  /** The shortest such request: the header, an empty line, and whatever follows. */
  lemma BasicRequestIsRead(cipher: string, rest: string)
    requires LettersAndPads(cipher) && |cipher| <= 126
    ensures var line := BasicLine(cipher);
            ReadBlock(Normalise("Authorization: Basic " + cipher + ("\r\n" + ("\r\n" + rest))), true)
            == Some(Block([Header(line, |line|)], Normalise(rest)))
    ensures PostFitsAll(false, [Header(BasicLine(cipher), |BasicLine(cipher)|)])
  {
    hide Normalise, ReadBlock, IsDelimiter, Unfold, Concat, IsLine, PostFitsAll, LettersAndPads;
    var line := BasicLine(cipher);
    LettersArePlain(cipher);
    BasicRequestNormalised(cipher, rest);
    BasicLineIsLine(cipher);
    NoDashNoDelimiter(line);
    OneLineUnfolds(line, true);
    ConcatCons(line, []);
    ConcatNone();
    assert [line] + [] == [line] && line + [] == line;
    BlockUnfolds([line], true, Normalise(rest));
    BasicLineFits(cipher);
  }

  /** The whole chain, from the bytes of the request to the verdict on the pair they carry. */
  lemma BasicRequestIsGranted(users: seq<CgiUser>, flags: Flags, user: string, pwd: string, rest: string)
    requires IsUserPass(user, pwd) && Octets(user + ":" + pwd)
    requires |Encode(user + ":" + pwd)| <= 126
    ensures var sent := "Authorization: Basic " + Encode(user + ":" + pwd) + ("\r\n" + ("\r\n" + rest));
            var b := ReadBlock(Normalise(sent), true);
            && b.Some? && PostFitsAll(false, b.value.items) && b.value.rest == Normalise(rest)
            && OutcomeOf(users, flags, b.value.items)
               == Checked(if CgiUser(user, pwd) in users then Granted else Refused)
  {
    hide Encode, Decode, ReadBlock, Normalise, OutcomeOf, PostFitsAll;
    var cipher := Encode(user + ":" + pwd);
    DecodeEncode(user + ":" + pwd);
    BasicRequestIsRead(cipher, rest);
    CipherIsPlain(user + ":" + pwd);
    var item := Header(BasicLine(cipher), |BasicLine(cipher)|);
    BasicItem(cipher, item.first);
    BasicIsScheme();
    GrantedExactlyForUsers(users, flags, [item], 0, "Basic", user, pwd);
  }
}
