/** `read_headers` and `read_post_headers` on the server's own state. */
module RequestReader {
  import opened CStrings
  import opened LineEnds
  import opened LineReader
  import opened HeaderFraming
  import opened HeaderReader
  import opened HeaderFields
  import opened RequestHeaders

  /** The global variables of `http_server.c` that header lines set. */
  class Globals {
    var keepAlive: bool
    var contentLength: int
    var cookie: bool
    var headerError: bool
    var acceptableText: bool
    var acceptableCharset: bool
    var acceptableEncoding: bool
    var userAgent: string
    var hasTimeTarget: bool
    var timeIsValid: bool

    ghost function View(): Flags
      reads this
    {
      Flags(keepAlive, contentLength, cookie, headerError, acceptableText, acceptableCharset,
            acceptableEncoding, userAgent, hasTimeTarget, timeIsValid)
    }

    /** As the first request on a connection finds them. */
    constructor ()
      ensures View() == Flags(true, -1, false, false, true, true, true, "", false, true)
    {
      keepAlive, contentLength, cookie, headerError := true, -1, false, false;
      acceptableText, acceptableCharset, acceptableEncoding, userAgent := true, true, true, "";
      hasTimeTarget, timeIsValid := false, true;
    }
  }

  function Zeros(n: nat): string {
    seq(n, i => '\0')
  }

  const CLEARED: Info :=
    Info(0, 0, false, Zeros(METHOD_SIZE), Zeros(CIPHER_SIZE), Zeros(FIELD_SIZE), Zeros(FIELD_SIZE), Zeros(FIELD_SIZE))

  /** `St_header_info`. */
  class HeaderRecord {
    var headerLen: int
    var contentLength: int
    var hasAuth: bool
    const authMethod: array<char>
    const authCipher: array<char>
    const contentType: array<char>
    const disposition: array<char>
    const bodyType: array<char>

    ghost predicate Valid() {
      && authMethod.Length == METHOD_SIZE && authCipher.Length == CIPHER_SIZE
      && contentType.Length == disposition.Length == bodyType.Length == FIELD_SIZE
      && authCipher != contentType && authCipher != disposition && authCipher != bodyType
      && contentType != disposition && contentType != bodyType && disposition != bodyType
    }

    ghost function Buffers(): set<object> {
      {authMethod, authCipher, contentType, disposition, bodyType}
    }

    ghost function View(): (i: Info)
      reads this, Buffers()
      ensures Valid() ==> Sized(i)
    {
      Info(headerLen, contentLength, hasAuth, authMethod[..], authCipher[..], contentType[..],
           disposition[..], bodyType[..])
    }

    /** A record after `memset(.., 0, ..)`. */
    constructor Cleared()
      ensures Valid() && fresh(Buffers())
      ensures View() == CLEARED
    {
      headerLen, contentLength, hasAuth := 0, 0, false;
      authMethod := new char[METHOD_SIZE](i => '\0');
      authCipher := new char[CIPHER_SIZE](i => '\0');
      contentType := new char[FIELD_SIZE](i => '\0');
      disposition := new char[FIELD_SIZE](i => '\0');
      bodyType := new char[FIELD_SIZE](i => '\0');
      new;
      assert authMethod[..] == Zeros(METHOD_SIZE);
      assert authCipher[..] == Zeros(CIPHER_SIZE);
      assert contentType[..] == disposition[..] == bodyType[..] == Zeros(FIELD_SIZE);
    }
  }

  /** The offset of the first character of a header's value. */
  method SkipToValue(h: string, t: nat) returns (v: nat)
    requires t < |h|
    ensures t < v <= |h| && h[v..] == Value(h, t)
  {
    v := t + 1;
    while v < |h| && IsSpace(h[v]) && h[v] != '\n' && h[v] != '\r'
      invariant t < v <= |h|
      invariant SkipBlanks(h[v..]) == Value(h, t)
    {
      assert h[v..][1..] == h[v + 1..];
      v := v + 1;
    }
  }

  /** The `Authorization` branch, the same in both readers. */
  method StoreAuthorization(rec: HeaderRecord, value: string)
    requires rec.Valid() && AuthFits(value)
    modifies rec`hasAuth, rec.authMethod, rec.authCipher
    ensures rec.View() == StoreAuth(old(rec.View()), value)
  {
    rec.hasAuth := true;
    var space := IndexOf(value, ' ');
    MemCpyInto(rec.authMethod, value[..space]);
    var cipher := value[space + 1..];
    MemCpyInto(rec.authCipher, cipher[..IndexOf(cipher, '\n')]);
  }

  /** The `Accept-Language` branch. */
  method HandleLanguages(value: string, g: Globals)
    modifies g`acceptableText
    ensures g.View() == ApplyList(old(g.View()), AcceptLanguage, value)
  {
    hide ListNames, NoCommas;
    NoTokenHasComma();
    var found := ScanList(value, LANGUAGES);
    if found {
      g.acceptableText := true;
    }
  }

  /** The `Accept` branch, the same in both readers. */
  method HandleTextTypes(value: string, g: Globals)
    modifies g`acceptableText
    ensures g.View() == ApplyList(old(g.View()), Accept, value)
  {
    hide ListNames, NoCommas;
    NoTokenHasComma();
    g.acceptableText := false;
    var found := ScanList(value, TEXT_TYPES);
    if found {
      g.acceptableText := true;
    }
  }

  /** The `Accept-Charset` branch. */
  method HandleCharsets(value: string, g: Globals)
    modifies g`acceptableCharset
    ensures g.View() == ApplyList(old(g.View()), AcceptCharset, value)
  {
    hide ListNames, NoCommas;
    NoTokenHasComma();
    g.acceptableCharset := false;
    var found := ScanList(value, CHARSETS);
    if found {
      g.acceptableCharset := true;
    }
  }

  /** The branches with comma lists. */
  method HandleList(field: Field, value: string, g: Globals)
    modifies g
    ensures g.View() == ApplyList(old(g.View()), field, value)
  {
    hide ListNames;
    match field {
      case AcceptLanguage => HandleLanguages(value, g);
      case Accept => HandleTextTypes(value, g);
      case AcceptCharset => HandleCharsets(value, g);
      case _ =>
    }
  }

  lemma KeywordTest(value: string, keyword: string)
    ensures StrNCaseEq(value, keyword, |keyword|) <==> PrefixNoCase(keyword, value)
  {
    StrNCaseEqMeaning(value, keyword, |keyword|);
    assert keyword[..|keyword|] == keyword;
  }

  /** The `Connection` branch: the new setting, the old one when neither keyword is there. */
  method WantsKeepAlive(value: string, keepAlive: bool) returns (r: bool)
    ensures r == KeepAlive(value, keepAlive)
  {
    KeywordTest(value, "keep-alive");
    KeywordTest(value, "close");
    if StrNCaseEq(value, "keep-alive", |"keep-alive"|) {
      return true;
    } else if StrNCaseEq(value, "close", |"close"|) {
      return false;
    }
    return keepAlive;
  }

  /** The branches of `read_headers` that set flags. */
  method HandleGetFlag(field: Field, value: string, g: Globals)
    modifies g
    ensures g.View() == ApplyGetFlag(old(g.View()), field, value)
  {
    hide ApplyGetFlag, ApplyList, Atoi, KeepAlive;
    GetFlagCases(g.View(), field, value);
    match field {
      case Connection => g.keepAlive := WantsKeepAlive(value, g.keepAlive);
      case ContentLength => g.contentLength := Atoi(value);
      case Cookie => g.cookie := true;
      case IfModifiedSince =>
        if !g.hasTimeTarget {
          g.timeIsValid := false;
        }
      case AcceptLanguage | Accept | AcceptCharset => HandleList(field, value, g);
      case AcceptEncoding => g.acceptableEncoding := false;
      case UserAgent => g.userAgent := value;
      case _ =>
    }
  }

  /** One header of a GET request. */
  method HandleGetHeader(h: string, rec: HeaderRecord, g: Globals)
    requires rec.Valid() && GetFits(h)
    modifies g, rec`hasAuth, rec.authMethod, rec.authCipher
    ensures GetState(g.View(), rec.View()) == ApplyGet(old(GetState(g.View(), rec.View())), h)
  {
    hide Select, StoreAuth, AuthFits, ApplyGetFlag, Value, IndexOf, Sized;
    var t := IndexOf(h, ':');
    if t == |h| {
      g.headerError := true;
      return;
    }
    var v := SkipToValue(h, t);
    var field := Select(h, t, GET_CHAIN);
    if field == Authorization {
      StoreAuthorization(rec, h[v..]);
    } else {
      HandleGetFlag(field, h[v..], g);
    }
  }

  /** The branches of `read_post_headers` that set flags. */
  method HandlePostFlag(field: Field, value: string, g: Globals)
    modifies g
    ensures g.View() == ApplyPostFlag(old(g.View()), field, value)
  {
    match field {
      case Accept => HandleTextTypes(value, g);
      case AcceptEncoding => g.acceptableEncoding := false;
      case UserAgent => g.userAgent := value;
      case _ =>
    }
  }

  /** The branches that fill the record. */
  method HandlePostInfo(field: Field, value: string, inBody: bool, rec: HeaderRecord)
    requires rec.Valid() && PostFieldFits(inBody, field, value)
    modifies rec`hasAuth, rec`contentLength, rec.Buffers()
    ensures rec.View() == ApplyPostInfo(old(rec.View()), inBody, field, value)
  {
    hide StoreAuth, AuthFits, Atoi, StrCpy, Sized;
    match field {
      case Authorization => StoreAuthorization(rec, value);
      case ContentLength => rec.contentLength := Atoi(value);
      case ContentType =>
        if inBody {
          StrCpyInto(rec.bodyType, value);
        } else {
          StrCpyInto(rec.contentType, value);
        }
      case ContentDisposition =>
        if inBody {
          StrCpyInto(rec.disposition, value);
        }
      case _ =>
    }
  }

  /** One header of a POST request or of a body part. */
  method HandlePostHeader(h: string, inBody: bool, rec: HeaderRecord, g: Globals)
    requires rec.Valid() && PostFits(inBody, h)
    modifies g, rec`hasAuth, rec`contentLength, rec.Buffers()
    ensures PostState(g.View(), rec.View(), inBody)
            == ApplyPostHeader(old(PostState(g.View(), rec.View(), inBody)), h)
  {
    hide Select, ApplyPostFlag, ApplyPostInfo, PostFieldFits, Value, IndexOf, Sized;
    var t := IndexOf(h, ':');
    if t == |h| {
      g.headerError := true;
      return;
    }
    var v := SkipToValue(h, t);
    var field := Select(h, t, POST_CHAIN);
    HandlePostFlag(field, h[v..], g);
    HandlePostInfo(field, h[v..], inBody, rec);
  }

  /** The items a loop still has to read, and what it will leave. */
  lemma ReadBlockStep(n: string, post: bool)
    requires ReadBlock(n, post).Some?
    ensures var t := TakeTurn(n, post); var b := ReadBlock(n, post).value;
            && !t.Dry?
            && (t.Last? ==> b == Block([], t.rest))
            && (t.Next? ==> ReadBlock(t.rest, post).Some? && b.items != [] && b.items[0] == t.item
                            && ReadBlock(t.rest, post).value == Block(b.items[1..], b.rest))
  {
  }

  lemma GetStep(s: GetState, items: seq<Item>)
    requires Sized(s.info) && GetFitsAll(items) && items != []
    ensures GetFits(CStr(items[0].text)) && GetFitsAll(items[1..])
    ensures ApplyGetAll(s, items) == ApplyGetAll(ApplyGet(s, CStr(items[0].text)), items[1..])
  {
  }

  lemma ApplyNothing(s: GetState)
    requires Sized(s.info)
    ensures GetFitsAll([]) && ApplyGetAll(s, []) == s
  {
  }

  lemma NoDelimiters(n: string)
    ensures TakeTurn(n, false).Next? ==> TakeTurn(n, false).item.Header?
  {
  }

  /** Reads the headers of a GET request. It comes back only from a stream that holds the whole
      block; otherwise the loop spins at the end of the stream. */
  method ReadHeaders(sock: Socket, rec: HeaderRecord, g: Globals)
    requires sock.Valid() && rec.Valid()
    requires var b := ReadBlock(Normalise(sock.Unread()), false); b.Some? && GetFitsAll(b.value.items)
    modifies sock`cursor, g, rec`hasAuth, rec.authMethod, rec.authCipher
    ensures sock.Valid()
    ensures var b := ReadBlock(Normalise(old(sock.Unread())), false).value;
            && Normalise(sock.Unread()) == b.rest
            && GetState(g.View(), rec.View()) == ApplyGetAll(old(GetState(g.View(), rec.View())), b.items)
    ensures ReadOn(old(sock.Unread()), sock.Unread())
  {
    hide ReadBlock, TakeTurn, Normalise, ApplyGet, ApplyGetAll, GetFits, GetFitsAll, ReadOn, CStr;
    ghost var u0 := sock.Unread();
    ghost var block := ReadBlock(Normalise(u0), false).value;
    ghost var state := GetState(g.View(), rec.View());
    ghost var items := block.items;
    ReadNothing(u0);
    while true
      invariant sock.Valid() && ReadOn(u0, sock.Unread())
      invariant ReadBlock(Normalise(sock.Unread()), false) == Some(Block(items, block.rest))
      invariant GetFitsAll(items) && Sized(rec.View())
      invariant ApplyGetAll(GetState(g.View(), rec.View()), items) == ApplyGetAll(state, block.items)
      decreases |items|
    {
      ghost var u := sock.Unread();
      ReadBlockStep(Normalise(u), false);
      var header := new char[ROOM + 1];
      var kind, first, len := TakeHeader(sock, header, false);
      ReadOnTransitive(u0, u, sock.Unread());
      if kind == EmptyLine {
        ApplyNothing(GetState(g.View(), rec.View()));
        return;
      }
      NoDelimiters(Normalise(u));
      GetStep(GetState(g.View(), rec.View()), items);
      CStrEnds(header[..], len);
      assert header[..][..len] == header[..len];
      HandleGetHeader(CStr(header[..]), rec, g);
      items := items[1..];
    }
  }

  lemma PostStep(s: PostState, items: seq<Item>)
    requires Sized(s.info) && PostFitsAll(s.inBody, items)
    ensures items == [] ==> ApplyPostAll(s, items) == s.(info := s.info.(headerLen := s.info.headerLen + 1))
    ensures items != [] ==>
              && PostItemFits(s.inBody, items[0]) && PostFitsAll(s.inBody || items[0].Delimiter?, items[1..])
              && ApplyPostAll(s, items) == ApplyPostAll(ApplyPost(s, items[0]), items[1..])
  {
  }

  /** One turn of the loop of `read_post_headers`. */
  method TakePostItem(sock: Socket, rec: HeaderRecord, g: Globals, inBody: bool) returns (ended: bool, inBody': bool)
    requires sock.Valid() && rec.Valid()
    requires var t := TakeTurn(Normalise(sock.Unread()), true); !t.Dry? && (t.Next? ==> PostItemFits(inBody, t.item))
    modifies sock`cursor, g, rec, rec.Buffers()
    ensures sock.Valid() && ReadOn(old(sock.Unread()), sock.Unread())
    ensures var t := TakeTurn(Normalise(old(sock.Unread())), true);
            var s := old(PostState(g.View(), rec.View(), inBody));
            && ended == t.Last? && Normalise(sock.Unread()) == t.rest
            && PostState(g.View(), rec.View(), inBody')
               == if ended then s.(info := s.info.(headerLen := s.info.headerLen + 1)) else ApplyPost(s, t.item)
  {
    hide TakeTurn, Normalise, ApplyPostHeader, PostFits, ReadOn, CStr;
    ghost var s := PostState(g.View(), rec.View(), inBody);
    var header := new char[ROOM + 1];
    var kind, first, len := TakeHeader(sock, header, true);
    inBody' := inBody;
    rec.headerLen := rec.headerLen + first;
    assert rec.View() == s.info.(headerLen := s.info.headerLen + first);
    match kind
    case EmptyLine => return true, inBody;
    case DelimiterLine => return false, true;
    case HeaderLine =>
      CStrEnds(header[..], len);
      assert header[..][..len] == header[..len];
      HandlePostHeader(CStr(header[..]), inBody, rec, g);
      return false, inBody;
  }

  /** Reads the headers of a POST request, or the delimiter and headers of a body part. */
  method ReadPostHeaders(sock: Socket, rec: HeaderRecord, g: Globals)
    requires sock.Valid() && rec.Valid()
    requires var b := ReadBlock(Normalise(sock.Unread()), true); b.Some? && PostFitsAll(false, b.value.items)
    modifies sock`cursor, g, rec, rec.Buffers()
    ensures sock.Valid()
    ensures var b := ReadBlock(Normalise(old(sock.Unread())), true).value;
            var s := ApplyPostAll(old(PostState(g.View(), rec.View(), false)), b.items);
            Normalise(sock.Unread()) == b.rest && g.View() == s.flags && rec.View() == s.info
    ensures ReadOn(old(sock.Unread()), sock.Unread())
  {
    hide ReadBlock, TakeTurn, Normalise, ApplyPost, ApplyPostAll, PostItemFits, PostFitsAll, ReadOn;
    ghost var u0 := sock.Unread();
    ghost var block := ReadBlock(Normalise(u0), true).value;
    ghost var state := PostState(g.View(), rec.View(), false);
    ghost var items := block.items;
    var inBody := false;
    ReadNothing(u0);
    while true
      invariant sock.Valid() && ReadOn(u0, sock.Unread())
      invariant ReadBlock(Normalise(sock.Unread()), true) == Some(Block(items, block.rest))
      invariant PostFitsAll(inBody, items) && Sized(rec.View())
      invariant ApplyPostAll(PostState(g.View(), rec.View(), inBody), items) == ApplyPostAll(state, block.items)
      decreases |items|
    {
      ghost var u := sock.Unread();
      ReadBlockStep(Normalise(u), true);
      PostStep(PostState(g.View(), rec.View(), inBody), items);
      var ended;
      ended, inBody := TakePostItem(sock, rec, g, inBody);
      ReadOnTransitive(u0, u, sock.Unread());
      if ended {
        return;
      }
      items := items[1..];
    }
  }
}
