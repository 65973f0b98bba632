/** Which branch a field name selects, and how the comma lists of the `Accept` fields are scanned. */
module HeaderFields {
  import opened CStrings

  datatype Field =
    | Connection | ContentLength | Cookie | IfModifiedSince | AcceptLanguage | Accept | AcceptCharset
    | AcceptEncoding | UserAgent | Authorization | ContentType | ContentDisposition | Unknown

  function Key(f: Field): string {
    match f
    case Connection => "Connection"
    case ContentLength => "Content-Length"
    case Cookie => "Cookie"
    case IfModifiedSince => "If-Modified-Since"
    case AcceptLanguage => "Accept-Language"
    case Accept => "Accept"
    case AcceptCharset => "Accept-Charset"
    case AcceptEncoding => "Accept-Encoding"
    case UserAgent => "User-Agent"
    case Authorization => "Authorization"
    case ContentType => "Content-Type"
    case ContentDisposition => "Content-Disposition"
    case Unknown => ""
  }

  /** The branches of `read_headers`, in the order they are tried. */
  const GET_CHAIN: seq<Field> :=
    [Connection, ContentLength, Cookie, IfModifiedSince, AcceptLanguage, Accept, AcceptCharset,
     AcceptEncoding, UserAgent, Authorization]

  /** The branches of `read_post_headers`. */
  const POST_CHAIN: seq<Field> :=
    [Authorization, ContentLength, Accept, AcceptEncoding, UserAgent, ContentType, ContentDisposition]

  /** The if-chain over `strncasecmp(header, key, header_type_len)`: the branch that is taken, or
      the length of the chain when none is. It is the first whose key has the name as a prefix. */
  function FirstMatch(header: string, t: nat, chain: seq<Field>): (k: nat)
    requires t <= |header|
    ensures k <= |chain|
    ensures forall i :: 0 <= i < k ==> !PrefixNoCase(header[..t], Key(chain[i]))
    ensures k < |chain| ==> PrefixNoCase(header[..t], Key(chain[k]))
  {
    if chain == [] then 0 else
    StrNCaseEqMeaning(header, Key(chain[0]), t);
    if StrNCaseEq(header, Key(chain[0]), t) then 0 else 1 + FirstMatch(header, t, chain[1..])
  }

  function Select(header: string, t: nat, chain: seq<Field>): Field
    requires t <= |header|
  {
    var k := FirstMatch(header, t, chain);
    if k < |chain| then chain[k] else Unknown
  }

  /** The same name, letter case ignored. */
  predicate SameName(name: string, key: string) {
    |name| == |key| && PrefixNoCase(name, key)
  }

  lemma SameNameSamePrefixes(name: string, key: string, other: string)
    requires SameName(name, key)
    ensures PrefixNoCase(name, other) <==> PrefixNoCase(key, other)
  {
    assert forall i :: 0 <= i < |name| ==> Lower(name[i]) == Lower(key[i]);
  }

  /** A complete field name takes its own branch exactly when no branch in front of it has a
      longer key that starts with the same letters. */
  lemma FullNameMatches(header: string, t: nat, chain: seq<Field>, k: nat)
    requires t <= |header| && k < |chain| && SameName(header[..t], Key(chain[k]))
    ensures FirstMatch(header, t, chain) == k
            <==> forall j :: 0 <= j < k ==> !PrefixNoCase(Key(chain[k]), Key(chain[j]))
  {
    forall j | 0 <= j < |chain|
      ensures PrefixNoCase(header[..t], Key(chain[j])) <==> PrefixNoCase(Key(chain[k]), Key(chain[j]))
    {
      SameNameSamePrefixes(header[..t], Key(chain[k]), Key(chain[j]));
    }
  }

  lemma Differ(a: string, b: string, i: nat)
    requires i < |a| && (i < |b| ==> Lower(a[i]) != Lower(b[i]))
    ensures !PrefixNoCase(a, b)
  {
  }

  function Initial(f: Field): char
    requires f != Unknown
  {
    match f
    case IfModifiedSince => 'i'
    case UserAgent => 'u'
    case AcceptLanguage | Accept | AcceptCharset | AcceptEncoding | Authorization => 'a'
    case _ => 'c'
  }

  lemma InitialOf(f: Field)
    requires f != Unknown
    ensures Key(f) != [] && Lower(Key(f)[0]) == Initial(f)
  {
  }

  lemma AKeysDiffer(f: Field, g: Field)
    requires f != g && {f, g} <= {AcceptLanguage, Accept, AcceptCharset, AcceptEncoding, Authorization}
    requires f == Accept ==> g == Authorization
    ensures !PrefixNoCase(Key(f), Key(g))
  {
    if f == Authorization || g == Authorization {
      Differ(Key(f), Key(g), 1);
    } else {
      Differ(Key(f), Key(g), 7);
    }
  }

  lemma CKeysDiffer(f: Field, g: Field)
    requires f != g && {f, g} <= {Connection, ContentLength, Cookie, ContentType, ContentDisposition}
    ensures !PrefixNoCase(Key(f), Key(g))
  {
    if f == Cookie || g == Cookie {
      Differ(Key(f), Key(g), 2);
    } else if f == Connection || g == Connection {
      Differ(Key(f), Key(g), 3);
    } else {
      Differ(Key(f), Key(g), 8);
    }
  }

  /** `Accept` is the only key that is a proper prefix of others. */
  lemma KeyDiffers(f: Field, g: Field)
    requires f != g && f != Unknown && g != Unknown
    requires f == Accept ==> g !in {AcceptLanguage, AcceptCharset, AcceptEncoding}
    ensures !PrefixNoCase(Key(f), Key(g))
  {
    hide Key;
    InitialOf(f);
    InitialOf(g);
    if Initial(f) != Initial(g) {
      Differ(Key(f), Key(g), 0);
    } else if Initial(f) == 'a' {
      AKeysDiffer(f, g);
    } else {
      CKeysDiffer(f, g);
    }
  }

  /** In the POST chain every complete name takes its own branch. */
  lemma PostNames(header: string, t: nat, k: nat)
    requires t <= |header| && k < |POST_CHAIN| && SameName(header[..t], Key(POST_CHAIN[k]))
    ensures Select(header, t, POST_CHAIN) == POST_CHAIN[k]
  {
    forall j | 0 <= j < k ensures !PrefixNoCase(Key(POST_CHAIN[k]), Key(POST_CHAIN[j])) {
      KeyDiffers(POST_CHAIN[k], POST_CHAIN[j]);
    }
    FullNameMatches(header, t, POST_CHAIN, k);
  }

  lemma AcceptIsShadowed()
    ensures Key(AcceptLanguage)[..6] == Key(Accept)
    ensures PrefixNoCase(Key(Accept), Key(AcceptLanguage))
  {
    assert forall i :: 0 <= i < 6 ==> Key(AcceptLanguage)[..6][i] == Key(AcceptLanguage)[i];
  }

  lemma ReadAsAcceptLanguage(header: string, t: nat)
    requires t <= |header| && SameName(header[..t], Key(Accept))
    ensures Select(header, t, GET_CHAIN) == AcceptLanguage
  {
    forall j | 0 <= j < 4 ensures !PrefixNoCase(header[..t], Key(GET_CHAIN[j])) {
      KeyDiffers(Accept, GET_CHAIN[j]);
      SameNameSamePrefixes(header[..t], Key(Accept), Key(GET_CHAIN[j]));
    }
    SameNameSamePrefixes(header[..t], Key(Accept), Key(AcceptLanguage));
    AcceptIsShadowed();
    assert GET_CHAIN[4] == AcceptLanguage;
  }

  /** In the GET chain every complete name takes its own branch except `Accept`, which is read as
      `Accept-Language`. */
  lemma GetNames(header: string, t: nat, k: nat)
    requires t <= |header| && k < |GET_CHAIN| && SameName(header[..t], Key(GET_CHAIN[k]))
    ensures Select(header, t, GET_CHAIN) == if GET_CHAIN[k] == Accept then AcceptLanguage else GET_CHAIN[k]
  {
    if GET_CHAIN[k] == Accept {
      ReadAsAcceptLanguage(header, t);
    } else {
      forall j | 0 <= j < k ensures !PrefixNoCase(Key(GET_CHAIN[k]), Key(GET_CHAIN[j])) {
        KeyDiffers(GET_CHAIN[k], GET_CHAIN[j]);
      }
      FullNameMatches(header, t, GET_CHAIN, k);
    }
  }

  /** No name whatever, complete or abbreviated, reaches the `Accept` branch of `read_headers`. */
  lemma GetAcceptIsDead(header: string, t: nat)
    requires t <= |header|
    ensures Select(header, t, GET_CHAIN) != Accept
  {
    var name := header[..t];
    AcceptIsShadowed();
    assert PrefixNoCase(name, Key(Accept)) ==> PrefixNoCase(name, Key(AcceptLanguage)) by {
      assert forall i :: 0 <= i < 6 ==> Key(Accept)[i] == Key(AcceptLanguage)[..6][i];
    }
    assert GET_CHAIN[4] == AcceptLanguage;
  }

  // ----- the names, letter by letter -----

  /** `name` is `small`, with any of its letters as capitals. */
  predicate AnyCase(name: string, small: string) {
    |name| == |small| && forall i :: 0 <= i < |name| ==>
      name[i] == small[i] || ('a' <= small[i] <= 'z' && name[i] as int == small[i] as int - 32)
  }

  lemma AnyCaseSameName(name: string, small: string, key: string)
    requires AnyCase(name, small) && LowerAll(key) == small
    ensures SameName(name, key)
  {
    forall i | 0 <= i < |name| ensures Lower(name[i]) == Lower(key[i]) {
      assert small[i] == LowerAll(key)[i];
    }
  }

  lemma SmallKeys()
    ensures LowerAll(Key(Connection)) == "connection" && LowerAll(Key(Cookie)) == "cookie"
    ensures LowerAll(Key(Authorization)) == "authorization" && LowerAll(Key(UserAgent)) == "user-agent"
  {
  }

  lemma SmallAcceptKeys()
    ensures LowerAll(Key(Accept)) == "accept" && LowerAll(Key(AcceptLanguage)) == "accept-language"
    ensures LowerAll(Key(AcceptCharset)) == "accept-charset" && LowerAll(Key(AcceptEncoding)) == "accept-encoding"
  {
  }

  lemma SmallContentKeys()
    ensures LowerAll(Key(ContentLength)) == "content-length" && LowerAll(Key(ContentType)) == "content-type"
  {
  }

  lemma SmallLongKeys()
    ensures LowerAll(Key(ContentDisposition)) == "content-disposition"
    ensures LowerAll(Key(IfModifiedSince)) == "if-modified-since"
  {
  }

  lemma GetNameTaken(header: string, t: nat, k: nat, small: string)
    requires t <= |header| && k < |GET_CHAIN| && LowerAll(Key(GET_CHAIN[k])) == small
    ensures AnyCase(header[..t], small) ==>
              Select(header, t, GET_CHAIN) == if GET_CHAIN[k] == Accept then AcceptLanguage else GET_CHAIN[k]
  {
    if AnyCase(header[..t], small) {
      AnyCaseSameName(header[..t], small, Key(GET_CHAIN[k]));
      GetNames(header, t, k);
    }
  }

  lemma PostNameTaken(header: string, t: nat, k: nat, small: string)
    requires t <= |header| && k < |POST_CHAIN| && LowerAll(Key(POST_CHAIN[k])) == small
    ensures AnyCase(header[..t], small) ==> Select(header, t, POST_CHAIN) == POST_CHAIN[k]
  {
    if AnyCase(header[..t], small) {
      AnyCaseSameName(header[..t], small, Key(POST_CHAIN[k]));
      PostNames(header, t, k);
    }
  }

  /** Which branch of `read_headers` each name takes, in whatever letter case. */
  lemma GetNamesSpelt(header: string, t: nat)
    requires t <= |header|
    ensures var name, field := header[..t], Select(header, t, GET_CHAIN);
            && (AnyCase(name, "connection") ==> field == Connection)
            && (AnyCase(name, "content-length") ==> field == ContentLength)
            && (AnyCase(name, "cookie") ==> field == Cookie)
            && (AnyCase(name, "if-modified-since") ==> field == IfModifiedSince)
            && (AnyCase(name, "accept-language") || AnyCase(name, "accept") ==> field == AcceptLanguage)
            && (AnyCase(name, "accept-charset") ==> field == AcceptCharset)
            && (AnyCase(name, "accept-encoding") ==> field == AcceptEncoding)
            && (AnyCase(name, "user-agent") ==> field == UserAgent)
            && (AnyCase(name, "authorization") ==> field == Authorization)
  {
    hide AnyCase, Select, Key, LowerAll;
    SmallKeys();
    SmallAcceptKeys();
    SmallContentKeys();
    SmallLongKeys();
    GetNameTaken(header, t, 0, "connection");
    GetNameTaken(header, t, 1, "content-length");
    GetNameTaken(header, t, 2, "cookie");
    GetNameTaken(header, t, 3, "if-modified-since");
    GetNameTaken(header, t, 4, "accept-language");
    GetNameTaken(header, t, 5, "accept");
    GetNameTaken(header, t, 6, "accept-charset");
    GetNameTaken(header, t, 7, "accept-encoding");
    GetNameTaken(header, t, 8, "user-agent");
    GetNameTaken(header, t, 9, "authorization");
  }

  /** The same for `read_post_headers`, where `Accept` has a branch of its own. */
  lemma PostNamesSpelt(header: string, t: nat)
    requires t <= |header|
    ensures var name, field := header[..t], Select(header, t, POST_CHAIN);
            && (AnyCase(name, "authorization") ==> field == Authorization)
            && (AnyCase(name, "content-length") ==> field == ContentLength)
            && (AnyCase(name, "accept") ==> field == Accept)
            && (AnyCase(name, "accept-encoding") ==> field == AcceptEncoding)
            && (AnyCase(name, "user-agent") ==> field == UserAgent)
            && (AnyCase(name, "content-type") ==> field == ContentType)
            && (AnyCase(name, "content-disposition") ==> field == ContentDisposition)
  {
    hide AnyCase, Select, Key, LowerAll;
    SmallKeys();
    SmallAcceptKeys();
    SmallContentKeys();
    SmallLongKeys();
    PostNameTaken(header, t, 0, "authorization");
    PostNameTaken(header, t, 1, "content-length");
    PostNameTaken(header, t, 2, "accept");
    PostNameTaken(header, t, 3, "accept-encoding");
    PostNameTaken(header, t, 4, "user-agent");
    PostNameTaken(header, t, 5, "content-type");
    PostNameTaken(header, t, 6, "content-disposition");
  }

  /** No branch is taken exactly when the name begins no key; an empty name begins every key, so it
      takes the first branch. */
  lemma SelectsNothing(header: string, t: nat, chain: seq<Field>)
    requires t <= |header| && Unknown !in chain
    ensures Select(header, t, chain) == Unknown
            <==> forall j :: 0 <= j < |chain| ==> !PrefixNoCase(header[..t], Key(chain[j]))
    ensures t == 0 && chain != [] ==> Select(header, t, chain) == chain[0]
  {
    hide Key;
    var k := FirstMatch(header, t, chain);
    assert k < |chain| ==> chain[k] in chain;
  }

  /** The keys of both chains in the order they are tried. */
  lemma ChainsSpelt()
    ensures var g := seq(|GET_CHAIN|, i requires 0 <= i < |GET_CHAIN| => Key(GET_CHAIN[i]));
            g == ["Connection", "Content-Length", "Cookie", "If-Modified-Since", "Accept-Language", "Accept",
                  "Accept-Charset", "Accept-Encoding", "User-Agent", "Authorization"]
    ensures var p := seq(|POST_CHAIN|, i requires 0 <= i < |POST_CHAIN| => Key(POST_CHAIN[i]));
            p == ["Authorization", "Content-Length", "Accept", "Accept-Encoding", "User-Agent", "Content-Type",
                  "Content-Disposition"]
  {
  }

  // ----- comma lists -----

  const TEXT_TYPES: seq<string> := ["text/plain", "text/html"]
  const LANGUAGES: seq<string> := ["text/plain", "en-US", "en"]
  const CHARSETS: seq<string> := ["ISO-8859-1"]

  lemma TokensSpelt()
    ensures TEXT_TYPES == ["text/plain", "text/html"] && CHARSETS == ["ISO-8859-1"]
    ensures LANGUAGES == ["text/plain", "en-US", "en"]
  {
  }

  predicate NoCommas(tokens: seq<string>) {
    forall i :: 0 <= i < |tokens| ==> ',' !in tokens[i]
  }

  lemma NoTokenHasComma()
    ensures NoCommas(TEXT_TYPES) && NoCommas(LANGUAGES) && NoCommas(CHARSETS)
  {
  }

  /** One of the tokens is a prefix, letter case ignored. */
  predicate StartsWithAny(s: string, tokens: seq<string>) {
    exists i :: 0 <= i < |tokens| && PrefixNoCase(tokens[i], s)
  }

  /** The tests `strncasecmp(s, token, strlen(token)) == 0`, one token after the other. */
  predicate MatchesAny(s: string, tokens: seq<string>): (b: bool)
    ensures b <==> StartsWithAny(s, tokens)
  {
    if tokens == [] then false else
    StrNCaseEqMeaning(s, tokens[0], |tokens[0]|);
    assert tokens[0][..|tokens[0]|] == tokens[0];
    assert forall i :: 0 < i < |tokens| ==> tokens[i] == tokens[1..][i - 1];
    StrNCaseEq(s, tokens[0], |tokens[0]|) || MatchesAny(s, tokens[1..])
  }

  function TrimLeft(s: string): string {
    if s != [] && IsSpace(s[0]) then TrimLeft(s[1..]) else s
  }

  /** Some left-trimmed element starts with one of the tokens. */
  ghost predicate TrimmedNames(elements: seq<string>, tokens: seq<string>) {
    exists j :: 0 <= j < |elements| && StartsWithAny(TrimLeft(elements[j]), tokens)
  }

  /** Some element starts with one of the tokens; all elements but the first are left-trimmed. */
  ghost predicate ListNames(value: string, tokens: seq<string>) {
    var elements := Split(value, ',');
    StartsWithAny(elements[0], tokens) || TrimmedNames(elements[1..], tokens)
  }

  lemma TokenInElement(s: string, token: string)
    requires ',' !in token
    ensures PrefixNoCase(token, s) <==> PrefixNoCase(token, s[..IndexOf(s, ',')])
  {
    var i := IndexOf(s, ',');
    assert PrefixNoCase(token, s) && i < |s| ==> |token| <= i by {
      assert forall j :: 0 <= j < |token| ==> token[j] in token && Lower(token[j]) != Lower(',');
    }
  }

  lemma AnyTokenInElement(s: string, tokens: seq<string>)
    requires NoCommas(tokens)
    ensures StartsWithAny(s, tokens) <==> StartsWithAny(Split(s, ',')[0], tokens)
  {
    var element := Split(s, ',')[0];
    assert element == s[..IndexOf(s, ',')];
    forall k | 0 <= k < |tokens|
      ensures PrefixNoCase(tokens[k], s) <==> PrefixNoCase(tokens[k], element)
    {
      TokenInElement(s, tokens[k]);
    }
  }

  lemma TrimmedNamesFirst(elements: seq<string>, tokens: seq<string>)
    requires elements != []
    ensures TrimmedNames(elements, tokens)
            <==> StartsWithAny(TrimLeft(elements[0]), tokens) || TrimmedNames(elements[1..], tokens)
  {
    var later := elements[1..];
    assert forall j :: 0 < j < |elements| ==> elements[j] == later[j - 1];
    if j :| 0 <= j < |later| && StartsWithAny(TrimLeft(later[j]), tokens) {
      assert later[j] == elements[j + 1];
    }
  }

  lemma NothingTrimmed(tokens: seq<string>)
    ensures !TrimmedNames([], tokens)
  {
  }

  /** Trimming a list trims its first element and nothing else. */
  lemma {:induction false} TrimSplit(s: string)
    ensures Split(TrimLeft(s), ',') == [TrimLeft(Split(s, ',')[0])] + Split(s, ',')[1..]
  {
    if s != [] && IsSpace(s[0]) {
      TrimSplit(s[1..]);
      assert IndexOf(s, ',') == 1 + IndexOf(s[1..], ',');
      var i := IndexOf(s, ',');
      assert s[..i][1..] == s[1..][..i - 1];
      if i < |s| {
        assert s[i + 1..] == s[1..][i..];
      }
    } else {
      assert TrimLeft(Split(s, ',')[0]) == Split(s, ',')[0];
    }
  }

  /** The list names a token in its first element or, left-trimmed, in what follows the comma. */
  lemma FirstElement(s: string, tokens: seq<string>)
    requires NoCommas(tokens)
    ensures var i := IndexOf(s, ',');
            ListNames(s, tokens) <==>
            StartsWithAny(s, tokens) || (i < |s| && ListNames(TrimLeft(s[i + 1..]), tokens))
  {
    hide StartsWithAny, TrimmedNames, TrimLeft;
    var i := IndexOf(s, ',');
    AnyTokenInElement(s, tokens);
    if i < |s| {
      var rest := s[i + 1..];
      var others := Split(rest, ',');
      assert Split(s, ',')[1..] == others;
      TrimSplit(rest);
      TrimmedNamesFirst(others, tokens);
      assert Split(TrimLeft(rest), ',')[1..] == others[1..];
    } else {
      NothingTrimmed(tokens);
      assert Split(s, ',')[1..] == [];
    }
  }

  // ----- where a list names a token -----

  /** The text at `p` starts with a token, and what stands in front of it is the start of the list, or
      a comma and whitespace. */
  ghost predicate ListedAt(s: string, p: nat, tokens: seq<string>) {
    && p <= |s| && StartsWithAny(s[p..], tokens)
    && (p == 0 || exists c :: 0 <= c < p && s[c] == ',' && forall j :: c < j < p ==> IsSpace(s[j]))
  }

  predicate NoBlankStarts(tokens: seq<string>) {
    forall i :: 0 <= i < |tokens| ==> tokens[i] != "" && !IsSpace(tokens[i][0])
  }

  lemma TokensStartWell()
    ensures NoBlankStarts(TEXT_TYPES) && NoBlankStarts(LANGUAGES) && NoBlankStarts(CHARSETS)
  {
  }

  lemma {:induction false} TrimLeftCuts(s: string) returns (k: nat)
    ensures k <= |s| && TrimLeft(s) == s[k..] && (k < |s| ==> !IsSpace(s[k]))
    ensures forall j :: 0 <= j < k ==> IsSpace(s[j])
  {
    if s != [] && IsSpace(s[0]) {
      var k' := TrimLeftCuts(s[1..]);
      k := 1 + k';
      assert s[1..][k'..] == s[k..];
      assert forall j :: 1 <= j < k ==> s[j] == s[1..][j - 1];
    } else {
      k := 0;
    }
  }

  lemma StartIsNoBlank(s: string, p: nat, tokens: seq<string>)
    requires p <= |s| && NoBlankStarts(tokens) && StartsWithAny(s[p..], tokens)
    ensures p < |s| && !IsSpace(s[p])
  {
    var i :| 0 <= i < |tokens| && PrefixNoCase(tokens[i], s[p..]);
    assert Lower(tokens[i][0]) == Lower(s[p..][0]);
  }

  /** The places of a list are its start, and those of what follows its first comma. */
  lemma ListedLater(s: string, tokens: seq<string>, o: nat, p: nat)
    requires NoBlankStarts(tokens)
    requires IndexOf(s, ',') < o <= |s| && (o < |s| ==> !IsSpace(s[o]))
    requires forall j :: IndexOf(s, ',') < j < o ==> IsSpace(s[j])
    ensures p >= o ==> (ListedAt(s, p, tokens) <==> ListedAt(s[o..], p - o, tokens))
    ensures 0 < p < o ==> !ListedAt(s, p, tokens)
  {
    hide StartsWithAny, IndexOf;
    var i := IndexOf(s, ',');
    assert forall j :: 0 <= j < i ==> s[j] == s[..i][j];
    var rest := s[o..];
    assert forall j :: 0 <= j < |rest| ==> rest[j] == s[o + j];
    if p >= o {
      assert p <= |s| ==> s[p..] == rest[p - o..];
      if ListedAt(s, p, tokens) && p > o {
        var c :| 0 <= c < p && s[c] == ',' && forall j :: c < j < p ==> IsSpace(s[j]);
        assert rest[c - o] == ',';
      }
      if ListedAt(rest, p - o, tokens) {
        if p > o {
          var c :| 0 <= c < p - o && rest[c] == ',' && forall j :: c < j < p - o ==> IsSpace(rest[j]);
          assert forall j :: o + c < j < p ==> s[j] == rest[j - o];
          assert s[o + c] == ',';
        } else {
          assert s[i] == ',';
        }
      }
    } else if 0 < p && ListedAt(s, p, tokens) {
      StartIsNoBlank(s, p, tokens);
    }
  }

  /** A list names a token exactly where the text says so: at its start, or behind a comma and any
      whitespace. */
  lemma {:induction false} ListNamesWhere(s: string, tokens: seq<string>)
    requires NoCommas(tokens) && NoBlankStarts(tokens)
    ensures ListNames(s, tokens) <==> exists p: nat :: ListedAt(s, p, tokens)
    decreases |s|
  {
    hide ListNames, StartsWithAny, TrimLeft, NoBlankStarts, NoCommas, IndexOf;
    FirstElement(s, tokens);
    var i := IndexOf(s, ',');
    assert s[0..] == s;
    assert ListedAt(s, 0, tokens) <==> StartsWithAny(s, tokens);
    if i < |s| {
      var k := TrimLeftCuts(s[i + 1..]);
      var o := i + 1 + k;
      assert s[i + 1..][k..] == s[o..];
      assert forall j :: i < j < |s| ==> s[j] == s[i + 1..][j - i - 1];
      ListNamesWhere(s[o..], tokens);
      forall p: nat
        ensures p >= o ==> (ListedAt(s, p, tokens) <==> ListedAt(s[o..], p - o, tokens))
        ensures 0 < p < o ==> !ListedAt(s, p, tokens)
      {
        ListedLater(s, tokens, o, p);
      }
      if p: nat :| ListedAt(s[o..], p, tokens) {
        assert ListedAt(s, o + p, tokens);
      }
    } else {
      assert s[..i] == s;
    }
  }

  /** So it is for the three lists the readers ask about. */
  lemma ListsWhere(value: string)
    ensures ListNames(value, TEXT_TYPES) <==> exists p: nat :: ListedAt(value, p, TEXT_TYPES)
    ensures ListNames(value, LANGUAGES) <==> exists p: nat :: ListedAt(value, p, LANGUAGES)
    ensures ListNames(value, CHARSETS) <==> exists p: nat :: ListedAt(value, p, CHARSETS)
  {
    hide ListNames, ListedAt;
    NoTokenHasComma();
    TokensStartWell();
    ListNamesWhere(value, TEXT_TYPES);
    ListNamesWhere(value, LANGUAGES);
    ListNamesWhere(value, CHARSETS);
  }

  /** The loop over an `Accept`-like value, `traverse` being an offset into it. */
  method ScanList(value: string, tokens: seq<string>) returns (found: bool)
    requires NoCommas(tokens)
    ensures found <==> ListNames(value, tokens)
  {
    hide ListNames, StartsWithAny, NoCommas, IndexOf;
    var traverse := 0;
    while true
      invariant 0 <= traverse <= |value|
      invariant ListNames(value, tokens) <==> ListNames(value[traverse..], tokens)
      decreases |value| - traverse
    {
      ghost var here := value[traverse..];
      FirstElement(here, tokens);
      if MatchesAny(value[traverse..], tokens) {
        return true;
      }
      var comma := traverse + IndexOf(value[traverse..], ',');
      if comma == |value| {
        return false;
      }
      var temporary := comma + 1;
      ghost var after := value[temporary..];
      assert here[comma - traverse + 1..] == after;
      while temporary < |value| && IsSpace(value[temporary])
        invariant comma < temporary <= |value|
        invariant TrimLeft(after) == TrimLeft(value[temporary..])
      {
        assert value[temporary..][1..] == value[temporary + 1..];
        temporary := temporary + 1;
      }
      assert value[temporary..] == TrimLeft(after);
      traverse := temporary;
    }
  }
}
