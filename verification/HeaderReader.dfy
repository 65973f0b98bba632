/** The loops of `read_headers` and `read_post_headers` over the connection. */
module HeaderReader {
  import opened CStrings
  import opened LineEnds
  import opened LineReader
  import opened HeaderFraming

  lemma CStrEnds(mem: string, len: nat)
    requires len < |mem| && mem[len] == '\0'
    ensures CStr(mem) == CStr(mem[..len])
  {
    var i := IndexOf(mem[..len], '\0');
    assert mem[..len][..i] == mem[..i];
    IndexOfIs(mem, '\0', i);
  }

  /** Taking one whitespace character and then a line of at most `max` off the raw stream. */
  lemma FoldOnce(u: string, max: nat)
    requires u != [] && IsFold(u[0])
    ensures Normalise(u) == [u[0]] + Normalise(u[1..])
    ensures var k := LineLength(Normalise(u[1..]), max);
            && k <= |Normalise(u[1..])| && 1 + k <= |Normalise(u)|
            && Skip(u[1..], k) == Skip(u, 1 + k)
            && Normalise(Skip(u, 1 + k)) == Normalise(u)[1 + k..]
  {
    var k := LineLength(Normalise(u[1..]), max);
    assert Step(u) == 1;
    NormaliseSkip(u, 1 + k);
  }

  lemma FoldStays(h: string, n: string)
    requires |h| <= ROOM && n != [] && !IsFold(n[0])
    ensures Fold(h, n) == Some((h, n))
  {
  }

  lemma FirstChar(u: string)
    ensures u == [] <==> Normalise(u) == []
    ensures u != [] ==> (IsFold(u[0]) <==> IsFold(Normalise(u)[0]))
  {
  }

  lemma SkipShrinks(u: string, k: nat)
    requires k <= |Normalise(u)|
    ensures |Skip(u, k)| <= |u| - k
  {
  }

  /** Drops the whitespace in front of a continuation line and appends the line to the header. */
  method AppendLine(sock: Socket, header: array<char>, len: nat, next: char) returns (len': nat, ghost taken: nat)
    requires sock.Valid() && sock.Unread() != [] && IsFold(sock.Unread()[0])
    requires header.Length == ROOM + 1 && len <= ROOM && header[len] == '\0'
    modifies header, sock`cursor
    ensures sock.Valid()
    ensures len' <= ROOM && header[len'] == '\0'
    ensures 0 < taken <= |Normalise(old(sock.Unread()))| && sock.Unread() == Skip(old(sock.Unread()), taken)
    ensures |sock.Unread()| < |old(sock.Unread())|
    ensures Fold(header[..len'], Normalise(sock.Unread())) == Fold(old(header[..len]), Normalise(old(sock.Unread())))
  {
    hide Fold, Normalise, Skip, LineLength, Step;
    ghost var u := sock.Unread();
    ghost var h := header[..len];
    FoldOnce(u, ROOM - len);
    FoldUnroll(h, Normalise(u));
    var err, next' := sock.Read(next);
    assert sock.Unread() == u[1..];
    var k := ReadLine(sock, header, len, ROOM + 1 - len);
    taken := 1 + k;
    len' := len + k;
    assert header[..len'] == h + Normalise(u[1..])[..k];
    assert Normalise(u)[1..] == Normalise(u[1..]);
    assert Normalise(u)[1..1 + k] == Normalise(u[1..])[..k];
    SkipShrinks(u, 1 + k);
  }

  /** Reading has got from `u0` to `u`. */
  ghost predicate ReadOn(u0: string, u: string) {
    exists k: nat :: k <= |Normalise(u0)| && u == Skip(u0, k)
  }

  lemma ReadNothing(u0: string)
    ensures ReadOn(u0, u0)
  {
    assert Skip(u0, 0) == u0;
  }

  lemma ReadMore(u0: string, u: string, more: nat)
    requires ReadOn(u0, u) && more <= |Normalise(u)|
    ensures ReadOn(u0, Skip(u, more))
  {
    var k: nat :| k <= |Normalise(u0)| && u == Skip(u0, k);
    NormaliseSkip(u0, k);
    SkipSkip(u0, k, more);
  }

  lemma FoldNeedsInput(h: string, u: string)
    requires |h| <= ROOM && Fold(h, Normalise(u)).Some?
    ensures u != []
  {
  }

  /** The continuation loop: as long as the next line starts with whitespace, it is appended to
      the running header of length `first`, for which the buffer always has room. */
  method FoldContinuations(sock: Socket, header: array<char>, first: nat) returns (len: nat)
    requires sock.Valid()
    requires header.Length == ROOM + 1 && first <= ROOM && header[first] == '\0'
    requires Fold(header[..first], Normalise(sock.Unread())).Some?
    modifies header, sock`cursor
    ensures sock.Valid()
    ensures len <= ROOM && header[len] == '\0'
    ensures Fold(old(header[..first]), Normalise(old(sock.Unread())))
            == Some((header[..len], Normalise(sock.Unread())))
    ensures ReadOn(old(sock.Unread()), sock.Unread())
  {
    hide Fold, Normalise, Skip, LineLength, Step;
    ghost var u0 := sock.Unread();
    len := first;
    ReadNothing(u0);
    FoldNeedsInput(header[..len], sock.Unread());
    var next: char := *;
    var err;
    err, next := sock.Peek(next);
    while IsSpace(next) && next != '\n' && next != '\r'
      invariant sock.Valid() && sock.Unread() != [] && next == sock.Unread()[0]
      invariant len <= ROOM && header[len] == '\0'
      invariant Fold(header[..len], Normalise(sock.Unread()))
                == Fold(old(header[..first]), Normalise(u0))
      invariant ReadOn(u0, sock.Unread())
      decreases |sock.Unread()|
    {
      ghost var taken;
      ghost var u := sock.Unread();
      len, taken := AppendLine(sock, header, len, next);
      ReadMore(u0, u, taken);
      FoldNeedsInput(header[..len], sock.Unread());
      err, next := sock.Peek(next);
    }
    FirstChar(sock.Unread());
    FoldStays(header[..len], Normalise(sock.Unread()));
  }

  lemma ReadOnTransitive(u0: string, u1: string, u2: string)
    requires ReadOn(u0, u1) && ReadOn(u1, u2)
    ensures ReadOn(u0, u2)
  {
    var k: nat :| k <= |Normalise(u1)| && u2 == Skip(u1, k);
    ReadMore(u0, u1, k);
  }

  /** The raw position follows from the normalised text that is left. */
  lemma ReadOnIsSkip(u0: string, u: string)
    requires ReadOn(u0, u)
    ensures |Normalise(u)| <= |Normalise(u0)|
    ensures u == Skip(u0, |Normalise(u0)| - |Normalise(u)|)
    ensures Normalise(u) == Normalise(u0)[|Normalise(u0)| - |Normalise(u)|..]
  {
    var k: nat :| k <= |Normalise(u0)| && u == Skip(u0, k);
    NormaliseSkip(u0, k);
  }

  datatype Kind = EmptyLine | DelimiterLine | HeaderLine

  lemma LineNotEmpty(n: string)
    ensures n != [] ==> LineLength(n, ROOM) >= 1
  {
  }

  lemma FoldGrows(h: string, n: string)
    requires |h| <= ROOM && Fold(h, n).Some?
    ensures |Fold(h, n).value.0| >= |h|
  {
  }

  /** A line holds its only LF at its end, so its C string is a lone LF only if the line is. */
  lemma EmptyLineAsCStr(line: string)
    requires forall j :: 0 <= j < |line| - 1 ==> line[j] != '\n'
    ensures CStr(line) == "\n" <==> line == "\n"
  {
    var s := CStr(line);
    if s == "\n" {
      assert line[0] == s[0];
    }
    if line == "\n" {
      CStrIdentity(line);
    }
  }

  /** The front half of both header loops: reads a line, then, unless it is empty or (in a POST
      request) a delimiter, the lines that continue it. */
  method TakeHeader(sock: Socket, header: array<char>, post: bool) returns (kind: Kind, first: nat, len: nat)
    requires sock.Valid() && header.Length == ROOM + 1
    requires !TakeTurn(Normalise(sock.Unread()), post).Dry?
    modifies header, sock`cursor
    ensures sock.Valid()
    ensures 1 <= first <= len <= ROOM && header[len] == '\0'
    ensures ReadOn(old(sock.Unread()), sock.Unread())
    ensures TakeTurn(Normalise(old(sock.Unread())), post) ==
            match kind
            case EmptyLine => Last(Normalise(sock.Unread()))
            case DelimiterLine => Next(Delimiter(header[..len]), Normalise(sock.Unread()))
            case HeaderLine => Next(Header(header[..len], first), Normalise(sock.Unread()))
    ensures kind.EmptyLine? ==> first == 1
    ensures kind.DelimiterLine? ==> first == len
  {
    hide Fold, Skip, LineLength, Step, IsDelimiterText;
    ghost var u := sock.Unread();
    ghost var n := Normalise(u);
    first := ReadLine(sock, header, 0, ROOM + 1);
    len := first;
    ReadNothing(u);
    ReadMore(u, u, first);
    NormaliseSkip(u, first);
    ghost var line := header[..len];
    assert line == n[..first];
    LineNotEmpty(n);
    CStrEnds(header[..], len);
    assert header[..][..len] == line;
    EmptyLineAsCStr(line);
    if CStr(header[..]) == "\n" {
      return EmptyLine, first, len;
    }
    if post && IsDelimiterText(CStr(header[..])) {
      return DelimiterLine, first, len;
    }
    ghost var u1 := sock.Unread();
    len := FoldContinuations(sock, header, first);
    ReadOnTransitive(u, u1, sock.Unread());
    FoldGrows(line, Normalise(u1));
    return HeaderLine, first, len;
  }
}
