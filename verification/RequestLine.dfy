/** The request line: method, url and version, cut out by `handle_client_connection`. */
module RequestLine {
  import opened CStrings
  import opened RequestHeaders

  const URL_SIZE: nat := 256
  const VERSION_SIZE: nat := 16

  datatype Session = Session(szmethod: string, szurl: string, szversion: string)

  /** The three texts; `None`: a search comes back empty, and the code goes on with a null pointer. */
  function Parts(line: string): Option<Session> {
    var sp := IndexOf(line, ' ');
    if sp == |line| then None else
    var rest := line[sp + 1..];
    var sp2 := IndexOf(rest, ' ');
    if sp2 == |rest| then None else
    var tail := rest[sp2 + 1..];
    var lf := IndexOf(tail, '\n');
    if lf == |tail| then None else Some(Session(line[..sp], rest[..sp2], tail[..lf]))
  }

  predicate Fits(s: Session) {
    |s.szmethod| + 1 < METHOD_SIZE && |s.szurl| + 1 < URL_SIZE && |s.szversion| + 1 < VERSION_SIZE
  }

  /** Copies the three texts into the fields of a cleared session. */
  method SplitRequestLine(line: string)
    returns (ok: bool, szmethod: array<char>, szurl: array<char>, szversion: array<char>)
    requires '\0' !in line
    requires Parts(line).Some? ==> Fits(Parts(line).value)
    ensures ok <==> Parts(line).Some?
    ensures ok ==> Parts(line).value == Session(CStr(szmethod[..]), CStr(szurl[..]), CStr(szversion[..]))
  {
    hide CStr, IndexOf;
    szmethod := new char[METHOD_SIZE](i => '\0');
    szurl := new char[URL_SIZE](i => '\0');
    szversion := new char[VERSION_SIZE](i => '\0');
    ok := false;
    var space := IndexOf(line, ' ');
    if space == |line| {
      return;
    }
    var pszmethod := line[space + 1..];
    var space2 := IndexOf(pszmethod, ' ');
    if space2 == |pszmethod| {
      return;
    }
    var pszurl := pszmethod[space2 + 1..];
    var lf := IndexOf(pszurl, '\n');
    if lf == |pszurl| {
      return;
    }
    MemCpyHoldsIfCleared(szmethod[..], line[..space]);
    MemCpyHoldsIfCleared(szurl[..], pszmethod[..space2]);
    MemCpyHoldsIfCleared(szversion[..], pszurl[..lf]);
    MemCpyInto(szmethod, line[..space]);
    MemCpyInto(szurl, pszmethod[..space2]);
    MemCpyInto(szversion, pszurl[..lf]);
    ok := true;
  }

  /** The parts are the line, put together again; and a line put together from parts comes apart
      into the same ones. */
  lemma PartsRoundTrip(line: string, s: Session, rest: string)
    requires ' ' !in s.szmethod && ' ' !in s.szurl && '\n' !in s.szversion
    requires line == s.szmethod + ([' '] + (s.szurl + ([' '] + (s.szversion + (['\n'] + rest)))))
    ensures Parts(line) == Some(s)
  {
    hide IndexOf;
    CutAt(line, s.szmethod, ' ', s.szurl + ([' '] + (s.szversion + (['\n'] + rest))));
    CutAt(s.szurl + ([' '] + (s.szversion + (['\n'] + rest))), s.szurl, ' ', s.szversion + (['\n'] + rest));
    CutAt(s.szversion + (['\n'] + rest), s.szversion, '\n', rest);
  }

  lemma Glue(line: string, sep: char) returns (rest: string)
    requires IndexOf(line, sep) < |line|
    ensures rest == line[IndexOf(line, sep) + 1..] && line == line[..IndexOf(line, sep)] + ([sep] + rest)
    ensures sep !in line[..IndexOf(line, sep)]
  {
    rest := line[IndexOf(line, sep) + 1..];
  }

  lemma PartsAre(line: string) returns (afterMethod: string, afterUrl: string)
    requires Parts(line).Some?
    ensures var sp := IndexOf(line, ' '); sp < |line| && afterMethod == line[sp + 1..]
    ensures var sp := IndexOf(afterMethod, ' '); sp < |afterMethod| && afterUrl == afterMethod[sp + 1..]
    ensures IndexOf(afterUrl, '\n') < |afterUrl|
    ensures Parts(line).value == Session(line[..IndexOf(line, ' ')], afterMethod[..IndexOf(afterMethod, ' ')],
                                         afterUrl[..IndexOf(afterUrl, '\n')])
  {
    hide IndexOf;
    afterMethod := line[IndexOf(line, ' ') + 1..];
    afterUrl := afterMethod[IndexOf(afterMethod, ' ') + 1..];
  }

  /** A line that comes apart was put together from its parts. */
  lemma PartsMakeLine(line: string) returns (afterMethod: string, afterUrl: string, rest: string)
    requires Parts(line).Some?
    ensures var s := Parts(line).value;
            && ' ' !in s.szmethod && ' ' !in s.szurl && '\n' !in s.szversion
            && line == s.szmethod + ([' '] + afterMethod)
            && afterMethod == s.szurl + ([' '] + afterUrl)
            && afterUrl == s.szversion + (['\n'] + rest)
  {
    hide IndexOf, Parts;
    afterMethod, afterUrl := PartsAre(line);
    var m := Glue(line, ' ');
    var u := Glue(afterMethod, ' ');
    rest := Glue(afterUrl, '\n');
  }
}
