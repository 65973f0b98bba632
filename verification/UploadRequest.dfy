/** An upload from the bytes on the connection to the file: the request with its Content-Type and
    Content-Length, the part with its disposition, the payload. */
module UploadRequest {
  import opened CStrings
  import opened LineEnds
  import opened HeaderFraming
  import opened HeaderFields
  import opened RequestHeaders
  import opened RequestReader
  import opened HeaderArrival
  import opened Upload
  import opened UploadContent

  // ----- which boundaries work -----

  /** The line in front of a part, section 5.1.1 of RFC 2046. */
  function DelimiterLine(b: string): string {
    "--" + b + "\n"
  }

  /** The Content-Type of a request that names its boundary last. */
  function TypeValue(kind: string, b: string): string {
    kind + ("boundary=" + (b + "\n"))
  }

  const DASHES24: string := "------------------------"

  lemma DashesAt(s: string, i: nat)
    ensures OccursAt(s, DASHES, i) <==> i + |DASHES| <= |s| && forall j :: i <= j < i + |DASHES| ==> s[j] == '-'
  {
    assert forall j :: 0 <= j < |DASHES| ==> DASHES[j] == '-';
    if i + |DASHES| <= |s| {
      var part := s[i..i + |DASHES|];
      assert forall j :: i <= j < i + |DASHES| ==> s[j] == part[j - i];
    }
  }

  /** Where the dashes stand does not change when text is put around them. */
  lemma DashesShift(a: string, s: string, d: string, i: nat)
    ensures i + |DASHES| <= |s| ==> (OccursAt(a + s + d, DASHES, |a| + i) <==> OccursAt(s, DASHES, i))
  {
    if i + |DASHES| <= |s| {
      assert (a + s + d)[|a| + i..|a| + i + |DASHES|] == s[i..i + |DASHES|];
    }
  }

  /** A run of dashes does not cross another character. */
  lemma DashesAcross(a: string, c: char, d: string)
    requires c != '-'
    ensures Contains(a + ([c] + d), DASHES) <==> Contains(a, DASHES) || Contains(d, DASHES)
  {
    hide OccursAt;
    var s := a + ([c] + d);
    assert s == "" + a + ([c] + d) && s == (a + [c]) + d + "";
    assert s[|a|] == c;
    forall i: nat ensures OccursAt(a, DASHES, i) ==> OccursAt(s, DASHES, i) {
      DashesAt(a, i);
      DashesShift("", a, [c] + d, i);
    }
    forall i: nat ensures OccursAt(d, DASHES, i) ==> OccursAt(s, DASHES, |a| + 1 + i) {
      DashesAt(d, i);
      DashesShift(a + [c], d, "", i);
    }
    if i: nat :| OccursAt(s, DASHES, i) {
      DashesAt(s, i);
      if i > |a| {
        DashesShift(a + [c], d, "", i - |a| - 1);
      } else {
        DashesShift("", a, [c] + d, i);
      }
    }
  }

  lemma DashesInFront(b: string)
    ensures OccursAt("--" + b, DASHES, 0) <==> DASHES24 <= b
    ensures OccursAt("--" + b, DASHES, 1) ==> DASHES24 <= b
  {
    var s := "--" + b;
    assert forall j :: 0 <= j < |b| ==> s[j + 2] == b[j];
    DashesAt(s, 0);
    DashesAt(s, 1);
    assert forall j :: 0 <= j < |DASHES24| ==> DASHES24[j] == '-';
    if OccursAt(s, DASHES, 0) || OccursAt(s, DASHES, 1) {
      assert b[..24] == DASHES24;
    }
  }

  lemma DashesAfterTwo(b: string)
    ensures Contains("--" + b, DASHES) <==> DASHES24 <= b || Contains(b, DASHES)
  {
    hide OccursAt;
    var s := "--" + b;
    assert s == "--" + b + "";
    DashesInFront(b);
    forall i: nat ensures OccursAt(b, DASHES, i) ==> OccursAt(s, DASHES, i + 2) {
      DashesAt(b, i);
      DashesShift("--", b, "", i);
    }
    if i: nat :| OccursAt(s, DASHES, i) {
      DashesAt(s, i);
      if i >= 2 {
        DashesShift("--", b, "", i - 2);
      }
    }
  }

  lemma ShortHasNoDashes(s: string)
    requires |s| < |DASHES|
    ensures !Contains(s, DASHES)
  {
  }

  /** A part is recognised by its delimiter line exactly when the boundary begins with 24 dashes or
      holds 26 of them. */
  lemma DelimiterIsSeen(b: string)
    requires IsBoundary(b)
    ensures IsDelimiter(DelimiterLine(b)) <==> DASHES24 <= b || Contains(b, DASHES)
  {
    hide Contains;
    var line := DelimiterLine(b);
    CStrIdentity(line);
    assert line == ("--" + b) + (['\n'] + "");
    DashesAcross("--" + b, '\n', "");
    ShortHasNoDashes("");
    DashesAfterTwo(b);
  }

  /** The request's own Content-Type line is taken for a delimiter when it holds 26 dashes, and its
      boundary is then never stored. */
  lemma TypeLineIsTakenForDelimiter(kind: string, b: string)
    requires IsBoundary(b) && '\0' !in kind
    ensures IsDelimiter("Content-Type: " + TypeValue(kind, b)) <==> Contains(kind, DASHES) || Contains(b, DASHES)
  {
    hide Contains;
    var line := "Content-Type: " + TypeValue(kind, b);
    var named := b + (['\n'] + "");
    var value := kind + (['b'] + ("oundary" + (['='] + named)));
    assert TypeValue(kind, b) == value;
    assert line == "Content-Type:" + ([' '] + value);
    assert '\0' !in "Content-Type:" && '\0' !in "oundary";
    CStrIdentity(line);
    DashesAcross("Content-Type:", ' ', value);
    DashesAcross(kind, 'b', "oundary" + (['='] + named));
    DashesAcross("oundary", '=', named);
    DashesAcross(b, '\n', "");
    ShortHasNoDashes("");
    ShortHasNoDashes("oundary");
    ShortHasNoDashes("Content-Type:");
  }

  /** So the boundary is stored and the part recognised exactly for boundaries that begin with 24
      dashes and have no more than 25 in a row. */
  lemma BoundaryWorksExactly(kind: string, b: string)
    requires IsBoundary(b) && '\0' !in kind
    ensures !IsDelimiter("Content-Type: " + TypeValue(kind, b)) && IsDelimiter(DelimiterLine(b))
            <==> DASHES24 <= b && !Contains(b, DASHES) && !Contains(kind, DASHES)
  {
    hide Contains, IsDelimiter;
    DelimiterIsSeen(b);
    TypeLineIsTakenForDelimiter(kind, b);
  }

  // ----- the whole request -----

  /** What the client sends: two header blocks as lines, then the payload between its boundary lines. */
  datatype Sent = Sent(request: seq<string>, part: seq<string>, boundary: string, payload: string, epilogue: string)

  function PartLines(u: Sent): seq<string> {
    [DelimiterLine(u.boundary)] + u.part
  }

  function OnTheWire(lines: seq<string>): string {
    WithEol(Concat(lines) + "\n", "\r\n")
  }

  function Wire(u: Sent): string {
    OnTheWire(u.request) + (OnTheWire(PartLines(u)) + Body(u.payload, u.boundary, u.epilogue))
  }

  predicate IsBlock(lines: seq<string>) {
    AreHeaderLines(lines) && (forall i :: 0 <= i < |lines| ==> '\r' !in lines[i]) && Fit(Unfold(lines, true))
  }

  /** The request names its boundary and its length once each, and the boundary is one that works. */
  ghost predicate IsRequest(u: Sent, t: nat, kind: string, l: nat, length: nat) {
    var items := Unfold(u.request, true); var value := TypeValue(kind, u.boundary);
    && IsBlock(u.request) && PostFitsAll(false, items)
    && OnlyHeader(items, t, ContentType, value) && !BehindDelimiter(items, t)
    && OnlyHeader(items, l, ContentLength, Decimal(length) + "\n")
    && IsValue(value) && (forall i: nat :: i < |kind| ==> !OccursAt(value, "boundary=", i))
    && IsBoundary(u.boundary) && DASHES24 <= u.boundary
  }

  function DispositionValue(front: string, name: string): string {
    front + "filename=\"" + name + "\"\n"
  }

  /** The part has one disposition, which ends in a quoted file name. */
  ghost predicate IsPart(u: Sent, d: nat, front: string, name: string) {
    var items := Unfold(u.part, true); var value := DispositionValue(front, name);
    && IsBlock(u.part) && PostFitsAll(true, items)
    && OnlyHeader(items, d, ContentDisposition, value)
    && IsValue(value) && (forall i: nat :: i < |front| ==> !OccursAt(value, "filename", i))
  }

  lemma CopiedBehind(front: string, b: string, field: string)
    requires var value := front + (b + "\n"); |value| < |field|
    ensures var value := front + (b + "\n");
            StrCpy(field, value) == front + ((b + "\n") + (['\0'] + field[|value| + 1..]))
  {
  }

  /** A field that took the Content-Type holds the marker. */
  lemma TypeFieldHolds(kind: string, b: string, field: string)
    requires var value := TypeValue(kind, b);
             && IsValue(value) && (forall i: nat :: i < |kind| ==> !OccursAt(value, "boundary=", i))
             && |value| < |field|
    requires IsBoundary(b) && DASHES24 <= b
    ensures var mem := StrCpy(field, TypeValue(kind, b));
            && BoundaryAt(CStr(mem)) == Some(|kind| + 9)
            && MarkerIn(mem, |kind| + 9) == Some(MarkerText(b))
  {
    hide MarkerIn, BoundaryAt, MarkerText, CStr, OccursAt, StrCpy, IsSpace;
    var value := TypeValue(kind, b);
    StrCpyHolds(field, value);
    assert b[..4] == DASHES24[..4] == "----";
    BoundaryIsFound(kind, b);
    var front, behind := kind + "boundary=", field[|value| + 1..];
    assert value == front + (b + "\n");
    MarkerOf(front, b, behind);
    CopiedBehind(front, b, field);
  }

  /** Read into a cleared record, the headers leave the length, and a boundary that gives the marker. */
  ghost predicate LeaveMarker(items: seq<Item>, flags: Flags, boundary: string, length: nat) {
    && PostFitsAll(false, items)
    && var info := ApplyPostAll(PostState(flags, CLEARED, false), items).info;
    var p := BoundaryAt(CStr(info.contentType));
    && info.contentLength == length && p.Some? && p.value <= |info.contentType|
    && MarkerIn(info.contentType, p.value) == Some(MarkerText(boundary))
  }

  /** Read into any record, the headers of a part leave the file name. */
  ghost predicate LeaveName(items: seq<Item>, s: PostState, name: string)
    requires Sized(s.info) && !s.inBody
  {
    PostFitsAll(false, items) && FileName(CStr(ApplyPostAll(s, items).info.disposition)) == Some(name)
  }

  /** The request's headers, whatever else is among them, leave the length and the marker. */
  lemma RequestIsTaken(u: Sent, t: nat, kind: string, l: nat, length: nat, flags: Flags)
    requires IsRequest(u, t, kind, l, length)
    ensures LeaveMarker(Unfold(u.request, true), flags, u.boundary, length)
    ensures |u.boundary| + 5 <= ROOM
  {
    hide ApplyPostAll, PostFitsAll, OnlyHeader, BehindDelimiter, IsBlock, Unfold, MarkerIn, BoundaryAt, MarkerText,
         CStr, Decimal, Contains, StrCpy, OccursAt, IsValue, IsBoundary;
    var s := PostState(flags, CLEARED, false);
    var items := Unfold(u.request, true);
    ContentTypeArrives(s, items, t, TypeValue(kind, u.boundary));
    ContentLengthArrives(s, items, l, length);
    TypeFieldHolds(kind, u.boundary, CLEARED.contentType);
  }

  lemma DelimiterIsNoHeader(item: Item, f: Field)
    requires item.Delimiter?
    ensures !Names(item, f) && forall inBody :: PostItemFits(inBody, item)
  {
  }

  lemma DelimiterIsLine(b: string)
    requires IsBoundary(b)
    ensures IsLine(DelimiterLine(b)) && DelimiterLine(b) != "\n" && '\r' !in DelimiterLine(b)
  {
    var line := DelimiterLine(b);
    assert line[..|line| - 1] == "--" + b;
  }

  lemma DelimiterFirst(line: string, part: seq<string>)
    requires IsDelimiter(line) && |line| <= ROOM && Fit(Unfold(part, true))
    ensures Unfold([line] + part, true) == [Delimiter(line)] + Unfold(part, true)
    ensures Fit(Unfold([line] + part, true))
  {
    hide IsDelimiter;
    assert ([line] + part)[1..] == part;
  }

  lemma PartUnfolds(u: Sent)
    requires IsBlock(u.part) && IsBoundary(u.boundary) && DASHES24 <= u.boundary && |u.boundary| + 5 <= ROOM
    requires PostFitsAll(true, Unfold(u.part, true))
    ensures Unfold(PartLines(u), true) == [Delimiter(DelimiterLine(u.boundary))] + Unfold(u.part, true)
    ensures IsBlock(PartLines(u)) && PostFitsAll(false, Unfold(PartLines(u), true))
  {
    hide IsDelimiter, Contains, PostItemFits, IsLine;
    var line := DelimiterLine(u.boundary);
    var lines := PartLines(u);
    DelimiterIsSeen(u.boundary);
    DelimiterIsLine(u.boundary);
    assert lines[0] == line && lines[1..] == u.part;
    assert forall i :: 0 <= i < |lines| ==> i == 0 || lines[i] == u.part[i - 1];
    DelimiterFirst(line, u.part);
    var items := Unfold(lines, true);
    assert items[1..] == Unfold(u.part, true);
    DelimiterIsNoHeader(items[0], Unknown);
  }

  /** The part's headers, whatever else is among them and whatever the record held, leave the name. */
  lemma PartIsTaken(u: Sent, d: nat, front: string, name: string, s: PostState)
    requires IsPart(u, d, front, name) && Sized(s.info) && !s.inBody
    requires IsBoundary(u.boundary) && DASHES24 <= u.boundary && |u.boundary| + 5 <= ROOM
    ensures LeaveName(Unfold(PartLines(u), true), s, name)
  {
    hide ApplyPostAll, PostFitsAll, IsBlock, Unfold, FileName, CStr, Names, ValueOf, PartLines;
    PartUnfolds(u);
    var items, later := Unfold(PartLines(u), true), Unfold(u.part, true);
    assert items[0].Delimiter?;
    assert forall j :: 0 < j < |items| ==> items[j] == later[j - 1];
    assert forall j :: 0 <= j < |items| && j != d + 1 ==> !Names(items[j], ContentDisposition) by {
      DelimiterIsNoHeader(items[0], ContentDisposition);
    }
    DispositionArrives(s, items, d + 1, DispositionValue(front, name));
    FileNameRoundTrip(front, name);
  }

  /** The whole upload: for any other headers in either block and whatever the part's record held
      before, the length, the marker and the file name are what the client sent, and what is written
      is the payload and one more line end up to the first piece that holds the marker. */
  lemma UploadEndToEnd(u: Sent, t: nat, kind: string, l: nat, length: nat, d: nat, front: string, name: string,
                       flags: Flags, s: PostState)
    requires IsRequest(u, t, kind, l, length) && IsPart(u, d, front, name)
    requires length >= |u.payload| + 2 + |Closing(u.boundary)|
    requires Sized(s.info) && !s.inBody
    ensures var read := ReadBlock(Normalise(Wire(u)), true);
            && read.Some? && LeaveMarker(read.value.items, flags, u.boundary, length)
            && var part := ReadBlock(read.value.rest, true);
            && part.Some? && LeaveName(part.value.items, s, name)
            && var text := Normalise(u.payload) + "\n"; var c := Chunks(text);
            var copy := CopyLines(part.value.rest, length, MarkerText(u.boundary));
            && copy.Some? && copy.value.file == Concat(c[..FirstHit(c, MarkerText(u.boundary))])
            && (copy == Some(Copy(text, Normalise(u.epilogue))) <==> MarkerFree(text, MarkerText(u.boundary)))
  {
    hide ReadBlock, PostFitsAll, CopyLines, Normalise, MarkerFree, LeaveMarker, LeaveName, Unfold, Fit, Concat, WithEol,
         Chunks, FirstHit, MarkerText, PartLines, Body;
    RequestIsTaken(u, t, kind, l, length, flags);
    PartIsTaken(u, d, front, name, s);
    PartUnfolds(u);
    BlockOnTheWire(u.request, true, OnTheWire(PartLines(u)) + Body(u.payload, u.boundary, u.epilogue));
    BlockOnTheWire(PartLines(u), true, Body(u.payload, u.boundary, u.epilogue));
    UploadedFile(u.payload, u.boundary, u.epilogue, length);
  }

  // ----- the shortest request -----

  lemma NoDashNoRun(s: string)
    requires '-' !in s
    ensures !Contains(s, DASHES)
  {
    forall i: nat ensures !OccursAt(s, DASHES, i) {
      DashesAt(s, i);
      assert i < |s| ==> s[i] in s;
    }
  }

  function Pow10(k: nat): nat {
    if k == 0 then 1 else 10 * Pow10(k - 1)
  }

  lemma {:induction false} DecimalIsShort(n: nat, k: nat)
    requires k > 0 && n < Pow10(k)
    ensures |Decimal(n)| <= k
  {
    if n >= 10 {
      assert Pow10(1) == 10;
      DecimalIsShort(n / 10, k - 1);
    }
  }

  lemma TenDigits()
    ensures Pow10(10) > MAX_INT
  {
  }

  lemma LengthLineIsHeader(n: nat)
    ensures !IsDelimiter("Content-Length: " + (Decimal(n) + "\n"))
  {
    hide Contains, Decimal;
    var value := Decimal(n) + "\n";
    var line := "Content-Length: " + value;
    DecimalIsPlain(n);
    assert line == "Content-Length:" + ([' '] + value);
    assert '\0' !in "Content-Length:";
    CStrIdentity(line);
    DashesAcross("Content-Length:", ' ', value);
    ShortHasNoDashes("Content-Length:");
    NoDashNoRun(value);
  }

  lemma DispositionLineIsHeader(name: string)
    requires '\0' !in name && !Contains(name, DASHES)
    ensures !IsDelimiter("Content-Disposition: " + DispositionValue("", name))
  {
    hide Contains;
    var quoted := name + (['\"'] + "\n");
    var line := "Content-Disposition: " + DispositionValue("", name);
    assert line == "Content-Disposition:" + ([' '] + ("filename=" + (['\"'] + quoted)));
    assert '\0' !in "Content-Disposition:" && '\0' !in "filename=";
    CStrIdentity(line);
    DashesAcross("Content-Disposition:", ' ', "filename=" + (['\"'] + quoted));
    DashesAcross("filename=", '\"', quoted);
    DashesAcross(name, '\"', "\n");
    ShortHasNoDashes("Content-Disposition:");
    ShortHasNoDashes("filename=");
    ShortHasNoDashes("\n");
  }

  lemma TypeName()
    ensures ':' !in "Content-Type" && '\0' !in "Content-Type" && AnyCase("Content-Type", "content-type")
  {
  }

  lemma LengthName()
    ensures ':' !in "Content-Length" && '\0' !in "Content-Length" && AnyCase("Content-Length", "content-length")
  {
  }

  lemma DispositionName()
    ensures ':' !in "Content-Disposition" && '\0' !in "Content-Disposition"
    ensures AnyCase("Content-Disposition", "content-disposition")
  {
  }

  lemma BlankAndValue(name: string, value: string)
    ensures (name + ": ") + value == name + (":" + (" " + value))
  {
  }

  /** The three lines, read as headers. */
  lemma UploadLines(value: string, first: nat)
    requires IsValue(value)
    ensures var t := Header("Content-Type: " + value, first); Names(t, ContentType) && ValueOf(t) == value
    ensures var l := Header("Content-Length: " + value, first); Names(l, ContentLength) && ValueOf(l) == value
    ensures var d := Header("Content-Disposition: " + value, first); Names(d, ContentDisposition) && ValueOf(d) == value
  {
    hide Names, ValueOf, AnyCase, IsValue;
    TypeName();
    LengthName();
    DispositionName();
    PostLinesSpelt("Content-Type", " ", value, first);
    PostLinesSpelt("Content-Length", " ", value, first);
    PostLinesSpelt("Content-Disposition", " ", value, first);
    assert "Content-Type: " == "Content-Type" + ": ";
    BlankAndValue("Content-Type", value);
    assert "Content-Length: " == "Content-Length" + ": ";
    BlankAndValue("Content-Length", value);
    assert "Content-Disposition: " == "Content-Disposition" + ": ";
    BlankAndValue("Content-Disposition", value);
  }

  lemma TextIsLine(name: string, text: string)
    requires name != "" && !IsFold(name[0]) && '\n' !in name && '\r' !in name && '\n' !in text && '\r' !in text
    ensures var line := name + (text + "\n");
            IsLine(line) && line != "" && line != "\n" && '\r' !in line && !IsFold(line[0])
  {
    var line := name + (text + "\n");
    assert line[..|line| - 1] == name + text;
  }

  /** A client's choice of boundary, file name and length that the fields can take. */
  ghost predicate IsChoice(b: string, name: string, length: nat) {
    && IsBoundary(b) && DASHES24 <= b && !Contains(b, DASHES) && |b| <= 117
    && '\r' !in name && '\n' !in name && '\0' !in name && !Contains(name, DASHES) && |name| <= 115
    && length <= MAX_INT
  }

  /** Content-Type and Content-Length; a part with its disposition. */
  function Shortest(b: string, name: string, length: nat, payload: string, epilogue: string): Sent {
    Sent(["Content-Type: " + TypeValue("", b), "Content-Length: " + (Decimal(length) + "\n")],
         ["Content-Disposition: " + DispositionValue("", name)], b, payload, epilogue)
  }

  lemma OneFits(item: Item, inBody: bool)
    ensures PostFitsAll(inBody, [item]) <==> PostItemFits(inBody, item)
  {
    hide PostItemFits;
    assert [item][1..] == [];
  }

  lemma ShortestType(b: string)
    requires IsBoundary(b)
    ensures TypeValue("", b) == ("boundary=" + b) + "\n" && IsValue(TypeValue("", b))
    ensures '\n' !in "boundary=" + b && '\r' !in "boundary=" + b
  {
    assert '\n' !in "boundary=" && '\r' !in "boundary=" && '\0' !in "boundary=";
  }

  lemma ShortestDisposition(name: string)
    requires '\r' !in name && '\n' !in name && '\0' !in name
    ensures var value, text := DispositionValue("", name), "filename=\"" + name + "\"";
            && value == text + "\n" && IsValue(value) && |value| == |name| + 12
            && '\n' !in text && '\r' !in text
  {
    assert '\n' !in "filename=\"" && '\r' !in "filename=\"" && '\0' !in "filename=\"";
    assert DispositionValue("", name) == "filename=\"" + name + "\"\n";
  }

  lemma NamesAreLines()
    ensures '\n' !in "Content-Type: " && '\r' !in "Content-Type: " && !IsFold('C')
    ensures '\n' !in "Content-Length: " && '\r' !in "Content-Length: "
    ensures '\n' !in "Content-Disposition: " && '\r' !in "Content-Disposition: "
  {
  }

  lemma ShortestRequest(b: string, name: string, length: nat, payload: string, epilogue: string)
    requires IsChoice(b, name, length)
    ensures IsRequest(Shortest(b, name, length, payload, epilogue), 0, "", 1, length)
  {
    hide IsDelimiter, Contains, Names, ValueOf, PostItemFits, Decimal, Unfold, IsLine, Atoi, IsFold, Pow10, IsValue;
    var value, digits := TypeValue("", b), Decimal(length) + "\n";
    var line, line' := "Content-Type: " + value, "Content-Length: " + digits;
    ShortHasNoDashes("");
    TypeLineIsTakenForDelimiter("", b);
    LengthLineIsHeader(length);
    DecimalIsPlain(length);
    DecimalIsValue(length);
    ShortestType(b);
    NamesAreLines();
    TextIsLine("Content-Type: ", "boundary=" + b);
    TextIsLine("Content-Length: ", Decimal(length));
    TwoLinesUnfold(line, line', true);
    var items := [Header(line, |line|), Header(line', |line'|)];
    UploadLines(value, |line|);
    UploadLines(digits, |line'|);
    NamedFits(items[0], ContentType, false);
    NamedFits(items[1], ContentLength, false);
    ContentLengthRoundTrip(length);
    assert items[1..] == [items[1]] && [items[1]][1..] == [];
    assert PostFitsAll(false, [items[1]]);
    TenDigits();
    DecimalIsShort(length, 10);
  }

  lemma ShortestPart(b: string, name: string, length: nat, payload: string, epilogue: string)
    requires IsChoice(b, name, length)
    ensures IsPart(Shortest(b, name, length, payload, epilogue), 0, "", name)
  {
    hide IsDelimiter, Contains, Names, ValueOf, PostItemFits, PostFitsAll, Unfold, IsLine, IsFold,
         DispositionValue, IsValue;
    var value := DispositionValue("", name);
    var line := "Content-Disposition: " + value;
    var text := "filename=\"" + name + "\"";
    ShortestDisposition(name);
    DispositionLineIsHeader(name);
    NamesAreLines();
    TextIsLine("Content-Disposition: ", text);
    OneLineUnfolds(line, true);
    var items := [Header(line, |line|)];
    UploadLines(value, |line|);
    NamedFits(items[0], ContentDisposition, true);
    OneFits(items[0], true);
  }

  lemma SentIs(b: string, name: string, length: nat, payload: string, epilogue: string)
    ensures var u := Shortest(b, name, length, payload, epilogue);
            u.boundary == b && u.payload == payload && u.epilogue == epilogue
  {
  }

  /** So every choice the fields can take goes through, for any payload: with a boundary of more than 25
      characters the file named is the payload and one more line end exactly when no piece of that
      holds the marker. */
  lemma ShortestUpload(b: string, name: string, length: nat, payload: string, epilogue: string, flags: Flags,
                       s: PostState)
    requires IsChoice(b, name, length) && length >= |payload| + 2 + |Closing(b)|
    requires Sized(s.info) && !s.inBody
    ensures var read := ReadBlock(Normalise(Wire(Shortest(b, name, length, payload, epilogue))), true);
            && read.Some? && LeaveMarker(read.value.items, flags, b, length)
            && var part := ReadBlock(read.value.rest, true);
            && part.Some? && LeaveName(part.value.items, s, name)
            && var text := Normalise(payload) + "\n";
            && (CopyLines(part.value.rest, length, MarkerText(b)) == Some(Copy(text, Normalise(epilogue)))
                <==> MarkerFree(text, MarkerText(b)))
  {
    hide IsChoice, IsRequest, IsPart, Shortest, ReadBlock, CopyLines, Normalise, MarkerFree, LeaveMarker, LeaveName,
         MarkerText, Chunks, FirstHit, Concat, Wire;
    var u := Shortest(b, name, length, payload, epilogue);
    ShortestRequest(b, name, length, payload, epilogue);
    ShortestPart(b, name, length, payload, epilogue);
    SentIs(b, name, length, payload, epilogue);
    UploadEndToEnd(u, 0, "", 1, length, 0, "", name, flags, s);
  }
}
