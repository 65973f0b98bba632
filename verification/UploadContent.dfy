/** What ends up in an uploaded file. */
module UploadContent {
  import opened CStrings
  import opened LineEnds
  import opened HeaderFraming
  import opened Upload

  /** The pieces in which `read_line` hands out a text. */
  function Chunks(n: string): seq<string>
    decreases |n|
  {
    if n == [] then [] else
    var k := LineLength(n, ROOM);
    [n[..k]] + Chunks(n[k..])
  }

  /** The first of the pieces that holds the marker, or their number when none does. */
  function FirstHit(pieces: seq<string>, marker: string): (i: nat)
    ensures i <= |pieces|
    ensures forall j :: 0 <= j < i ==> !Hits(pieces[j], marker)
    ensures i < |pieces| ==> Hits(pieces[i], marker)
  {
    if pieces == [] || Hits(pieces[0], marker) then 0 else 1 + FirstHit(pieces[1..], marker)
  }

  /** No piece, up to its first NUL, holds the marker. */
  ghost predicate MarkerFree(n: string, marker: string) {
    forall i :: 0 <= i < |Chunks(n)| ==> !Contains(CStr(Chunks(n)[i]), marker)
  }

  lemma MarkerFreeMeansNoHit(n: string, marker: string)
    ensures MarkerFree(n, marker) <==> FirstHit(Chunks(n), marker) == |Chunks(n)|
  {
    hide Chunks, CStr, Contains;
    var c := Chunks(n);
    assert forall i :: 0 <= i < |c| ==> (Hits(c[i], marker) <==> Contains(CStr(c[i]), marker));
  }

  lemma LineInside(body: string)
    ensures LineLength(body, ROOM) <= |body|
    ensures body != [] ==> LineLength(body, ROOM) > 0
  {
  }

  /** The pieces are the text, and none of them is empty. */
  lemma {:induction false} ChunksAreText(n: string)
    ensures Concat(Chunks(n)) == n
    ensures "" !in Chunks(n)
    decreases |n|
  {
    hide LineLength, Concat;
    LineInside(n);
    if n == [] {
      ConcatNone();
    } else {
      var k := LineLength(n, ROOM);
      ChunksAreText(n[k..]);
      ConcatCons(n[..k], Chunks(n[k..]));
      assert n == n[..k] + n[k..];
    }
  }

  /** The pieces in front of one of them are a proper part of the text. */
  lemma FrontOfText(n: string, i: nat)
    requires i <= |Chunks(n)|
    ensures n == Concat(Chunks(n)[..i]) + Concat(Chunks(n)[i..])
    ensures i < |Chunks(n)| ==> Concat(Chunks(n)[i..]) == Chunks(n)[i] + Concat(Chunks(n)[i + 1..])
    ensures i < |Chunks(n)| ==> Chunks(n)[i] != "" && |Concat(Chunks(n)[..i])| < |n|
  {
    hide Chunks, Concat;
    ChunksAreText(n);
    var c := Chunks(n);
    assert c == c[..i] + c[i..];
    ConcatAppend(c[..i], c[i..]);
    if i < |c| {
      assert c[i..] == [c[i]] + c[i + 1..];
      ConcatCons(c[i], c[i + 1..]);
      assert c[i] in c;
    }
  }

  /** A line of the body is not affected by what follows the body. */
  lemma LineWithin(body: string, tail: string)
    requires body != [] && body[|body| - 1] == '\n'
    ensures LineLength(body + tail, ROOM) == LineLength(body, ROOM)
  {
    var k := LineLength(body, ROOM);
    assert forall j :: 0 <= j < k - 1 ==> (body + tail)[j] == body[j];
    LineLengthIs(body + tail, ROOM, k);
  }

  lemma FirstHitCons(piece: string, pieces: seq<string>, marker: string)
    ensures FirstHit([piece] + pieces, marker) == if Hits(piece, marker) then 0 else 1 + FirstHit(pieces, marker)
  {
    assert ([piece] + pieces)[1..] == pieces;
  }

  lemma ChunksFirst(n: string)
    requires n != []
    ensures Chunks(n) == [n[..LineLength(n, ROOM)]] + Chunks(n[LineLength(n, ROOM)..])
  {
  }

  /** What is left of the stream when the copying of `body` stops at piece `i`, or behind the line at
      the front of `tail` when it stops at none. */
  function LeftBehind(pieces: seq<string>, i: nat, tail: string): string
    requires i <= |pieces|
  {
    if i < |pieces| then Concat(pieces[i + 1..]) + tail else tail[LineLength(tail, ROOM)..]
  }

  lemma NoChunks()
    ensures Chunks([]) == [] && forall marker :: FirstHit([], marker) == 0
  {
  }

  /** With a boundary line behind the body and the countdown not run out, the loop ends, and the copy
      is the body up to the first piece that holds the marker. */
  lemma {:induction false} CopiesUpToFirstHit(body: string, tail: string, left: int, marker: string)
    requires body == [] || body[|body| - 1] == '\n'
    requires tail != [] && Hits(tail[..LineLength(tail, ROOM)], marker)
    requires left > |body|
    ensures var c := Chunks(body); var i := FirstHit(c, marker);
            CopyLines(body + tail, left, marker) == Some(Copy(Concat(c[..i]), LeftBehind(c, i, tail)))
    decreases |body|
  {
    hide CopyLines, LineLength, Hits, Chunks, FirstHit, Concat;
    var n := body + tail;
    CopyStep(n, left, marker);
    ConcatNone();
    if body == [] {
      assert n == tail;
      NoChunks();
      assert Chunks(body)[..0] == [];
    } else {
      var k := LineLength(body, ROOM);
      var piece, rest := body[..k], body[k..];
      LineWithin(body, tail);
      LineInside(body);
      ChunksFirst(body);
      assert n[..k] == piece && n[k..] == rest + tail;
      var later := Chunks(rest);
      FirstHitCons(piece, later, marker);
      if Hits(piece, marker) {
        ChunksAreText(rest);
        assert ([piece] + later)[1..] == later && ([piece] + later)[..0] == [];
      } else {
        CopiesUpToFirstHit(rest, tail, left - k, marker);
        var i := FirstHit(later, marker);
        assert ([piece] + later)[..1 + i] == [piece] + later[..i];
        ConcatCons(piece, later[..i]);
        assert i < |later| ==> ([piece] + later)[1 + i + 1..] == later[i + 1..];
      }
    }
  }

  /** So the copy is the body exactly when no piece of it holds the marker. */
  lemma CopiesBodyExactly(body: string, tail: string, left: int, marker: string)
    requires body == [] || body[|body| - 1] == '\n'
    requires tail != [] && Hits(tail[..LineLength(tail, ROOM)], marker)
    requires left > |body|
    ensures CopyLines(body + tail, left, marker) == Some(Copy(body, tail[LineLength(tail, ROOM)..]))
            <==> MarkerFree(body, marker)
  {
    hide CopyLines, LineLength, Hits, Chunks, Concat, MarkerFree;
    var c := Chunks(body);
    var i := FirstHit(c, marker);
    CopiesUpToFirstHit(body, tail, left, marker);
    MarkerFreeMeansNoHit(body, marker);
    FrontOfText(body, i);
    ChunksAreText(body);
    assert i == |c| ==> c[..i] == c;
  }

  // ----- the countdown -----

  lemma NoHitMeans(n: string, marker: string)
    requires n != [] && FirstHit(Chunks(n), marker) == |Chunks(n)|
    ensures var k := LineLength(n, ROOM);
            && Chunks(n) == [n[..k]] + Chunks(n[k..]) && !Hits(n[..k], marker)
            && FirstHit(Chunks(n[k..]), marker) == |Chunks(n[k..])|
  {
    hide Hits, LineLength;
    ChunksFirst(n);
    var k := LineLength(n, ROOM);
    FirstHitCons(n[..k], Chunks(n[k..]), marker);
  }

  /** Without a marker in the way Content-Length alone stops the loop: behind the piece with which the
      characters copied reach it, so never in the middle of a piece. */
  lemma {:induction false} CountdownStops(n: string, left: int, marker: string) returns (m: nat)
    requires MarkerFree(n, marker) && 0 < left <= |n|
    ensures var c := Chunks(n);
            && 0 < m <= |c| && CopyLines(n, left, marker) == Some(Copy(Concat(c[..m]), Concat(c[m..])))
            && |Concat(c[..m - 1])| < left <= |Concat(c[..m])|
    decreases |n|
  {
    hide CopyLines, LineLength, Hits, Chunks, FirstHit, Concat, MarkerFree;
    MarkerFreeMeansNoHit(n, marker);
    NoHitMeans(n, marker);
    LineInside(n);
    CopyStep(n, left, marker);
    var k := LineLength(n, ROOM);
    var piece, rest := n[..k], n[k..];
    var c, later := Chunks(n), Chunks(rest);
    ConcatNone();
    CopyStep(rest, left - k, marker);
    if left <= k {
      m := 1;
      assert c[..1] == [piece] + [] && c[1..] == later && c[..0] == [];
      ConcatCons(piece, []);
      ChunksAreText(rest);
    } else {
      MarkerFreeMeansNoHit(rest, marker);
      var m' := CountdownStops(rest, left - k, marker);
      m := 1 + m';
      assert c[..m] == [piece] + later[..m'] && c[m..] == later[m'..] && c[..m - 1] == [piece] + later[..m' - 1];
      ConcatCons(piece, later[..m']);
      ConcatCons(piece, later[..m' - 1]);
    }
  }

  lemma NoHitInNothing(marker: string)
    requires marker != ""
    ensures !Hits([], marker)
  {
    CStrIdentity([]);
  }

  /** And with neither a marker nor an end of the countdown in the stream the loop never ends. */
  lemma {:induction false} NothingStops(n: string, left: int, marker: string)
    requires MarkerFree(n, marker) && marker != "" && left > |n|
    ensures CopyLines(n, left, marker) == None
    decreases |n|
  {
    hide CopyLines, LineLength, Hits, Chunks, FirstHit, MarkerFree;
    LineInside(n);
    CopyStep(n, left, marker);
    if n == [] {
      NoHitInNothing(marker);
      assert n[..LineLength(n, ROOM)] == [];
    } else {
      MarkerFreeMeansNoHit(n, marker);
      NoHitMeans(n, marker);
      var k := LineLength(n, ROOM);
      MarkerFreeMeansNoHit(n[k..], marker);
      NothingStops(n[k..], left - k, marker);
    }
  }

  // ----- a multipart body -----

  /** The boundary parameter as RFC 2046 allows it, here without line ends or NUL. */
  predicate IsBoundary(b: string) {
    '\r' !in b && '\n' !in b && '\0' !in b
  }

  /** The closing delimiter of section 5.1.1 of RFC 2046. */
  function Closing(b: string): string {
    "--" + b + "--"
  }

  /** What becomes of a boundary: it loses its first 24 characters and its last one, and what is left
      of a short one is the line end or nothing. */
  function MarkerText(b: string): string {
    if |b| == 24 then "\n" else if |b| <= 25 then "" else b[24..|b| - 1]
  }

  /** That is the marker, whatever stands behind the boundary in its field; behind one of less than 23
      characters there must be nothing, as in a record that was cleared. */
  lemma MarkerOf(front: string, b: string, behind: string)
    requires '\0' !in b && b != ""
    requires |b| < 23 ==> 24 < |b| + 2 + |behind| && forall i :: 0 <= i < |behind| ==> behind[i] == '\0'
    ensures MarkerIn(front + ((b + "\n") + (['\0'] + behind)), |front|) == Some(MarkerText(b))
  {
    hide IndexOf;
    var tail := (b + "\n") + (['\0'] + behind);
    var field := front + tail;
    assert field[|front|..] == tail;
    assert tail[..|b| + 1] == b + "\n";
    IndexOfIs(tail, '\0', |b| + 1);
    var cut := tail[|b| - 1 := '\0'];
    assert CutBoundary(field, |front|) == front + cut;
    var mem := cut[24..];
    assert (front + cut)[|front| + 24..] == mem;
    assert IndexOf(field[|front|..], '\0') == |b| + 1 >= 2;
    assert MarkerIn(field, |front|) == if IndexOf(mem, '\0') == |mem| then None else Some(CStr(mem));
    hide MarkerIn, CutBoundary;
    var marker := MarkerText(b);
    assert mem[|marker|] == '\0' by {
      assert |b| < 23 ==> cut[24] == '\0';
    }
    assert mem[..|marker|] == marker;
    IndexOfIs(mem, '\0', |marker|);
  }

  lemma MarkerInLine(b: string)
    requires IsBoundary(b)
    ensures Contains(Closing(b) + "\n", MarkerText(b))
    ensures '\r' !in MarkerText(b)
  {
    var line := Closing(b) + "\n";
    if |b| == 24 {
      assert OccursAt(line, "\n", |line| - 1);
    } else if |b| <= 25 {
      assert OccursAt(line, "", 0);
    } else {
      assert OccursAt(b, b[24..|b| - 1], 24);
      ContainsAround("--", b, "--\n");
      assert line == "--" + b + "--\n";
      ContainsPart(line, b, MarkerText(b));
    }
  }

  lemma ClosingHits(b: string, after: string)
    requires IsBoundary(b) && |b| + 5 <= ROOM
    ensures var tail := Closing(b) + "\n" + after; var k := LineLength(tail, ROOM);
            tail[k..] == after && Hits(tail[..k], MarkerText(b))
  {
    var line := Closing(b) + "\n";
    var tail := line + after;
    assert tail == Closing(b) + "\n" + after;
    assert IsLine(line) by {
      assert line[..|line| - 1] == Closing(b);
    }
    LineFirst(line, after, ROOM);
    assert tail[..|line|] == line && tail[|line|..] == after;
    CStrIdentity(line);
    MarkerInLine(b);
  }

  /** What is sent behind the part headers: the payload, the closing delimiter, an epilogue. */
  function Body(payload: string, b: string, epilogue: string): string {
    payload + ("\r\n" + (Closing(b) + ("\r\n" + epilogue)))
  }

  lemma BodyNormalised(payload: string, b: string, epilogue: string)
    requires IsBoundary(b)
    ensures Normalise(Body(payload, b, epilogue))
            == (Normalise(payload) + "\n") + (Closing(b) + "\n" + Normalise(epilogue))
  {
    hide Normalise;
    var end := "\r\n" + epilogue;
    var closing := Closing(b) + end;
    CrLfFirst(epilogue);
    NormaliseConcat(Closing(b), end);
    NormaliseIdentity(Closing(b));
    CrLfFirst(closing);
    NormaliseConcat(payload, "\r\n" + closing);
  }

  /** The upload: for any boundary, any payload in front of the closing delimiter, and a Content-Length
      that covers it, the loop ends, and what is written is the normalised payload and one more line
      end up to the first piece that holds the marker; it is all of that exactly when no piece does. */
  lemma UploadedFile(payload: string, b: string, epilogue: string, ilength: int)
    requires IsBoundary(b) && |b| + 5 <= ROOM
    requires ilength >= |payload| + 2 + |Closing(b)|
    ensures var marker := MarkerText(b); var text := Normalise(payload) + "\n";
            var c := Chunks(text); var i := FirstHit(c, marker);
            var copy := CopyLines(Normalise(Body(payload, b, epilogue)), ilength, marker);
            && copy == Some(Copy(Concat(c[..i]), LeftBehind(c, i, Closing(b) + "\n" + Normalise(epilogue))))
            && Concat(c[..i]) <= text
            && (copy == Some(Copy(text, Normalise(epilogue))) <==> MarkerFree(text, marker))
  {
    hide CopyLines, Normalise, MarkerFree, Hits, Chunks, Concat, MarkerText;
    var marker := MarkerText(b);
    var text, tail := Normalise(payload) + "\n", Closing(b) + "\n" + Normalise(epilogue);
    BodyNormalised(payload, b, epilogue);
    NormaliseHasNoCr(payload);
    ClosingHits(b, Normalise(epilogue));
    CopiesUpToFirstHit(text, tail, ilength, marker);
    CopiesBodyExactly(text, tail, ilength, marker);
    FrontOfText(text, FirstHit(Chunks(text), marker));
  }

  // ----- when the file is the payload -----

  lemma LineEndHolds(marker: string)
    ensures Hits("\n", marker) <==> marker == "" || marker == "\n"
  {
    CStrIdentity("\n");
    if Hits("\n", marker) {
      var i: nat :| OccursAt("\n", marker, i);
      assert marker == "\n"[i..i + |marker|];
    }
    assert OccursAt("\n", "", 0) && OccursAt("\n", "\n", 0);
  }

  lemma EmptyMarkerHits(line: string)
    ensures Hits(line, "")
  {
    assert OccursAt(CStr(line), "", 0);
  }

  /** The reader makes a cut at the end of the text, whatever follows it. */
  predicate EndsOnCut(text: string) {
    text == "" ||
    var c := Chunks(text);
    LineInside(text);
    var last := c[|c| - 1];
    |last| == ROOM || (last != "" && last[|last| - 1] == '\n')
  }

  lemma LineCutShort(text: string)
    requires text != ""
    ensures var k := LineLength(text, ROOM); k == ROOM || text[k - 1] == '\n' || k == |text|
  {
  }

  lemma EndsOnCutLater(text: string)
    requires text != ""
    ensures var k := LineLength(text, ROOM);
            EndsOnCut(text) <==> (k == ROOM || text[k - 1] == '\n') && EndsOnCut(text[k..])
  {
    hide LineLength;
    LineInside(text);
    var k := LineLength(text, ROOM);
    ChunksFirst(text);
    if text[k..] != "" {
      LineInside(text[k..]);
      ChunksFirst(text[k..]);
      var c, later := Chunks(text), Chunks(text[k..]);
      assert c[|c| - 1] == later[|later| - 1];
      LineCutShort(text);
    } else {
      NoChunks();
      assert Chunks(text) == [text[..k]];
    }
  }

  lemma OneMoreLineEnd(text: string)
    requires text != ""
    ensures var k := LineLength(text, ROOM);
            LineLength(text + "\n", ROOM) == if k == ROOM || text[k - 1] == '\n' then k else |text| + 1
  {
    var k := LineLength(text, ROOM);
    var m := if k == ROOM || text[k - 1] == '\n' then k else |text| + 1;
    assert forall j :: 0 <= j < m - 1 ==> (text + "\n")[j] == text[j];
    LineLengthIs(text + "\n", ROOM, m);
  }

  lemma EmptyEndsOnCut()
    ensures EndsOnCut("")
  {
  }

  lemma LineEndChunks(text: string)
    ensures text == "" ==> Chunks(text + "\n") == ["\n"] && Chunks(text) == [] && EndsOnCut(text)
    ensures text != "" ==>
              var k := LineLength(text, ROOM); var cut := k == ROOM || text[k - 1] == '\n';
              && |text[k..]| < |text| && Chunks(text) == [text[..k]] + Chunks(text[k..])
              && (cut ==> Chunks(text + "\n") == [text[..k]] + Chunks(text[k..] + "\n"))
              && (cut ==> (EndsOnCut(text) <==> EndsOnCut(text[k..])))
              && (!cut ==> Chunks(text + "\n") == [text + "\n"] && !EndsOnCut(text))
  {
    hide LineLength, EndsOnCut, Chunks;
    var n := text + "\n";
    ChunksFirst(n);
    NoChunks();
    if text == "" {
      assert n == "\n" && n[..1] == n && n[1..] == [];
      LineLengthIs(n, ROOM, 1);
      EmptyEndsOnCut();
    } else {
      LineInside(text);
      var k := LineLength(text, ROOM);
      OneMoreLineEnd(text);
      LineCutShort(text);
      EndsOnCutLater(text);
      ChunksFirst(text);
      if k == ROOM || text[k - 1] == '\n' {
        assert n[..k] == text[..k] && n[k..] == text[k..] + "\n";
      } else {
        assert n[..|n|] == n && n[|n|..] == [];
      }
    }
  }

  /** One more line end is a piece of its own exactly behind such a text. */
  lemma {:induction false} LineEndAlone(text: string)
    ensures var c := Chunks(text + "\n");
            && c != [] && (EndsOnCut(text) <==> c[|c| - 1] == "\n")
            && (EndsOnCut(text) ==> c == Chunks(text) + ["\n"])
    decreases |text|
  {
    hide LineLength, EndsOnCut, Chunks;
    LineEndChunks(text);
    if text != "" {
      var k := LineLength(text, ROOM);
      if k == ROOM || text[k - 1] == '\n' {
        LineEndAlone(text[k..]);
      } else {
        assert |text + "\n"| > |"\n"|;
      }
    }
  }

  lemma FirstHitLast(c: seq<string>, last: string, marker: string)
    ensures FirstHit(c + [last], marker) == |c| <==> FirstHit(c, marker) == |c| && Hits(last, marker)
  {
    hide FirstHit, Hits;
    var d := c + [last];
    assert forall j :: 0 <= j < |c| ==> d[j] == c[j];
    assert d[|c|] == last;
  }

  lemma SomethingConcat(parts: seq<string>)
    requires parts != [] && "" !in parts
    ensures Concat(parts) != ""
  {
    assert parts[0] in parts;
  }

  /** A payload cut off its line end: the piece that is left over is that line end. */
  lemma LastPiece(payload: string, i: nat)
    requires var c := Chunks(payload + "\n"); i <= |c| && Concat(c[..i]) == payload
    ensures EndsOnCut(payload) && i == |Chunks(payload)|
  {
    hide Chunks, Concat, EndsOnCut;
    var text := payload + "\n";
    var c := Chunks(text);
    FrontOfText(text, i);
    assert Concat(c[i..]) == text[|payload|..] == "\n";
    ConcatNone();
    assert c[|c|..] == [];
    assert c[i] == "\n" by {
      assert c[i][0] == "\n"[0];
    }
    ChunksAreText(text);
    if c[i + 1..] != [] {
      SomethingConcat(c[i + 1..]);
    }
    LineEndAlone(payload);
  }

  lemma NoCrInFront(payload: string, text: string)
    requires payload <= text && '\r' !in text
    ensures '\r' !in payload
  {
    assert forall j :: 0 <= j < |payload| ==> payload[j] == text[j];
  }

  /** A payload and the line end behind it, cut in front of the first piece with the marker, give the
      payload exactly when that piece is the line end. */
  lemma CutLeavesPayload(payload: string, marker: string)
    ensures var text := Normalise(payload) + "\n"; var c := Chunks(text);
            Concat(c[..FirstHit(c, marker)]) == payload
            <==> '\r' !in payload && EndsOnCut(payload) && MarkerFree(payload, marker) && Hits("\n", marker)
  {
    hide Normalise, Chunks, Concat, Hits, FirstHit, EndsOnCut, MarkerFree;
    var text := Normalise(payload) + "\n";
    var c := Chunks(text);
    var i := FirstHit(c, marker);
    FrontOfText(text, i);
    NormaliseHasNoCr(payload);
    MarkerFreeMeansNoHit(payload, marker);
    LineEndAlone(payload);
    FirstHitLast(Chunks(payload), "\n", marker);
    ChunksAreText(payload);
    if Concat(c[..i]) == payload {
      NoCrInFront(payload, text);
      NormaliseIdentity(payload);
      LastPiece(payload, i);
    } else if '\r' !in payload {
      NormaliseIdentity(payload);
      assert EndsOnCut(payload) ==> c[..|Chunks(payload)|] == Chunks(payload);
    }
  }

  lemma NoneIsFree(payload: string)
    ensures MarkerFree(payload, "") <==> payload == ""
  {
    hide Chunks, Hits;
    NoChunks();
    MarkerFreeMeansNoHit(payload, "");
    if payload != "" {
      ChunksFirst(payload);
      EmptyMarkerHits(Chunks(payload)[0]);
    }
  }

  /** When a payload without CR survives: the line break in front of the delimiter is written too,
      unless its own piece is the one that stops the loop. */
  ghost predicate Survives(payload: string, b: string) {
    if |b| > 25 then false
    else if |b| == 24 then '\r' !in payload && EndsOnCut(payload) && MarkerFree(payload, "\n")
    else payload == ""
  }

  lemma NoneToFind(s: string, c: char)
    requires c !in s
    ensures !Contains(s, [c])
  {
    forall i: nat ensures !OccursAt(s, [c], i) {
      assert i + 1 <= |s| ==> s[i..i + 1] == [s[i]] && s[i] in s;
    }
  }

  /** One full piece without a line end is such a payload. */
  lemma FullPieceSurvives(payload: string, b: string)
    requires |b| == 24 && |payload| == ROOM
    requires '\r' !in payload && '\n' !in payload && '\0' !in payload
    ensures Survives(payload, b)
  {
    hide Hits;
    LineLengthIs(payload, ROOM, ROOM);
    ChunksFirst(payload);
    NoChunks();
    assert payload[..ROOM] == payload && payload[ROOM..] == [];
    assert Chunks(payload) == [payload];
    CStrIdentity(payload);
    NoneToFind(payload, '\n');
  }

  /** What is written is the payload itself: never for a boundary of more than 25 characters; for one
      of 24, whose marker is a line end, when the payload has no CR, ends on a cut, and no piece of it
      shows a line end; for the others, whose marker is empty, when there is no payload. */
  lemma FileIsPayloadExactly(payload: string, b: string, epilogue: string, ilength: int)
    requires IsBoundary(b) && |b| + 5 <= ROOM
    requires ilength >= |payload| + 2 + |Closing(b)|
    ensures var copy := CopyLines(Normalise(Body(payload, b, epilogue)), ilength, MarkerText(b));
            && copy.Some? && copy.value.file <= Normalise(payload) + "\n"
            && (copy.value.file == payload <==> Survives(payload, b))
  {
    hide CopyLines, Normalise, Chunks, Concat, FirstHit, Closing, EndsOnCut, MarkerFree, Hits;
    var marker := MarkerText(b);
    UploadedFile(payload, b, epilogue, ilength);
    CutLeavesPayload(payload, marker);
    LineEndHolds(marker);
    NoneIsFree(payload);
    EmptyEndsOnCut();
    if |b| > 25 {
      assert marker[0] == b[24];
    }
  }

  // ----- over an existing file -----

  lemma NormaliseKeepsFront(payload: string, front: string)
    requires front <= payload && '\r' !in front
    ensures |Normalise(payload)| >= |front|
  {
    hide Normalise;
    var rest := payload[|front|..];
    assert payload == front + rest;
    NormaliseConcat(front, rest);
    NormaliseIdentity(front);
  }

  lemma NormalisedIsNoFront(payload: string)
    ensures !(Normalise(payload) + "\n" <= payload)
  {
    hide Normalise;
    NormaliseHasNoCr(payload);
    if Normalise(payload) + "\n" <= payload {
      NormaliseKeepsFront(payload, Normalise(payload) + "\n");
    }
  }

  /** The file is not truncated: it holds what was written exactly when what was there before was not
      longer. A complete upload never leaves the payload, whatever was there. */
  lemma UploadOverExisting(existing: string, payload: string, b: string, epilogue: string, ilength: int)
    requires IsBoundary(b) && |b| + 5 <= ROOM
    requires ilength >= |payload| + 2 + |Closing(b)|
    ensures var text := Normalise(payload) + "\n";
            var copy := CopyLines(Normalise(Body(payload, b, epilogue)), ilength, MarkerText(b));
            copy.Some? &&
            var written := copy.value.file; var contents := Overwrite(existing, written);
            && (contents == written <==> |existing| <= |written|)
            && |contents| >= |existing|
            && (MarkerFree(text, MarkerText(b)) ==>
                  && (contents == text <==> |existing| <= |text|)
                  && contents != payload)
  {
    hide CopyLines, Normalise, MarkerFree, MarkerText, Closing, Chunks, Concat, FirstHit;
    UploadedFile(payload, b, epilogue, ilength);
    NormalisedIsNoFront(payload);
    var text := Normalise(payload) + "\n";
    assert text <= Overwrite(existing, text);
  }

  /** An empty marker is held by every line: whatever is uploaded, the file stays as it was. */
  lemma EmptyMarkerStopsAtOnce(n: string, left: int, existing: string)
    requires left > 0
    ensures CopyLines(n, left, "") == Some(Copy("", n[LineLength(n, ROOM)..]))
    ensures Overwrite(existing, CopyLines(n, left, "").value.file) == existing
  {
    CopyStep(n, left, "");
    EmptyMarkerHits(n[..LineLength(n, ROOM)]);
  }

  // ----- the boundary parameter -----

  /** The boundary in a Content-Type value is found, with its line end. */
  lemma BoundaryIsFound(before: string, b: string)
    requires |b| >= 4 && b[..4] == "----"
    requires forall i: nat :: i < |before| ==> !OccursAt(before + ("boundary=" + (b + "\n")), "boundary=", i)
    ensures var text := before + ("boundary=" + (b + "\n"));
            BoundaryAt(text) == Some(|before| + 9) && text[|before| + 9..] == b + "\n"
  {
    hide StrStr;
    var value := b + "\n";
    var tail := "boundary=" + value;
    var text := before + tail;
    assert text[|before|..] == tail;
    assert tail[..9] == "boundary=";
    assert OccursAt(text, "boundary=", |before|) by {
      assert text[|before|..|before| + 9] == tail[..9];
    }
    assert tail[9..] == value;
    assert text[|before| + 9..] == value;
    assert OccursAt(tail, "----", 9) by {
      assert tail[9..13] == b[..4];
    }
    forall j: nat | j < 9 ensures !OccursAt(tail, "----", j) {
      assert tail[j..j + 4][0] == "boundary="[j];
      assert '-' !in "boundary=";
    }
  }
}
