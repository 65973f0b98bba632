/** Where a header block ends, whatever becomes of its headers: the exact condition on its lines under
    which the reader stops at the empty line, cut headers included. */
module HeaderCursor {
  import opened CStrings
  import opened LineEnds
  import opened HeaderFraming

  /** Physical lines still to be read; the first may be the remainder of a line that was cut. */
  predicate AreLines(lines: seq<string>) {
    forall i :: 0 <= i < |lines| ==> IsLine(lines[i])
  }

  /** The lines less the first `k` characters. */
  function Behind(lines: seq<string>, k: nat): seq<string>
    requires lines != [] && k <= |lines[0]|
  {
    if k == |lines[0]| then lines[1..] else [lines[0][k..]] + lines[1..]
  }

  lemma BehindIsLines(lines: seq<string>, k: nat)
    requires AreLines(lines) && lines != [] && k <= |lines[0]|
    ensures AreLines(Behind(lines, k))
    ensures Concat(lines) == lines[0][..k] + Concat(Behind(lines, k))
    ensures |Concat(Behind(lines, k))| == |Concat(lines)| - k
  {
    hide Concat;
    var line := lines[0];
    assert lines == [line] + lines[1..];
    ConcatCons(line, lines[1..]);
    if k == |line| {
      assert line[..k] == line;
    } else {
      var remainder := line[k..];
      assert remainder[..|remainder| - 1] == line[..|line| - 1][k..];
      ConcatCons(remainder, lines[1..]);
      assert line == line[..k] + remainder;
    }
  }

  /** A line that stands where a new header is read is not blank: it is no remainder that consists of
      a line end. Behind each cut this is asked of what the cut leaves. */
  predicate NoBlankRemainder(lines: seq<string>, post: bool)
    requires AreLines(lines)
    decreases |Concat(lines)|, 0
  {
    lines == [] ||
    (lines[0] != "\n" &&
     var k := Min(|lines[0]|, ROOM);
     BehindIsLines(lines, k);
     if post && IsDelimiter(lines[0][..k]) then NoBlankRemainder(Behind(lines, k), post)
     else NoBlankBehind(ROOM - k, Behind(lines, k), post))
  }

  /** The same behind a header that has room for `room` more characters: what starts with whitespace
      is taken in as far as there is room, and anything else is a new header. */
  predicate NoBlankBehind(room: nat, lines: seq<string>, post: bool)
    requires AreLines(lines)
    decreases |Concat(lines)|, 1
  {
    if lines == [] || !IsFold(lines[0][0]) then NoBlankRemainder(lines, post)
    else
      var k := Min(|lines[0]| - 1, room);
      BehindIsLines(lines, 1 + k);
      NoBlankBehind(room - k, Behind(lines, 1 + k), post)
  }

  lemma CutLine(line: string, after: string, max: nat)
    requires IsLine(line)
    ensures LineLength(line + after, max) == Min(|line|, max)
  {
    var n := line + after;
    var k := Min(|line|, max);
    assert forall j :: 0 <= j < |line| - 1 ==> n[j] == line[..|line| - 1][j];
    LineLengthIs(n, max, k);
  }

  /** What the reader finds after taking `k` characters of the first line. */
  lemma TakeOff(lines: seq<string>, k: nat, tail: string)
    requires AreLines(lines) && lines != [] && k <= |lines[0]|
    ensures var n := Concat(lines) + tail;
            |n| >= k && n[..k] == lines[0][..k] && n[k..] == Concat(Behind(lines, k)) + tail
  {
    hide Behind, Concat;
    BehindIsLines(lines, k);
    assert Concat(lines) + tail == lines[0][..k] + (Concat(Behind(lines, k)) + tail);
  }

  lemma FoldTakesOff(h: string, lines: seq<string>, tail: string)
    requires |h| <= ROOM && AreLines(lines) && lines != [] && IsFold(lines[0][0])
    ensures var k := Min(|lines[0]| - 1, ROOM - |h|);
            Fold(h, Concat(lines) + tail)
            == Fold(h + lines[0][1..1 + k], Concat(Behind(lines, 1 + k)) + tail)
  {
    hide Fold, LineLength, Behind;
    var line := lines[0];
    var after := Concat(lines[1..]) + tail;
    var n := Concat(lines) + tail;
    var k := Min(|line| - 1, ROOM - |h|);
    ConcatFirst(lines, tail);
    var body := line[1..];
    assert body[..|body| - 1] == line[..|line| - 1][1..];
    assert n[1..] == body + after;
    CutLine(body, after, ROOM - |h|);
    FoldUnroll(h, n);
    TakeOff(lines, 1 + k, tail);
    assert n[1..1 + k] == line[1..1 + k] by {
      assert n[..1 + k][1..] == line[..1 + k][1..];
    }
  }

  lemma FirstOf(lines: seq<string>, tail: string)
    requires AreLines(lines) && tail != []
    ensures var n := Concat(lines) + tail; n != [] && n[0] == if lines == [] then tail[0] else lines[0][0]
  {
    if lines == [] {
      assert Concat(lines) + tail == tail;
    } else {
      ConcatFirst(lines, tail);
    }
  }

  /** Folding leaves lines again, with the condition still to be met by them. */
  lemma {:induction false} FoldLeavesLines(h: string, lines: seq<string>, tail: string, post: bool)
    returns (left: seq<string>)
    requires |h| <= ROOM && AreLines(lines)
    requires tail != [] && !IsFold(tail[0])
    ensures AreLines(left) && |Concat(left)| <= |Concat(lines)|
    ensures Fold(h, Concat(lines) + tail).Some?
    ensures Fold(h, Concat(lines) + tail).value.1 == Concat(left) + tail
    ensures NoBlankBehind(ROOM - |h|, lines, post) <==> NoBlankRemainder(left, post)
    decreases |Concat(lines)|
  {
    hide Fold, LineLength, NoBlankRemainder, Behind;
    var n := Concat(lines) + tail;
    if lines == [] || !IsFold(lines[0][0]) {
      left := lines;
      FirstOf(lines, tail);
      FoldEnds(h, n);
    } else {
      var k := Min(|lines[0]| - 1, ROOM - |h|);
      FoldTakesOff(h, lines, tail);
      BehindIsLines(lines, 1 + k);
      left := FoldLeavesLines(h + lines[0][1..1 + k], Behind(lines, 1 + k), tail, post);
    }
  }

  lemma BlankWhenCut(line: string, k: nat)
    requires IsLine(line) && k == Min(|line|, ROOM)
    ensures line[..k] == "\n" <==> line == "\n"
  {
    assert forall j :: 0 <= j < |line| - 1 ==> line[..|line| - 1][j] == line[j];
    assert line[0] == line[..k][0];
    assert k == |line| ==> line[..k] == line;
  }

  /** One turn on lines: the end on a blank one, otherwise lines again. */
  lemma TurnLeavesLines(lines: seq<string>, tail: string, post: bool) returns (left: seq<string>)
    requires AreLines(lines) && lines != [] && tail != [] && !IsFold(tail[0])
    ensures AreLines(left)
    ensures lines[0] == "\n" ==> TakeTurn(Concat(lines) + tail, post) == Last(Concat(left) + tail)
    ensures lines[0] != "\n" ==>
              var t := TakeTurn(Concat(lines) + tail, post);
              && t.Next? && t.rest == Concat(left) + tail && |Concat(left)| < |Concat(lines)|
              && (NoBlankRemainder(lines, post) <==> NoBlankRemainder(left, post))
  {
    hide Fold, LineLength, NoBlankBehind, Behind, IsDelimiter;
    var n := Concat(lines) + tail;
    var k := Min(|lines[0]|, ROOM);
    ConcatFirst(lines, tail);
    CutLine(lines[0], Concat(lines[1..]) + tail, ROOM);
    TakeOff(lines, k, tail);
    BehindIsLines(lines, k);
    var line := lines[0][..k];
    BlankWhenCut(lines[0], k);
    if lines[0] == "\n" || (post && IsDelimiter(line)) {
      left := Behind(lines, k);
    } else {
      left := FoldLeavesLines(line, Behind(lines, k), tail, post);
    }
  }

  lemma NoLinesNoBlank(post: bool)
    ensures NoBlankRemainder([], post)
  {
  }

  lemma BlankIsBlank(lines: seq<string>, post: bool)
    requires AreLines(lines) && lines != [] && lines[0] == "\n"
    ensures !NoBlankRemainder(lines, post)
  {
  }

  /** The cursor: the block always ends, and it ends right behind the empty line exactly when no new
      header is ever read where a cut left a bare line end. */
  lemma {:induction false} BlockEndsInPlace(lines: seq<string>, rest: string, post: bool)
    requires AreLines(lines)
    ensures var b := ReadBlock(Concat(lines) + ("\n" + rest), post);
            b.Some? && |b.value.rest| >= |rest|
            && (b.value.rest == rest <==> NoBlankRemainder(lines, post))
    decreases |Concat(lines)|
  {
    hide TakeTurn, NoBlankRemainder;
    var tail := "\n" + rest;
    var n := Concat(lines) + tail;
    if lines == [] {
      assert n == tail;
      EmptyLineTurn(rest, post);
      NoLinesNoBlank(post);
    } else {
      var left := TurnLeavesLines(lines, tail, post);
      if lines[0] == "\n" {
        BlankIsBlank(lines, post);
        assert |Concat(left) + tail| > |rest|;
      } else {
        BlockEndsInPlace(left, rest, post);
      }
    }
  }

  /** Headers that all fit are never cut, so they meet the condition. */
  lemma FittingHeadersEndInPlace(lines: seq<string>, post: bool)
    requires AreHeaderLines(lines) && Fit(Unfold(lines, post))
    ensures NoBlankRemainder(lines, post)
  {
    hide ReadBlock, NoBlankRemainder, Unfold, Fit;
    BlockUnfolds(lines, post, "");
    BlockEndsInPlace(lines, "", post);
  }

  /** The same on any stream with an empty line. */
  lemma HeaderBlockEnd(n: string, m: nat, post: bool)
    requires EmptyLineAt(n, m) && forall j: nat :: j < m ==> !EmptyLineAt(n, j)
    ensures var lines := PhysicalLines(n[..m]); var b := ReadBlock(n, post);
            && AreLines(lines) && b.Some?
            && (b.value.rest == n[m + 1..] <==> NoBlankRemainder(lines, post))
  {
    hide ReadBlock, PhysicalLines, NoBlankRemainder, Concat;
    LinesBeforeEmptyLine(n, m);
    assert n == n[..m] + ("\n" + n[m + 1..]);
    BlockEndsInPlace(PhysicalLines(n[..m]), n[m + 1..], post);
  }
}
