/** How a header block is cut into headers: continuation lines, delimiter lines of a multipart
    body, and the empty line at the end. Everything is stated on the normalised stream. */
module HeaderFraming {
  import opened CStrings
  import opened LineEnds

  /** `char header[8096]` holds this many characters in front of its NUL. */
  const ROOM: nat := 8095

  /** The run of dashes by which the POST reader knows the first line of a body part. */
  const DASHES: string := "--------------------------"

  /** A line that starts with such a character continues the line before it. */
  predicate IsFold(c: char) {
    IsSpace(c) && c != '\n' && c != '\r'
  }

  /** `strstr(header, "--...--") != NULL`. */
  predicate IsDelimiterText(h: string) {
    StrStr(h, DASHES).Some?
  }

  predicate IsDelimiter(line: string) {
    IsDelimiterText(CStr(line))
  }

  /** What the reading loop meets: a header with the length of its first line, or a delimiter. */
  datatype Item = Header(text: string, first: nat) | Delimiter(text: string)

  datatype Block = Block(items: seq<Item>, rest: string)

  /** The continuation loop on a running header `h`. `None`: the stream ends, and the loops around
      it find nothing more to read and never come back. */
  function Fold(h: string, n: string): (r: Option<(string, string)>)
    requires |h| <= ROOM
    ensures r.Some? ==> h <= r.value.0 && |r.value.0| <= ROOM && r.value.1 != [] && |r.value.1| <= |n|
    decreases |n|
  {
    if n == [] then None
    else if !IsFold(n[0]) then Some((h, n))
    else
      var k := LineLength(n[1..], ROOM - |h|);
      Fold(h + n[1..1 + k], n[1 + k..])
  }

  /** One turn of the header loop: an item, the end of the block, or a stream that has run dry,
      on which the loop spins for ever. */
  datatype Turn = Dry | Last(rest: string) | Next(item: Item, rest: string)

  function TakeTurn(n: string, post: bool): (t: Turn)
    ensures t.Last? || t.Next? ==> |t.rest| < |n|
    ensures t.Next? ==> |t.item.text| <= ROOM
  {
    if n == [] then Dry else
    var k := LineLength(n, ROOM);
    var line := n[..k];
    if line == "\n" then Last(n[k..])
    else if post && IsDelimiter(line) then Next(Delimiter(line), n[k..])
    else
      var folded := Fold(line, n[k..]);
      if folded.None? then Dry else Next(Header(folded.value.0, k), folded.value.1)
  }

  /** What the header loop reads: the items, and what follows the line that ends the block. */
  function ReadBlock(n: string, post: bool): Option<Block>
    decreases |n|
  {
    match TakeTurn(n, post)
    case Dry => None
    case Last(rest) => Some(Block([], rest))
    case Next(item, rest) =>
      var b := ReadBlock(rest, post);
      if b.None? then None else Some(Block([item] + b.value.items, b.value.rest))
  }

  // ----- termination -----

  /** An empty line starts at offset `m`. */
  predicate EmptyLineAt(n: string, m: nat) {
    m < |n| && n[m] == '\n' && (m == 0 || n[m - 1] == '\n')
  }

  predicate IsSuffix(part: string, n: string) {
    |part| <= |n| && part == n[|n| - |part|..]
  }

  lemma SuffixOfSuffix(a: string, k: nat, n: string)
    requires k <= |n| && IsSuffix(a, n[k..])
    ensures IsSuffix(a, n)
  {
  }

  lemma LineStopsAt(n: string, max: nat, m: nat)
    requires 0 < m < |n| && n[m - 1] == '\n'
    ensures LineLength(n, max) <= m
  {
    var k: int := LineLength(n, max);
    assert forall j :: 0 <= j < k - 1 ==> n[j] != '\n';
  }

  lemma {:induction false} FoldStopsAtEmptyLine(h: string, n: string, m: nat)
    requires |h| <= ROOM
    requires EmptyLineAt(n, m)
    ensures var r := Fold(h, n);
            r.Some? && IsSuffix(r.value.1, n) && |r.value.1| >= |n| - m
    decreases |n|
  {
    if IsFold(n[0]) {
      var k := LineLength(n[1..], ROOM - |h|);
      if m > 1 {
        LineStopsAt(n[1..], ROOM - |h|, m - 1);
      }
      FoldStopsAtEmptyLine(h + n[1..1 + k], n[1 + k..], m - 1 - k);
      SuffixOfSuffix(Fold(h, n).value.1, 1 + k, n);
    }
  }

  lemma FirstLineStopsAt(n: string, m: nat)
    requires EmptyLineAt(n, m)
    ensures var k := LineLength(n, ROOM); if m == 0 then n[..k] == "\n" else 0 < k <= m
  {
    if m > 0 {
      LineStopsAt(n, ROOM, m);
    } else {
      LineLengthIs(n, ROOM, 1);
    }
  }

  lemma TurnStopsAtEmptyLine(n: string, post: bool, m: nat)
    requires EmptyLineAt(n, m)
    ensures var t := TakeTurn(n, post);
            !t.Dry? && IsSuffix(t.rest, n) && |t.rest| >= |n| - m - (if t.Last? then 1 else 0)
  {
    var k := LineLength(n, ROOM);
    var line := n[..k];
    FirstLineStopsAt(n, m);
    if line != "\n" && !(post && IsDelimiter(line)) {
      FoldStopsAtEmptyLine(line, n[k..], m - k);
      SuffixOfSuffix(Fold(line, n[k..]).value.1, k, n);
    }
  }

  /** Termination: an empty line anywhere in the stream ends the block, at the latest there. */
  lemma {:induction false} EmptyLineEndsBlock(n: string, post: bool, m: nat)
    requires EmptyLineAt(n, m)
    ensures var r := ReadBlock(n, post);
            r.Some? && IsSuffix(r.value.rest, n) && |r.value.rest| >= |n| - m - 1
    decreases |n|
  {
    TurnStopsAtEmptyLine(n, post, m);
    var t := TakeTurn(n, post);
    if !t.Next? {
    } else {
      var d := |n| - |t.rest|;
      assert t.rest == n[d..];
      EmptyLineEndsBlock(t.rest, post, m - d);
      SuffixOfSuffix(ReadBlock(t.rest, post).value.rest, d, n);
    }
  }

  // ----- what the block says -----

  /** A physical line: its LF is its last character. */
  predicate IsLine(l: string) {
    l != [] && l[|l| - 1] == '\n' && '\n' !in l[..|l| - 1]
  }

  /** The lines of a header block in front of the empty line that ends it. */
  predicate AreHeaderLines(lines: seq<string>) {
    forall i :: 0 <= i < |lines| ==> IsLine(lines[i]) && lines[i] != "\n"
  }

  /** How many of the leading lines are continuations. */
  function Continuations(lines: seq<string>): (c: nat)
    ensures c <= |lines|
    ensures forall i :: 0 <= i < c && lines[i] != [] ==> IsFold(lines[i][0])
    ensures c < |lines| && lines[c] != [] ==> !IsFold(lines[c][0])
  {
    if lines != [] && (lines[0] == [] || IsFold(lines[0][0])) then 1 + Continuations(lines[1..]) else 0
  }

  /** Continuation lines without their first whitespace character, one after the other. */
  function Joined(lines: seq<string>): string {
    if lines == [] then [] else (if lines[0] == [] then [] else lines[0][1..]) + Joined(lines[1..])
  }

  /** The headers the lines stand for: each line with the continuation lines behind it. */
  function Unfold(lines: seq<string>, post: bool): seq<Item> {
    if lines == [] then []
    else if post && IsDelimiter(lines[0]) then [Delimiter(lines[0])] + Unfold(lines[1..], post)
    else
      var c := Continuations(lines[1..]);
      [Header(lines[0] + Joined(lines[1..1 + c]), |lines[0]|)] + Unfold(lines[1 + c..], post)
  }

  predicate Fit(items: seq<Item>) {
    forall i :: 0 <= i < |items| ==> |items[i].text| <= ROOM
  }

  lemma LineFirst(line: string, tail: string, max: nat)
    requires IsLine(line) && |line| <= max
    ensures LineLength(line + tail, max) == |line|
  {
    var n := line + tail;
    assert forall j :: 0 <= j < |line| - 1 ==> n[j] == line[..|line| - 1][j];
    LineLengthIs(n, max, |line|);
  }

  lemma FoldStep(h: string, line: string, after: string)
    requires IsLine(line) && IsFold(line[0]) && |h| + |line| - 1 <= ROOM
    ensures Fold(h, line + after) == Fold(h + line[1..], after)
  {
    var n := line + after;
    var body := line[1..];
    assert forall j :: 0 <= j < |body| - 1 ==> body[j] == line[..|line| - 1][j + 1];
    assert IsLine(body);
    assert n[1..] == body + after;
    LineFirst(body, after, ROOM - |h|);
    assert n[1..1 + |body|] == body && n[1 + |body|..] == after;
  }

  lemma ConcatFirst(lines: seq<string>, tail: string)
    requires lines != []
    ensures Concat(lines) + tail == lines[0] + (Concat(lines[1..]) + tail)
  {
  }

  lemma FoldEnds(h: string, after: string)
    requires |h| <= ROOM && after != [] && !IsFold(after[0])
    ensures Fold(h, after) == Some((h, after))
  {
  }

  lemma JoinedFirst(lines: seq<string>)
    requires lines != [] && lines[0] != []
    ensures Joined(lines) == lines[0][1..] + Joined(lines[1..])
  {
  }

  lemma FoldJoinsStep(h: string, lines: seq<string>, after: string)
    requires lines != [] && IsLine(lines[0]) && IsFold(lines[0][0])
    requires |h| + |Joined(lines)| <= ROOM
    ensures |h + lines[0][1..]| + |Joined(lines[1..])| <= ROOM
    ensures Fold(h, Concat(lines) + after) == Fold(h + lines[0][1..], Concat(lines[1..]) + after)
    ensures (h + lines[0][1..]) + Joined(lines[1..]) == h + Joined(lines)
  {
    hide Fold, LineLength, IndexOf, Joined, Concat;
    JoinedFirst(lines);
    ConcatFirst(lines, after);
    FoldStep(h, lines[0], Concat(lines[1..]) + after);
  }

  /** The continuation loop takes in every continuation line and stops in front of what is none. */
  lemma {:induction false} FoldJoins(h: string, lines: seq<string>, after: string)
    requires forall i :: 0 <= i < |lines| ==> IsLine(lines[i]) && IsFold(lines[i][0])
    requires after != [] && !IsFold(after[0])
    requires |h| + |Joined(lines)| <= ROOM
    ensures Fold(h, Concat(lines) + after) == Some((h + Joined(lines), after))
    decreases |lines|
  {
    hide Fold, LineLength, IndexOf;
    if lines == [] {
      assert Concat(lines) + after == after;
      assert h + Joined(lines) == h;
      FoldEnds(h, after);
    } else {
      FoldJoinsStep(h, lines, after);
      FoldJoins(h + lines[0][1..], lines[1..], after);
    }
  }

  function HeaderLines(lines: seq<string>, post: bool): (k: nat)
    requires lines != []
    ensures 1 <= k <= |lines|
  {
    if post && IsDelimiter(lines[0]) then 1 else 1 + Continuations(lines[1..])
  }

  lemma TurnOnLine(line: string, after: string, post: bool)
    requires IsLine(line) && line != "\n" && |line| <= ROOM
    ensures post && IsDelimiter(line) ==> TakeTurn(line + after, post) == Next(Delimiter(line), after)
    ensures !(post && IsDelimiter(line)) && Fold(line, after).Some? ==>
              var folded := Fold(line, after).value;
              TakeTurn(line + after, post) == Next(Header(folded.0, |line|), folded.1)
  {
    hide LineLength, IndexOf, Fold, IsDelimiter;
    var n := line + after;
    LineFirst(line, after, ROOM);
    assert n[..|line|] == line && n[|line|..] == after;
  }

  /** The text behind a line, split where its continuation lines end. */
  lemma SplitContinuations(lines: seq<string>, tail: string) returns (left: string)
    requires AreHeaderLines(lines)
    requires tail != [] && !IsFold(tail[0])
    ensures left == Concat(lines[Continuations(lines)..]) + tail
    ensures Concat(lines) + tail == Concat(lines[..Continuations(lines)]) + left
    ensures left != [] && !IsFold(left[0])
  {
    var c := Continuations(lines);
    var conts, others := lines[..c], lines[c..];
    assert lines == conts + others;
    ConcatAppend(conts, others);
    left := Concat(others) + tail;
    if others != [] {
      assert left[0] == others[0][0];
      assert others[0] == lines[c];
    }
  }

  lemma UnfoldFirst(lines: seq<string>, post: bool)
    requires lines != []
    ensures var c := Continuations(lines[1..]);
            && Unfold(lines, post) != []
            && Unfold(lines, post)[0] == (if post && IsDelimiter(lines[0]) then Delimiter(lines[0])
                                          else Header(lines[0] + Joined(lines[1..1 + c]), |lines[0]|))
            && HeaderLines(lines, post) == if post && IsDelimiter(lines[0]) then 1 else 1 + c
  {
    hide IsDelimiter, Joined, Continuations;
  }

  /** What one turn of the loop makes of the block's next line. */
  lemma TurnUnfolds(lines: seq<string>, post: bool, tail: string)
    requires AreHeaderLines(lines) && lines != []
    requires tail != [] && !IsFold(tail[0])
    requires |Unfold(lines, post)[0].text| <= ROOM
    ensures TakeTurn(Concat(lines) + tail, post)
            == Next(Unfold(lines, post)[0], Concat(lines[HeaderLines(lines, post)..]) + tail)
  {
    hide LineLength, Fold, IsDelimiter, TakeTurn, Joined, Continuations, Unfold, HeaderLines, Concat;
    var line := lines[0];
    var after := Concat(lines[1..]) + tail;
    ConcatFirst(lines, tail);
    UnfoldFirst(lines, post);
    TurnOnLine(line, after, post);
    if !(post && IsDelimiter(line)) {
      var c := Continuations(lines[1..]);
      var left := SplitContinuations(lines[1..], tail);
      assert lines[1..][..c] == lines[1..1 + c] && lines[1..][c..] == lines[1 + c..];
      FoldJoins(line, lines[1..1 + c], left);
    }
  }

  lemma {:induction false} BlockFits(n: string, post: bool)
    requires ReadBlock(n, post).Some?
    ensures Fit(ReadBlock(n, post).value.items)
    decreases |n|
  {
    var t := TakeTurn(n, post);
    if !t.Next? {
    } else {
      BlockFits(t.rest, post);
    }
  }

  lemma EmptyLineTurn(rest: string, post: bool)
    ensures TakeTurn("\n" + rest, post) == Last(rest)
  {
    var n := "\n" + rest;
    LineFirst("\n", rest, ROOM);
    assert n[..1] == "\n" && n[1..] == rest;
  }

  lemma UnfoldStep(lines: seq<string>, post: bool)
    requires lines != []
    ensures Unfold(lines, post) == [Unfold(lines, post)[0]] + Unfold(lines[HeaderLines(lines, post)..], post)
  {
  }

  lemma OneLineUnfolds(line: string, post: bool)
    requires !IsDelimiter(line)
    ensures Unfold([line], post) == [Header(line, |line|)]
  {
    assert [line][1..] == [];
    assert line + [] == line;
  }

  lemma TwoLinesUnfold(line: string, line': string, post: bool)
    requires !IsDelimiter(line) && !IsDelimiter(line')
    requires line' != "" && !IsFold(line'[0])
    ensures Unfold([line, line'], post) == [Header(line, |line|), Header(line', |line'|)]
  {
    hide IsDelimiter, IsFold;
    var lines := [line, line'];
    assert lines[1..] == [line'];
    assert line + [] == line;
    OneLineUnfolds(line', post);
  }

  lemma FitStep(item: Item, items: seq<Item>)
    requires Fit([item] + items)
    ensures |item.text| <= ROOM && Fit(items)
  {
    var all := [item] + items;
    assert all[0] == item;
    assert forall i :: 0 <= i < |items| ==> items[i] == all[i + 1];
  }

  lemma {:induction false} BlockUnfolds(lines: seq<string>, post: bool, rest: string)
    requires AreHeaderLines(lines)
    requires Fit(Unfold(lines, post))
    ensures ReadBlock(Concat(lines) + ("\n" + rest), post) == Some(Block(Unfold(lines, post), rest))
    decreases |lines|
  {
    hide TakeTurn, LineLength, IsDelimiter, Joined, Continuations;
    var tail := "\n" + rest;
    if lines == [] {
      assert Concat(lines) + tail == tail;
      EmptyLineTurn(rest, post);
    } else {
      hide Unfold, Concat;
      UnfoldStep(lines, post);
      var others := lines[HeaderLines(lines, post)..];
      FitStep(Unfold(lines, post)[0], Unfold(others, post));
      TurnUnfolds(lines, post, tail);
      BlockUnfolds(others, post, rest);
    }
  }

  /** The block is framed and unfolded as its lines say exactly when every unfolded header fits
      the buffer; any longer header is cut into pieces. */
  lemma BlockUnfoldsExactly(lines: seq<string>, post: bool, rest: string)
    requires AreHeaderLines(lines)
    ensures ReadBlock(Concat(lines) + ("\n" + rest), post) == Some(Block(Unfold(lines, post), rest))
            <==> Fit(Unfold(lines, post))
  {
    var n := Concat(lines) + ("\n" + rest);
    if Fit(Unfold(lines, post)) {
      BlockUnfolds(lines, post, rest);
    } else if ReadBlock(n, post).Some? {
      BlockFits(n, post);
    }
  }

  /** The physical lines of a text. */
  function PhysicalLines(text: string): seq<string>
    decreases |text|
  {
    if text == [] then [] else
    var k := LineLength(text, |text|);
    [text[..k]] + PhysicalLines(text[k..])
  }

  lemma NoPhysicalLines()
    ensures PhysicalLines([]) == [] && Concat([]) == []
  {
  }

  lemma HeaderLinesCons(line: string, lines: seq<string>)
    requires IsLine(line) && line != "\n" && AreHeaderLines(lines)
    ensures AreHeaderLines([line] + lines)
  {
  }

  /** Takes the first line off a text that has no empty line before offset `m`. */
  lemma FirstPhysicalLine(n: string, m: nat) returns (k: nat)
    requires m > 0 && EmptyLineAt(n, m) && forall j: nat :: j < m ==> !EmptyLineAt(n, j)
    ensures k == LineLength(n[..m], m) && 0 < k <= m
    ensures IsLine(n[..m][..k]) && n[..m][..k] != "\n"
    ensures n[..m][k..] == n[k..][..m - k]
    ensures EmptyLineAt(n[k..], m - k) && forall j: nat :: j < m - k ==> !EmptyLineAt(n[k..], j)
  {
    hide IndexOf;
    var text := n[..m];
    k := LineLength(text, m);
    assert text[m - 1] == '\n';
    assert k > 0 && text[k - 1] == '\n';
    var line, rest := text[..k], n[k..];
    assert forall j :: 0 <= j < k - 1 ==> line[..k - 1][j] == text[j];
    assert !EmptyLineAt(n, 0);
    forall j: nat | j < m - k ensures !EmptyLineAt(rest, j) {
      assert !EmptyLineAt(n, k + j);
    }
  }

  lemma PhysicalLinesFirst(text: string)
    requires text != []
    ensures var k := LineLength(text, |text|); PhysicalLines(text) == [text[..k]] + PhysicalLines(text[k..])
  {
  }

  /** In front of the first empty line there are only lines that are not empty. */
  lemma {:induction false} LinesBeforeEmptyLine(n: string, m: nat)
    requires EmptyLineAt(n, m) && forall j: nat :: j < m ==> !EmptyLineAt(n, j)
    ensures AreHeaderLines(PhysicalLines(n[..m]))
    ensures Concat(PhysicalLines(n[..m])) == n[..m]
    decreases m
  {
    hide LineLength, PhysicalLines, Concat, IsLine;
    var text := n[..m];
    if m == 0 {
      NoPhysicalLines();
    } else {
      var k := FirstPhysicalLine(n, m);
      LinesBeforeEmptyLine(n[k..], m - k);
      PhysicalLinesFirst(text);
      var later := PhysicalLines(n[k..][..m - k]);
      ConcatCons(text[..k], later);
      HeaderLinesCons(text[..k], later);
      assert text == text[..k] + n[k..][..m - k];
    }
  }

  /** Framing: on any stream with an empty line, the reader stops right behind the first one and
      has every header unfolded as its lines say, exactly when each unfolded header fits. */
  lemma HeaderBlockFraming(n: string, m: nat, post: bool)
    requires EmptyLineAt(n, m) && forall j: nat :: j < m ==> !EmptyLineAt(n, j)
    ensures var items := Unfold(PhysicalLines(n[..m]), post);
            ReadBlock(n, post) == Some(Block(items, n[m + 1..])) <==> Fit(items)
  {
    hide ReadBlock, PhysicalLines, Unfold, Fit;
    LinesBeforeEmptyLine(n, m);
    assert n == n[..m] + ("\n" + n[m + 1..]);
    BlockUnfoldsExactly(PhysicalLines(n[..m]), post, n[m + 1..]);
  }

  lemma {:induction false} NoCrInConcat(lines: seq<string>)
    requires forall i :: 0 <= i < |lines| ==> '\r' !in lines[i]
    ensures '\r' !in Concat(lines)
  {
    if lines == [] {
    } else {
      NoCrInConcat(lines[1..]);
    }
  }

  /** The same for lines sent with CRLF line ends, as HTTP has them. */
  lemma BlockOnTheWire(lines: seq<string>, post: bool, rest: string)
    requires AreHeaderLines(lines)
    requires forall i :: 0 <= i < |lines| ==> '\r' !in lines[i]
    ensures ReadBlock(Normalise(WithEol(Concat(lines) + "\n", "\r\n") + rest), post)
            == Some(Block(Unfold(lines, post), Normalise(rest)))
            <==> Fit(Unfold(lines, post))
  {
    hide ReadBlock, Unfold, Fit, Concat, Normalise, WithEol;
    var text := Concat(lines) + "\n";
    var sent := WithEol(text, "\r\n");
    NoCrInConcat(lines);
    LineEndStyleIsForgotten(text, "\r\n");
    WithEolEnds(Concat(lines));
    NormaliseConcat(sent, rest);
    assert text + Normalise(rest) == Concat(lines) + ("\n" + Normalise(rest));
    BlockUnfoldsExactly(lines, post, Normalise(rest));
  }

  lemma FoldUnroll(h: string, n: string)
    requires |h| <= ROOM && n != [] && IsFold(n[0])
    ensures var k := LineLength(n[1..], ROOM - |h|);
            Fold(h, n) == Fold(h + n[1..1 + k], n[1 + k..])
  {
  }

  lemma FillsBuffer(line: string, blank: char, more: string, tail: string)
    requires IsFold(blank) && '\n' !in more && |line| + |more| == ROOM
    ensures Fold(line, [blank] + (more + tail)) == Fold(line + more, tail)
  {
    hide IndexOf, Fold, LineLength;
    var n := [blank] + (more + tail);
    assert n[1..] == more + tail;
    assert forall j :: 0 <= j < |more| - 1 ==> (more + tail)[j] == more[j];
    LineLengthIs(more + tail, |more|, |more|);
    FoldUnroll(line, n);
    assert n[1..1 + |more|] == more && n[1 + |more|..] == tail;
  }

  lemma LastTurn(n: string, rest: string)
    requires TakeTurn(n, false) == Last(rest)
    ensures ReadBlock(n, false) == Some(Block([], rest))
  {
  }

  lemma NextTurn(n: string, item: Item, next: string, rest: string)
    requires TakeTurn(n, false) == Next(item, next) && ReadBlock(next, false) == Some(Block([], rest))
    ensures ReadBlock(n, false) == Some(Block([item], rest))
  {
    assert [item] + [] == [item];
  }

  /** Short lines are not enough: when a continuation line fills the buffer exactly up to its own
      LF, that LF is read next, looks like the empty line, and ends the block; the headers behind
      it are left on the connection. */
  lemma FullBufferEndsBlock(line: string, blank: char, more: string, rest: string)
    requires IsLine(line) && line != "\n" && IsFold(blank)
    requires '\n' !in more && |line| + |more| == ROOM
    ensures ReadBlock(line + ([blank] + (more + ("\n" + rest))), false)
            == Some(Block([Header(line + more, |line|)], rest))
  {
    hide LineLength, IndexOf, Fold, ReadBlock;
    var tail := "\n" + rest;
    var after := [blank] + (more + tail);
    FillsBuffer(line, blank, more, tail);
    FoldEnds(line + more, tail);
    TurnOnLine(line, after, false);
    EmptyLineTurn(rest, false);
    LastTurn(tail, rest);
    NextTurn(line + after, Header(line + more, |line|), tail, rest);
  }

  // ----- blocks spelt out -----

  /** A blank, a tab, a vertical tab or a form feed continues the line before it. */
  lemma FoldExactly(c: char)
    ensures IsFold(c) <==> c in " \t\U{000B}\U{000C}"
  {
    SpaceExactly(c);
  }

  lemma LineAlone(line: string, post: bool)
    ensures Unfold([line], post)
            == [if post && Contains(CStr(line), "--------------------------") then Delimiter(line)
                else Header(line, |line|)]
  {
    hide Contains, CStr;
    assert [line][1..] == [];
    assert line + [] == line;
  }

  /** One line and the empty line: a delimiter in a POST request if it holds 26 dashes, otherwise a
      header. */
  lemma OneLineBlock(text: string, rest: string, post: bool)
    requires text != "" && '\n' !in text && |text| < 8095
    ensures ReadBlock(text + "\n" + ("\n" + rest), post)
            == Some(Block([if post && Contains(CStr(text + "\n"), "--------------------------")
                           then Delimiter(text + "\n") else Header(text + "\n", |text| + 1)], rest))
  {
    hide ReadBlock, Unfold, Contains, CStr, Joined, Continuations, Concat;
    var line := text + "\n";
    LineAlone(line, post);
    assert line[..|line| - 1] == text;
    ConcatCons(line, []);
    ConcatNone();
    assert [line] == [line] + [] && line + [] == line;
    BlockUnfolds([line], post, rest);
  }

  lemma ConcatTwo(a: string, b: string)
    ensures Concat([a, b]) == a + b
  {
    ConcatCons(a, [b]);
    ConcatCons(b, []);
    ConcatNone();
    assert [a] + [b] == [a, b] && [b] + [] == [b] && b + [] == b;
  }

  lemma FoldedPair(line: string, line': string, post: bool)
    requires !IsDelimiter(line) && line' != "" && IsFold(line'[0])
    ensures Unfold([line, line'], post) == [Header(line + line'[1..], |line|)]
  {
    hide IsDelimiter, IsFold;
    var lines := [line, line'];
    assert lines[1..] == [line'] && [line'][1..] == [];
    assert Continuations([]) == 0 && Continuations([line']) == 1;
    assert lines[1..1 + 1] == [line'] && lines[1 + 1..] == [];
    assert Joined([]) == [] && Joined([line']) == line'[1..] + [];
    assert line'[1..] + [] == line'[1..];
  }

  /** Two lines, the second behind one of the four characters: they are one header, without that
      character and with the line end between them, unless the first is a delimiter. */
  lemma FoldedBlock(text: string, blank: char, more: string, rest: string, post: bool)
    requires text != "" && '\n' !in text && '\n' !in more && |text| + |more| + 2 <= 8095
    requires blank in " \t\U{000B}\U{000C}" && !IsDelimiter(text + "\n")
    ensures ReadBlock((text + "\n") + ([blank] + more + "\n") + ("\n" + rest), post)
            == Some(Block([Header(text + "\n" + more + "\n", |text| + 1)], rest))
  {
    hide ReadBlock, Unfold, IsDelimiter, IsFold;
    var line, line' := text + "\n", [blank] + more + "\n";
    FoldExactly(blank);
    assert line[..|line| - 1] == text && line'[..|line'| - 1] == [blank] + more;
    assert '\n' !in [blank] + more;
    FoldedPair(line, line', post);
    assert line'[1..] == more + "\n";
    assert line + (more + "\n") == text + "\n" + more + "\n";
    ConcatTwo(line, line');
    BlockUnfolds([line, line'], post, rest);
  }
}
