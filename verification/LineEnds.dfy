/** What the line reader makes of a byte stream: CR, LF and CRLF all become LF, and lines are
    cut off at the size of the buffer. */
module LineEnds {
  import opened CStrings

  /** How many raw characters make up the first character of the normalised stream. */
  function Step(s: string): (n: nat)
    requires s != []
    ensures 1 <= n <= 2 && n <= |s|
  {
    if s[0] == '\r' && |s| > 1 && s[1] == '\n' then 2 else 1
  }

  function LineEnd(c: char): char {
    if c == '\r' then '\n' else c
  }

  /** The stream with CRLF and lone CR both mapped to LF. */
  function Normalise(s: string): string {
    if s == [] then [] else [LineEnd(s[0])] + Normalise(s[Step(s)..])
  }

  /** The raw stream that is left once `k` normalised characters have been taken off its front. */
  function Skip(s: string, k: nat): (rest: string)
    requires k <= |Normalise(s)|
    ensures |rest| <= |s| - k
  {
    if k == 0 then s else Skip(s[Step(s)..], k - 1)
  }

  /** Length of the line at the front of a normalised stream, cut off at `max` characters. */
  function LineLength(n: string, max: nat): (k: nat)
    ensures k <= max && k <= |n|
    ensures forall j :: 0 <= j < k - 1 ==> n[j] != '\n'
    ensures k == max || k == |n| || (k > 0 && n[k - 1] == '\n')
  {
    var lf := IndexOf(n, '\n');
    assert forall j :: 0 <= j < lf ==> n[j] == n[..lf][j];
    Min(max, if lf < |n| then lf + 1 else lf)
  }

  lemma LineLengthIs(n: string, max: nat, k: nat)
    requires k <= max && k <= |n|
    requires forall j :: 0 <= j < k - 1 ==> n[j] != '\n'
    requires k == max || k == |n| || (k > 0 && n[k - 1] == '\n')
    ensures LineLength(n, max) == k
  {
    var lf := IndexOf(n, '\n');
    assert forall j :: 0 <= j < lf ==> n[j] == n[..lf][j];
  }

  lemma {:induction false} NormaliseSkip(s: string, k: nat)
    requires k <= |Normalise(s)|
    ensures Normalise(Skip(s, k)) == Normalise(s)[k..]
  {
    if k == 0 {
    } else {
      NormaliseSkip(s[Step(s)..], k - 1);
      assert Normalise(s)[k..] == Normalise(s[Step(s)..])[k - 1..];
    }
  }

  lemma {:induction false} SkipSkip(s: string, j: nat, k: nat)
    requires j + k <= |Normalise(s)|
    ensures k <= |Normalise(Skip(s, j))|
    ensures Skip(Skip(s, j), k) == Skip(s, j + k)
  {
    NormaliseSkip(s, j);
    if j == 0 {
    } else {
      SkipSkip(s[Step(s)..], j - 1, k);
    }
  }

  lemma SkipNone(s: string)
    ensures Skip(s, 0) == s
  {
  }

  lemma NormaliseFirst(s: string, tail: string)
    requires s != [] && tail <= s[Step(s)..]
    ensures Normalise(s[..Step(s)] + tail) == [LineEnd(s[0])] + Normalise(tail)
  {
    var t := s[..Step(s)] + tail;
    assert |tail| > 0 ==> tail[0] == s[Step(s)];
    assert Step(t) == Step(s) && t[Step(s)..] == tail;
  }

  lemma NormaliseNothing()
    ensures Normalise([]) == []
  {
  }

  lemma NormaliseStep(s: string, k: nat)
    requires 0 < k <= |Normalise(s)|
    ensures s != [] && k - 1 <= |Normalise(s[Step(s)..])| && Skip(s, k) == Skip(s[Step(s)..], k - 1)
    ensures Normalise(s)[..k] == [LineEnd(s[0])] + Normalise(s[Step(s)..])[..k - 1]
  {
  }

  /** What is left is the end of the stream itself, and what is gone normalises to what was handed out. */
  lemma {:induction false} SkipIsSuffix(s: string, k: nat)
    requires k <= |Normalise(s)|
    ensures var rest := Skip(s, k); var gone := s[..|s| - |rest|];
            && s == gone + rest && Normalise(gone) == Normalise(s)[..k]
  {
    hide Normalise, Skip, Step;
    NormaliseNothing();
    SkipNone(s);
    if k > 0 {
      NormaliseStep(s, k);
      var n := Step(s);
      var later := s[n..];
      SkipIsSuffix(later, k - 1);
      var rest := Skip(s, k);
      var gone, gone' := s[..|s| - |rest|], later[..|later| - |rest|];
      assert gone == s[..n] + gone';
      NormaliseFirst(s, gone');
    }
  }

  /** Reading on by one normalised character. */
  lemma SkipNext(s: string, k: nat)
    requires k <= |Normalise(s)|
    ensures k == |Normalise(s)| <==> Skip(s, k) == []
    ensures k < |Normalise(s)| ==>
              var rest := Skip(s, k);
              Normalise(s)[k] == LineEnd(rest[0]) && Skip(s, k + 1) == rest[Step(rest)..]
  {
    NormaliseSkip(s, k);
    if k < |Normalise(s)| {
      SkipSkip(s, k, 1);
      var rest := Skip(s, k);
      assert Normalise(rest)[0] == Normalise(s)[k..][0];
      assert Skip(rest, 1) == Skip(rest[Step(rest)..], 0);
    }
  }

  /** The reader never hands out a CR. */
  lemma {:induction false} NormaliseHasNoCr(s: string)
    ensures '\r' !in Normalise(s)
    ensures |Normalise(s)| <= |s|
  {
    if s == [] {
    } else {
      var rest := s[Step(s)..];
      NormaliseHasNoCr(rest);
      assert Normalise(s) == [LineEnd(s[0])] + Normalise(rest);
    }
  }

  lemma NormalisePlain(s: string)
    requires s != [] && s[0] != '\r'
    ensures Normalise(s) == [s[0]] + Normalise(s[1..])
  {
  }

  lemma {:induction false} NormaliseIdentity(s: string)
    requires '\r' !in s
    ensures Normalise(s) == s
  {
    if s == [] {
    } else {
      hide Normalise;
      NormalisePlain(s);
      NormaliseIdentity(s[1..]);
    }
  }

  predicate CutsCrLf(a: string, b: string) {
    a != [] && b != [] && a[|a| - 1] == '\r' && b[0] == '\n'
  }

  /** Normalising can be done piece by piece, ... */
  lemma {:induction false} NormaliseConcat(a: string, b: string)
    requires !CutsCrLf(a, b)
    ensures Normalise(a + b) == Normalise(a) + Normalise(b)
  {
    if a == [] {
      assert a + b == b;
    } else {
      var ab := a + b;
      var rest := a[Step(a)..];
      assert Step(ab) == Step(a);
      assert ab[Step(a)..] == rest + b;
      NormaliseConcat(rest, b);
      calc {
        Normalise(ab);
      ==
        [LineEnd(a[0])] + Normalise(rest + b);
      ==
        [LineEnd(a[0])] + (Normalise(rest) + Normalise(b));
      ==
        Normalise(a) + Normalise(b);
      }
    }
  }

  lemma CrLfFirst(tail: string)
    ensures Normalise("\r\n" + tail) == "\n" + Normalise(tail)
  {
    var s := "\r\n" + tail;
    assert s[2..] == tail;
  }

  lemma NormaliseUnits(c: char)
    ensures Normalise("\n") == Normalise("\r") == Normalise("\r\n") == "\n" && Normalise("") == ""
    ensures c != '\r' ==> Normalise([c]) == [c]
  {
    assert "\r\n"[2..] == "" && "\n"[1..] == "" && "\r"[1..] == "" && [c][1..] == "";
  }

  lemma ConcatUnlessCut(a: string, b: string)
    ensures Normalise(a + b) == Normalise(a) + Normalise(b) <==> !CutsCrLf(a, b)
  {
    hide Normalise;
    if CutsCrLf(a, b) {
      var front := a[..|a| - 1];
      var behind := b[1..];
      assert a == front + "\r" && b == "\n" + behind && a + b == front + ("\r\n" + behind);
      NormaliseConcat(front, "\r\n" + behind);
      NormaliseConcat(front, "\r");
      NormaliseConcat("\n", behind);
      NormaliseUnits('\n');
      CrLfFirst(behind);
      assert |Normalise(a + b)| == |Normalise(front)| + |Normalise(b)|;
    } else {
      NormaliseConcat(a, b);
    }
  }

  /** ... except that a cut through the middle of a CRLF would count its line end twice. */
  lemma NormaliseConcatExactly(a: string, b: string)
    ensures Normalise(a + b) == Normalise(a) + Normalise(b)
            <==> !(a != "" && b != "" && a[|a| - 1] == '\r' && b[0] == '\n')
  {
    hide Normalise;
    assert CutsCrLf(a, b) <==> a != "" && b != "" && a[|a| - 1] == '\r' && b[0] == '\n';
    hide CutsCrLf;
    ConcatUnlessCut(a, b);
  }

  /** `text` with every LF written as `eol`. */
  function WithEol(text: string, eol: string): string {
    if text == [] then [] else (if text[0] == '\n' then eol else [text[0]]) + WithEol(text[1..], eol)
  }

  lemma WithEolFirst(text: string, eol: string)
    requires text != ""
    ensures WithEol(text, eol) == (if text[0] == '\n' then eol else [text[0]]) + WithEol(text[1..], eol)
    ensures |text| > 1 && eol != "" ==>
              var rest := WithEol(text[1..], eol);
              rest != "" && rest[0] == if text[1] == '\n' then eol[0] else text[1]
  {
  }

  lemma NoEol(eol: string)
    ensures WithEol("", eol) == ""
  {
  }

  /** Whichever of the three line ends the peer uses throughout, the text arrives unchanged. */
  lemma {:induction false} LineEndStyleIsForgotten(text: string, eol: string)
    requires eol == "\n" || eol == "\r" || eol == "\r\n"
    requires '\r' !in text
    ensures Normalise(WithEol(text, eol)) == text
  {
    hide Normalise;
    if text == [] {
      NormaliseUnits('\n');
    } else {
      hide WithEol;
      var rest := WithEol(text[1..], eol);
      var first := if text[0] == '\n' then eol else [text[0]];
      WithEolFirst(text, eol);
      NormaliseUnits(text[0]);
      LineEndStyleIsForgotten(text[1..], eol);
      if |text| == 1 {
        NoEol(eol);
        assert first + rest == first;
      } else {
        NormaliseConcat(first, rest);
      }
    }
  }

  lemma {:induction false} WithEolEnds(text: string)
    ensures var s := WithEol(text + "\n", "\r\n"); s != "" && s[|s| - 1] == '\n'
  {
    if text == "" {
      assert text + "\n" == "\n" && "\n"[1..] == "";
    } else {
      assert (text + "\n")[1..] == text[1..] + "\n";
      WithEolEnds(text[1..]);
    }
  }

  function Concat(parts: seq<string>): string {
    if parts == [] then [] else parts[0] + Concat(parts[1..])
  }

  lemma ConcatCons(part: string, parts: seq<string>)
    ensures Concat([part] + parts) == part + Concat(parts)
  {
    assert ([part] + parts)[1..] == parts;
  }

  lemma ConcatNone()
    ensures Concat([]) == []
  {
  }

  lemma {:induction false} ConcatAppend(a: seq<string>, b: seq<string>)
    ensures Concat(a + b) == Concat(a) + Concat(b)
  {
    hide Concat;
    if a == [] {
      assert a + b == b;
      ConcatNone();
    } else {
      var rest := a[1..];
      assert a == [a[0]] + rest && a + b == [a[0]] + (rest + b);
      ConcatCons(a[0], rest);
      ConcatCons(a[0], rest + b);
      ConcatAppend(rest, b);
    }
  }

  lemma PutBack(text: string, k: nat, parts: seq<string>, left: string)
    requires k <= |text|
    requires Concat(parts) + left == text[k..]
    ensures Concat([text[..k]] + parts) + left == text
  {
    assert ([text[..k]] + parts)[1..] == parts;
    assert text == text[..k] + (Concat(parts) + left);
  }

  /** What a run of `ReadLine` calls returns for the given buffer sizes, and the raw stream left. */
  function ReadRun(s: string, sizes: seq<nat>): (run: (seq<string>, string))
    requires forall i :: 0 <= i < |sizes| ==> 1 <= sizes[i]
    decreases |sizes|
  {
    if sizes == [] then ([], s) else
    var n := Normalise(s);
    var k := LineLength(n, sizes[0] - 1);
    var later := ReadRun(Skip(s, k), sizes[1..]);
    ([n[..k]] + later.0, later.1)
  }

  /** Conservation: however the stream is cut up, nothing is lost, repeated or reordered. */
  lemma {:induction false} ReadRunConserves(s: string, sizes: seq<nat>)
    requires forall i :: 0 <= i < |sizes| ==> 1 <= sizes[i]
    ensures Concat(ReadRun(s, sizes).0) + Normalise(ReadRun(s, sizes).1) == Normalise(s)
    decreases |sizes|
  {
    if sizes == [] {
      assert Concat([]) == [];
    } else {
      var n := Normalise(s);
      var k := LineLength(n, sizes[0] - 1);
      var rest := Skip(s, k);
      NormaliseSkip(s, k);
      ReadRunConserves(rest, sizes[1..]);
      var later := ReadRun(rest, sizes[1..]);
      PutBack(n, k, later.0, Normalise(later.1));
    }
  }

  /** With room for at least one character each time, enough reads drain the stream, so the
      text read does not depend on the buffer sizes. */
  lemma {:induction false} ReadRunDrains(s: string, sizes: seq<nat>)
    requires forall i :: 0 <= i < |sizes| ==> 2 <= sizes[i]
    requires |sizes| >= |Normalise(s)|
    ensures ReadRun(s, sizes).1 == []
    ensures Concat(ReadRun(s, sizes).0) == Normalise(s)
    decreases |sizes|
  {
    if sizes == [] {
      assert s == [];
    } else {
      var k := LineLength(Normalise(s), sizes[0] - 1);
      NormaliseSkip(s, k);
      ReadRunDrains(Skip(s, k), sizes[1..]);
    }
    ReadRunConserves(s, sizes);
  }
}
