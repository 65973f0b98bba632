/** The loop of `http_get` that reads a file with `fgets` and strings the pieces together. */
module FileServe {
  import opened CStrings
  import opened LineEnds

  /** `char line[512]` holds this many characters in front of its NUL. */
  const PIECE: nat := 511

  /** The pieces `fgets` reads, each only as far as its first NUL. */
  function Served(file: string): string
    decreases |file|
  {
    if file == [] then [] else
    var k := LineLength(file, PIECE);
    CStr(file[..k]) + Served(file[k..])
  }

  lemma ServedStep(file: string)
    ensures file == [] ==> Served(file) == []
    ensures file != [] ==>
              var k := LineLength(file, PIECE);
              0 < k <= |file| && Served(file) == CStr(file[..k]) + Served(file[k..])
  {
  }

  /** `None`: the file is empty and the null pointer goes to the response writer. */
  method ReadContents(file: string) returns (contents: Option<string>, contentsLength: nat)
    ensures contents.None? <==> file == ""
    ensures contents.Some? ==> contents.value == Served(file) && contentsLength == |contents.value|
  {
    hide Served, CStr, LineLength;
    contents, contentsLength := None, 0;
    var at := 0;
    assert file[0..] == file;
    while at < |file|
      invariant 0 <= at <= |file|
      invariant contents.None? <==> at == 0
      invariant contents.None? ==> contentsLength == 0
      invariant contents.Some? ==> contentsLength == |contents.value|
      invariant (if contents.None? then [] else contents.value) + Served(file[at..]) == Served(file)
    {
      ServedStep(file[at..]);
      var k := LineLength(file[at..], PIECE);
      assert file[at..][..k] == file[at..at + k] && file[at..][k..] == file[at + k..];
      var line := CStr(file[at..at + k]);
      match contents {
        case None => contents := Some(line);
        case Some(c) => contents := Some(c + line);
      }
      contentsLength := contentsLength + |line|;
      at := at + k;
    }
    ServedStep(file[at..]);
  }

  lemma CStrCuts(piece: string)
    ensures |CStr(piece)| <= |piece|
    ensures CStr(piece) == piece <==> '\0' !in piece
    ensures '\0' in piece ==> |CStr(piece)| < |piece|
  {
    var i := IndexOf(piece, '\0');
    if i == |piece| {
      assert piece[..i] == piece;
    }
  }

  lemma {:induction false} ServedIsShorter(file: string)
    ensures |Served(file)| <= |file|
    decreases |file|
  {
    hide CStr, LineLength;
    if file == [] {
    } else {
      ServedStep(file);
      var k := LineLength(file, PIECE);
      CStrCuts(file[..k]);
      ServedIsShorter(file[k..]);
    }
  }

  /** A file is served unchanged exactly when it holds no NUL. */
  lemma {:induction false} ServedExactly(file: string)
    ensures Served(file) == file <==> '\0' !in file
    ensures '\0' in file ==> |Served(file)| < |file|
    decreases |file|
  {
    hide CStr, LineLength;
    if file == [] {
      ServedStep(file);
    } else {
      ServedStep(file);
      var k := LineLength(file, PIECE);
      var piece, rest := file[..k], file[k..];
      assert file == piece + rest;
      CStrCuts(piece);
      ServedExactly(rest);
      ServedIsShorter(rest);
    }
  }
}
