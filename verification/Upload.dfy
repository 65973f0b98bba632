/** The upload of `http_post.c`: the boundary, the file name, and the loop that copies lines into
    the file until it meets the boundary. */
module Upload {
  import opened CStrings
  import opened LineEnds
  import opened LineReader
  import opened HeaderFraming
  import opened HeaderReader
  import opened RequestHeaders
  import opened RequestReader

  // ----- the boundary marker -----

  /** `pszboundary`, as an offset: the first "----" behind "boundary=". `None`: a null pointer. */
  function BoundaryAt(contentType: string): (p: Option<nat>)
    ensures p.Some? ==> p.value + 4 <= |contentType|
  {
    match StrStr(contentType, "boundary=")
    case None => None
    case Some(b) =>
      match StrStr(contentType[b..], "----")
      case None => None
      case Some(d) => Some(b + d)
  }

  /** It is the first such place behind the first "boundary=", and there is none exactly when one of the
      two texts is missing. */
  lemma BoundaryAtExactly(contentType: string, f: nat, p: nat)
    requires OccursAt(contentType, "boundary=", f) && forall i: nat :: i < f ==> !OccursAt(contentType, "boundary=", i)
    ensures BoundaryAt(contentType) == Some(p)
            <==> f <= p && OccursAt(contentType, "----", p)
                 && forall i: nat :: f <= i < p ==> !OccursAt(contentType, "----", i)
    ensures BoundaryAt(contentType) == None <==> forall i: nat :: f <= i ==> !OccursAt(contentType, "----", i)
  {
    hide StrStr;
    var tail := contentType[f..];
    assert StrStr(contentType, "boundary=") == Some(f);
    forall i: nat ensures f <= i ==> (OccursAt(contentType, "----", i) <==> OccursAt(tail, "----", i - f)) {
      assert f <= i && i + 4 <= |contentType| ==> tail[i - f..i - f + 4] == contentType[i..i + 4];
    }
    match StrStr(tail, "----")
    case None =>
    case Some(d) => assert OccursAt(contentType, "----", f + d);
  }

  /** The field after the text at `p` has lost its last two characters. */
  function CutBoundary(field: string, p: nat): string
    requires p <= |field|
  {
    var n := IndexOf(field[p..], '\0');
    if n < 2 then field else field[p + n - 2 := '\0']
  }

  /** What is searched for: the text at `p`, cut, and entered at its 25th character. A short text is
      entered behind its own NUL, where whatever the field holds is taken. `None`: the text has no
      two characters to lose, or the field has no NUL to end it. */
  function MarkerIn(field: string, p: nat): Option<string>
    requires p <= |field|
  {
    if IndexOf(field[p..], '\0') < 2 || p + 24 > |field| then None
    else
      var mem := CutBoundary(field, p)[p + 24..];
      if IndexOf(mem, '\0') == |mem| then None else Some(CStr(mem))
  }

  // ----- the file name -----

  /** From the first quote behind "filename", without that quote and the last two characters.
      `None`: a pointer that was never set, or null. */
  function FileName(disposition: string): Option<string> {
    match StrStr(disposition, "filename")
    case None => None
    case Some(f) =>
      var q := f + IndexOf(disposition[f..], '\"');
      if q == |disposition| then None
      else if |disposition| - q < 3 then Some(disposition[q + 1..])
      else Some(disposition[q + 1..|disposition| - 2])
  }

  lemma QuoteBehindName(text: string, f: nat)
    requires OccursAt(text, "filename", f)
    ensures IndexOf(text[f..], '\"') >= 2
  {
    var tail := text[f..];
    assert tail[0] == text[f..f + 8][0] && tail[1] == text[f..f + 8][1];
  }

  lemma TextFrom(mem: string, from: nat, to: nat)
    requires from <= to < |mem| && mem[to] == '\0'
    requires forall j :: from <= j < to ==> mem[j] != '\0'
    ensures CStr(mem[from..]) == mem[from..to]
  {
    IndexOfIs(mem[from..], '\0', to - from);
  }

  lemma NameText(before: string, after: string, quote: nat, end: nat)
    requires 2 <= quote < end < |before| && before[end] == '\0' && '\0' !in before[..end]
    requires after == before[end - 2 := '\0']
    ensures CStr(after[quote + 1..])
            == if end - quote < 3 then before[..end][quote + 1..] else before[..end][quote + 1..end - 2]
  {
    hide CStr;
    var to := if end - quote < 3 then end else end - 2;
    forall j | quote < j < to ensures after[j] == before[j] != '\0' {
      assert before[..end][j] == before[j];
    }
    TextFrom(after, quote + 1, to);
    assert after[quote + 1..to] == before[..end][quote + 1..to];
  }

  /** Cuts the name out of the disposition field in place. */
  method GetFilename(rec: HeaderRecord) returns (name: Option<string>)
    requires rec.Valid() && IndexOf(rec.disposition[..], '\0') < FIELD_SIZE
    modifies rec.disposition
    ensures name == FileName(CStr(old(rec.disposition[..])))
  {
    hide CStr, StrStr;
    var field := rec.disposition;
    var end := IndexOf(field[..], '\0');
    var text := CStr(field[..]);
    TextInFront(field[..]);
    var found := StrStr(text, "filename");
    if found.None? {
      return None;
    }
    QuoteBehindName(text, found.value);
    var quote := found.value + IndexOf(text[found.value..], '\"');
    if quote == end {
      return None;
    }
    var inamelen := end - quote;
    field[quote + 1 + inamelen - 3] := '\0';
    NameText(old(field[..]), field[..], quote, end);
    name := Some(CStr(field[quote + 1..]));
  }

  /** A quoted name at the end of the line comes out as it was put in. */
  lemma FileNameRoundTrip(before: string, name: string)
    requires forall i: nat :: i < |before| ==> !OccursAt(before + "filename=\"" + name + "\"\n", "filename", i)
    ensures FileName(before + "filename=\"" + name + "\"\n") == Some(name)
  {
    hide StrStr;
    var quoted := ['\"'] + name + "\"\n";
    var text := before + "filename=\"" + name + "\"\n";
    var tail := "filename=" + quoted;
    assert text == before + tail;
    assert OccursAt(text, "filename", |before|) by {
      assert text[|before|..|before| + 8] == "filename";
    }
    assert text[|before|..] == tail;
    assert tail[..9] == "filename=" && '\"' !in "filename=";
    IndexOfIs(tail, '\"', 9);
    assert text[|before| + 10..|text| - 2] == name;
  }

  /** No name comes out exactly when "filename" is missing or no quote stands behind it. */
  lemma NoNameExactly(disposition: string)
    ensures FileName(disposition).None? <==>
            match StrStr(disposition, "filename") case None => true case Some(f) => '\"' !in disposition[f..]
  {
    hide StrStr;
    match StrStr(disposition, "filename")
    case None =>
    case Some(f) =>
      var q := IndexOf(disposition[f..], '\"');
      assert q == |disposition[f..]| ==> disposition[f..][..q] == disposition[f..];
  }

  /** A name of less than two characters behind the quote, with nothing to cut, comes out whole. */
  lemma ShortNameIsWhole(x: string)
    requires |x| < 2
    ensures FileName("filename=\"" + x) == Some(x)
  {
    hide StrStr;
    var text := "filename=\"" + x;
    assert OccursAt(text, "filename", 0) by {
      assert text[0..8] == "filename";
    }
    assert text[0..] == text && text[..9] == "filename=" && '\"' !in "filename=";
    IndexOfIs(text, '\"', 9);
    assert text[10..] == x;
  }

  // ----- the copying loop -----

  /** `strstr(header, pszboundary) != NULL`. */
  predicate HitsText(text: string, marker: string) {
    StrStr(text, marker).Some?
  }

  predicate Hits(line: string, marker: string) {
    HitsText(CStr(line), marker)
  }

  datatype Copy = Copy(file: string, rest: string)

  /** What the loop writes and what it leaves, `left` being what Content-Length still allows.
      `None`: the stream ends first, and the loop spins; only an empty marker, which the empty
      line then read does hold, still gets it out. */
  function CopyLines(n: string, left: int, marker: string): Option<Copy>
    decreases |n|
  {
    if left <= 0 then Some(Copy("", n))
    else
      var k := LineLength(n, ROOM);
      if Hits(n[..k], marker) then Some(Copy("", n[k..]))
      else if n == [] then None
      else
        var later := CopyLines(n[k..], left - k, marker);
        if later.None? then None else Some(Copy(n[..k] + later.value.file, later.value.rest))
  }

  lemma CopyStep(n: string, left: int, marker: string)
    ensures left <= 0 ==> CopyLines(n, left, marker) == Some(Copy("", n))
    ensures left > 0 ==>
              var k := LineLength(n, ROOM);
              && (Hits(n[..k], marker) ==> CopyLines(n, left, marker) == Some(Copy("", n[k..])))
              && (!Hits(n[..k], marker) && n == [] ==> CopyLines(n, left, marker) == None)
              && (!Hits(n[..k], marker) && n != [] ==>
                    var later := CopyLines(n[k..], left - k, marker);
                    && 0 < k
                    && CopyLines(n, left, marker)
                       == if later.None? then None else Some(Copy(n[..k] + later.value.file, later.value.rest)))
  {
    hide Hits;
  }

  method SaveBody(sock: Socket, ilength: int, marker: string) returns (file: string)
    requires sock.Valid() && CopyLines(Normalise(sock.Unread()), ilength, marker).Some?
    modifies sock`cursor
    ensures sock.Valid()
    ensures CopyLines(Normalise(old(sock.Unread())), ilength, marker) == Some(Copy(file, Normalise(sock.Unread())))
    ensures ReadOn(old(sock.Unread()), sock.Unread())
  {
    hide CopyLines, Normalise, HitsText, ReadOn, Skip, CStr, LineLength;
    ghost var u0 := sock.Unread();
    ghost var whole := CopyLines(Normalise(u0), ilength, marker).value;
    var left := ilength;
    file := "";
    ReadNothing(u0);
    while left > 0
      invariant sock.Valid() && ReadOn(u0, sock.Unread())
      invariant var later := CopyLines(Normalise(sock.Unread()), left, marker);
                later.Some? && whole == Copy(file + later.value.file, later.value.rest)
      decreases left
    {
      ghost var u := sock.Unread();
      CopyStep(Normalise(u), left, marker);
      var header := new char[ROOM + 1];
      var len := ReadLine(sock, header, 0, ROOM + 1);
      NormaliseSkip(u, len);
      ReadMore(u0, u, len);
      left := left - len;
      CStrEnds(header[..], len);
      assert header[..][..len] == header[..len];
      assert file + "" == file;
      if HitsText(CStr(header[..]), marker) {
        return;
      }
      file := file + header[..len];
    }
    CopyStep(Normalise(sock.Unread()), left, marker);
    assert file + "" == file;
  }

  /** What a file holds after writing from its start: `open` does not truncate. */
  function Overwrite(existing: string, written: string): (r: string)
    ensures |r| == if |written| < |existing| then |existing| else |written|
    ensures forall i :: 0 <= i < |r| ==> r[i] == if i < |written| then written[i] else existing[i]
  {
    written + existing[Min(|written|, |existing|)..]
  }

  /** `write_file`, with the record it has on its stack, the boundary text at `p` in the caller's
      field, and what `open` finds under the name: nothing in a new file, `None` when it fails.
      Without a name or a marker the code would go on with a stray pointer; here it stops. */
  method WriteFile(sock: Socket, rec: HeaderRecord, g: Globals, ilength: int, field: array<char>, p: nat,
                   existing: Option<string>)
    returns (name: Option<string>, contents: Option<string>)
    requires sock.Valid() && rec.Valid()
    requires field !in rec.Buffers() && p <= field.Length
    requires var b := ReadBlock(Normalise(sock.Unread()), true);
             && b.Some? && PostFitsAll(false, b.value.items)
             && var info := ApplyPostAll(PostState(g.View(), rec.View(), false), b.value.items).info;
             && IndexOf(info.disposition, '\0') < FIELD_SIZE
             && (existing.Some? && MarkerIn(field[..], p).Some? ==>
                   CopyLines(b.value.rest, ilength, MarkerIn(field[..], p).value).Some?)
    modifies sock`cursor, g, rec, rec.Buffers(), field
    ensures sock.Valid() && ReadOn(old(sock.Unread()), sock.Unread())
    ensures var b := ReadBlock(Normalise(old(sock.Unread())), true).value;
            var info := ApplyPostAll(PostState(old(g.View()), old(rec.View()), false), b.items).info;
            var marker := MarkerIn(old(field[..]), p);
            && name == FileName(CStr(info.disposition))
            && field[..] == (if name.Some? && marker.Some? then CutBoundary(old(field[..]), p) else old(field[..]))
            && if name.Some? && marker.Some? && existing.Some? then
                 var copy := CopyLines(b.rest, ilength, marker.value).value;
                 contents == Some(Overwrite(existing.value, copy.file)) && Normalise(sock.Unread()) == copy.rest
               else contents == existing && Normalise(sock.Unread()) == b.rest
  {
    hide ReadBlock, ApplyPostAll, PostFitsAll, CopyLines, Normalise, FileName, CStr, ReadOn;
    ghost var u0 := sock.Unread();
    contents := existing;
    ghost var boundary := field[..];
    ReadPostHeaders(sock, rec, g);
    ghost var u1 := sock.Unread();
    name := GetFilename(rec);
    assert field[..] == boundary;
    ReadNothing(u0);
    var marker := MarkerIn(field[..], p);
    if name.None? || marker.None? {
      return;
    }
    field[p + IndexOf(field[p..], '\0') - 2] := '\0';
    assert field[..] == CutBoundary(boundary, p);
    if existing.None? {
      return;
    }
    var file := SaveBody(sock, ilength, CStr(field[p + 24..]));
    ReadOnTransitive(u0, u1, sock.Unread());
    contents := Some(Overwrite(existing.value, file));
  }
}
