/** The file path of a GET request and the check that is meant to keep it under `doc`. */
module PathCheck {
  import opened CStrings

  /** The `/`-separated segments of a path. */
  function Segments(path: string): (segs: seq<string>)
    ensures segs != []
  {
    Split(path, '/')
  }

  /** `strncmp(s, "..", 2) == 0`. */
  predicate StartsDotDot(s: string) {
    |s| >= 2 && s[0] == '.' && s[1] == '.'
  }

  ghost predicate NoDotDot(segs: seq<string>) {
    forall i :: 0 <= i < |segs| ==> !StartsDotDot(segs[i])
  }

  lemma NoDotDotFirst(segs: seq<string>)
    requires segs != []
    ensures NoDotDot(segs) <==> !StartsDotDot(segs[0]) && NoDotDot(segs[1..])
  {
    assert forall j :: 0 < j < |segs| ==> segs[j] == segs[1..][j - 1];
    assert forall j :: 0 <= j < |segs| - 1 ==> segs[1..][j] == segs[j + 1];
  }

  lemma NoSegmentClimbs()
    ensures NoDotDot([])
  {
  }

  lemma FirstSegment(path: string)
    ensures var i := IndexOf(path, '/');
            NoDotDot(Segments(path)) <==>
            !StartsDotDot(path) && (i < |path| ==> NoDotDot(Segments(path[i + 1..])))
  {
    hide IndexOf, Split, NoDotDot;
    var i := IndexOf(path, '/');
    var segs := Segments(path);
    SplitFirst(path, '/');
    assert segs[0] == path[..i];
    assert i == |path| ==> path[..i] == path;
    assert StartsDotDot(path[..i]) <==> StartsDotDot(path);
    NoDotDotFirst(segs);
    if i < |path| {
      assert segs[1..] == Segments(path[i + 1..]);
    } else {
      NoSegmentClimbs();
      assert segs[1..] == [];
    }
  }

  /** Two dots at the start of the text or behind a slash. */
  predicate DotsAt(path: string, i: nat) {
    i + 1 < |path| && path[i] == '.' && path[i + 1] == '.' && (i == 0 || path[i - 1] == '/')
  }

  lemma DotsLater(path: string, i: nat)
    requires IndexOf(path, '/') < |path|
    ensures var k := IndexOf(path, '/');
            && (i > k ==> (DotsAt(path, i) <==> DotsAt(path[k + 1..], i - k - 1)))
            && (0 < i <= k ==> !DotsAt(path, i))
  {
    hide IndexOf;
    var k := IndexOf(path, '/');
    var rest := path[k + 1..];
    assert path == path[..k] + ['/'] + rest;
    if i > k {
      assert i + 1 < |path| ==> path[i] == rest[i - k - 1] && path[i + 1] == rest[i - k];
      assert k < i - 1 < |path| ==> path[i - 1] == rest[i - k - 2];
    } else if 0 < i {
      assert path[..k][i - 1] == path[i - 1];
    }
  }

  /** The segments say so exactly when the text does. */
  lemma {:induction false} NoDotDotWhere(path: string)
    ensures NoDotDot(Segments(path)) <==> forall i: nat :: !DotsAt(path, i)
    decreases |path|
  {
    hide Segments, NoDotDot, IndexOf;
    FirstSegment(path);
    var k := IndexOf(path, '/');
    assert DotsAt(path, 0) <==> StartsDotDot(path);
    if k < |path| {
      var rest := path[k + 1..];
      NoDotDotWhere(rest);
      forall i: nat
        ensures i > k ==> (DotsAt(path, i) <==> DotsAt(rest, i - k - 1))
        ensures 0 < i <= k ==> !DotsAt(path, i)
      {
        DotsLater(path, i);
      }
      if i: nat :| DotsAt(rest, i) {
        assert DotsAt(path, i + k + 1);
      }
    } else {
      assert path[..k] == path;
      forall i: nat ensures DotsAt(path, i) ==> i == 0 {
        assert 0 < i < |path| ==> path[i - 1] in path;
      }
    }
  }

  /** Walks the pointer `it` from segment to segment. */
  method IsValidFname(fname: string) returns (valid: bool)
    ensures valid <==> NoDotDot(Segments(fname))
    ensures valid <==> forall i: nat :: !DotsAt(fname, i)
  {
    hide Segments, NoDotDot, IndexOf, DotsAt;
    NoDotDotWhere(fname);
    var it := 0;
    assert fname[0..] == fname;
    while true
      invariant 0 <= it <= |fname|
      invariant NoDotDot(Segments(fname)) <==> NoDotDot(Segments(fname[it..]))
      decreases |fname| - it
    {
      ghost var here := fname[it..];
      FirstSegment(here);
      if StartsDotDot(fname[it..]) {
        return false;
      }
      var slash := it + IndexOf(fname[it..], '/');
      if slash == |fname| {
        return true;
      }
      assert here[slash - it + 1..] == fname[slash + 1..];
      it := slash + 1;
    }
  }

  // ----- what the check means -----

  /** Lexical resolution: the directories below the starting point, or `None` once a `..` climbs
      out of it. */
  function Resolve(segs: seq<string>, at: seq<string>): Option<seq<string>> {
    if segs == [] then Some(at)
    else if segs[0] == "" || segs[0] == "." then Resolve(segs[1..], at)
    else if segs[0] == ".." then if at == [] then None else Resolve(segs[1..], at[..|at| - 1])
    else Resolve(segs[1..], at + [segs[0]])
  }

  /** The segments that name something. */
  function Named(segs: seq<string>): seq<string> {
    if segs == [] then []
    else (if segs[0] == "" || segs[0] == "." then [] else [segs[0]]) + Named(segs[1..])
  }

  /** A path that passes never climbs: it resolves to its own named segments, one below the other. */
  lemma {:induction false} ValidNeverClimbs(segs: seq<string>, at: seq<string>)
    requires NoDotDot(segs)
    ensures Resolve(segs, at) == Some(at + Named(segs))
  {
    if segs == [] {
      assert at + Named(segs) == at;
    } else {
      assert !StartsDotDot(segs[0]);
      var later := segs[1..];
      NoDotDotFirst(segs);
      if segs[0] == "" || segs[0] == "." {
        ValidNeverClimbs(later, at);
        assert Named(segs) == Named(later);
      } else {
        ValidNeverClimbs(later, at + [segs[0]]);
        assert (at + [segs[0]]) + Named(later) == at + Named(segs);
      }
    }
  }

  const PATH_SIZE: nat := 512

  /** `sprintf(file_path, "doc%s", url)`, less one trailing slash. */
  function FilePath(url: string): string {
    var p := "doc" + url;
    if p[|p| - 1] == '/' then p[..|p| - 1] else p
  }

  /** Only a slash at the end is lost, and only one. */
  lemma FilePathExactly(url: string)
    ensures url != "" && url[|url| - 1] == '/' ==> FilePath(url) + "/" == "doc" + url
    ensures url == "" || url[|url| - 1] != '/' ==> FilePath(url) == "doc" + url
  {
    var p := "doc" + url;
    assert url != "" ==> p[|p| - 1] == url[|url| - 1];
  }

  /** Writes the path and cuts it in place. */
  method BuildPath(url: string) returns (file_path: array<char>)
    requires '\0' !in url && 3 + |url| < PATH_SIZE
    ensures fresh(file_path) && file_path.Length == PATH_SIZE
    ensures CStr(file_path[..]) == FilePath(url)
    ensures var path := CStr(file_path[..]);
            "doc" + url == path || ("doc" + url == path + "/" && url[|url| - 1] == '/')
  {
    hide CStr;
    var text := "doc" + url;
    file_path := new char[PATH_SIZE](i => '\0');
    forall i | 0 <= i < |text| {
      file_path[i] := text[i];
    }
    assert file_path[..] == text + ['\0'] + file_path[|text| + 1..];
    assert '\0' !in text;
    CStrOf(text, file_path[|text| + 1..]);
    FilePathExactly(url);
    if text[|text| - 1] == '/' {
      file_path[|text| - 1] := '\0';
      assert file_path[..] == text[..|text| - 1] + ['\0'] + file_path[|text|..];
      CStrOf(text[..|text| - 1], file_path[|text|..]);
    }
  }

  // ----- the file that is opened -----

  lemma {:induction false} SplitBehind(s: string, sep: char)
    ensures Split(s + [sep], sep) == Split(s, sep) + [""]
    decreases |s|
  {
    hide IndexOf, Split;
    var t := s + [sep];
    var i := IndexOf(s, sep);
    SplitFirst(s, sep);
    SplitFirst(t, sep);
    assert i < |s| ==> t[i] == sep;
    assert t[..i] == s[..i];
    IndexOfIs(t, sep, i);
    if i == |s| {
      SplitFirst("", sep);
      assert t[i + 1..] == "" && s[..i] == s;
      IndexOfIs("", sep, 0);
    } else {
      assert t[i + 1..] == s[i + 1..] + [sep];
      SplitBehind(s[i + 1..], sep);
    }
  }

  lemma {:induction false} NamedEmptyLast(segs: seq<string>)
    ensures Named(segs + [""]) == Named(segs)
  {
    if segs == [] {
      assert [""][1..] == [];
    } else {
      assert (segs + [""])[1..] == segs[1..] + [""];
      NamedEmptyLast(segs[1..]);
    }
  }

  lemma DocFirst(rest: string)
    ensures Segments("doc/" + rest) == ["doc"] + Segments(rest)
    ensures Segments("doc") == ["doc"]
  {
    hide IndexOf, Split;
    var path := "doc/" + rest;
    assert path == "doc" + (['/'] + rest);
    CutAt(path, "doc", '/', rest);
    SplitFirst(path, '/');
    assert "doc"[..3] == "doc";
    IndexOfIs("doc", '/', 3);
    SplitFirst("doc", '/');
  }

  lemma NamedDoc(segs: seq<string>)
    ensures Named(["doc"] + segs) == ["doc"] + Named(segs)
    ensures NoDotDot(segs) ==> NoDotDot(["doc"] + segs)
  {
    assert (["doc"] + segs)[1..] == segs;
  }

  lemma CutSlash(a: string, b: string)
    requires a + "/" == b + "/"
    ensures a == b
  {
    assert |a| == |b|;
    assert a == (a + "/")[..|a|] && b == (b + "/")[..|b|];
  }

  lemma NoSegments()
    ensures Named(Segments("")) == [] && NoDotDot([]) && Named([]) == []
  {
    SplitFirst("", '/');
    assert [""][1..] == [];
  }

  lemma SegmentsBehind(front: string)
    ensures Segments(front + ['/']) == Segments(front) + [""]
    ensures NoDotDot(Segments(front) + [""]) ==> NoDotDot(Segments(front))
  {
    SplitBehind(front, '/');
    assert forall i :: 0 <= i < |Segments(front)| ==> (Segments(front) + [""])[i] == Segments(front)[i];
  }

  /** The file that is opened for a url: `doc`, and below it what the url names, one below the other. */
  lemma OpensWhatUrlNames(rest: string)
    requires NoDotDot(Segments(rest))
    ensures Resolve(Segments(FilePath("/" + rest)), []) == Some(["doc"] + Named(Segments(rest)))
  {
    hide Segments, Named, NoDotDot, Resolve, FilePath;
    var url := "/" + rest;
    var path := FilePath(url);
    FilePathExactly(url);
    assert "doc" + url == "doc/" + rest;
    if rest == "" {
      CutSlash(path, "doc");
      DocFirst("");
      NoSegments();
      NamedDoc([]);
      assert ["doc"] + [] == ["doc"];
      ValidNeverClimbs(["doc"], []);
      assert [] + Named(["doc"]) == Named(["doc"]);
    } else if rest[|rest| - 1] == '/' {
      var front := rest[..|rest| - 1];
      assert rest == front + ['/'];
      assert path + "/" == ("doc/" + front) + "/";
      CutSlash(path, "doc/" + front);
      SegmentsBehind(front);
      NamedEmptyLast(Segments(front));
      DocFirst(front);
      NamedDoc(Segments(front));
      ValidNeverClimbs(["doc"] + Segments(front), []);
      assert [] + Named(["doc"] + Segments(front)) == Named(["doc"] + Segments(front));
    } else {
      DocFirst(rest);
      NamedDoc(Segments(rest));
      ValidNeverClimbs(["doc"] + Segments(rest), []);
      assert [] + Named(["doc"] + Segments(rest)) == Named(["doc"] + Segments(rest));
    }
  }

  /** The path is `doc` itself or lies below it. */
  ghost predicate UnderDoc(path: string) {
    var r := Resolve(Segments(path), []);
    r.Some? && r.value != [] && r.value[0] == "doc"
  }

  lemma FirstOfPath(url: string)
    ensures var path := FilePath(url); var first := path[..IndexOf(path, '/')];
            |first| >= 3 && first[..3] == "doc" && (first == "doc" <==> url == "" || url[0] == '/')
  {
    var path := FilePath(url);
    var i := IndexOf(path, '/');
    assert "doc" + url == path || "doc" + url == path + "/";
    assert path[0] == 'd' && path[1] == 'o' && path[2] == 'c';
    assert i >= 3;
    if url == "" || url[0] == '/' {
      assert |path| == 3 || path[3] == '/';
      assert i == 3 by {
        if |path| > 3 {
          IndexOfIs(path, '/', 3);
        }
      }
      assert path[..3] == "doc";
    } else {
      assert |path| > 3 && path[3] == url[0];
      assert i > 3;
    }
  }

  /** A path that passes stays under `doc` exactly when the url is empty or starts with a slash;
      any other url names a sibling that merely begins with these three letters. */
  lemma ValidStaysUnderDoc(url: string)
    requires NoDotDot(Segments(FilePath(url)))
    ensures UnderDoc(FilePath(url)) <==> url == "" || url[0] == '/'
  {
    var path := FilePath(url);
    var segs := Segments(path);
    var i := IndexOf(path, '/');
    ValidNeverClimbs(segs, []);
    assert [] + Named(segs) == Named(segs);
    assert segs[0] == path[..i];
    FirstOfPath(url);
    assert !StartsDotDot(segs[0]);
    assert Named(segs)[0] == segs[0];
  }
}
