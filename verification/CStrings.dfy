/** NUL-terminated strings and the C library searches the server relies on.
    A C `char` is a Dafny `char`; a C string is the text in front of its NUL. */
module CStrings {

  datatype Option<+T> = None | Some(value: T)

  function Min(a: nat, b: nat): (m: nat)
    ensures m <= a && m <= b && (m == a || m == b)
  {
    if a < b then a else b
  }

  /** `isspace` in the C locale. */
  predicate IsSpace(c: char) {
    c == ' ' || c == '\t' || c == '\n' || c == '\r' || c == '\U{000B}' || c == '\U{000C}'
  }

  /** `tolower` in the C locale. */
  function Lower(c: char): char {
    if 'A' <= c <= 'Z' then (c as int + 32) as char else c
  }

  /** The six characters, by their codes. */
  lemma SpaceExactly(c: char)
    ensures IsSpace(c) <==> 9 <= c as int <= 13 || c as int == 32
  {
  }

  /** The 26 capitals, by their codes, and nothing else. */
  lemma LowerExactly(c: char)
    ensures Lower(c) as int == c as int + if 65 <= c as int <= 90 then 32 else 0
    ensures Lower('A') == 'a' && Lower('Z') == 'z'
  {
  }

  /** The offset `strchr` stops at: the first `c`, or the length when there is none. */
  function IndexOf(s: string, c: char): (i: nat)
    ensures i <= |s|
    ensures c !in s[..i]
    ensures i < |s| ==> s[i] == c
  {
    if s == [] || s[0] == c then 0 else 1 + IndexOf(s[1..], c)
  }

  lemma IndexOfIs(s: string, c: char, i: nat)
    requires i <= |s| && c !in s[..i]
    requires i < |s| ==> s[i] == c
    ensures IndexOf(s, c) == i
  {
    var j := IndexOf(s, c);
    assert forall k :: 0 <= k < i ==> s[k] == s[..i][k];
    assert forall k :: 0 <= k < j ==> s[k] == s[..j][k];
  }

  /** The parts between the separators, one more than there are separators. */
  function Split(s: string, sep: char): (parts: seq<string>)
    ensures parts != []
  {
    var i := IndexOf(s, sep);
    if i == |s| then [s] else [s[..i]] + Split(s[i + 1..], sep)
  }

  lemma CutAt(line: string, first: string, sep: char, rest: string)
    requires sep !in first && line == first + ([sep] + rest)
    ensures IndexOf(line, sep) == |first| && line[..|first|] == first && line[|first| + 1..] == rest
  {
    assert line[..|first|] == first;
    IndexOfIs(line, sep, |first|);
  }

  function JoinedBy(parts: seq<string>, sep: char): string
    requires parts != []
  {
    if |parts| == 1 then parts[0] else parts[0] + ([sep] + JoinedBy(parts[1..], sep))
  }

  lemma JoinedFirst(part: string, parts: seq<string>, sep: char)
    requires parts != []
    ensures JoinedBy([part] + parts, sep) == part + ([sep] + JoinedBy(parts, sep))
  {
    assert ([part] + parts)[1..] == parts;
  }

  lemma JoinedOne(part: string, sep: char)
    ensures JoinedBy([part], sep) == part
  {
  }

  lemma SplitFirst(s: string, sep: char)
    ensures var i := IndexOf(s, sep);
            Split(s, sep) == if i == |s| then [s] else [s[..i]] + Split(s[i + 1..], sep)
  {
    hide IndexOf;
  }

  /** No part holds the separator, and joined by it they are the text again. */
  lemma {:induction false} SplitExactly(s: string, sep: char)
    ensures JoinedBy(Split(s, sep), sep) == s
    ensures forall part :: part in Split(s, sep) ==> sep !in part
    decreases |s|
  {
    hide IndexOf, Split, JoinedBy;
    var i := IndexOf(s, sep);
    SplitFirst(s, sep);
    if i == |s| {
      assert s[..i] == s;
      JoinedOne(s, sep);
      assert forall part :: part in [s] ==> part == s;
    } else {
      var later := Split(s[i + 1..], sep);
      SplitExactly(s[i + 1..], sep);
      JoinedFirst(s[..i], later, sep);
      assert s == s[..i] + ([sep] + s[i + 1..]);
    }
  }

  /** The C string held in a stretch of memory: everything in front of the first NUL. */
  function CStr(mem: string): (s: string)
    ensures '\0' !in s
  {
    mem[..IndexOf(mem, '\0')]
  }

  lemma TextInFront(mem: string)
    ensures CStr(mem) == mem[..IndexOf(mem, '\0')]
  {
  }

  lemma CStrOf(text: string, rest: string)
    requires '\0' !in text
    ensures CStr(text + ['\0'] + rest) == text
  {
    var mem := text + ['\0'] + rest;
    assert mem[..|text|] == text;
    IndexOfIs(mem, '\0', |text|);
  }

  lemma CStrIdentity(text: string)
    requires '\0' !in text
    ensures CStr(text) == text
  {
    IndexOfIs(text, '\0', |text|);
  }

  predicate OccursAt(s: string, pat: string, i: nat) {
    i + |pat| <= |s| && s[i..i + |pat|] == pat
  }

  ghost predicate Contains(s: string, pat: string) {
    exists i: nat :: OccursAt(s, pat, i)
  }

  function StrStrFrom(s: string, pat: string, from: nat): (r: Option<nat>)
    requires from <= |s| + 1
    requires forall j: nat :: j < from ==> !OccursAt(s, pat, j)
    ensures r.Some? ==> OccursAt(s, pat, r.value) && forall j: nat :: j < r.value ==> !OccursAt(s, pat, j)
    ensures r.Some? <==> Contains(s, pat)
    decreases |s| + 1 - from
  {
    if from > |s| then None
    else if OccursAt(s, pat, from) then Some(from)
    else StrStrFrom(s, pat, from + 1)
  }

  /** `strstr`: the first occurrence, found by trying every offset from the left. */
  function StrStr(s: string, pat: string): (r: Option<nat>)
    ensures r.Some? ==> OccursAt(s, pat, r.value) && forall j: nat :: j < r.value ==> !OccursAt(s, pat, j)
    ensures r.Some? <==> Contains(s, pat)
  {
    StrStrFrom(s, pat, 0)
  }

  lemma ContainsAround(a: string, pat: string, b: string)
    ensures Contains(a + pat + b, pat)
  {
    assert OccursAt(a + pat + b, pat, |a|);
  }

  /** The pattern occurs where the text can be cut around it, and nowhere else. */
  lemma ContainsExactly(s: string, pat: string)
    ensures Contains(s, pat) <==> exists a, b :: s == a + pat + b
    ensures forall i: nat :: OccursAt(s, pat, i) <==> i + |pat| <= |s| && s == s[..i] + pat + s[i + |pat|..]
  {
    forall i: nat
      ensures OccursAt(s, pat, i) <==> i + |pat| <= |s| && s == s[..i] + pat + s[i + |pat|..]
    {
      if i + |pat| <= |s| {
        assert (s[..i] + pat + s[i + |pat|..])[i..i + |pat|] == pat;
      }
    }
    if a, b :| s == a + pat + b {
      ContainsAround(a, pat, b);
    }
  }

  lemma ContainsPart(s: string, whole: string, part: string)
    requires Contains(s, whole) && Contains(whole, part)
    ensures Contains(s, part)
  {
    var i: nat :| OccursAt(s, whole, i);
    var j: nat :| OccursAt(whole, part, j);
    var at := s[i..i + |whole|];
    assert at[j..j + |part|] == part;
    assert forall k :: 0 <= k < |whole| ==> at[k] == s[i + k];
    assert forall k :: 0 <= k < |part| ==> part[k] == at[j + k];
    assert s[i + j..i + j + |part|] == part;
    assert OccursAt(s, part, i + j);
  }

  /** `strncasecmp(a, b, n) == 0`, character by character, the terminating NULs included. */
  predicate StrNCaseEq(a: string, b: string, n: nat) {
    if n == 0 then true
    else if a == [] || b == [] then a == b
    else Lower(a[0]) == Lower(b[0]) && StrNCaseEq(a[1..], b[1..], n - 1)
  }

  /** `p` is a prefix of `s` when letter case is ignored. */
  predicate PrefixNoCase(p: string, s: string) {
    |p| <= |s| && forall i :: 0 <= i < |p| ==> Lower(p[i]) == Lower(s[i])
  }

  /** The text with its capitals made small. */
  function LowerAll(s: string): (r: string)
    ensures |r| == |s| && forall i :: 0 <= i < |s| ==> r[i] == Lower(s[i])
  {
    seq(|s|, i requires 0 <= i < |s| => Lower(s[i]))
  }

  /** Ignoring letter case is comparing the small letters. */
  lemma PrefixByText(p: string, s: string)
    ensures PrefixNoCase(p, s) <==> LowerAll(p) <= LowerAll(s)
  {
    if PrefixNoCase(p, s) {
      assert LowerAll(s)[..|p|] == LowerAll(p);
    }
    if LowerAll(p) <= LowerAll(s) {
      forall i | 0 <= i < |p| ensures Lower(p[i]) == Lower(s[i]) {
        assert LowerAll(p)[i] == LowerAll(s)[i];
      }
    }
  }

  lemma PrefixNoCaseStep(p: string, s: string)
    requires p != [] && s != []
    ensures PrefixNoCase(p, s) <==> Lower(p[0]) == Lower(s[0]) && PrefixNoCase(p[1..], s[1..])
  {
    if Lower(p[0]) == Lower(s[0]) && PrefixNoCase(p[1..], s[1..]) {
      forall i | 0 <= i < |p| ensures Lower(p[i]) == Lower(s[i]) {
        if i > 0 {
          assert p[i] == p[1..][i - 1] && s[i] == s[1..][i - 1];
        }
      }
    }
  }

  lemma {:induction false} StrNCaseEqMeaning(a: string, b: string, n: nat)
    ensures n <= |a| ==> (StrNCaseEq(a, b, n) <==> PrefixNoCase(a[..n], b))
    ensures n <= |b| ==> (StrNCaseEq(a, b, n) <==> PrefixNoCase(b[..n], a))
  {
    if n == 0 || a == [] || b == [] {
    } else {
      StrNCaseEqMeaning(a[1..], b[1..], n - 1);
      if n <= |a| {
        PrefixNoCaseStep(a[..n], b);
        assert a[..n][1..] == a[1..][..n - 1];
      }
      if n <= |b| {
        PrefixNoCaseStep(b[..n], a);
        assert b[..n][1..] == b[1..][..n - 1];
      }
    }
  }
}
