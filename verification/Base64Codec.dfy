/** The decoder against the encoder of section 4 of RFC 4648. */
module Base64Codec {
  import opened Base64

  predicate Octets(d: string) {
    forall i :: 0 <= i < |d| ==> d[i] as int < 256
  }

  /** One group: a full one for three octets, a padded one for one or two. */
  function EncodeGroup(d: string): (t: string)
    requires 1 <= |d| <= 3 && Octets(d)
    ensures |t| == 4
  {
    var b0 := d[0] as int;
    var b1 := if |d| > 1 then d[1] as int else 0;
    var b2 := if |d| > 2 then d[2] as int else 0;
    [Letter(b0 / 4), Letter(b0 % 4 * 16 + b1 / 16),
     if |d| > 1 then Letter(b1 % 16 * 4 + b2 / 64) else '=',
     if |d| > 2 then Letter(b2 % 64) else '=']
  }

  function Encode(d: string): string
    requires Octets(d)
  {
    if d == [] then []
    else if |d| <= 3 then EncodeGroup(d)
    else EncodeGroup(d[..3]) + Encode(d[3..])
  }

  // ----- words -----

  /** The pads of a group, written out. */
  lemma PadsOf(t: string)
    requires |t| == 4
    ensures Pads(t) == (if t[0] == '=' then 1 else 0) + (if t[1] == '=' then 1 else 0)
                       + (if t[2] == '=' then 1 else 0) + (if t[3] == '=' then 1 else 0)
  {
    assert t == [t[0], t[1], t[2], t[3]];
    assert Pads(t[3..]) == if t[3] == '=' then 1 else 0;
    assert t[2..][1..] == t[3..] && t[1..][1..] == t[2..];
  }

  predicate LettersAndPads(t: string) {
    forall i :: 0 <= i < |t| ==> StartsGroup(t[i])
  }

  /** Over letters and pads the accumulator stays below 2^24, so the pad count has the top byte to
      itself and no good group looks like the error value. */
  lemma WordIsSound(t: string)
    requires |t| == 4 && LettersAndPads(t)
    ensures 0 <= GroupValue(t) < BIT24
    ensures TokenWord(t) != DECODE_ERROR <==> PadsFit(t)
    ensures PadsFit(t) ==> TokenWord(t) == Pads(t) * BIT24 + GroupValue(t)
  {
    assert forall i :: 0 <= i < 4 ==> StartsGroup(t[i]);
    assert '\0' !in t;
    if PadsFit(t) {
      assert GroupValue(t) % WORD == GroupValue(t);
      assert GroupValue(t) / BIT24 == 0 && GroupValue(t) % BIT24 == GroupValue(t);
    }
  }

  /** The three octets of a 24-bit value. */
  lemma ValueOctets(b0: nat, b1: nat, b2: nat, m: nat)
    requires b0 < 256 && b1 < 256 && b2 < 256 && m <= 2
    ensures var w := m * BIT24 + (b0 * BIT16 + b1 * 256 + b2);
            w / BIT24 == m && w / BIT16 % 256 == b0 && w / 256 % 256 == b1 && w % 256 == b2
  {
    var w := m * BIT24 + (b0 * BIT16 + b1 * 256 + b2);
    assert w / 256 == m * BIT16 + b0 * 256 + b1;
    assert w / BIT16 == m * 256 + b0;
  }

  /** Octets to sextets: nothing is lost. */
  lemma OctetsValue(b0: nat, b1: nat, b2: nat)
    requires b0 < 256 && b1 < 256 && b2 < 256
    ensures b0 / 4 < 64 && b0 % 4 * 16 + b1 / 16 < 64 && b1 % 16 * 4 + b2 / 64 < 64
    ensures 262144 * (b0 / 4) + 4096 * (b0 % 4 * 16 + b1 / 16) + 64 * (b1 % 16 * 4 + b2 / 64) + b2 % 64
            == b0 * BIT16 + b1 * 256 + b2
  {
  }

  lemma GroupShape(t: string, n: nat)
    requires |t| == 4 && n <= 2
    requires forall i :: 0 <= i < 4 - n ==> InAlphabet(t[i]) && t[i] != '='
    requires forall i :: 4 - n <= i < 4 ==> t[i] == '='
    ensures LettersAndPads(t) && Pads(t) == n && PadsFit(t)
  {
    hide Pads;
    PadsOf(t);
    assert forall i :: 0 <= i < 4 && t[i] == '=' ==> i >= 4 - n;
  }

  /** A group decodes to the octets it encodes. */
  lemma GroupRoundTrip(d: string)
    requires 1 <= |d| <= 3 && Octets(d)
    ensures var t := EncodeGroup(d);
            LettersAndPads(t) && PadsFit(t) && Pads(t) == 3 - |d| && Unpack(TokenWord(t)) == d
  {
    hide Letter, Sextet, Pads, PadsFit, TokenWord, Unpack;
    var t := EncodeGroup(d);
    var b0 := d[0] as int;
    var b1 := if |d| > 1 then d[1] as int else 0;
    var b2 := if |d| > 2 then d[2] as int else 0;
    OctetsValue(b0, b1, b2);
    GroupShape(t, 3 - |d|);
    assert GroupValue(t) == b0 * BIT16 + b1 * 256 + b2;
    WordIsSound(t);
    ValueOctets(b0, b1, b2, Pads(t));
    UnpackBytes(TokenWord(t));
    assert |Unpack(TokenWord(t))| == |d|;
  }

  // ----- strings -----

  lemma DecodeGroup(t: string, s: string)
    requires |t| == 4 && LettersAndPads(t)
    ensures Decode(t + s) == if PadsFit(t) then Decoding(Unpack(TokenWord(t)) + Decode(s).out, Decode(s).ok)
                             else Decoding([], false)
  {
    WordIsSound(t);
    assert (t + s)[..4] == t && (t + s)[4..] == s;
    assert StartsGroup(t[0]);
  }

  /** Round trip: what the encoder of RFC 4648 wrote, the decoder gives back. */
  lemma {:induction false} DecodeEncode(d: string)
    requires Octets(d)
    ensures Decode(Encode(d)) == Decoding(d, true)
    ensures LettersAndPads(Encode(d))
    decreases |d|
  {
    hide Decode, EncodeGroup, TokenWord, Unpack, StartsGroup;
    if d == [] {
      DecodeEnds("", 0);
      assert ""[0..] == "";
    } else if |d| <= 3 {
      GroupRoundTrip(d);
      var t := EncodeGroup(d);
      DecodeGroup(t, "");
      DecodeEnds("", 0);
      assert t + "" == t;
      assert d + "" == d;
    } else {
      GroupRoundTrip(d[..3]);
      DecodeEncode(d[3..]);
      DecodeGroup(EncodeGroup(d[..3]), Encode(d[3..]));
      assert d == d[..3] + d[3..];
    }
  }

  /** Decoding distributes over concatenation at a boundary between groups. */
  lemma {:induction false} DecodeConcat(a: string, b: string)
    requires |a| % 4 == 0 && LettersAndPads(a)
    ensures Decode(a + b) == if Decode(a).ok then Decoding(Decode(a).out + Decode(b).out, Decode(b).ok)
                             else Decode(a)
    decreases |a|
  {
    hide Decode, TokenWord, Unpack, StartsGroup;
    if a == [] {
      assert a + b == b;
      assert a[0..] == a;
      DecodeEnds(a, 0);
    } else {
      var t, rest := a[..4], a[4..];
      assert forall i :: 0 <= i < |rest| ==> rest[i] == a[i + 4];
      DecodeGroup(t, rest + b);
      DecodeGroup(t, rest);
      assert a == t + rest && a + b == t + (rest + b);
      DecodeConcat(rest, b);
      if PadsFit(t) && Decode(rest).ok {
        assert Unpack(TokenWord(t)) + (Decode(rest).out + Decode(b).out) == Decode(a).out + Decode(b).out;
      }
    }
  }

  // ----- canonical and non-canonical text -----

  predicate Letters(t: string) {
    forall i :: 0 <= i < |t| ==> InAlphabet(t[i])
  }

  /** Full groups, and pads at the end of the last one only. */
  predicate ValidText(s: string) {
    s == [] || (|s| >= 4 &&
      if |s| == 4 then LettersAndPads(s) && PadsFit(s) else Letters(s[..4]) && ValidText(s[4..]))
  }

  /** The group with the bits behind its last octet set to zero. */
  function ClearGroup(t: string): string
    requires |t| == 4 && LettersAndPads(t) && PadsFit(t)
  {
    assert forall i :: 0 <= i < 4 ==> StartsGroup(t[i]);
    PadsOf(t);
    if Pads(t) == 2 then [t[0], Letter(Sextet(t[1]) / 16 * 16), '=', '=']
    else if Pads(t) == 1 then [t[0], t[1], Letter(Sextet(t[2]) / 4 * 4), '=']
    else t
  }

  /** The text with the pad bits of its last group set to zero. */
  function ClearPadBits(s: string): string
    requires ValidText(s)
  {
    if s == [] then [] else if |s| == 4 then ClearGroup(s) else s[..4] + ClearPadBits(s[4..])
  }

  /** Sextets to octets and back. */
  lemma SplitValue(v0: nat, v1: nat, v2: nat, v3: nat)
    requires v0 < 64 && v1 < 64 && v2 < 64 && v3 < 64
    ensures var v := 262144 * v0 + 4096 * v1 + 64 * v2 + v3;
            var b0, b1, b2 := v0 * 4 + v1 / 16, v1 % 16 * 16 + v2 / 4, v2 % 4 * 64 + v3;
            && v == b0 * BIT16 + b1 * 256 + b2 && b0 < 256 && b1 < 256 && b2 < 256
            && b0 / 4 == v0 && b0 % 4 * 16 + b1 / 16 == v1 && b1 % 16 * 4 + b2 / 64 == v2 && b2 % 64 == v3
            && b0 % 4 * 16 == v1 / 16 * 16 && b1 % 16 * 4 == v2 / 4 * 4
  {
  }

  lemma LettersBack(t: string)
    requires LettersAndPads(t)
    ensures forall i :: 0 <= i < |t| && t[i] != '=' ==> InAlphabet(t[i]) && Letter(Sextet(t[i])) == t[i]
  {
    forall i | 0 <= i < |t| && t[i] != '=' ensures InAlphabet(t[i]) && Letter(Sextet(t[i])) == t[i] {
      assert StartsGroup(t[i]);
      LetterOfSextet(t[i]);
    }
  }

  /** The octets of a good group, as numbers. */
  lemma GroupNumbers(t: string) returns (b0: nat, b1: nat, b2: nat)
    requires |t| == 4 && LettersAndPads(t) && PadsFit(t)
    ensures b0 < 256 && b1 < 256 && b2 < 256
    ensures TokenWord(t) / BIT24 == Pads(t) && TokenWord(t) / BIT16 % 256 == b0
    ensures TokenWord(t) / 256 % 256 == b1 && TokenWord(t) % 256 == b2
    ensures b0 / 4 == Digit(t[0]) && b0 % 4 * 16 + b1 / 16 == Digit(t[1])
    ensures b1 % 16 * 4 + b2 / 64 == Digit(t[2]) && b2 % 64 == Digit(t[3])
    ensures b0 % 4 * 16 == Digit(t[1]) / 16 * 16 && b1 % 16 * 4 == Digit(t[2]) / 4 * 4
  {
    hide Letter, Sextet, Pads, TokenWord;
    assert forall i :: 0 <= i < 4 ==> StartsGroup(t[i]);
    WordIsSound(t);
    var v0, v1, v2, v3 := Digit(t[0]), Digit(t[1]), Digit(t[2]), Digit(t[3]);
    SplitValue(v0, v1, v2, v3);
    b0, b1, b2 := v0 * 4 + v1 / 16, v1 % 16 * 16 + v2 / 4, v2 % 4 * 64 + v3;
    assert TokenWord(t) == Pads(t) * BIT24 + (b0 * BIT16 + b1 * 256 + b2);
    ValueOctets(b0, b1, b2, Pads(t));
  }

  lemma GroupOctets(t: string)
    requires |t| == 4 && LettersAndPads(t) && PadsFit(t)
    ensures var d := Unpack(TokenWord(t)); Octets(d) && |d| == 3 - Pads(t) && EncodeGroup(d) == ClearGroup(t)
  {
    hide Letter, Sextet, Pads, TokenWord, Unpack;
    PadsOf(t);
    var b0, b1, b2 := GroupNumbers(t);
    UnpackBytes(TokenWord(t));
    LettersBack(t);
  }

  lemma LettersAreGroups(t: string)
    requires |t| == 4 && Letters(t)
    ensures LettersAndPads(t) && PadsFit(t) && Pads(t) == 0
  {
    assert forall i :: 0 <= i < 4 ==> InAlphabet(t[i]) && t[i] != '=';
    GroupShape(t, 0);
  }

  lemma EncodeFirst(d: string, e: string)
    requires |d| == 3 && e != [] && Octets(d) && Octets(e)
    ensures Octets(d + e) && Encode(d + e) == EncodeGroup(d) + Encode(e)
  {
    assert (d + e)[..3] == d && (d + e)[3..] == e;
  }

  lemma DecodesToSomething(s: string)
    requires ValidText(s) && s != []
    ensures Decode(s).out != []
  {
    hide TokenWord, Unpack, Pads;
    var t, rest := s[..4], s[4..];
    if |s| > 4 {
      LettersAreGroups(t);
    } else {
      assert t == s;
    }
    assert s == t + rest;
    DecodeGroup(t, rest);
    WordIsSound(t);
    UnpackBytes(TokenWord(t));
  }

  /** Every valid text decodes; encoding the result gives the text back up to its pad bits. */
  lemma {:induction false} EncodeDecode(s: string)
    requires ValidText(s)
    ensures Decode(s).ok && Octets(Decode(s).out)
    ensures Encode(Decode(s).out) == ClearPadBits(s)
    decreases |s|
  {
    hide Decode, EncodeGroup, TokenWord, Unpack, StartsGroup, Pads;
    if s == [] {
      assert s[0..] == s;
      DecodeEnds(s, 0);
    } else if |s| == 4 {
      assert s + "" == s;
      DecodeGroup(s, "");
      DecodeEnds("", 0);
      assert ""[0..] == "";
      GroupOctets(s);
      assert Decode(s).out == Unpack(TokenWord(s));
    } else {
      var t, rest := s[..4], s[4..];
      LettersAreGroups(t);
      assert s == t + rest;
      DecodeGroup(t, rest);
      GroupOctets(t);
      EncodeDecode(rest);
      EncodeFirst(Unpack(TokenWord(t)), Decode(rest).out);
      assert Decode(rest).out != [] by { DecodesToSomething(rest); }
    }
  }

  /** Decoding forgets the pad bits and nothing else: it is injective on canonical text. */
  lemma DecodeForgetsPadBits(s: string, s': string)
    requires ValidText(s) && ValidText(s')
    ensures Decode(s).out == Decode(s').out <==> ClearPadBits(s) == ClearPadBits(s')
  {
    EncodeDecode(s);
    EncodeDecode(s');
    DecodeEncode(Decode(s).out);
    DecodeEncode(Decode(s').out);
  }

  // ----- characters outside the alphabet -----

  /** The letter `A`s, then one character outside the alphabet, then `/`s. */
  predicate LooksLikeError(t: string)
    requires |t| == 4
  {
    exists k :: 1 <= k < 4 && !StartsGroup(t[k])
      && (forall i :: 0 <= i < k ==> t[i] == 'A') && (forall i :: k < i < 4 ==> t[i] == '/')
  }

  lemma MinusOne(d0: int, d1: int, d2: int, d3: int)
    requires 0 <= d0 < 64 && -1 <= d1 < 64 && -1 <= d2 < 64 && -1 <= d3 < 64
    ensures 262144 * d0 + 4096 * d1 + 64 * d2 + d3 == -1
            <==> d0 == 0 && ((d1 == 0 && d2 == 0 && d3 == -1) || (d1 == 0 && d2 == -1 && d3 == 63)
                             || (d1 == -1 && d2 == 63 && d3 == 63))
  {
    if 262144 * d0 + 4096 * d1 + 64 * d2 + d3 == -1 {
      assert d3 == -1 || d3 == 63;
      assert d2 == -1 || d2 == 63 || d2 == 0;
    }
  }

  lemma DigitIs(c: char)
    requires c != '='
    ensures Digit(c) == 0 <==> c == 'A'
    ensures Digit(c) == 63 <==> c == '/'
    ensures Digit(c) == -1 <==> !StartsGroup(c)
  {
  }

  lemma PaddedIsNoError(marker: nat, value: int)
    requires marker <= 2 && value % 64 == 0
    ensures OrMarker(marker, value % WORD) != DECODE_ERROR
  {
    var r := value % WORD;
    var hi := r / BIT24;
    var x := value / 64 - value / WORD * 0x400_0000;
    assert r == 64 * x;
    var y := x - hi * 0x4_0000;
    assert r % BIT24 == 64 * y;
    var top :| OrMarker(marker, r) == top * BIT24 + r % BIT24;
    assert OrMarker(marker, r) == 64 * (top * 0x4_0000 + y);
  }

  /** RFC 4648 wants characters outside the alphabet rejected. In the last three places of a group
      the decoder rejects them exactly when the pads are wrong anyway or the wrapped-around value
      happens to be the error value. */
  lemma RejectionOfStrangers(t: string)
    requires |t| == 4 && '\0' !in t && StartsGroup(t[0])
    ensures TokenWord(t) == DECODE_ERROR <==> !PadsFit(t) || (Pads(t) == 0 && LooksLikeError(t))
  {
    PadsOf(t);
    if PadsFit(t) {
      assert t[0] != '=';
      var v := GroupValue(t);
      if Pads(t) == 0 {
        assert OrMarker(0, v % WORD) == v % WORD;
        assert v % WORD == DECODE_ERROR <==> v == -1;
        MinusOne(Digit(t[0]), Digit(t[1]), Digit(t[2]), Digit(t[3]));
        DigitIs(t[0]);
        DigitIs(t[1]);
        DigitIs(t[2]);
        DigitIs(t[3]);
      } else {
        assert t[3] == '=';
        assert v % 64 == 0;
        PaddedIsNoError(Pads(t), v);
      }
    }
  }

  /** A group starts at place `4 * j`. */
  predicate GroupStarts(s: string, j: nat) {
    4 * j < |s| && StartsGroup(s[4 * j])
  }

  /** The group that starts there is cut short, has wrong pads, or looks like the error value. */
  predicate BadAt(s: string, k: nat) {
    4 * k < |s| &&
    var t := s[4 * k..];
    |t| < 4 || !PadsFit(t[..4]) || (Pads(t[..4]) == 0 && LooksLikeError(t[..4]))
  }

  /** Every group up to the one at `k` starts with a letter or a pad, and that one is bad. */
  predicate StopsAt(s: string, k: nat) {
    BadAt(s, k) && forall j: nat :: j <= k ==> GroupStarts(s, j)
  }

  lemma StopsLater(s: string, k: nat)
    requires |s| >= 4 && GroupStarts(s, 0)
    ensures StopsAt(s, k + 1) <==> StopsAt(s[4..], k)
  {
    hide StartsGroup, PadsFit, Pads, LooksLikeError;
    var rest := s[4..];
    assert 4 * k <= |rest| ==> s[4 * (k + 1)..] == rest[4 * k..];
    forall j: nat ensures GroupStarts(s, j + 1) <==> GroupStarts(rest, j) {
      assert 4 * j < |rest| ==> s[4 * (j + 1)] == rest[4 * j];
    }
    if StopsAt(rest, k) {
      forall j: nat | j <= k + 1 ensures GroupStarts(s, j) {
        assert j > 0 ==> GroupStarts(rest, j - 1);
      }
    }
    if StopsAt(s, k + 1) {
      forall j: nat | j <= k ensures GroupStarts(rest, j) {
        assert GroupStarts(s, j + 1);
      }
    }
  }

  lemma FirstGroup(s: string)
    requires '\0' !in s
    ensures s == [] || !StartsGroup(s[0]) ==> Decode(s).ok && forall k: nat :: !StopsAt(s, k)
    ensures s != [] && StartsGroup(s[0]) && BadAt(s, 0) ==> !Decode(s).ok && StopsAt(s, 0)
    ensures s != [] && StartsGroup(s[0]) && !BadAt(s, 0) ==>
              |s| >= 4 && Decode(s).ok == Decode(s[4..]).ok && !StopsAt(s, 0)
  {
    hide StartsGroup, PadsFit, Pads, LooksLikeError, TokenWord, Unpack;
    assert s[0..] == s;
    if s != [] && StartsGroup(s[0]) {
      assert GroupStarts(s, 0);
      if |s| >= 4 {
        RejectionOfStrangers(s[..4]);
      }
    } else {
      assert !GroupStarts(s, 0);
    }
  }

  /** The whole decoder: a text is rejected exactly when it comes to a bad group before a character that
      starts none. */
  lemma {:induction false} RejectedExactly(s: string)
    requires '\0' !in s
    ensures !Decode(s).ok <==> exists k: nat :: StopsAt(s, k)
    decreases |s|
  {
    hide Decode, StopsAt, BadAt, StartsGroup;
    FirstGroup(s);
    if s != [] && StartsGroup(s[0]) && !BadAt(s, 0) {
      var rest := s[4..];
      RejectedExactly(rest);
      assert GroupStarts(s, 0);
      forall k: nat ensures StopsAt(s, k + 1) <==> StopsAt(rest, k) {
        StopsLater(s, k);
      }
      if k: nat :| StopsAt(s, k) {
        assert StopsAt(rest, k - 1);
      }
    }
  }

  /** A character outside the alphabet where a group would start ends the text with success, and what
      stands behind it is never looked at. */
  lemma StrangerEndsText(a: string, c: char, rest: string)
    requires |a| % 4 == 0 && LettersAndPads(a) && !StartsGroup(c)
    ensures Decode(a + ([c] + rest)) == Decode(a)
  {
    DecodeConcat(a, [c] + rest);
  }

  /** So a stray character is usually decoded: here to the octet 255. */
  lemma StrangerIsDecoded()
    ensures Decode("A!AA") == Decoding([255 as char], true)
  {
    var t := "A!AA";
    PadsOf(t);
    assert GroupValue(t) == -4096;
    assert TokenWord(t) == WORD - 4096;
    assert t[..4] == t && t[4..] == [];
    UnpackBytes(TokenWord(t));
    assert Unpack(TokenWord(t)) == [255 as char];
  }
}
