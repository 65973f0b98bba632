/** The base64 decoder behind Basic authentication. The specification is the encoder of section 4
    of RFC 4648; octets are characters with codes below 256. */
module Base64 {
  import opened CStrings

  const ALPHABET: string :=
    "ABCDEFGHIJKLMNOPQRSTUVWXYZ" + "abcdefghijklmnopqrstuvwxyz" + "0123456789" + "+/"

  /** The largest value an `unsigned int` holds, which `token_decode` returns for an error. */
  const DECODE_ERROR: nat := 0xffff_ffff

  const WORD: nat := 0x1_0000_0000
  const BIT16: nat := 0x1_0000
  const BIT24: nat := 0x100_0000

  /** The sextet a letter stands for, -1 for any other character. */
  function Sextet(c: char): (v: int)
    ensures -1 <= v < 64
  {
    if 'A' <= c <= 'Z' then c as int - 'A' as int
    else if 'a' <= c <= 'z' then c as int - 'a' as int + 26
    else if '0' <= c <= '9' then c as int - '0' as int + 52
    else if c == '+' then 62 else if c == '/' then 63 else -1
  }

  /** The letter for a sextet, Table 1 of RFC 4648. */
  function Letter(v: nat): (c: char)
    requires v < 64
    ensures Sextet(c) == v && c != '=' && c != '\0'
  {
    if v < 26 then ('A' as int + v) as char
    else if v < 52 then ('a' as int + (v - 26)) as char
    else if v < 62 then ('0' as int + (v - 52)) as char
    else if v == 62 then '+' else '/'
  }

  predicate InAlphabet(c: char) {
    Sextet(c) >= 0
  }

  lemma LetterOfSextet(c: char)
    requires InAlphabet(c)
    ensures Letter(Sextet(c)) == c
  {
  }

  lemma AlphabetInOrder(i: nat)
    requires i < 64
    ensures |ALPHABET| == 64 && ALPHABET[i] == Letter(i)
  {
  }

  /** Table 1 of RFC 4648, by character codes. */
  lemma AlphabetByCodes(v: nat)
    requires v < 64
    ensures |ALPHABET| == 64
    ensures ALPHABET[v] as int == if v < 26 then 65 + v else if v < 52 then 97 + (v - 26)
                                  else if v < 62 then 48 + (v - 52) else if v == 62 then 43 else 47
  {
    AlphabetInOrder(v);
  }

  /** Searches the alphabet from the left. */
  method Pos(c: char) returns (v: int)
    ensures v == Sextet(c)
  {
    AlphabetInOrder(0);
    var p := 0;
    while p < |ALPHABET|
      invariant 0 <= p <= 64
      invariant forall i :: 0 <= i < p ==> Letter(i) != c
    {
      AlphabetInOrder(p);
      if ALPHABET[p] == c {
        return p;
      }
      p := p + 1;
    }
    if InAlphabet(c) {
      LetterOfSextet(c);
    }
    return -1;
  }

  // ----- one group of four characters -----

  /** What a character adds to the accumulator: nothing for a pad. */
  function Digit(c: char): (v: int)
    ensures -1 <= v < 64
  {
    if c == '=' then 0 else Sextet(c)
  }

  function GroupValue(t: string): int
    requires |t| == 4
  {
    262144 * Digit(t[0]) + 4096 * Digit(t[1]) + 64 * Digit(t[2]) + Digit(t[3])
  }

  function Pads(t: string): (n: nat)
    ensures n <= |t|
  {
    if t == [] then 0 else (if t[0] == '=' then 1 else 0) + Pads(t[1..])
  }

  /** Pads come last, and there are at most two of them. */
  predicate PadsFit(t: string) {
    (forall i, j :: 0 <= i < j < |t| && t[i] == '=' ==> t[j] == '=') && Pads(t) <= 2
  }

  /** `(marker << 24) | val` on 32 bits, for a marker of at most two. */
  function OrMarker(marker: nat, val: nat): (w: nat)
    requires marker <= 2 && val < WORD
    ensures w < WORD
  {
    var hi := val / BIT24;
    var lo := val % BIT24;
    var present := if marker == 1 then hi % 2 == 1 else if marker == 2 then hi / 2 % 2 == 1 else true;
    (if present then hi else hi + marker) * BIT24 + lo
  }

  /** The marker is added bit by bit: no marker changes nothing, one sets bit 24, two set bit 25, and no
      other bit changes. */
  lemma OrMarkerBits(marker: nat, val: nat)
    requires marker <= 2 && val < WORD
    ensures var w := OrMarker(marker, val);
            && (marker == 0 ==> w == val)
            && (marker == 1 ==> w / 0x200_0000 == val / 0x200_0000 && w / 0x100_0000 % 2 == 1
                                && w % 0x100_0000 == val % 0x100_0000)
            && (marker == 2 ==> w / 0x400_0000 == val / 0x400_0000 && w / 0x200_0000 % 2 == 1
                                && w % 0x200_0000 == val % 0x200_0000)
  {
    var hi, lo := val / BIT24, val % BIT24;
    assert val == hi * BIT24 + lo;
    var w := OrMarker(marker, val);
    var hi' := w / BIT24;
    assert w == hi' * BIT24 + lo;
    assert w / 0x200_0000 == hi' / 2 && val / 0x200_0000 == hi / 2;
    assert w / 0x400_0000 == hi' / 4 && val / 0x400_0000 == hi / 4;
    assert w % 0x200_0000 == hi' % 2 * BIT24 + lo && val % 0x200_0000 == hi % 2 * BIT24 + lo;
  }

  /** The word a group decodes to; characters outside the alphabet count as -1 and wrap around. */
  function TokenWord(t: string): (w: nat)
    requires |t| == 4
    ensures w < WORD
  {
    if '\0' in t || !PadsFit(t) then DECODE_ERROR else OrMarker(Pads(t), GroupValue(t) % WORD)
  }

  /** The memory a C string takes up, its NUL included. */
  predicate Terminated(mem: string) {
    mem != [] && mem[|mem| - 1] == '\0' && '\0' !in mem[..|mem| - 1]
  }

  /** The accumulator, before wrap-around, after `i` characters. */
  ghost function PartialValue(t: string, i: nat): int
    requires |t| == 4 && i <= 4
  {
    if i == 0 then 0 else 64 * PartialValue(t, i - 1) + Digit(t[i - 1])
  }

  lemma PartialValueIsGroup(t: string)
    requires |t| == 4
    ensures PartialValue(t, 4) == GroupValue(t)
  {
    assert PartialValue(t, 1) == Digit(t[0]);
    assert PartialValue(t, 2) == 64 * Digit(t[0]) + Digit(t[1]);
    assert PartialValue(t, 3) == 4096 * Digit(t[0]) + 64 * Digit(t[1]) + Digit(t[2]);
  }

  lemma WrapMultiple(k: int, x: int)
    ensures (k * WORD + x) % WORD == x % WORD
  {
  }

  lemma WrapStep(value: int, digit: int)
    ensures (value % WORD * 64 % WORD + digit) % WORD == (64 * value + digit) % WORD
  {
    var q := value / WORD;
    assert value == q * WORD + value % WORD;
    var r := value % WORD * 64;
    assert r == r / WORD * WORD + r % WORD;
    assert 64 * value + digit == (64 * q + r / WORD) * WORD + (r % WORD + digit);
    WrapMultiple(64 * q + r / WORD, r % WORD + digit);
  }

  lemma PartialValueStart(t: string)
    requires |t| == 4
    ensures PartialValue(t, 0) == 0 && Pads(t[..0]) == 0
  {
  }

  lemma PartialValueStep(t: string, i: nat)
    requires |t| == 4 && i < 4
    ensures PartialValue(t, i + 1) == 64 * PartialValue(t, i) + Digit(t[i])
    ensures Digit(t[i]) == if t[i] == '=' then 0 else Sextet(t[i])
  {
  }

  lemma {:induction false} PadsStep(t: string, i: nat)
    requires i < |t|
    ensures Pads(t[..i + 1]) == Pads(t[..i]) + if t[i] == '=' then 1 else 0
    ensures Pads(t[..i]) <= Pads(t)
  {
    if i > 0 {
      assert t[..i + 1][1..] == t[1..][..i] && t[..i][1..] == t[1..][..i - 1];
      PadsStep(t[1..], i - 1);
    } else {
      assert t[..1][1..] == [];
    }
  }

  /** Decodes the four characters at `p`; a NUL among them is seen before anything behind it is. */
  method TokenDecode(str: string, p: nat) returns (word: nat)
    requires Terminated(str) && p < |str|
    ensures p + 4 < |str| && '\0' !in str[p..p + 4] ==> word == TokenWord(str[p..p + 4])
    ensures p + 4 >= |str| || '\0' in str[p..p + 4] ==> word == DECODE_ERROR
  {
    if str[p] == '\0' || str[p + 1] == '\0' || str[p + 2] == '\0' || str[p + 3] == '\0' {
      return DECODE_ERROR;
    }
    hide Digit, PartialValue, GroupValue, Pads;
    ghost var t := str[p..p + 4];
    var val := 0;
    var marker := 0;
    var i := 0;
    PartialValueStart(t);
    while i < 4
      invariant 0 <= i <= 4
      invariant val == PartialValue(t, i) % WORD
      invariant marker == Pads(t[..i])
      invariant marker > 0 <==> i > 0 && t[i - 1] == '='
      invariant forall j, k :: 0 <= j < k < i && t[j] == '=' ==> t[k] == '='
    {
      PadsStep(t, i);
      PartialValueStep(t, i);
      WrapStep(PartialValue(t, i), Digit(t[i]));
      val := val * 64 % WORD;
      if str[p + i] == '=' {
        marker := marker + 1;
      } else if marker > 0 {
        return DECODE_ERROR;
      } else {
        var v := Pos(str[p + i]);
        val := (val + v) % WORD;
      }
      i := i + 1;
    }
    PartialValueIsGroup(t);
    assert t[..4] == t;
    if marker > 2 {
      return DECODE_ERROR;
    }
    return OrMarker(marker, val);
  }

  /** The octets a word stands for: the top byte says how many are missing. */
  function Unpack(w: nat): string
    requires w < WORD
  {
    var marker := w / BIT24;
    [(w / BIT16 % 256) as char]
    + (if marker < 2 then [(w / 256 % 256) as char] else [])
    + (if marker < 1 then [(w % 256) as char] else [])
  }

  // ----- the whole string -----

  datatype Decoding = Decoding(out: string, ok: bool)

  /** `*p == '=' || strchr(base64_chars, *p)` on a character that is not NUL. */
  predicate StartsGroup(c: char) {
    c == '=' || InAlphabet(c)
  }

  /** The octets that are written when there is room, up to the end or the first bad group. */
  function Decode(s: string): Decoding {
    if s == [] || !StartsGroup(s[0]) then Decoding([], true)
    else if |s| < 4 || TokenWord(s[..4]) == DECODE_ERROR then Decoding([], false)
    else var d := Decode(s[4..]); Decoding(Unpack(TokenWord(s[..4])) + d.out, d.ok)
  }

  /** How many octets a run with the given bound writes; a negative size is no bound. */
  function Written(s: string, size: int): (w: nat)
    ensures size < 0 || |Decode(s).out| <= size ==> w == |Decode(s).out|
    ensures 0 <= size < |Decode(s).out| ==> w == size
  {
    if size < 0 then |Decode(s).out| else Min(size, |Decode(s).out|)
  }

  /** `*q++ = b`, unless the buffer is full. */
  method Put(data: array<char>, q: nat, size: int, b: nat) returns (ok: bool)
    requires b < 256
    requires size <= data.Length && (size < 0 ==> q < data.Length)
    modifies data
    ensures ok <==> size < 0 || q < size
    ensures forall i :: 0 <= i < data.Length ==> data[i] == if ok && i == q then b as char else old(data[i])
  {
    if size >= 0 && q >= size {
      return false;
    }
    data[q] := b as char;
    return true;
  }

  lemma UnpackBytes(w: nat)
    requires w < WORD
    ensures w / BIT24 < 256
    ensures var u := Unpack(w); var marker := w / BIT24;
            && |u| == (if marker < 1 then 3 else if marker < 2 then 2 else 1)
            && u[0] == (w / BIT16 % 256) as char
            && (marker < 2 ==> u[1] == (w / 256 % 256) as char)
            && (marker < 1 ==> u[2] == (w % 256) as char)
  {
  }

  /** Writes the octets of one word, as many as there is room for. */
  method PutWord(data: array<char>, q: nat, size: int, val: nat) returns (ok: bool, q': nat)
    requires val < WORD
    requires size <= data.Length && (if size < 0 then q + |Unpack(val)| <= data.Length else q <= size)
    modifies data
    ensures ok <==> size < 0 || q + |Unpack(val)| <= size
    ensures q' == if ok then q + |Unpack(val)| else size
    ensures forall i :: 0 <= i < data.Length ==>
              data[i] == if q <= i < q' then Unpack(val)[i - q] else old(data[i])
  {
    hide Unpack;
    UnpackBytes(val);
    var marker := val / BIT24 % 256;
    q' := q;
    ok := Put(data, q', size, val / BIT16 % 256);
    if !ok {
      return;
    }
    q' := q' + 1;
    if marker < 2 {
      ok := Put(data, q', size, val / 256 % 256);
      if !ok {
        return;
      }
      q' := q' + 1;
    }
    if marker < 1 {
      ok := Put(data, q', size, val % 256);
      if !ok {
        return;
      }
      q' := q' + 1;
    }
  }

  /** What the loop does with the group at `p`, the output so far being `Decode(s).out[..q]`. */
  lemma DecodeStep(s: string, p: nat, q: nat)
    requires p < |s| && StartsGroup(s[p])
    requires q <= |Decode(s).out| && Decode(s).out[q..] == Decode(s[p..]).out
    ensures p + 4 > |s| || TokenWord(s[p..p + 4]) == DECODE_ERROR ==> Decode(s[p..]) == Decoding([], false)
    ensures p + 4 <= |s| && TokenWord(s[p..p + 4]) != DECODE_ERROR ==>
              var u := Unpack(TokenWord(s[p..p + 4]));
              && Decode(s[p..]).ok == Decode(s[p + 4..]).ok
              && q + |u| <= |Decode(s).out|
              && Decode(s).out[q..q + |u|] == u
              && Decode(s).out[q + |u|..] == Decode(s[p + 4..]).out
              && forall i :: 0 <= i < |u| ==> Decode(s).out[q + i] == u[i]
  {
    hide TokenWord, Unpack;
    var rest := s[p..];
    if |rest| >= 4 {
      assert rest[..4] == s[p..p + 4] && rest[4..] == s[p + 4..];
      if TokenWord(rest[..4]) != DECODE_ERROR {
        var u := Unpack(TokenWord(rest[..4]));
        var out := Decode(s).out;
        assert out[q..] == u + Decode(rest[4..]).out;
        assert out[q + |u|..] == out[q..][|u|..];
        assert out[q..q + |u|] == out[q..][..|u|];
      }
    }
  }

  lemma DecodeEnds(s: string, p: nat)
    requires p <= |s| && (p < |s| ==> !StartsGroup(s[p]))
    ensures Decode(s[p..]) == Decoding([], true)
  {
  }

  /** Decodes into `data`, at most `size` octets, or without bound when `size` is negative. */
  method HttpBase64Decode(str: string, data: array<char>, size: int) returns (n: int)
    requires Terminated(str)
    requires size <= data.Length
    requires size < 0 ==> |Decode(str[..|str| - 1]).out| <= data.Length
    modifies data
    ensures var s := str[..|str| - 1]; var w := Written(s, size);
            && w <= data.Length
            && data[..] == Decode(s).out[..w] + old(data[..])[w..]
            && n == if Decode(s).ok && w == |Decode(s).out| then w else -1
  {
    hide Decode, StartsGroup, TokenWord, Unpack;
    ghost var s := str[..|str| - 1];
    ghost var out := Decode(s).out;
    assert s[0..] == s;
    var p := 0;
    var q := 0;
    while str[p] != '\0' && StartsGroup(str[p])
      invariant 0 <= p <= |s| && 0 <= q <= |out|
      invariant size < 0 || q <= size
      invariant out[q..] == Decode(s[p..]).out && Decode(s).ok == Decode(s[p..]).ok
      invariant forall i :: 0 <= i < data.Length ==> data[i] == if i < q then out[i] else old(data[i])
      decreases |s| - p
    {
      DecodeStep(s, p, q);
      assert p + 4 <= |s| ==> str[p..p + 4] == s[p..p + 4] && '\0' !in s[p..p + 4];
      var val := TokenDecode(str, p);
      if val == DECODE_ERROR {
        return -1;
      }
      var ok;
      ok, q := PutWord(data, q, size, val);
      if !ok {
        return -1;
      }
      p := p + 4;
    }
    DecodeEnds(s, p);
    assert out[q..] == [];
    assert q == |out| && Written(s, size) == q;
    assert data[..] == out[..q] + old(data[..])[q..];
    return q;
  }
}
