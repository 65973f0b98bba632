/** What RFC 1071 promises of the checksum, and the echo request that relies on it. */
module ChecksumLaws {
  import opened Checksum

  // ----- bounds -----

  lemma {:induction false} AllOnes(e: Endian, buf: seq<byte>)
    requires forall i :: 0 <= i < |buf| ==> buf[i] == 255
    ensures Sum(Words(e, buf)) == 65535 * (|buf| / 2) + if |buf| % 2 == 0 then 0 else Load(e, 255, 0)
  {
    if |buf| <= 1 {
    } else {
      AllOnes(e, buf[2..]);
    }
  }

  /** The accumulator is safe for every buffer of a given length exactly up to `SafeLength`. */
  lemma SafeLengthIsTight(e: Endian, n: nat)
    ensures (forall buf: seq<byte> :: |buf| == n ==> Sum(Words(e, buf)) <= INT_MAX) <==> n <= SafeLength(e)
  {
    if n <= SafeLength(e) {
      forall buf: seq<byte> | |buf| == n ensures Sum(Words(e, buf)) <= INT_MAX {
        SumInRange(e, buf, n);
        assert buf[..n] == buf;
      }
    } else {
      var ones := seq(n, i => 255 as byte);
      AllOnes(e, ones);
      assert n / 2 >= 32768;
      assert n >= 65538 ==> n / 2 >= 32769;
    }
  }

  // ----- algebra: section 2 of RFC 1071 -----

  /** One's-complement addition is commutative and associative. */
  lemma OnesAddLaws(a: word, b: word, c: word)
    ensures OnesAdd(a, b) == OnesAdd(b, a)
    ensures OnesAdd(OnesAdd(a, b), c) == OnesAdd(a, OnesAdd(b, c))
    ensures OnesAdd(b, OnesAdd(a, c)) == OnesAdd(a, OnesAdd(b, c))
  {
  }

  lemma {:induction false} OnesSumAppend(a: seq<word>, b: seq<word>)
    ensures OnesSum(a + b) == OnesAdd(OnesSum(a), OnesSum(b))
  {
    if a == [] {
      assert a + b == b;
    } else {
      assert (a + b)[1..] == a[1..] + b;
      OnesSumAppend(a[1..], b);
      OnesAddLaws(a[0], OnesSum(a[1..]), OnesSum(b));
    }
  }

  /** Moving one word to the front changes nothing. */
  lemma OnesSumMove(front: seq<word>, w: word, back: seq<word>)
    ensures OnesSum(front + [w] + back) == OnesAdd(w, OnesSum(front + back))
  {
    assert front + [w] + back == front + ([w] + back);
    assert ([w] + back)[1..] == back;
    OnesSumAppend(front, [w] + back);
    OnesSumAppend(front, back);
    OnesAddLaws(w, OnesSum(front), OnesSum(back));
  }

  lemma WithoutWord(front: seq<word>, w: word, back: seq<word>)
    ensures multiset(front + ([w] + back)) - multiset{w} == multiset(front + back)
  {
    assert multiset(front + back) == multiset(front) + multiset(back);
    assert multiset(front + ([w] + back)) == multiset(front) + multiset{w} + multiset(back);
  }

  lemma WordFound(words: seq<word>, w: word) returns (i: nat)
    requires w in multiset(words)
    ensures i < |words| && words == words[..i] + ([w] + words[i + 1..])
  {
    i :| 0 <= i < |words| && words[i] == w;
  }

  lemma WordTaken(a: seq<word>, b: seq<word>) returns (i: nat)
    requires a != [] && multiset(a) == multiset(b)
    ensures i < |b| && b == b[..i] + ([a[0]] + b[i + 1..])
    ensures multiset(a[1..]) == multiset(b[..i] + b[i + 1..])
  {
    assert a[0] in multiset(a);
    i := WordFound(b, a[0]);
    WithoutWord(b[..i], a[0], b[i + 1..]);
    WithoutWord([], a[0], a[1..]);
    assert a == [] + ([a[0]] + a[1..]) && a[1..] == [] + a[1..];
  }

  /** The order of the words does not matter. */
  lemma {:induction false} OrderIsIrrelevant(a: seq<word>, b: seq<word>)
    requires multiset(a) == multiset(b)
    ensures OnesSum(a) == OnesSum(b)
    decreases |a|
  {
    if a == [] {
      assert |multiset(b)| == 0;
    } else {
      var i := WordTaken(a, b);
      assert b[..i] + [a[0]] + b[i + 1..] == b;
      OnesSumMove(b[..i], a[0], b[i + 1..]);
      OrderIsIrrelevant(a[1..], b[..i] + b[i + 1..]);
    }
  }

  /** A buffer may be summed in parts, cut at even offsets. */
  lemma SumInParts(e: Endian, a: seq<byte>, b: seq<byte>)
    requires |a| % 2 == 0
    ensures OnesSum(Words(e, a + b)) == OnesAdd(OnesSum(Words(e, a)), OnesSum(Words(e, b)))
  {
    WordsSplit(e, a, b);
    OnesSumAppend(Words(e, a), Words(e, b));
  }

  /** An odd last byte counts as if a zero byte followed. */
  lemma {:induction false} OddTailIsPadded(e: Endian, buf: seq<byte>)
    requires |buf| % 2 == 1
    ensures Words(e, buf + [0]) == Words(e, buf)
  {
    if |buf| == 1 {
      assert (buf + [0])[2..] == [];
    } else {
      assert (buf + [0])[2..] == buf[2..] + [0];
      OddTailIsPadded(e, buf[2..]);
    }
  }

  function Swap(w: word): word {
    w % 256 * 256 + w / 256
  }

  /** Carries travel round the same way in either byte order. */
  lemma SwapAdds(a: word, b: word)
    ensures Swap(OnesAdd(a, b)) == OnesAdd(Swap(a), Swap(b))
  {
    var ah, al, bh, bl := a / 256, a % 256, b / 256, b % 256;
    var low, high := al + bl, ah + bh;
    assert a + b == 256 * high + low;
    assert Swap(a) + Swap(b) == 256 * low + high;
    var s := OnesAdd(a, b);
    if a + b < 65536 {
      assert if low < 256 then s / 256 == high && s % 256 == low else s / 256 == high + 1 && s % 256 == low - 256;
    } else if low < 256 {
      assert s == 256 * (high - 256) + (low + 1);
      assert low < 255 ==> s / 256 == high - 256 && s % 256 == low + 1;
    } else {
      assert s == 256 * (high - 255) + (low - 255);
      assert low < 511 ==> s / 256 == high - 255 && s % 256 == low - 255;
    }
  }

  lemma SwapComplements(w: word)
    ensures Swap(Complement(w)) == Complement(Swap(w))
  {
    var high, low := 255 - w / 256, 255 - w % 256;
    var c := Complement(w);
    assert c == 256 * high + low;
    assert c / 256 == high && c % 256 == low;
    assert Swap(w) == 256 * (w % 256) + w / 256;
  }

  lemma NoWords()
    ensures OnesSum(Words(Little, [])) == 0 && OnesSum(Words(Big, [])) == 0 && Swap(0) == 0
  {
  }

  lemma LoadSwapped(b0: byte, b1: byte)
    ensures Load(Big, b0, b1) == Swap(Load(Little, b0, b1))
  {
  }

  lemma FirstWord(e: Endian, buf: seq<byte>)
    requires buf != []
    ensures OnesSum(Words(e, buf)) == OnesAdd(Load(e, buf[0], if |buf| == 1 then 0 else buf[1]),
                                              OnesSum(Words(e, if |buf| == 1 then [] else buf[2..])))
  {
  }

  /** Summing on a machine of the other byte order gives the byte-swapped sum. */
  lemma {:induction false} ByteOrderIndependent(buf: seq<byte>)
    ensures OnesSum(Words(Big, buf)) == Swap(OnesSum(Words(Little, buf)))
    ensures Complement(OnesSum(Words(Big, buf))) == Swap(Complement(OnesSum(Words(Little, buf))))
    decreases |buf|
  {
    hide Words, OnesSum, Load, OnesAdd, Swap, Complement;
    if buf == [] {
      NoWords();
    } else {
      var b1 := if |buf| == 1 then 0 else buf[1];
      var rest := if |buf| == 1 then [] else buf[2..];
      FirstWord(Little, buf);
      FirstWord(Big, buf);
      ByteOrderIndependent(rest);
      LoadSwapped(buf[0], b1);
      SwapAdds(Load(Little, buf[0], b1), OnesSum(Words(Little, rest)));
    }
    SwapComplements(OnesSum(Words(Little, buf)));
  }

  // ----- inserting the checksum -----

  /** The bytes of a word as the machine stores them. */
  function StoredFirst(e: Endian, w: word): byte {
    if e == Little then w % 256 else w / 256
  }

  function StoredSecond(e: Endian, w: word): byte {
    if e == Little then w / 256 else w % 256
  }

  function StoreAt(e: Endian, buf: seq<byte>, at: nat, w: word): seq<byte>
    requires at + 1 < |buf|
  {
    buf[at := StoredFirst(e, w)][at + 1 := StoredSecond(e, w)]
  }

  lemma WordsAround(e: Endian, front: seq<byte>, b0: byte, b1: byte, back: seq<byte>)
    requires |front| % 2 == 0
    ensures Words(e, front + [b0, b1] + back) == Words(e, front) + [Load(e, b0, b1)] + Words(e, back)
  {
    var tail := [b0, b1] + back;
    assert front + [b0, b1] + back == front + tail;
    WordsSplit(e, front, tail);
    assert tail[2..] == back;
  }

  /** Storing a word into a zero slot adds it to the sum. */
  lemma StoreAddsWord(e: Endian, buf: seq<byte>, at: nat, w: word)
    requires at % 2 == 0 && at + 1 < |buf| && buf[at] == 0 && buf[at + 1] == 0
    ensures OnesSum(Words(e, StoreAt(e, buf, at, w))) == OnesAdd(w, OnesSum(Words(e, buf)))
  {
    var after := StoreAt(e, buf, at, w);
    var front, back := buf[..at], buf[at + 2..];
    assert buf == front + [0, 0] + back;
    assert after == front + [StoredFirst(e, w), StoredSecond(e, w)] + back;
    WordsAround(e, front, 0, 0, back);
    WordsAround(e, front, StoredFirst(e, w), StoredSecond(e, w), back);
    OnesSumMove(Words(e, front), 0, Words(e, back));
    OnesSumMove(Words(e, front), w, Words(e, back));
  }

  /** A buffer that carries its own checksum sums to zero. */
  lemma InsertedChecksumVerifies(e: Endian, buf: seq<byte>, at: nat)
    requires at % 2 == 0 && at + 1 < |buf| && buf[at] == 0 && buf[at + 1] == 0
    ensures var sum := Complement(OnesSum(Words(e, buf)));
            Complement(OnesSum(Words(e, StoreAt(e, buf, at, sum)))) == 0
  {
    StoreAddsWord(e, buf, at, Complement(OnesSum(Words(e, buf))));
  }

  // ----- the echo request of check_host_status -----

  const ICMP_ECHO: byte := 8

  /** `msg[64]` with type, code, identifier and sequence number, its checksum still zero. */
  function EchoHeader(e: Endian): (m: seq<byte>)
    ensures |m| == 64
  {
    var zero := seq(64, i => 0 as byte)[0 := ICMP_ECHO];
    StoreAt(e, StoreAt(e, zero, 4, 0xf09), 6, 0xf001)
  }

  /** Fills in the message that is sent, in the machine's own byte order. */
  method EchoRequest(e: Endian) returns (msg: array<byte>)
    ensures fresh(msg) && msg.Length == 64
    ensures msg[..] == StoreAt(e, EchoHeader(e), 2, Complement(OnesSum(Words(e, EchoHeader(e)))))
    ensures Complement(OnesSum(Words(e, msg[..]))) == 0
  {
    hide Words, OnesSum, Complement, StoredFirst, StoredSecond;
    msg := new byte[64](i => 0);
    msg[0] := ICMP_ECHO;
    msg[1] := 0;
    msg[4], msg[5] := StoredFirst(e, 0xf09), StoredSecond(e, 0xf09);
    msg[6], msg[7] := StoredFirst(e, 0xf001), StoredSecond(e, 0xf001);
    assert msg[..] == EchoHeader(e);
    var sum := CheckSum(e, msg[..], 64);
    assert Covered(EchoHeader(e), 64) == EchoHeader(e);
    InsertedChecksumVerifies(e, EchoHeader(e), 2);
    msg[2], msg[3] := StoredFirst(e, sum), StoredSecond(e, sum);
    assert msg[..] == StoreAt(e, EchoHeader(e), 2, sum);
  }

  lemma {:induction false} ZerosSum(e: Endian, n: nat)
    ensures OnesSum(Words(e, seq(2 * n, i => 0 as byte))) == 0
  {
    if n > 0 {
      assert seq(2 * n, i => 0 as byte)[2..] == seq(2 * (n - 1), i => 0 as byte);
      ZerosSum(e, n - 1);
    }
  }

  lemma HeaderSum(e: Endian)
    ensures OnesSum(Words(e, EchoHeader(e))) == if e == Little then 0xff12 else 0x070b
  {
    hide Words, OnesSum;
    var m := EchoHeader(e);
    var zeros := seq(56, i => 0 as byte);
    ZerosSum(e, 28);
    assert m[8..] == zeros;
    assert m[6..][2..] == m[8..] && m[4..][2..] == m[6..] && m[2..][2..] == m[4..];
    FirstWord(e, m[6..]);
    FirstWord(e, m[4..]);
    FirstWord(e, m[2..]);
    FirstWord(e, m);
  }

  /** The message octet by octet, on either kind of machine. */
  lemma EchoOctets()
    ensures StoreAt(Little, EchoHeader(Little), 2, Complement(OnesSum(Words(Little, EchoHeader(Little)))))
            == [8, 0, 0xed, 0, 0x09, 0x0f, 0x01, 0xf0] + seq(56, i => 0 as byte)
    ensures StoreAt(Big, EchoHeader(Big), 2, Complement(OnesSum(Words(Big, EchoHeader(Big)))))
            == [8, 0, 0xf8, 0xf4, 0x0f, 0x09, 0xf0, 0x01] + seq(56, i => 0 as byte)
  {
    hide Words, OnesSum;
    HeaderSum(Little);
    HeaderSum(Big);
  }
}
