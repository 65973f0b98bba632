/** The ICMP checksum of `vpn.c` and the one's-complement sum of RFC 1071 it stands for. */
module Checksum {

  type byte = b: int | 0 <= b < 256

  type word = w: int | 0 <= w < 65536

  /** Which byte of a 16-bit word the machine stores first. */
  datatype Endian = Little | Big

  const INT_MAX: int := 0x7fff_ffff

  function Load(e: Endian, b0: byte, b1: byte): word {
    if e == Little then b0 + 256 * b1 else 256 * b0 + b1
  }

  /** The 16-bit words of a buffer; an odd last byte goes into the byte stored first. */
  function Words(e: Endian, buf: seq<byte>): seq<word> {
    if buf == [] then []
    else if |buf| == 1 then [Load(e, buf[0], 0)]
    else [Load(e, buf[0], buf[1])] + Words(e, buf[2..])
  }

  function Sum(words: seq<word>): (s: nat)
    ensures s <= 65535 * |words|
  {
    if words == [] then 0 else words[0] + Sum(words[1..])
  }

  // ----- the reference: section 1 of RFC 1071 -----

  /** One's-complement addition: the carry comes back in at the low end. */
  function OnesAdd(a: word, b: word): word {
    if a + b >= 65536 then a + b - 65535 else a + b
  }

  function OnesSum(words: seq<word>): word {
    if words == [] then 0 else OnesAdd(words[0], OnesSum(words[1..]))
  }

  function Complement(w: word): word {
    65535 - w
  }

  // ----- the code -----

  /** Both carry folds, the second one not masked, and the truncation to 16 bits. */
  function TwoFolds(sum: nat): word {
    var once := sum / 65536 + sum % 65536;
    (once + once / 65536) % 65536
  }

  /** The longest buffer for which the 32-bit accumulator cannot overflow. */
  function SafeLength(e: Endian): nat {
    if e == Little then 65537 else 65536
  }

  lemma {:induction false} SumAppend(a: seq<word>, b: seq<word>)
    ensures Sum(a + b) == Sum(a) + Sum(b)
  {
    if a == [] {
      assert a + b == b;
    } else {
      assert (a + b)[1..] == a[1..] + b;
      SumAppend(a[1..], b);
    }
  }

  lemma {:induction false} WordsSplit(e: Endian, a: seq<byte>, b: seq<byte>)
    requires |a| % 2 == 0
    ensures Words(e, a + b) == Words(e, a) + Words(e, b)
  {
    if a == [] {
      assert a + b == b;
    } else {
      assert (a + b)[2..] == a[2..] + b;
      WordsSplit(e, a[2..], b);
    }
  }

  lemma {:induction false} WordsLength(e: Endian, buf: seq<byte>)
    ensures |Words(e, buf)| == (|buf| + 1) / 2
  {
    if |buf| <= 1 {
    } else {
      WordsLength(e, buf[2..]);
    }
  }

  /** Within the safe length no partial sum leaves the range of an `int`. */
  lemma SumInRange(e: Endian, buf: seq<byte>, k: nat)
    requires |buf| <= SafeLength(e) && k <= |buf| && (k % 2 == 0 || k == |buf|)
    ensures Sum(Words(e, buf[..k])) <= INT_MAX
  {
    var even := k / 2 * 2;
    var front, last := buf[..even], buf[even..k];
    assert buf[..k] == front + last;
    WordsSplit(e, front, last);
    SumAppend(Words(e, front), Words(e, last));
    WordsLength(e, front);
    if last != [] {
      assert Words(e, last) == [Load(e, last[0], 0)];
    }
  }

  /** What part of the buffer a length covers. */
  function Covered(buf: seq<byte>, len: int): seq<byte>
    requires len <= |buf|
  {
    if len < 0 then [] else buf[..len]
  }

  lemma SumOfNothing(e: Endian, buf: seq<byte>)
    ensures Sum(Words(e, buf[..0])) == 0
  {
  }

  lemma Truncates(x: int, q: int, r: int)
    requires x == 65536 * q + r && 0 <= r < 65536
    ensures x % 65536 == r
  {
  }

  lemma ComplementTruncates(sum: nat)
    ensures var once := sum / 65536 + sum % 65536;
            (-1 - (once + once / 65536)) % 65536 == Complement(TwoFolds(sum))
  {
    var once := sum / 65536 + sum % 65536;
    var twice := once + once / 65536;
    Truncates(-1 - twice, -1 - twice / 65536, 65535 - twice % 65536);
  }

  lemma AddWord(e: Endian, buf: seq<byte>, at: nat)
    requires at % 2 == 0 && at < |buf|
    ensures at + 1 < |buf| ==>
              Sum(Words(e, buf[..at + 2])) == Sum(Words(e, buf[..at])) + Load(e, buf[at], buf[at + 1])
    ensures at + 1 == |buf| ==> Sum(Words(e, buf)) == Sum(Words(e, buf[..at])) + Load(e, buf[at], 0)
  {
    var end := if at + 1 < |buf| then at + 2 else at + 1;
    var last := buf[at..end];
    assert buf[..end] == buf[..at] + last;
    WordsSplit(e, buf[..at], last);
    SumAppend(Words(e, buf[..at]), Words(e, last));
    assert end == |buf| ==> buf[..end] == buf;
    assert |last| == 2 ==> last[2..] == [];
  }

  lemma DivisionIs(n: nat, q: nat, r: nat)
    requires n == 65535 * q + r && r < 65535
    ensures n % 65535 == r
  {
  }

  /** The representative in 0 .. 65535 that is 0 only for 0. */
  lemma TwoFoldsValue(sum: nat)
    requires sum <= INT_MAX
    ensures TwoFolds(sum) == if sum == 0 then 0 else (sum - 1) % 65535 + 1
    ensures TwoFolds(sum) % 65535 == sum % 65535 && (TwoFolds(sum) == 0 <==> sum == 0)
  {
    var hi, lo := sum / 65536, sum % 65536;
    var once := hi + lo;
    assert sum == 65535 * hi + once;
    assert once / 65536 <= 1;
    var folded := TwoFolds(sum);
    assert folded == if once < 65536 then once else once - 65535;
    var q := if once < 65536 then hi else hi + 1;
    assert sum == 65535 * q + folded;
    if sum > 0 {
      assert 1 <= folded <= 65535;
      DivisionIs(sum - 1, q, folded - 1);
      DivisionIs(sum, if folded == 65535 then q + 1 else q, folded % 65535);
    }
  }

  lemma {:induction false} OnesSumValue(words: seq<word>)
    ensures OnesSum(words) == if Sum(words) == 0 then 0 else (Sum(words) - 1) % 65535 + 1
  {
    if words == [] {
    } else {
      OnesSumValue(words[1..]);
    }
  }

  /** Deferring the carries to two folds at the end gives the one's-complement sum. */
  lemma FoldsAreOnesSum(words: seq<word>)
    requires Sum(words) <= INT_MAX
    ensures TwoFolds(Sum(words)) == OnesSum(words)
  {
    TwoFoldsValue(Sum(words));
    OnesSumValue(words);
  }

  /** Sums the 16-bit words, deferring the carries; the accumulator is an `int`. */
  method CheckSum(e: Endian, buf: seq<byte>, len: int) returns (r: word)
    requires len <= |buf| && len <= SafeLength(e)
    ensures r == Complement(OnesSum(Words(e, Covered(buf, len))))
    ensures len >= 0 ==> r == Complement(OnesSum(Words(e, buf[..len])))
  {
    hide Words, Sum, OnesSum, Load;
    var left := len;
    var sum := 0;
    var at := 0;
    ghost var part := Covered(buf, len);
    SumOfNothing(e, part);
    while left > 1
      invariant at % 2 == 0 && 0 <= at <= |part|
      invariant left == if len < 0 then len else len - at
      invariant sum == Sum(Words(e, part[..at]))
      invariant 0 <= sum <= INT_MAX
    {
      AddWord(e, part, at);
      SumInRange(e, part, at + 2);
      sum := sum + Load(e, buf[at], buf[at + 1]);
      at := at + 2;
      left := left - 2;
    }
    if left == 1 {
      AddWord(e, part, at);
      sum := sum + Load(e, buf[at], 0);
    }
    assert part[..|part|] == part;
    SumInRange(e, part, |part|);
    FoldsAreOnesSum(Words(e, part));
    ComplementTruncates(sum);
    sum := sum / 65536 + sum % 65536;
    sum := sum + sum / 65536;
    r := (-1 - sum) % 65536;
  }
}
