/** The client connection as a byte stream with a cursor, and the line reader
    of `src/http_server.c`. */
module LineReader {
  import opened LineEnds

  /** A connection: the bytes the peer sends before it closes its side, and how many were read. */
  class Socket {
    const input: string
    var cursor: nat

    ghost predicate Valid()
      reads this
    {
      cursor <= |input|
    }

    function Unread(): string
      reads this
      requires Valid()
    {
      input[cursor..]
    }

    constructor (input: string)
      ensures Valid() && this.input == input && cursor == 0
    {
      this.input := input;
      cursor := 0;
    }

    /** `read(fd, &next, 1)`: at the end of the stream `next` keeps its value. */
    method Read(next: char) returns (err: int, next': char)
      requires Valid()
      modifies this`cursor
      ensures Valid()
      ensures if old(Unread()) == [] then err == 0 && next' == next && cursor == old(cursor)
              else err == 1 && next' == old(Unread())[0] && cursor == old(cursor) + 1
    {
      if cursor == |input| {
        return 0, next;
      }
      next' := input[cursor];
      cursor := cursor + 1;
      err := 1;
    }

    /** `recv(fd, &next, 1, MSG_PEEK)`. */
    method Peek(next: char) returns (err: int, next': char)
      requires Valid()
      ensures if Unread() == [] then err == 0 && next' == next else err == 1 && next' == Unread()[0]
    {
      if cursor == |input| {
        return 0, next;
      }
      return 1, input[cursor];
    }
  }

  /** One pass of the reading loop: fetches a character and folds CR and CRLF into LF. */
  method NextChar(sock: Socket, last: char) returns (err: int, next: char)
    requires sock.Valid()
    modifies sock`cursor
    ensures sock.Valid()
    ensures old(sock.Unread()) == [] ==> err <= 0 && next == last && sock.Unread() == []
    ensures old(sock.Unread()) != [] ==>
              err > 0 && next == LineEnd(old(sock.Unread())[0]) &&
              sock.Unread() == old(sock.Unread())[Step(old(sock.Unread()))..]
  {
    err, next := sock.Read(last);
    if err <= 0 {
      return;
    }
    if next == '\r' {
      var peeked;
      peeked, next := sock.Peek(next);
      if peeked > 0 && next == '\n' {
        peeked, next := sock.Read(next);
      } else {
        next := '\n';
      }
    }
  }

  /** Reads one line, at most `size - 1` characters, into `buffer` at offset `off`, NUL-terminated. */
  method ReadLine(sock: Socket, buffer: array<char>, off: nat, size: nat) returns (i: nat)
    requires sock.Valid()
    requires 1 <= size && off + size <= buffer.Length
    modifies buffer, sock`cursor
    ensures sock.Valid()
    ensures i == LineLength(Normalise(old(sock.Unread())), size - 1)
    ensures sock.Unread() == Skip(old(sock.Unread()), i)
    ensures buffer[..off] == old(buffer[..off])
    ensures buffer[off..off + i] == Normalise(old(sock.Unread()))[..i]
    ensures buffer[off + i] == '\0'
    ensures buffer[off + i + 1..] == old(buffer[off + i + 1..])
  {
    hide Normalise, Skip, LineLength, Step;
    ghost var s := sock.Unread();
    ghost var n := Normalise(s);
    assert Skip(s, 0) == s by { SkipNone(s); }
    var next := '\0';
    i := 0;
    while i < size - 1 && next != '\n'
      invariant 0 <= i <= size - 1 && i <= |n|
      invariant sock.Valid() && sock.Unread() == Skip(s, i)
      invariant next == if i == 0 then '\0' else n[i - 1]
      invariant forall j :: 0 <= j < i - 1 ==> n[j] != '\n'
      invariant buffer[..off] == old(buffer[..off])
      invariant forall j :: 0 <= j < i ==> buffer[off + j] == n[j]
      invariant forall j :: off + i <= j < buffer.Length ==> buffer[j] == old(buffer[j])
      decreases |n| - i
    {
      SkipNext(s, i);
      var err;
      err, next := NextChar(sock, next);
      if err <= 0 {
        break;
      }
      buffer[off + i] := next;
      i := i + 1;
    }
    LineLengthIs(n, size - 1, i);
    buffer[off + i] := '\0';
  }
}
