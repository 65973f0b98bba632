/** Basic authorization, from the header line to the verdict: section 2 of RFC 7617. */
module Authorization {
  import opened CStrings
  import opened Base64
  import opened Base64Codec
  import opened RequestHeaders

  datatype CgiUser = CgiUser(user: string, pwd: string)

  /** `Fault`: the text has no colon, and the code goes on with a pointer it computed from NULL. */
  datatype Verdict = Granted | Refused | Fault

  const PLAIN_SIZE: nat := 256

  method AuthUser(users: seq<CgiUser>, usr: string, pwd: string) returns (ok: bool)
    ensures ok <==> CgiUser(usr, pwd) in users
  {
    for i := 0 to |users|
      invariant CgiUser(usr, pwd) !in users[..i]
    {
      if users[i].user == usr && users[i].pwd == pwd {
        assert users[i] == CgiUser(usr, pwd);
        return true;
      }
      assert users[..i + 1] == users[..i] + [users[i]];
    }
    assert users[..|users|] == users;
    return false;
  }

  /** User name and password: a text cut at its first colon. */
  function CutPair(plain: string): Option<CgiUser> {
    var colon := IndexOf(plain, ':');
    if colon == |plain| then None else Some(CgiUser(plain[..colon], plain[colon + 1..]))
  }

  /** The pair a cipher stands for: the decoded text, up to a NUL. */
  function Credentials(cipher: string): Option<CgiUser> {
    CutPair(CStr(Decode(cipher).out))
  }

  function LookUp(users: seq<CgiUser>, c: Option<CgiUser>): Verdict {
    match c
    case None => Fault
    case Some(pair) => if pair in users then Granted else Refused
  }

  function Judge(users: seq<CgiUser>, cipher: string): Verdict {
    LookUp(users, Credentials(cipher))
  }

  lemma {:induction false} DecodeLength(s: string)
    ensures |Decode(s).out| <= |s|
    decreases |s|
  {
    hide Unpack, TokenWord, StartsGroup;
    if |s| < 4 {
    } else {
      DecodeLength(s[4..]);
      UnpackBytes(TokenWord(s[..4]));
    }
  }

  lemma PasswordText(mem: string, text: string, colon: nat)
    requires text == CStr(mem) && colon < |text| < |mem|
    ensures CStr(mem[colon + 1..]) == text[colon + 1..]
  {
    var tail := mem[colon + 1..];
    var k := |text| - colon - 1;
    assert tail[..k] == text[colon + 1..];
    assert forall j :: 0 <= j < k ==> tail[..k][j] in text;
    IndexOfIs(tail, '\0', k);
  }

  lemma UserText(mem: string, text: string, colon: nat)
    requires colon < |text| <= |mem| && mem[..colon] == text[..colon] && mem[colon] == '\0' && '\0' !in text
    ensures CStr(mem) == text[..colon]
  {
    assert forall j :: 0 <= j < colon ==> mem[..colon][j] in text;
    IndexOfIs(mem, '\0', colon);
  }

  /** Cuts the decoded text at its colon, in place, and looks the two halves up. */
  method CheckPlaintext(users: seq<CgiUser>, plain: array<char>) returns (v: Verdict)
    requires IndexOf(plain[..], '\0') < plain.Length
    modifies plain
    ensures v == LookUp(users, CutPair(CStr(old(plain[..]))))
  {
    hide CStr;
    ghost var text := CStr(plain[..]);
    TextInFront(plain[..]);
    var colon := IndexOf(CStr(plain[..]), ':');
    if colon == |CStr(plain[..])| {
      return Fault;
    }
    var pwd := CStr(plain[colon + 1..]);
    PasswordText(plain[..], text, colon);
    plain[colon] := '\0';
    UserText(plain[..], text, colon);
    var user := CStr(plain[..]);
    var ok := AuthUser(users, user, pwd);
    return if ok then Granted else Refused;
  }

  /** A text and the NUL behind it read the same as the text alone. */
  lemma PlainText(out: string, rest: string)
    ensures CStr(out + ['\0'] + rest) == CStr(out)
    ensures IndexOf(out + ['\0'] + rest, '\0') <= |out|
  {
    var mem := out + ['\0'] + rest;
    var i := IndexOf(out, '\0');
    assert mem[..i] == out[..i];
    IndexOfIs(mem, '\0', i);
  }

  /** Decodes the cipher into a zeroed buffer and checks what is in it; the decoder's own verdict is
      not asked for. `cipher` is the memory of the cipher field up to and with its NUL. */
  method CheckAuthorization(users: seq<CgiUser>, cipher: string) returns (v: Verdict)
    requires Terminated(cipher) && |cipher| <= CIPHER_SIZE
    ensures v == Judge(users, cipher[..|cipher| - 1])
  {
    hide Decode, CStr, IndexOf, CutPair;
    var plain := new char[PLAIN_SIZE](i => '\0');
    ghost var s := cipher[..|cipher| - 1];
    ghost var out := Decode(s).out;
    DecodeLength(s);
    ghost var zeros := plain[..];
    var n := HttpBase64Decode(cipher, plain, PLAIN_SIZE);
    assert plain[..] == out + ['\0'] + zeros[|out| + 1..];
    PlainText(out, zeros[|out| + 1..]);
    v := CheckPlaintext(users, plain);
  }

  // ----- the chain -----

  predicate IsUserPass(user: string, pwd: string) {
    Octets(user) && Octets(pwd) && ':' !in user && '\0' !in user && '\0' !in pwd
  }

  /** What RFC 7617 has a client send is what the server takes it for. */
  lemma CredentialsRoundTrip(user: string, pwd: string)
    requires IsUserPass(user, pwd)
    ensures Octets(user + ":" + pwd)
    ensures Credentials(Encode(user + ":" + pwd)) == Some(CgiUser(user, pwd))
  {
    var plain := user + ":" + pwd;
    DecodeEncode(plain);
    CStrIdentity(plain);
    assert plain[..|user|] == user && plain[|user| + 1..] == pwd;
    IndexOfIs(plain, ':', |user|);
  }

  /** The code goes on with a null pointer exactly when the decoded text has no colon. */
  lemma FaultExactly(users: seq<CgiUser>, cipher: string)
    ensures Judge(users, cipher) == Fault <==> ':' !in CStr(Decode(cipher).out)
  {
    hide Decode, CStr;
    var plain := CStr(Decode(cipher).out);
    var colon := IndexOf(plain, ':');
    assert colon == |plain| ==> plain[..colon] == plain;
  }

  /** A NUL behind the password ends it, whatever else was sent. */
  lemma NulEndsCredentials(user: string, pwd: string, more: string)
    requires IsUserPass(user, pwd) && Octets(more)
    ensures var plain := user + ":" + pwd + ['\0'] + more;
            Octets(plain) && Credentials(Encode(plain)) == Some(CgiUser(user, pwd))
  {
    hide Decode, Encode;
    var front := user + ":" + pwd;
    var plain := front + ['\0'] + more;
    assert Octets(plain);
    DecodeEncode(plain);
    CStrOf(front, more);
    assert front[..|user|] == user && front[|user| + 1..] == pwd;
    IndexOfIs(front, ':', |user|);
  }

  /** Nobody asks whether the decoder was content: behind full groups, a rejected rest changes nothing. */
  lemma RejectedRestIsIgnored(users: seq<CgiUser>, user: string, pwd: string, rest: string)
    requires IsUserPass(user, pwd) && Octets(user + ":" + pwd)
    requires |Encode(user + ":" + pwd)| % 4 == 0 && Decode(rest) == Decoding("", false)
    ensures var cipher := Encode(user + ":" + pwd) + rest;
            && !Decode(cipher).ok
            && Judge(users, cipher) == if CgiUser(user, pwd) in users then Granted else Refused
  {
    hide Decode, Encode, CStr;
    var plain := user + ":" + pwd;
    DecodeEncode(plain);
    DecodeConcat(Encode(plain), rest);
    assert plain + "" == plain;
    CredentialsRoundTrip(user, pwd);
  }
}
