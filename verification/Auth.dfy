/**
 The authentication string of the CDC protocol, built twice in the repository: in C by
 maxinfo_func.cpp and in C++ by cdc_connector.cpp. A byte is an int from 0 to 255, so b >> 4
 is b / 16 and b & 15 is b % 16.
 */
module Auth {
  import opened CStrings
  import opened Options

  type Byte = b: int | 0 <= b < 256

  const COLON: Byte := ':' as int
  const DIGEST_LENGTH := 20

  /** hexconvtab */
  function HexDigit(n: nat): (c: char)
    requires n < 16
    ensures c != NUL && c == "0123456789abcdef"[n] && HexValue(c) == n
  {
    if n < 10 then (n + 48) as char else (n + 87) as char
  }

  function HexValue(c: char): (n: nat)
    ensures n < 16
  {
    if '0' <= c <= '9' then c as int - 48 else if 'a' <= c <= 'f' then c as int - 87 else 0
  }

  function HexPair(b: Byte): (s: string)
    ensures |s| == 2
  {
    [HexDigit(b / 16), HexDigit(b % 16)]
  }

  function Hex(bytes: seq<Byte>): (s: string)
    ensures |s| == 2 * |bytes|
  {
    if bytes == [] then "" else Hex(bytes[..|bytes| - 1]) + HexPair(bytes[|bytes| - 1])
  }

  /** The byte that two hexadecimal digits stand for. */
  function ByteOf(high: char, low: char): Byte {
    16 * HexValue(high) + HexValue(low)
  }

  function Unhex(s: string): seq<Byte> {
    if |s| < 2 then [] else
    Unhex(s[..|s| - 2]) + [ByteOf(s[|s| - 2], s[|s| - 1])]
  }

  lemma PairStandsForByte(b: Byte)
    ensures ByteOf(HexPair(b)[0], HexPair(b)[1]) == b
  {
  }

  lemma UnhexMore(s: string, pair: string)
    requires |pair| == 2
    ensures Unhex(s + pair) == Unhex(s) + [ByteOf(pair[0], pair[1])]
  {
    assert (s + pair)[..|s|] == s;
  }

  lemma {:induction false} UnhexUndoesHex(bytes: seq<Byte>)
    ensures Unhex(Hex(bytes)) == bytes
  {
    if bytes != [] {
      var before, b := bytes[..|bytes| - 1], bytes[|bytes| - 1];
      calc {
        Unhex(Hex(bytes));
        Unhex(Hex(before) + HexPair(b));
        { UnhexMore(Hex(before), HexPair(b)); PairStandsForByte(b); }
        Unhex(Hex(before)) + [b];
        { UnhexUndoesHex(before); }
        before + [b];
        bytes;
      }
    }
  }

  lemma {:induction false} HexOfBoth(a: seq<Byte>, b: seq<Byte>)
    ensures Hex(a + b) == Hex(a) + Hex(b)
  {
    if b == [] {
      assert a + b == a;
    } else {
      assert (a + b)[..|a + b| - 1] == a + b[..|b| - 1];
      HexOfBoth(a, b[..|b| - 1]);
    }
  }

  lemma HexMore(bytes: seq<Byte>, i: nat)
    requires i < |bytes|
    ensures Hex(bytes[..i + 1]) == Hex(bytes[..i]) + HexPair(bytes[i])
  {
    assert bytes[..i + 1][..i] == bytes[..i];
  }

  /** Byte k is at characters 2k and 2k + 1, high half first. */
  lemma {:induction false} HexAt(bytes: seq<Byte>, k: nat)
    requires k < |bytes|
    ensures Hex(bytes)[2 * k] == "0123456789abcdef"[bytes[k] / 16]
    ensures Hex(bytes)[2 * k + 1] == "0123456789abcdef"[bytes[k] % 16]
  {
    if k < |bytes| - 1 {
      HexAt(bytes[..|bytes| - 1], k);
    }
  }

  lemma HexOfColon()
    ensures Hex([COLON]) == "3a"
  {
    assert Hex([COLON]) == Hex([COLON][..0]) + HexPair(COLON);
  }

  /** bin2hex of maxinfo_func.cpp fills an array by index. */
  method Bin2HexInPlace(bytes: seq<Byte>) returns (result: array<char>)
    ensures Holds(result, Hex(bytes)) && result.Length == 2 * |bytes| + 1
    ensures forall k :: 0 <= k < |bytes| ==>
      && result[2 * k] == "0123456789abcdef"[bytes[k] / 16]
      && result[2 * k + 1] == "0123456789abcdef"[bytes[k] % 16]
  {
    result := new char[2 * |bytes| + 1];
    var j: nat := 0;
    for i := 0 to |bytes|
      invariant j == 2 * i && result[..j] == Hex(bytes[..i]) && NulFree(result[..j])
    {
      HexMore(bytes, i);
      result[j] := HexDigit(bytes[i] / 16);
      j := j + 1;
      result[j] := HexDigit(bytes[i] % 16);
      j := j + 1;
      assert result[..j] == result[..2 * i] + [HexDigit(bytes[i] / 16), HexDigit(bytes[i] % 16)];
    }
    result[j] := NUL;
    assert bytes[..|bytes|] == bytes;
    forall k | 0 <= k < |bytes|
      ensures result[2 * k] == Hex(bytes)[2 * k] && result[2 * k + 1] == Hex(bytes)[2 * k + 1]
      ensures Hex(bytes)[2 * k] == "0123456789abcdef"[bytes[k] / 16]
      ensures Hex(bytes)[2 * k + 1] == "0123456789abcdef"[bytes[k] % 16]
    {
      HexAt(bytes, k);
      assert result[..j][2 * k] == result[2 * k] && result[..j][2 * k + 1] == result[2 * k + 1];
    }
  }

  /** bin2hex of cdc_connector.cpp appends to a string. */
  method Bin2HexAppending(data: seq<Byte>) returns (result: string)
    ensures result == Hex(data) && |result| == 2 * |data|
    ensures forall k :: 0 <= k < |data| ==>
      && result[2 * k] == "0123456789abcdef"[data[k] / 16]
      && result[2 * k + 1] == "0123456789abcdef"[data[k] % 16]
  {
    result := "";
    for i := 0 to |data|
      invariant result == Hex(data[..i])
    {
      HexMore(data, i);
      result := result + [HexDigit(data[i] / 16)];
      result := result + [HexDigit(data[i] % 16)];
    }
    assert data[..|data|] == data;
    forall k | 0 <= k < |data|
      ensures Hex(data)[2 * k] == "0123456789abcdef"[data[k] / 16]
      ensures Hex(data)[2 * k + 1] == "0123456789abcdef"[data[k] % 16]
    {
      HexAt(data, k);
    }
  }

  /** What both sides mean: user, colon and digest, in hexadecimal. */
  function AuthString(user: seq<Byte>, digest: seq<Byte>): string {
    Hex(user + [COLON] + digest)
  }

  /**
   cdc_auth_srt; user and password are C strings, and sha1 is the digest function. size is that
   of the block allocated for the text: it has room for all characters of the text but not for
   its terminator, whoever the user is.
   */
  method CdcAuthSrt(user: seq<Byte>, password: seq<Byte>, sha1: seq<Byte> -> seq<Byte>)
    returns (str: string, size: nat)
    requires 0 !in user && 0 !in password && |sha1(password)| == DIGEST_LENGTH
    ensures str == AuthString(user, sha1(password))
    ensures str == Hex(user) + "3a" + Hex(sha1(password))
    ensures size == 2 * |user| + 42 && NulFree(str) && |str| == size
  {
    size := 42 + |user| * 2;
    var sha1pass := sha1(password);
    var sha1passHex := Bin2HexInPlace(sha1pass);
    var userHex := Bin2HexInPlace(user);
    var clmnHex := Bin2HexInPlace([COLON]);
    var m := FindNul(userHex, 0, Hex(user));
    var c := FindNul(clmnHex, 0, Hex([COLON]));
    var n := FindNul(sha1passHex, 0, Hex(sha1pass));
    str := userHex[..m] + clmnHex[..c] + sha1passHex[..n];
    HexOfBoth(user, [COLON]);
    HexOfBoth(user + [COLON], sha1pass);
    HexOfColon();
    assert NulFree(Hex(user)) && NulFree(Hex([COLON])) && NulFree(Hex(sha1pass));
  }

  method GenerateAuthString(user: seq<Byte>, password: seq<Byte>, sha1: seq<Byte> -> seq<Byte>) returns (str: string)
    requires |sha1(password)| == DIGEST_LENGTH
    ensures str == AuthString(user, sha1(password))
    ensures str == Hex(user) + "3a" + Hex(sha1(password))
  {
    var digest := sha1(password);
    var authStr := user;
    authStr := authStr + [COLON];
    var part1 := Bin2HexAppending(authStr);
    var part2 := Bin2HexAppending(digest);
    HexOfBoth(user + [COLON], digest);
    HexOfBoth(user, [COLON]);
    HexOfColon();
    return part1 + part2;
  }

  /** What a server reads from the string: the last twenty bytes, and what is before the colon. */
  function Decoded(s: string): Option<(seq<Byte>, seq<Byte>)> {
    var bytes := Unhex(s);
    var n := |bytes| - DIGEST_LENGTH - 1;
    if n < 0 || bytes[n] != COLON then None else Some((bytes[..n], bytes[n + 1..]))
  }

  /** The string determines the user and the digest, even for a user name with a colon in it. */
  lemma AuthStringDecodes(user: seq<Byte>, digest: seq<Byte>)
    requires |digest| == DIGEST_LENGTH
    ensures Decoded(AuthString(user, digest)) == Some((user, digest))
  {
    var bytes := user + [COLON] + digest;
    UnhexUndoesHex(bytes);
    assert bytes[..|user|] == user && bytes[|user|] == COLON && bytes[|user| + 1..] == digest;
  }

  lemma AuthStringsDiffer(user: seq<Byte>, digest: seq<Byte>, user': seq<Byte>, digest': seq<Byte>)
    requires |digest| == |digest'| == DIGEST_LENGTH
    ensures AuthString(user, digest) == AuthString(user', digest') <==> user == user' && digest == digest'
  {
    AuthStringDecodes(user, digest);
    AuthStringDecodes(user', digest');
  }
}
