/**
 NUL-terminated text in a fixed character buffer, and the libc calls the helpers use on it.
 Every method works in place; an index out of the buffer would be a verification error.
 */
module CStrings {
  import opened Options

  const NUL: char := '\0'

  predicate NulFree(s: string) {
    forall k :: 0 <= k < |s| ==> s[k] != NUL
  }

  /** Buffer a holds exactly the C string t. */
  ghost predicate Holds(a: array<char>, t: string)
    reads a
  {
    |t| < a.Length && a[..|t|] == t && a[|t|] == NUL && NulFree(t)
  }

  /** What a C reader sees of s: the text before the first NUL. */
  function CStr(s: string): (t: string)
    ensures NulFree(t) && t <= s && (|t| < |s| ==> s[|t|] == NUL)
  {
    if s == "" || s[0] == NUL then "" else
    var t := [s[0]] + CStr(s[1..]);
    assert forall k :: 0 <= k < |t| ==> t[k] == s[k] && t[k] != NUL;
    t
  }

  /** The bytes of successive reads, in order. */
  function Flat(chunks: seq<string>): string {
    if chunks == [] then "" else Flat(chunks[..|chunks| - 1]) + chunks[|chunks| - 1]
  }

  /** A C reader sees all of s exactly when s has no NUL. */
  lemma CStrIsAll(s: string)
    ensures |CStr(s)| == |s| <==> NulFree(s)
    ensures CStr(s) == s <==> NulFree(s)
  {
    if |CStr(s)| < |s| {
      assert s[|CStr(s)|] == NUL;
    } else {
      assert CStr(s) == s;
    }
  }

  /** A buffer holds one string only. */
  lemma HoldsIsUnique(a: array<char>, t: string, u: string)
    requires Holds(a, t) && Holds(a, u)
    ensures t == u
  {
    assert forall k :: 0 <= k < |t| ==> t[k] == a[..|t|][k] == a[k];
    assert forall k :: 0 <= k < |u| ==> u[k] == a[..|u|][k] == a[k];
  }

  /** strchr(a + from, '\0') */
  method FindNul(a: array<char>, from: nat, ghost t: string) returns (p: nat)
    requires Holds(a, t) && from <= |t|
    ensures p == |t|
  {
    p := from;
    assert forall k :: 0 <= k < |t| ==> a[k] == a[..|t|][k] == t[k];
    while a[p] != NUL
      invariant from <= p <= |t|
      decreases |t| - p
    {
      p := p + 1;
    }
  }

  /** strrchr(a + from, c) for a character c other than NUL. */
  method FindLast(a: array<char>, from: nat, c: char, ghost t: string) returns (p: Option<nat>)
    requires Holds(a, t) && from <= |t| && c != NUL
    ensures match p
      case None => forall k :: from <= k < |t| ==> t[k] != c
      case Some(q) => from <= q < |t| && t[q] == c && forall k :: q < k < |t| ==> t[k] != c
  {
    p := None;
    var j := from;
    assert forall k :: 0 <= k < |t| ==> a[k] == a[..|t|][k] == t[k];
    while a[j] != NUL
      invariant from <= j <= |t|
      invariant match p
        case None => forall k :: from <= k < j ==> t[k] != c
        case Some(q) => from <= q < j && t[q] == c && forall k :: q < k < j ==> t[k] != c
      decreases |t| - j
    {
      if a[j] == c {
        p := Some(j);
      }
      j := j + 1;
    }
  }

  /** sprintf(a + at, "%s", s): the text of s and a NUL, over what was there. */
  method PrintAt(a: array<char>, at: nat, s: string)
    requires NulFree(s) && at + |s| < a.Length
    modifies a
    ensures forall k :: 0 <= k < at || at + |s| < k < a.Length ==> a[k] == old(a[k])
    ensures forall k :: 0 <= k < |s| ==> a[at + k] == s[k]
    ensures a[at + |s|] == NUL
  {
    for k := 0 to |s|
      invariant forall j :: 0 <= j < at || at + k <= j < a.Length ==> a[j] == old(a[j])
      invariant forall j :: 0 <= j < k ==> a[at + j] == s[j]
    {
      a[at + k] := s[k];
    }
    a[at + |s|] := NUL;
  }

  /** strcpy(a, s) */
  method StrCpy(a: array<char>, s: string)
    requires NulFree(s) && |s| < a.Length
    modifies a
    ensures Holds(a, s)
  {
    PrintAt(a, 0, s);
    assert a[..|s|] == s;
  }

  /** Printing over the tail of a string truncates it there and appends. */
  method PrintOver(a: array<char>, at: nat, s: string, ghost t: string)
    requires Holds(a, t) && at <= |t| && NulFree(s) && at + |s| < a.Length
    modifies a
    ensures Holds(a, t[..at] + s)
  {
    assert a[..at] == a[..|t|][..at] == t[..at];
    PrintAt(a, at, s);
    assert a[..at] == t[..at] && a[at..at + |s|] == s;
    assert a[..at + |s|] == t[..at] + s;
  }

  /** strcat(dst, src) */
  method StrCat(dst: array<char>, src: array<char>, ghost t: string, ghost u: string)
    requires dst != src && Holds(dst, t) && Holds(src, u)
    requires |t| + |u| < dst.Length
    modifies dst
    ensures Holds(dst, t + u)
  {
    var p := FindNul(dst, 0, t);
    var n := FindNul(src, 0, u);
    var text := src[..n];
    PrintOver(dst, p, text, t);
    assert t[..p] == t;
  }

  /** malloc(size) or realloc(old, size): the old contents, then whatever the heap held. */
  method Realloc(a: array<char>, size: nat) returns (r: array<char>)
    requires a.Length <= size
    ensures fresh(r) && r.Length == size && r[..a.Length] == a[..]
  {
    r := new char[size];
    for k := 0 to a.Length
      invariant r[..k] == a[..k]
    {
      r[k] := a[k];
    }
  }
}
