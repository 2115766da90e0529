/**
 The readers that collect text of unknown length in a heap buffer they grow as they go:
 read_sc and get_maxinfo from a socket, execute_cmd and ssh_node_output from a pipe; and
 send_so, which pushes a text out through partial writes. Every copy is in place, so a write
 past the allocated size would be a verification error.
 */
module GrowingBuffers {
  import opened CStrings
  import opened Options

  const BUFSIZ := 8192

  /** What strcat makes of the chunks: each of them up to its first NUL. */
  function Joined(chunks: seq<string>): string {
    if chunks == [] then "" else Joined(chunks[..|chunks| - 1]) + CStr(chunks[|chunks| - 1])
  }

  /** The text comes through whole exactly if no chunk has a NUL in it. */
  lemma {:induction false} WholeIfNulFree(chunks: seq<string>)
    ensures |Joined(chunks)| <= |Flat(chunks)|
    ensures |Joined(chunks)| == |Flat(chunks)| <==> forall k :: 0 <= k < |chunks| ==> NulFree(chunks[k])
    ensures (forall k :: 0 <= k < |chunks| ==> NulFree(chunks[k])) ==> Joined(chunks) == Flat(chunks)
  {
    if chunks != [] {
      var before, last := chunks[..|chunks| - 1], chunks[|chunks| - 1];
      WholeIfNulFree(before);
      CStrIsAll(last);
      assert forall k :: 0 <= k < |chunks| ==> chunks[k] == if k < |before| then before[k] else last;
    }
  }

  predicate Zeroed(s: string) {
    forall k :: 0 <= k < |s| ==> s[k] == NUL
  }

  /** recv: the bytes go to the start of the buffer, with no terminator of their own. */
  method Recv(buf: array<char>, chunk: string)
    requires |chunk| < buf.Length && Zeroed(buf[..])
    modifies buf
    ensures buf[..|chunk|] == chunk && Zeroed(buf[|chunk|..]) && Holds(buf, CStr(chunk))
  {
    assert forall k :: 0 <= k < buf.Length ==> buf[k] == buf[..][k] == NUL;
    for k := 0 to |chunk|
      invariant forall j :: 0 <= j < k ==> buf[j] == chunk[j]
      invariant forall j :: k <= j < buf.Length ==> buf[j] == NUL
    {
      buf[k] := chunk[k];
    }
    assert buf[..|chunk|] == chunk;
    assert buf[..|CStr(chunk)|] == CStr(chunk);
    assert |CStr(chunk)| < |chunk| ==> buf[|CStr(chunk)|] == chunk[|CStr(chunk)|];
  }

  /** memset(buf, 0, n) */
  method Clear(buf: array<char>, n: nat)
    requires n <= buf.Length && Zeroed(buf[n..])
    modifies buf
    ensures Zeroed(buf[..])
  {
    assert forall k :: n <= k < buf.Length ==> buf[k] == buf[n..][k - n] == NUL;
    for k := 0 to n
      invariant forall j :: 0 <= j < k || n <= j < buf.Length ==> buf[j] == NUL
    {
      buf[k] := NUL;
    }
  }

  /** realloc, then strcat: one chunk more. */
  method Grow(result: array<char>, size: nat, src: array<char>, ghost t: string, ghost u: string)
    returns (r: array<char>)
    requires Holds(result, t) && Holds(src, u) && result.Length <= size && |t| + |u| < size
    ensures fresh(r) && r.Length == size && Holds(r, t + u)
  {
    r := Realloc(result, size);
    assert r[..|t|] == r[..result.Length][..|t|] == result[..][..|t|];
    assert r[|t|] == r[..result.Length][|t|] == result[..][|t|];
    StrCat(r, src, t, u);
  }

  /**
   read_sc: chunks are what recv returns until it gives nothing or fails. The scratch buffer
   is all zero whenever a chunk arrives, which is what terminates the chunk.
   */
  method ReadSc(chunks: seq<string>) returns (result: array<char>)
    requires forall k :: 0 <= k < |chunks| ==> 0 < |chunks[k]| <= BUFSIZ
    ensures Holds(result, Joined(chunks))
    ensures result.Length == 8192 + if chunks == [] then 0 else 1 + |Flat(chunks)|
  {
    var buf := new char[BUFSIZ + 1](_ => NUL);
    result := new char[BUFSIZ](_ => NUL);
    var rsize := BUFSIZ + 1;
    var k := 0;
    while k < |chunks|
      invariant 0 <= k <= |chunks|
      invariant fresh(buf) && fresh(result) && buf != result
      invariant buf.Length == BUFSIZ + 1 && Zeroed(buf[..])
      invariant rsize == BUFSIZ + 1 + |Flat(chunks[..k])| && result.Length == if k == 0 then BUFSIZ else rsize
      invariant |Joined(chunks[..k])| + BUFSIZ < rsize
      invariant Holds(result, Joined(chunks[..k]))
    {
      var tmpres := |chunks[k]|;
      Recv(buf, chunks[k]);
      assert chunks[..k + 1][..k] == chunks[..k];
      result := Grow(result, tmpres + rsize, buf, Joined(chunks[..k]), CStr(chunks[k]));
      rsize := rsize + tmpres;
      Clear(buf, tmpres);
      k := k + 1;
    }
    assert chunks[..k] == chunks;
  }

  /** The receiving half of get_maxinfo: nothing after an error, else the reply from its first '[' on. */
  method GetMaxinfo(chunks: seq<string>, failed: bool) returns (content: Option<string>)
    requires forall k :: 0 <= k < |chunks| ==> 0 < |chunks[k]| <= BUFSIZ
    ensures var text := Joined(chunks);
      match content
      case None => failed || '[' !in text
      case Some(c) =>
        && !failed && c != "" && c[0] == '[' && |c| <= |text|
        && c == text[|text| - |c|..] && '[' !in text[..|text| - |c|]
  {
    var result := ReadSc(chunks);
    if failed {
      return None;
    }
    var end := FindNul(result, 0, Joined(chunks));
    content := FromBracket(result[..end]);
  }

  /** strchr(text, '[') */
  method FromBracket(text: string) returns (content: Option<string>)
    ensures match content
      case None => '[' !in text
      case Some(c) =>
        && c != "" && c[0] == '[' && |c| <= |text|
        && c == text[|text| - |c|..] && '[' !in text[..|text| - |c|]
  {
    var at := 0;
    while at < |text| && text[at] != '['
      invariant 0 <= at <= |text| && '[' !in text[..at]
    {
      at := at + 1;
    }
    if at == |text| {
      assert text[..at] == text;
      return None;
    }
    return Some(text[at..]);
  }

  // ----- from a pipe

  /** How much fgets takes: up to and including a line break, but at most m characters. */
  function LineLength(s: string, m: nat): (n: nat)
    ensures n <= |s| && n <= m && (s != "" && m > 0 ==> n > 0)
  {
    if s == "" || m == 0 then 0
    else if s[0] == '\n' then 1
    else 1 + LineLength(s[1..], m - 1)
  }

  lemma {:induction false} FlatNulFree(chunks: seq<string>)
    ensures NulFree(Flat(chunks)) <==> forall k :: 0 <= k < |chunks| ==> NulFree(chunks[k])
  {
    if chunks != [] {
      var before, last := chunks[..|chunks| - 1], chunks[|chunks| - 1];
      FlatNulFree(before);
      NulFreeBoth(Flat(before), last);
      assert forall k :: 0 <= k < |chunks| ==> chunks[k] == if k < |before| then before[k] else last;
    }
  }

  lemma NulFreeBoth(s: string, t: string)
    ensures NulFree(s + t) <==> NulFree(s) && NulFree(t)
  {
    assert forall k :: 0 <= k < |t| ==> (s + t)[|s| + k] == t[k];
    assert forall k :: 0 <= k < |s| ==> (s + t)[k] == s[k];
  }

  lemma JoinedIsWhole(chunks: seq<string>)
    ensures Joined(chunks) == Flat(chunks) <==> NulFree(Flat(chunks))
  {
    WholeIfNulFree(chunks);
    FlatNulFree(chunks);
  }

  /** Pieces that fit a buffer of this size with their terminator. */
  predicate Fit(lines: seq<string>, size: nat) {
    forall k :: 0 <= k < |lines| ==> 0 < |lines[k]| < size
  }

  /** A piece that fgets ended itself: at a line break, or because its buffer was full. */
  predicate Full(line: string, size: nat) {
    line != "" && (line[|line| - 1] == '\n' || |line| == size - 1) && '\n' !in line[..|line| - 1]
  }

  predicate AllFull(lines: seq<string>, size: nat) {
    forall k :: 0 <= k < |lines| ==> Full(lines[k], size)
  }

  /** Only the last piece may end with the output. */
  predicate CutByFgets(lines: seq<string>, size: nat) {
    lines == [] || (
      && AllFull(lines[..|lines| - 1], size)
      && lines[|lines| - 1] != "" && '\n' !in lines[|lines| - 1][..|lines[|lines| - 1]| - 1])
  }

  lemma {:induction false} LineLengthCuts(s: string, m: nat)
    requires s != "" && m > 0
    ensures var n := LineLength(s, m);
      && 0 < n <= |s| && '\n' !in s[..n - 1] && (n < |s| ==> s[n - 1] == '\n' || n == m)
    decreases m
  {
    if s[0] != '\n' && |s| > 1 && m > 1 {
      LineLengthCuts(s[1..], m - 1);
      var n := LineLength(s, m);
      assert s[..n - 1] == [s[0]] + s[1..][..n - 2];
    }
  }

  lemma OneBlockMore(size: nat, n: nat)
    ensures size * (n + 1) + size == size * (n + 2) && size * (n + 2) >= size
  {
  }

  lemma OneMoreCut(lines: seq<string>, rest: string, n: nat, size: nat)
    requires size > 1 && rest != "" && n == LineLength(rest, size - 1) && AllFull(lines, size)
    ensures 0 < n <= |rest|
    ensures var more := lines + [rest[..n]];
      if n < |rest| then AllFull(more, size) else CutByFgets(more, size)
  {
    LineLengthCuts(rest, size - 1);
    var more := lines + [rest[..n]];
    assert more[..|more| - 1] == lines;
    assert rest[..n][..n - 1] == rest[..n - 1];
  }

  /** One piece more of the output. */
  lemma OneMore(lines: seq<string>, output: string, pos: nat, n: nat, size: nat)
    requires pos + n <= |output| && 0 < n < size && Flat(lines) == output[..pos] && Fit(lines, size)
    ensures var more := lines + [output[pos..pos + n]];
      && Flat(more) == output[..pos + n] && Fit(more, size)
      && Joined(more) == Joined(lines) + CStr(output[pos..pos + n])
  {
    var line := output[pos..pos + n];
    assert (lines + [line])[..|lines|] == lines;
    assert output[..pos] + line == output[..pos + n];
  }

  /**
   The loop of execute_cmd (size 10240) and of ssh_node_output (size 1024). The buffer is
   not cleared between lines; fgets terminates what it puts there. The output comes through
   whole exactly if it has no NUL in it, wherever fgets cuts it.
   */
  method ReadPipe(output: string, size: nat) returns (result: array<char>, ghost lines: seq<string>)
    requires size > 1
    ensures Flat(lines) == output && Fit(lines, size) && CutByFgets(lines, size)
    ensures Holds(result, Joined(lines)) && result.Length == size * (|lines| + 1)
    ensures Joined(lines) == output <==> NulFree(output)
    ensures NulFree(output) ==> Holds(result, output)
  {
    var buffer := new char[size];
    result := new char[size](_ => NUL);
    var rsize := size;
    var pos: nat := 0;
    lines := [];
    while pos < |output|
      invariant pos <= |output| && Flat(lines) == output[..pos] && Fit(lines, size)
      invariant if pos < |output| then AllFull(lines, size) else CutByFgets(lines, size)
      invariant rsize == size * (|lines| + 1)
      invariant fresh(buffer) && fresh(result) && buffer != result && buffer.Length == size
      invariant result.Length == rsize && Holds(result, Joined(lines))
      decreases |output| - pos
    {
      var n := LineLength(output[pos..], size - 1);
      var line := output[pos..pos + n];
      OneMoreCut(lines, output[pos..], n, size);
      assert line == output[pos..][..n];
      OneBlockMore(size, |lines|);
      result := AppendLine(result, size + rsize, buffer, line, Joined(lines));
      rsize := rsize + size;
      OneMore(lines, output, pos, n, size);
      lines := lines + [line];
      pos := pos + n;
    }
    assert output[..pos] == output;
    JoinedIsWhole(lines);
  }

  method AppendLine(result: array<char>, size: nat, buffer: array<char>, line: string, ghost text: string)
    returns (r: array<char>)
    requires Holds(result, text) && buffer != result && |line| < buffer.Length
    requires result.Length + buffer.Length == size
    modifies buffer
    ensures fresh(r) && r.Length == size && Holds(r, text + CStr(line))
  {
    Fgets(buffer, line);
    r := Grow(result, size, buffer, text, CStr(line));
  }

  /** fgets, given the characters it takes. */
  method Fgets(buffer: array<char>, line: string)
    requires |line| < buffer.Length
    modifies buffer
    ensures Holds(buffer, CStr(line))
  {
    for k := 0 to |line|
      invariant forall j :: 0 <= j < k ==> buffer[j] == line[j]
    {
      buffer[k] := line[k];
    }
    buffer[|line|] := NUL;
    assert buffer[..|CStr(line)|] == CStr(line);
    assert |CStr(line)| < |line| ==> buffer[|CStr(line)|] == line[|CStr(line)|];
  }

  // ----- send_so

  /** The end of send_so: 0, -1, or none yet because sends have taken too little so far. */
  datatype Progress = AllSent | SendFailed | StillSending

  function Total(taken: seq<int>): int {
    if taken == [] then 0 else Total(taken[..|taken| - 1]) + taken[|taken| - 1]
  }

  function Least(a: int, b: int): int {
    if a <= b then a else b
  }

  /**
   taken lists what the sends report in turn: how much each took, or -1. After k of them the
   wire has a prefix of the data without gap or repetition. Sending ends with the first send that
   completes the data, or with the first error before that.
   */
  method SendSo(data: string, taken: seq<int>) returns (progress: Progress, wire: string, ghost k: nat)
    requires forall j :: 0 <= j < |taken| ==> taken[j] >= -1
    ensures k <= |taken| && -1 !in taken[..k]
    ensures 0 <= Total(taken[..k]) && wire == data[..Least(Total(taken[..k]), |data|)]
    ensures progress == AllSent <==> wire == data
    ensures progress == AllSent && k > 0 ==> Total(taken[..k - 1]) < |data|
    ensures progress == SendFailed ==> k < |taken| && taken[k] == -1
    ensures progress == StillSending ==> k == |taken|
  {
    wire := "";
    var sent, next := 0, 0;
    k := 0;
    while sent < |data|
      invariant k == next <= |taken| && -1 !in taken[..k]
      invariant 0 <= Total(taken[..k]) && sent == Least(Total(taken[..k]), |data|) && wire == data[..sent]
      invariant k > 0 ==> Total(taken[..k - 1]) < |data|
      decreases |taken| - next
    {
      if next == |taken| {
        return StillSending, wire, k;
      }
      var tmpres := taken[next];
      if tmpres == -1 {
        return SendFailed, wire, k;
      }
      var n := Least(tmpres, |data| - sent);
      wire := wire + data[sent..][..n];
      assert taken[..k + 1][..k] == taken[..k];
      sent := sent + n;
      next := next + 1;
      k := k + 1;
      assert wire == data[..sent];
    }
    return AllSent, wire, k;
  }
}
