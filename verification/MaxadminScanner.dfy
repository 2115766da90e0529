/**
 The maxadmin reply: the byte scanner of sendCommand, which ends a reply at an "OK" that
 starts a line and ends a read, and the extraction of one parameter from the reply.
 */
module MaxadminScanner {
  import opened Options
  import opened CStrings

  predicate LineBreak(c: char) {
    c == '\n' || c == '\r'
  }

  /**
   The scanner's variable newline after the text so far: 1 at the start of a line, 2 behind
   an 'O' that starts a line and is held back, 0 anywhere else.
   */
  function LineState(text: string): (state: int)
    ensures state == 0 || state == 1 || state == 2
  {
    if text == "" then 1 else
    var before, c := LineState(text[..|text| - 1]), text[|text| - 1];
    if before == 1 && c == 'O' then 2
    else if before == 2 then 0
    else if LineBreak(c) then 1
    else 0
  }

  /** The text without an 'O' that is held back. */
  function Visible(text: string): string {
    if LineState(text) == 2 then text[..|text| - 1] else text
  }

  /** The text ends with an "OK" that starts a line. */
  predicate EndsReply(text: string) {
    |text| >= 2 && text[|text| - 2..] == "OK" && LineState(text[..|text| - 2]) == 1
  }

  /** chunks[..n] are received that brought something and did not end the reply. */
  ghost predicate Unfinished(chunks: seq<string>, n: nat) {
    n <= |chunks| && forall q :: 0 <= q < n ==> chunks[q] != "" && !EndsReply(Flat(chunks[..q + 1]))
  }

  /** How a call that got its command out ends: rc, the text left in the buffer, the reads made. */
  ghost predicate Outcome(chunks: seq<string>, rc: int, out: string, received: nat) {
    && received <= |chunks|
    && (rc == 0 || rc == 1)
    && (rc == 1 ==>
          && received > 0 && Unfinished(chunks, received - 1) && chunks[received - 1] != ""
          && EndsReply(Flat(chunks[..received])) && Flat(chunks[..received]) == out + "OK")
    && (rc == 0 ==>
          && Unfinished(chunks, received) && (received == |chunks| || chunks[received] == "")
          && out == Visible(Flat(chunks[..received])))
  }

  /** Scanning this far, short of the end of the reply, puts more than size bytes into the buffer. */
  ghost predicate TooLong(chunks: seq<string>, size: nat, received: nat, seen: string) {
    && received < |chunks| && Unfinished(chunks, received) && chunks[received] != ""
    && Flat(chunks[..received]) <= seen <= Flat(chunks[..received + 1])
    && |Visible(seen)| > size && !(seen == Flat(chunks[..received + 1]) && EndsReply(seen))
  }

  /** Nothing is lost on the way: the text read is the text kept, and the marker or a held 'O'. */
  predicate AllKept(text: string, rc: int, out: string) {
    text == out + if rc == 1 then "OK" else if LineState(text) == 2 then "O" else ""
  }

  /** The scanner's variables agree with the text seen so far, which has fitted. */
  ghost predicate InStep(seen: string, newline: int, buf: array<char>, size: nat, k: nat)
    reads buf
  {
    newline == LineState(seen) && k <= size <= buf.Length && buf[..k] == Visible(seen)
  }

  /** The reply goes on, has ended, or does not fit. */
  datatype Scan = More | Done | Full

  /**
   The scanner. chunks are the results of the successive reads; an empty one, or the end of
   the list, is a read that fails or reports the end of the stream. buf is filled from 0 to k
   and not terminated; received counts the chunks consumed. Only the first size characters are
   meant for the reply: the source writes on behind them, and overflow tells of that.
   */
  method SendCommand(written: bool, chunks: seq<string>, buf: array<char>, size: nat)
    returns (rc: int, k: nat, overflow: bool, ghost received: nat, ghost seen: string)
    requires size <= buf.Length
    modifies buf
    ensures k <= size && forall i :: k <= i < buf.Length ==> buf[i] == old(buf[i])
    ensures !written ==> rc == 0 && k == 0 && !overflow
    ensures overflow ==> TooLong(chunks, size, received, seen)
    ensures written && !overflow ==> Outcome(chunks, rc, buf[..k], received)
    ensures written && !overflow ==> AllKept(Flat(chunks[..received]), rc, buf[..k])
  {
    k, received, overflow, seen := 0, 0, false, "";
    if !written {
      return 0, 0, false, 0, "";
    }
    var newline, made := 1, 0;
    while true
      invariant received == made <= |chunks| && Unfinished(chunks, received)
      invariant InStep(Flat(chunks[..received]), newline, buf, size, k)
      invariant forall i :: k <= i < buf.Length ==> buf[i] == old(buf[i])
      decreases |chunks| - received
    {
      if made == |chunks| || chunks[made] == "" {
        EndOfStream(chunks, buf[..k], received);
        return 0, k, false, received, "";
      }
      FlatStep(chunks, received);
      var status;
      status, newline, k, seen := ScanRead(chunks[made], buf, size, newline, k, Flat(chunks[..received]));
      if status == Full {
        return 0, k, true, received, seen;
      } else if status == Done {
        EndOfReply(chunks, buf[..k], received + 1);
        return 1, k, false, received + 1, "";
      }
      StillUnfinished(chunks, received);
      made, received := made + 1, received + 1;
    }
  }

  lemma EndOfStream(chunks: seq<string>, out: string, received: nat)
    requires Unfinished(chunks, received) && (received == |chunks| || chunks[received] == "")
    requires out == Visible(Flat(chunks[..received]))
    ensures Outcome(chunks, 0, out, received) && AllKept(Flat(chunks[..received]), 0, out)
  {
    Lossless(chunks, 0, out, received);
  }

  lemma EndOfReply(chunks: seq<string>, out: string, received: nat)
    requires 0 < received <= |chunks| && Unfinished(chunks, received - 1) && chunks[received - 1] != ""
    requires EndsReply(Flat(chunks[..received])) && Flat(chunks[..received]) == out + "OK"
    ensures Outcome(chunks, 1, out, received) && AllKept(Flat(chunks[..received]), 1, out)
  {
    Lossless(chunks, 1, out, received);
  }

  lemma StillUnfinished(chunks: seq<string>, n: nat)
    requires Unfinished(chunks, n) && n < |chunks| && chunks[n] != "" && !EndsReply(Flat(chunks[..n + 1]))
    ensures Unfinished(chunks, n + 1)
  {
  }

  lemma PartOfRead(start: string, buf1: string, j: nat)
    requires j < |buf1|
    ensures start + buf1[..j + 1] == start + buf1[..j] + [buf1[j]]
    ensures start <= start + buf1[..j + 1] <= start + buf1
    ensures j + 1 == |buf1| ==> start + buf1[..j + 1] == start + buf1
    ensures j + 1 < |buf1| ==> start + buf1[..j + 1] != start + buf1
  {
    assert (start + buf1)[..|start| + j + 1] == start + buf1[..j + 1];
    assert j + 1 == |buf1| ==> buf1[..j + 1] == buf1;
  }

  /** The inner loop: the bytes of one read. */
  method ScanRead(buf1: string, buf: array<char>, size: nat, newline: int, k: nat, ghost start: string)
    returns (status: Scan, newline': int, k': nat, ghost seen: string)
    requires buf1 != "" && InStep(start, newline, buf, size, k)
    modifies buf
    ensures status == Done ==> EndsReply(start + buf1) && k' <= size && start + buf1 == buf[..k'] + "OK"
    ensures status == More ==> !EndsReply(start + buf1) && InStep(start + buf1, newline', buf, size, k')
    ensures status == Full ==> start <= seen <= start + buf1 && |Visible(seen)| > size && k' <= size
    ensures status == Full ==> !(seen == start + buf1 && EndsReply(seen))
    ensures k <= k' && forall i :: k' <= i < buf.Length ==> buf[i] == old(buf[i])
  {
    newline', k', status, seen := newline, k, More, start;
    var j := 0;
    while j < |buf1|
      invariant 0 <= j <= |buf1| && seen == start + buf1[..j] && status == More
      invariant InStep(seen, newline', buf, size, k')
      invariant k <= k' && forall i :: k' <= i < buf.Length ==> buf[i] == old(buf[i])
      invariant j == |buf1| ==> seen == start + buf1 && !EndsReply(seen)
    {
      PartOfRead(start, buf1, j);
      status, newline', k' := ScanByte(buf1[j], j == |buf1| - 1, buf, size, newline', k', seen);
      seen := seen + [buf1[j]];
      j := j + 1;
      if status != More {
        return;
      }
    }
  }

  /** One byte; last says whether it is the last one of its read. */
  method ScanByte(c: char, last: bool, buf: array<char>, size: nat, newline: int, k: nat, ghost seen: string)
    returns (status: Scan, newline': int, k': nat)
    requires InStep(seen, newline, buf, size, k)
    modifies buf
    ensures k <= k' <= size && forall i :: k' <= i < buf.Length ==> buf[i] == old(buf[i])
    ensures status == Done <==> last && EndsReply(seen + [c])
    ensures status == Full <==> !(last && EndsReply(seen + [c])) && |Visible(seen + [c])| > size
    ensures status == Done ==> seen + [c] == buf[..k'] + "OK"
    ensures status == More ==> InStep(seen + [c], newline', buf, size, k')
  {
    StateStep(seen, c);
    status, newline', k' := More, newline, k;
    if newline == 1 && c == 'O' {
      newline' := 2;
    } else if newline == 2 && c == 'K' && last {
      status := Done;
    } else if newline == 2 {
      if k + 2 > size {
        return Full, newline, k;
      }
      buf[k'] := 'O';
      k' := k' + 1;
      buf[k'] := c;
      k' := k' + 1;
      newline' := 0;
      assert buf[..k'] == buf[..k] + "O" + [c];
    } else {
      if k + 1 > size {
        return Full, newline, k;
      }
      buf[k'] := c;
      k' := k' + 1;
      newline' := if LineBreak(c) then 1 else 0;
      assert buf[..k'] == buf[..k] + [c];
    }
  }

  lemma StateStep(text: string, c: char)
    ensures var next := text + [c];
      && LineState(next) == (
        if LineState(text) == 1 && c == 'O' then 2
        else if LineState(text) == 2 then 0
        else if LineBreak(c) then 1
        else 0)
      && Visible(next) == (if LineState(next) == 2 then text else next)
      && (LineState(text) == 2 ==> text == Visible(text) + "O")
      && (EndsReply(next) <==> LineState(text) == 2 && c == 'K')
  {
    var next := text + [c];
    assert next[..|next| - 1] == text;
    if |text| > 0 {
      assert next[..|next| - 2] == text[..|text| - 1];
      assert next[|next| - 2..] == [text[|text| - 1], c];
      assert text == text[..|text| - 1] + [text[|text| - 1]];
    }
  }

  lemma FlatStep(chunks: seq<string>, n: nat)
    requires n < |chunks|
    ensures Flat(chunks[..n + 1]) == Flat(chunks[..n]) + chunks[n]
  {
    assert chunks[..n + 1][..n] == chunks[..n];
  }

  lemma {:induction false} FlatGrows(chunks: seq<string>, m: nat, n: nat)
    requires m <= n <= |chunks|
    ensures Flat(chunks[..m]) <= Flat(chunks[..n])
    decreases n - m
  {
    if m < n {
      FlatStep(chunks, m);
      FlatGrows(chunks, m + 1, n);
    }
  }

  /** What is kept of a longer text is at least as long. */
  lemma {:induction false} VisibleGrows(text: string, longer: string)
    requires text <= longer
    ensures |Visible(text)| <= |Visible(longer)|
    decreases |longer|
  {
    if |text| < |longer| {
      VisibleGrows(text, longer[..|longer| - 1]);
    } else {
      assert text == longer;
    }
  }

  /** Short of its "OK" a reply is not kept longer than it is. */
  lemma VisibleInReply(out: string, seen: string)
    requires EndsReply(out + "OK") && seen <= out + "OK" && seen != out + "OK"
    ensures |Visible(seen)| <= |out|
  {
    var full := out + "OK";
    assert full[..|full| - 2] == out;
    if |seen| > |out| {
      assert seen == out + "O" && seen[..|seen| - 1] == out;
    }
  }

  /** A reply that goes on or ends behind the scanned text is longer. */
  lemma ScannedPart(chunks: seq<string>, received: nat, seen: string, n: nat)
    requires received < n <= |chunks| && chunks[n - 1] != "" && seen <= Flat(chunks[..received + 1])
    requires n == received + 1 ==> seen != Flat(chunks[..n])
    ensures seen <= Flat(chunks[..n]) && seen != Flat(chunks[..n])
  {
    if n > received + 1 {
      FlatStep(chunks, n - 1);
      FlatGrows(chunks, received + 1, n - 1);
      Shorter(seen, Flat(chunks[..received + 1]), Flat(chunks[..n - 1]), chunks[n - 1]);
    }
  }

  lemma Shorter(a: string, b: string, c: string, more: string)
    requires a <= b <= c && more != ""
    ensures a <= c + more && a != c + more
  {
    assert (c + more)[..|a|] == c[..|a|] == b[..|a|];
  }

  lemma TooLongForEnd(chunks: seq<string>, size: nat, received: nat, seen: string, n: nat)
    requires received < n <= |chunks| && seen <= Flat(chunks[..received + 1]) && |Visible(seen)| > size
    ensures |Visible(Flat(chunks[..n]))| > size
  {
    FlatGrows(chunks, received + 1, n);
    VisibleGrows(seen, Flat(chunks[..n]));
  }

  lemma TooLongForReply(chunks: seq<string>, size: nat, received: nat, seen: string, n: nat, out: string)
    requires received < n <= |chunks| && seen <= Flat(chunks[..received + 1]) && |Visible(seen)| > size
    requires n == received + 1 ==> seen != Flat(chunks[..n])
    requires chunks[n - 1] != "" && Flat(chunks[..n]) == out + "OK" && EndsReply(out + "OK")
    ensures |out| > size
  {
    ScannedPart(chunks, received, seen, n);
    VisibleInReply(out, seen);
  }

  /** The scanner overflows only if the text it would return does not fit. */
  lemma TooLongIsExact(chunks: seq<string>, size: nat, received: nat, seen: string, rc: int, out: string, n: nat)
    requires TooLong(chunks, size, received, seen) && Outcome(chunks, rc, out, n)
    ensures |out| > size
  {
    ReadsGoOn(chunks, received, rc, out, n);
    if rc == 0 {
      TooLongForEnd(chunks, size, received, seen, n);
    } else {
      TooLongForReply(chunks, size, received, seen, n, out);
    }
  }

  lemma NothingFits(chunks: seq<string>, size: nat, received: nat, seen: string)
    requires TooLong(chunks, size, received, seen)
    ensures forall rc, out, n :: Outcome(chunks, rc, out, n) ==> |out| > size
  {
    forall rc, out, n | Outcome(chunks, rc, out, n)
      ensures |out| > size
    {
      TooLongIsExact(chunks, size, received, seen, rc, out, n);
    }
  }

  lemma ReadsGoOn(chunks: seq<string>, received: nat, rc: int, out: string, n: nat)
    requires received < |chunks| && Unfinished(chunks, received) && chunks[received] != ""
    requires Outcome(chunks, rc, out, n)
    ensures n > received
  {
    StillGoing(chunks, received, if rc == 1 then n - 1 else n);
  }

  // ----- what ends a reply, and what does not matter

  lemma LineStateBack(text: string)
    ensures LineState(text) == 1 <==>
      text == "" || (LineBreak(text[|text| - 1])
        && !(|text| >= 2 && text[|text| - 2] == 'O' && LineState(text[..|text| - 2]) == 1))
  {
    if |text| >= 2 {
      assert text[..|text| - 1][..|text| - 2] == text[..|text| - 2];
    }
  }

  /** Nothing, or text whose last line is complete. */
  predicate LinesOnly(text: string) {
    text == "" || LineBreak(text[|text| - 1])
  }

  /** How many lines at the end of the text consist of an 'O' and one line break. */
  function LoneOs(text: string): nat {
    if |text| >= 2 && LineBreak(text[|text| - 1]) && text[|text| - 2] == 'O' && LinesOnly(text[..|text| - 2])
    then 1 + LoneOs(text[..|text| - 2]) else 0
  }

  /** The scanner is at a line start behind complete lines, unless an odd number of lone 'O's ends them. */
  lemma {:induction false} LineOpens(text: string)
    ensures LineState(text) == 1 <==> LinesOnly(text) && LoneOs(text) % 2 == 0
  {
    LineStateBack(text);
    if |text| >= 2 && LineBreak(text[|text| - 1]) && text[|text| - 2] == 'O' {
      LineOpens(text[..|text| - 2]);
    }
  }

  /** So an "OK" on a line of its own ends the reply unless an odd number of lone 'O' lines comes before it. */
  lemma OkOnItsLine(text: string)
    ensures EndsReply(text + "OK") <==> LinesOnly(text) && LoneOs(text) % 2 == 0
  {
    var full := text + "OK";
    assert full[..|full| - 2] == text && full[|full| - 2..] == "OK";
    LineOpens(text);
  }

  /** The line breaks are the two characters. */
  lemma OkAfterBreak(c: char)
    ensures EndsReply("x" + [c] + "OK") <==> c == '\n' || c == '\r'
  {
    var text := "x" + [c];
    OkOnItsLine(text);
    assert text[..0] == "";
  }

  lemma OkIsMissed()
    ensures !EndsReply("O\nOK") && EndsReply("o\nOK") && EndsReply("O\nO\nOK")
  {
    assert "O\nOK" == "O\n" + "OK" && "o\nOK" == "o\n" + "OK" && "O\nO\nOK" == "O\nO\n" + "OK";
    assert "O\nO\n"[..2] == "O\n" && "O\n"[..0] == "";
    assert LoneOs("O\n") == 1;
    OkOnItsLine("O\n");
    OkOnItsLine("o\n");
    OkOnItsLine("O\nO\n");
  }

  /** A reply whose reads are all needed is read to its end. */
  lemma AllRead(chunks: seq<string>, rc: int, out: string, received: nat)
    requires chunks != [] && chunks[|chunks| - 1] != "" && Unfinished(chunks, |chunks| - 1)
    requires Outcome(chunks, rc, out, received)
    ensures received == |chunks| && (rc == 1 <==> EndsReply(Flat(chunks)))
  {
    assert chunks[..|chunks|] == chunks;
    StillGoing(chunks, |chunks| - 1, if rc == 1 then received - 1 else received);
    if rc == 0 {
      StillGoing(chunks, received, |chunks| - 1);
    }
  }

  lemma StillGoing(chunks: seq<string>, n: nat, q: nat)
    requires Unfinished(chunks, n)
    ensures q < n ==> chunks[q] != "" && !EndsReply(Flat(chunks[..q + 1]))
  {
  }

  /**
   How the network cuts the reply does not matter, as long as no cut falls behind an earlier
   "OK" that starts a line: the result and the text are the same, also the same as in one read.
   */
  lemma ChunksDoNotMatter(c: seq<string>, rc: int, out: string, received: nat,
                          c': seq<string>, rc': int, out': string, received': nat)
    requires c != [] && c[|c| - 1] != "" && Unfinished(c, |c| - 1) && Outcome(c, rc, out, received)
    requires c' != [] && c'[|c'| - 1] != "" && Unfinished(c', |c'| - 1) && Outcome(c', rc', out', received')
    requires Flat(c) == Flat(c')
    ensures rc == rc' && out == out'
  {
    AllRead(c, rc, out, received);
    AllRead(c', rc', out', received');
    assert c[..received] == c && c'[..received'] == c';
    if rc == 1 {
      assert out == Flat(c)[..|Flat(c)| - 2] && out' == Flat(c)[..|Flat(c)| - 2];
    }
  }

  lemma Lossless(chunks: seq<string>, rc: int, out: string, received: nat)
    requires Outcome(chunks, rc, out, received)
    ensures AllKept(Flat(chunks[..received]), rc, out)
  {
    var text := Flat(chunks[..received]);
    if LineState(text) == 2 {
      assert text == text[..|text| - 1] + [text[|text| - 1]];
    }
  }

  // ----- get_maxadmin_param_tcp

  /** param stands at x, character by character. */
  predicate OccursAt(text: string, param: string, x: nat): (b: bool)
    ensures b <==> x + |param| <= |text| && forall j :: 0 <= j < |param| ==> text[x + j] == param[j]
  {
    x + |param| <= |text| && text[x..x + |param|] == param
  }

  /** strstr: the first place where param stands. */
  predicate FirstAt(text: string, param: string, x: nat) {
    OccursAt(text, param, x) && forall y: nat :: y < x ==> !OccursAt(text, param, y)
  }

  /** The value of param at x: what follows it on its line, up to index end. */
  predicate ValueEnds(text: string, param: string, x: nat, end: nat) {
    && x + |param| <= end < |text| && text[end] == '\n'
    && forall j :: x + |param| <= j < end ==> text[j] != '\n'
  }

  /** Some line break follows the parameter at x. */
  predicate HasValue(text: string, param: string, x: nat) {
    exists j :: x + |param| <= j < |text| && text[j] == '\n'
  }

  /** How a search for a parameter ends: not there, its value copied, or one of the two ways to run on. */
  datatype Extraction = Missing | Copied | NoLineEnd | NoRoom

  /** The search for a parameter in the text, and the copying of its value into so much room. */
  ghost predicate Extracted(text: string, param: string, room: nat, found: Extraction, x: nat, end: nat): (b: bool)
    ensures b ==> (found == Missing <==> forall y: nat :: !OccursAt(text, param, y))
    ensures b && found != Missing ==>
      && OccursAt(text, param, x) && (forall y: nat :: y < x ==> !OccursAt(text, param, y))
      && x + |param| <= end <= |text| && '\n' !in text[x + |param|..end] && (end < |text| ==> text[end] == '\n')
    ensures b && found == Copied ==> end < |text| && end - x - |param| < room
    ensures b && found == NoLineEnd ==> end == |text| && end - x - |param| <= room
    ensures b && found == NoRoom ==> end - x - |param| >= room + if end == |text| then 1 else 0
  {
    && (found == Missing <==> forall y: nat :: !OccursAt(text, param, y))
    && (found != Missing ==> FirstAt(text, param, x) && x + |param| <= end <= |text|)
    && (found != Missing && !HasValue(text, param, x) ==>
          end == |text| && found == if end - x - |param| <= room then NoLineEnd else NoRoom)
    && (found != Missing && HasValue(text, param, x) ==>
          ValueEnds(text, param, x, end) && found == if end - x - |param| < room then Copied else NoRoom)
  }

  /**
   buf holds the reply and, since sendCommand does not terminate it, whatever the stack held
   up to the next NUL. The source copies up to the line break, wherever that is and whatever
   the size of the result: NoLineEnd tells of a text without one, NoRoom of a value that the
   result cannot hold.
   */
  method ExtractParam(buf: array<char>, param: string, result: array<char>, ghost text: string)
    returns (found: Extraction, ghost x: nat, ghost end: nat)
    requires Holds(buf, text) && buf != result
    modifies result
    ensures Extracted(text, param, result.Length, found, x, end)
    ensures found == Copied ==> Holds(result, text[x + |param|..end])
  {
    x, end := 0, 0;
    var at := StrStr(buf, param, text);
    if at.None? {
      return Missing, 0, 0;
    }
    x := at.value;
    assert OccursAt(text, param, x);
    end := LineEnd(text, x + |param|);
    found := CopyLine(buf, at.value + |param|, result, text, end);
  }

  /** The next line break, or the end of the text. */
  function LineEnd(text: string, from: nat): (end: nat)
    requires from <= |text|
    ensures from <= end <= |text| && forall j :: from <= j < end ==> text[j] != '\n'
    ensures end < |text| ==> text[end] == '\n'
    decreases |text| - from
  {
    if from == |text| || text[from] == '\n' then from else LineEnd(text, from + 1)
  }

  method StrStr(buf: array<char>, param: string, ghost text: string) returns (found: Option<nat>)
    requires Holds(buf, text)
    ensures match found
      case None => forall y: nat :: !OccursAt(text, param, y)
      case Some(x) => FirstAt(text, param, x)
  {
    var length := FindNul(buf, 0, text);
    var reply := buf[..length];
    for at := 0 to length + 1
      invariant forall y: nat :: y < at ==> !OccursAt(text, param, y)
    {
      if OccursAt(reply, param, at) {
        return Some(at);
      }
    }
    return None;
  }

  /** Copies buf from index from on up to the next line break, and terminates the copy. */
  method CopyLine(buf: array<char>, from: nat, result: array<char>, ghost text: string, ghost end: nat)
    returns (found: Extraction)
    requires Holds(buf, text) && buf != result && from <= |text| && end == LineEnd(text, from)
    modifies result
    ensures end == |text| ==> found == if end - from <= result.Length then NoLineEnd else NoRoom
    ensures end < |text| ==> found == if end - from < result.Length then Copied else NoRoom
    ensures found == Copied ==> Holds(result, text[from..end])
  {
    assert forall j :: 0 <= j < |text| ==> buf[j] == buf[..|text|][j] == text[j];
    var cnt: nat := 0;
    while buf[from + cnt] != '\n'
      invariant from + cnt <= end && cnt <= result.Length
      invariant forall j :: 0 <= j < cnt ==> result[j] == text[from + j]
      decreases |text| - cnt
    {
      if buf[from + cnt] == NUL {
        return NoLineEnd;
      }
      if cnt == result.Length {
        return NoRoom;
      }
      result[cnt] := buf[from + cnt];
      cnt := cnt + 1;
    }
    if cnt == result.Length {
      return NoRoom;
    }
    result[cnt] := NUL;
    assert result[..cnt] == text[from..end];
    return Copied;
  }

  /** Stack contents behind the reply do not change the value of a parameter the reply has. */
  lemma TailDoesNotMatter(reply: string, tail: string, param: string, x: nat, end: nat)
    requires FirstAt(reply, param, x) && ValueEnds(reply, param, x, end)
    ensures FirstAt(reply + tail, param, x) && ValueEnds(reply + tail, param, x, end)
    ensures (reply + tail)[x + |param|..end] == reply[x + |param|..end]
  {
    var text := reply + tail;
    assert text[x..x + |param|] == reply[x..x + |param|];
    forall y: nat | y < x
      ensures !OccursAt(text, param, y)
    {
      assert text[y..y + |param|] == reply[y..y + |param|];
      assert !OccursAt(reply, param, y);
    }
  }

  lemma {:induction false} CStrBehind(s: string, t: string)
    requires NulFree(s)
    ensures CStr(s + t) == s + CStr(t)
  {
    if s == "" {
      assert s + t == t;
    } else {
      assert (s + t)[1..] == s[1..] + t;
      CStrBehind(s[1..], t);
    }
  }

  /**
   The command as a whole. buf is the local buffer of the given size and the stack behind it,
   which holds a NUL somewhere. If the reply fits the buffer, a parameter that it has, with the
   rest of its line, is found whatever the buffer held before, however the reply was cut into
   reads, and whether or not it was ended by "OK"; the value is copied if the result has room.
   */
  method GetMaxadminParam(connected: bool, authorised: bool, chunks: seq<string>, param: string,
                          buf: array<char>, size: nat, result: array<char>)
    returns (found: Extraction, overflow: bool,
             ghost sent: int, ghost reply: string, ghost received: nat, ghost x: nat, ghost end: nat)
    requires buf != result && size < buf.Length && buf[buf.Length - 1] == NUL
    modifies buf, result
    ensures !(connected && authorised) ==> found == Missing && !overflow && buf[..] == old(buf[..])
    ensures connected && authorised ==>
      if overflow then forall rc, out, n :: Outcome(chunks, rc, out, n) ==> |out| > size
      else Outcome(chunks, sent, reply, received)
    ensures connected && authorised && !overflow ==>
      |reply| <= size && buf[..] == reply + old(buf[|reply|..])
    ensures connected && authorised && !overflow ==>
      && Extracted(CStr(buf[..]), param, result.Length, found, x, end)
      && (found == Copied ==> Holds(result, CStr(buf[..])[x + |param|..end]))
    ensures connected && authorised && !overflow && NulFree(reply) ==>
      forall x': nat, end': nat :: FirstAt(reply, param, x') && ValueEnds(reply, param, x', end') ==>
        if end' - x' - |param| < result.Length then found == Copied && Holds(result, reply[x' + |param|..end'])
        else found == NoRoom
  {
    found, overflow, sent, reply, received, x, end := Missing, false, 0, "", 0, 0, 0;
    if !connected || !authorised {
      return;
    }
    var rc, k;
    ghost var seen;
    rc, k, overflow, received, seen := SendCommand(true, chunks, buf, size);
    sent, reply := rc, buf[..k];
    if overflow {
      NothingFits(chunks, size, received, seen);
      return;
    }
    assert buf[..] == reply + old(buf[k..]);
    found, x, end := FindInStack(buf, reply, param, result);
  }

  /** The rest of the command, on the buffer and the stack behind it. */
  method FindInStack(buf: array<char>, ghost reply: string, param: string, result: array<char>)
    returns (found: Extraction, ghost x: nat, ghost end: nat)
    requires buf != result && |reply| < buf.Length && buf[..|reply|] == reply && buf[buf.Length - 1] == NUL
    modifies result
    ensures Extracted(CStr(buf[..]), param, result.Length, found, x, end)
    ensures found == Copied ==> Holds(result, CStr(buf[..])[x + |param|..end])
    ensures NulFree(reply) ==>
      forall x': nat, end': nat :: FirstAt(reply, param, x') && ValueEnds(reply, param, x', end') ==>
        if end' - x' - |param| < result.Length then found == Copied && Holds(result, reply[x' + |param|..end'])
        else found == NoRoom
  {
    ghost var k := |reply|;
    ghost var tail, text := CStr(buf[k..]), CStr(buf[..]);
    StackText(buf[..], k);
    assert buf[..][..k] == reply && buf[..][k..] == buf[k..];
    found, x, end := ExtractParam(buf, param, result, text);
    assert text == CStr(buf[..]);
    if NulFree(reply) {
      forall x': nat, end': nat | FirstAt(reply, param, x') && ValueEnds(reply, param, x', end')
        ensures found == (if end' - x' - |param| < result.Length then Copied else NoRoom)
        ensures found == Copied ==> Holds(result, reply[x' + |param|..end'])
      {
        ExtractedFromReply(reply, tail, param, result.Length, found, x, end, x', end');
      }
    }
  }

  lemma ExtractedFromReply(reply: string, tail: string, param: string, room: nat,
                           found: Extraction, x: nat, end: nat, x': nat, end': nat)
    requires Extracted(reply + tail, param, room, found, x, end)
    requires FirstAt(reply, param, x') && ValueEnds(reply, param, x', end')
    ensures found == (if end' - x' - |param| < room then Copied else NoRoom)
    ensures found == Copied ==> x == x' && end == end' <= |reply| <= |reply + tail|
    ensures found == Copied ==> (reply + tail)[x' + |param|..end'] == reply[x' + |param|..end']
  {
    ValueOfReply(reply, tail, param, x', end');
  }

  lemma StackText(stack: string, k: nat)
    requires k < |stack| && stack[|stack| - 1] == NUL
    ensures var text := CStr(stack); |text| < |stack| && stack[..|text|] == text && stack[|text|] == NUL
    ensures NulFree(stack[..k]) ==> CStr(stack) == stack[..k] + CStr(stack[k..])
  {
    assert stack == stack[..k] + stack[k..];
    if NulFree(stack[..k]) {
      CStrBehind(stack[..k], stack[k..]);
    }
  }

  /** Any search through the reply and the tail gives the value the reply has. */
  lemma ValueOfReply(reply: string, tail: string, param: string, x: nat, end: nat)
    requires FirstAt(reply, param, x) && ValueEnds(reply, param, x, end)
    ensures var text := reply + tail;
      && OccursAt(text, param, x) && HasValue(text, param, x)
      && (forall y: nat :: FirstAt(text, param, y) ==> y == x)
      && (forall e: nat :: ValueEnds(text, param, x, e) ==> e == end)
      && text[x + |param|..end] == reply[x + |param|..end]
  {
    var text := reply + tail;
    TailDoesNotMatter(reply, tail, param, x, end);
    forall y: nat | FirstAt(text, param, y)
      ensures y == x
    {
      SameFirst(text, param, x, y);
    }
    forall e: nat | ValueEnds(text, param, x, e)
      ensures e == end
    {
      SameEnd(text, param, x, e, end);
    }
  }

  lemma SameFirst(text: string, param: string, x: nat, y: nat)
    requires FirstAt(text, param, x) && FirstAt(text, param, y)
    ensures x == y
  {
  }

  lemma SameEnd(text: string, param: string, x: nat, end: nat, end': nat)
    requires ValueEnds(text, param, x, end) && ValueEnds(text, param, x, end')
    ensures end == end'
  {
  }
}
