/**
 Reading newline-terminated rows from the CDC connection, one byte per read.
 */
module CdcConnection {
  /**
   What one read of one byte brings: the byte, an interruption by a signal, an error, or the
   end of the stream. At the end the byte variable stays unset, and c is what it happens to hold.
   */
  datatype ReadEvent = Got(c: char) | Ended(c: char) | Interrupted | Failed {
    /** The caller takes c for a byte of the stream, also at its end. */
    predicate Taken() {
      Got? || Ended?
    }

    predicate EndsRow() {
      Failed? || (Taken() && c == '\n')
    }
  }

  /** The bytes the caller takes from the events. */
  function Text(events: seq<ReadEvent>): string {
    if events == [] then ""
    else Text(events[..|events| - 1]) + if events[|events| - 1].Taken() then [events[|events| - 1].c] else ""
  }

  lemma {:induction false} TextOfBoth(a: seq<ReadEvent>, b: seq<ReadEvent>)
    ensures Text(a + b) == Text(a) + Text(b)
  {
    if b == [] {
      assert a + b == a;
    } else {
      assert (a + b)[..|a + b| - 1] == a + b[..|b| - 1];
      TextOfBoth(a, b[..|b| - 1]);
    }
  }

  /** Interruptions bring no text. */
  lemma {:induction false} OnlyLast(events: seq<ReadEvent>)
    requires events != [] && forall k :: 0 <= k < |events| - 1 ==> events[k] == Interrupted
    ensures Text(events) == if events[|events| - 1].Taken() then [events[|events| - 1].c] else ""
  {
    if |events| > 1 {
      OnlyLast(events[..|events| - 1]);
    }
  }

  predicate Quiet(events: seq<ReadEvent>) {
    forall k :: 0 <= k < |events| ==> !events[k].EndsRow()
  }

  lemma QuietMore(all: seq<ReadEvent>, n: nat, m: nat)
    requires n <= m <= |all| && Quiet(all[..n]) && forall k :: n <= k < m ==> !all[k].EndsRow()
    ensures Quiet(all[..m])
  {
    assert forall k :: 0 <= k < n ==> all[k] == all[..n][k];
  }

  lemma TextMore(all: seq<ReadEvent>, n: nat, m: nat)
    requires n < n + m <= |all| && forall k :: n <= k < n + m - 1 ==> all[k] == Interrupted
    ensures Text(all[..n + m]) == Text(all[..n]) + if all[n + m - 1].Taken() then [all[n + m - 1].c] else ""
  {
    var step := all[n..n + m];
    OnlyLast(step);
    TextOfBoth(all[..n], step);
    assert all[..n] + step == all[..n + m];
  }

  /** One read further on. */
  lemma Advance(all: seq<ReadEvent>, n: nat, m: nat)
    requires n < n + m <= |all| && Quiet(all[..n])
    requires forall k :: 0 <= k < m - 1 ==> all[n..][k] == Interrupted
    ensures var last := all[n..][m - 1];
      && all[n + m - 1] == last && all[n..][m..] == all[n + m..]
      && Text(all[..n + m]) == Text(all[..n]) + (if last.Taken() then [last.c] else "")
      && Quiet(all[..n + m - 1]) && (!last.EndsRow() ==> Quiet(all[..n + m]))
  {
    forall k | n <= k < n + m - 1
      ensures all[k] == Interrupted
    {
      assert all[n..][k - n] == all[k];
    }
    TextMore(all, n, m);
    QuietMore(all, n, n + m - 1);
    if !all[n + m - 1].EndsRow() {
      QuietMore(all, n, n + m);
    }
  }

  /** The stream of newline-terminated rows. */
  function Lines(rows: seq<string>): string {
    if rows == [] then "" else rows[0] + "\n" + Lines(rows[1..])
  }

  /** The first newline decides where the first row ends. */
  lemma {:induction false} FirstLine(a: string, x: string, b: string, y: string)
    requires '\n' !in a && '\n' !in b && a + "\n" + x == b + "\n" + y
    ensures a == b && x == y
  {
    var s, t := a + "\n" + x, b + "\n" + y;
    assert s[0] == (if a == "" then '\n' else a[0]) && t[0] == (if b == "" then '\n' else b[0]);
    if a == "" || b == "" {
      assert a == b == "";
      assert s[1..] == x && t[1..] == y;
    } else {
      assert s[1..] == a[1..] + "\n" + x && t[1..] == b[1..] + "\n" + y;
      FirstLine(a[1..], x, b[1..], y);
    }
  }

  /** A row was read, a read failed on the way, or the row is not finished with what has arrived. */
  datatype RowStatus = RowRead | RowFailed | RowOpen

  class Connection {
    var input: seq<ReadEvent>

    constructor (input: seq<ReadEvent>)
      ensures this.input == input
    {
      this.input := input;
    }

    /**
     nointr_read: a read is repeated while it is interrupted. The answer Interrupted means that
     nothing else has happened so far, and the loop goes on.
     */
    method NointrRead() returns (event: ReadEvent, ghost n: nat)
      modifies this
      ensures n <= |old(input)| && input == old(input)[n..]
      ensures forall k :: 0 <= k < n - 1 ==> old(input)[k] == Interrupted
      ensures if event == Interrupted then n == |old(input)| else n > 0
      ensures n > 0 ==> old(input)[n - 1] == event
    {
      n := 0;
      event := Interrupted;
      while event == Interrupted && input != []
        invariant n <= |old(input)| && input == old(input)[n..]
        invariant n > 0 ==> old(input)[n - 1] == event
        invariant n == 0 ==> event == Interrupted
        invariant forall k :: 0 <= k < n - 1 ==> old(input)[k] == Interrupted
        decreases |input|
      {
        assert old(input)[n] == input[0];
        event := input[0];
        input := input[1..];
        n := n + 1;
      }
    }

    method NextByte(ghost all: seq<ReadEvent>, ghost n: nat) returns (event: ReadEvent, ghost next: nat)
      requires n <= |all| && input == all[n..] && Quiet(all[..n])
      modifies this
      ensures n <= next <= |all| && input == all[next..]
      ensures if event == Interrupted then next == |all| else n < next && all[next - 1] == event
      ensures Text(all[..next]) == Text(all[..n]) + if event.Taken() then [event.c] else ""
      ensures if event.EndsRow() then Quiet(all[..next - 1]) else Quiet(all[..next])
    {
      ghost var m;
      event, m := NointrRead();
      if m > 0 {
        Advance(all, n, m);
      }
      next := n + m;
    }

    /**
     readRow: the row is appended to dest without its newline. After an error the bytes read
     so far are in dest, none lost. The row stays open exactly if neither a newline nor an error
     comes; so at the end of the stream it takes in another byte with every read, unless what
     the byte variable holds is a newline, which ends it.
     */
    method ReadRow(dest: string) returns (status: RowStatus, dest': string, ghost row: string, ghost n: nat)
      modifies this
      ensures n <= |old(input)| && input == old(input)[n..]
      ensures dest' == dest + row && '\n' !in row
      ensures Text(old(input)[..n]) == row + if status == RowRead then "\n" else ""
      ensures status == RowOpen <==> Quiet(old(input))
      ensures status == RowOpen ==> n == |old(input)| && Text(old(input)) == row
      ensures status != RowOpen ==> n > 0 && Quiet(old(input)[..n - 1])
      ensures status == RowFailed ==> old(input)[n - 1] == Failed
      ensures status == RowRead ==> old(input)[n - 1].Taken() && old(input)[n - 1].c == '\n'
    {
      dest', row, n := dest, "", 0;
      ghost var all := input;
      while true
        invariant n <= |all| && input == all[n..] && Quiet(all[..n])
        invariant dest' == dest + row && '\n' !in row && Text(all[..n]) == row
        decreases |input|
      {
        var event;
        event, n := NextByte(all, n);
        if event == Interrupted {
          assert all[..n] == all;
          return RowOpen, dest', row, n;
        }
        if event == Failed {
          return RowFailed, dest', row, n;
        }
        if event.c == '\n' {
          return RowRead, dest', row, n;
        }
        dest' := dest' + [event.c];
        row := row + [event.c];
      }
    }

    method ReadLine(ghost first: string, ghost rest: string) returns (line: string)
      requires Text(input) == first + "\n" + rest && '\n' !in first
      requires forall k :: 0 <= k < |input| ==> input[k] != Failed
      modifies this
      ensures line == first && Text(input) == rest
      ensures forall k :: 0 <= k < |input| ==> input[k] != Failed
    {
      ghost var ahead := input;
      assert (first + "\n" + rest)[|first|] == '\n';
      var status;
      ghost var row, n;
      status, line, row, n := ReadRow("");
      assert ahead == ahead[..n] + ahead[n..];
      TextOfBoth(ahead[..n], ahead[n..]);
      assert status == RowRead;
      FirstLine(row, Text(input), first, rest);
      assert "" + row == row;
    }

    /** Rows come back as they were sent, whatever interrupts the reads. */
    method ReadRows(ghost rows: seq<string>, count: nat) returns (got: seq<string>)
      requires count == |rows| && forall k :: 0 <= k < count ==> '\n' !in rows[k]
      requires Text(input) == Lines(rows) && forall k :: 0 <= k < |input| ==> input[k] != Failed
      modifies this
      ensures got == rows && Text(input) == ""
    {
      got := [];
      for k := 0 to count
        invariant got == rows[..k] && Text(input) == Lines(rows[k..])
        invariant forall j :: 0 <= j < |input| ==> input[j] != Failed
      {
        assert Lines(rows[k..]) == rows[k] + "\n" + Lines(rows[k..][1..]);
        var line := ReadLine(rows[k], Lines(rows[k..][1..]));
        assert rows[k..][1..] == rows[k + 1..];
        got := got + [line];
      }
    }
  }
}
