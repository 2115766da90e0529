/**
 Promoting a slave in the binlog failover test: the names of binlog files, the files of the
 promoted server, and the realignment of their numbers with those of the binlog router.
 */
module NewMaster {
  import opened Decimal
  import opened Options

  // ----- names of binlog files

  /** strchr(name, '.'), or the length of a name without a dot. */
  function DotAt(name: string): (p: nat)
    ensures p <= |name| && (p < |name| ==> name[p] == '.')
    ensures forall k :: 0 <= k < p ==> name[k] != '.'
  {
    if name == "" || name[0] == '.' then 0 else
    var p := 1 + DotAt(name[1..]);
    assert forall k :: 0 < k < |name| ==> name[k] == name[1..][k - 1];
    p
  }

  /** The number behind the first dot, as "%d" reads it. */
  function FileNumber(name: string): Option<nat> {
    var p := DotAt(name);
    if p == |name| then None else
    match ScanInt(name[p + 1..])
    case None => None
    case Some((n, _)) => if n < 0 then None else Some(n)
  }

  /** The name with the next number. */
  function NextFile(name: string): string
    requires FileNumber(name).Some?
  {
    name[..DotAt(name) + 1] + Pad6(FileNumber(name).value + 1)
  }

  lemma {:induction false} DotStays(before: string, rest: string)
    requires '.' !in before
    ensures DotAt(before + "." + rest) == |before|
  {
    if before == "" {
      assert before + "." + rest == "." + rest;
    } else {
      assert (before + "." + rest)[1..] == before[1..] + "." + rest;
      DotStays(before[1..], rest);
    }
  }

  lemma NumberBehindDot(before: string, n: nat)
    requires '.' !in before
    ensures DotAt(before + "." + Pad6(n)) == |before| && FileNumber(before + "." + Pad6(n)) == Some(n)
  {
    DotStays(before, Pad6(n));
    assert (before + "." + Pad6(n))[|before| + 1..] == Pad6(n) + "";
    ScanPad6(n, "");
  }

  /** The next name differs in its number only, which is one more. */
  lemma NextFileNumber(name: string)
    requires FileNumber(name).Some?
    ensures FileNumber(NextFile(name)) == Some(FileNumber(name).value + 1)
    ensures DotAt(NextFile(name)) == DotAt(name) && NextFile(name)[..DotAt(name)] == name[..DotAt(name)]
  {
    var p, n := DotAt(name), FileNumber(name).value + 1;
    assert name[..p + 1] == name[..p] + ".";
    NumberBehindDot(name[..p], n);
    assert (name[..p] + "." + Pad6(n))[..p] == name[..p];
  }

  lemma {:induction false} AtMostSix(n: nat, k: nat)
    requires 0 < k <= 6
    ensures |PrintNat(n)| <= k <==> n < [1, 10, 100, 1000, 10000, 100000, 1000000][k]
  {
    if n >= 10 && k > 1 {
      AtMostSix(n / 10, k - 1);
    }
  }

  /** A server's own name for the file with this number: the next name is the server's name for the next file. */
  lemma NextIsServersName(before: string, n: nat)
    requires '.' !in before && n < 999999
    ensures |Pad6(n)| == |Pad6(n + 1)| == 6
    ensures FileNumber(before + "." + Pad6(n)) == Some(n)
    ensures NextFile(before + "." + Pad6(n)) == before + "." + Pad6(n + 1)
  {
    AtMostSix(n, 6);
    AtMostSix(n + 1, 6);
    NumberBehindDot(before, n);
    assert (before + "." + Pad6(n))[..|before| + 1] == before + ".";
  }

  // ----- binlog files

  /** The file being written, which is the last one, grows. */
  function Log(files: seq<seq<int>>, ids: seq<int>): (r: seq<seq<int>>)
    requires files != []
    ensures |r| == |files|
  {
    files[|files| - 1 := files[|files| - 1] + ids]
  }

  lemma LogTwice(files: seq<seq<int>>, s: seq<int>, t: seq<int>)
    requires files != []
    ensures Log(Log(files, s), t) == Log(files, s + t)
  {
    assert files[|files| - 1] + s + t == files[|files| - 1] + (s + t);
  }

  lemma LogUnits(files: seq<seq<int>>, first: seq<int>, s: seq<int>)
    requires files != []
    ensures Log(files, []) == files
    ensures Log([[]], s) == [s] && Log([first, []], s) == [first, s]
  {
    assert files[|files| - 1] + [] == files[|files| - 1];
    assert [] + s == s;
  }

  function EmptyFiles(n: nat): seq<seq<int>> {
    seq(n, _ => [])
  }

  /** What a slave gets that starts at position 4 of the file with this number; the first has number 1. */
  function Stream(files: seq<seq<int>>, number: nat): seq<int>
    requires 1 <= number
    decreases |files| - number
  {
    if number > |files| then [] else files[number - 1] + Stream(files, number + 1)
  }

  /** What is written later is streamed later. */
  lemma {:induction false} StreamGrows(files: seq<seq<int>>, number: nat, ids: seq<int>)
    requires 1 <= number <= |files|
    ensures Stream(Log(files, ids), number) == Stream(files, number) + ids
    decreases |files| - number
  {
    var more := Log(files, ids);
    if number == |files| {
      assert Stream(files, number + 1) == [] && Stream(more, number + 1) == [];
    } else {
      StreamGrows(files, number + 1, ids);
    }
  }

  /** A server's binlog files, with the transactions in each. */
  class BinlogServer {
    var files: seq<seq<int>>

    constructor (files: seq<seq<int>>)
      ensures this.files == files
    {
      this.files := files;
    }

    method ResetMaster()
      modifies this
      ensures files == [[]]
    {
      files := [[]];
    }

    method FlushLogs()
      modifies this
      ensures files == old(files) + [[]]
    {
      files := files + [[]];
    }

    method Commit(id: int)
      requires files != []
      modifies this
      ensures files == Log(old(files), [id])
    {
      files := files[|files| - 1 := files[|files| - 1] + [id]];
    }
  }

  /** The router told both where it is and how far, and the name has a number behind a dot. */
  predicate Usable(routerFile: string, routerPos: string) {
    routerFile != "" && routerPos != "" ==> FileNumber(routerFile).Some?
  }

  /**
   The promoted server starts over and is flushed until its file numbers are past the router's;
   the router is told to continue from the file after its own. A router that gives no file or no
   position ends the call with 1. Other names make the source use an unset number or pointer:
   the result is defined exactly for the usable ones.
   */
  method SelectNewMaster(node: BinlogServer, routerFile: string, routerPos: string)
    returns (rc: int, startFile: string, defined: bool)
    modifies node
    ensures rc == 1 <==> routerFile == "" || routerPos == ""
    ensures defined <==> Usable(routerFile, routerPos)
    ensures rc == 1 || !defined ==> node.files == old(node.files)
    ensures rc != 1 && defined ==>
      startFile == NextFile(routerFile) && node.files == EmptyFiles(FileNumber(routerFile).value + 2)
  {
    if routerFile == "" || routerPos == "" {
      return 1, "", true;
    }
    var p: nat := 0;
    while p < |routerFile| && routerFile[p] != '.'
      invariant p <= DotAt(routerFile)
      decreases DotAt(routerFile) - p
    {
      p := p + 1;
    }
    if p == |routerFile| {
      return 0, "", false;
    }
    p := p + 1;
    var scanned := ScanInt(routerFile[p..]);
    if scanned.None? || scanned.value.0 < 0 {
      return 0, "", false;
    }
    var pd := scanned.value.0;
    startFile := routerFile[..p] + Pad6(pd + 1);
    StartOver(node, pd);
    return 0, startFile, true;
  }

  method StartOver(node: BinlogServer, pd: nat)
    modifies node
    ensures node.files == EmptyFiles(pd + 2)
  {
    node.ResetMaster();
    var k := 0;
    while k < pd + 1
      invariant 0 <= k <= pd + 1
      invariant node.files == EmptyFiles(k + 1)
    {
      node.FlushLogs();
      k := k + 1;
    }
  }

  lemma LastTwo(files: seq<seq<int>>, n: nat, ids: seq<int>)
    requires |files| == n + 2 && files[n] == [] && files[n + 1] == ids
    ensures Stream(files, n + 1) == ids
  {
    assert Stream(files, n + 3) == [];
    assert Stream(files, n + 2) == ids + [];
  }

  /**
   On the new master, with its n + 2 files, the one with the number n + 1 that the router is
   sent to comes before the file being written, and streams exactly what is written from then on.
   */
  lemma StartIsAligned(n: nat, ids: seq<int>)
    ensures var files := Log(EmptyFiles(n + 2), ids);
      n + 1 < |files| && files[n] == [] && Stream(files, n + 1) == ids
  {
    LastTwo(Log(EmptyFiles(n + 2), ids), n, ids);
  }
}
