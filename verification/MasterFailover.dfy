/**
 The binlog failover test: the thread that commits numbered transactions and moves to a new
 master when one fails, and the verdict on what the slaves behind the binlog router hold in
 the end.
 */
module MasterFailover {
  import opened InsertStrings
  import opened NewMaster
  import opened Options
  import opened T1Rows

  const N_INSERTS := 100

  /**
   The return codes of the four statements; whether a failed COMMIT took effect all the same;
   and, should the transaction fail, the file and position the binlog router reports then.
   */
  datatype Attempt = Attempt(start: int, autocommit: int, insert: int, commit: int, applied: bool,
                             routerFile: string, routerPos: string)

  predicate Committed(a: Attempt) {
    a.start == 0 && a.autocommit == 0 && a.insert == 0 && a.commit == 0
  }

  /** The transaction is in the master's binlog, acknowledged or not. */
  predicate LeavesRows(a: Attempt) {
    Committed(a) || (a.start == 0 && a.autocommit == 0 && a.insert == 0 && a.applied)
  }

  /** The router reports where it is. */
  predicate Answers(a: Attempt) {
    a.routerFile != "" && a.routerPos != ""
  }

  /** If the transaction fails, what the router reports lets the new master be set up, or ends the attempt. */
  predicate Manageable(a: Attempt) {
    Committed(a) || Usable(a.routerFile, a.routerPos)
  }

  predicate AllManageable(attempts: seq<Attempt>) {
    forall k :: 0 <= k < |attempts| ==> Manageable(attempts[k])
  }

  predicate AllAnswer(attempts: seq<Attempt>) {
    forall k :: 0 <= k < |attempts| ==> Committed(attempts[k]) || Answers(attempts[k])
  }

  predicate AllCommitted(attempts: seq<Attempt>) {
    forall k :: 0 <= k < |attempts| ==> Committed(attempts[k])
  }

  /** Zero exactly if all four statements went through; a failure stops the transaction there. */
  method Transaction(a: Attempt) returns (localResult: int, sent: nat)
    ensures localResult == 0 <==> Committed(a)
    ensures 1 <= sent <= 4
    ensures sent == 4 <==> a.start == 0 && a.autocommit == 0 && a.insert == 0
    ensures localResult == [a.start, a.autocommit, a.insert, a.commit][sent - 1]
    ensures forall k :: 0 <= k < sent - 1 ==> [a.start, a.autocommit, a.insert, a.commit][k] == 0
  {
    localResult := 0;
    localResult := localResult + a.start;
    if localResult != 0 {
      return localResult, 1;
    }
    localResult := localResult + a.autocommit;
    if localResult != 0 {
      return localResult, 2;
    }
    localResult := localResult + a.insert;
    if localResult != 0 {
      return localResult, 3;
    }
    localResult := localResult + a.commit;
    return localResult, 4;
  }

  // ----- the transaction thread

  function Range(a: int, b: int): seq<int> {
    if a >= b then [] else seq(b - a, i => a + i)
  }

  lemma RangeStep(a: int, b: int)
    requires a < b
    ensures Range(a, b) == Range(a, b - 1) + [b - 1]
  {
  }

  lemma RangePrefix(a: int, b: int, n: nat)
    requires n <= b - a
    ensures Range(a, b)[..n] == Range(a, a + n)
  {
  }

  /** How many transactions were acknowledged. */
  function Acks(attempts: seq<Attempt>): nat {
    if attempts == [] then 0
    else Acks(attempts[..|attempts| - 1]) + if Committed(attempts[|attempts| - 1]) then 1 else 0
  }

  lemma {:induction false} AcksBelow(attempts: seq<Attempt>)
    ensures Acks(attempts) <= |attempts|
  {
    if attempts != [] {
      AcksBelow(attempts[..|attempts| - 1]);
    }
  }

  /** The id of the last transaction that failed, or 0. */
  function LastFailed(attempts: seq<Attempt>): int {
    if attempts == [] then 0
    else if Committed(attempts[|attempts| - 1]) then LastFailed(attempts[..|attempts| - 1])
    else Acks(attempts[..|attempts| - 1])
  }

  /** One attempt with this id: what it leaves goes into the current binlog; a failure starts a new one. */
  function LogStep(logs: seq<seq<int>>, a: Attempt, id: int): (r: seq<seq<int>>)
    requires logs != []
    ensures r != []
  {
    var logs' := if LeavesRows(a) then Log(logs, [id]) else logs;
    if Committed(a) then logs' else logs' + [[]]
  }

  /** The ids in the binlog of each master in turn. */
  function Logs(attempts: seq<Attempt>): (logs: seq<seq<int>>)
    ensures logs != []
  {
    if attempts == [] then [[]]
    else LogStep(Logs(attempts[..|attempts| - 1]), attempts[|attempts| - 1], Acks(attempts[..|attempts| - 1]))
  }

  /** One attempt more. */
  lemma OneMore(before: seq<Attempt>, a: Attempt)
    ensures var more := before + [a];
      && Acks(more) == Acks(before) + (if Committed(a) then 1 else 0)
      && LastFailed(more) == (if Committed(a) then LastFailed(before) else Acks(before))
      && Logs(more) == LogStep(Logs(before), a, Acks(before))
  {
    assert (before + [a])[..|before|] == before;
  }

  /**
   Node 2: whether it is the master by now, its binlog files, the file the router was last told
   to start from, and how many times the router's position could not be found out.
   */
  datatype Second = Second(inUse: bool, files: seq<seq<int>>, startFile: string, reported: nat)

  /** The promotion; a router that does not answer is reported, and the thread goes on to node 2 all the same. */
  function Promote(s: Second, a: Attempt): (r: Second)
    requires s.files != []
    ensures r.files != [] && r.inUse
  {
    if Answers(a) && FileNumber(a.routerFile).Some? then
      Second(true, EmptyFiles(FileNumber(a.routerFile).value + 2), NextFile(a.routerFile), s.reported)
    else
      s.(inUse := true, reported := s.reported + 1)
  }

  function SecondStep(s: Second, a: Attempt, id: int): (r: Second)
    requires s.files != []
    ensures r.files != []
  {
    var s' := if s.inUse && LeavesRows(a) then s.(files := Log(s.files, [id])) else s;
    if Committed(a) then s' else Promote(s', a)
  }

  function SecondAfter(files: seq<seq<int>>, attempts: seq<Attempt>): (r: Second)
    requires files != []
    ensures r.files != []
  {
    if attempts == [] then Second(false, files, "", 0) else
    var before := attempts[..|attempts| - 1];
    SecondStep(SecondAfter(files, before), attempts[|attempts| - 1], Acks(before))
  }

  lemma SecondMore(files: seq<seq<int>>, before: seq<Attempt>, a: Attempt)
    requires files != []
    ensures SecondAfter(files, before + [a]) == SecondStep(SecondAfter(files, before), a, Acks(before))
  {
    assert (before + [a])[..|before|] == before;
  }

  /** The globals of the test that the thread updates, and the servers it makes write. */
  class TransactionThread {
    var master: int
    var iTrans: int
    var failedTransactionNum: int
    var acked: seq<int>
    var logs: seq<seq<int>>
    const node2: BinlogServer
    var startFile: string
    var reported: nat

    constructor (node2: BinlogServer)
      ensures master == 0 && iTrans == 0 && failedTransactionNum == 0 && acked == [] && logs == [[]]
      ensures this.node2 == node2 && startFile == "" && reported == 0
    {
      master, iTrans, failedTransactionNum, acked, logs := 0, 0, 0, [], [[]];
      this.node2, startFile, reported := node2, "", 0;
    }

    function Node2(): Second
      reads this, node2
    {
      Second(master == 2, node2.files, startFile, reported)
    }

    /** The body of the loop; not defined if the new master cannot be set up. */
    method Once(a: Attempt) returns (defined: bool)
      requires iTrans >= 0 && logs != [] && acked == Range(0, iTrans) && node2.files != []
      modifies this, node2
      ensures defined <==> Manageable(a)
      ensures defined ==>
        && iTrans == old(iTrans) + (if Committed(a) then 1 else 0) && acked == Range(0, iTrans)
        && failedTransactionNum == (if Committed(a) then old(failedTransactionNum) else old(iTrans))
        && master == (if Committed(a) then old(master) else 2)
        && logs == LogStep(old(logs), a, old(iTrans))
        && Node2() == SecondStep(old(Node2()), a, old(iTrans))
    {
      RangeStep(0, iTrans + 1);
      var transResult, sent := Transaction(a);
      if sent == 4 && (transResult == 0 || a.applied) {
        logs := Log(logs, [iTrans]);
        if master == 2 {
          node2.Commit(iTrans);
        }
      }
      defined := true;
      if transResult != 0 {
        failedTransactionNum := iTrans;
        defined := Failover(a);
        logs := logs + [[]];
        iTrans := iTrans - 1;
      } else {
        acked := acked + [iTrans];
      }
      iTrans := iTrans + 1;
    }

    /** select_new_master and the change of connection; an unanswered question fails the test. */
    method Failover(a: Attempt) returns (defined: bool)
      requires node2.files != []
      modifies this`master, this`startFile, this`reported, node2
      ensures defined <==> Usable(a.routerFile, a.routerPos)
      ensures defined ==> Node2() == Promote(old(Node2()), a)
    {
      var rc, file;
      rc, file, defined := SelectNewMaster(node2, a.routerFile, a.routerPos);
      if rc == 1 {
        reported := reported + 1;
      } else {
        startFile := file;
      }
      master := 2;
    }

    /** The thread has made these attempts; node 2 had these files at the start. */
    ghost predicate HasMade(files: seq<seq<int>>, attempts: seq<Attempt>)
      requires files != []
      reads this, node2
    {
      && acked == Range(0, Acks(attempts)) && iTrans == Acks(attempts)
      && failedTransactionNum == LastFailed(attempts) && logs == Logs(attempts)
      && Node2() == SecondAfter(files, attempts)
      && master == (if Acks(attempts) == |attempts| then 0 else 2)
    }

    method OnceMore(a: Attempt, ghost files: seq<seq<int>>, ghost before: seq<Attempt>) returns (defined: bool)
      requires files != [] && HasMade(files, before)
      modifies this, node2
      ensures defined <==> Manageable(a)
      ensures defined ==> HasMade(files, before + [a])
    {
      OneMore(before, a);
      SecondMore(files, before, a);
      AcksBelow(before);
      defined := Once(a);
    }

    /** exit_flag is seen after as many attempts as there are in the list. */
    method Run(attempts: seq<Attempt>) returns (defined: bool)
      requires iTrans == 0 && failedTransactionNum == 0 && master == 0 && acked == [] && logs == [[]]
      requires startFile == "" && reported == 0 && node2.files != []
      modifies this, node2
      ensures defined <==> AllManageable(attempts)
      ensures defined ==>
        && acked == Range(0, Acks(attempts)) && iTrans == Acks(attempts) - 1
        && failedTransactionNum == LastFailed(attempts)
        && logs == Logs(attempts)
        && Node2() == SecondAfter(old(node2.files), attempts)
        && master == if Acks(attempts) == |attempts| then 0 else 2
    {
      NothingMade();
      ghost var files := node2.files;
      defined := Attempts(attempts, files);
      if defined {
        iTrans := iTrans - 1;
      }
    }

    lemma NothingMade()
      requires iTrans == 0 && failedTransactionNum == 0 && master == 0 && acked == [] && logs == [[]]
      requires startFile == "" && reported == 0 && node2.files != []
      ensures HasMade(node2.files, [])
    {
    }

    method Attempts(attempts: seq<Attempt>, ghost files: seq<seq<int>>) returns (defined: bool)
      requires files != [] && HasMade(files, [])
      modifies this, node2
      ensures defined <==> AllManageable(attempts)
      ensures defined ==> HasMade(files, attempts)
    {
      var k := 0;
      ghost var made: seq<Attempt> := [];
      while k < |attempts|
        invariant 0 <= k <= |attempts| && made == attempts[..k] && AllManageable(made)
        invariant HasMade(files, made)
      {
        defined := OnceMore(attempts[k], files, made);
        if !defined {
          return;
        }
        made := made + [attempts[k]];
        k := k + 1;
      }
      assert made == attempts;
      defined := true;
    }
  }

  /** A stretch of successful transactions goes into one binlog, numbered onwards. */
  lemma {:induction false} CommittedStretch(before: seq<Attempt>, after: seq<Attempt>)
    requires AllCommitted(after)
    ensures var a, k := before + after, Acks(before);
      && Acks(a) == k + |after|
      && LastFailed(a) == LastFailed(before)
      && Logs(a) == Log(Logs(before), Range(k, k + |after|))
  {
    var logs, k := Logs(before), Acks(before);
    if after == [] {
      assert before + after == before;
      LogUnits(logs, [], []);
    } else {
      var most, last := after[..|after| - 1], after[|after| - 1];
      assert before + after == before + most + [last];
      CommittedStretch(before, most);
      StretchStep(before + most, last, logs, k, |most|);
    }
  }

  lemma StretchStep(before: seq<Attempt>, last: Attempt, logs: seq<seq<int>>, k: nat, n: nat)
    requires Committed(last) && logs != []
    requires Acks(before) == k + n && Logs(before) == Log(logs, Range(k, k + n))
    ensures var a := before + [last];
      && Acks(a) == k + n + 1 && LastFailed(a) == LastFailed(before)
      && Logs(a) == Log(logs, Range(k, k + n + 1))
  {
    OneMore(before, last);
    RangeStep(k, k + n + 1);
    LogTwice(logs, Range(k, k + n), [k + n]);
  }

  // ----- what each master logs

  /** The id with which each master starts: 0, and then the ids of the transactions that failed. */
  function Starts(attempts: seq<Attempt>): (starts: seq<nat>)
    ensures starts != []
  {
    if attempts == [] then [0] else
    var before := attempts[..|attempts| - 1];
    if Committed(attempts[|attempts| - 1]) then Starts(before) else Starts(before) + [Acks(before)]
  }

  /** The masters' binlogs are contiguous: log i runs from start i, and the last one up to the newest. */
  ghost predicate Contiguous(logs: seq<seq<int>>, starts: seq<nat>, next: nat) {
    && |logs| == |starts| > 0
    && (forall i :: 0 <= i < |logs| ==> logs[i] == Range(starts[i], starts[i] + |logs[i]|))
    && starts[|logs| - 1] + |logs[|logs| - 1]| == next
  }

  lemma ContiguousStep(logs: seq<seq<int>>, starts: seq<nat>, next: nat, a: Attempt)
    requires Contiguous(logs, starts, next)
    ensures var starts' := if Committed(a) then starts else starts + [next];
      Contiguous(LogStep(logs, a, next), starts', if Committed(a) then next + 1 else next)
  {
    var n := |logs| - 1;
    RangeStep(starts[n], next + 1);
    assert logs[n] + [next] == Range(starts[n], next + 1);
    assert Range(next, next) == [];
  }

  lemma {:induction false} LogsAreContiguous(attempts: seq<Attempt>)
    ensures Contiguous(Logs(attempts), Starts(attempts), Acks(attempts))
    ensures Starts(attempts)[|Starts(attempts)| - 1] == LastFailed(attempts) <= Acks(attempts)
    ensures |Starts(attempts)| == 1 <==> AllCommitted(attempts)
  {
    if attempts == [] {
      assert Range(0, 0) == [];
    } else {
      var before, a := attempts[..|attempts| - 1], attempts[|attempts| - 1];
      assert attempts == before + [a];
      LogsAreContiguous(before);
      ContiguousStep(Logs(before), Starts(before), Acks(before), a);
    }
  }

  // ----- what node 2 delivers

  /** What the router gets from the new master once it has been told where to start. */
  function Delivered(node2: Second): seq<int> {
    match FileNumber(node2.startFile)
    case None => []
    case Some(number) => if number == 0 then [] else Stream(node2.files, number)
  }

  /** Node 2 is the master, and delivers these ids from the start file on. */
  predicate Delivers(s: Second, ids: seq<int>) {
    && s.inUse && Delivered(s) == ids
    && match FileNumber(s.startFile)
       case None => false
       case Some(number) => 1 <= number <= |s.files|
  }

  lemma DeliversMore(s: Second, ids: seq<int>, a: Attempt, id: int)
    requires s.files != [] && Delivers(s, ids) && Committed(a)
    ensures Delivers(SecondStep(s, a, id), ids + [id])
  {
    StreamGrows(s.files, FileNumber(s.startFile).value, [id]);
  }

  lemma DeliversAnew(s: Second, a: Attempt)
    requires s.files != [] && Answers(a) && FileNumber(a.routerFile).Some?
    ensures Delivers(Promote(s, a), [])
  {
    var n, next := FileNumber(a.routerFile).value, NextFile(a.routerFile);
    NextFileNumber(a.routerFile);
    DeliversFrom(n, next, s.reported);
    assert Promote(s, a) == Second(true, EmptyFiles(n + 2), next, s.reported);
  }

  lemma DeliversFrom(n: nat, file: string, reported: nat)
    requires FileNumber(file) == Some(n + 1)
    ensures Delivers(Second(true, EmptyFiles(n + 2), file, reported), [])
  {
    LastTwo(EmptyFiles(n + 2), n, []);
  }

  lemma UnusedStep(files: seq<seq<int>>, a: Attempt, id: int)
    requires files != [] && Committed(a)
    ensures SecondStep(Second(false, files, "", 0), a, id) == Second(false, files, "", 0)
  {
  }

  /** Whenever the router answers, all that the newest master has logged is delivered, once and in order. */
  lemma {:induction false} NewLogIsDelivered(files: seq<seq<int>>, attempts: seq<Attempt>)
    requires files != [] && AllManageable(attempts) && AllAnswer(attempts)
    ensures if AllCommitted(attempts) then SecondAfter(files, attempts) == Second(false, files, "", 0)
      else Delivers(SecondAfter(files, attempts), Logs(attempts)[|Logs(attempts)| - 1])
  {
    if attempts != [] {
      var before, a := attempts[..|attempts| - 1], attempts[|attempts| - 1];
      assert attempts == before + [a];
      NewLogIsDelivered(files, before);
      OneMore(before, a);
      SecondMore(files, before, a);
      DeliveredStep(SecondAfter(files, before), Logs(before), AllCommitted(before), files, a, Acks(before));
    }
  }

  lemma DeliveredStep(s: Second, logs: seq<seq<int>>, unused: bool, files: seq<seq<int>>, a: Attempt, id: int)
    requires files != [] && s.files != [] && logs != []
    requires if unused then s == Second(false, files, "", 0) else Delivers(s, logs[|logs| - 1])
    requires Committed(a) || (Answers(a) && FileNumber(a.routerFile).Some?)
    ensures var s', logs' := SecondStep(s, a, id), LogStep(logs, a, id);
      if unused && Committed(a) then s' == Second(false, files, "", 0) else Delivers(s', logs'[|logs'| - 1])
  {
    if !Committed(a) {
      DeliversAnew(if s.inUse && LeavesRows(a) then s.(files := Log(s.files, [id])) else s, a);
    } else if unused {
      UnusedStep(files, a, id);
    } else {
      DeliversMore(s, logs[|logs| - 1], a, id);
    }
  }

  /** The test fails if the router did not answer once. */
  lemma {:induction false} WhatIsReported(files: seq<seq<int>>, attempts: seq<Attempt>)
    requires files != [] && AllManageable(attempts)
    ensures SecondAfter(files, attempts).reported == 0 <==> AllAnswer(attempts)
  {
    if attempts != [] {
      var before, a := attempts[..|attempts| - 1], attempts[|attempts| - 1];
      assert attempts == before + [a];
      WhatIsReported(files, before);
      SecondMore(files, before, a);
      ReportedStep(SecondAfter(files, before), a, Acks(before));
    }
  }

  lemma ReportedStep(s: Second, a: Attempt, id: int)
    requires s.files != [] && Manageable(a)
    ensures SecondStep(s, a, id).reported == s.reported + if Committed(a) || Answers(a) then 0 else 1
  {
  }

  /** What the old master is left with: the acknowledged ids, and perhaps the failed one. */
  function OldLog(f: nat, bad: Attempt): seq<int> {
    Range(0, if LeavesRows(bad) then f + 1 else f)
  }

  lemma FailingStep(f: nat, bad: Attempt)
    requires !Committed(bad)
    ensures LogStep([Range(0, f)], bad, f) == [OldLog(f, bad), []]
  {
    RangeStep(0, f + 1);
    assert Log([Range(0, f)], [f]) == [Range(0, f) + [f]];
  }

  lemma UpToFailure(before: seq<Attempt>, bad: Attempt)
    requires AllCommitted(before) && !Committed(bad)
    ensures var a := before + [bad];
      Acks(a) == |before| && LastFailed(a) == |before| && Logs(a) == [OldLog(|before|, bad), []]
  {
    CommittedStretch([], before);
    assert [] + before == before;
    LogUnits([[]], [], Range(0, |before|));
    OneMore(before, bad);
    FailingStep(|before|, bad);
  }

  /** One failover: the old master has the ids up to the failed one, and the new one the rest. */
  lemma OneFailover(before: seq<Attempt>, bad: Attempt, after: seq<Attempt>)
    requires AllCommitted(before) && !Committed(bad) && AllCommitted(after)
    ensures var a, f := before + [bad] + after, |before|;
      Acks(a) == f + |after| && LastFailed(a) == f && Logs(a) == [OldLog(f, bad), Range(f, f + |after|)]
    ensures OldLog(|before|, bad) ==
      if bad.start == 0 && bad.autocommit == 0 && bad.insert == 0 && bad.applied then Range(0, |before| + 1)
      else Range(0, |before|)
  {
    UpToFailure(before, bad);
    CommittedStretch(before + [bad], after);
    LogUnits([[]], OldLog(|before|, bad), Range(|before|, |before| + |after|));
  }

  // ----- the verdict

  /** What the loop in main accepts for one id: all rows, or for the id before the failed one none. */
  predicate Tolerated(rows: int, id: int, failed: int) {
    rows == N_INSERTS || (id == failed - 1 && rows == 0)
  }

  /** How many ids below j are not tolerated on one node. */
  function BadIds(rows: (int, int) -> int, node: int, j: int, failed: int): nat
    decreases j
  {
    if j <= 0 then 0
    else BadIds(rows, node, j - 1, failed) + if Tolerated(rows(node, j - 1), j - 1, failed) then 0 else 1
  }

  /** And on the nodes from 3 to n - 1 together. */
  function BadRows(rows: (int, int) -> int, n: int, iTrans: int, failed: int): nat
    decreases n
  {
    if n <= 3 then 0 else BadRows(rows, n - 1, iTrans, failed) + BadIds(rows, n - 1, iTrans, failed)
  }

  /** rows(node, id) is what count(*) gives; nodes from 3 on and ids below i_trans are looked at. */
  method Verdict(rows: (int, int) -> int, nodes: int, iTrans: int, failed: int) returns (globalResult: nat)
    ensures globalResult == BadRows(rows, nodes, iTrans, failed)
    ensures globalResult == 0 <==> forall i, j :: 3 <= i < nodes && 0 <= j < iTrans ==> Tolerated(rows(i, j), j, failed)
  {
    globalResult := 0;
    var n := 3;
    while n < nodes
      invariant 3 <= n && (n <= nodes || n == 3)
      invariant globalResult == BadRows(rows, n, iTrans, failed)
      invariant globalResult == 0 <==> forall i, j :: 3 <= i < n && 0 <= j < iTrans ==> Tolerated(rows(i, j), j, failed)
    {
      var j := 0;
      ghost var earlier := globalResult;
      while j < iTrans
        invariant 0 <= j && (j <= iTrans || j == 0)
        invariant globalResult == earlier + BadIds(rows, n, j, failed)
        invariant globalResult == 0 <==> earlier == 0 && forall i :: 0 <= i < j ==> Tolerated(rows(n, i), i, failed)
      {
        var rep := rows(n, j);
        if rep != N_INSERTS && j != failed - 1 {
          globalResult := globalResult + 1;
        }
        if j == failed - 1 && rep != 0 && rep != N_INSERTS {
          globalResult := globalResult + 1;
        }
        j := j + 1;
      }
      assert BadIds(rows, n, j, failed) == BadIds(rows, n, iTrans, failed);
      n := n + 1;
    }
  }

  /** t1 on a node that applied these transactions. */
  function Table(log: seq<int>): seq<Row> {
    if log == [] then [] else Table(log[..|log| - 1]) + Rows(N_INSERTS, log[|log| - 1])
  }

  function Count(log: seq<int>, id: int): nat {
    if log == [] then 0 else Count(log[..|log| - 1], id) + if log[|log| - 1] == id then 1 else 0
  }

  /** Each transaction adds what its INSERT statement says: one hundred rows with its own id. */
  lemma {:induction false} RowsOfId(log: seq<int>, id: int)
    ensures ParseStatement(Statement(100, id)) == Some(Rows(100, id))
    ensures |Where(Table(log), id)| == 100 * Count(log, id)
  {
    StatementReadsBack(N_INSERTS, id);
    if log != [] {
      var before, last := log[..|log| - 1], log[|log| - 1];
      RowsOfId(before, id);
      WhereAppend(Table(before), Rows(N_INSERTS, last), id);
      if last == id {
        WhereSame(Rows(N_INSERTS, last), id);
      } else {
        WhereOther(Rows(N_INSERTS, last), id);
      }
    }
  }

  lemma {:induction false} CountRange(log: seq<int>, a: int, b: int, id: int)
    ensures Count(log + Range(a, b), id) == Count(log, id) + if a <= id < b then 1 else 0
    decreases b - a
  {
    if a < b {
      RangeStep(a, b);
      var whole := log + Range(a, b);
      assert whole[..|whole| - 1] == log + Range(a, b - 1);
      CountRange(log, a, b - 1, id);
    } else {
      assert log + Range(a, b) == log;
    }
  }

  /** The verdict on one slave that applied these transactions. */
  ghost predicate Accepted(log: seq<int>, iTrans: int, failed: int) {
    forall j :: 0 <= j < iTrans ==> Tolerated(|Where(Table(log), j)|, j, failed)
  }

  /**
   What acceptance means, for any number of failovers: every inspected transaction was applied
   exactly once, and the one before the last that failed once or not at all.
   */
  lemma AcceptedMeans(log: seq<int>, iTrans: int, failed: int)
    ensures Accepted(log, iTrans, failed) <==> AllAppliedWell(log, iTrans, failed)
  {
    forall j
      ensures AppliedWell(log, j, failed) <==> Tolerated(|Where(Table(log), j)|, j, failed)
    {
      RowsOfId(log, j);
    }
  }

  predicate AppliedWell(log: seq<int>, id: int, failed: int) {
    Count(log, id) == 1 || (id == failed - 1 && Count(log, id) == 0)
  }

  predicate AllAppliedWell(log: seq<int>, iTrans: int, failed: int) {
    forall j :: 0 <= j < iTrans ==> AppliedWell(log, j, failed)
  }

  // ----- the verdict after failovers

  predicate Receivable(logs: seq<seq<int>>, received: seq<nat>) {
    |received| <= |logs| && forall i :: 0 <= i < |received| ==> received[i] <= |logs[i]|
  }

  /** What the slaves have of the masters that were given up: of each, as much as the router had by then. */
  function Fetched(logs: seq<seq<int>>, received: seq<nat>): seq<int>
    requires Receivable(logs, received)
  {
    if received == [] then [] else
    var n := |received| - 1;
    Fetched(logs, received[..n]) + logs[n][..received[n]]
  }

  /** In how many of these stretches the id is. */
  function Times(starts: seq<nat>, received: seq<nat>, id: int): nat
    requires |received| <= |starts|
  {
    if received == [] then 0 else
    var n := |received| - 1;
    Times(starts, received[..n], id) + if starts[n] <= id < starts[n] + received[n] then 1 else 0
  }

  lemma {:induction false} CountFetched(logs: seq<seq<int>>, starts: seq<nat>, next: nat, received: seq<nat>, id: int)
    requires Contiguous(logs, starts, next) && Receivable(logs, received)
    ensures Count(Fetched(logs, received), id) == Times(starts, received, id)
  {
    if received != [] {
      var n := |received| - 1;
      CountFetched(logs, starts, next, received[..n], id);
      CountStretch(Fetched(logs, received[..n]), logs[n], starts[n], received[n], id);
    }
  }

  lemma CountStretch(fetched: seq<int>, log: seq<int>, start: nat, received: nat, id: int)
    requires log == Range(start, start + |log|) && received <= |log|
    ensures Count(fetched + log[..received], id)
         == Count(fetched, id) + if start <= id < start + received then 1 else 0
  {
    RangePrefix(start, start + |log|, received);
    CountRange(fetched, start, start + received, id);
  }

  /** One number for every master but the last, of what the router had received from it. */
  ghost predicate ReceivedBefore(attempts: seq<Attempt>, received: seq<nat>) {
    |received| == |Starts(attempts)| - 1 && Receivable(Logs(attempts), received)
  }

  /** What the slaves apply: what the router had of the earlier masters, and what node 2 delivers. */
  ghost function SlaveLog(attempts: seq<Attempt>, received: seq<nat>, node2: Second): seq<int>
    requires ReceivedBefore(attempts, received)
  {
    Fetched(Logs(attempts), received) + Delivered(node2)
  }

  /**
   From the last failure on an id must not have come before; below that it must have come once,
   or, for the one before the failure, not at all.
   */
  predicate CameRight(starts: seq<nat>, failed: int, received: seq<nat>, id: int)
    requires |received| <= |starts|
  {
    var t := Times(starts, received, id);
    if id >= failed then t == 0 else t == 1 || (id == failed - 1 && t == 0)
  }

  predicate AllRight(starts: seq<nat>, failed: int, received: seq<nat>, iTrans: int)
    requires |received| <= |starts|
  {
    forall id :: 0 <= id < iTrans ==> CameRight(starts, failed, received, id)
  }

  ghost predicate AllCameRight(attempts: seq<Attempt>, received: seq<nat>)
    requires ReceivedBefore(attempts, received)
  {
    AllRight(Starts(attempts), LastFailed(attempts), received, Acks(attempts) - 1)
  }

  /**
   The verdict after any number of failovers, if the router answered every time: a slave is
   accepted exactly when every inspected id came right. reset master on node 2 throws away what
   the router had not received by then, so that this is a matter of those numbers alone.
   */
  lemma VerdictIsExact(files: seq<seq<int>>, attempts: seq<Attempt>, received: seq<nat>, node2: Second)
    requires files != [] && AllManageable(attempts) && AllAnswer(attempts) && !AllCommitted(attempts)
    requires ReceivedBefore(attempts, received) && node2 == SecondAfter(files, attempts)
    ensures Accepted(SlaveLog(attempts, received, node2), Acks(attempts) - 1, LastFailed(attempts))
        <==> AllCameRight(attempts, received)
  {
    WhatSlavesHave(files, attempts, received, node2);
    VerdictOnReceived(attempts, received, SlaveLog(attempts, received, node2));
  }

  lemma WhatSlavesHave(files: seq<seq<int>>, attempts: seq<Attempt>, received: seq<nat>, node2: Second)
    requires files != [] && AllManageable(attempts) && AllAnswer(attempts) && !AllCommitted(attempts)
    requires ReceivedBefore(attempts, received) && node2 == SecondAfter(files, attempts)
    ensures SlaveLog(attempts, received, node2)
         == Fetched(Logs(attempts), received) + Range(LastFailed(attempts), Acks(attempts))
  {
    NewLogIsDelivered(files, attempts);
    LastLog(attempts);
  }

  lemma LastLog(attempts: seq<Attempt>)
    ensures Logs(attempts)[|Logs(attempts)| - 1] == Range(LastFailed(attempts), Acks(attempts))
  {
    LogsAreContiguous(attempts);
  }

  lemma VerdictOnReceived(attempts: seq<Attempt>, received: seq<nat>, log: seq<int>)
    requires ReceivedBefore(attempts, received)
    requires log == Fetched(Logs(attempts), received) + Range(LastFailed(attempts), Acks(attempts))
    ensures Accepted(log, Acks(attempts) - 1, LastFailed(attempts)) <==> AllCameRight(attempts, received)
  {
    AcceptedMeans(log, Acks(attempts) - 1, LastFailed(attempts));
    AppliedIfRight(attempts, received, log);
  }

  lemma AppliedIfRight(attempts: seq<Attempt>, received: seq<nat>, log: seq<int>)
    requires ReceivedBefore(attempts, received)
    requires log == Fetched(Logs(attempts), received) + Range(LastFailed(attempts), Acks(attempts))
    ensures AllAppliedWell(log, Acks(attempts) - 1, LastFailed(attempts)) <==> AllCameRight(attempts, received)
  {
    LogsAreContiguous(attempts);
    AppliedAsReceived(Logs(attempts), Starts(attempts), LastFailed(attempts), Acks(attempts), received, log);
  }

  lemma AppliedAsReceived(logs: seq<seq<int>>, starts: seq<nat>, failed: int, next: nat, received: seq<nat>,
                          log: seq<int>)
    requires Contiguous(logs, starts, next) && Receivable(logs, received)
    requires log == Fetched(logs, received) + Range(failed, next)
    ensures AllAppliedWell(log, next - 1, failed) <==> AllRight(starts, failed, received, next - 1)
  {
    forall id
      ensures Count(log, id) == Times(starts, received, id) + if failed <= id < next then 1 else 0
    {
      CountFetched(logs, starts, next, received, id);
      CountRange(Fetched(logs, received), failed, next, id);
    }
    AllAppliedIfRight(log, starts, failed, received, next);
  }

  lemma AllAppliedIfRight(log: seq<int>, starts: seq<nat>, failed: int, received: seq<nat>, next: nat)
    requires |received| <= |starts|
    requires forall id :: Count(log, id) == Times(starts, received, id) + if failed <= id < next then 1 else 0
    ensures AllAppliedWell(log, next - 1, failed) <==> AllRight(starts, failed, received, next - 1)
  {
    forall id | 0 <= id < next - 1
      ensures AppliedWell(log, id, failed) <==> CameRight(starts, failed, received, id)
    {
      assert Count(log, id) == Times(starts, received, id) + if failed <= id < next then 1 else 0;
    }
  }

  lemma StartsOfOne(before: seq<Attempt>, bad: Attempt, after: seq<Attempt>)
    requires AllCommitted(before) && !Committed(bad) && AllCommitted(after)
    ensures |Starts(before + [bad] + after)| == 2
    ensures Starts(before + [bad] + after)[0] == 0 && Starts(before + [bad] + after)[1] == |before|
  {
    OneFailover(before, bad, after);
    LogsAreContiguous(before + [bad] + after);
    FirstStart(before + [bad] + after);
  }

  lemma {:induction false} FirstStart(attempts: seq<Attempt>)
    ensures Starts(attempts)[0] == 0
  {
    if attempts != [] {
      FirstStart(attempts[..|attempts| - 1]);
    }
  }

  /**
   With one failover that is: the router had all but at most the last acknowledged transaction
   of the old master, and the failed one did not get through twice (or is the last one, which
   is not looked at).
   */
  lemma VerdictAfterOne(before: seq<Attempt>, bad: Attempt, after: seq<Attempt>, received: nat)
    requires AllCommitted(before) && !Committed(bad) && AllCommitted(after)
    requires received <= |OldLog(|before|, bad)|
    ensures var a, f := before + [bad] + after, |before|;
      && ReceivedBefore(a, [received])
      && (AllCameRight(a, [received]) <==> received >= f - 1 && !(received == f + 1 && f < Acks(a) - 1))
  {
    var a, f := before + [bad] + after, |before|;
    OneFailover(before, bad, after);
    StartsOfOne(before, bad, after);
    forall id
      ensures Times(Starts(a), [received], id) == if 0 <= id < received then 1 else 0
    {
      assert [received][..0] == [];
    }
    if received < f - 1 {
      assert !CameRight(Starts(a), f, [received], received);
    }
    if received == f + 1 && f < Acks(a) - 1 {
      assert !CameRight(Starts(a), f, [received], f);
    }
  }

  // ----- the verdict without a failover, and the whole test

  lemma AcceptedPrefix(received: nat, k: nat)
    requires received <= k
    ensures Accepted(Range(0, received), k - 1, 0) <==> received >= k - 1
  {
    var log := Range(0, received);
    AcceptedMeans(log, k - 1, 0);
    forall id
      ensures Count(log, id) == if 0 <= id < received then 1 else 0
    {
      CountRange([], 0, received, id);
      assert [] + log == log;
    }
    if received < k - 1 {
      assert !AppliedWell(log, received, 0);
    }
  }

  lemma NoFailure(attempts: seq<Attempt>)
    requires AllCommitted(attempts)
    ensures Acks(attempts) == |attempts| && LastFailed(attempts) == 0 && Logs(attempts) == [Range(0, |attempts|)]
  {
    CommittedStretch([], attempts);
    assert [] + attempts == attempts;
    LogUnits([[]], [], Range(0, |attempts|));
  }

  /** Without a failure nothing is tolerated: every id but the last acknowledged must be there. */
  lemma VerdictWithoutFailure(attempts: seq<Attempt>, received: nat)
    requires AllCommitted(attempts) && received <= |attempts|
    ensures Logs(attempts) == [Range(0, |attempts|)]
    ensures Accepted(Range(0, |attempts|)[..received], Acks(attempts) - 1, LastFailed(attempts))
        <==> received >= |attempts| - 1
  {
    NoFailure(attempts);
    PrefixVerdict(received, |attempts|, Acks(attempts), LastFailed(attempts));
  }

  lemma PrefixVerdict(received: nat, n: nat, k: nat, failed: int)
    requires received <= n == k && failed == 0
    ensures Accepted(Range(0, n)[..received], k - 1, failed) <==> received >= n - 1
  {
    RangePrefix(0, n, received);
    AcceptedPrefix(received, n);
  }

  /**
   The test as a whole, with at least one failover. It passes exactly when the router answered
   every time and every inspected id came right; with fewer than four nodes no slave is looked
   at, and the answers are enough. Connections are taken to succeed, and the statements other
   than those of the transactions too; in the source any failure of one fails the test.
   */
  method FailoverTest(node2: BinlogServer, attempts: seq<Attempt>, received: seq<nat>, nodes: int)
    returns (globalResult: nat, defined: bool)
    requires node2.files != [] && !AllCommitted(attempts) && ReceivedBefore(attempts, received)
    modifies node2
    ensures defined <==> AllManageable(attempts)
    ensures defined ==>
      (globalResult == 0
       <==> AllAnswer(attempts) && (nodes <= 3 || AllCameRight(attempts, received)))
  {
    ghost var files := node2.files;
    var thread := new TransactionThread(node2);
    globalResult := 0;
    defined := thread.Run(attempts);
    if !defined {
      return;
    }
    WhatIsReported(files, attempts);
    var log := Fetched(thread.logs, received) + Delivered(thread.Node2());
    if AllAnswer(attempts) {
      VerdictIsExact(files, attempts, received, thread.Node2());
    }
    globalResult := VerdictOnSlaves(log, nodes, thread.iTrans, thread.failedTransactionNum);
    globalResult := globalResult + thread.reported;
  }

  /** The verdict when all slaves applied the same. */
  method VerdictOnSlaves(log: seq<int>, nodes: int, iTrans: int, failed: int) returns (globalResult: nat)
    ensures globalResult == 0 <==> nodes <= 3 || Accepted(log, iTrans, failed)
  {
    var rows := (node: int, id: int) => |Where(Table(log), id)| as int;
    globalResult := Verdict(rows, nodes, iTrans, failed);
    if nodes > 3 && globalResult == 0 {
      forall j | 0 <= j < iTrans
        ensures Tolerated(|Where(Table(log), j)|, j, failed)
      {
        assert Tolerated(rows(3, j), j, failed);
      }
    }
  }
}
