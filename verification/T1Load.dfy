/**
 Loading t1 and checking it: the per-block statement cache, insert_into_t1 and
 select_from_t1 of sql_t1.cpp.
 */
module T1Load {
  import opened CStrings
  import opened InsertStrings
  import opened T1Rows

  const CACHE_SIZE := 16
  const MAX_POLLS := 100

  /** A 32-bit signed int after an operation whose exact result is x. */
  function Wrap32(x: int): int {
    (x + 0x8000_0000) % 0x1_0000_0000 - 0x8000_0000
  }

  /** The loop variable x of insert_into_t1 and select_from_t1 in round i. */
  function X(i: nat): int {
    if i == 0 then 16 else Wrap32(X(i - 1) * 16)
  }

  /** x is the size of block i as long as that fits an int, and 0 from then on. */
  lemma {:induction false} XValue(i: nat)
    ensures X(i) == if i < 7 then Pow16(i + 1) else 0
  {
    if i > 0 {
      XValue(i - 1);
      PowerBelow(i);
    }
  }

  lemma {:induction false} PowerBelow(i: nat)
    ensures i < 7 ==> Pow16(i + 1) <= 0x1000_0000
    ensures i == 7 ==> Pow16(i) == 0x1000_0000
  {
    assert Pow16(2) == 0x100;
    assert Pow16(4) == 16 * (16 * Pow16(2)) == 0x1_0000;
    assert Pow16(6) == 16 * (16 * Pow16(4)) == 0x100_0000;
    assert Pow16(7) == 0x1000_0000;
    if i < 7 {
      PowerMonotone(i + 1, 7);
    }
  }

  lemma {:induction false} PowerMonotone(m: nat, n: nat)
    requires m <= n
    ensures Pow16(m) <= Pow16(n)
  {
    if m < n {
      PowerMonotone(m, n - 1);
    }
  }

  /** A server holding t1. It may refuse any statement, and refuses what it cannot read. */
  class Server {
    var table: seq<Row>

    constructor ()
      ensures table == []
    {
      table := [];
    }

    method ExecuteQuery(sql: array<char>, accepts: bool, ghost text: string) returns (rc: int)
      requires Holds(sql, text)
      modifies this
      ensures rc == if accepts && ParseStatement(text).Some? then 0 else 1
      ensures table == if rc == 0 then old(table) + ParseStatement(text).value else old(table)
    {
      var end := FindNul(sql, 0, text);
      var rows := ParseStatement(sql[..end]);
      if accepts && rows.Some? {
        table := table + rows.value;
        return 0;
      }
      return 1;
    }
  }

  /** The slot of the cache that serves index fl; a negative fl compares as a huge size. */
  function Slot(fl: int): (slot: nat)
    ensures slot < CACHE_SIZE && slot == if 0 <= fl < 16 then fl else 15
  {
    if 0 <= fl < CACHE_SIZE then fl else CACHE_SIZE - 1
  }

  /**
   The slot was filled for the same rows as are asked for, and is the slot of that fl; or there
   are no rows at all.
   */
  predicate IsFresh(filled: nat, n: nat, fl: int) {
    (filled == n && Slot(fl) == fl) || (filled == 0 && n == 0)
  }

  lemma FreshText(filled: nat, n: nat, fl: int)
    ensures Statement(filled, Slot(fl)) == Statement(n, fl) <==> IsFresh(filled, n, fl)
  {
    StatementIsInjective(filled, Slot(fl), n, fl);
  }

  /** The static array sql of sql_t1.cpp: one statement per block, made on first use. */
  class StatementCache {
    var sql: seq<array?<char>>
    ghost var rows: map<nat, nat>  // for every filled slot, the N it was filled for

    ghost predicate Valid()
      reads this, sql
    {
      && (|sql| == 0 || |sql| == CACHE_SIZE)
      && (forall k :: k in rows ==> k < |sql| && sql[k] != null)
      && (forall k :: 0 <= k < |sql| && sql[k] != null ==> k in rows && Holds(sql[k], Statement(rows[k], k)))
    }

    /** Every filled slot holds the statement a fresh build for that block would give. */
    ghost predicate Transparent()
      reads this
    {
      forall k :: k in rows ==> rows[k] == X(k)
    }

    constructor ()
      ensures Valid() && Transparent() && rows == map[]
    {
      sql := [];
      rows := map[];
    }

    /**
     The statement handed out is the one a fresh build would give exactly if IsFresh says so;
     otherwise it is the one for the number of rows its slot was first asked for.
     */
    method AllocateInsertString(fl: int, n: nat) returns (r: array<char>)
      requires Valid()
      modifies this
      ensures Valid()
      ensures rows == if Slot(fl) in old(rows) then old(rows) else old(rows)[Slot(fl) := n]
      ensures Holds(r, Statement(rows[Slot(fl)], Slot(fl)))
      ensures Holds(r, Statement(n, fl)) <==> IsFresh(rows[Slot(fl)], n, fl)
    {
      r := Fetch(fl, n);
      FreshText(rows[Slot(fl)], n, fl);
      if Holds(r, Statement(n, fl)) {
        HoldsIsUnique(r, Statement(n, fl), Statement(rows[Slot(fl)], Slot(fl)));
      }
    }

    /** Asked only for the sizes of the load, a transparent cache stays so. */
    method StatementForRound(i: nat, x: nat) returns (r: array<char>)
      requires Valid() && Transparent() && x == X(i) == X(Slot(i))
      modifies this
      ensures Valid() && Transparent()
      ensures Holds(r, Statement(X(i), Slot(i)))
    {
      r := AllocateInsertString(i, x);
    }

    method Fetch(fl: int, n: nat) returns (r: array<char>)
      requires Valid()
      modifies this
      ensures Valid()
      ensures rows == if Slot(fl) in old(rows) then old(rows) else old(rows)[Slot(fl) := n]
      ensures Holds(r, Statement(rows[Slot(fl)], Slot(fl)))
    {
      if |sql| == 0 {
        sql := seq(CACHE_SIZE, _ => null);
      }
      var slot := Slot(fl);
      var cached := sql[slot];
      if cached == null {
        r := Build(slot, n);
        Fill(slot, n, r);
      } else {
        r := cached;
      }
    }

    static method Build(slot: nat, n: nat) returns (r: array<char>)
      ensures fresh(r) && Holds(r, Statement(n, slot)) && r.Length == Allocated(n, slot)
    {
      var size := |INS1| + 1 + n * |Piece(n, slot)| + 60;
      AllocationSuffices(n, slot);
      r := new char[size];
      CreateInsertString(r, n, slot);
    }

    method Fill(slot: nat, n: nat, r: array<char>)
      requires Valid() && slot < |sql| && sql[slot] == null && Holds(r, Statement(n, slot))
      modifies this
      ensures Valid() && rows == old(rows)[slot := n]
    {
      sql := sql[slot := r];
      rows := rows[slot := n];
    }
  }

  // ----- insert_into_t1

  /** Whether the statement of block i gets in; from block 7 on the text is not an INSERT. */
  predicate GetsIn(accepts: nat -> bool, i: nat) {
    i < 7 && accepts(i)
  }

  /** The rows n rounds of the load leave behind. */
  function Loaded(accepts: nat -> bool, n: nat): seq<Row> {
    if n == 0 then [] else Loaded(accepts, n - 1) + LoadedIn(accepts, n - 1)
  }

  /** Every one of the first n statements gets in. */
  ghost predicate AllGetIn(accepts: nat -> bool, n: int) {
    forall i :: 0 <= i < n ==> GetsIn(accepts, i)
  }

  lemma AllGetInMore(accepts: nat -> bool, n: nat)
    ensures AllGetIn(accepts, n + 1) <==> AllGetIn(accepts, n) && GetsIn(accepts, n)
  {
  }

  lemma {:induction false} LoadedInFull(accepts: nat -> bool, n: nat)
    requires AllGetIn(accepts, n)
    ensures Loaded(accepts, n) == Blocks(n)
  {
    if n > 0 {
      LoadedInFull(accepts, n - 1);
    }
  }

  /** What round i leaves behind. */
  function LoadedIn(accepts: nat -> bool, i: nat): seq<Row> {
    if GetsIn(accepts, i) then Block(i) else []
  }

  lemma WhereLoadedIn(accepts: nat -> bool, i: nat, fl: nat)
    ensures Where(LoadedIn(accepts, i), fl) == if fl == i then LoadedIn(accepts, i) else []
  {
    if fl == i {
      WhereSame(LoadedIn(accepts, i), fl);
    } else {
      WhereOther(LoadedIn(accepts, i), fl);
    }
  }

  lemma {:induction false} WhereLoaded(accepts: nat -> bool, n: nat, fl: nat)
    ensures Where(Loaded(accepts, n), fl) == if fl < n && GetsIn(accepts, fl) then Block(fl) else []
  {
    if n > 0 {
      WhereLoaded(accepts, n - 1, fl);
      WhereLoadedIn(accepts, n - 1, fl);
      WhereAppend(Loaded(accepts, n - 1), LoadedIn(accepts, n - 1), fl);
    }
  }

  /** What the server makes of the statement that the cache hands out in round i. */
  lemma StatementOfRound(i: nat)
    ensures X(i) >= 0 && X(i) == X(Slot(i))
    ensures ParseStatement(Statement(X(i), Slot(i))).Some? <==> i < 7
    ensures i < 7 ==> ParseStatement(Statement(X(i), Slot(i))).value == Block(i)
  {
    XValue(i);
    XValue(Slot(i));
    StatementReadsBack(X(i), Slot(i));
  }

  lemma {:induction false} LoadedMore(accepts: nat -> bool, i: nat, before: seq<Row>)
    ensures before + Loaded(accepts, i + 1)
         == before + Loaded(accepts, i) + LoadedIn(accepts, i)
  {
    Regroup(before, Loaded(accepts, i), LoadedIn(accepts, i));
  }

  /** One round: fetch the statement, send it. */
  method InsertBlock(cache: StatementCache, server: Server, i: nat, x: int, accepts: nat -> bool,
                     ghost before: seq<Row>)
    returns (rc: int)
    requires cache.Valid() && cache.Transparent() && x == X(i)
    requires server.table == before + Loaded(accepts, i)
    modifies cache, server
    ensures cache.Valid() && cache.Transparent()
    ensures rc == if GetsIn(accepts, i) then 0 else 1
    ensures server.table == before + Loaded(accepts, i + 1)
  {
    StatementOfRound(i);
    var sqlstr := cache.StatementForRound(i, x);
    rc := server.ExecuteQuery(sqlstr, accepts(i), Statement(X(i), Slot(i)));
    LoadedMore(accepts, i, before);
  }

  lemma Regroup(s: seq<Row>, t: seq<Row>, u: seq<Row>)
    ensures s + t + u == s + (t + u)
  {
  }

  /** How many rounds a loop up to n makes. */
  function Rounds(n: int): nat {
    if n <= 0 then 0 else n
  }

  /** accepts(i) says whether the server takes the i-th statement if it can read it. */
  method InsertIntoT1(cache: StatementCache, server: Server, n: int, accepts: nat -> bool) returns (result: int)
    requires cache.Valid() && cache.Transparent()
    modifies cache, server
    ensures cache.Valid() && cache.Transparent()
    ensures server.table == old(server.table) + Loaded(accepts, Rounds(n))
    ensures result == 0 <==> AllGetIn(accepts, n)
    ensures result == 0 ==> server.table == old(server.table) + Blocks(Rounds(n))
  {
    result := InsertBlocks(cache, server, n, accepts);
    if result == 0 {
      LoadedInFull(accepts, Rounds(n));
    }
  }

  method InsertBlocks(cache: StatementCache, server: Server, n: int, accepts: nat -> bool) returns (result: int)
    requires cache.Valid() && cache.Transparent()
    modifies cache, server
    ensures cache.Valid() && cache.Transparent()
    ensures server.table == old(server.table) + Loaded(accepts, Rounds(n))
    ensures result == 0 <==> AllGetIn(accepts, n)
  {
    ghost var before := server.table;
    assert before + [] == before;
    var x := 16;
    result := 0;
    var i := 0;
    while i < n
      invariant 0 <= i && (i <= n || i == 0) && x == X(i)
      invariant cache.Valid() && cache.Transparent()
      invariant server.table == before + Loaded(accepts, i)
      invariant result >= 0 && (result == 0 <==> AllGetIn(accepts, i))
    {
      var rc := InsertBlock(cache, server, i, x, accepts, before);
      AllGetInMore(accepts, i);
      result := result + rc;
      x := Wrap32(x * 16);
      i := i + 1;
    }
  }

  // ----- select_from_t1

  /** What mysql_store_result gives: nothing, or a result set of so many columns. */
  datatype Reply = Nothing | Result(fields: nat, rows: seq<seq<int>>)

  ghost predicate WellFormed(reply: (nat, nat) -> Reply) {
    forall fl, k :: reply(fl, k).Result? ==>
      forall r :: 0 <= r < |reply(fl, k).rows| ==> |reply(fl, k).rows[r]| == reply(fl, k).fields
  }

  /** A result set with the wrong number of rows: asked for again. */
  predicate WrongCount(reply: Reply, rows: nat) {
    reply.Result? && |reply.rows| != rows
  }

  /** A result set the check is content with. */
  predicate Expected(reply: Reply, rows: nat) {
    && reply.Result? && |reply.rows| == rows && reply.fields == 2
    && forall r :: 0 <= r < rows ==> |reply.rows[r]| > 0 && reply.rows[r][0] == r
  }

  /** Within 100 polls the right rows arrive, and no poll before that gave nothing at all. */
  ghost predicate Confirmed(reply: (nat, nat) -> Reply, fl: nat, rows: nat) {
    exists k :: 0 <= k < MAX_POLLS && Expected(reply(fl, k), rows)
      && forall j :: 0 <= j < k ==> WrongCount(reply(fl, j), rows)
  }

  /** The check of block fl succeeds. */
  ghost predicate BlockConfirmed(connected: bool, reply: (nat, nat) -> Reply, fl: nat) {
    connected && Confirmed(reply, fl, Pow16(fl + 1))
  }

  /**
   reply(fl, k) is the answer to poll k of block fl. Asked for no rows at all, the source
   polls nothing and goes on with an unset result pointer; defined is false then.
   */
  method ExecuteSelectQueryAndCheck(connected: bool, reply: (nat, nat) -> Reply, fl: nat, rows: nat)
    returns (testResult: int, polls: nat, defined: bool)
    requires WellFormed(reply)
    ensures testResult == 0 || testResult == 1
    ensures polls <= 100 && (!connected ==> polls == 0 && testResult == 1)
    ensures defined && connected ==>
      && polls > 0
      && (polls == 100 || (reply(fl, polls - 1).Result? && |reply(fl, polls - 1).rows| == rows))
      && (forall k :: 0 <= k < polls - 1 && reply(fl, k).Result? ==> |reply(fl, k).rows| != rows)
      && var last := reply(fl, polls - 1);
      testResult == 0 <==>
        && (forall k :: 0 <= k < polls ==> reply(fl, k).Result?)
        && |last.rows| == rows && last.fields == 2 && forall r :: 0 <= r < rows ==> last.rows[r][0] == r
    ensures defined <==> !connected || rows > 0
    ensures defined ==> (testResult == 0 <==> connected && Confirmed(reply, fl, rows))
  {
    testResult := 0;
    polls := 0;
    defined := true;
    if !connected {
      return 1, 0, true;
    }
    if rows == 0 {
      return 0, 0, false;
    }
    var rowsFromSelect := 0;
    var res := Nothing;
    while rowsFromSelect != rows && polls < MAX_POLLS
      invariant polls <= MAX_POLLS
      invariant testResult == 0 || testResult == 1
      decreases MAX_POLLS - polls
      invariant rowsFromSelect == rows ==> polls > 0 && res == reply(fl, polls - 1) && res.Result? && |res.rows| == rows
      invariant testResult == 0 <==> forall j :: 0 <= j < polls ==> reply(fl, j).Result?
      invariant forall j :: 0 <= j < polls && reply(fl, j).Result? && |reply(fl, j).rows| == rows ==>
        rowsFromSelect == rows && j == polls - 1
    {
      res := reply(fl, polls);
      if res.Nothing? {
        testResult := 1;
      } else {
        rowsFromSelect := |res.rows|;
      }
      polls := polls + 1;
    }
    if rowsFromSelect != rows {
      testResult := 1;
    } else {
      if res.fields != 2 {
        testResult := 1;
      }
      var rowI := 0;
      ghost var polled := testResult;
      while rowI < |res.rows|
        invariant 0 <= rowI <= |res.rows|
        invariant testResult == 0 || testResult == 1
        invariant testResult == 0
          <==> polled == 0 && forall r :: 0 <= r < rowI && res.fields > 0 ==> res.rows[r][0] == r
      {
        if res.fields > 0 && res.rows[rowI][0] != rowI {
          testResult := 1;
        }
        rowI := rowI + 1;
      }
      if testResult == 0 {
        assert Expected(reply(fl, polls - 1), rows);
      }
    }
  }

  /** One round: the query of block i and its check. */
  method SelectBlock(connected: bool, reply: (nat, nat) -> Reply, i: nat, x: int) returns (verdict: int, defined: bool)
    requires WellFormed(reply) && x == X(i)
    ensures verdict == 0 || verdict == 1
    ensures defined <==> !connected || i < 7
    ensures defined ==> (verdict == 0 <==> BlockConfirmed(connected, reply, i))
  {
    XValue(i);
    var polls;
    verdict, polls, defined := ExecuteSelectQueryAndCheck(connected, reply, i, x);
  }

  /** The result is defined as long as no row count has wrapped to 0, that is for up to seven blocks. */
  method SelectFromT1(connected: bool, reply: (nat, nat) -> Reply, n: int) returns (result: int, defined: bool)
    requires WellFormed(reply)
    ensures defined <==> !connected || n <= 7
    ensures defined ==> (result == 0 <==> forall i :: 0 <= i < n ==> BlockConfirmed(connected, reply, i))
  {
    var x := 16;
    result, defined := 0, true;
    var i := 0;
    while i < n
      invariant 0 <= i && (i <= n || i == 0) && x == X(i)
      invariant result >= 0 && defined && (!connected || i <= 7)
      invariant result == 0 <==> forall j :: 0 <= j < i ==> BlockConfirmed(connected, reply, j)
    {
      var verdict;
      verdict, defined := SelectBlock(connected, reply, i, x);
      if !defined {
        return;
      }
      result := result + verdict;
      x := Wrap32(x * 16);
      i := i + 1;
    }
  }

  // ----- the check against the load

  /** A server that answers every poll from the same table. */
  function Answers(table: seq<Row>): (nat, nat) -> Reply {
    (fl: nat, k: nat) =>
      Result(2, seq(|Where(table, fl)|, i requires 0 <= i < |Where(table, fl)| => [Where(table, fl)[i].x1, fl]))
  }

  lemma AnswersWellFormed(table: seq<Row>)
    ensures WellFormed(Answers(table))
  {
  }

  /** On a table at rest, one block passes exactly when it is there row for row. */
  lemma BlockPasses(table: seq<Row>, fl: nat)
    ensures BlockConfirmed(true, Answers(table), fl) <==> Where(table, fl) == Block(fl)
  {
    var rows := Pow16(fl + 1);
    var reply := Answers(table)(fl, 0);
    if Where(table, fl) == Block(fl) {
      assert Expected(reply, rows);
    }
    if Confirmed(Answers(table), fl, rows) {
      var k :| 0 <= k < MAX_POLLS && Expected(Answers(table)(fl, k), rows);
      assert Answers(table)(fl, k) == reply;
      forall r | 0 <= r < rows
        ensures Where(table, fl)[r] == Block(fl)[r]
      {
        assert reply.rows[r] == [Where(table, fl)[r].x1, fl];
      }
    }
  }

  /**
   A zero verdict on a table at rest says exactly that every block below n is there row
   for row, and a table that was loaded from empty gets one.
   */
  lemma VerdictOnTable(table: seq<Row>, n: nat)
    ensures (forall i :: 0 <= i < n ==> BlockConfirmed(true, Answers(table), i))
        <==> (forall i :: 0 <= i < n ==> Where(table, i) == Block(i))
    ensures table == Blocks(n) ==> forall i :: 0 <= i < n ==> BlockConfirmed(true, Answers(table), i)
  {
    forall i | 0 <= i < n
      ensures BlockConfirmed(true, Answers(table), i) <==> Where(table, i) == Block(i)
      ensures Where(Blocks(n), i) == Block(i)
    {
      BlockPasses(table, i);
      WhereBlocks(n, i);
    }
  }

  /**
   insert_into_t1 on an empty table and then select_from_t1, as the tests call them: the
   check is defined for up to seven blocks, and passes exactly when every INSERT did.
   */
  method InsertAndSelect(cache: StatementCache, n: nat, accepts: nat -> bool)
    returns (inserted: int, selected: int, defined: bool)
    requires cache.Valid() && cache.Transparent()
    modifies cache
    ensures cache.Valid() && cache.Transparent()
    ensures inserted == 0 <==> AllGetIn(accepts, n)
    ensures defined <==> n <= 7
    ensures defined ==> (inserted == 0 <==> selected == 0)
  {
    var server := new Server();
    inserted := InsertIntoT1(cache, server, n, accepts);
    assert server.table == Loaded(accepts, n);
    AnswersWellFormed(server.table);
    VerdictOnTable(server.table, n);
    forall i | 0 <= i < n
      ensures GetsIn(accepts, i) <==> Where(server.table, i) == Block(i)
    {
      WhereLoaded(accepts, n, i);
      assert |Block(i)| > 0;
    }
    selected, defined := SelectFromT1(true, Answers(server.table), n);
  }

  /** The cache by itself is not transparent: a second request for block 0 gets the first size again. */
  method SecondSizeIsIgnored(m: nat, n: nat) returns (r: array<char>)
    ensures Holds(r, Statement(m, 0))
    ensures Holds(r, Statement(n, 0)) <==> m == n
  {
    var cache := new StatementCache();
    r := cache.AllocateInsertString(0, m);
    r := cache.AllocateInsertString(0, n);
  }
}
