/**
 The loop of avro.cpp that checks the records of an Avro file one line at a time
 against the rows insert_into_t1 is known to have written.
 */
module AvroRecogniser {
  import opened T1Load
  import opened T1Rows

  const EXPECTED_BLOCKS := 3

  /**
   lines are the decoded (x1, fl) pairs. Reading stops at the end or at the first line that is
   not in its place, in block fl at x1. The result counts the failures reported: one for such a
   line, and one if the place is not in the fourth block. So the check succeeds exactly on the
   streams that hold the three blocks in full and then at most a part of a fourth.
   */
  method CheckAvro(lines: seq<Row>) returns (globalResult: nat, ghost fl: nat, ghost x1: nat)
    ensures x1 < Pow16(fl + 1) && |Blocks(fl)| + x1 <= |lines|
    ensures lines[..|Blocks(fl)| + x1] == Blocks(fl) + Block(fl)[..x1]
    ensures |Blocks(fl)| + x1 < |lines| ==> lines[|Blocks(fl)| + x1] != Row(x1, fl)
    ensures globalResult == (if |Blocks(fl)| + x1 < |lines| then 1 else 0) + if fl == 3 then 0 else 1
    ensures globalResult == 0 <==> Blocks(EXPECTED_BLOCKS) <= lines < Blocks(EXPECTED_BLOCKS + 1)
  {
    globalResult := 0;
    var x1Exp, flExp: nat, x := 0, 0, 16;
    var k := 0;
    while k < |lines|
      invariant 0 <= k <= |lines|
      invariant k < |lines| || lines[..k] == lines
      invariant globalResult == 0 && x == Pow16(flExp + 1) && 0 <= x1Exp < x
      invariant k == |Blocks(flExp)| + x1Exp
      invariant lines[..k] == Blocks(flExp) + Block(flExp)[..x1Exp]
    {
      if lines[k].x1 != x1Exp || lines[k].fl != flExp {
        globalResult := globalResult + 1;
        NotExpected(lines, flExp, x1Exp);
        break;
      }
      assert lines[..k + 1] == Blocks(flExp) + Block(flExp)[..x1Exp + 1];
      x1Exp := x1Exp + 1;
      if x1Exp >= x {
        assert Block(flExp)[..x1Exp] == Block(flExp);
        x1Exp := 0;
        x := x * 16;
        flExp := flExp + 1;
      }
      k := k + 1;
    }
    if flExp != EXPECTED_BLOCKS {
      globalResult := globalResult + 1;
    }
    if k == |lines| {
      assert lines[..k] == lines;
      StateDecides(lines, flExp, x1Exp);
    }
    fl, x1 := flExp, x1Exp;
  }

  /** A line that differs from its place in the load rules the stream out. */
  lemma NotExpected(lines: seq<Row>, fl: nat, x1: nat)
    requires x1 < Pow16(fl + 1) && |Blocks(fl)| + x1 < |lines|
    requires lines[|Blocks(fl)| + x1] != Row(x1, fl)
    ensures !(Blocks(EXPECTED_BLOCKS) <= lines < Blocks(EXPECTED_BLOCKS + 1))
  {
    var n := EXPECTED_BLOCKS + 1;
    if fl < n {
      BlocksAt(n, fl, x1);
    } else {
      BlocksPrefix(n, fl);
    }
  }

  /** The state after a stream without mismatch decides: exactly three complete blocks. */
  lemma StateDecides(lines: seq<Row>, fl: nat, x1: nat)
    requires x1 < Pow16(fl + 1) && lines == Blocks(fl) + Block(fl)[..x1]
    ensures fl == EXPECTED_BLOCKS <==> Blocks(EXPECTED_BLOCKS) <= lines < Blocks(EXPECTED_BLOCKS + 1)
  {
    var n := EXPECTED_BLOCKS;
    if fl < n {
      BlocksPrefix(fl + 1, n);
    } else if fl > n {
      BlocksPrefix(n + 1, fl);
    }
  }

  /** The state (fl, x1) of the loop is determined by the number of lines read. */
  lemma StateIsUnique(fl: nat, x1: nat, fl': nat, x1': nat)
    requires x1 < Pow16(fl + 1) && x1' < Pow16(fl' + 1)
    requires |Blocks(fl)| + x1 == |Blocks(fl')| + x1'
    ensures fl == fl' && x1 == x1'
  {
    BlocksStep(fl);
    BlocksStep(fl');
    if fl < fl' {
      BlocksPrefix(fl + 1, fl');
    } else if fl' < fl {
      BlocksPrefix(fl' + 1, fl);
    }
  }

  /** In numbers: a prefix of the load passes from 4368 lines on, up to 69903. */
  lemma PassingLengths(lines: seq<Row>, n: nat)
    requires lines <= Blocks(n)
    ensures Blocks(EXPECTED_BLOCKS) <= lines < Blocks(EXPECTED_BLOCKS + 1) <==> 4368 <= |lines| < 69904
  {
    var b := EXPECTED_BLOCKS;
    BlocksLength(b);
    BlocksLength(b + 1);
    assert Pow16(2) == 256;
    assert Pow16(4) == 16 * (16 * Pow16(2)) == 65536;
    assert Pow16(5) == 16 * Pow16(4) == 1048576;
    if n <= b {
      BlocksPrefix(n, b);
      BlocksPrefix(b, b + 1);
    } else {
      BlocksPrefix(b, n);
      BlocksPrefix(b + 1, n);
    }
  }

  lemma {:induction false} LoadedShort(accepts: nat -> bool, n: nat)
    ensures |Loaded(accepts, n)| <= |Blocks(n)|
    ensures |Loaded(accepts, n)| == |Blocks(n)| ==> forall i :: 0 <= i < n ==> GetsIn(accepts, i)
  {
    if n > 0 {
      LoadedShort(accepts, n - 1);
      assert |Block(n - 1)| > 0;
    }
  }

  /**
   The test as a whole, with the table streamed in insertion order: the file is found good
   exactly when all three INSERT statements went through.
   */
  method InsertAndCheckAvro(cache: StatementCache, accepts: nat -> bool) returns (inserted: int, globalResult: nat)
    requires cache.Valid() && cache.Transparent()
    modifies cache
    ensures cache.Valid() && cache.Transparent()
    ensures inserted == 0 <==> globalResult == 0
  {
    var server := new Server();
    inserted := InsertIntoT1(cache, server, EXPECTED_BLOCKS, accepts);
    ghost var fl, x1;
    globalResult, fl, x1 := CheckAvro(server.table);
    assert server.table == Loaded(accepts, EXPECTED_BLOCKS);
    LoadedShort(accepts, EXPECTED_BLOCKS);
    if inserted == 0 {
      StateDecides(server.table, EXPECTED_BLOCKS, 0);
    }
  }
}
