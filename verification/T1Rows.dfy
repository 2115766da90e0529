/**
 The contents of table t1 (x1 int, fl int): block fl holds the rows (0, fl), (1, fl), ...,
 and the load writes one block of 16^(fl+1) rows after the other.
 */
module T1Rows {
  datatype Row = Row(x1: int, fl: int)

  /** The rows (0, fl) ... (n - 1, fl). */
  function Rows(n: nat, fl: int): seq<Row> {
    seq(n, i => Row(i, fl))
  }

  function Pow16(n: nat): (p: nat)
    ensures p > 0
  {
    if n == 0 then 1 else 16 * Pow16(n - 1)
  }

  /** The rows of block fl. */
  function Block(fl: nat): seq<Row> {
    Rows(Pow16(fl + 1), fl)
  }

  /** Blocks 0 to n - 1, in the order the load writes them. */
  function Blocks(n: nat): seq<Row> {
    if n == 0 then [] else Blocks(n - 1) + Block(n - 1)
  }

  /** SELECT * FROM t1 WHERE fl = ..., in insertion order. */
  function Where(table: seq<Row>, fl: int): (r: seq<Row>)
    ensures |r| <= |table| && forall k :: 0 <= k < |r| ==> r[k].fl == fl
  {
    if table == [] then []
    else if table[0].fl == fl then [table[0]] + Where(table[1..], fl)
    else Where(table[1..], fl)
  }

  /** The number of rows before block n is the geometric sum 16 + 16^2 + ... + 16^n. */
  lemma {:induction false} BlocksLength(n: nat)
    ensures 15 * |Blocks(n)| == Pow16(n + 1) - 16
  {
    if n > 0 {
      BlocksLength(n - 1);
    }
  }

  lemma BlocksStep(n: nat)
    ensures |Blocks(n + 1)| == |Blocks(n)| + Pow16(n + 1)
  {
  }

  /** The rows before block b end exactly where the rows of any longer load continue. */
  lemma {:induction false} BlocksPrefix(a: nat, b: nat)
    requires a <= b
    ensures Blocks(a) <= Blocks(b)
  {
    if a < b {
      BlocksPrefix(a, b - 1);
    }
  }

  /** Row number x1 of block fl sits behind all smaller blocks. */
  lemma BlocksAt(n: nat, fl: nat, x1: nat)
    requires fl < n && x1 < Pow16(fl + 1)
    ensures |Blocks(fl)| + x1 < |Blocks(n)|
    ensures Blocks(n)[|Blocks(fl)| + x1] == Row(x1, fl)
  {
    BlocksPrefix(fl + 1, n);
    assert Blocks(fl + 1)[|Blocks(fl)| + x1] == Block(fl)[x1];
  }

  lemma {:induction false} WhereAppend(s: seq<Row>, t: seq<Row>, fl: int)
    ensures Where(s + t, fl) == Where(s, fl) + Where(t, fl)
  {
    if s == [] {
      assert s + t == t;
    } else {
      assert (s + t)[1..] == s[1..] + t;
      WhereAppend(s[1..], t, fl);
    }
  }

  lemma {:induction false} WhereSame(s: seq<Row>, fl: int)
    requires forall k :: 0 <= k < |s| ==> s[k].fl == fl
    ensures Where(s, fl) == s
  {
    if s != [] {
      WhereSame(s[1..], fl);
    }
  }

  lemma {:induction false} WhereOther(s: seq<Row>, fl: int)
    requires forall k :: 0 <= k < |s| ==> s[k].fl != fl
    ensures Where(s, fl) == []
  {
    if s != [] {
      WhereOther(s[1..], fl);
    }
  }

  lemma WhereBlock(n: nat, fl: int)
    ensures Where(Block(n), fl) == if fl == n then Block(n) else []
  {
    if fl == n {
      WhereSame(Block(n), fl);
    } else {
      WhereOther(Block(n), fl);
    }
  }

  /** A loaded table gives back each of its blocks, and nothing for any other fl. */
  lemma {:induction false} WhereBlocks(n: nat, fl: int)
    ensures Where(Blocks(n), fl) == if 0 <= fl < n then Block(fl) else []
  {
    if n > 0 {
      WhereBlocks(n - 1, fl);
      WhereAppend(Blocks(n - 1), Block(n - 1), fl);
      WhereBlock(n - 1, fl);
    }
  }
}
