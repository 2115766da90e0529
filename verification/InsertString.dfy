/**
 The INSERT statement printer of sql_t1.cpp, the size of the buffer it prints into,
 and a reader of the statement it produces.
 */
module InsertStrings {
  import opened Options
  import opened Decimal
  import opened CStrings
  import opened T1Rows

  const INS1 := "INSERT INTO t1 (x1, fl) VALUES "

  /** "(%d, %d)" */
  function Tuple(i: int, fl: int): (s: string)
    ensures |s| >= 6
  {
    "(" + PrintInt(i) + ", " + PrintInt(fl) + ")"
  }

  /** "(%d, %d)," */
  function Piece(i: int, fl: int): (s: string)
    ensures |s| == |Tuple(i, fl)| + 1
  {
    Tuple(i, fl) + ","
  }

  lemma PieceNulFree(i: int, fl: int)
    ensures NulFree(Piece(i, fl))
  {
  }

  /** The text after n rounds of the printing loop, without the leading INS1. */
  function Listed(n: nat, fl: int): string {
    if n == 0 then "" else Listed(n - 1, fl) + Piece(n - 1, fl)
  }

  /**
   The finished statement. Without rows there is no trailing comma, and the comma
   that gets replaced is the one between the column names.
   */
  function Statement(n: int, fl: int): string {
    if n <= 0 then "INSERT INTO t1 (x1;"
    else INS1 + (Listed(n - 1, fl) + (Tuple(n - 1, fl) + ";"))
  }

  /** Bytes the printing needs at its widest moment, terminator included. */
  function Needed(n: int, fl: int): nat {
    |INS1| + |Listed(if n <= 0 then 0 else n, fl)| + 1
  }

  /** Bytes allocated for the statement: sizeof(ins1) + N * strlen("(N, fl),") + 60. */
  function Allocated(n: nat, fl: int): nat {
    |INS1| + 1 + n * |Piece(n, fl)| + 60
  }

  method CreateInsertString(sql: array<char>, n: int, fl: int)
    requires Needed(n, fl) <= sql.Length
    modifies sql
    ensures Holds(sql, Statement(n, fl))
  {
    HeadFacts();
    StrCpy(sql, INS1);
    var wptr := PrintTuples(sql, n, fl, INS1);
    CloseStatement(sql, wptr, n, fl, INS1, 18);
  }

  lemma HeadFacts()
    ensures INS1[18] == ',' && NulFree(INS1) && forall k :: 18 < k < |INS1| ==> INS1[k] != ','
    ensures INS1[..18] + ";" == "INSERT INTO t1 (x1;"
  {
  }

  /** The printing loop; the tuples go behind whatever text the buffer holds. */
  method PrintTuples(sql: array<char>, n: int, fl: int, ghost head: string) returns (wptr: nat)
    requires Holds(sql, head)
    requires |head| + |Listed(if n <= 0 then 0 else n, fl)| < sql.Length
    modifies sql
    ensures Holds(sql, head + Listed(if n <= 0 then 0 else n, fl))
    ensures if n <= 0 then wptr == 0 else wptr == |head| + |Listed(n - 1, fl)|
  {
    wptr := 0;
    ghost var text := head;
    var i := 0;
    while i < n
      invariant 0 <= i && (i <= n || i == 0)
      invariant Holds(sql, text) && text == head + Listed(i, fl)
      invariant if i == 0 then wptr == 0 else wptr == |head| + |Listed(i - 1, fl)|
    {
      ListedGrows(i + 1, n, fl);
      Assoc(head, Listed(i, fl), Piece(i, fl));
      PieceNulFree(i, fl);
      wptr := Append(sql, wptr, Piece(i, fl), text);
      text := text + Piece(i, fl);
      i := i + 1;
    }
  }

  /** The last comma, of a tuple or else of the head, is replaced by ';'. */
  method CloseStatement(sql: array<char>, wptr: nat, n: int, fl: int, ghost head: string, ghost comma: nat)
    requires comma < |head| && head[comma] == ',' && forall k :: comma < k < |head| ==> head[k] != ','
    requires Holds(sql, head + Listed(if n <= 0 then 0 else n, fl))
    requires if n <= 0 then wptr == 0 else wptr == |head| + |Listed(n - 1, fl)|
    modifies sql
    ensures Holds(sql, if n <= 0 then head[..comma] + ";"
                       else head + (Listed(n - 1, fl) + (Tuple(n - 1, fl) + ";")))
  {
    if n <= 0 {
      assert head + Listed(0, fl) == head;
      ReplaceComma(sql, wptr, head, comma);
    } else {
      CloseTuple(sql, wptr, head, Listed(n - 1, fl), Tuple(n - 1, fl));
    }
  }

  method CloseTuple(sql: array<char>, wptr: nat, ghost head: string, ghost before: string, ghost tuple: string)
    requires Holds(sql, head + (before + (tuple + ","))) && wptr == |head| + |before|
    modifies sql
    ensures Holds(sql, head + (before + (tuple + ";")))
  {
    ghost var text := head + (before + (tuple + ","));
    SwapLast(head, before, tuple);
    ReplaceComma(sql, wptr, text, |text| - 1);
  }

  method Append(sql: array<char>, wptr: nat, piece: string, ghost text: string) returns (end: nat)
    requires Holds(sql, text) && wptr <= |text| && NulFree(piece) && |text| + |piece| < sql.Length
    modifies sql
    ensures end == |text| && Holds(sql, text + piece)
  {
    end := FindNul(sql, wptr, text);
    PrintOver(sql, end, piece, text);
    assert text[..end] == text;
  }

  /** The last comma from wptr on becomes the ';' that ends the statement. */
  method ReplaceComma(sql: array<char>, wptr: nat, ghost text: string, ghost at: nat)
    requires Holds(sql, text) && wptr <= at < |text| && text[at] == ','
    requires forall k :: at < k < |text| ==> text[k] != ','
    modifies sql
    ensures Holds(sql, text[..at] + ";")
  {
    var comma := FindLast(sql, wptr, ',', text);
    PrintOver(sql, comma.value, ";", text);
  }

  lemma Assoc(a: string, b: string, c: string)
    ensures a + b + c == a + (b + c)
  {
  }

  lemma SwapLast(head: string, before: string, tuple: string)
    ensures var text := head + (before + (tuple + ","));
      text[|text| - 1] == ',' && text[..|text| - 1] + ";" == head + (before + (tuple + ";"))
  {
    var text := head + (before + (tuple + ","));
    assert text[..|text| - 1] == head + (before + tuple);
    Assoc(head, before + tuple, ";");
    Assoc(before, tuple, ";");
  }

  lemma {:induction false} ListedGrows(m: nat, n: nat, fl: int)
    requires m <= n
    ensures |Listed(m, fl)| <= |Listed(n, fl)|
  {
    if m < n {
      ListedGrows(m, n - 1, fl);
    }
  }

  /** No tuple is wider than the one the allocation is computed from. */
  lemma {:induction false} ListedFits(k: nat, n: nat, fl: int)
    requires k <= n
    ensures |Listed(k, fl)| <= k * |Piece(n, fl)|
  {
    if k > 0 {
      ListedFits(k - 1, n, fl);
      LengthMonotone(k - 1, n);
      assert |Piece(k - 1, fl)| <= |Piece(n, fl)|;
      assert k * |Piece(n, fl)| == (k - 1) * |Piece(n, fl)| + |Piece(n, fl)|;
    }
  }

  /** The allocation covers every write, with the 60 spare bytes never touched. */
  lemma AllocationSuffices(n: nat, fl: int)
    ensures Needed(n, fl) + 60 <= Allocated(n, fl)
    ensures Needed(0, fl) + 60 == Allocated(0, fl)
  {
    ListedFits(n, n, fl);
  }

  // ----- reading a statement back

  /** One "(a, b)" at the start of s, and the text after it. */
  function ParseTuple(s: string): (r: Option<(Row, string)>)
    ensures r.Some? ==> |r.value.1| < |s|
  {
    if s == "" || s[0] != '(' then None else
    match ScanInt(s[1..])
    case None => None
    case Some((x1, s1)) =>
      if |s1| < 2 || s1[..2] != ", " then None else
      match ScanInt(s1[2..])
      case None => None
      case Some((fl, s2)) =>
        if s2 == "" || s2[0] != ')' then None else Some((Row(x1, fl), s2[1..]))
  }

  /** Tuples separated by commas and closed by a ';' that ends the text. */
  function ParseTuples(s: string): Option<seq<Row>>
    decreases |s|
  {
    match ParseTuple(s)
    case None => None
    case Some((row, rest)) =>
      if rest == ";" then Some([row])
      else if rest == "" || rest[0] != ',' then None else
      match ParseTuples(rest[1..])
      case None => None
      case Some(rows) => Some([row] + rows)
  }

  /** The start of an INSERT into both columns of t1, as the server reads it. */
  function InsertHead(): string {
    "INSERT INTO t1 (x1, fl) VALUES "
  }

  /** The rows a statement inserts; None is a syntax error. */
  function ParseStatement(s: string): Option<seq<Row>> {
    if InsertHead() <= s then ParseTuples(s[|InsertHead()|..]) else None
  }

  /** The tuples i to n - 1 with their separators and the closing ';'. */
  function From(i: nat, n: nat, fl: int): string
    requires i < n
    decreases n - i
  {
    if i == n - 1 then Tuple(i, fl) + ";" else Piece(i, fl) + From(i + 1, n, fl)
  }

  lemma ParseParts(s: string, x1: int, s1: string, fl: int, s2: string)
    requires s != "" && s[0] == '(' && ScanInt(s[1..]) == Some((x1, s1))
    requires |s1| >= 2 && s1[..2] == ", " && ScanInt(s1[2..]) == Some((fl, s2))
    requires s2 != "" && s2[0] == ')'
    ensures ParseTuple(s) == Some((Row(x1, fl), s2[1..]))
  {
  }

  lemma TupleShape(i: string, fl: string, rest: string)
    ensures var s := "(" + i + ", " + fl + ")" + rest;
      s != "" && s[0] == '(' && s[1..] == i + (", " + (fl + (")" + rest)))
    ensures (", " + (fl + (")" + rest)))[..2] == ", " && (", " + (fl + (")" + rest)))[2..] == fl + (")" + rest)
    ensures (")" + rest)[1..] == rest
  {
  }

  lemma ParseTupleText(i: int, fl: int, rest: string)
    ensures ParseTuple(Tuple(i, fl) + rest) == Some((Row(i, fl), rest))
  {
    var s2 := ")" + rest;
    var s1 := ", " + (PrintInt(fl) + s2);
    TupleShape(PrintInt(i), PrintInt(fl), rest);
    ScanPrintInt(i, s1);
    ScanPrintInt(fl, s2);
    ParseParts(Tuple(i, fl) + rest, i, s1, fl, s2);
  }

  lemma ParseLast(s: string, row: Row)
    requires ParseTuple(s) == Some((row, ";"))
    ensures ParseTuples(s) == Some([row])
  {
  }

  lemma ParseMore(s: string, row: Row, rest: string, rows: seq<Row>)
    requires ParseTuple(s) == Some((row, "," + rest)) && ParseTuples(rest) == Some(rows)
    ensures ParseTuples(s) == Some([row] + rows)
  {
    assert ("," + rest)[1..] == rest;
  }

  lemma ParseEnd(i: nat, fl: int)
    ensures ParseTuples(Tuple(i, fl) + ";") == Some([Row(i, fl)])
  {
    ParseTupleText(i, fl, ";");
    ParseLast(Tuple(i, fl) + ";", Row(i, fl));
  }

  lemma ParsePiece(i: nat, fl: int, rest: string, rows: seq<Row>)
    requires ParseTuples(rest) == Some(rows)
    ensures ParseTuples(Piece(i, fl) + rest) == Some([Row(i, fl)] + rows)
  {
    Assoc(Tuple(i, fl), ",", rest);
    ParseTupleText(i, fl, "," + rest);
    ParseMore(Piece(i, fl) + rest, Row(i, fl), rest, rows);
  }

  lemma RowsTail(i: nat, n: nat, fl: int)
    requires i < n
    ensures Rows(n, fl)[i..] == [Row(i, fl)] + Rows(n, fl)[i + 1..]
    ensures i == n - 1 ==> Rows(n, fl)[i..] == [Row(i, fl)]
  {
  }

  lemma {:induction false} ParseFrom(i: nat, n: nat, fl: int)
    requires i < n
    ensures ParseTuples(From(i, n, fl)) == Some(Rows(n, fl)[i..])
    decreases n - i
  {
    RowsTail(i, n, fl);
    if i == n - 1 {
      ParseEnd(i, fl);
    } else {
      ParseFrom(i + 1, n, fl);
      ParsePiece(i, fl, From(i + 1, n, fl), Rows(n, fl)[i + 1..]);
    }
  }

  lemma {:induction false} ListedFrom(i: nat, n: nat, fl: int)
    requires i < n
    ensures Listed(i, fl) + From(i, n, fl) == Listed(n - 1, fl) + (Tuple(n - 1, fl) + ";")
    decreases n - i
  {
    if i < n - 1 {
      Assoc(Listed(i, fl), Piece(i, fl), From(i + 1, n, fl));
      ListedFrom(i + 1, n, fl);
    }
  }

  lemma ParseBehindHead(tuples: string)
    ensures ParseStatement(INS1 + tuples) == ParseTuples(tuples)
  {
    assert INS1 == InsertHead();
    assert (INS1 + tuples)[|INS1|..] == tuples;
  }

  lemma OneTuple(head: string, x1: string, fl: string)
    ensures head + ("" + ("(" + x1 + ", " + fl + ")" + ";")) == head + "(" + x1 + ", " + fl + ");"
  {
  }

  lemma TwoTuples(head: string, x1: string, x1': string, fl: string)
    ensures head + ("" + ("(" + x1 + ", " + fl + ")" + ",") + ("(" + x1' + ", " + fl + ")" + ";"))
         == head + "(" + x1 + ", " + fl + "),(" + x1' + ", " + fl + ");"
  {
  }

  /** The statements for no row, one row and two. */
  lemma ShortStatements(fl: int)
    ensures Statement(0, fl) == "INSERT INTO t1 (x1;"
    ensures Statement(1, fl) == "INSERT INTO t1 (x1, fl) VALUES " + "(" + "0" + ", " + PrintInt(fl) + ");"
    ensures Statement(2, fl) == "INSERT INTO t1 (x1, fl) VALUES " + "(" + "0" + ", " + PrintInt(fl)
                              + "),(" + "1" + ", " + PrintInt(fl) + ");"
  {
    assert PrintInt(0) == "0" && PrintInt(1) == "1";
    OneTuple(INS1, PrintInt(0), PrintInt(fl));
    TwoTuples(INS1, PrintInt(0), PrintInt(1), PrintInt(fl));
    assert Listed(1, fl) == "" + ("(" + PrintInt(0) + ", " + PrintInt(fl) + ")" + ",");
  }

  /** What is needed is exactly the finished statement and its terminator, or for no rows the head and its own. */
  lemma NeededIsLength(n: int, fl: int)
    ensures Needed(n, fl) == if n >= 1 then |Statement(n, fl)| + 1 else 32
  {
  }

  /**
   The statement for n >= 1 rows reads back as exactly the rows (0, fl) ... (n - 1, fl);
   the text printed for no rows is not an INSERT at all.
   */
  lemma StatementReadsBack(n: int, fl: int)
    ensures ParseStatement(Statement(n, fl)) == if n >= 1 then Some(Rows(n, fl)) else None
  {
    if n >= 1 {
      ListedFrom(0, n, fl);
      assert Listed(0, fl) + From(0, n, fl) == From(0, n, fl);
      ParseBehindHead(From(0, n, fl));
      ParseFrom(0, n, fl);
      assert Rows(n, fl)[0..] == Rows(n, fl);
    } else {
      assert Statement(n, fl)[18] != INS1[18];
    }
  }

  /** Two statements are the same text only for the same rows, or when neither has any. */
  lemma StatementIsInjective(m: int, s: int, n: int, fl: int)
    ensures Statement(m, s) == Statement(n, fl) <==> (m <= 0 && n <= 0) || (m == n && s == fl)
  {
    StatementReadsBack(m, s);
    StatementReadsBack(n, fl);
    if Statement(m, s) == Statement(n, fl) && m >= 1 && n >= 1 {
      assert |Rows(m, s)| == m && |Rows(n, fl)| == n;
      assert Rows(m, s)[0] == Row(0, s) && Rows(n, fl)[0] == Row(0, fl);
    }
  }

  /** The fixed buffer of one million bytes holds a statement of a hundred rows for any 32-bit fl. */
  lemma FixedBufferSuffices(fl: int)
    requires -0x8000_0000 <= fl < 0x8000_0000
    ensures Needed(100, fl) <= 1000000
  {
    var magnitude := if fl < 0 then -fl else fl;
    LengthBound(magnitude, 10);
    LengthBound(100, 3);
    ListedFits(100, 100, fl);
    assert |Piece(100, fl)| <= 3 + 11 + 5;
  }

  function Pow10(k: nat): nat {
    if k == 0 then 1 else 10 * Pow10(k - 1)
  }

  lemma {:induction false} LengthBound(n: nat, k: nat)
    requires k > 0
    ensures n < Pow10(k) ==> |PrintNat(n)| <= k
  {
    assert Pow10(1) == 10 * Pow10(0) == 10;
    if n >= 10 && k > 1 {
      LengthBound(n / 10, k - 1);
      assert n < Pow10(k) ==> n / 10 < Pow10(k - 1);
      assert PrintNat(n) == PrintNat(n / 10) + [Digit(n % 10)];
    }
  }
}
