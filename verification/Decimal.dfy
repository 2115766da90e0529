/**
 Decimal text as printf and scanf treat it: "%d", "%06d", and the reading of a number back.
 */
module Decimal {
  import opened Options

  predicate IsDigit(c: char) {
    '0' <= c <= '9'
  }

  predicate AllDigits(s: string) {
    forall k :: 0 <= k < |s| ==> IsDigit(s[k])
  }

  function Digit(d: nat): (c: char)
    requires d < 10
    ensures IsDigit(c) && c as int - '0' as int == d
  {
    (d + '0' as int) as char
  }

  /** The number a run of digits denotes. */
  function Value(s: string): nat
    requires AllDigits(s)
  {
    if s == "" then 0 else Value(s[..|s| - 1]) * 10 + (s[|s| - 1] as int - '0' as int)
  }

  function PrintNat(n: nat): (s: string)
    ensures |s| > 0 && AllDigits(s)
  {
    if n < 10 then [Digit(n)] else PrintNat(n / 10) + [Digit(n % 10)]
  }

  lemma {:induction false} ValueOfPrint(n: nat)
    ensures Value(PrintNat(n)) == n
  {
    var s := PrintNat(n);
    if n >= 10 {
      ValueOfPrint(n / 10);
      assert s[..|s| - 1] == PrintNat(n / 10);
    }
  }

  /** "%d" */
  function PrintInt(n: int): (s: string)
    ensures |s| > 0 && forall k :: 0 <= k < |s| ==> IsDigit(s[k]) || s[k] == '-'
  {
    if n < 0 then "-" + PrintNat(-n) else PrintNat(n)
  }

  /** "%06d" of a number that is not negative. */
  function Pad6(n: nat): (s: string)
    ensures |s| == (if |PrintNat(n)| < 6 then 6 else |PrintNat(n)|) && AllDigits(s)
  {
    Zeros(if |PrintNat(n)| < 6 then 6 - |PrintNat(n)| else 0) + PrintNat(n)
  }

  function Zeros(n: nat): string {
    seq(n, _ => '0')
  }

  /** How many digits s starts with. */
  function DigitRun(s: string): (n: nat)
    ensures n <= |s| && AllDigits(s[..n]) && (n < |s| ==> !IsDigit(s[n]))
  {
    if s == "" || !IsDigit(s[0]) then 0 else
    var n := 1 + DigitRun(s[1..]);
    assert forall k :: 0 < k < n ==> s[k] == s[1..][..n - 1][k - 1];
    n
  }

  /** The unsigned number at the start of s, and the text left over. */
  function ScanNat(s: string): Option<(nat, string)> {
    var n := DigitRun(s);
    if n == 0 then None else Some((Value(s[..n]), s[n..]))
  }

  /** What "%d" reads at the start of s: the number, and the text left over. */
  function ScanInt(s: string): Option<(int, string)> {
    if s != "" && s[0] == '-' then
      match ScanNat(s[1..])
      case None => None
      case Some((value, rest)) => Some((0 - value, rest))
    else
      match ScanNat(s)
      case None => None
      case Some((value, rest)) => Some((0 + value, rest))
  }

  lemma {:induction false} DigitRunIsMaximal(digits: string, rest: string)
    requires AllDigits(digits) && (rest != "" ==> !IsDigit(rest[0]))
    ensures DigitRun(digits + rest) == |digits|
  {
    if digits == "" {
      assert digits + rest == rest;
    } else {
      assert (digits + rest)[1..] == digits[1..] + rest;
      DigitRunIsMaximal(digits[1..], rest);
    }
  }

  lemma ScanNatText(digits: string, rest: string)
    requires digits != "" && AllDigits(digits) && (rest != "" ==> !IsDigit(rest[0]))
    ensures ScanNat(digits + rest) == Some((Value(digits), rest))
  {
    DigitRunIsMaximal(digits, rest);
    assert (digits + rest)[..|digits|] == digits;
    assert (digits + rest)[|digits|..] == rest;
  }

  lemma FirstOfDigits(digits: string, rest: string)
    requires digits != "" && AllDigits(digits)
    ensures (digits + rest)[0] != '-'
    ensures ("-" + digits + rest)[0] == '-' && ("-" + digits + rest)[1..] == digits + rest
  {
    assert IsDigit(digits[0]);
  }

  /** scanf undoes printf, whatever non-digit text follows. */
  lemma ScanPrintInt(n: int, rest: string)
    requires rest != "" ==> !IsDigit(rest[0])
    ensures ScanInt(PrintInt(n) + rest) == Some((n, rest))
  {
    var magnitude := if n < 0 then -n else n;
    ValueOfPrint(magnitude);
    ScanNatText(PrintNat(magnitude), rest);
    FirstOfDigits(PrintNat(magnitude), rest);
  }

  lemma {:induction false} LeadingZeros(k: nat, s: string)
    requires AllDigits(s)
    ensures Value(Zeros(k) + s) == Value(s)
    decreases |s|, k
  {
    var t := Zeros(k) + s;
    if s != "" {
      assert t[..|t| - 1] == Zeros(k) + s[..|s| - 1];
      LeadingZeros(k, s[..|s| - 1]);
    } else if k > 0 {
      assert t[..|t| - 1] == Zeros(k - 1) + s;
      LeadingZeros(k - 1, s);
    }
  }

  lemma ScanPad6(n: nat, rest: string)
    requires rest != "" ==> !IsDigit(rest[0])
    ensures ScanInt(Pad6(n) + rest) == Some((n, rest))
  {
    var zeros := if |PrintNat(n)| < 6 then 6 - |PrintNat(n)| else 0;
    LeadingZeros(zeros, PrintNat(n));
    ValueOfPrint(n);
    ScanNatText(Pad6(n), rest);
    FirstOfDigits(Pad6(n), rest);
  }

  /** A larger number never prints shorter. */
  lemma {:induction false} LengthMonotone(m: nat, n: nat)
    requires m <= n
    ensures |PrintNat(m)| <= |PrintNat(n)|
  {
    if n >= 10 && m >= 10 {
      LengthMonotone(m / 10, n / 10);
    }
  }
}
