/** Decimal rendering of integers as JavaScript's `Number.prototype.toString`
    produces it for integral values, `padStart(2, '0')`, and the parser that
    reads such text back. */
module Text {

  import opened Wrappers

  function DigitChar(d: int): char
    requires 0 <= d < 10
  {
    "0123456789"[d]
  }

  predicate IsDigit(c: char) {
    '0' <= c <= '9'
  }

  function DigitValue(c: char): int
    requires IsDigit(c)
  {
    c as int - '0' as int
  }

  /** Decimal digits of `n`, most significant first, without leading zeros. */
  function NatToString(n: nat): (s: string)
    ensures 1 <= |s|
    ensures forall i :: 0 <= i < |s| ==> IsDigit(s[i])
    ensures n < 10 <==> |s| == 1
    decreases n
  {
    if n < 10 then [DigitChar(n)] else NatToString(n / 10) + [DigitChar(n % 10)]
  }

  /** `i.toString()` for an integer `i`: a minus sign before negative values. */
  function IntToString(i: int): string {
    if i < 0 then "-" + NatToString(-i) else NatToString(i)
  }

  /** `s.padStart(2, '0')`. */
  function PadStart2(s: string): string {
    if |s| >= 2 then s else seq(2 - |s|, _ => '0') + s
  }

  /** The value of a string of decimal digits. */
  function ParseDigits(s: string): int
    requires forall i :: 0 <= i < |s| ==> IsDigit(s[i])
  {
    if s == [] then 0 else 10 * ParseDigits(s[..|s| - 1]) + DigitValue(s[|s| - 1])
  }

  predicate AllDigits(s: string) {
    forall i :: 0 <= i < |s| ==> IsDigit(s[i])
  }

  /** Reads back an optionally signed decimal integer; None when `s` is not one. */
  function ParseInt(s: string): Option<int> {
    if |s| >= 2 && s[0] == '-' && AllDigits(s[1..]) then Some(-ParseDigits(s[1..]))
    else if |s| >= 1 && AllDigits(s) then Some(ParseDigits(s))
    else None
  }

  lemma {:induction false} ParseNatToString(n: nat)
    ensures ParseDigits(NatToString(n)) == n
    decreases n
  {
    var s := NatToString(n);
    if n >= 10 {
      ParseNatToString(n / 10);
      assert s[..|s| - 1] == NatToString(n / 10);
    }
  }

  /** Printing an integer and reading it back gives the integer. */
  lemma {:induction false} ParseIntToString(i: int)
    ensures ParseInt(IntToString(i)) == Some(i)
  {
    var s := IntToString(i);
    if i < 0 {
      var t := NatToString(-i);
      assert s == "-" + t;
      assert s[1..] == t;
      assert AllDigits(t);
      ParseNatToString(-i);
    } else {
      assert s == NatToString(i);
      assert IsDigit(s[0]);
      assert AllDigits(s);
      ParseNatToString(i);
    }
  }

  /** A day or month number 1..99 pads to exactly two digits that read back as it. */
  lemma PadStart2Number(n: nat)
    requires n < 100
    ensures |PadStart2(IntToString(n))| == 2
    ensures AllDigits(PadStart2(IntToString(n)))
    ensures ParseDigits(PadStart2(IntToString(n))) == n
  {
    var s := NatToString(n);
    ParseNatToString(n);
    if n < 10 {
      assert PadStart2(s) == ['0'] + s;
      assert PadStart2(s)[..1] == ['0'];
    } else {
      assert NatToString(n / 10) == [DigitChar(n / 10)];
    }
  }
}
