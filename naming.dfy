/**
 * Output file naming of `split_pdf`: piece `i` is written as
 * `<base>_part_<i + 1>.pdf`, the number in Python's decimal notation.
 */
module Naming {

  predicate IsDigit(c: char) {
    '0' <= c <= '9'
  }

  function DigitChar(d: nat): (c: char)
    requires d < 10
    ensures IsDigit(c) && c as int - '0' as int == d
  {
    ('0' as int + d) as char
  }

  function DigitValue(c: char): nat
    requires IsDigit(c)
  {
    c as int - '0' as int
  }

  /** `str(n)` for a natural number: decimal digits, most significant first,
      without leading zeros. */
  function Decimal(n: nat): (s: string)
    ensures |s| >= 1
    ensures forall k :: 0 <= k < |s| ==> IsDigit(s[k])
    ensures s[0] == '0' ==> n == 0
  {
    if n < 10 then [DigitChar(n)] else Decimal(n / 10) + [DigitChar(n % 10)]
  }

  /** Reads a string of decimal digits back as a number. */
  function ParseDecimal(s: string): nat
    requires forall k :: 0 <= k < |s| ==> IsDigit(s[k])
  {
    if s == [] then 0 else ParseDecimal(s[..|s| - 1]) * 10 + DigitValue(s[|s| - 1])
  }

  /** Reading the decimal notation of `n` gives `n` back. */
  lemma {:induction false} ParseDecimalOfDecimal(n: nat)
    ensures ParseDecimal(Decimal(n)) == n
  {
    var s := Decimal(n);
    if n >= 10 {
      ParseDecimalOfDecimal(n / 10);
      assert s[..|s| - 1] == Decimal(n / 10);
    }
  }

  /** Distinct numbers have distinct decimal notations. */
  lemma DecimalInjective(m: nat, n: nat)
    ensures Decimal(m) == Decimal(n) <==> m == n
  {
    if Decimal(m) == Decimal(n) {
      ParseDecimalOfDecimal(m);
      ParseDecimalOfDecimal(n);
    }
  }

  /** The file name of piece `i` (0-based) of a document whose base name is `base`. */
  function OutputName(base: string, i: nat): (name: string)
    ensures |name| > |base| + 10
    ensures name[..|base|] == base
    ensures name[|name| - 4..] == ".pdf"
  {
    base + "_part_" + Decimal(i + 1) + ".pdf"
  }

  /** Two pieces of the same document get the same file name only if they are
      the same piece. */
  lemma OutputNameInjective(base: string, i: nat, j: nat)
    ensures OutputName(base, i) == OutputName(base, j) <==> i == j
  {
    if OutputName(base, i) == OutputName(base, j) {
      var a, b := OutputName(base, i), OutputName(base, j);
      var di, dj := Decimal(i + 1), Decimal(j + 1);
      assert |di| == |dj|;
      var lo := |base| + 6;
      assert a[lo..lo + |di|] == di;
      assert b[lo..lo + |dj|] == dj;
      DecimalInjective(i + 1, j + 1);
    }
  }

  lemma FirstPieceName()
    ensures OutputName("report", 0) == "report_part_1.pdf"
    ensures OutputName("report", 11) == "report_part_12.pdf"
  {
  }
}
