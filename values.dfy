/**
 * Cell values of a sheet and their string forms.
 *
 * A cell holds a string, an integer, or nothing (an empty cell, which the
 * spreadsheet reader delivers as NaN). The string form of a value is what
 * `str()` and `astype(str)` produce for it: the text itself, the decimal
 * digits of an integer, and "nan" for an empty cell.
 */
module Values {

  datatype Value = Missing | Str(text: string) | Int(n: int)

  /** The string form of an empty cell inside a join key. */
  const NanText: string := "nan"

  function DigitChar(d: nat): (c: char)
    requires d < 10
    ensures '0' <= c <= '9'
  {
    "0123456789"[d]
  }

  function DigitValue(c: char): (d: nat)
    requires '0' <= c <= '9'
    ensures d < 10 && DigitChar(d) == c
  {
    (c as int - '0' as int) as nat
  }

  predicate AllDigits(s: string) {
    forall k :: 0 <= k < |s| ==> '0' <= s[k] <= '9'
  }

  /** Decimal digits of a natural number, most significant first. */
  function NatToDecimal(n: nat): (s: string)
    ensures |s| > 0 && AllDigits(s)
  {
    if n < 10 then [DigitChar(n)] else NatToDecimal(n / 10) + [DigitChar(n % 10)]
  }

  /** Reads a string of digits back as a natural number. */
  function DecimalToNat(s: string): nat
    requires AllDigits(s)
  {
    if s == [] then 0 else DecimalToNat(s[..|s| - 1]) * 10 + DigitValue(s[|s| - 1])
  }

  lemma {:induction false} DecimalRoundTrip(n: nat)
    ensures DecimalToNat(NatToDecimal(n)) == n
  {
    var s := NatToDecimal(n);
    if n < 10 {
      assert s[..|s| - 1] == [];
      DigitRoundTrip(n);
    } else {
      var q, d := n / 10, n % 10;
      DecimalRoundTrip(q);
      assert s == NatToDecimal(q) + [DigitChar(d)];
      assert s[..|s| - 1] == NatToDecimal(q);
      DigitRoundTrip(d);
      assert DecimalToNat(s) == q * 10 + d;
    }
  }

  /** Reading a digit back gives the digit. */
  lemma DigitRoundTrip(d: nat)
    requires d < 10
    ensures DigitValue(DigitChar(d)) == d
  {
  }

  /** Python's `str()` of an integer: an optional minus sign and the digits. */
  function IntToDecimal(i: int): (s: string)
    ensures |s| > 0
    ensures i >= 0 <==> '0' <= s[0] <= '9'
    ensures i < 0 <==> s[0] == '-'
  {
    if i < 0 then "-" + NatToDecimal(-i) else NatToDecimal(i)
  }

  /** Distinct natural numbers have distinct digit strings. */
  lemma NatToDecimalInjective(m: nat, n: nat)
    requires NatToDecimal(m) == NatToDecimal(n)
    ensures m == n
  {
    DecimalRoundTrip(m);
    DecimalRoundTrip(n);
  }

  /** Distinct integers have distinct decimal forms. */
  lemma IntToDecimalInjective(i: int, j: int)
    requires IntToDecimal(i) == IntToDecimal(j)
    ensures i == j
  {
    if i >= 0 && j >= 0 {
      NatToDecimalInjective(i, j);
    } else if i < 0 && j < 0 {
      NegativeDecimal(i);
      NegativeDecimal(j);
      NatToDecimalInjective(-i, -j);
    }
  }

  /** Behind its minus sign, the decimal form of a negative integer is the digits of its magnitude. */
  lemma NegativeDecimal(i: int)
    requires i < 0
    ensures IntToDecimal(i)[1..] == NatToDecimal(-i)
  {
  }

  /** The string form of a cell, as `astype(str)` gives it in a join key. */
  function Stringify(v: Value): string {
    match v
    case Missing => NanText
    case Str(s) => s
    case Int(i) => IntToDecimal(i)
  }

  /** No decimal form contains the given non-digit, non-minus character. */
  lemma DecimalHasNo(i: int, c: char)
    requires !('0' <= c <= '9') && c != '-'
    ensures c !in IntToDecimal(i)
  {
    var s := IntToDecimal(i);
    if i < 0 {
      assert s == "-" + NatToDecimal(-i);
      assert forall k :: 1 <= k < |s| ==> s[k] == NatToDecimal(-i)[k - 1];
    }
  }
}
