/**
 The text conversion `str(...)` that the catalog applies to book ids and
 years. Callers pass either a Python `int` or a Python `str`; `str` of a
 string is the string itself, and `str` of an integer is its canonical
 decimal spelling (an optional minus sign, no leading zeros).
 */
module PyText {
  import opened Wrappers

  /** A caller-supplied id or year: a Python `int` or a Python `str`. */
  datatype PyValue = PyInt(i: int) | PyStr(s: string)

  predicate IsDigit(c: char) {
    '0' <= c <= '9'
  }

  predicate AllDigits(s: string) {
    forall k :: 0 <= k < |s| ==> IsDigit(s[k])
  }

  function DigitValue(c: char): (d: nat)
    requires IsDigit(c)
    ensures d < 10
  {
    c as int - '0' as int
  }

  function DigitChar(d: nat): (c: char)
    requires d < 10
    ensures IsDigit(c) && DigitValue(c) == d
  {
    ('0' as int + d) as char
  }

  /** The value of a run of decimal digits (0 for the empty run), most significant first. */
  function DigitsValue(s: string): nat
    requires AllDigits(s)
  {
    if |s| == 0 then 0 else DigitsValue(s[..|s| - 1]) * 10 + DigitValue(s[|s| - 1])
  }

  /**
   A canonical decimal spelling: digits without a leading zero (except "0"
   itself), or a minus sign followed by digits that do not start with zero.
   */
  predicate IsCanonicalDecimal(s: string) {
    || (|s| >= 1 && AllDigits(s) && (s[0] == '0' ==> |s| == 1))
    || (|s| >= 2 && s[0] == '-' && AllDigits(s[1..]) && s[1] != '0')
  }

  /** Reads back a decimal spelling; None when the text is not one. */
  function DecimalValue(s: string): Option<int> {
    if |s| >= 2 && s[0] == '-' && AllDigits(s[1..]) then Some(0 - DigitsValue(s[1..]) as int)
    else if |s| >= 1 && AllDigits(s) then Some(DigitsValue(s))
    else None
  }

  /** Decimal digits of a natural number, as Python's `str` writes them. */
  function NatToDecimal(n: nat): (r: string)
    ensures |r| >= 1 && AllDigits(r)
    ensures r[0] == '0' ==> n == 0
    decreases n
  {
    if n < 10 then [DigitChar(n)] else NatToDecimal(n / 10) + [DigitChar(n % 10)]
  }

  lemma {:induction false} DigitsValueOfNatToDecimal(n: nat)
    ensures DigitsValue(NatToDecimal(n)) == n
    decreases n
  {
    var r := NatToDecimal(n);
    if n >= 10 {
      DigitsValueOfNatToDecimal(n / 10);
      assert r[..|r| - 1] == NatToDecimal(n / 10);
    }
  }

  /** `str(n)` for a Python integer `n`. */
  function IntToDecimal(n: int): (r: string)
    ensures IsCanonicalDecimal(r)
    ensures DecimalValue(r) == Some(n)
  {
    if n < 0 then
      DigitsValueOfNatToDecimal(-n);
      var digits := NatToDecimal(-n);
      assert ("-" + digits)[1..] == digits;
      "-" + digits
    else
      DigitsValueOfNatToDecimal(n);
      NatToDecimal(n)
  }

  /** Python's `str(v)` for the values the catalog is given. */
  function Str(v: PyValue): (r: string)
    ensures v.PyStr? ==> r == v.s
    ensures v.PyInt? ==> IsCanonicalDecimal(r) && DecimalValue(r) == Some(v.i)
  {
    match v
    case PyInt(n) => IntToDecimal(n)
    case PyStr(s) => s
  }

  /** Two different integers never print the same, so integer keys never collide. */
  lemma StrOfIntInjective(a: int, b: int)
    requires Str(PyInt(a)) == Str(PyInt(b))
    ensures a == b
  {
    assert DecimalValue(Str(PyInt(a))) == Some(a);
  }

  /**
   A text with a leading zero ("03", "007") is never the `str` of any
   integer, so an integer key can never select it.
   */
  lemma ZeroPaddedIsNoIntStr(s: string, n: int)
    requires |s| >= 2 && s[0] == '0'
    ensures Str(PyInt(n)) != s
  {
  }
}
