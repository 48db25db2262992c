/** Node labels `v1`, `v2`, ...: the letter `v` followed by the decimal numeral of a
    positive integer, as a JavaScript template literal prints it. */
module NodeIds {

  /** The character of a decimal digit. */
  function DigitChar(d: nat): (c: char)
    requires d < 10
    ensures '0' <= c <= '9'
    ensures c as int - '0' as int == d
  {
    ('0' as int + d) as char
  }

  predicate IsDigit(c: char) {
    '0' <= c <= '9'
  }

  predicate AllDigits(s: string) {
    forall k :: 0 <= k < |s| ==> IsDigit(s[k])
  }

  /** Decimal numeral of n, most significant digit first, without leading zeros. */
  function Decimal(n: nat): (s: string)
    ensures |s| >= 1 && AllDigits(s)
    ensures |s| > 1 ==> s[0] != '0'
    decreases n
  {
    if n < 10 then [DigitChar(n)] else Decimal(n / 10) + [DigitChar(n % 10)]
  }

  /** Value of a string of decimal digits (the reading direction of Decimal). */
  function ParseDecimal(s: string): nat
    requires AllDigits(s)
  {
    if s == [] then 0
    else 10 * ParseDecimal(s[..|s| - 1]) + (s[|s| - 1] as int - '0' as int)
  }

  lemma {:induction false} ParseDecimalOfDecimal(n: nat)
    ensures ParseDecimal(Decimal(n)) == n
    decreases n
  {
    if n >= 10 {
      var s := Decimal(n);
      assert s[..|s| - 1] == Decimal(n / 10);
      ParseDecimalOfDecimal(n / 10);
    }
  }

  /** The id given to the node created k-th (1-based): `v${k}`, a `v` followed by a numeral
      that reads back to k. */
  function NodeId(k: nat): (id: string)
    ensures |id| >= 2 && id[0] == 'v' && AllDigits(id[1..]) && ParseDecimal(id[1..]) == k
  {
    ParseDecimalOfDecimal(k);
    assert ("v" + Decimal(k))[1..] == Decimal(k);
    "v" + Decimal(k)
  }

  /** Distinct creation positions give distinct ids. */
  lemma NodeIdInjective(a: nat, b: nat)
    ensures NodeId(a) == NodeId(b) <==> a == b
  {
  }
}
