/**
  React list keys. The marquee keys each card with the template string
  `${id}-${index}`: the decimal rendering of the project id, a dash, and the
  decimal rendering of the card's position in the doubled list.
 */
module Keys {

  predicate IsDigit(ch: char) {
    '0' <= ch <= '9'
  }

  predicate AllDigits(s: string) {
    forall k :: 0 <= k < |s| ==> IsDigit(s[k])
  }

  function DigitChar(d: nat): (ch: char)
    requires d < 10
    ensures IsDigit(ch)
  {
    "0123456789"[d]
  }

  function DigitValue(ch: char): (d: nat)
    requires IsDigit(ch)
    ensures d < 10
    ensures DigitChar(d) == ch
  {
    (ch as int - '0' as int) as nat
  }

  /** How a template literal renders a non-negative integer: its decimal
      digits, most significant first, with no leading zero. */
  function Decimal(n: nat): (s: string)
    ensures |s| >= 1 && AllDigits(s)
    ensures s[0] == '0' ==> n == 0
    decreases n
  {
    if n < 10 then [DigitChar(n)] else Decimal(n / 10) + [DigitChar(n % 10)]
  }

  /** Reads a string of decimal digits back as a number. */
  function ParseDecimal(s: string): (n: nat)
    requires AllDigits(s)
    decreases |s|
  {
    if |s| == 0 then 0 else ParseDecimal(s[..|s| - 1]) * 10 + DigitValue(s[|s| - 1])
  }

  lemma DigitValueOfDigitChar(d: nat)
    requires d < 10
    ensures DigitValue(DigitChar(d)) == d
  {
  }

  /** Reading back a rendered number gives the number. */
  lemma {:induction false} ParseDecimalOfDecimal(n: nat)
    ensures ParseDecimal(Decimal(n)) == n
    decreases n
  {
    var s := Decimal(n);
    if n < 10 {
      DigitValueOfDigitChar(n);
      assert s[..0] == [];
    } else {
      ParseDecimalOfDecimal(n / 10);
      DigitValueOfDigitChar(n % 10);
      assert s[..|s| - 1] == Decimal(n / 10);
    }
  }

  /** Distinct numbers render as distinct strings. */
  lemma DecimalInjective(a: nat, b: nat)
    ensures Decimal(a) == Decimal(b) ==> a == b
  {
    ParseDecimalOfDecimal(a);
    ParseDecimalOfDecimal(b);
  }

  /** The position of the first dash in `s`, or `|s|` if there is none. */
  function FirstDash(s: string): (d: nat)
    ensures d <= |s|
    decreases |s|
  {
    if |s| == 0 || s[0] == '-' then 0 else 1 + FirstDash(s[1..])
  }

  /** After a run of digits, the first dash is the one that follows the run. */
  lemma {:induction false} FirstDashAfterDigits(a: string, b: string)
    requires AllDigits(a)
    ensures FirstDash(a + "-" + b) == |a|
    decreases |a|
  {
    if |a| > 0 {
      assert (a + "-" + b)[1..] == a[1..] + "-" + b;
      FirstDashAfterDigits(a[1..], b);
    }
  }

  /** The two numbers a marquee key is made of, as read back from the key. */
  datatype KeyParts = KeyParts(id: nat, index: nat) | Unparsable

  /** Splits a key at its first dash and reads both sides as decimal numbers. */
  function ParseKey(key: string): KeyParts {
    var d := FirstDash(key);
    if d < |key| && AllDigits(key[..d]) && AllDigits(key[d + 1..])
    then KeyParts(ParseDecimal(key[..d]), ParseDecimal(key[d + 1..]))
    else Unparsable
  }

  /** The marquee card key `${id}-${index}`; both numbers can be read back from it. */
  function MarqueeKey(id: nat, index: nat): (key: string)
    ensures ParseKey(key) == KeyParts(id, index)
  {
    var a := Decimal(id);
    var b := Decimal(index);
    var key := a + "-" + b;
    FirstDashAfterDigits(a, b);
    assert key[..|a|] == a;
    assert key[|a| + 1..] == b;
    ParseDecimalOfDecimal(id);
    ParseDecimalOfDecimal(index);
    key
  }

  /** Two marquee keys are equal only when both their ids and their
      positions are equal. */
  lemma MarqueeKeyInjective(id1: nat, index1: nat, id2: nat, index2: nat)
    ensures MarqueeKey(id1, index1) == MarqueeKey(id2, index2) <==> id1 == id2 && index1 == index2
  {
  }
}
