/**
 * Simple transactions (Transaction.java): an immutable source, target and
 * amount, with structural equality and a fixed display form. An empty
 * source marks a deposit.
 */
module Transactions {
  import opened Wrappers

  // ---------------------------------------------------------------------
  // Decimal rendering of an int, as Java's `%s` prints an Integer
  // ---------------------------------------------------------------------

  function DigitChar(d: nat): char
    requires d < 10
  {
    ('0' as int + d) as char
  }

  predicate IsDigit(c: char)
  {
    '0' <= c <= '9'
  }

  /** The decimal digits of `n`, most significant first, without leading zeros. */
  function Digits(n: nat): (s: string)
    ensures |s| >= 1
    ensures forall i :: 0 <= i < |s| ==> IsDigit(s[i])
  {
    if n < 10 then [DigitChar(n)] else Digits(n / 10) + [DigitChar(n % 10)]
  }

  /** The number a string of decimal digits denotes. */
  function DigitsValue(s: string): nat
    requires forall i :: 0 <= i < |s| ==> IsDigit(s[i])
  {
    if s == [] then 0
    else
      assert IsDigit(s[|s| - 1]);
      DigitsValue(s[..|s| - 1]) * 10 + (s[|s| - 1] as int - '0' as int)
  }

  lemma {:induction false} DigitsValueInvertsDigits(n: nat)
    ensures DigitsValue(Digits(n)) == n
  {
    if n >= 10 {
      var s := Digits(n);
      assert s[..|s| - 1] == Digits(n / 10);
      DigitsValueInvertsDigits(n / 10);
    }
  }

  /** `Integer.toString(n)`: a minus sign for negative numbers, then the digits. */
  function DecimalString(n: int): string
  {
    if n < 0 then "-" + Digits(-n) else Digits(n)
  }

  /** Reads back a `DecimalString`. */
  function ParseDecimal(s: string): Option<int>
  {
    if |s| >= 1 && s[0] == '-' && forall i :: 1 <= i < |s| ==> IsDigit(s[i]) then
      var magnitude: int := DigitsValue(s[1..]);
      Some(-magnitude)
    else if forall i :: 0 <= i < |s| ==> IsDigit(s[i]) then
      Some(DigitsValue(s))
    else None
  }

  /** The amount printed by `toString` is exactly the amount held. */
  lemma ParseDecimalInvertsDecimalString(n: int)
    ensures ParseDecimal(DecimalString(n)) == Some(n)
  {
    var digits := Digits(if n < 0 then -n else n);
    DigitsValueInvertsDigits(if n < 0 then -n else n);
    if n < 0 {
      var s := "-" + digits;
      assert s[1..] == digits;
      assert forall i :: 1 <= i < |s| ==> IsDigit(s[i]) by {
        forall i | 1 <= i < |s| ensures IsDigit(s[i]) {
          assert s[i] == digits[i - 1];
        }
      }
    } else {
      assert IsDigit(digits[0]);
    }
  }

  // ---------------------------------------------------------------------
  // The Transaction value
  // ---------------------------------------------------------------------

  /** `new Transaction(src, tgt, amt)`; the accessors `getSource`,
    * `getTarget` and `getAmount` are the destructors `source`, `target`
    * and `amount`. */
  datatype Transaction = Transaction(source: string, target: string, amount: int) {

    /** `toString()`: "[Deposit, ..." for an empty source, "[Source: S, ..."
      * otherwise, then the target and the amount. */
    function ToString(): (r: string)
      ensures |r| > 1 && r[0] == '[' && r[|r| - 1] == ']'
    {
      if source == "" then
        "[Deposit, Target: " + target + ", Amount: " + DecimalString(amount) + "]"
      else
        "[Source: " + source + ", Target: " + target + ", Amount: " + DecimalString(amount) + "]"
    }

    /** `equals(Transaction)`: source, target and amount all equal. */
    function Equals(other: Transaction): (r: bool)
      ensures r <==> other == this
    {
      other.source == source && other.target == target && other.amount == amount
    }

    /** `equals(Object)`: `other` is the object seen through
      * `instanceof Transaction` (None when it is not a Transaction). */
    function EqualsObject(other: Option<Transaction>): (r: bool)
      ensures r <==> other == Some(this)
    {
      other.Some? && Equals(other.value)
    }

    /** `hashCode()`: the string hash of `toString()`; Java's
      * `String.hashCode` is passed in as `stringHash`. */
    function HashCode(stringHash: string -> int): (r: int)
      ensures forall other: Transaction :: Equals(other) ==> r == stringHash(other.ToString())
    {
      stringHash(ToString())
    }
  }

  /** The display tells deposits from transfers by its second character. */
  lemma ToStringMarksDeposits(t: Transaction)
    ensures t.ToString()[1] == 'D' <==> t.source == ""
  {
    if t.source != "" {
      assert t.ToString()[1] == 'S';
    }
  }

  /** The display ends with the amount and a closing bracket, and the
    * amount reads back exactly. */
  lemma ToStringShowsAmount(t: Transaction)
    ensures var s, a := t.ToString(), DecimalString(t.amount);
      && |s| >= |a| + 1 && s[|s| - 1] == ']'
      && ParseDecimal(s[|s| - 1 - |a|..|s| - 1]) == Some(t.amount)
  {
    var s, a := t.ToString(), DecimalString(t.amount);
    assert s[|s| - 1 - |a|..|s| - 1] == a;
    ParseDecimalInvertsDecimalString(t.amount);
  }

  /** `equals(Transaction)` is reflexive, symmetric and transitive. */
  lemma EqualsIsEquivalence(a: Transaction, b: Transaction, c: Transaction)
    ensures a.Equals(a)
    ensures a.Equals(b) <==> b.Equals(a)
    ensures a.Equals(b) && b.Equals(c) ==> a.Equals(c)
  {
  }

  /** Equal transactions print alike, so `hashCode` agrees with `equals`
    * whatever the string hash is. */
  lemma EqualsImpliesSameHashCode(a: Transaction, b: Transaction, stringHash: string -> int)
    requires a.Equals(b)
    ensures a.ToString() == b.ToString()
    ensures a.HashCode(stringHash) == b.HashCode(stringHash)
  {
  }
}
