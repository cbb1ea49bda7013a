/**
 * Cache keys for user records: `"user_" + id`, where Java renders the `Long`
 * id with `Long.toString` (decimal digits, a leading '-' for negative ids).
 */
module Keys {

  /** The prefix every user-record cache key starts with. */
  const UserPrefix: string := "user_"

  function DigitChar(d: int): (c: char)
    requires 0 <= d < 10
    ensures '0' <= c <= '9'
  {
    (48 + d) as char
  }

  /** The decimal digits of a natural number, most significant first, with no leading zeros. */
  function Decimal(n: nat): (s: string)
    ensures |s| >= 1
    ensures forall i :: 0 <= i < |s| ==> '0' <= s[i] <= '9'
    decreases n
  {
    if n < 10 then [DigitChar(n)] else Decimal(n / 10) + [DigitChar(n % 10)]
  }

  /** Java's `Long.toString(id)`, which string concatenation with a `Long` uses. */
  function LongToString(id: int): (s: string)
    ensures |s| >= 1
    ensures (s[0] == '-') <==> id < 0
  {
    if id < 0 then "-" + Decimal(-id) else Decimal(id)
  }

  /** The cache key `"user_" + id` built by `getUserById`. */
  function UserKey(id: int): (key: string)
    ensures |key| > |UserPrefix| && key[..|UserPrefix|] == UserPrefix
  {
    UserPrefix + LongToString(id)
  }

  /** Distinct numbers have distinct decimal renderings. */
  lemma {:induction false} DecimalInjective(a: nat, b: nat)
    requires Decimal(a) == Decimal(b)
    ensures a == b
    decreases a
  {
    var da, db := Decimal(a), Decimal(b);
    if a < 10 && b < 10 {
      assert DigitChar(a) == da[0] == db[0] == DigitChar(b);
    } else if a >= 10 && b >= 10 {
      assert DigitChar(a % 10) == da[|da| - 1] == db[|db| - 1] == DigitChar(b % 10);
      assert Decimal(a / 10) == da[..|da| - 1] == db[..|db| - 1] == Decimal(b / 10);
      DecimalInjective(a / 10, b / 10);
    }
  }

  /** `Long.toString` is injective. */
  lemma LongToStringInjective(a: int, b: int)
    requires LongToString(a) == LongToString(b)
    ensures a == b
  {
    if a < 0 && b < 0 {
      assert Decimal(-a) == LongToString(a)[1..] == LongToString(b)[1..] == Decimal(-b);
      DecimalInjective(-a, -b);
    } else if a >= 0 && b >= 0 {
      DecimalInjective(a, b);
    }
  }

  /** Distinct ids give distinct cache keys, so no id can read an entry keyed for another id. */
  lemma UserKeyInjective(a: int, b: int)
    ensures UserKey(a) == UserKey(b) <==> a == b
  {
    if UserKey(a) == UserKey(b) {
      assert LongToString(a) == UserKey(a)[|UserPrefix|..] == UserKey(b)[|UserPrefix|..] == LongToString(b);
      LongToStringInjective(a, b);
    }
  }
}
