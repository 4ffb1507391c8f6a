/** The bitwise operators of C++ on unsigned numbers, bit by bit, and what they do to fields that
    are shifted into place. */
module BitFields {
  import opened Modulus

  function Or(a: nat, b: nat): nat
    decreases a + b
  {
    if a == 0 && b == 0 then 0
    else 2 * Or(a / 2, b / 2) + (if a % 2 == 1 || b % 2 == 1 then 1 else 0)
  }

  function And(a: nat, b: nat): nat {
    if a == 0 then 0 else 2 * And(a / 2, b / 2) + (if a % 2 == 1 && b % 2 == 1 then 1 else 0)
  }

  function Power(k: nat): (p: nat)
    ensures 0 < p
  {
    if k == 0 then 1 else 2 * Power(k - 1)
  }

  function Left(a: nat, k: nat): nat { a * Power(k) }

  function Right(a: nat, k: nat): nat {
    if k == 0 then a else Right(a, k - 1) / 2
  }

  lemma {:induction false} OrWithNothing(a: nat)
    ensures Or(a, 0) == a
    decreases a
  {
    if a == 0 {
    } else {
      OrWithNothing(a / 2);
    }
  }

  /** A number shifted up by k places does not overlap a number of k bits: their or is their sum. */
  lemma {:induction false} OrIsSum(a: nat, b: nat, k: nat)
    requires b < Power(k)
    ensures Or(Left(a, k), b) == Left(a, k) + b
    decreases k
  {
    if k == 0 {
      OrWithNothing(a);
    } else {
      assert Left(a, k) == 2 * Left(a, k - 1) by { DoubledProduct(a, Power(k - 1)); }
      OrIsSum(a, b / 2, k - 1);
    }
  }

  lemma {:induction false} RightIsQuotient(a: nat, k: nat)
    ensures Right(a, k) == a / Power(k)
  {
    if k == 0 {
    } else {
      RightIsQuotient(a, k - 1);
      DoubledQuotient(a, Power(k - 1));
    }
  }

  lemma DoubledQuotient(a: nat, p: nat)
    requires 0 < p
    ensures a / (2 * p) == a / p / 2
  {
    var q, r := a / p / 2, p * (a / p % 2) + a % p;
    assert a == p * (a / p) + a % p;
    assert p * (a / p) == p * (2 * q) + p * (a / p % 2) by { Distributed(p, 2 * q, a / p % 2); }
    assert a == (2 * p) * q + r;
    DivModUnique(a, 2 * p, q, r);
  }

  lemma Distributed(p: nat, x: nat, y: nat)
    ensures p * (x + y) == p * x + p * y
  {
  }

  lemma DoubledProduct(a: nat, p: nat)
    ensures a * (2 * p) == 2 * (a * p)
  {
  }

  /** k one bits mask out the remainder. */
  lemma {:induction false} MaskIsRemainder(a: nat, k: nat)
    ensures And(a, Power(k) - 1) == a % Power(k)
    decreases k
  {
    if k == 0 {
      AndWithNothing(a);
    } else if a != 0 {
      MaskIsRemainder(a / 2, k - 1);
      DoubledRemainder(a, Power(k - 1));
    }
  }

  lemma {:induction false} AndWithNothing(a: nat)
    ensures And(a, 0) == 0
    decreases a
  {
    if a == 0 {
    } else {
      AndWithNothing(a / 2);
    }
  }

  lemma DoubledRemainder(a: nat, p: nat)
    requires 0 < p
    ensures a % (2 * p) == 2 * (a / 2 % p) + a % 2
  {
    var q, r := a / 2 / p, 2 * (a / 2 % p) + a % 2;
    assert a / 2 == p * q + a / 2 % p;
    assert a == (2 * p) * q + r by { DoubledProduct(q, p); }
    DivModUnique(a, 2 * p, q, r);
  }

  lemma Powers()
    ensures Power(4) == 16 && Power(5) == 32 && Power(6) == 64 && Power(9) == 512 && Power(11) == 2048
  {
    assert Power(5) == 32;
    assert Power(8) == 8 * Power(5);
    assert Power(11) == 8 * Power(8);
  }

  /** Three fields shifted into place. */
  lemma ThreeFields(a: nat, b: nat, c: nat, high: nat, low: nat)
    requires low <= high && Left(b, low) < Power(high) && c < Power(low)
    ensures Or(Or(Left(a, high), Left(b, low)), c) == Left(a, high) + Left(b, low) + c
  {
    hide Or;
    OrIsSum(a, Left(b, low), high);
    var d := Power(high - low);
    PowersMultiply(high - low, low);
    assert Left(a, high) + Left(b, low) == Left(a * d + b, low) by { Distribute(a, d, b, Power(low)); }
    OrIsSum(a * d + b, c, low);
  }

  lemma {:induction false} PowersMultiply(j: nat, k: nat)
    ensures Power(j + k) == Power(j) * Power(k)
  {
    if j == 0 {
    } else {
      PowersMultiply(j - 1, k);
    }
  }

  lemma Distribute(a: nat, d: nat, b: nat, p: nat)
    ensures (a * d + b) * p == a * (d * p) + b * p
  {
  }
}
