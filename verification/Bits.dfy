/** Bitwise or of natural numbers. */
module Bits {
  import Arithmetic

  /** Bitwise or. */
  function Or(a: nat, b: nat): nat {
    if a == 0 then b else 2 * Or(a / 2, b / 2) + (if a % 2 == 1 || b % 2 == 1 then 1 else 0)
  }

  function Pow2(k: nat): (r: nat)
    ensures r >= 1
  {
    if k == 0 then 1 else 2 * Pow2(k - 1)
  }

  lemma OrZero(a: nat)
    ensures Or(a, 0) == a
  {
    if a > 0 {
      OrZero(a / 2);
    }
  }

  lemma OrStep(a: nat, b: nat)
    ensures Or(a, b) == 2 * Or(a / 2, b / 2) + (if a % 2 == 1 || b % 2 == 1 then 1 else 0)
  {
    if a == 0 {
      assert Or(0, b / 2) == b / 2;
    }
  }

  lemma OrSplitStep(a: nat, b: nat, x: nat, y: nat, h: nat)
    requires Or(a * h + x / 2, b * h + y / 2) == Or(a, b) * h + Or(x / 2, y / 2)
    ensures Or(a * (2 * h) + x, b * (2 * h) + y) == Or(a, b) * (2 * h) + Or(x, y)
  {
    hide Or;
    Halves(a, h, x);
    Halves(b, h, y);
    OrStep(a * (2 * h) + x, b * (2 * h) + y);
    OrStep(x, y);
    MulTwo(Or(a, b), h);
  }

  /** Or works digit by digit. */
  lemma {:induction false} OrSplit(a: nat, b: nat, x: nat, y: nat, k: nat)
    requires x < Pow2(k) && y < Pow2(k)
    ensures Or(a * Pow2(k) + x, b * Pow2(k) + y) == Or(a, b) * Pow2(k) + Or(x, y)
    decreases k
  {
    hide Or;
    if k > 0 {
      OrSplit(a, b, x / 2, y / 2, k - 1);
      OrSplitStep(a, b, x, y, Pow2(k - 1));
    } else {
      OrStep(0, 0);
      NoBits();
    }
  }

  lemma NoBits()
    ensures Or(0, 0) == 0
  {
  }

  lemma MulTwo(a: nat, h: nat)
    ensures a * (2 * h) == 2 * (a * h)
  {
  }

  lemma Halves(a: nat, h: nat, x: nat)
    ensures (a * (2 * h) + x) / 2 == a * h + x / 2 && (a * (2 * h) + x) % 2 == x % 2
  {
    MulTwo(a, h);
  }

  lemma OrLeft(b: nat)
    ensures Or(0, b) == b
  {
  }

  /** A bit of the result is set exactly when it is set in one of the two. */
  lemma {:induction false} OrBit(a: nat, b: nat, k: nat)
    ensures Or(a, b) / Pow2(k) % 2 == 1 <==> a / Pow2(k) % 2 == 1 || b / Pow2(k) % 2 == 1
    decreases k
  {
    hide Or;
    OrStep(a, b);
    if k > 0 {
      OrBit(a / 2, b / 2, k - 1);
      HalvedTwice(a, Pow2(k - 1));
      HalvedTwice(b, Pow2(k - 1));
      HalvedTwice(Or(a, b), Pow2(k - 1));
    }
  }

  lemma HalvedTwice(a: nat, h: nat)
    requires h >= 1
    ensures a / (2 * h) == a / 2 / h
  {
    Arithmetic.ModProduct(a, 2, h);
  }

  /** Numbers that share no bit are added. */
  lemma OrApart(a: nat, x: nat, k: nat, h: nat)
    requires h == Pow2(k) && x < h
    ensures Or(a * h, x) == a * h + x
  {
    hide *;
    OrSplit(a, 0, 0, x, k);
    OrZero(a);
    OrLeft(x);
    assert 0 * h + x == x && a * h + 0 == a * h;
  }
}
