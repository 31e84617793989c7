/**
  Bitwise arithmetic on natural numbers.

  The dictionary code addresses its units by exclusive-or of 32-bit identifiers.
  Identifiers are modelled as natural numbers, and `Xor` and `Or` are the usual
  bit-by-bit operations on their binary digits.
 */
module Bitwise {

  function Pow2(k: nat): (p: nat)
    ensures p > 0
  {
    if k == 0 then 1 else 2 * Pow2(k - 1)
  }

  function Xor(a: nat, b: nat): nat
    decreases a + b
  {
    if a == 0 && b == 0 then 0 else 2 * Xor(a / 2, b / 2) + (a + b) % 2
  }

  function Or(a: nat, b: nat): nat
    decreases a + b
  {
    if a == 0 && b == 0 then 0
    else 2 * Or(a / 2, b / 2) + (if a % 2 == 1 || b % 2 == 1 then 1 else 0)
  }

  function And(a: nat, b: nat): nat
    decreases a + b
  {
    if a == 0 || b == 0 then 0
    else 2 * And(a / 2, b / 2) + (if a % 2 == 1 && b % 2 == 1 then 1 else 0)
  }

  /** Digit i of a, counting from the least significant one. */
  predicate BitAt(a: nat, i: nat) {
    if i == 0 then a % 2 == 1 else BitAt(a / 2, i - 1)
  }

  lemma {:induction false} XorZero(a: nat)
    ensures Xor(a, 0) == a
    decreases a
  {
    if a > 0 {
      XorZero(a / 2);
    }
  }

  lemma {:induction false} XorSelf(a: nat)
    ensures Xor(a, a) == 0
    decreases a
  {
    if a > 0 {
      XorSelf(a / 2);
    }
  }

  lemma {:induction false} XorCommutes(a: nat, b: nat)
    ensures Xor(a, b) == Xor(b, a)
    decreases a + b
  {
    if a + b > 0 {
      XorCommutes(a / 2, b / 2);
    }
  }

  lemma {:induction false} XorDigit(a: nat, b: nat)
    ensures Xor(a, b) / 2 == Xor(a / 2, b / 2)
    ensures Xor(a, b) % 2 == (a % 2 + b % 2) % 2
  {
    LastDigit(Xor(a / 2, b / 2), (a + b) % 2);
    SumParity(a, b);
  }

  lemma {:induction false} XorTriple(a: nat, b: nat, c: nat)
    ensures Xor(Xor(a, b), c) / 2 == Xor(Xor(a / 2, b / 2), c / 2)
    ensures Xor(Xor(a, b), c) % 2 == ((a % 2 + b % 2) % 2 + c % 2) % 2
  {
    hide Xor;
    XorDigit(a, b);
    XorDigit(Xor(a, b), c);
  }

  lemma {:induction false} LastDigit(q: nat, r: nat)
    requires r < 2
    ensures (2 * q + r) / 2 == q && (2 * q + r) % 2 == r
  {
  }

  lemma {:induction false} SumParity(a: nat, b: nat)
    ensures (a + b) % 2 == (a % 2 + b % 2) % 2
  {
  }

  lemma {:induction false} ParityAssociates(a: nat, b: nat, c: nat)
    requires a < 2 && b < 2 && c < 2
    ensures ((a + b) % 2 + c) % 2 == (a + (b + c) % 2) % 2
  {
  }

  lemma {:induction false} SameDigits(x: nat, y: nat)
    requires x / 2 == y / 2 && x % 2 == y % 2
    ensures x == y
  {
  }

  lemma {:induction false} XorAssociates(a: nat, b: nat, c: nat)
    ensures Xor(Xor(a, b), c) == Xor(a, Xor(b, c))
    decreases a + b + c
  {
    if a + b + c == 0 {
      XorSelf(0);
    } else {
      XorAssociatesStep(a, b, c);
    }
  }

  lemma {:induction false} XorAssociatesStep(a: nat, b: nat, c: nat)
    requires a + b + c > 0
    ensures Xor(Xor(a, b), c) == Xor(a, Xor(b, c))
    decreases a + b + c, 0
  {
    hide Xor;
    XorAssociates(a / 2, b / 2, c / 2);
    XorTriple(a, b, c);
    XorCommutes(a, Xor(b, c));
    XorTriple(b, c, a);
    XorCommutes(a / 2, Xor(b / 2, c / 2));
    ParityAssociates(a % 2, b % 2, c % 2);
    SameDigits(Xor(Xor(a, b), c), Xor(a, Xor(b, c)));
  }

  /** Applying the same mask twice restores the operand. */
  lemma {:induction false} XorCancels(a: nat, b: nat)
    ensures Xor(Xor(a, b), b) == a
    ensures Xor(a, Xor(a, b)) == b
  {
    hide Xor;
    XorAssociates(a, b, b);
    XorSelf(b);
    XorZero(a);
    XorAssociates(a, a, b);
    XorSelf(a);
    XorCommutes(0, b);
    XorZero(b);
  }

  lemma {:induction false} XorInjective(a: nat, b: nat, c: nat)
    requires Xor(a, b) == Xor(a, c)
    ensures b == c
  {
    hide Xor;
    XorCancels(a, b);
    XorCancels(a, c);
  }

  /** The number with digits `high` from position k upward and digits `low` below it. */
  function Join(k: nat, high: nat, low: nat): nat {
    Pow2(k) * high + low
  }

  lemma {:induction false} XorDistinct(a: nat, b: nat, c: nat)
    ensures Xor(a, b) == Xor(a, c) <==> b == c
  {
    hide Xor;
    if Xor(a, b) == Xor(a, c) {
      XorInjective(a, b, c);
    }
  }

  lemma {:induction false} JoinDigit(k: nat, high: nat, low: nat)
    requires k > 0 && low < Pow2(k)
    ensures Join(k, high, low) / 2 == Join(k - 1, high, low / 2)
    ensures Join(k, high, low) % 2 == low % 2
    ensures low / 2 < Pow2(k - 1)
  {
    var half := Pow2(k - 1) * high;
    assert Pow2(k) * high == 2 * half;
  }

  lemma {:induction false} JoinZero(high: nat, low: nat)
    requires low < Pow2(0)
    ensures Join(0, high, low) == high && low == 0
  {
  }

  /** Exclusive-or works on the digits above and below position k separately. */
  lemma {:induction false} XorJoined(k: nat, h1: nat, l1: nat, h2: nat, l2: nat)
    requires l1 < Pow2(k) && l2 < Pow2(k)
    ensures Xor(l1, l2) < Pow2(k)
    ensures Xor(Join(k, h1, l1), Join(k, h2, l2)) == Join(k, Xor(h1, h2), Xor(l1, l2))
    decreases k
  {
    if k == 0 {
      JoinZero(h1, l1);
      JoinZero(h2, l2);
      JoinZero(Xor(h1, h2), 0);
    } else {
      XorJoinedStep(k, h1, l1, h2, l2);
    }
  }

  lemma {:induction false} XorJoinedStep(k: nat, h1: nat, l1: nat, h2: nat, l2: nat)
    requires 0 < k && l1 < Pow2(k) && l2 < Pow2(k)
    ensures Xor(l1, l2) < Pow2(k)
    ensures Xor(Join(k, h1, l1), Join(k, h2, l2)) == Join(k, Xor(h1, h2), Xor(l1, l2))
    decreases k, 0
  {
    hide Xor;
    hide Join;
    JoinDigit(k, h1, l1);
    JoinDigit(k, h2, l2);
    XorJoined(k - 1, h1, l1 / 2, h2, l2 / 2);
    XorDigit(Join(k, h1, l1), Join(k, h2, l2));
    XorDigit(l1, l2);
    JoinDigit(k, Xor(h1, h2), Xor(l1, l2));
    SameDigits(Xor(Join(k, h1, l1), Join(k, h2, l2)), Join(k, Xor(h1, h2), Xor(l1, l2)));
  }

  lemma {:induction false} OrDigit(a: nat, b: nat)
    ensures Or(a, b) / 2 == Or(a / 2, b / 2)
    ensures Or(a, b) % 2 == (if a % 2 == 1 || b % 2 == 1 then 1 else 0)
  {
  }

  lemma {:induction false} OrJoined(k: nat, h1: nat, l1: nat, h2: nat, l2: nat)
    requires l1 < Pow2(k) && l2 < Pow2(k)
    ensures Or(l1, l2) < Pow2(k)
    ensures Or(Join(k, h1, l1), Join(k, h2, l2)) == Join(k, Or(h1, h2), Or(l1, l2))
    decreases k
  {
    if k == 0 {
      JoinZero(h1, l1);
      JoinZero(h2, l2);
      JoinZero(Or(h1, h2), 0);
    } else {
      OrJoinedStep(k, h1, l1, h2, l2);
    }
  }

  lemma {:induction false} OrJoinedStep(k: nat, h1: nat, l1: nat, h2: nat, l2: nat)
    requires 0 < k && l1 < Pow2(k) && l2 < Pow2(k)
    ensures Or(l1, l2) < Pow2(k)
    ensures Or(Join(k, h1, l1), Join(k, h2, l2)) == Join(k, Or(h1, h2), Or(l1, l2))
    decreases k, 0
  {
    hide Or;
    hide Join;
    JoinDigit(k, h1, l1);
    JoinDigit(k, h2, l2);
    OrJoined(k - 1, h1, l1 / 2, h2, l2 / 2);
    OrDigit(Join(k, h1, l1), Join(k, h2, l2));
    OrDigit(l1, l2);
    JoinDigit(k, Or(h1, h2), Or(l1, l2));
    SameDigits(Or(Join(k, h1, l1), Join(k, h2, l2)), Join(k, Or(h1, h2), Or(l1, l2)));
  }

  lemma {:induction false} OrZero(a: nat)
    ensures Or(a, 0) == a && Or(0, a) == a
    decreases a
  {
    if a > 0 {
      OrZero(a / 2);
    }
  }

  lemma {:induction false} ByteJoin(id: nat)
    ensures Pow2(8) == 256
    ensures id == Join(8, id / 256, id % 256)
  {
    assert Pow2(4) == 16;
  }

  lemma {:induction false} JoinByte(high: nat, low: nat)
    requires low < 256
    ensures Join(8, high, low) / 256 == high && Join(8, high, low) % 256 == low
  {
    assert Pow2(4) == 16;
    assert Pow2(8) == 256;
  }

  /** Or never clears a digit of its second operand. */
  lemma {:induction false} OrAtLeast(a: nat, b: nat)
    ensures Or(a, b) >= b
    decreases a + b
  {
    if a + b > 0 {
      OrAtLeast(a / 2, b / 2);
    }
  }

  /** Blocks hold 256 consecutive identifiers; a byte mask never leaves the block. */
  lemma {:induction false} XorLowByte(a: nat, b: nat)
    ensures Xor(a, b) % 256 == Xor(a % 256, b % 256) < 256
    ensures Xor(a, b) / 256 == Xor(a / 256, b / 256)
  {
    hide Xor;
    hide Join;
    ByteJoin(a);
    ByteJoin(b);
    XorJoined(8, a / 256, a % 256, b / 256, b % 256);
    JoinByte(Xor(a / 256, b / 256), Xor(a % 256, b % 256));
  }

  lemma {:induction false} XorByte(id: nat, c: nat)
    requires c < 256
    ensures Xor(id, c) / 256 == id / 256
    ensures Xor(id, Xor(id, c)) == c
    ensures Xor(Xor(id, c), c) == id
    ensures Xor(Xor(id, c), id) == c
  {
    hide Xor;
    XorLowByte(id, c);
    XorZero(id / 256);
    XorCancels(id, c);
    XorCommutes(Xor(id, c), id);
  }

  lemma {:induction false} XorSameBlock(a: nat, b: nat)
    requires a / 256 == b / 256
    ensures Xor(a, b) < 256
    ensures Xor(a, Xor(a, b)) == b
  {
    hide Xor;
    XorLowByte(a, b);
    XorSelf(a / 256);
    XorCancels(a, b);
  }
}
