/** Exclusive or on natural numbers. */
module Bits {

  function Xor(a: nat, b: nat): nat
    decreases a
  {
    if a == 0 then b
    else if b == 0 then a
    else 2 * Xor(a / 2, b / 2) + if a % 2 == b % 2 then 0 else 1
  }

  // The last bit and the others.
  lemma XorParts(a: nat, b: nat)
    ensures Xor(a, b) / 2 == Xor(a / 2, b / 2) && Xor(a, b) % 2 == (if a % 2 == b % 2 then 0 else 1)
  {
  }

  lemma {:induction false} XorComm(a: nat, b: nat)
    ensures Xor(a, b) == Xor(b, a)
  {
    if a != 0 && b != 0 { XorComm(a / 2, b / 2); }
  }

  lemma SameParts(x: nat, y: nat)
    requires x / 2 == y / 2 && x % 2 == y % 2
    ensures x == y
  {
  }

  lemma {:induction false} XorAssoc(a: nat, b: nat, c: nat)
    ensures Xor(Xor(a, b), c) == Xor(a, Xor(b, c))
    decreases a
  {
    if a != 0 {
      XorAssoc(a / 2, b / 2, c / 2);
      XorParts(a, b);
      XorParts(b, c);
      XorParts(Xor(a, b), c);
      XorParts(a, Xor(b, c));
      hide Xor;
      SameParts(Xor(Xor(a, b), c), Xor(a, Xor(b, c)));
    }
  }

  lemma {:induction false} XorSelf(a: nat)
    ensures Xor(a, a) == 0
  {
    if a != 0 { XorSelf(a / 2); }
  }

  function Pow2(k: nat): (n: nat)
    ensures n >= 1
  {
    if k == 0 then 1 else 2 * Pow2(k - 1)
  }

  // Both shifted.
  lemma {:induction false} XorShifted(a: nat, b: nat, k: nat)
    ensures Xor(Pow2(k) * a, Pow2(k) * b) == Pow2(k) * Xor(a, b)
    decreases k
  {
    hide Xor;
    if k > 0 {
      XorShifted(a, b, k - 1);
      PowTimes(k, a);
      PowTimes(k, b);
      PowTimes(k, Xor(a, b));
      hide Pow2;
      XorDoubled(Pow2(k - 1) * a, Pow2(k - 1) * b);
    }
  }

  lemma PowTimes(k: nat, a: nat)
    requires k > 0
    ensures Pow2(k) * a == 2 * (Pow2(k - 1) * a) && Pow2(k - 1) * a >= 0
  {
  }

  lemma XorDoubled(x: nat, y: nat)
    ensures Xor(2 * x, 2 * y) == 2 * Xor(x, y)
  {
    XorParts(2 * x, 2 * y);
  }

  // Bits that do not overlap add up.
  lemma {:induction false} XorApart(a: nat, y: nat, k: nat)
    requires y < Pow2(k)
    ensures Xor(Pow2(k) * a, y) == Pow2(k) * a + y
    decreases k
  {
    if k == 0 {
      XorComm(a, 0);
    } else {
      XorApart(a, y / 2, k - 1);
      var x := Pow2(k - 1) * a;
      PowTimes(k, a);
      XorParts(2 * x, y);
      hide Xor;
      SameParts(Xor(2 * x, y), 2 * x + y);
    }
  }

  lemma {:induction false} XorBelow(a: nat, b: nat, k: nat)
    requires a < Pow2(k) && b < Pow2(k)
    ensures Xor(a, b) < Pow2(k)
    decreases k
  {
    if k > 0 {
      XorBelow(a / 2, b / 2, k - 1);
      XorParts(a, b);
    }
  }

  // Exclusive or of four, taken the other way round.
  lemma XorSwap(a: nat, b: nat, c: nat, d: nat)
    ensures Xor(Xor(a, b), Xor(c, d)) == Xor(Xor(a, c), Xor(b, d))
  {
    hide Xor;
    XorAssoc(a, b, Xor(c, d));
    XorAssoc(b, c, d);
    XorComm(b, c);
    XorAssoc(c, b, d);
    XorAssoc(a, c, Xor(b, d));
  }

  // Applied twice it changes nothing.
  lemma XorTwice(a: nat, c: nat)
    ensures Xor(Xor(a, c), c) == a
  {
    XorAssoc(a, c, c);
    XorSelf(c);
    XorComm(a, 0);
  }
}
