/** Python's bitwise operators on the non-negative integers that hold Keccak lanes and
    bytes, defined bit by bit from the least significant end. */
module Bits {
  import opened Common

  /** Python's ^ on non-negative integers, built bit by bit from the least significant end. */
  function Xor(a: nat, b: nat): nat
    decreases a + b
  {
    if a == 0 then b
    else if b == 0 then a
    else 2 * Xor(a / 2, b / 2) + BitXor(a % 2, b % 2)
  }

  /** The xor of two bits. */
  function BitXor(p: nat, q: nat): nat
  {
    if p == q then 0 else 1
  }

  /** Python's (~t) & u on non-negative integers: the bits of u that are clear in t. */
  function AndNot(u: nat, t: nat): nat
    decreases u
  {
    if u == 0 then 0
    else 2 * AndNot(u / 2, t / 2) + (if u % 2 == 1 && t % 2 == 0 then 1 else 0)
  }

  /** The lowest bit of a xor is the xor of the lowest bits, and the rest is the xor of the rests. */
  lemma {:induction false} XorSplit(a: nat, b: nat)
    ensures Xor(a, b) % 2 == BitXor(a % 2, b % 2)
    ensures Xor(a, b) / 2 == Xor(a / 2, b / 2)
  {
    if a == 0 || b == 0 {
      XorSplitZero(a, b);
    } else {
      var x := Xor(a / 2, b / 2);
      var l := BitXor(a % 2, b % 2);
      assert Xor(a, b) == 2 * x + l;  // the third branch of Xor
      DivModUnique(2 * x + l, 2, x, l);
    }
  }

  lemma XorSplitZero(a: nat, b: nat)
    requires a == 0 || b == 0
    ensures Xor(a, b) % 2 == BitXor(a % 2, b % 2)
    ensures Xor(a, b) / 2 == Xor(a / 2, b / 2)
  {
    XorZero(a);
    XorZero(b);
    XorZero(a / 2);
    XorZero(b / 2);
  }

  /** Two numbers with the same lowest bit and the same remaining bits are equal. */
  lemma SameBits(x: nat, y: nat)
    requires x % 2 == y % 2 && x / 2 == y / 2
    ensures x == y
  {
  }

  lemma XorZero(a: nat)
    ensures Xor(a, 0) == a && Xor(0, a) == a
  {
  }

  lemma {:induction false} XorComm(a: nat, b: nat)
    ensures Xor(a, b) == Xor(b, a)
    decreases a + b
  {
    if a != 0 && b != 0 {
      XorComm(a / 2, b / 2);
    }
  }


  lemma {:induction false} XorAssoc(a: nat, b: nat, c: nat)
    ensures Xor(Xor(a, b), c) == Xor(a, Xor(b, c))
    decreases a + b + c
  {
    if a == 0 || b == 0 || c == 0 {
      XorZero(a);
      XorZero(b);
      XorZero(c);
      XorZero(Xor(a, b));
      XorZero(Xor(b, c));
    } else {
      XorAssoc(a / 2, b / 2, c / 2);
      XorSplit(a, b);
      XorSplit(Xor(a, b), c);
      XorSplit(b, c);
      XorSplit(a, Xor(b, c));
      assert Xor(Xor(a, b), c) / 2 == Xor(a, Xor(b, c)) / 2;
      SameBits(Xor(Xor(a, b), c), Xor(a, Xor(b, c)));
    }
  }

  /** The xor of two k-bit numbers is a k-bit number. */
  lemma {:induction false} XorBound(a: nat, b: nat, k: nat)
    requires a < Pow2(k) && b < Pow2(k)
    ensures Xor(a, b) < Pow2(k)
  {
    if a != 0 && b != 0 {
      XorBound(a / 2, b / 2, k - 1);
    }
  }

  lemma {:induction false} AndNotBound(u: nat, t: nat)
    ensures AndNot(u, t) <= u
    decreases u
  {
    if u != 0 {
      AndNotBound(u / 2, t / 2);
    }
  }

  /** Bit i of a, as Python's (a >> i) & 1. */
  function Bit(a: nat, i: nat): (r: nat)
    ensures r < 2
  {
    (a / Pow2(i)) % 2
  }

  /** Bit i + 1 of a is bit i of a // 2. */
  lemma BitShift(a: nat, i: nat)
    ensures Bit(a, i + 1) == Bit(a / 2, i)
  {
    DivDiv(a, 2, Pow2(i));
  }

  /** Python's ^ works bit by bit: bit i of the xor is the xor of the bits i. */
  lemma {:induction false} XorBit(a: nat, b: nat, i: nat)
    ensures Bit(Xor(a, b), i) == BitXor(Bit(a, i), Bit(b, i))
  {
    XorSplit(a, b);
    if i > 0 {
      XorBit(a / 2, b / 2, i - 1);
      BitShift(Xor(a, b), i - 1);
      BitShift(a, i - 1);
      BitShift(b, i - 1);
    }
  }

  /** Every number is its own inverse under xor. */
  lemma {:induction false} XorSelf(a: nat)
    ensures Xor(a, a) == 0
  {
    if a != 0 {
      XorSelf(a / 2);
    }
  }

  /** Xoring the same value twice undoes it. */
  lemma XorCancel(a: nat, b: nat)
    ensures Xor(Xor(a, b), b) == a
  {
    XorAssoc(a, b, b);
    XorSelf(b);
    XorZero(a);
  }

  lemma AndNotSplit(u: nat, t: nat)
    ensures AndNot(u, t) % 2 == (if u % 2 == 1 && t % 2 == 0 then 1 else 0)
    ensures AndNot(u, t) / 2 == AndNot(u / 2, t / 2)
  {
    if u != 0 {
      var l := if u % 2 == 1 && t % 2 == 0 then 1 else 0;
      DivModUnique(2 * AndNot(u / 2, t / 2) + l, 2, AndNot(u / 2, t / 2), l);
    }
  }

  /** (~t) & u works bit by bit: bit i is set exactly when it is set in u and clear in t. */
  lemma {:induction false} AndNotBit(u: nat, t: nat, i: nat)
    ensures Bit(AndNot(u, t), i) == if Bit(u, i) == 1 && Bit(t, i) == 0 then 1 else 0
  {
    AndNotSplit(u, t);
    if i > 0 {
      AndNotBit(u / 2, t / 2, i - 1);
      BitShift(AndNot(u, t), i - 1);
      BitShift(u, i - 1);
      BitShift(t, i - 1);
    }
  }
}
