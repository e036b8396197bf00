// Machine words as natural numbers: exclusive or, conjunction and shifts, with
// the algebra that the checksum proofs need.  A shift right by one is "/ 2", a
// shift left by one is "* 2", and "& 0xFF" is "% 256".
module Bits {

  function Pow2(k: nat): (p: nat)
    ensures p > 0
  {
    if k == 0 then 1 else 2 * Pow2(k - 1)
  }

  // Bitwise exclusive or.
  function Xor(a: nat, b: nat): nat
    decreases a + b
  {
    if a == 0 && b == 0 then 0
    else (if a % 2 == b % 2 then 0 else 1) + 2 * Xor(a / 2, b / 2)
  }

  // Bitwise conjunction.
  function And(a: nat, b: nat): nat
    decreases a
  {
    if a == 0 then 0 else (if a % 2 == 1 && b % 2 == 1 then 1 else 0) + 2 * And(a / 2, b / 2)
  }

  lemma {:induction false} XorZero(a: nat)
    ensures Xor(a, 0) == a && Xor(0, a) == a
  {
    if a > 0 {
      XorZero(a / 2);
    }
  }

  lemma {:induction false} XorSelf(a: nat)
    ensures Xor(a, a) == 0
  {
    if a > 0 {
      XorSelf(a / 2);
    }
  }

  lemma {:induction false} XorComm(a: nat, b: nat)
    ensures Xor(a, b) == Xor(b, a)
    decreases a + b
  {
    if a > 0 || b > 0 {
      XorComm(a / 2, b / 2);
    }
  }

  // How exclusive or acts on the last bit and on the other bits.
  lemma XorStep(a: nat, b: nat)
    ensures Xor(a, b) / 2 == Xor(a / 2, b / 2)
    ensures Xor(a, b) % 2 == (if a % 2 == b % 2 then 0 else 1)
  {
  }

  lemma XorDouble(a: nat, b: nat)
    ensures Xor(2 * a, 2 * b) == 2 * Xor(a, b)
  {
    XorStep(2 * a, 2 * b);
  }

  lemma XorLastBit(bit: nat, rest: nat)
    requires bit < 2
    ensures Xor(bit, 2 * rest) == bit + 2 * rest
  {
    XorStep(bit, 2 * rest);
    XorZero(rest);
  }

  lemma {:induction false} XorAssoc(a: nat, b: nat, c: nat)
    ensures Xor(Xor(a, b), c) == Xor(a, Xor(b, c))
    decreases a + b + c
  {
    if a + b + c > 0 {
      XorStep(a, b);
      XorStep(b, c);
      XorStep(Xor(a, b), c);
      XorStep(a, Xor(b, c));
      XorAssoc(a / 2, b / 2, c / 2);
    }
  }

  // (a ^ b) ^ (c ^ d) regrouped as (a ^ c) ^ (b ^ d).
  lemma XorSwap(a: nat, b: nat, c: nat, d: nat)
    ensures Xor(Xor(a, b), Xor(c, d)) == Xor(Xor(a, c), Xor(b, d))
  {
    XorAssoc(a, b, Xor(c, d));
    XorAssoc(b, c, d);
    XorComm(b, c);
    XorAssoc(c, b, d);
    XorAssoc(a, c, Xor(b, d));
  }

  lemma XorCancel(a: nat, b: nat)
    ensures Xor(Xor(a, b), b) == a
    ensures Xor(b, Xor(b, a)) == a
  {
    XorAssoc(a, b, b);
    XorAssoc(b, b, a);
    XorSelf(b);
    XorZero(a);
  }

  // x shifted left by k.
  function Shl(k: nat, x: nat): nat {
    if k == 0 then x else 2 * Shl(k - 1, x)
  }

  // Exclusive or works separately on the low k bits and on the rest.
  lemma {:induction false} XorSplit(k: nat, ah: nat, al: nat, bh: nat, bl: nat)
    requires al < Pow2(k) && bl < Pow2(k)
    ensures Xor(al, bl) < Pow2(k)
    ensures Xor(Shl(k, ah) + al, Shl(k, bh) + bl) == Shl(k, Xor(ah, bh)) + Xor(al, bl)
    decreases k
  {
    if k > 0 {
      XorSplit(k - 1, ah, al / 2, bh, bl / 2);
      XorStep(Shl(k, ah) + al, Shl(k, bh) + bl);
      XorStep(al, bl);
    }
  }

  lemma XorBound(k: nat, a: nat, b: nat)
    requires a < Pow2(k) && b < Pow2(k)
    ensures Xor(a, b) < Pow2(k)
  {
    ShlZero(k);
    XorSplit(k, 0, a, 0, b);
  }

  lemma {:induction false} ShlZero(k: nat)
    ensures Shl(k, 0) == 0
  {
    if k > 0 {
      ShlZero(k - 1);
    }
  }

  lemma Pow2Facts()
    ensures Pow2(8) == 0x100 && Pow2(32) == 0x1_0000_0000
  {
    assert Pow2(4) == 16;
    assert Pow2(12) == 0x1000;
    assert Pow2(20) == 0x10_0000;
    assert Pow2(28) == 0x1000_0000;
  }

  lemma {:induction false} ShlTimes(k: nat, x: nat)
    ensures Shl(k, x) == Pow2(k) * x
  {
    if k > 0 {
      ShlTimes(k - 1, x);
    }
  }

  // Exclusive or works separately on the low byte and on the rest.
  lemma XorSplit8(ah: nat, al: nat, bh: nat, bl: nat)
    requires al < 256 && bl < 256
    ensures Xor(al, bl) < 256
    ensures Xor(256 * ah + al, 256 * bh + bl) == 256 * Xor(ah, bh) + Xor(al, bl)
  {
    hide Xor;
    Pow2Facts();
    XorSplit(8, ah, al, bh, bl);
    ShlTimes(8, ah);
    ShlTimes(8, bh);
    ShlTimes(8, Xor(ah, bh));
  }

  lemma XorWord(a: nat, b: nat)
    requires a < 0x1_0000_0000 && b < 0x1_0000_0000
    ensures Xor(a, b) < 0x1_0000_0000
  {
    Pow2Facts();
    XorBound(32, a, b);
  }

  // The low byte of an exclusive or, and what is above it.
  lemma XorBytes(a: nat, b: nat)
    ensures Xor(a, b) % 256 == Xor(a % 256, b % 256)
    ensures Xor(a, b) / 256 == Xor(a / 256, b / 256)
    ensures Xor(a % 256, b % 256) < 256
  {
    hide Xor;
    XorSplit8(a / 256, a % 256, b / 256, b % 256);
  }

  // A number is the exclusive or of its low byte and the rest.
  lemma XorJoin(lo: nat, hi: nat)
    requires lo < 256
    ensures Xor(lo, 256 * hi) == lo + 256 * hi
  {
    hide Xor;
    XorSplit8(0, lo, hi, 0);
    XorZero(lo);
    XorZero(hi);
  }

  lemma {:induction false} AndOnes(k: nat, x: nat)
    requires x < Pow2(k)
    ensures And(Pow2(k) - 1, x) == x
    decreases k
  {
    if k > 0 {
      assert (Pow2(k) - 1) / 2 == Pow2(k - 1) - 1;
      AndOnes(k - 1, x / 2);
    }
  }
}
