// Bitwise operations on unsigned words, and the power-of-two test of util/Bit.h.
module Bits {
  // Bitwise and.
  function And(a: nat, b: nat): nat {
    if a == 0 || b == 0 then 0 else 2 * And(a / 2, b / 2) + if a % 2 == 1 && b % 2 == 1 then 1 else 0
  }

  function Power(k: nat): (p: nat)
    ensures 0 < p
  {
    if k == 0 then 1 else 2 * Power(k - 1)
  }

  predicate IsPowerOfTwo(n: nat)
    requires 0 < n
  {
    And(n, n - 1) == 0
  }

  lemma {:induction false} AndItself(n: nat)
    ensures And(n, n) == n
  {
    if n > 0 {
      AndItself(n / 2);
      assert n == 2 * (n / 2) + n % 2;
    }
  }

  // The test accepts a positive number exactly if it is a power of two.
  lemma {:induction false} IsPowerOfTwoIff(n: nat)
    requires 0 < n
    ensures IsPowerOfTwo(n) <==> exists k: nat :: n == Power(k)
  {
    if n == 1 {
      assert n == Power(0);
    } else if n % 2 == 1 {
      AndItself(n / 2);
      forall k: nat
        ensures n != Power(k)
      {
        assert k > 0 ==> Power(k) == 2 * Power(k - 1);
      }
    } else {
      IsPowerOfTwoIff(n / 2);
      assert (n - 1) / 2 == n / 2 - 1;
      if IsPowerOfTwo(n / 2) {
        var k: nat :| n / 2 == Power(k);
        assert n == Power(k + 1);
      } else {
        forall k: nat
          ensures n != Power(k)
        {
          assert k > 0 ==> Power(k) == 2 * Power(k - 1);
        }
      }
    }
  }

  const FULL := 0xFFFF_FFFF

  // Bitwise or.
  function Or(a: nat, b: nat): nat
    decreases a + b
  {
    if a == 0 then b else if b == 0 then a else 2 * Or(a / 2, b / 2) + if a % 2 + b % 2 == 0 then 0 else 1
  }

  // All 32 bits of a word inverted.
  function Not(w: nat): nat
    requires w <= FULL
  {
    FULL - w
  }

  predicate Bit(w: nat, b: nat) {
    if b == 0 then w % 2 == 1 else Bit(w / 2, b - 1)
  }

  lemma {:induction false} ZeroHasNoBit(b: nat)
    ensures !Bit(0, b)
  {
    if b > 0 {
      ZeroHasNoBit(b - 1);
    }
  }

  lemma {:induction false} BitOfPower(k: nat, b: nat)
    ensures Bit(Power(k), b) <==> b == k
  {
    if k == 0 {
      if b > 0 {
        ZeroHasNoBit(b - 1);
      }
    } else if b > 0 {
      BitOfPower(k - 1, b - 1);
    }
  }

  lemma {:induction false} BitOfOr(x: nat, y: nat, b: nat)
    ensures Bit(Or(x, y), b) <==> Bit(x, b) || Bit(y, b)
    decreases b
  {
    ZeroHasNoBit(b);
    if x != 0 && y != 0 && b > 0 {
      BitOfOr(x / 2, y / 2, b - 1);
    }
  }

  lemma {:induction false} BitOfAnd(x: nat, y: nat, b: nat)
    ensures Bit(And(x, y), b) <==> Bit(x, b) && Bit(y, b)
    decreases b
  {
    ZeroHasNoBit(b);
    if x != 0 && y != 0 && b > 0 {
      BitOfAnd(x / 2, y / 2, b - 1);
    }
  }

  // Complementing the k low bits of a number flips each of them.
  lemma {:induction false} BitOfComplement(w: nat, k: nat, b: nat)
    requires w < Power(k) && b < k
    ensures Bit(Power(k) - 1 - w, b) <==> !Bit(w, b)
  {
    if b > 0 {
      assert (Power(k) - 1 - w) / 2 == Power(k - 1) - 1 - w / 2;
      BitOfComplement(w / 2, k - 1, b - 1);
    }
  }

  lemma {:induction false} FullHasBit(k: nat, b: nat)
    requires b < k
    ensures Bit(Power(k) - 1, b)
  {
    assert (Power(k) - 1) / 2 == Power(k - 1) - 1;
    if b > 0 {
      FullHasBit(k - 1, b - 1);
    }
  }

  lemma {:induction false} ClearBit(w: nat, k: nat) returns (b: nat)
    requires w < Power(k) - 1
    ensures b < k && !Bit(w, b)
  {
    if w % 2 == 0 {
      b := 0;
    } else {
      b := ClearBit(w / 2, k - 1);
      b := b + 1;
    }
  }

  // A number below 2^k has all of its k low bits set exactly if it is 2^k - 1.
  lemma FullIffAllBits(w: nat, k: nat)
    requires w < Power(k)
    ensures w == Power(k) - 1 <==> forall b: nat :: b < k ==> Bit(w, b)
  {
    if w == Power(k) - 1 {
      forall b: nat | b < k
        ensures Bit(w, b)
      {
        FullHasBit(k, b);
      }
    } else {
      var b := ClearBit(w, k);
    }
  }

  lemma {:induction false} OrBelow(x: nat, y: nat, k: nat)
    requires x < Power(k) && y < Power(k)
    ensures Or(x, y) < Power(k)
  {
    if x != 0 && y != 0 {
      assert k > 0;
      OrBelow(x / 2, y / 2, k - 1);
    }
  }

  lemma {:induction false} AndBelow(x: nat, y: nat)
    ensures And(x, y) <= x
  {
    if x != 0 && y != 0 {
      AndBelow(x / 2, y / 2);
    }
  }

  lemma {:induction false} PowerGrows(j: nat, k: nat)
    requires j < k
    ensures Power(j) < Power(k)
  {
    if j + 1 < k {
      PowerGrows(j, k - 1);
    }
  }

  lemma WordPower()
    ensures Power(32) == FULL + 1
  {
    assert Power(8) == 256;
    assert Power(16) == 65536 by {
      assert Power(12) == 4096;
    }
    assert Power(24) == 0x100_0000 by {
      assert Power(20) == 0x10_0000;
    }
    assert Power(28) == 0x1000_0000;
  }

  // Setting and clearing one bit of a word change that bit alone.
  function WithBit(w: nat, b: nat): nat {
    Or(w, Power(b))
  }

  function WithoutBit(w: nat, b: nat): nat
    requires Power(b) <= FULL
  {
    And(w, Not(Power(b)))
  }

  lemma BitSet(w: nat, b: nat, c: nat)
    ensures Bit(WithBit(w, b), c) <==> c == b || Bit(w, c)
  {
    BitOfPower(b, c);
    BitOfOr(w, Power(b), c);
  }

  lemma BitCleared(w: nat, b: nat, c: nat)
    requires b < 32 && c < 32
    ensures Power(b) <= FULL
    ensures Bit(WithoutBit(w, b), c) <==> c != b && Bit(w, c)
  {
    WordPower();
    PowerGrows(b, 32);
    BitOfPower(b, c);
    BitOfComplement(Power(b), 32, c);
    BitOfAnd(w, Not(Power(b)), c);
  }

  lemma WordsStay(w: nat, b: nat)
    requires w <= FULL && b < 32
    ensures Power(b) <= FULL && WithBit(w, b) <= FULL && WithoutBit(w, b) <= FULL
  {
    WordPower();
    PowerGrows(b, 32);
    OrBelow(w, Power(b), 32);
    AndBelow(w, Not(Power(b)));
  }
}
