/** Bit operations on words, bit by bit on natural numbers. */
module Bits {
  import opened Common

  function Pow2(k: nat): (r: nat)
    ensures r > 0
  {
    if k == 0 then 1 else 2 * Pow2(k - 1)
  }

  function And(a: nat, b: nat): nat {
    if a == 0 || b == 0 then 0 else 2 * And(a / 2, b / 2) + (if a % 2 == 1 && b % 2 == 1 then 1 else 0)
  }

  function Or(a: nat, b: nat): nat {
    if a == 0 then b else if b == 0 then a else 2 * Or(a / 2, b / 2) + (if a % 2 == 1 || b % 2 == 1 then 1 else 0)
  }

  function Xor(a: nat, b: nat): nat {
    if a == 0 then b else if b == 0 then a else 2 * Xor(a / 2, b / 2) + (if a % 2 == b % 2 then 0 else 1)
  }

  /** Bit k, the lowest being bit 0. */
  function Bit(a: nat, k: nat): nat {
    if k == 0 then a % 2 else Bit(a / 2, k - 1)
  }

  function Not32(a: U32): U32 {
    MAX32 - a
  }

  function Shl32(a: U32, k: nat): U32 {
    Wrap32(a * Pow2(k))
  }

  function TrailingZeros(a: nat): nat
    requires a > 0
  {
    if a % 2 == 1 then 0 else 1 + TrailingZeros(a / 2)
  }

  lemma {:induction false} Pow2At32()
    ensures Pow2(32) == TWO32
  {
    assert Pow2(8) == 256;
    Pow2Sum(8, 8);
    Pow2Sum(16, 16);
  }

  lemma Pow2At64()
    ensures Pow2(64) == TWO64
  {
    Pow2At32();
    Pow2Sum(32, 32);
  }

  lemma {:induction false} Pow2Sum(a: nat, b: nat)
    ensures Pow2(a + b) == Pow2(a) * Pow2(b)
  {
    if a > 0 {
      Pow2Sum(a - 1, b);
      assert Pow2(a + b) == 2 * Pow2(a - 1 + b);
    }
  }

  lemma {:induction false} Pow2Grows(a: nat, b: nat)
    requires a < b
    ensures Pow2(a) < Pow2(b)
  {
    if a + 1 < b {
      Pow2Grows(a, b - 1);
    }
  }

  lemma {:induction false} AndSelf(a: nat)
    ensures And(a, a) == a
  {
    if a > 0 {
      AndSelf(a / 2);
    }
  }

  /** The classical test: a & (a-1) is zero exactly for powers of two. */
  lemma {:induction false} PowerOfTwoTest(a: nat)
    requires a > 0
    ensures And(a, a - 1) == 0 <==> a == Pow2(TrailingZeros(a))
  {
    var h := a / 2;
    if a % 2 == 1 {
      if a > 1 {
        assert (a - 1) / 2 == h && (a - 1) % 2 == 0;
        AndSelf(h);
      }
    } else {
      assert (a - 1) / 2 == h - 1 && (a - 1) % 2 == 1;
      PowerOfTwoTest(h);
      assert And(a, a - 1) == 2 * And(h, h - 1);
    }
  }

  lemma {:induction false} TrailingZerosOfPow2(k: nat)
    ensures TrailingZeros(Pow2(k)) == k
  {
    if k > 0 {
      TrailingZerosOfPow2(k - 1);
      assert Pow2(k) / 2 == Pow2(k - 1);
    }
  }

  lemma {:induction false} AndOnes(w: nat, x: nat)
    requires x < Pow2(w)
    ensures And(x, Pow2(w) - 1) == x
  {
    if w > 0 && x > 0 {
      AndOnes(w - 1, x / 2);
      AndOdd(x, Pow2(w - 1) - 1);
    }
  }

  lemma AndOdd(x: nat, m: nat)
    ensures And(x, 2 * m + 1) == 2 * And(x / 2, m) + x % 2
  {
    assert (2 * m + 1) / 2 == m && (2 * m + 1) % 2 == 1;
  }

  lemma AndEven(x: nat, m: nat)
    ensures And(x, 2 * m) == 2 * And(x / 2, m)
  {
    Doubled(m);
  }

  lemma Doubled(m: nat)
    ensures (2 * m) / 2 == m && (2 * m) % 2 == 0
  {
  }

  /** Masking with ones above bit k clears the low k bits. */
  lemma {:induction false} AndMask(w: nat, k: nat, x: nat)
    requires k <= w && x < Pow2(w)
    ensures Pow2(k) <= Pow2(w)
    ensures And(x, Pow2(w) - Pow2(k)) == x - x % Pow2(k)
    decreases k
  {
    if k == 0 {
      AndOnes(w, x);
    } else {
      var h := x / 2;
      AndMask(w - 1, k - 1, h);
      var p, m := Pow2(k - 1), Pow2(w - 1) - Pow2(k - 1);
      assert Pow2(w) - Pow2(k) == 2 * m;
      AndEven(x, m);
      HalfMod(x, p);
      hide And, Pow2;
    }
  }

  /** Dividing by two first does not disturb the remainder's upper bits. */
  lemma HalfMod(x: nat, p: nat)
    requires p > 0
    ensures x % (2 * p) == 2 * ((x / 2) % p) + x % 2
  {
    var h := x / 2;
    var q := h / p;
    assert h == p * q + h % p;
    assert x == (2 * p) * q + (2 * (h % p) + x % 2);
    ModUnique(x, 2 * p, q, 2 * (h % p) + x % 2);
  }

  lemma MulMonotone(d: nat, a: int, b: int)
    requires a <= b
    ensures d * a <= d * b
  {
  }

  lemma NonzeroMultiple(d: nat, t: int)
    requires t != 0
    ensures d * t >= d || d * t <= 0 - d
  {
    if t > 0 {
      MulMonotone(d, 1, t);
    } else {
      MulMonotone(d, t, -1);
    }
  }

  lemma ModUnique(x: nat, d: nat, q: nat, r: nat)
    requires d > 0 && x == d * q + r && r < d
    ensures x / d == q && x % d == r
  {
    assert x == d * (x / d) + x % d;
    var t: int := x / d - q;
    assert d * t == d * (x / d) - d * q;
    if t != 0 {
      NonzeroMultiple(d, t);
      assert false;
    }
  }

  /** Or of numbers without common bits is their sum. */
  lemma {:induction false} OrDisjoint(k: nat, x: nat, y: nat)
    requires x % Pow2(k) == 0 && y < Pow2(k)
    ensures Or(x, y) == x + y
  {
    if k > 0 && x > 0 && y > 0 {
      HalfMod(x, Pow2(k - 1));
      OrDisjoint(k - 1, x / 2, y / 2);
    }
  }

  lemma {:induction false} XorFits(k: nat, a: nat, b: nat)
    requires a < Pow2(k) && b < Pow2(k)
    ensures Xor(a, b) < Pow2(k)
  {
    if a > 0 && b > 0 {
      XorFits(k - 1, a / 2, b / 2);
    }
  }

  /** Exclusive or adds bit by bit, without carry. */
  lemma {:induction false} BitOfXor(a: nat, b: nat, k: nat)
    ensures Bit(Xor(a, b), k) == (Bit(a, k) + Bit(b, k)) % 2
  {
    BitOfZero(k);
    BitRange(a, k);
    BitRange(b, k);
    if a != 0 && b != 0 {
      XorHalves(a, b);
      hide Xor;
      if k > 0 {
        BitOfXor(a / 2, b / 2, k - 1);
      }
    }
  }

  lemma {:induction false} BitOfZero(k: nat)
    ensures Bit(0, k) == 0
  {
    if k > 0 {
      BitOfZero(k - 1);
    }
  }

  lemma {:induction false} BitRange(a: nat, k: nat)
    ensures Bit(a, k) < 2
  {
    if k > 0 {
      BitRange(a / 2, k - 1);
    }
  }

  lemma {:induction false} XorSelf(a: nat)
    ensures Xor(a, a) == 0
  {
    if a > 0 {
      XorSelf(a / 2);
    }
  }

  lemma {:induction false} XorCommutes(a: nat, b: nat)
    ensures Xor(a, b) == Xor(b, a)
  {
    if a > 0 && b > 0 {
      XorCommutes(a / 2, b / 2);
    }
  }

  lemma {:induction false} XorAssociates(a: nat, b: nat, c: nat)
    ensures Xor(Xor(a, b), c) == Xor(a, Xor(b, c))
    decreases a + b + c
  {
    if a > 0 && b > 0 && c > 0 {
      XorAssociates(a / 2, b / 2, c / 2);
      XorStep(a, b, c);
    }
  }

  lemma XorStep(a: nat, b: nat, c: nat)
    requires Xor(Xor(a / 2, b / 2), c / 2) == Xor(a / 2, Xor(b / 2, c / 2))
    ensures Xor(Xor(a, b), c) == Xor(a, Xor(b, c))
  {
    hide Xor;
    XorHalves(a, b);
    XorHalves(b, c);
    XorHalves(Xor(a, b), c);
    XorHalves(a, Xor(b, c));
  }

  /** Xor on the upper bits and on the last bit. */
  lemma XorHalves(a: nat, b: nat)
    ensures Xor(a, b) == 2 * Xor(a / 2, b / 2) + (if a % 2 == b % 2 then 0 else 1)
    ensures Xor(a, b) / 2 == Xor(a / 2, b / 2) && Xor(a, b) % 2 == (if a % 2 == b % 2 then 0 else 1)
  {
  }
}
