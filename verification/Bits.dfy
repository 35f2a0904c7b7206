/** Machine words as natural numbers, with the bit operators the kernel uses.

    The code mixes address arithmetic with masks on the same `u64`, so words are
    naturals below 2^64 and `&`, `|`, `!` are defined bit by bit. `Split` lemmas
    say how the operators act on a word cut in two at a fixed bit, which is what
    turns the descriptor masks into plain arithmetic. */
module Bits {

  const U64_LIMIT: nat := 0x1_0000_0000_0000_0000
  const U64_MAX: nat := U64_LIMIT - 1

  type u64 = x: nat | x < U64_LIMIT

  function Pow2(k: nat): (p: nat)
    ensures p >= 1
  {
    if k == 0 then 1 else 2 * Pow2(k - 1)
  }

  predicate Bit(x: nat, k: nat)
  {
    if k == 0 then x % 2 == 1 else Bit(x / 2, k - 1)
  }

  function And(a: nat, b: nat): nat
    decreases a
  {
    if a == 0 then 0 else 2 * And(a / 2, b / 2) + (a % 2) * (b % 2)
  }

  function Or(a: nat, b: nat): nat
    decreases a + b
  {
    if a == 0 && b == 0 then 0
    else 2 * Or(a / 2, b / 2) + (if a % 2 == 1 || b % 2 == 1 then 1 else 0)
  }

  /** Bitwise complement of a 64-bit word. */
  function Not(a: u64): u64
  {
    U64_MAX - a
  }

  /** The intrinsic `trailing_ones`: how many low bits are set before the first clear one. */
  function TrailingOnes(w: nat): nat
  {
    if w % 2 == 0 then 0 else 1 + TrailingOnes(w / 2)
  }

  // ----- one bit of each operator -----

  lemma {:induction false} BitZero(k: nat)
    ensures !Bit(0, k)
  {
    if k > 0 { BitZero(k - 1); }
  }

  lemma AndStep(a: nat, b: nat)
    ensures And(a, b) / 2 == And(a / 2, b / 2)
    ensures And(a, b) % 2 == 1 <==> a % 2 == 1 && b % 2 == 1
  {
  }

  lemma OrStep(a: nat, b: nat)
    ensures Or(a, b) / 2 == Or(a / 2, b / 2)
    ensures Or(a, b) % 2 == 1 <==> a % 2 == 1 || b % 2 == 1
  {
  }

  lemma {:induction false} BitAnd(a: nat, b: nat, k: nat)
    ensures Bit(And(a, b), k) <==> Bit(a, k) && Bit(b, k)
  {
    hide And;
    AndStep(a, b);
    if k > 0 { BitAnd(a / 2, b / 2, k - 1); }
  }

  lemma {:induction false} BitOr(a: nat, b: nat, k: nat)
    ensures Bit(Or(a, b), k) <==> Bit(a, k) || Bit(b, k)
  {
    hide Or;
    OrStep(a, b);
    if k > 0 { BitOr(a / 2, b / 2, k - 1); }
  }

  lemma {:induction false} BitPow2(k: nat, j: nat)
    ensures Bit(Pow2(k), j) <==> j == k
  {
    if k == 0 {
      if j > 0 { BitZero(j - 1); }
    } else if j > 0 {
      assert Pow2(k) / 2 == Pow2(k - 1);
      BitPow2(k - 1, j - 1);
    }
  }

  /** Complementing within n bits flips each of them. */
  lemma {:induction false} BitComplement(n: nat, a: nat, k: nat)
    requires k < n && a < Pow2(n)
    ensures Bit(Pow2(n) - 1 - a, k) <==> !Bit(a, k)
  {
    var c := Pow2(n) - 1 - a;
    assert c + a == 2 * Pow2(n - 1) - 1;
    assert c / 2 == Pow2(n - 1) - 1 - a / 2;
    if k > 0 { BitComplement(n - 1, a / 2, k - 1); }
  }

  lemma {:induction false} BitLowMask(n: nat, k: nat)
    ensures Bit(Pow2(n) - 1, k) <==> k < n
  {
    if n == 0 {
      BitZero(k);
    } else if k > 0 {
      assert (Pow2(n) - 1) / 2 == Pow2(n - 1) - 1;
      BitLowMask(n - 1, k - 1);
    }
  }

  lemma {:induction false} Pow2Add(a: nat, b: nat)
    ensures Pow2(a + b) == Pow2(a) * Pow2(b)
  {
    if a > 0 {
      Pow2Add(a - 1, b);
      assert Pow2(a) * Pow2(b) == 2 * (Pow2(a - 1) * Pow2(b));
    }
  }

  lemma Pow2Plus8(k: nat)
    ensures Pow2(k + 8) == 256 * Pow2(k)
  {
    assert Pow2(k + 4) == 2 * Pow2(k + 3) == 4 * Pow2(k + 2) == 8 * Pow2(k + 1);
    assert Pow2(k + 8) == 2 * Pow2(k + 7) == 4 * Pow2(k + 6) == 8 * Pow2(k + 5);
  }

  lemma Pow2Of12()
    ensures Pow2(12) == 0x1000
  {
    assert Pow2(4) == 16;
    Pow2Plus8(4);
  }

  lemma Pow2Of36()
    ensures Pow2(36) == 0x10_0000_0000
  {
    Pow2Of12();
    Pow2Plus8(12); Pow2Plus8(20); Pow2Plus8(28);
  }

  lemma Pow2Of52()
    ensures Pow2(52) == 0x10_0000_0000_0000
  {
    Pow2Of36();
    Pow2Plus8(36); Pow2Plus8(44);
  }

  lemma Pow2Of64()
    ensures Pow2(64) == U64_LIMIT
  {
    Pow2Of52();
    Pow2Plus8(48); Pow2Plus8(56);
    Pow2Plus8(52);
    assert Pow2(64) == 2 * Pow2(63) == 4 * Pow2(62) == 8 * Pow2(61);
  }

  lemma {:induction false} Pow2Monotone(a: nat, b: nat)
    requires a <= b
    ensures Pow2(a) <= Pow2(b)
  {
    if a < b { Pow2Monotone(a, b - 1); }
  }

  // ----- size of the results -----

  lemma {:induction false} OrBound(a: nat, b: nat, n: nat)
    requires a < Pow2(n) && b < Pow2(n)
    ensures Or(a, b) < Pow2(n)
  {
    if n > 0 && (a > 0 || b > 0) { OrBound(a / 2, b / 2, n - 1); }
  }

  lemma {:induction false} AndBound(a: nat, b: nat)
    ensures And(a, b) <= a && And(a, b) <= b
  {
    if a > 0 {
      AndBound(a / 2, b / 2);
      assert (a % 2) * (b % 2) <= a % 2 && (a % 2) * (b % 2) <= b % 2;
    }
  }

  // ----- single-bit updates of a 64-bit word -----

  /** `w |= 1 << k` sets bit k and no other. */
  lemma SetBit(w: u64, k: nat)
    requires k < 64
    ensures Pow2(k) < U64_LIMIT && Or(w, Pow2(k)) < U64_LIMIT
    ensures forall j: nat :: Bit(Or(w, Pow2(k)), j) <==> j == k || Bit(w, j)
  {
    Pow2Of64();
    Pow2Monotone(k + 1, 64);
    OrBound(w, Pow2(k), 64);
    forall j: nat
      ensures Bit(Or(w, Pow2(k)), j) <==> j == k || Bit(w, j)
    {
      BitOr(w, Pow2(k), j);
      BitPow2(k, j);
    }
  }

  /** `w &= !(1 << k)` clears bit k and no other. */
  lemma ClearBit(w: u64, k: nat)
    requires k < 64
    ensures Pow2(k) < U64_LIMIT && And(w, Not(Pow2(k))) < U64_LIMIT
    ensures forall j: nat | j < 64 :: Bit(And(w, Not(Pow2(k))), j) <==> j != k && Bit(w, j)
  {
    Pow2Of64();
    Pow2Monotone(k + 1, 64);
    AndBound(w, Not(Pow2(k)));
    forall j: nat | j < 64
      ensures Bit(And(w, Not(Pow2(k))), j) <==> j != k && Bit(w, j)
    {
      BitAnd(w, Not(Pow2(k)), j);
      BitComplement(64, Pow2(k), j);
      BitPow2(k, j);
    }
  }

  /** `trailing_ones` finds the lowest clear bit, and only the all-ones word has none below 64. */
  lemma {:induction false} TrailingOnesIsFirstClear(w: nat, n: nat)
    requires w < Pow2(n)
    ensures TrailingOnes(w) <= n
    ensures forall j: nat | j < TrailingOnes(w) :: Bit(w, j)
    ensures !Bit(w, TrailingOnes(w))
    ensures TrailingOnes(w) == n <==> w == Pow2(n) - 1
  {
    if n > 0 && w % 2 == 1 {
      TrailingOnesIsFirstClear(w / 2, n - 1);
      forall j: nat | j < TrailingOnes(w)
        ensures Bit(w, j)
      {
        if j > 0 { assert Bit(w / 2, j - 1); }
      }
    }
  }

  // ----- words cut in two -----

  /** `x << k` without a width limit. */
  function Shl(x: nat, k: nat): nat
  {
    if k == 0 then x else 2 * Shl(x, k - 1)
  }

  /** `|` acts on the two parts of a word separately. */
  lemma {:induction false} OrSplit(k: nat, hi: nat, lo: nat, hi': nat, lo': nat)
    requires lo < Pow2(k) && lo' < Pow2(k)
    ensures Or(Shl(hi, k) + lo, Shl(hi', k) + lo') == Shl(Or(hi, hi'), k) + Or(lo, lo')
  {
    if k > 0 {
      var a, b := Shl(hi, k) + lo, Shl(hi', k) + lo';
      assert a / 2 == Shl(hi, k - 1) + lo / 2 && b / 2 == Shl(hi', k - 1) + lo' / 2;
      OrSplit(k - 1, hi, lo / 2, hi', lo' / 2);
    }
  }

  /** `&` acts on the two parts of a word separately. */
  lemma {:induction false} AndSplit(k: nat, hi: nat, lo: nat, hi': nat, lo': nat)
    requires lo < Pow2(k) && lo' < Pow2(k)
    ensures And(Shl(hi, k) + lo, Shl(hi', k) + lo') == Shl(And(hi, hi'), k) + And(lo, lo')
  {
    if k > 0 {
      var a, b := Shl(hi, k) + lo, Shl(hi', k) + lo';
      assert a / 2 == Shl(hi, k - 1) + lo / 2 && b / 2 == Shl(hi', k - 1) + lo' / 2;
      AndSplit(k - 1, hi, lo / 2, hi', lo' / 2);
    }
  }

  /** Masking with `2^k - 1` changes nothing below 2^k. */
  lemma {:induction false} AndLowMask(x: nat, k: nat)
    requires x < Pow2(k)
    ensures And(x, Pow2(k) - 1) == x && And(Pow2(k) - 1, x) == x
  {
    if k > 0 { AndLowMask(x / 2, k - 1); }
  }

  lemma {:induction false} OrZero(x: nat)
    ensures Or(x, 0) == x && Or(0, x) == x && And(x, 0) == 0 && And(0, x) == 0
  {
    if x > 0 { OrZero(x / 2); }
  }

  lemma AndKeepsLow(k: nat, hi: nat, lo: nat)
    requires lo < Pow2(k)
    ensures And(Shl(hi, k) + lo, Pow2(k) - 1) == lo
  {
    AndSplit(k, hi, lo, 0, Pow2(k) - 1);
    ShlIsTimes(0, k);
    AndLowMask(lo, k);
    OrZero(hi);
  }

  lemma AndLowField(k: nat, hi: nat, lo: nat, hi': nat)
    requires lo < Pow2(k)
    ensures And(Shl(hi, k) + lo, Shl(hi', k) + (Pow2(k) - 1)) == Shl(And(hi, hi'), k) + lo
  {
    AndSplit(k, hi, lo, hi', Pow2(k) - 1);
    AndLowMask(lo, k);
  }

  lemma OrKeepsLow(k: nat, hi: nat, lo: nat, hi': nat)
    requires lo < Pow2(k)
    ensures Or(Shl(hi, k) + lo, Shl(hi', k)) == Shl(Or(hi, hi'), k) + lo
  {
    OrSplit(k, hi, lo, hi', 0);
    OrZero(lo);
  }

  lemma {:induction false} ShlIsTimes(x: nat, k: nat)
    ensures Shl(x, k) == Pow2(k) * x
  {
    if k > 0 {
      ShlIsTimes(x, k - 1);
      assert Pow2(k) * x == 2 * (Pow2(k - 1) * x);
    }
  }
}
