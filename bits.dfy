/**
 * Non-negative integers used as rows of bits, the way the font model uses
 * Python ints: `x << k`, `x >> k`, `x | y` and "is bit i of x set".
 * Bit 0 is the least significant bit.
 */
module Bits {

  function Pow2(n: nat): (r: nat)
    ensures r >= 1
  {
    if n == 0 then 1 else 2 * Pow2(n - 1)
  }

  /** `x << k` */
  function Shl(x: nat, k: nat): nat
  {
    if k == 0 then x else 2 * Shl(x, k - 1)
  }

  /** `x >> k` */
  function Shr(x: nat, k: nat): nat
  {
    if k == 0 then x else Shr(x / 2, k - 1)
  }

  /** `(x >> i) & 1 == 1` */
  predicate Bit(x: nat, i: nat)
  {
    if i == 0 then x % 2 == 1 else Bit(x / 2, i - 1)
  }

  /** `x | y` */
  function Or(x: nat, y: nat): nat
    decreases x + y
  {
    if x == 0 then y
    else if y == 0 then x
    else 2 * Or(x / 2, y / 2) + (if x % 2 == 1 || y % 2 == 1 then 1 else 0)
  }

  lemma {:induction false} BitZero(i: nat)
    ensures !Bit(0, i)
  {
    if i > 0 {
      BitZero(i - 1);
    }
  }

  /** A bit of `x | y` is set exactly when it is set in `x` or in `y`. */
  lemma {:induction false} BitOr(x: nat, y: nat, i: nat)
    ensures Bit(Or(x, y), i) <==> Bit(x, i) || Bit(y, i)
    decreases x + y
  {
    if x == 0 {
      BitZero(i);
    } else if y == 0 {
      BitZero(i);
    } else if i > 0 {
      var q := Or(x / 2, y / 2);
      var b := if x % 2 == 1 || y % 2 == 1 then 1 else 0;
      assert Or(x, y) == 2 * q + b;
      assert (2 * q + b) / 2 == q;
      BitOr(x / 2, y / 2, i - 1);
    }
  }

  /** `x | y` fits in `w` bits when both operands do. */
  lemma {:induction false} OrBound(x: nat, y: nat, w: nat)
    requires x < Pow2(w) && y < Pow2(w)
    ensures Or(x, y) < Pow2(w)
    decreases w
  {
    if x != 0 && y != 0 {
      assert w > 0;
      OrBound(x / 2, y / 2, w - 1);
    }
  }

  /** `x | x == x` */
  lemma {:induction false} OrSelf(x: nat)
    ensures Or(x, x) == x
    decreases x
  {
    if x != 0 {
      OrSelf(x / 2);
    }
  }

  /** Bit `i` of `x << k` is bit `i - k` of `x`, and the low `k` bits are clear. */
  lemma {:induction false} BitShl(x: nat, k: nat, i: nat)
    ensures Bit(Shl(x, k), i) <==> k <= i && Bit(x, i - k)
    decreases k
  {
    if k > 0 {
      var s := Shl(x, k - 1);
      assert Shl(x, k) == 2 * s;
      if i > 0 {
        assert (2 * s) / 2 == s;
        BitShl(x, k - 1, i - 1);
      }
    }
  }

  /** Shifting a `w`-bit value left by `k` gives a `w + k`-bit value. */
  lemma {:induction false} ShlBound(x: nat, w: nat, k: nat)
    requires x < Pow2(w)
    ensures Shl(x, k) < Pow2(w + k)
    decreases k
  {
    if k > 0 {
      ShlBound(x, w, k - 1);
      assert Pow2(w + k) == 2 * Pow2(w + k - 1);
    }
  }

  /** Shifting a `w + k`-bit value right by `k` gives a `w`-bit value. */
  lemma {:induction false} ShrBound(x: nat, w: nat, k: nat)
    requires x < Pow2(w + k)
    ensures Shr(x, k) < Pow2(w)
    decreases k
  {
    if k > 0 {
      assert Pow2(w + k) == 2 * Pow2(w + k - 1);
      ShrBound(x / 2, w, k - 1);
    }
  }

  /** A `w`-bit value has no bit set at position `w` or above. */
  lemma {:induction false} BitAboveWidth(x: nat, w: nat, i: nat)
    requires x < Pow2(w) && w <= i
    ensures !Bit(x, i)
    decreases i
  {
    if w == 0 {
      BitZero(i);
    } else {
      BitAboveWidth(x / 2, w - 1, i - 1);
    }
  }

  lemma {:induction false} Pow2Add(a: nat, b: nat)
    ensures Pow2(a + b) == Pow2(a) * Pow2(b)
    decreases a
  {
    if a > 0 {
      Pow2Add(a - 1, b);
    }
  }

  lemma {:induction false} Pow2Monotone(a: nat, b: nat)
    requires a <= b
    ensures Pow2(a) <= Pow2(b)
    decreases b
  {
    if a < b {
      Pow2Monotone(a, b - 1);
    }
  }
}
