// Bytes and the unsigned bit operations the codec uses, on plain integers.
module Bits {
  type byte = i: int | 0 <= i < 256

  function Pow2(n: nat): (r: nat)
    ensures r > 0
  {
    if n == 0 then 1 else 2 * Pow2(n - 1)
  }

  lemma {:induction false} Pow2Sum(a: nat, b: nat)
    ensures Pow2(a + b) == Pow2(a) * Pow2(b)
  {
    if a > 0 {
      Pow2Sum(a - 1, b);
      assert Pow2(a + b) == 2 * Pow2(a - 1 + b);
    }
  }

  /** Bitwise "or" of two unsigned values. */
  function BitOr(a: nat, b: nat): nat
  {
    if a == 0 then b
    else if b == 0 then a
    else (if a % 2 == 1 || b % 2 == 1 then 1 else 0) + 2 * BitOr(a / 2, b / 2)
  }

  /** Bit k of w. */
  predicate Bit(w: nat, k: nat)
  {
    if k == 0 then w % 2 == 1 else Bit(w / 2, k - 1)
  }

  /** "Or"-ing a value into the bits above another one is addition. */
  lemma {:induction false} BitOrDisjoint(a: nat, m: nat, k: nat)
    requires a < Pow2(k)
    ensures BitOr(a, m * Pow2(k)) == a + m * Pow2(k)
  {
    if a != 0 && m != 0 {
      var b := m * Pow2(k - 1);
      assert m * Pow2(k) == 2 * b;
      BitOrDisjoint(a / 2, m, k - 1);
    }
  }

  lemma {:induction false} BitOfZero(k: nat)
    ensures !Bit(0, k)
  {
    if k > 0 {
      BitOfZero(k - 1);
    }
  }

  lemma {:induction false} BitOfOr(a: nat, b: nat, k: nat)
    ensures Bit(BitOr(a, b), k) <==> Bit(a, k) || Bit(b, k)
  {
    BitOfZero(k);
    if a != 0 && b != 0 && k > 0 {
      BitOfOr(a / 2, b / 2, k - 1);
    }
  }

  lemma {:induction false} BitOfPow2(j: nat, k: nat)
    ensures Bit(Pow2(j), k) <==> j == k
  {
    if j == 0 {
      if k > 0 {
        BitOfZero(k - 1);
      }
    } else {
      assert Pow2(j) / 2 == Pow2(j - 1);
      if k > 0 {
        BitOfPow2(j - 1, k - 1);
      }
    }
  }

  lemma {:induction false} BitOrWidth(a: nat, b: nat, n: nat)
    requires a < Pow2(n) && b < Pow2(n)
    ensures BitOr(a, b) < Pow2(n)
  {
    if a != 0 && b != 0 {
      BitOrWidth(a / 2, b / 2, n - 1);
    }
  }

  lemma {:induction false} BitOfMask(n: nat, k: nat)
    ensures Bit(Pow2(n) - 1, k) <==> k < n
  {
    if n == 0 {
      BitOfZero(k);
    } else if k > 0 {
      assert (Pow2(n) - 1) / 2 == Pow2(n - 1) - 1;
      BitOfMask(n - 1, k - 1);
    }
  }

  lemma {:induction false} SameBitsSameWord(v: nat, w: nat, width: nat)
    requires v < Pow2(width) && w < Pow2(width)
    requires forall k: nat | k < width :: Bit(v, k) == Bit(w, k)
    ensures v == w
  {
    if width > 0 {
      assert Bit(v, 0) == Bit(w, 0);
      forall k: nat | k < width - 1 ensures Bit(v / 2, k) == Bit(w / 2, k) {
        assert Bit(v, k + 1) == Bit(w, k + 1);
      }
      SameBitsSameWord(v / 2, w / 2, width - 1);
    }
  }

  lemma {:induction false} Pow2Monotone(a: nat, b: nat)
    requires a <= b
    ensures Pow2(a) <= Pow2(b)
  {
    if a < b {
      Pow2Monotone(a, b - 1);
    }
  }

  /** w >> n */
  function ShiftRight(w: nat, n: nat): nat
  {
    if n == 0 then w else ShiftRight(w / 2, n - 1)
  }

  /** A full word shifted right is a mask. */
  lemma {:induction false} ShiftedMask(m: nat, n: nat)
    requires n <= m
    ensures ShiftRight(Pow2(m) - 1, n) == Pow2(m - n) - 1
  {
    if n > 0 {
      assert (Pow2(m) - 1) / 2 == Pow2(m - 1) - 1;
      ShiftedMask(m - 1, n - 1);
    }
  }

  /** Among the bits of a word of the given width, exactly the n lowest are set. */
  ghost predicate OnlyLowBits(w: nat, n: nat, width: nat)
  {
    forall k: nat | k < width :: Bit(w, k) == (k < n)
  }

  lemma LowMask(w: nat, n: nat, width: nat)
    requires n <= width && w < Pow2(width)
    ensures w == Pow2(n) - 1 <==> OnlyLowBits(w, n, width)
  {
    var mask: nat := Pow2(n) - 1;
    if w == mask {
      forall k: nat | k < width ensures Bit(w, k) == (k < n) { BitOfMask(n, k); }
    } else if OnlyLowBits(w, n, width) {
      forall k: nat | k < width ensures Bit(w, k) == Bit(mask, k) { BitOfMask(n, k); }
      Pow2Monotone(n, width);
      SameBitsSameWord(w, mask, width);
      assert false;
    }
  }
}
