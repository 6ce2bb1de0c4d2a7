/**
  32-bit words as numbers: wrapping multiplication, exclusive or, shifts and rotations, each with what undoes it.
 */
module Words {
  import opened Common

  type Word = n: nat | n < 0x1_0000_0000

  // ----- multiplication -----

  /** Wrapping product. */
  function Times(x: Word, c: nat): Word
  {
    x * c % 0x1_0000_0000
  }

  lemma ModOf(v: int, q: int, r: nat)
    requires v == 0x1_0000_0000 * q + r && r < 0x1_0000_0000
    ensures v % 0x1_0000_0000 == r
  {
    assert 0x1_0000_0000 * (v / 0x1_0000_0000 - q) == r - v % 0x1_0000_0000;
  }

  lemma Regroup(x: int, c: int, d: int)
    ensures (x * c) * d == x * (c * d)
  {
  }

  lemma Spread(m: int, q: int, r: int, d: int)
    ensures (m * q + r) * d == m * (q * d) + r * d
  {
    Regroup(m, q, d);
  }

  lemma OneMore(x: int, m: int, k: int)
    ensures x * (1 + m * k) == x + m * (x * k)
  {
    Regroup(m, k, x);
    assert x * (m * k) == m * (x * k);
  }

  /** Multiplying by `c` and by its inverse modulo 2 to the 32 gives the word back. */
  lemma TimesUndone(x: Word, c: nat, d: nat, k: nat)
    requires c * d == 1 + 0x1_0000_0000 * k
    ensures Times(Times(x, c), d) == x
  {
    var q, r := x * c / 0x1_0000_0000, x * c % 0x1_0000_0000;
    assert x * c == 0x1_0000_0000 * q + r;
    assert x * c * d == 0x1_0000_0000 * (q * d) + r * d by {
      Spread(0x1_0000_0000, q, r, d);
    }
    Regroup(x, c, d);
    OneMore(x, 0x1_0000_0000, k);
    assert r * d == 0x1_0000_0000 * (x * k - q * d) + x;
    ModOf(r * d, x * k - q * d, x);
  }

  // ----- exclusive or -----

  /** Bit by bit. */
  function Xor(a: nat, b: nat): nat
    decreases a + b
  {
    if a == 0 && b == 0 then 0 else (a + b) % 2 + 2 * Xor(a / 2, b / 2)
  }

  lemma {:induction false} XorTwice(a: nat, b: nat)
    ensures Xor(Xor(a, b), b) == a
    decreases a + b
  {
    if a != 0 || b != 0 {
      XorTwice(a / 2, b / 2);
      TwiceStep(a, b);
    }
  }

  lemma TwiceStep(a: nat, b: nat)
    requires Xor(Xor(a / 2, b / 2), b / 2) == a / 2
    ensures Xor(Xor(a, b), b) == a
  {
    hide Xor;
    XorHalf(a, b);
    XorHalf(Xor(a, b), b);
    SameParity(Xor(a, b), a + b, b);
  }

  lemma XorHalf(a: nat, b: nat)
    ensures Xor(a, b) / 2 == Xor(a / 2, b / 2)
    ensures Xor(a, b) % 2 == (a + b) % 2
    ensures Xor(a, b) == (a + b) % 2 + 2 * Xor(a / 2, b / 2)
  {
  }

  lemma {:induction false} XorSymmetric(a: nat, b: nat)
    ensures Xor(a, b) == Xor(b, a)
    decreases a + b
  {
    if a != 0 || b != 0 {
      XorSymmetric(a / 2, b / 2);
    }
  }

  lemma {:induction false} XorZero(a: nat)
    ensures Xor(a, 0) == a
    decreases a
  {
    if a != 0 {
      XorZero(a / 2);
    }
  }

  lemma ParityAssociative(a: nat, b: nat, c: nat)
    ensures ((a + b) % 2 + c) % 2 == (a + (b + c) % 2) % 2
  {
  }

  lemma {:induction false} XorAssociative(a: nat, b: nat, c: nat)
    ensures Xor(Xor(a, b), c) == Xor(a, Xor(b, c))
    decreases a + b + c
  {
    if a == 0 && b == 0 && c == 0 {
    } else {
      XorAssociative(a / 2, b / 2, c / 2);
      AssociativeStep(a, b, c);
    }
  }

  lemma AssociativeStep(a: nat, b: nat, c: nat)
    requires Xor(Xor(a / 2, b / 2), c / 2) == Xor(a / 2, Xor(b / 2, c / 2))
    ensures Xor(Xor(a, b), c) == Xor(a, Xor(b, c))
  {
    hide Xor;
    var x, y := Xor(a, b), Xor(b, c);
    assert x / 2 == Xor(a / 2, b / 2) && y / 2 == Xor(b / 2, c / 2) by {
      XorHalf(a, b);
      XorHalf(b, c);
    }
    XorParity(a, b, c);
    assert Xor(x, c) == (x + c) % 2 + 2 * Xor(x / 2, c / 2) by {
      XorHalf(x, c);
    }
    assert Xor(a, y) == (a + y) % 2 + 2 * Xor(a / 2, y / 2) by {
      XorHalf(a, y);
    }
  }

  lemma XorParity(a: nat, b: nat, c: nat)
    ensures (Xor(a, b) + c) % 2 == (a + Xor(b, c)) % 2
  {
    hide Xor;
    XorHalf(a, b);
    XorHalf(b, c);
    SameParity(Xor(a, b), a + b, c);
    SameParity(Xor(b, c), b + c, a);
    ParityAssociative(a, b, c);
  }

  lemma SameParity(x: nat, y: nat, z: nat)
    requires x % 2 == y % 2
    ensures (x + z) % 2 == (y % 2 + z) % 2
    ensures (z + x) % 2 == (z + y % 2) % 2
  {
  }

  /** Only the bits that were there. */
  lemma {:induction false} XorBounded(a: nat, b: nat, k: nat)
    requires a < Pow2(k) && b < Pow2(k)
    ensures Xor(a, b) < Pow2(k)
  {
    if k > 0 {
      XorBounded(a / 2, b / 2, k - 1);
      XorHalf(a, b);
    }
  }

  /** Words without common bits add up. */
  lemma {:induction false} XorDisjoint(hi: nat, lo: nat, k: nat)
    requires lo < Pow2(k)
    ensures Xor(Pow2(k) * hi, lo) == Pow2(k) * hi + lo
  {
    if k == 0 {
      XorZero(hi);
    } else {
      var h := Pow2(k - 1) * hi;
      Regroup(2, Pow2(k - 1), hi);
      assert Pow2(k) * hi == 2 * h;
      XorDisjoint(hi, lo / 2, k - 1);
      XorEven(h, lo);
    }
  }

  lemma XorEven(h: nat, lo: nat)
    requires Xor(h, lo / 2) == h + lo / 2
    ensures Xor(2 * h, lo) == 2 * h + lo
  {
    hide Xor;
    XorHalf(2 * h, lo);
    assert 2 * h / 2 == h;
    assert (2 * h + lo) % 2 == lo % 2;
  }

  /** Exclusive or of words is a word. */
  function XorWord(a: Word, b: Word): Word
  {
    Pow2Of32();
    XorBounded(a, b, 32);
    Xor(a, b)
  }

  lemma Pow2Of32()
    ensures Pow2(8) == 0x100 && Pow2(16) == 0x1_0000 && Pow2(32) == 0x1_0000_0000
  {
    Pow2Sum(4, 4);
    Pow2Sum(8, 8);
    Pow2Sum(16, 16);
  }

  lemma {:induction false} Pow2Sum(a: nat, b: nat)
    ensures Pow2(a + b) == Pow2(a) * Pow2(b)
  {
    if a > 0 {
      Pow2Sum(a - 1, b);
      Regroup(2, Pow2(a - 1), Pow2(b));
    }
  }

  lemma XorCancel(a: Word, b: Word, c: Word)
    ensures XorWord(a, b) == XorWord(a, c) <==> b == c
    ensures XorWord(b, a) == XorWord(c, a) <==> b == c
  {
    XorTwice(b, a);
    XorTwice(c, a);
    XorSymmetric(a, b);
    XorSymmetric(a, c);
  }

  // ----- shifts -----

  /** `x >> k`. */
  function Shr(x: nat, k: nat): (s: nat)
    ensures s <= x
  {
    if k == 0 then x else Shr(x / 2, k - 1)
  }

  lemma {:induction false} ShrXor(a: nat, b: nat, k: nat)
    ensures Shr(Xor(a, b), k) == Xor(Shr(a, k), Shr(b, k))
  {
    if k > 0 {
      XorHalf(a, b);
      ShrXor(a / 2, b / 2, k - 1);
    }
  }

  lemma {:induction false} ShrTwice(x: nat, j: nat, k: nat)
    ensures Shr(Shr(x, j), k) == Shr(x, j + k)
  {
    if j > 0 {
      ShrTwice(x / 2, j - 1, k);
    }
  }

  lemma {:induction false} ShrOut(x: nat, k: nat)
    requires x < Pow2(k)
    ensures Shr(x, k) == 0
  {
    if k > 0 {
      ShrOut(x / 2, k - 1);
    }
  }

  /** `x ^ (x >> k)`. */
  function Fold(x: Word, k: nat): Word
  {
    XorWord(x, Shr(x, k))
  }

  /** Folding by half a word twice does nothing. */
  lemma Fold16Undone(x: Word)
    ensures Fold(Fold(x, 16), 16) == x
  {
    var s := Shr(x, 16);
    ShrXor(x, s, 16);
    ShrTwice(x, 16, 16);
    Pow2Of32();
    ShrOut(x, 32);
    XorZero(s);
    XorTwice(x, s);
  }

  /** Undoes a fold by 13. */
  function Unfold13(x: Word): Word
  {
    XorWord(XorWord(x, Shr(x, 13)), Shr(x, 26))
  }

  lemma Fold13Undone(x: Word)
    ensures Unfold13(Fold(x, 13)) == x
    ensures Fold(Unfold13(x), 13) == x
  {
    var a, b := Shr(x, 13), Shr(x, 26);
    ShrTwice(x, 13, 13);
    ShrTwice(x, 26, 13);
    ShrTwice(x, 13, 26);
    Pow2Of32();
    Pow2Sum(32, 7);
    ShrOut(x, 39);
    XorZero(a);
    XorZero(b);
    // folding, then unfolding
    ShrXor(x, a, 13);
    ShrXor(x, a, 26);
    XorAssociative(x, a, Xor(a, b));
    XorSymmetric(a, Xor(a, b));
    XorSymmetric(a, b);
    XorTwice(b, a);
    XorTwice(x, b);
    // unfolding, then folding
    var u := Xor(x, a);
    ShrXor(u, b, 13);
    XorAssociative(u, b, Xor(Xor(a, b), 0));
    XorZero(Xor(a, b));
    XorSymmetric(b, Xor(a, b));
    XorTwice(a, b);
    XorTwice(x, a);
  }

  // ----- rotations -----

  /** `(x << r) | (x >> (32 - r))` for the rotations that occur; the two parts have no common bits. */
  function Rotl(x: Word, r: nat): Word
    requires r in {13, 15, 17, 19}
  {
    if r == 13 then x % 0x8_0000 * 0x2000 + x / 0x8_0000
    else if r == 15 then x % 0x2_0000 * 0x8000 + x / 0x2_0000
    else if r == 17 then x % 0x8000 * 0x2_0000 + x / 0x8000
    else x % 0x2000 * 0x8_0000 + x / 0x2000
  }

  lemma RotationsUndone(x: Word)
    ensures Rotl(Rotl(x, 15), 17) == x && Rotl(Rotl(x, 17), 15) == x
    ensures Rotl(Rotl(x, 13), 19) == x && Rotl(Rotl(x, 19), 13) == x
  {
    HalvesBack(x / 0x2_0000, x % 0x2_0000, 0x8000);
    HalvesBack(x / 0x8000, x % 0x8000, 0x2_0000);
    HalvesBack(x / 0x8_0000, x % 0x8_0000, 0x2000);
    HalvesBack(x / 0x2000, x % 0x2000, 0x8_0000);
  }

  lemma HalvesBack(hi: nat, lo: nat, m: nat)
    requires m in {0x2000, 0x8000, 0x2_0000, 0x8_0000} && hi < m
    ensures (lo * m + hi) / m == lo && (lo * m + hi) % m == hi
  {
    if m == 0x2000 {} else if m == 0x8000 {} else if m == 0x2_0000 {}
  }
}
