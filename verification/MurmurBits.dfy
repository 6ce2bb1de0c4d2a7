/**
  MurmurHash3 on machine words: the algorithm in the verifier's own 32-bit operations, the proof that the hash of
  numbers is that algorithm, and published values.
 */
module MurmurBits {
  import opened Common
  import opened Words
  import opened Murmur

  // ----- the algorithm -----

  /** The number in 32 bits. */
  function Bits(n: nat): bv32
  {
    if n == 0 then 0 else Bit(n) + 2 * Bits(n / 2)
  }

  function Bit(n: nat): bv32 { if n % 2 == 1 then 1 else 0 }

  // The operations of the machine by name, so that proofs need not take them apart into single bits.
  function Plus(x: bv32, y: bv32): bv32 { x + y }
  function Product(x: bv32, y: bv32): bv32 { x * y }
  function Either(x: bv32, y: bv32): bv32 { x ^ y }

  /** Four bytes, the first one lowest. */
  function Join(a: bv32, b: bv32, c: bv32, d: bv32): bv32 { a | (b << 8) | (c << 16) | (d << 24) }

  function Rotate15(x: bv32): bv32 { (x << 15) | (x >> 17) }
  function Rotate13(x: bv32): bv32 { (x << 13) | (x >> 19) }

  function MixBits(k: bv32): bv32
  {
    Product(Rotate15(Product(k, 0xcc9e2d51)), 0x1b873593)
  }

  function RoundBits(h: bv32, k: bv32): bv32
  {
    Plus(Product(Rotate13(Either(h, MixBits(k))), 5), 0xe6546b64)
  }

  /** The bytes of the key from `i` on that belong to the word at `i`, the first one lowest. */
  function Load(key: Key, i: nat): bv32
  {
    Join(ByteAt(key, i), ByteAt(key, i + 1), ByteAt(key, i + 2), ByteAt(key, i + 3))
  }

  function ByteAt(key: Key, i: nat): bv32
  {
    if i < |key| then Bits(key[i]) else 0
  }

  function BodyBits(key: Key, n: nat, seed: bv32): bv32
  {
    if n == 0 then seed else RoundBits(BodyBits(key, n - 1, seed), Load(key, 4 * (n - 1)))
  }

  function Fold16(h: bv32): bv32 { Either(h, h >> 16) }
  function Fold13(h: bv32): bv32 { Either(h, h >> 13) }

  function FinalBits(h: bv32): bv32
  {
    Fold16(Product(Fold13(Product(Fold16(h), 0x85ebca6b)), 0xc2b2ae35))
  }

  /** `MurmurHash3_x86_32` */
  function HashBits(key: Key, seed: bv32): bv32
  {
    var h := BodyBits(key, |key| / 4, seed);
    var t := if |key| % 4 == 0 then h else Either(h, MixBits(Load(key, |key| / 4 * 4)));
    FinalBits(Either(t, Bits(|key|)))
  }

  // ----- sums and products -----

  function Twice(x: bv32): bv32 { 2 * x }

  lemma BitsOf(n: nat)
    ensures Bits(n) == Plus(Bit(n), Twice(Bits(n / 2)))
  {
    assert Plus(Bit(n), Twice(Bits(n / 2))) == Plus(Bit(n), 2 * Bits(n / 2));
  }

  lemma OneBit()
    ensures Bits(0) == Bit(0) == 0 && Bits(1) == Bit(1) == 1
  {
  }

  function Carry(a: nat, b: nat): (c: nat)
    ensures c < 2
  {
    if a % 2 == 1 && b % 2 == 1 then 1 else 0
  }

  /** The digits of a sum: the halves with the carry, and the parity. */
  lemma SumDigits(a: nat, b: nat)
    ensures (a + b) / 2 == a / 2 + b / 2 + Carry(a, b)
    ensures (a + b) % 2 == if a % 2 == b % 2 then 0 else 1
  {
  }

  lemma SumBit(a: nat, b: nat)
    ensures Plus(Bit(a), Bit(b)) == Plus(Bit(a + b), Twice(Bits(Carry(a, b))))
  {
    hide Bits;
    SumDigits(a, b);
    OneBit();
  }

  // Each equation unfolds one operation, whose arguments are written out.

  lemma TwiceIs(x: bv32)
    ensures Twice(x) == 2 * x
  {
  }

  lemma PlusIs(a: bv32, b: bv32)
    ensures Plus(a, b) == a + b
  {
  }

  lemma PlusTwiceIs(p: bv32, x: bv32)
    ensures Plus(p, 2 * x) == p + 2 * x
  {
  }

  lemma PlusTwice(p: bv32, x: bv32)
    ensures Plus(p, Twice(x)) == p + 2 * x
  {
    hide Plus, Twice;
    TwiceIs(x);
    PlusTwiceIs(p, x);
  }

  lemma TwicePlusIs(x: bv32, y: bv32)
    ensures Twice(x + y) == 2 * (x + y)
  {
  }

  lemma TwicePlus(x: bv32, y: bv32)
    ensures Twice(Plus(x, y)) == 2 * (x + y)
  {
    hide Plus, Twice;
    PlusIs(x, y);
    TwicePlusIs(x, y);
  }

  lemma ColumnsLeft(p: bv32, q: bv32, x: bv32, y: bv32)
    ensures Plus(p + 2 * x, q + 2 * y) == p + q + 2 * x + 2 * y
  {
  }

  lemma ColumnsRight(p: bv32, q: bv32, x: bv32, y: bv32)
    ensures Plus(p + q, 2 * (x + y)) == p + q + 2 * x + 2 * y
  {
  }

  lemma Columns(p: bv32, q: bv32, x: bv32, y: bv32)
    ensures Plus(Plus(p, Twice(x)), Plus(q, Twice(y))) == Plus(Plus(p, q), Twice(Plus(x, y)))
  {
    hide Plus, Twice;
    PlusTwice(p, x);
    PlusTwice(q, y);
    ColumnsLeft(p, q, x, y);
    PlusIs(p, q);
    TwicePlus(x, y);
    ColumnsRight(p, q, x, y);
  }

  lemma CarryLeft(r: bv32, c: bv32, xy: bv32)
    ensures Plus(r + 2 * c, 2 * xy) == r + 2 * xy + 2 * c
  {
  }

  lemma CarryRight(r: bv32, c: bv32, xy: bv32)
    ensures Plus(r, 2 * (xy + c)) == r + 2 * xy + 2 * c
  {
  }

  lemma CarryIn(r: bv32, c: bv32, xy: bv32)
    ensures Plus(Plus(r, Twice(c)), Twice(xy)) == Plus(r, Twice(Plus(xy, c)))
  {
    hide Plus, Twice;
    PlusTwice(r, c);
    TwiceIs(xy);
    CarryLeft(r, c, xy);
    TwicePlus(xy, c);
    CarryRight(r, c, xy);
  }

  lemma {:induction false} BitsAdd(a: nat, b: nat)
    ensures Bits(a + b) == Plus(Bits(a), Bits(b))
    decreases a + b
  {
    hide Bits, Bit, Carry, Plus, Twice;
    if a + b > 0 {
      var x, y, c := a / 2, b / 2, Carry(a, b);
      SumDigits(a, b);
      assert (a + b) / 2 == x + y + c < a + b;
      BitsAdd(x, y);
      BitsAdd(x + y, c);
      SumBit(a, b);
      BitsOf(a);
      BitsOf(b);
      BitsOf(a + b);
      Columns(Bit(a), Bit(b), Bits(x), Bits(y));
      CarryIn(Bit(a + b), Bits(c), Bits(x + y));
    } else {
      NoBits();
    }
  }

  lemma NoBits()
    ensures Bits(0) == Plus(Bits(0), Bits(0))
  {
  }

  lemma ProductDigits(a: nat, c: nat)
    ensures a * c == a * (c / 2) + a * (c / 2) + (if c % 2 == 1 then a else 0)
  {
    var h := c / 2;
    assert c == h + h + c % 2;
    assert a * c == a * h + a * h + a * (c % 2);
  }

  lemma EvenFactor(a: bv32, h: bv32)
    ensures Product(a, 0 + 2 * h) == 2 * (a * h)
  {
  }

  lemma OddFactor(a: bv32, h: bv32)
    ensures Product(a, 1 + 2 * h) == 2 * (a * h) + a
  {
  }

  lemma TwoProducts(a: bv32, h: bv32)
    ensures Plus(a * h, a * h) == 2 * (a * h)
  {
  }

  lemma AndOneMore(a: bv32, b: bv32, h: bv32)
    ensures Plus(2 * (a * h), b) == 2 * (a * h) + b
  {
  }

  lemma NoOneMore(a: bv32, h: bv32)
    ensures Plus(2 * (a * h), 0) == 2 * (a * h)
  {
  }

  lemma ProductIs(a: bv32, b: bv32)
    ensures Product(a, b) == a * b
  {
  }

  lemma ProductOfEven(a: bv32, h: bv32)
    ensures Product(a, Plus(0, Twice(h))) == Plus(Plus(Product(a, h), Product(a, h)), 0)
  {
    hide Product, Plus, Twice;
    PlusTwice(0, h);
    EvenFactor(a, h);
    ProductIs(a, h);
    TwoProducts(a, h);
    NoOneMore(a, h);
  }

  lemma ProductOfOdd(a: bv32, h: bv32)
    ensures Product(a, Plus(1, Twice(h))) == Plus(Plus(Product(a, h), Product(a, h)), a)
  {
    hide Product, Plus, Twice;
    PlusTwice(1, h);
    OddFactor(a, h);
    ProductIs(a, h);
    TwoProducts(a, h);
    AndOneMore(a, a, h);
  }

  lemma {:induction false} BitsTimes(a: nat, c: nat)
    ensures Bits(a * c) == Product(Bits(a), Bits(c))
    decreases c
  {
    hide Bits, Plus, Product, Twice;
    OneBit();
    if c > 0 {
      var h, rest := c / 2, if c % 2 == 1 then a else 0;
      BitsTimes(a, h);
      BitsOf(c);
      ProductDigits(a, c);
      BitsAdd(a * h, a * h);
      BitsAdd(a * h + a * h, rest);
      ProductOfEven(Bits(a), Bits(h));
      ProductOfOdd(Bits(a), Bits(h));
    } else {
      Nothing(Bits(a), 0);
    }
  }

  lemma HighBit()
    ensures Bits(0x1_0000_0000) == 0
  {
    hide Bits;
    BitsAdd(1, 1);
    OneBit();
    BitsTimes(2, 2);
    BitsTimes(4, 4);
    BitsTimes(0x10, 0x10);
    BitsTimes(0x100, 0x100);
    BitsTimes(0x1_0000, 0x1_0000);
  }

  lemma Nothing(x: bv32, y: bv32)
    ensures Plus(Product(x, 0), y) == y && Product(x, 0) == 0
  {
  }

  lemma BitsMod(n: nat)
    ensures Bits(n % 0x1_0000_0000) == Bits(n)
  {
    hide Bits, Plus, Product;
    var q, r := n / 0x1_0000_0000, n % 0x1_0000_0000;
    assert n == q * 0x1_0000_0000 + r;
    BitsAdd(q * 0x1_0000_0000, r);
    BitsTimes(q, 0x1_0000_0000);
    HighBit();
    Nothing(Bits(q), Bits(r));
  }

  // ----- exclusive or -----

  lemma EitherIs(x: bv32, y: bv32)
    ensures Either(x, y) == x ^ y
  {
  }

  lemma EitherColumns(p: bv32, q: bv32, x: bv32, y: bv32)
    requires p <= 1 && q <= 1
    ensures Either(p + 2 * x, q + 2 * y) == (p ^ q) + 2 * (x ^ y)
  {
  }

  lemma EitherPlus(p: bv32, q: bv32, x: bv32, y: bv32)
    ensures Plus(p ^ q, 2 * (x ^ y)) == (p ^ q) + 2 * (x ^ y)
  {
  }

  lemma TwiceEitherIs(x: bv32, y: bv32)
    ensures Twice(x ^ y) == 2 * (x ^ y)
  {
  }

  lemma BitRange(n: nat)
    ensures Bit(n) <= 1
  {
  }

  lemma EitherBit(a: nat, b: nat, x: nat)
    requires x % 2 == (a + b) % 2
    ensures Bit(x) == Either(Bit(a), Bit(b))
  {
    hide Either;
    SumDigits(a, b);
    EitherTable();
  }

  lemma EitherTable()
    ensures Either(0, 0) == Either(1, 1) == 0 && Either(0, 1) == Either(1, 0) == 1
  {
  }

  lemma {:induction false} BitsXor(a: nat, b: nat)
    ensures Bits(Xor(a, b)) == Either(Bits(a), Bits(b))
    decreases a + b
  {
    hide Bits, Bit, Plus, Twice, Either, Xor;
    if a + b > 0 {
      var x := Xor(a, b);
      var p, q, c, d := Bit(a), Bit(b), Bits(a / 2), Bits(b / 2);
      XorHalf(a, b);
      BitsXor(a / 2, b / 2);
      BitsOf(a);
      BitsOf(b);
      BitsOf(x);
      EitherBit(a, b, x);
      BitRange(a);
      BitRange(b);
      PlusTwice(p, c);
      PlusTwice(q, d);
      EitherColumns(p, q, c, d);
      EitherIs(p, q);
      EitherIs(c, d);
      TwiceEitherIs(c, d);
      EitherPlus(p, q, c, d);
    } else {
      NoXor();
    }
  }

  lemma NoXor()
    ensures Xor(0, 0) == 0 && Bits(0) == Either(Bits(0), Bits(0))
  {
  }

  // ----- shifts -----

  function Mask(k: nat): bv32
  {
    if k == 0 then 0xffff_ffff else 2 * Mask(k - 1)
  }

  function Both(x: bv32, m: bv32): bv32 { x & m }

  lemma BothColumns(p: bv32, x: bv32, m: bv32)
    requires p <= 1 && Both(x, m) == 0
    ensures Both(p + 2 * x, 2 * m) == 0
  {
  }

  /** A number below 2 to the `k` has no bits from `k` on. */
  lemma {:induction false} SmallBits(n: nat, k: nat)
    requires n < Pow2(k)
    ensures Both(Bits(n), Mask(k)) == 0
  {
    hide Bits, Bit, Plus, Twice;
    if k > 0 {
      hide Both;
      SmallBits(n / 2, k - 1);
      BitsOf(n);
      BitRange(n);
      PlusTwice(Bit(n), Bits(n / 2));
      BothColumns(Bit(n), Bits(n / 2), Mask(k - 1));
    } else {
      OneBit();
    }
  }

  lemma TopBit()
    ensures Mask(31) == 0x8000_0000
  {
    assert Mask(0) == 0xffff_ffff && Mask(1) == 0xffff_fffe && Mask(2) == 0xffff_fffc && Mask(3) == 0xffff_fff8;
    assert Mask(4) == 0xffff_fff0 && Mask(5) == 0xffff_ffe0 && Mask(6) == 0xffff_ffc0 && Mask(7) == 0xffff_ff80;
    assert Mask(8) == 0xffff_ff00 && Mask(9) == 0xffff_fe00 && Mask(10) == 0xffff_fc00 && Mask(11) == 0xffff_f800;
    assert Mask(12) == 0xffff_f000 && Mask(13) == 0xffff_e000 && Mask(14) == 0xffff_c000 && Mask(15) == 0xffff_8000;
    assert Mask(16) == 0xffff_0000 && Mask(17) == 0xfffe_0000 && Mask(18) == 0xfffc_0000 && Mask(19) == 0xfff8_0000;
    assert Mask(20) == 0xfff0_0000 && Mask(21) == 0xffe0_0000 && Mask(22) == 0xffc0_0000 && Mask(23) == 0xff80_0000;
    assert Mask(24) == 0xff00_0000 && Mask(25) == 0xfe00_0000 && Mask(26) == 0xfc00_0000 && Mask(27) == 0xf800_0000;
    assert Mask(28) == 0xf000_0000 && Mask(29) == 0xe000_0000 && Mask(30) == 0xc000_0000 && Mask(31) == 0x8000_0000;
  }

  function HalfOf(x: bv32): bv32 { x >> 1 }

  lemma HalfColumns(p: bv32, x: bv32)
    requires p <= 1 && Both(x, 0x8000_0000) == 0
    ensures HalfOf(p + 2 * x) == x
  {
  }

  lemma BitsHalf(w: Word)
    ensures Bits(w / 2) == HalfOf(Bits(w))
  {
    hide Bits, Bit, Plus, Twice, HalfOf, Both, Mask;
    Pow2Of32();
    assert Pow2(32) == 2 * Pow2(31);
    SmallBits(w / 2, 31);
    TopBit();
    BitsOf(w);
    BitRange(w);
    PlusTwice(Bit(w), Bits(w / 2));
    HalfColumns(Bit(w), Bits(w / 2));
  }

  function Halve(x: bv32, k: nat): bv32
    decreases k
  {
    if k == 0 then x else Halve(HalfOf(x), k - 1)
  }

  lemma {:induction false} BitsShr(w: Word, k: nat)
    ensures Bits(Shr(w, k)) == Halve(Bits(w), k)
  {
    hide Bits, HalfOf;
    if k > 0 {
      BitsHalf(w);
      BitsShr(w / 2, k - 1);
    }
  }

  lemma {:induction false} HalveTwice(x: bv32, j: nat, k: nat)
    ensures Halve(x, j + k) == Halve(Halve(x, j), k)
    decreases j
  {
    hide HalfOf;
    if j > 0 {
      HalveTwice(HalfOf(x), j - 1, k);
    }
  }

  lemma Halve0And2(x: bv32)
    ensures Halve(x, 2) == x >> 2
  {
    assert Halve(x, 2) == Halve(x >> 1, 1) == Halve(x >> 2, 0);
  }

  lemma Halve2And2(x: bv32)
    ensures Halve(x >> 2, 2) == x >> 4
  {
    assert Halve(x >> 2, 2) == Halve(x >> 3, 1) == Halve(x >> 4, 0);
  }

  lemma Halve4And2(x: bv32)
    ensures Halve(x >> 4, 2) == x >> 6
  {
    assert Halve(x >> 4, 2) == Halve(x >> 5, 1) == Halve(x >> 6, 0);
  }

  lemma Halve6And2(x: bv32)
    ensures Halve(x >> 6, 2) == x >> 8
  {
    assert Halve(x >> 6, 2) == Halve(x >> 7, 1) == Halve(x >> 8, 0);
  }

  lemma Halve8And2(x: bv32)
    ensures Halve(x >> 8, 2) == x >> 10
  {
    assert Halve(x >> 8, 2) == Halve(x >> 9, 1) == Halve(x >> 10, 0);
  }

  lemma Halve10And2(x: bv32)
    ensures Halve(x >> 10, 2) == x >> 12
  {
    assert Halve(x >> 10, 2) == Halve(x >> 11, 1) == Halve(x >> 12, 0);
  }

  lemma Halve12And1(x: bv32)
    ensures Halve(x >> 12, 1) == x >> 13
  {
    assert Halve(x >> 12, 1) == Halve(x >> 13, 0);
  }

  lemma Halve12And2(x: bv32)
    ensures Halve(x >> 12, 2) == x >> 14
  {
    assert Halve(x >> 12, 2) == Halve(x >> 13, 1) == Halve(x >> 14, 0);
  }

  lemma Halve14And2(x: bv32)
    ensures Halve(x >> 14, 2) == x >> 16
  {
    assert Halve(x >> 14, 2) == Halve(x >> 15, 1) == Halve(x >> 16, 0);
  }

  lemma Halve16And1(x: bv32)
    ensures Halve(x >> 16, 1) == x >> 17
  {
    assert Halve(x >> 16, 1) == Halve(x >> 17, 0);
  }

  lemma Halve16And2(x: bv32)
    ensures Halve(x >> 16, 2) == x >> 18
  {
    assert Halve(x >> 16, 2) == Halve(x >> 17, 1) == Halve(x >> 18, 0);
  }

  lemma Halve18And1(x: bv32)
    ensures Halve(x >> 18, 1) == x >> 19
  {
    assert Halve(x >> 18, 1) == Halve(x >> 19, 0);
  }

  lemma Halves(x: bv32)
    ensures Halve(x, 13) == x >> 13 && Halve(x, 16) == x >> 16 && Halve(x, 17) == x >> 17 && Halve(x, 19) == x >> 19
  {
    hide Halve;
    Halve0And2(x);
    HalveTwice(x, 2, 2);
    Halve2And2(x);
    HalveTwice(x, 4, 2);
    Halve4And2(x);
    HalveTwice(x, 6, 2);
    Halve6And2(x);
    HalveTwice(x, 8, 2);
    Halve8And2(x);
    HalveTwice(x, 10, 2);
    Halve10And2(x);
    HalveTwice(x, 12, 1);
    Halve12And1(x);
    HalveTwice(x, 12, 2);
    Halve12And2(x);
    HalveTwice(x, 14, 2);
    Halve14And2(x);
    HalveTwice(x, 16, 1);
    Halve16And1(x);
    HalveTwice(x, 16, 2);
    Halve16And2(x);
    HalveTwice(x, 18, 1);
    Halve18And1(x);
  }

  // ----- constants -----

  function Digit(d: nat): bv32
  {
    if d == 0 then 0 else if d == 1 then 1 else if d == 2 then 2 else if d == 3 then 3
    else if d == 4 then 4 else if d == 5 then 5 else if d == 6 then 6 else if d == 7 then 7
    else if d == 8 then 8 else if d == 9 then 9 else if d == 10 then 10 else if d == 11 then 11
    else if d == 12 then 12 else if d == 13 then 13 else if d == 14 then 14 else 15
  }

  lemma NextDigit(d: nat)
    requires 0 < d < 16
    ensures Digit(d) == Plus(Digit(d - 1), 1)
  {
  }

  lemma {:induction false} BitsOfDigit(d: nat)
    requires d < 16
    ensures Bits(d) == Digit(d)
  {
    hide Bits, Plus;
    OneBit();
    if d > 0 {
      BitsOfDigit(d - 1);
      BitsAdd(d - 1, 1);
      NextDigit(d);
    }
  }

  function Four(a: nat, b: nat, c: nat, d: nat): nat { ((a * 16 + b) * 16 + c) * 16 + d }
  function FourBits(a: bv32, b: bv32, c: bv32, d: bv32): bv32
  {
    Plus(Product(Plus(Product(Plus(Product(a, 16), b), 16), c), 16), d)
  }

  lemma Sixteen()
    ensures Bits(16) == 16
  {
    hide Bits;
    BitsOfDigit(4);
    BitsTimes(4, 4);
  }

  lemma BitsAppend(n: nat, d: nat)
    requires d < 16
    ensures Bits(n * 16 + d) == Plus(Product(Bits(n), 16), Digit(d))
  {
    hide Bits, Plus, Product, Digit;
    Sixteen();
    BitsTimes(n, 16);
    BitsAdd(n * 16, d);
    BitsOfDigit(d);
  }

  lemma BitsOfFour(a: nat, b: nat, c: nat, d: nat)
    requires a < 16 && b < 16 && c < 16 && d < 16
    ensures Bits(Four(a, b, c, d)) == FourBits(Digit(a), Digit(b), Digit(c), Digit(d))
  {
    hide Bits, Plus, Product, Digit;
    BitsOfDigit(a);
    BitsAppend(a, b);
    BitsAppend(a * 16 + b, c);
    BitsAppend((a * 16 + b) * 16 + c, d);
  }

  lemma BitsOfConstant(a: nat, b: nat, c: nat, d: nat, e: nat, f: nat, g: nat, h: nat)
    requires a < 16 && b < 16 && c < 16 && d < 16 && e < 16 && f < 16 && g < 16 && h < 16
    ensures Bits(Four(a, b, c, d) * 0x1_0000 + Four(e, f, g, h))
         == Plus(Product(FourBits(Digit(a), Digit(b), Digit(c), Digit(d)), 0x1_0000),
                 FourBits(Digit(e), Digit(f), Digit(g), Digit(h)))
  {
    hide Bits, Plus, Product, Digit, Four, FourBits;
    BitsOfFour(a, b, c, d);
    BitsOfFour(e, f, g, h);
    BitsAdd(Four(a, b, c, d) * 0x1_0000, Four(e, f, g, h));
    BitsTimes(Four(a, b, c, d), 0x1_0000);
    Half32();
  }

  lemma Half32()
    ensures Bits(0x100) == 0x100 && Bits(0x1_0000) == 0x1_0000 && Bits(0x100_0000) == 0x100_0000
  {
    hide Bits;
    Sixteen();
    BitsTimes(16, 16);
    BitsTimes(0x100, 0x100);
    BitsTimes(0x100, 0x1_0000);
  }

  lemma BitsOfC1()
    ensures Bits(0xcc9e2d51) == 0xcc9e2d51
  {
    hide Bits;
    BitsOfConstant(0xc, 0xc, 9, 0xe, 2, 0xd, 5, 1);
  }

  lemma BitsOfC2()
    ensures Bits(0x1b873593) == 0x1b873593
  {
    hide Bits;
    BitsOfConstant(1, 0xb, 8, 7, 3, 5, 9, 3);
  }

  lemma BitsOfAdvance()
    ensures Bits(0xe6546b64) == 0xe6546b64
  {
    hide Bits;
    BitsOfConstant(0xe, 6, 5, 4, 6, 0xb, 6, 4);
  }

  lemma BitsOfF1()
    ensures Bits(0x85ebca6b) == 0x85ebca6b
  {
    hide Bits;
    BitsOfConstant(8, 5, 0xe, 0xb, 0xc, 0xa, 6, 0xb);
  }

  lemma BitsOfF2()
    ensures Bits(0xc2b2ae35) == 0xc2b2ae35
  {
    hide Bits;
    BitsOfConstant(0xc, 2, 0xb, 2, 0xa, 0xe, 3, 5);
  }

  lemma BitsOfFive()
    ensures Bits(5) == 5
  {
    hide Bits;
    BitsOfDigit(5);
  }

  // ----- the operations of the hash -----

  lemma BitsOfProduct(x: Word, c: nat)
    ensures Bits(Times(x, c)) == Product(Bits(x), Bits(c))
  {
    hide Bits, Product;
    BitsTimes(x, c);
    BitsMod(x * c);
  }

  lemma BitsOfAdvanced(h: Word)
    ensures Bits(Advance(h)) == Plus(Product(Bits(h), 5), 0xe654_6b64)
  {
    hide Bits, Product, Plus;
    BitsMod(h * 5 + 0xe6546b64);
    BitsAdd(h * 5, 0xe6546b64);
    BitsTimes(h, 5);
    BitsOfFive();
    BitsOfAdvance();
  }

  lemma BitsOfFold(x: Word, k: nat)
    ensures Bits(Fold(x, k)) == Either(Bits(x), Halve(Bits(x), k))
  {
    hide Bits, Either, Halve, Shr, Xor;
    BitsXor(x, Shr(x, k));
    BitsShr(x, k);
  }

  /** Shifting is dividing. */
  lemma {:induction false} ShrIs(x: nat, k: nat)
    ensures Shr(x, k) * Pow2(k) <= x < Shr(x, k) * Pow2(k) + Pow2(k)
  {
    if k > 0 {
      ShrIs(x / 2, k - 1);
      Regroup(Shr(x, k), 2, Pow2(k - 1));
      var s := Shr(x, k) * Pow2(k - 1);
      assert Shr(x, k) * Pow2(k) == 2 * s;
    }
  }

  lemma ShrDivides(x: nat)
    ensures Shr(x, 17) == x / 0x2_0000 && Shr(x, 19) == x / 0x8_0000
  {
    hide Shr;
    ShrIs(x, 17);
    ShrIs(x, 19);
    assert Pow2(17) == 0x2_0000 && Pow2(19) == 0x8_0000 by {
      Pow2Of32();
      Pow2Sum(16, 1);
      Pow2Sum(16, 3);
    }
  }

  lemma RotationParts(x: Word)
    ensures Times(x, 0x8000) == x % 0x2_0000 * 0x8000
    ensures Times(x, 0x2000) == x % 0x8_0000 * 0x2000
  {
    ModOf(x * 0x8000, x / 0x2_0000, x % 0x2_0000 * 0x8000);
    ModOf(x * 0x2000, x / 0x8_0000, x % 0x8_0000 * 0x2000);
  }

  lemma Rotate15Is(v: bv32)
    ensures Plus(v * 0x8000, v >> 17) == Rotate15(v)
  {
  }

  lemma Rotate13Is(v: bv32)
    ensures Plus(v * 0x2000, v >> 19) == Rotate13(v)
  {
  }

  lemma RotationFactors()
    ensures Bits(0x8000) == 0x8000 && Bits(0x2000) == 0x2000
  {
    hide Bits;
    BitsOfFour(8, 0, 0, 0);
    BitsOfFour(2, 0, 0, 0);
  }

  lemma BitsOfRotl15(x: Word)
    ensures Bits(Rotl(x, 15)) == Rotate15(Bits(x))
  {
    hide Bits, Product, Plus, Rotate15, Times, Shr, Halve;
    RotationParts(x);
    BitsAdd(Times(x, 0x8000), x / 0x2_0000);
    BitsOfProduct(x, 0x8000);
    RotationFactors();
    ShrDivides(x);
    BitsShr(x, 17);
    Halves(Bits(x));
    ProductIs(Bits(x), 0x8000);
    Rotate15Is(Bits(x));
  }

  lemma BitsOfRotl13(x: Word)
    ensures Bits(Rotl(x, 13)) == Rotate13(Bits(x))
  {
    hide Bits, Product, Plus, Rotate13, Times, Shr, Halve;
    RotationParts(x);
    BitsAdd(Times(x, 0x2000), x / 0x8_0000);
    BitsOfProduct(x, 0x2000);
    RotationFactors();
    ShrDivides(x);
    BitsShr(x, 19);
    Halves(Bits(x));
    ProductIs(Bits(x), 0x2000);
    Rotate13Is(Bits(x));
  }

  lemma BitsOfMixKey(k: Word)
    ensures Bits(MixKey(k)) == MixBits(Bits(k))
  {
    hide Bits, Product, Rotate15, Times, Rotl;
    BitsOfC1();
    BitsOfC2();
    BitsOfProduct(k, C1);
    BitsOfRotl15(Times(k, C1));
    BitsOfProduct(Rotl(Times(k, C1), 15), C2);
  }

  lemma BitsOfStep(h: Word, k: Word)
    ensures Bits(Step(h, k)) == RoundBits(Bits(h), Bits(k))
  {
    hide Bits, Product, Plus, Either, Rotate13, MixKey, MixBits, Rotl, Advance, Xor;
    BitsOfMixKey(k);
    BitsXor(h, MixKey(k));
    BitsOfRotl13(XorWord(h, MixKey(k)));
    BitsOfAdvanced(Rotl(XorWord(h, MixKey(k)), 13));
  }

  lemma BitsOfFolds(x: Word)
    ensures Bits(Fold(x, 16)) == Fold16(Bits(x)) && Bits(Fold(x, 13)) == Fold13(Bits(x))
  {
    hide Bits, Either, Halve, Fold, Fold16, Fold13;
    BitsOfFold(x, 16);
    BitsOfFold(x, 13);
    FoldsAre(Bits(x));
  }

  lemma FoldsAre(x: bv32)
    ensures Fold16(x) == Either(x, Halve(x, 16)) && Fold13(x) == Either(x, Halve(x, 13))
  {
    hide Either, Halve;
    Halves(x);
  }

  lemma BitsOfFmix(h: Word)
    ensures Bits(Fmix(h)) == FinalBits(Bits(h))
  {
    hide Bits, Product, Fold, Fold16, Fold13, Times;
    BitsOfF1();
    BitsOfF2();
    var a := Fold(h, 16);
    var b := Fold(Times(a, F1), 13);
    BitsOfFolds(h);
    BitsOfProduct(a, F1);
    BitsOfFolds(Times(a, F1));
    BitsOfProduct(b, F2);
    BitsOfFolds(Times(b, F2));
  }

  // ----- the key -----

  lemma Shifted8(b: bv32)
    ensures Product(0x100, b) == b << 8
  {
  }

  lemma Shifted16(b: bv32)
    ensures Product(0x1_0000, b) == b << 16
  {
  }

  lemma Shifted24(b: bv32)
    ensures Product(0x100_0000, b) == b << 24
  {
  }

  lemma Joined2(a: bv32, b: bv32)
    requires Both(a, 0xffff_ff00) == 0
    ensures Plus(a, b << 8) == a | (b << 8)
  {
  }

  lemma Joined3(a: bv32, b: bv32, c: bv32)
    requires Both(a, 0xffff_ff00) == Both(b, 0xffff_ff00) == 0
    ensures Plus(a | (b << 8), c << 16) == a | (b << 8) | (c << 16)
  {
  }

  lemma Joined4(a: bv32, b: bv32, c: bv32, d: bv32)
    requires Both(a, 0xffff_ff00) == Both(b, 0xffff_ff00) == Both(c, 0xffff_ff00) == 0
    ensures Plus(a | (b << 8) | (c << 16), d << 24) == Join(a, b, c, d)
  {
  }

  lemma Joined(a: bv32, b: bv32, c: bv32, d: bv32)
    requires Both(a, 0xffff_ff00) == Both(b, 0xffff_ff00) == Both(c, 0xffff_ff00) == 0
    ensures Plus(Plus(Plus(a, Product(0x100, b)), Product(0x1_0000, c)), Product(0x100_0000, d)) == Join(a, b, c, d)
  {
    hide Plus, Product, Join, Both;
    Shifted8(b);
    Shifted16(c);
    Shifted24(d);
    Joined2(a, b);
    Joined3(a, b, c);
    Joined4(a, b, c, d);
  }

  lemma SmallByte(b: byte)
    ensures Both(Bits(b), 0xffff_ff00) == 0
  {
    hide Bits, Both;
    Pow2Of32();
    SmallBits(b, 8);
    Mask8();
  }

  lemma Mask8()
    ensures Mask(8) == 0xffff_ff00
  {
    assert Mask(1) == 0xffff_fffe && Mask(2) == 0xffff_fffc && Mask(3) == 0xffff_fff8 && Mask(4) == 0xffff_fff0;
    assert Mask(5) == 0xffff_ffe0 && Mask(6) == 0xffff_ffc0 && Mask(7) == 0xffff_ff80;
  }

  lemma BitsOfShifted(b: byte)
    ensures Bits(0x100 * b) == Product(0x100, Bits(b))
    ensures Bits(0x1_0000 * b) == Product(0x1_0000, Bits(b))
    ensures Bits(0x100_0000 * b) == Product(0x100_0000, Bits(b))
  {
    hide Bits, Product;
    BitsTimes(0x100, b);
    BitsTimes(0x1_0000, b);
    BitsTimes(0x100_0000, b);
    Half32();
  }

  lemma BitsOfSum(a: nat, b: nat, c: nat, d: nat)
    ensures Bits(a + b + c + d) == Plus(Plus(Plus(Bits(a), Bits(b)), Bits(c)), Bits(d))
  {
    hide Bits, Plus;
    BitsAdd(a, b);
    BitsAdd(a + b, c);
    BitsAdd(a + b + c, d);
  }

  lemma SumOfBytes(b0: byte, b1: byte, b2: byte, b3: byte)
    ensures Bits(Bytes(b0, b1, b2, b3))
         == Plus(Plus(Plus(Bits(b0), Product(0x100, Bits(b1))), Product(0x1_0000, Bits(b2))),
                 Product(0x100_0000, Bits(b3)))
  {
    hide Bits, Plus, Product;
    BitsOfSum(b0, 0x100 * b1, 0x1_0000 * b2, 0x100_0000 * b3);
    BitsOfShifted(b1);
    BitsOfShifted(b2);
    BitsOfShifted(b3);
  }

  lemma BitsOfBytes(b0: byte, b1: byte, b2: byte, b3: byte)
    ensures Bits(Bytes(b0, b1, b2, b3)) == Join(Bits(b0), Bits(b1), Bits(b2), Bits(b3))
  {
    hide Bits, Plus, Product, Both, Join, Bytes;
    SumOfBytes(b0, b1, b2, b3);
    SmallByte(b0);
    SmallByte(b1);
    SmallByte(b2);
    Joined(Bits(b0), Bits(b1), Bits(b2), Bits(b3));
  }

  lemma BlockIsLoaded(key: Key, i: nat)
    requires 4 * i + 4 <= |key|
    ensures Bits(Block(key, i)) == Load(key, 4 * i)
  {
    hide Bits, Bytes, Join;
    BitsOfBytes(key[4 * i], key[4 * i + 1], key[4 * i + 2], key[4 * i + 3]);
  }

  lemma TailIsLoaded(key: Key)
    ensures Bits(TailWord(key)) == Load(key, |key| / 4 * 4)
  {
    hide Bits, Bytes, Join;
    var t, r := |key| / 4 * 4, |key| % 4;
    OneBit();
    BitsOfBytes(if r >= 1 then key[t] else 0, if r >= 2 then key[t + 1] else 0, if r >= 3 then key[t + 2] else 0, 0);
  }

  lemma {:induction false} BitsOfBlocks(key: Key, n: nat, seed: Word)
    requires 4 * n <= |key|
    ensures Bits(Blocks(key, n, seed)) == BodyBits(key, n, Bits(seed))
  {
    hide Bits, Step, RoundBits, Block, Load;
    if n > 0 {
      BitsOfBlocks(key, n - 1, seed);
      BlockIsLoaded(key, n - 1);
      BitsOfStep(Blocks(key, n - 1, seed), Block(key, n - 1));
    }
  }

  /** The hash of numbers is the hash of machine words. */
  lemma HashIsBits(key: Key, seed: Word)
    ensures Bits(Hash(key, seed)) == HashBits(key, Bits(seed))
  {
    hide Bits, Blocks, BodyBits, Fmix, FinalBits, MixKey, MixBits, Either, Load, TailWord, Xor;
    var h := Blocks(key, |key| / 4, seed);
    BitsOfBlocks(key, |key| / 4, seed);
    TailIsLoaded(key);
    BitsOfMixKey(TailWord(key));
    BitsXor(h, Tail(key));
    XorWordZero(h);
    var t := XorWord(h, Tail(key));
    BitsXor(t, |key|);
    BitsOfFmix(XorWord(t, |key|));
  }

  // ----- published values -----

  lemma SameColumns(p: bv32, x: bv32, q: bv32, y: bv32)
    requires p <= 1 && q <= 1 && Both(x, 0x8000_0000) == Both(y, 0x8000_0000) == 0
    requires Plus(p, Twice(x)) == Plus(q, Twice(y))
    ensures p == q && x == y
  {
  }

  /** Words with the same bits are the same. */
  lemma {:induction false} BitsInjective(a: Word, b: Word)
    requires Bits(a) == Bits(b)
    ensures a == b
    decreases a + b
  {
    hide Bits, Plus, Twice, Both, Mask;
    if a + b > 0 {
      Pow2Of32();
      assert Pow2(32) == 2 * Pow2(31);
      SmallBits(a / 2, 31);
      SmallBits(b / 2, 31);
      TopBit();
      BitsOf(a);
      BitsOf(b);
      SameColumns(Bit(a), Bits(a / 2), Bit(b), Bits(b / 2));
      BitsInjective(a / 2, b / 2);
    }
  }

  const SAMPLE: Key := [0x21, 0x43, 0x65, 0x87]

  lemma SampleBits()
    ensures Bits(0x21) == 0x21 && Bits(0x43) == 0x43 && Bits(0x65) == 0x65 && Bits(0x87) == 0x87
  {
    hide Bits;
    BitsOfFour(0, 0, 2, 1);
    BitsOfFour(0, 0, 4, 3);
    BitsOfFour(0, 0, 6, 5);
    BitsOfFour(0, 0, 8, 7);
  }

  lemma SampleWords()
    ensures Load(SAMPLE, 0) == 0x8765_4321 && Load(SAMPLE[..3], 0) == 0x0065_4321
  {
    hide Bits;
    SampleBits();
  }

  lemma HashFromBits(key: Key, seed: Word, hash: Word)
    requires HashBits(key, Bits(seed)) == Bits(hash)
    ensures Hash(key, seed) == hash
  {
    hide Bits, HashBits, Hash;
    HashIsBits(key, seed);
    BitsInjective(Hash(key, seed), hash);
  }

  lemma FourByteBits()
    ensures HashBits(SAMPLE, 0x0000_0000) == 0xf55b_516b
  {
    hide Bits, Load;
    SampleWords();
    assert MixBits(0x8765_4321) == 0x5082_edee;
    assert BodyBits(SAMPLE, 1, 0x0000_0000) == RoundBits(0x0000_0000, 0x8765_4321) == 0xbb09_5db4 by {
      assert BodyBits(SAMPLE, 0, 0x0000_0000) == 0x0000_0000;
    }
    BitsOfDigit(4);
    assert Fold16(0xbb09_5db0) == 0xbb09_e6b9;
    assert Product(0xbb09_e6b9, 0x85eb_ca6b) == 0xe604_6953;
    assert Fold13(0xe604_6953) == 0xe603_5970;
    assert Product(0xe603_5970, 0xc2b2_ae35) == 0xf55b_a430 && Fold16(0xf55b_a430) == 0xf55b_516b;
  }

  lemma SeededBits()
    ensures HashBits(SAMPLE, 0x5082_edee) == 0x2362_f9de
  {
    hide Bits, Load;
    SampleWords();
    assert MixBits(0x8765_4321) == 0x5082_edee;
    assert BodyBits(SAMPLE, 1, 0x5082_edee) == RoundBits(0x5082_edee, 0x8765_4321) == 0xe654_6b64 by {
      assert BodyBits(SAMPLE, 0, 0x5082_edee) == 0x5082_edee;
    }
    BitsOfDigit(4);
    assert Fold16(0xe654_6b60) == 0xe654_8d34;
    assert Product(0xe654_8d34, 0x85eb_ca6b) == 0x9f7e_0cbc;
    assert Fold13(0x9f7e_0cbc) == 0x9f7a_f74c;
    assert Product(0x9f7a_f74c, 0xc2b2_ae35) == 0x2362_dabc && Fold16(0x2362_dabc) == 0x2362_f9de;
  }

  lemma ThreeByteBits()
    ensures HashBits(SAMPLE[..3], 0x0000_0000) == 0x7e4a_8634
  {
    hide Bits, Load;
    SampleWords();
    assert MixBits(0x0065_4321) == 0x17a6_636e;
    BitsOfDigit(3);
    assert Fold16(0x17a6_636d) == 0x17a6_74cb;
    assert Product(0x17a6_74cb, 0x85eb_ca6b) == 0xe813_fed9;
    assert Fold13(0xe813_fed9) == 0xe814_be46;
    assert Product(0xe814_be46, 0xc2b2_ae35) == 0x7e4a_f87e && Fold16(0x7e4a_f87e) == 0x7e4a_8634;
  }

  lemma EmptyKeyBits()
    ensures HashBits([], 0x0000_0001) == 0x514e_28b7
  {
    hide Bits, Load;
    BitsOfDigit(0);
    assert Fold16(0x0000_0001) == 0x0000_0001;
    assert Product(0x0000_0001, 0x85eb_ca6b) == 0x85eb_ca6b;
    assert Fold13(0x85eb_ca6b) == 0x85ef_e535;
    assert Product(0x85ef_e535, 0xc2b2_ae35) == 0x514e_79f9 && Fold16(0x514e_79f9) == 0x514e_28b7;
  }

  lemma BitsOfFirst()
    ensures Bits(0xf55b516b) == 0xf55b516b
  {
    hide Bits;
    BitsOfConstant(0xf, 5, 5, 0xb, 5, 1, 6, 0xb);
  }

  lemma BitsOfSecond()
    ensures Bits(0x2362f9de) == 0x2362f9de
  {
    hide Bits;
    BitsOfConstant(2, 3, 6, 2, 0xf, 9, 0xd, 0xe);
  }

  lemma BitsOfThird()
    ensures Bits(0x7e4a8634) == 0x7e4a8634
  {
    hide Bits;
    BitsOfConstant(7, 0xe, 4, 0xa, 8, 6, 3, 4);
  }

  lemma BitsOfFourth()
    ensures Bits(0x514e28b7) == 0x514e28b7
  {
    hide Bits;
    BitsOfConstant(5, 1, 4, 0xe, 2, 8, 0xb, 7);
  }

  lemma BitsOfSeed()
    ensures Bits(0x5082edee) == 0x5082edee
  {
    hide Bits;
    BitsOfConstant(5, 0, 8, 2, 0xe, 0xd, 0xe, 0xe);
  }

  /** Values of `MurmurHash3_x86_32` that are published. */
  lemma PublishedValues()
    ensures Hash(SAMPLE, 0) == 0xf55b516b
    ensures Hash(SAMPLE, 0x5082edee) == 0x2362f9de
    ensures Hash(SAMPLE[..3], 0) == 0x7e4a8634
    ensures Hash([], 1) == 0x514e28b7
  {
    hide Bits, HashBits, Hash;
    OneBit();
    BitsOfSeed();
    FourByteBits();
    BitsOfFirst();
    HashFromBits(SAMPLE, 0, 0xf55b516b);
    SeededBits();
    BitsOfSecond();
    HashFromBits(SAMPLE, 0x5082edee, 0x2362f9de);
    ThreeByteBits();
    BitsOfThird();
    HashFromBits(SAMPLE[..3], 0, 0x7e4a8634);
    EmptyKeyBits();
    BitsOfFourth();
    HashFromBits([], 1, 0x514e28b7);
  }
}
