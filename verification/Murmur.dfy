/**
  MurmurHash3_x86_32 on 32-bit words, and the hashes of pairs and tuples that chain it through the seed.
 */
module Murmur {
  import opened Common
  import opened Words

  type Key = k: seq<byte> | |k| < 0x1_0000_0000 witness []

  // ----- the steps, each with its inverse -----

  // The odd multipliers of the code, and what undoes them.
  const C1: nat := 0xcc9e2d51
  const C2: nat := 0x1b873593
  const F1: nat := 0x85ebca6b
  const F2: nat := 0xc2b2ae35
  const INVERSE_C1: nat := 0xdee13bb1
  const INVERSE_C2: nat := 0x56ed309b
  const INVERSE_F1: nat := 0xa5cb9243
  const INVERSE_F2: nat := 0x7ed1b41d

  /** `h * 5 + 0xe6546b64`. */
  function Advance(h: Word): Word
  {
    (h * 5 + 0xe6546b64) % 0x1_0000_0000
  }

  function Retreat(h: Word): Word
  {
    Times((h + 0x1_0000_0000 - 0xe6546b64) % 0x1_0000_0000, 0xcccccccd)
  }

  /** What a block or the tail is turned into before it is mixed in. */
  function MixKey(k: Word): Word
  {
    Times(Rotl(Times(k, C1), 15), C2)
  }

  function UnmixKey(m: Word): Word
  {
    Times(Rotl(Times(m, INVERSE_C2), 17), INVERSE_C1)
  }

  /** Mixing one key word into the hash. */
  function Step(h: Word, k: Word): Word
  {
    Advance(Rotl(XorWord(h, MixKey(k)), 13))
  }

  /** What `Step` mixed, before the key word is taken out again. */
  function Unstep(h: Word): Word
  {
    Rotl(Retreat(h), 19)
  }

  function Fmix(h: Word): Word
  {
    Fold(Times(Fold(Times(Fold(h, 16), F1), 13), F2), 16)
  }

  function Unfmix(h: Word): Word
  {
    Fold(Times(Unfold13(Times(Fold(h, 16), INVERSE_F2)), INVERSE_F1), 16)
  }

  lemma ProductsUndone(x: Word)
    ensures Times(Times(x, C1), INVERSE_C1) == x && Times(Times(x, INVERSE_C1), C1) == x
    ensures Times(Times(x, C2), INVERSE_C2) == x && Times(Times(x, INVERSE_C2), C2) == x
    ensures Times(Times(x, F1), INVERSE_F1) == x && Times(Times(x, INVERSE_F1), F1) == x
    ensures Times(Times(x, F2), INVERSE_F2) == x && Times(Times(x, INVERSE_F2), F2) == x
  {
    hide Times;
    TimesUndone(x, 0xcc9e2d51, 0xdee13bb1, 0xb2253208);
    TimesUndone(x, 0xdee13bb1, 0xcc9e2d51, 0xb2253208);
    TimesUndone(x, 0x1b873593, 0x56ed309b, 0x958ed66);
    TimesUndone(x, 0x56ed309b, 0x1b873593, 0x958ed66);
    TimesUndone(x, 0x85ebca6b, 0xa5cb9243, 0x56bb77f4);
    TimesUndone(x, 0xa5cb9243, 0x85ebca6b, 0x56bb77f4);
    TimesUndone(x, 0xc2b2ae35, 0x7ed1b41d, 0x60736e9a);
    TimesUndone(x, 0x7ed1b41d, 0xc2b2ae35, 0x60736e9a);
  }

  /** Key mixing is a permutation of the words. */
  lemma MixKeyUndone(k: Word)
    ensures UnmixKey(MixKey(k)) == k && MixKey(UnmixKey(k)) == k
  {
    hide Rotl, Times;
    ProductsUndone(k);
    RotationsUndone(Times(k, C1));
    ProductsUndone(Rotl(Times(k, C1), 15));
    RotationsUndone(Times(k, INVERSE_C2));
    ProductsUndone(Rotl(Times(k, INVERSE_C2), 17));
  }

  lemma AdvanceUndone(h: Word)
    ensures Retreat(Advance(h)) == h && Advance(Retreat(h)) == h
  {
    hide Times;
    TimesUndone(h, 5, 0xcccccccd, 4);
    assert (Advance(h) + 0x1_0000_0000 - 0xe6546b64) % 0x1_0000_0000 == Times(h, 5) by {
      ShiftOut(h * 5);
    }
    var r := (h + 0x1_0000_0000 - 0xe6546b64) % 0x1_0000_0000;
    TimesUndone(r, 0xcccccccd, 5, 4);
    assert Advance(Retreat(h)) == h by {
      TimesIs(Times(r, 0xcccccccd), 5);
      ShiftIn(Times(r, 0xcccccccd) * 5, r, h);
    }
  }

  lemma TimesIs(x: Word, c: nat)
    ensures Times(x, c) == x * c % 0x1_0000_0000
  {
  }

  lemma ShiftOut(n: nat)
    ensures ((n + 0xe6546b64) % 0x1_0000_0000 + 0x1_0000_0000 - 0xe6546b64) % 0x1_0000_0000 == n % 0x1_0000_0000
    ensures forall h: Word | n == h * 5 :: Times(h, 5) == n % 0x1_0000_0000
  {
    var v := (n + 0xe6546b64) % 0x1_0000_0000 + 0x1_0000_0000 - 0xe6546b64;
    var q := (n + 0xe6546b64) / 0x1_0000_0000;
    ModOf(v, n / 0x1_0000_0000 - q + 1, n % 0x1_0000_0000);
  }

  lemma ShiftIn(n: nat, r: Word, h: Word)
    requires r == (h + 0x1_0000_0000 - 0xe6546b64) % 0x1_0000_0000
    requires n % 0x1_0000_0000 == r
    ensures (n + 0xe6546b64) % 0x1_0000_0000 == h
  {
    var q := (h + 0x1_0000_0000 - 0xe6546b64) / 0x1_0000_0000;
    ModOf(n + 0xe6546b64, n / 0x1_0000_0000 + 1 - q, h);
  }

  lemma StepUndone(h: Word, k: Word)
    ensures XorWord(Unstep(Step(h, k)), MixKey(k)) == h
    ensures Step(XorWord(Unstep(h), MixKey(k)), k) == h
  {
    hide Rotl, MixKey, Advance, Retreat, Xor;
    XorTwice(h, MixKey(k));
    RotationsUndone(XorWord(h, MixKey(k)));
    AdvanceUndone(Rotl(XorWord(h, MixKey(k)), 13));
    XorTwice(Unstep(h), MixKey(k));
    RotationsUndone(Retreat(h));
    AdvanceUndone(h);
  }

  /** Finalization is a permutation of the words. */
  lemma FmixUndone(h: Word)
    ensures Unfmix(Fmix(h)) == h && Fmix(Unfmix(h)) == h
  {
    hide Fold, Unfold13, Times;
    var a := Fold(h, 16);
    var b, d := Times(a, F1), Times(a, INVERSE_F2);
    Fold16Undone(h);
    ProductsUndone(a);
    Fold13Undone(b);
    Fold13Undone(d);
    ProductsUndone(Fold(b, 13));
    ProductsUndone(Unfold13(d));
    Fold16Undone(Times(Fold(b, 13), F2));
    Fold16Undone(Times(Unfold13(d), INVERSE_F1));
  }

  // ----- the hash -----

  /** Four little-endian bytes as a word. */
  function Bytes(b0: byte, b1: byte, b2: byte, b3: byte): Word
  {
    b0 + 0x100 * b1 + 0x1_0000 * b2 + 0x100_0000 * b3
  }

  function Block(key: Key, i: nat): Word
    requires 4 * i + 4 <= |key|
  {
    Bytes(key[4 * i], key[4 * i + 1], key[4 * i + 2], key[4 * i + 3])
  }

  /** The hash after the first `n` blocks. */
  function Blocks(key: Key, n: nat, seed: Word): Word
    requires 4 * n <= |key|
  {
    if n == 0 then seed else Step(Blocks(key, n - 1, seed), Block(key, n - 1))
  }

  /** The seed from the hash after the first `n` blocks. */
  function Unblocks(key: Key, n: nat, h: Word): Word
    requires 4 * n <= |key|
  {
    if n == 0 then h else Unblocks(key, n - 1, XorWord(Unstep(h), MixKey(Block(key, n - 1))))
  }

  /** The last up to three bytes, as a word; without any, nothing is mixed in. */
  function TailWord(key: Key): Word
  {
    var t := |key| / 4 * 4;
    Bytes(if |key| % 4 >= 1 then key[t] else 0, if |key| % 4 >= 2 then key[t + 1] else 0,
          if |key| % 4 >= 3 then key[t + 2] else 0, 0)
  }

  function Tail(key: Key): Word
  {
    if |key| % 4 == 0 then 0 else MixKey(TailWord(key))
  }

  function Hash(key: Key, seed: Word): Word
  {
    Fmix(XorWord(XorWord(Blocks(key, |key| / 4, seed), Tail(key)), |key|))
  }

  function Unhash(key: Key, h: Word): Word
  {
    Unblocks(key, |key| / 4, XorWord(XorWord(Unfmix(h), |key|), Tail(key)))
  }

  /** The block loop, the tail and the finalization of the code. */
  method MurmurHash3(key: Key, seed: Word) returns (out: Word)
    ensures out == Hash(key, seed)
  {
    hide Step, Fmix, MixKey, XorWord, Block, TailWord;
    var nblocks := |key| / 4;
    var h1 := seed;
    var i := 0;
    while i < nblocks
      invariant i <= nblocks && h1 == Blocks(key, i, seed)
    {
      h1 := MixIn(h1, Block(key, i));
      i := i + 1;
    }
    if |key| % 4 >= 1 {
      var k1 := TailStatements(key);
      k1 := MixStatements(k1);
      h1 := XorWord(h1, k1);
    } else {
      XorWordZero(h1);
    }
    h1 := XorWord(h1, |key|);
    out := FmixStatements(h1);
  }

  /** The cases of the tail fall through into one another. */
  method TailStatements(key: Key) returns (k1: Word)
    requires |key| % 4 >= 1
    ensures k1 == TailWord(key)
  {
    hide XorWord, Bytes;
    var t, rest := |key| / 4 * 4, |key| % 4;
    assert t + rest == |key|;
    var b0: byte, b1: nat, b2: nat := key[t], 0, 0;
    k1 := 0;
    if rest >= 3 {
      b2 := key[t + 2];
      k1 := XorWord(k1, b2 * 0x1_0000);
    }
    if rest >= 2 {
      b1 := key[t + 1];
      k1 := XorWord(k1, b1 * 0x100);
    }
    k1 := XorWord(k1, b0);
    assert TailWord(key) == Bytes(b0, b1, b2, 0);
    TailBits(b0, b1, b2);
    assert rest == 1 || rest == 2 || rest == 3;
  }

  lemma XorWordZero(h: Word)
    ensures XorWord(h, 0) == h && XorWord(0, h) == h
  {
    XorZero(h);
    XorSymmetric(h, 0);
  }

  /** Bytes that do not overlap may be combined by exclusive or. */
  lemma TailBits(b0: byte, b1: byte, b2: byte)
    ensures XorWord(XorWord(XorWord(0, b2 * 0x1_0000), b1 * 0x100), b0) == Bytes(b0, b1, b2, 0)
    ensures XorWord(XorWord(0, b1 * 0x100), b0) == Bytes(b0, b1, 0, 0)
    ensures XorWord(0, b0) == Bytes(b0, 0, 0, 0)
  {
    hide Xor;
    Pow2Of32();
    XorWordZero(b2 * 0x1_0000);
    XorWordZero(b1 * 0x100);
    XorWordZero(b0);
    XorDisjoint(b2, b1 * 0x100, 16);
    XorDisjoint(b2 * 0x100 + b1, b0, 8);
    XorDisjoint(b1, b0, 8);
  }

  method MixStatements(key: Word) returns (k1: Word)
    ensures k1 == MixKey(key)
  {
    hide Rotl, Times;
    k1 := Times(key, C1);
    k1 := Rotl(k1, 15);
    k1 := Times(k1, C2);
  }

  method MixIn(h: Word, k: Word) returns (h1: Word)
    ensures h1 == Step(h, k)
  {
    hide Rotl, MixKey, Advance;
    var k1 := MixStatements(k);
    h1 := XorWord(h, k1);
    h1 := Rotl(h1, 13);
    h1 := Advance(h1);
  }

  method FmixStatements(word: Word) returns (h: Word)
    ensures h == Fmix(word)
  {
    hide Fold, Times;
    h := word;
    h := Fold(h, 16);
    h := Times(h, F1);
    h := Fold(h, 13);
    h := Times(h, F2);
    h := Fold(h, 16);
  }

  // ----- the seed -----

  lemma {:induction false} BlocksUndone(key: Key, n: nat, seed: Word)
    requires 4 * n <= |key|
    ensures Unblocks(key, n, Blocks(key, n, seed)) == seed
    ensures Blocks(key, n, Unblocks(key, n, seed)) == seed
  {
    hide Step, Unstep, MixKey;
    if n > 0 {
      var k := Block(key, n - 1);
      BlocksUndone(key, n - 1, seed);
      StepUndone(Blocks(key, n - 1, seed), k);
      BlocksUndone(key, n - 1, XorWord(Unstep(seed), MixKey(k)));
      StepUndone(seed, k);
    }
  }

  /** For a fixed key the hash is a permutation of the seeds: `Unhash` undoes it on both sides. */
  lemma SeedPermutation(key: Key, seed: Word)
    ensures Unhash(key, Hash(key, seed)) == seed
    ensures Hash(key, Unhash(key, seed)) == seed
  {
    hide Fmix, Unfmix, Tail, Blocks, Unblocks, Xor;
    var n, len, t := |key| / 4, |key|, Tail(key);
    var b := Blocks(key, n, seed);
    FmixUndone(XorWord(XorWord(b, t), len));
    XorTwice(XorWord(b, t), len);
    XorTwice(b, t);
    BlocksUndone(key, n, seed);
    var u := XorWord(XorWord(Unfmix(seed), len), t);
    BlocksUndone(key, n, u);
    XorTwice(XorWord(Unfmix(seed), len), t);
    XorTwice(Unfmix(seed), len);
    FmixUndone(seed);
  }

  // ----- the key -----

  lemma BytesInjective(a0: byte, a1: byte, a2: byte, a3: byte, b0: byte, b1: byte, b2: byte, b3: byte)
    requires Bytes(a0, a1, a2, a3) == Bytes(b0, b1, b2, b3)
    ensures a0 == b0 && a1 == b1 && a2 == b2 && a3 == b3
  {
    Peel(a0, a1 + 0x100 * a2 + 0x1_0000 * a3, b0, b1 + 0x100 * b2 + 0x1_0000 * b3);
    Peel(a1, a2 + 0x100 * a3, b1, b2 + 0x100 * b3);
    Peel(a2, a3, b2, b3);
  }

  lemma Peel(a: byte, x: nat, b: byte, y: nat)
    requires a + 0x100 * x == b + 0x100 * y
    ensures a == b && x == y
  {
  }

  /** The keys agree outside block `i`, where the tail counts as the block that is not full. */
  predicate AgreeOutsideBlock(a: Key, b: Key, i: nat)
  {
    |a| == |b| && forall j | 0 <= j < |a| && j / 4 != i :: a[j] == b[j]
  }

  lemma {:induction false} SameBlocks(a: Key, b: Key, n: nat, seed: Word)
    requires |a| == |b| && 4 * n <= |a| && a[..4 * n] == b[..4 * n]
    ensures Blocks(a, n, seed) == Blocks(b, n, seed)
  {
    hide Step;
    if n > 0 {
      assert forall j | 0 <= j < 4 * n :: a[j] == a[..4 * n][j] && b[j] == b[..4 * n][j];
      assert a[..4 * (n - 1)] == b[..4 * (n - 1)];
      SameBlocks(a, b, n - 1, seed);
    }
  }

  /** From block `i + 1` on, equal blocks carry equal hashes back and forth. */
  lemma {:induction false} LaterBlocks(a: Key, b: Key, i: nat, n: nat, seed: Word)
    requires AgreeOutsideBlock(a, b, i) && i < n && 4 * n <= |a|
    ensures Blocks(a, n, seed) == Blocks(b, n, seed) <==> Blocks(a, i + 1, seed) == Blocks(b, i + 1, seed)
    decreases n
  {
    hide Step, Unstep, MixKey;
    if n > i + 1 {
      LaterBlocks(a, b, i, n - 1, seed);
      assert Block(a, n - 1) == Block(b, n - 1) by {
        assert forall j | 4 * (n - 1) <= j < 4 * n :: j / 4 == n - 1;
      }
      StepUndone(Blocks(a, n - 1, seed), Block(a, n - 1));
      StepUndone(Blocks(b, n - 1, seed), Block(b, n - 1));
    }
  }

  lemma StepInjectiveInKey(h: Word, k: Word, l: Word)
    ensures Step(h, k) == Step(h, l) <==> k == l
  {
    hide Step, Unstep, MixKey, UnmixKey, XorWord;
    StepUndone(h, k);
    StepUndone(h, l);
    MixKeyUndone(k);
    MixKeyUndone(l);
    var u := Unstep(Step(h, k));
    XorCancel(u, MixKey(k), MixKey(l));
  }

  /**
    For a fixed seed, two keys of the same length that differ inside one 4-byte block only, or in the tail only,
    have different hashes.
   */
  lemma OneBlockNeverCollides(a: Key, b: Key, i: nat, seed: Word)
    requires AgreeOutsideBlock(a, b, i)
    ensures Hash(a, seed) == Hash(b, seed) <==> a == b
  {
    hide Fmix, Unfmix, MixKey, UnmixKey, Step, Blocks, TailWord, Tail, XorWord;
    var n := |a| / 4;
    var len := |a|;
    var x, y := Blocks(a, n, seed), Blocks(b, n, seed);
    FmixUndone(XorWord(XorWord(x, Tail(a)), len));
    FmixUndone(XorWord(XorWord(y, Tail(b)), len));
    XorCancel(len, XorWord(x, Tail(a)), XorWord(y, Tail(b)));
    if i < n {
      SameTail(a, b, i);
      XorCancel(Tail(a), x, y);
      OneBlock(a, b, i, seed);
    } else {
      assert a[..4 * n] == b[..4 * n];
      SameBlocks(a, b, n, seed);
      XorCancel(x, Tail(a), Tail(b));
      OneTail(a, b);
    }
  }

  lemma SameTail(a: Key, b: Key, i: nat)
    requires AgreeOutsideBlock(a, b, i) && i < |a| / 4
    ensures Tail(a) == Tail(b)
  {
    hide MixKey, Bytes;
    assert forall j | |a| / 4 * 4 <= j < |a| :: j / 4 == |a| / 4;
  }

  lemma OneBlock(a: Key, b: Key, i: nat, seed: Word)
    requires AgreeOutsideBlock(a, b, i) && i < |a| / 4
    ensures Blocks(a, |a| / 4, seed) == Blocks(b, |a| / 4, seed) <==> a == b
  {
    hide Step, Bytes;
    LaterBlocks(a, b, i, |a| / 4, seed);
    assert a[..4 * i] == b[..4 * i];
    SameBlocks(a, b, i, seed);
    StepInjectiveInKey(Blocks(a, i, seed), Block(a, i), Block(b, i));
    if Block(a, i) == Block(b, i) {
      BytesInjective(a[4 * i], a[4 * i + 1], a[4 * i + 2], a[4 * i + 3], b[4 * i], b[4 * i + 1], b[4 * i + 2], b[4 * i + 3]);
      assert forall j | 4 * i <= j < 4 * i + 4 :: a[j] == b[j];
      assert a == b;
    }
  }

  lemma OneTail(a: Key, b: Key)
    requires |a| == |b| && a[..|a| / 4 * 4] == b[..|a| / 4 * 4]
    ensures Tail(a) == Tail(b) <==> a == b
  {
    hide MixKey, UnmixKey, Bytes;
    var t := |a| / 4 * 4;
    MixKeyUndone(TailWord(a));
    MixKeyUndone(TailWord(b));
    if Tail(a) == Tail(b) {
      if |a| > t {
        BytesInjective(a[t], if |a| % 4 >= 2 then a[t + 1] else 0, if |a| % 4 >= 3 then a[t + 2] else 0, 0,
                      b[t], if |a| % 4 >= 2 then b[t + 1] else 0, if |a| % 4 >= 3 then b[t + 2] else 0, 0);
      }
      assert forall j | t <= j < |a| :: a[j] == b[j];
      assert forall j | 0 <= j < t :: a[j] == a[..t][j] && b[j] == b[..t][j];
      assert a == b;
    }
  }

  // ----- chained hashes -----

  const SMHASHER_SEED: Word := 0xc70f6907

  /** The hash of a tuple of strings: each component's hash is the seed of the next. */
  function Chain(parts: seq<Key>, seed: Word): Word
  {
    if parts == [] then seed else Chain(parts[1..], Hash(parts[0], seed))
  }

  method HashTuple(parts: seq<Key>) returns (seed: Word)
    ensures seed == Chain(parts, SMHASHER_SEED)
    ensures parts == [] ==> seed == 0xc70f6907
  {
    hide Hash;
    seed := SMHASHER_SEED;
    for i := 0 to |parts|
      invariant Chain(parts[i..], seed) == Chain(parts, SMHASHER_SEED)
    {
      assert parts[i..][0] == parts[i] && parts[i..][1..] == parts[i + 1..];
      seed := MurmurHash3(parts[i], seed);
    }
    assert parts[|parts|..] == [];
  }

  /** Chaining over fixed parts is injective in the seed. */
  lemma {:induction false} ChainInjective(parts: seq<Key>, s: Word, t: Word)
    ensures Chain(parts, s) == Chain(parts, t) <==> s == t
  {
    hide Hash, Unhash;
    if parts != [] {
      SeedPermutation(parts[0], s);
      SeedPermutation(parts[0], t);
      ChainInjective(parts[1..], Hash(parts[0], s), Hash(parts[0], t));
    }
  }

  lemma {:induction false} ChainSplit(a: seq<Key>, b: seq<Key>, seed: Word)
    ensures Chain(a + b, seed) == Chain(b, Chain(a, seed))
  {
    hide Hash;
    if a == [] {
      assert a + b == b;
    } else {
      assert (a + b)[1..] == a[1..] + b;
      ChainSplit(a[1..], b, Hash(a[0], seed));
    }
  }

  /** Tuples with equal last parts collide exactly when their first parts do. */
  lemma EqualSuffixCollides(a: seq<Key>, b: seq<Key>, suffix: seq<Key>)
    ensures Chain(a + suffix, SMHASHER_SEED) == Chain(b + suffix, SMHASHER_SEED)
       <==> Chain(a, SMHASHER_SEED) == Chain(b, SMHASHER_SEED)
  {
    ChainSplit(a, suffix, SMHASHER_SEED);
    ChainSplit(b, suffix, SMHASHER_SEED);
    ChainInjective(suffix, Chain(a, SMHASHER_SEED), Chain(b, SMHASHER_SEED));
  }

  /** Changing one block of one component of a tuple always changes the hash. */
  lemma OneBlockOfTuple(before: seq<Key>, a: Key, b: Key, i: nat, after: seq<Key>)
    requires AgreeOutsideBlock(a, b, i)
    ensures Chain(before + [a] + after, SMHASHER_SEED) == Chain(before + [b] + after, SMHASHER_SEED) <==> a == b
  {
    hide Hash;
    EqualSuffixCollides(before + [a], before + [b], after);
    ChainSplit(before, [a], SMHASHER_SEED);
    ChainSplit(before, [b], SMHASHER_SEED);
    var seed := Chain(before, SMHASHER_SEED);
    assert Chain([a], seed) == Hash(a, seed) && Chain([b], seed) == Hash(b, seed);
    OneBlockNeverCollides(a, b, i, seed);
  }
}
