/** The receiver's deterministic loss injector.

    The percentage on the command line has already become the integer `threshold`. */
module Dropper {
  import opened Words

  const GAMMA: u64 := 0x9e37_79b9_7f4a_7c15
  const MUL_1: u64 := 0xbf58_476d_1ce4_e5b9
  const MUL_2: u64 := 0x94d0_49bb_1331_11eb
  const SEED_MUL: u64 := 0x9e37_79b9
  /** The threshold for "100 percent and more". */
  const FULL: u64 := TWO_64 - 1
  // Inverses of the multipliers modulo 2^64.
  const INV_1: u64 := 0x96de_1b17_3f11_9089
  const INV_SEED: u64 := 0xe85e_e980_144c_bc89
  const INV_2: u64 := 0x3196_42b2_d24d_8ec3

  // ---- The program ----

  function XorShr(x: u64, k: nat): u64 {
    XorShrBound(x, k);
    BitXor(x, Shr(x, k))
  }

  function MulWrap(x: u64, c: u64): u64 {
    (x * c) % TWO_64
  }

  function AddWrap(x: u64, c: u64): u64 {
    (x + c) % TWO_64
  }

  function Round(x: u64, k: nat, c: u64): u64 {
    MulWrap(XorShr(x, k), c)
  }

  function SplitMix64(x: u64): u64 {
    XorShr(Round(Round(AddWrap(x, GAMMA), 30, MUL_1), 27, MUL_2), 31)
  }

  /** The id of a copy of a datagram in one word. */
  function Unsalted(dgramId: u32, streamId: u16): nat {
    BitXor(dgramId * TWO_16, streamId)
  }

  /** The word a copy of a datagram is hashed by. */
  function Key(dgramId: u32, streamId: u16, seed: u64): u64 {
    KeyBound(dgramId, streamId, seed);
    BitXor(Unsalted(dgramId, streamId), MulWrap(seed, SEED_MUL))
  }

  predicate Drop(threshold: u64, seed: u64, dgramId: u32, streamId: u16) {
    threshold != 0 && SplitMix64(Key(dgramId, streamId, seed)) < threshold
  }

  lemma XorShrBound(x: u64, k: nat)
    ensures BitXor(x, Shr(x, k)) < TWO_64
  {
    Pow2Values();
    ShrShrinks(x, k);
    XorBound(x, Shr(x, k), 64);
  }

  lemma ShrShrinks(x: nat, k: nat)
    ensures Shr(x, k) <= x
    decreases k
  {
  }

  lemma UnsaltedIsSum(dgramId: u32, streamId: u16)
    ensures Unsalted(dgramId, streamId) == dgramId * TWO_16 + streamId
  {
    Pow2Values();
    XorDisjoint(dgramId, streamId, 16);
  }

  lemma KeyBound(dgramId: u32, streamId: u16, seed: u64)
    ensures BitXor(Unsalted(dgramId, streamId), MulWrap(seed, SEED_MUL)) < TWO_64
  {
    UnsaltedIsSum(dgramId, streamId);
    Pow2Values();
    XorBound(Unsalted(dgramId, streamId), MulWrap(seed, SEED_MUL), 64);
  }

  // ---- SplitMix64 is a bijection ----

  /** Undoes XorShr for shifts of at least 22. */
  function UnXorShr(y: u64, k: nat): u64 {
    XorShrBound(y, k);
    Pow2Values();
    ShrShrinks(y, 2 * k);
    XorBound(BitXor(y, Shr(y, k)), Shr(y, 2 * k), 64);
    BitXor(BitXor(y, Shr(y, k)), Shr(y, 2 * k))
  }

  function UnRound(y: u64, k: nat, inv: u64): u64 {
    UnXorShr(MulWrap(y, inv), k)
  }

  function UnSplitMix64(y: u64): u64 {
    AddWrap(UnRound(UnRound(UnXorShr(y, 31), 27, INV_2), 30, INV_1), TWO_64 - GAMMA)
  }

  lemma {:induction false} ShrOut(x: u64, k: nat)
    requires k >= 64
    ensures Shr(x, k) == 0
  {
    Pow2Values();
    Pow2Monotone(64, k);
    ShrIsDiv(x, k);
    DivModUnique(x, Pow2(k), 0, x);
  }

  lemma {:induction false} XorShrInverse(x: u64, k: nat)
    requires 3 * k >= 64
    ensures UnXorShr(XorShr(x, k), k) == x
    ensures XorShr(UnXorShr(x, k), k) == x
  {
    var x1, x2 := Shr(x, k), Shr(x, 2 * k);
    ShrCompose(x, k, k);
    ShrCompose(x, k, 2 * k);
    ShrCompose(x, 2 * k, k);
    ShrOut(x, 3 * k);
    // Forwards then back: (x ^ x1) ^ (x1 ^ x2) ^ x2.
    var y := XorShr(x, k);
    XorShift(x, x1, k);
    XorShift(x, x1, 2 * k);
    calc {
      BitXor(BitXor(y, BitXor(x1, x2)), x2);
      { XorAssoc(y, BitXor(x1, x2), x2); XorCancel(x1, x2); }
      BitXor(y, x1);
      { XorCancel(x, x1); }
      x;
    }
    // Back then forwards: (x ^ x1 ^ x2) ^ (x1 ^ x2).
    XorShift(BitXor(x, x1), x2, k);
    XorAssoc(x, x1, x2);
    XorCancel(x, BitXor(x1, x2));
  }

  lemma {:induction false} MulInverse(x: u64, c: u64, inv: u64)
    requires c * inv % TWO_64 == 1
    ensures MulWrap(MulWrap(x, c), inv) == x
  {
    var q := x * c / TWO_64;
    var t := c * inv / TWO_64;
    var r := MulWrap(x, c);
    calc {
      r * inv;
      { assert r == x * c - q * TWO_64; }
      (x * c - q * TWO_64) * inv;
      { Distribute(x * c, q * TWO_64, inv); }
      x * c * inv - q * TWO_64 * inv;
      { Regroup(x, c, inv); Regroup(q, TWO_64, inv); assert c * inv == t * TWO_64 + 1; }
      x * (t * TWO_64 + 1) - q * (TWO_64 * inv);
      { Factor(x, t, q, inv); }
      (x * t - q * inv) * TWO_64 + x;
    }
    DivModUnique(r * inv, TWO_64, x * t - q * inv, x);
  }

  lemma Distribute(a: int, b: int, c: int)
    ensures (a - b) * c == a * c - b * c
  {
  }

  lemma Regroup(a: int, b: int, c: int)
    ensures a * b * c == a * (b * c)
  {
  }

  lemma Factor(x: int, t: int, q: int, inv: int)
    ensures x * (t * TWO_64 + 1) - q * (TWO_64 * inv) == (x * t - q * inv) * TWO_64 + x
  {
    assert x * (t * TWO_64) == (x * t) * TWO_64;
    assert q * (TWO_64 * inv) == (q * inv) * TWO_64;
    assert x * (t * TWO_64 + 1) == x * (t * TWO_64) + x;
  }

  lemma AddInverse(x: u64, c: u64)
    requires c > 0
    ensures AddWrap(AddWrap(x, c), TWO_64 - c) == x
    ensures AddWrap(AddWrap(x, TWO_64 - c), c) == x
  {
  }

  /** The mixer is a bijection on 64-bit words. */
  lemma {:induction false} SplitMixBijective(x: u64)
    ensures UnSplitMix64(SplitMix64(x)) == x
    ensures SplitMix64(UnSplitMix64(x)) == x
  {
    SplitMixForth(x);
    SplitMixBack(x);
  }

  lemma {:induction false} RoundInverse(x: u64, k: nat, c: u64, inv: u64)
    requires 3 * k >= 64 && c * inv % TWO_64 == 1
    ensures UnRound(Round(x, k, c), k, inv) == x
    ensures Round(UnRound(x, k, inv), k, c) == x
  {
    MulInverse(XorShr(x, k), c, inv);
    XorShrInverse(x, k);
    MulInverse(x, inv, c);
    XorShrInverse(MulWrap(x, inv), k);
  }

  lemma RoundInverses(x: u64)
    ensures UnRound(Round(x, 30, MUL_1), 30, INV_1) == x == Round(UnRound(x, 30, INV_1), 30, MUL_1)
    ensures UnRound(Round(x, 27, MUL_2), 27, INV_2) == x == Round(UnRound(x, 27, INV_2), 27, MUL_2)
  {
    OddMultipliers();
    RoundInverse(x, 30, MUL_1, INV_1);
    RoundInverse(x, 27, MUL_2, INV_2);
  }

  lemma OddMultipliers()
    ensures MUL_1 * INV_1 % TWO_64 == 1 && MUL_2 * INV_2 % TWO_64 == 1
  {
  }

  lemma {:induction false} SplitMixForth(x: u64)
    ensures UnSplitMix64(SplitMix64(x)) == x
  {
    var a := AddWrap(x, GAMMA);
    var b := Round(a, 30, MUL_1);
    XorShrInverse(Round(b, 27, MUL_2), 31);
    RoundInverses(b);
    RoundInverses(a);
    AddInverse(x, GAMMA);
  }

  lemma {:induction false} SplitMixBack(y: u64)
    ensures SplitMix64(UnSplitMix64(y)) == y
  {
    var a := UnXorShr(y, 31);
    var b := UnRound(a, 27, INV_2);
    AddInverse(UnRound(b, 30, INV_1), GAMMA);
    RoundInverses(b);
    RoundInverses(a);
    XorShrInverse(y, 31);
  }

  // ---- Draws ----

  lemma {:induction false} KeyInjective(d1: u32, s1: u16, d2: u32, s2: u16, seed: u64)
    requires Key(d1, s1, seed) == Key(d2, s2, seed)
    ensures d1 == d2 && s1 == s2
  {
    assert Unsalted(d1, s1) == Unsalted(d2, s2) by {
      XorCancel(Unsalted(d1, s1), MulWrap(seed, SEED_MUL));
      XorCancel(Unsalted(d2, s2), MulWrap(seed, SEED_MUL));
    }
    UnsaltedIsSum(d1, s1);
    UnsaltedIsSum(d2, s2);
  }

  /** For one seed no two copies of datagrams, of the same or of different streams, share a draw. */
  lemma {:induction false} DrawsDistinct(d1: u32, s1: u16, d2: u32, s2: u16, seed: u64)
    ensures SplitMix64(Key(d1, s1, seed)) == SplitMix64(Key(d2, s2, seed)) <==> d1 == d2 && s1 == s2
  {
    var k1, k2 := Key(d1, s1, seed), Key(d2, s2, seed);
    if SplitMix64(k1) == SplitMix64(k2) {
      SplitMixForth(k1);
      SplitMixForth(k2);
      KeyInjective(d1, s1, d2, s2, seed);
    }
  }

  /** The words that `mix` sends below `threshold`. */
  ghost function Below(mix: u64 -> u64, threshold: nat): set<int>
    requires threshold <= TWO_64
  {
    set key: int | 0 <= key < TWO_64 && mix(key) < threshold
  }

  /** A bijection on words sends exactly `threshold` of them below `threshold`. */
  lemma {:induction false} BijectionCounts(mix: u64 -> u64, unmix: u64 -> u64, threshold: nat)
    requires threshold <= TWO_64
    requires forall x: u64 :: unmix(mix(x)) == x && mix(unmix(x)) == x
    ensures |Below(mix, threshold)| == threshold
  {
    if threshold == 0 {
      assert Below(mix, 0) == {};
    } else {
      BijectionCounts(mix, unmix, threshold - 1);
      var next := unmix(threshold - 1);
      assert Below(mix, threshold) == Below(mix, threshold - 1) + {next};
    }
  }

  /** The keys that drop at a threshold. */
  ghost function DroppedKeys(threshold: nat): set<int>
    requires threshold <= TWO_64
  {
    Below(SplitMix64, threshold)
  }

  /** Over the whole key space exactly `threshold` keys drop, and raising it only adds keys. */
  lemma {:induction false} DroppedExactly(threshold: nat)
    requires threshold <= TWO_64
    ensures |DroppedKeys(threshold)| == threshold
    ensures forall lower: nat :: lower <= threshold ==> DroppedKeys(lower) <= DroppedKeys(threshold)
  {
    forall x: u64
      ensures UnSplitMix64(SplitMix64(x)) == x && SplitMix64(UnSplitMix64(x)) == x
    {
      SplitMixBijective(x);
    }
    BijectionCounts(SplitMix64, UnSplitMix64, threshold);
  }

  /** The injector at any threshold is membership in the dropped keys; in particular the largest
      threshold, which the program uses for "100 percent and more", still lets one key through. */
  lemma {:induction false} DropIffKeyDropped(threshold: u64, seed: u64, d: u32, s: u16)
    ensures Drop(threshold, seed, d, s) <==> Key(d, s, seed) in DroppedKeys(threshold)
    ensures Drop(FULL, seed, d, s) <==> Key(d, s, seed) != UnSplitMix64(FULL)
  {
    SplitMixForth(Key(d, s, seed));
    SplitMixBack(FULL);
  }

  /** The key that the largest threshold spares. */
  function SparedKey(): u64 {
    UnSplitMix64(FULL)
  }

  /** Some copy of some datagram gets past the injector at "100 percent". */
  ghost predicate Spares(seed: u64) {
    exists d: u32, s: u16 :: !Drop(FULL, seed, d, s)
  }

  lemma {:induction false} SparedIff(seed: u64, d: u32, s: u16)
    ensures !Drop(FULL, seed, d, s) <==> BitXor(SparedKey(), MulWrap(seed, SEED_MUL)) == d * TWO_16 + s
  {
    DropIffKeyDropped(FULL, seed, d, s);
    UnsaltedIsSum(d, s);
    XorCancel(Unsalted(d, s), MulWrap(seed, SEED_MUL));
    XorCancel(SparedKey(), MulWrap(seed, SEED_MUL));
  }

  /** Datagram and stream ids fill 48 bits of a key, so whether the spared key belongs to a copy depends
      on the seed alone. */
  lemma {:induction false} SparesIff(seed: u64)
    ensures Spares(seed) <==> BitXor(SparedKey(), MulWrap(seed, SEED_MUL)) < TWO_32 * TWO_16
  {
    var salt := MulWrap(seed, SEED_MUL);
    var u := BitXor(SparedKey(), salt);
    if Spares(seed) {
      var d: u32, s: u16 :| !Drop(FULL, seed, d, s);
      SparedIff(seed, d, s);
    }
    if u < TWO_32 * TWO_16 {
      var d: u32, s: u16 := u / TWO_16, u % TWO_16;
      SparedIff(seed, d, s);
    }
  }

  /** The seed that salts keys with a given word. */
  function SeedFor(salt: u64): u64 {
    MulWrap(salt, INV_SEED)
  }

  lemma SeedSalts(salt: u64)
    ensures MulWrap(SeedFor(salt), SEED_MUL) == salt
  {
    MulInverse(salt, INV_SEED, SEED_MUL);
  }

  /** With one seed the copy of datagram 0 on stream 0 is spared, with another nothing is. */
  lemma {:induction false} SparingSeeds()
    ensures !Drop(FULL, SeedFor(SparedKey()), 0, 0)
    ensures BitXor(SparedKey(), TWO_64 / 2) < TWO_64 && !Spares(SeedFor(BitXor(SparedKey(), TWO_64 / 2)))
  {
    Pow2Values();
    var key: u64, half: u64 := SparedKey(), TWO_64 / 2;
    SeedSalts(key);
    UnsaltedIsSum(0, 0);
    DropIffKeyDropped(FULL, SeedFor(key), 0, 0);
    XorBound(key, half, 64);
    SeedSalts(BitXor(key, half));
    XorAssoc(key, key, half);
    XorSelf(key);
    SparesIff(SeedFor(BitXor(key, half)));
  }
}
