/** What the injector's mixer computes, and its decision on single copies. */
module DropperLaws {
  import opened Words
  import opened Dropper

  // ---- The rounds ----

  /** Bit k of x ^ (x >> s) on 64-bit words. */
  predicate ShiftedAt(y: u64, x: u64, s: nat, k: nat) {
    Bit(y, k) == (Bit(x, k) != (k + s < 64 && Bit(x, k + s)))
  }

  /** y is x ^ (x >> s), bit by bit. */
  predicate XorShifted(y: u64, x: u64, s: nat) {
    forall k: nat :: k < 64 ==> ShiftedAt(y, x, s, k)
  }

  lemma {:induction false} HighBits(x: nat, n: nat, k: nat)
    requires x < Pow2(n) && n <= k
    ensures !Bit(x, k)
    decreases n
  {
    if n == 0 {
      BitZero(k);
    } else {
      HighBits(x / 2, n - 1, k - 1);
    }
  }

  lemma {:induction false} XorShrShifts(x: u64, s: nat)
    ensures XorShifted(XorShr(x, s), x, s)
  {
    forall k: nat | k < 64
      ensures ShiftedAt(XorShr(x, s), x, s, k)
    {
      BitXorAt(x, Shr(x, s), k);
      BitShr(x, s, k);
      if k + s >= 64 {
        Pow2Values();
        HighBits(x, 64, k + s);
      }
    }
  }

  /** z is SplitMix64 of x: an addition, and three xor-shifts with a multiplication after each of the
      first two, on 64-bit words. */
  ghost predicate Mixes(x: u64, z: u64) {
    exists a: u64, b: u64 ::
      && XorShifted(a, (x + 0x9e37_79b9_7f4a_7c15) % 0x1_0000_0000_0000_0000, 30)
      && XorShifted(b, a * 0xbf58_476d_1ce4_e5b9 % 0x1_0000_0000_0000_0000, 27)
      && XorShifted(z, b * 0x94d0_49bb_1331_11eb % 0x1_0000_0000_0000_0000, 31)
  }

  lemma {:induction false} SplitMixMixes(x: u64)
    ensures Mixes(x, SplitMix64(x))
  {
    var a := XorShr(AddWrap(x, GAMMA), 30);
    XorShrShifts(AddWrap(x, GAMMA), 30);
    var b := XorShr(MulWrap(a, MUL_1), 27);
    XorShrShifts(MulWrap(a, MUL_1), 27);
    XorShrShifts(MulWrap(b, MUL_2), 31);
    assert SplitMix64(x) == XorShr(MulWrap(b, MUL_2), 31);
  }

  /** A word is its bits. */
  lemma {:induction false} SameBits(y: nat, z: nat, n: nat)
    requires y < Pow2(n) && z < Pow2(n) && forall k :: 0 <= k < n ==> Bit(y, k) == Bit(z, k)
    ensures y == z
  {
    if n > 0 {
      assert Bit(y, 0) == Bit(z, 0);
      forall k | 0 <= k < n - 1
        ensures Bit(y / 2, k) == Bit(z / 2, k)
      {
        assert Bit(y, k + 1) == Bit(z, k + 1);
      }
      SameBits(y / 2, z / 2, n - 1);
      SameHalves(y, z);
    }
  }

  lemma {:induction false} ShiftedUnique(y: u64, z: u64, x: u64, s: nat)
    requires XorShifted(y, x, s) && XorShifted(z, x, s)
    ensures y == z
  {
    forall k | 0 <= k < 64
      ensures Bit(y, k) == Bit(z, k)
    {
      assert ShiftedAt(y, x, s, k) && ShiftedAt(z, x, s, k);
    }
    Pow2Values();
    SameBits(y, z, 64);
  }

  /** The rounds determine the result: SplitMix64 computes them and nothing else does. */
  lemma {:induction false} SplitMixIff(x: u64, z: u64)
    ensures z == SplitMix64(x) <==> Mixes(x, z)
  {
    SplitMixMixes(x);
    if Mixes(x, z) {
      var a: u64, b: u64 :|
        && XorShifted(a, (x + 0x9e37_79b9_7f4a_7c15) % 0x1_0000_0000_0000_0000, 30)
        && XorShifted(b, a * 0xbf58_476d_1ce4_e5b9 % 0x1_0000_0000_0000_0000, 27)
        && XorShifted(z, b * 0x94d0_49bb_1331_11eb % 0x1_0000_0000_0000_0000, 31);
      var c: u64, d: u64 :|
        && XorShifted(c, (x + 0x9e37_79b9_7f4a_7c15) % 0x1_0000_0000_0000_0000, 30)
        && XorShifted(d, c * 0xbf58_476d_1ce4_e5b9 % 0x1_0000_0000_0000_0000, 27)
        && XorShifted(SplitMix64(x), d * 0x94d0_49bb_1331_11eb % 0x1_0000_0000_0000_0000, 31);
      ShiftedUnique(a, c, (x + 0x9e37_79b9_7f4a_7c15) % 0x1_0000_0000_0000_0000, 30);
      ShiftedUnique(b, d, a * 0xbf58_476d_1ce4_e5b9 % 0x1_0000_0000_0000_0000, 27);
      ShiftedUnique(z, SplitMix64(x), b * 0x94d0_49bb_1331_11eb % 0x1_0000_0000_0000_0000, 31);
    }
  }

  /** The key of a copy: the ids side by side, salted with a multiple of the seed. */
  lemma {:induction false} KeyIs(d: u32, s: u16, seed: u64)
    ensures Key(d, s, seed) == BitXor(d * 0x1_0000 + s, seed * 0x9e37_79b9 % 0x1_0000_0000_0000_0000)
  {
    UnsaltedIsSum(d, s);
  }

  /** A copy is dropped iff the mix of its key lies below the threshold. */
  lemma {:induction false} DropIff(threshold: u64, seed: u64, d: u32, s: u16, z: u64)
    requires Mixes(Key(d, s, seed), z)
    ensures Drop(threshold, seed, d, s) <==> z < threshold
  {
    SplitMixIff(Key(d, s, seed), z);
  }

  // ---- Known values ----

  /** One per cent of all words. */
  const ONE_PERCENT: u64 := 0x28f_5c28_f5c2_8f60

  /** One more bit at the bottom of both operands. */
  lemma XorBit(u: nat, v: nat, a: nat, b: nat, x: nat, y: nat)
    requires u == 2 * a + x && v == 2 * b + y && x < 2 && y < 2
    ensures BitXor(u, v) == 2 * BitXor(a, b) + if x == y then 0 else 1
  {
    XorHalves(u, v);
    assert u / 2 == a && v / 2 == b;
  }

  lemma {:induction false} XorBits(u: nat, v: nat, a: nat, b: nat, x3: nat, x2: nat, x1: nat, x0: nat,
                                   y3: nat, y2: nat, y1: nat, y0: nat)
    requires x3 < 2 && x2 < 2 && x1 < 2 && x0 < 2 && y3 < 2 && y2 < 2 && y1 < 2 && y0 < 2
    requires u == 16 * a + 8 * x3 + 4 * x2 + 2 * x1 + x0 && v == 16 * b + 8 * y3 + 4 * y2 + 2 * y1 + y0
    ensures BitXor(u, v) ==
            16 * BitXor(a, b) + (if x3 == y3 then 0 else 8) + (if x2 == y2 then 0 else 4) +
            (if x1 == y1 then 0 else 2) + (if x0 == y0 then 0 else 1)
  {
    var u3, v3 := 2 * a + x3, 2 * b + y3;
    var u2, v2 := 2 * u3 + x2, 2 * v3 + y2;
    var u1, v1 := 2 * u2 + x1, 2 * v2 + y1;
    XorBit(u3, v3, a, b, x3, y3);
    XorBit(u2, v2, u3, v3, x2, y2);
    XorBit(u1, v1, u2, v2, x1, y1);
    XorBit(u, v, u1, v1, x0, y0);
  }

  /** What is left of x below its bit of weight w. */
  function Rest(x: nat, w: nat): nat {
    if x >= w then x - w else x
  }

  /** Exclusive or of two four-bit digits. */
  function XorDigit(x: nat, y: nat): nat {
    var x2, y2 := Rest(x, 8), Rest(y, 8);
    var x1, y1 := Rest(x2, 4), Rest(y2, 4);
    var x0, y0 := Rest(x1, 2), Rest(y1, 2);
    (if (x >= 8) == (y >= 8) then 0 else 8) + (if (x2 >= 4) == (y2 >= 4) then 0 else 4) +
    (if (x1 >= 2) == (y1 >= 2) then 0 else 2) + (if x0 == y0 then 0 else 1)
  }

  function Has(b: bool): nat {
    if b then 1 else 0
  }

  lemma DigitBits(x: nat)
    requires x < 16
    ensures var x2 := Rest(x, 8);
            var x1 := Rest(x2, 4);
            var x0 := Rest(x1, 2);
            x == 8 * Has(x >= 8) + 4 * Has(x2 >= 4) + 2 * Has(x1 >= 2) + x0 && x0 < 2
  {
  }

  lemma {:induction false} XorLow4(a: nat, b: nat, x: nat, y: nat)
    requires x < 16 && y < 16
    ensures BitXor(16 * a + x, 16 * b + y) == 16 * BitXor(a, b) + XorDigit(x, y)
  {
    var x2, y2 := Rest(x, 8), Rest(y, 8);
    var x1, y1 := Rest(x2, 4), Rest(y2, 4);
    var x0, y0 := Rest(x1, 2), Rest(y1, 2);
    DigitBits(x);
    DigitBits(y);
    XorBits(16 * a + x, 16 * b + y, a, b, Has(x >= 8), Has(x2 >= 4), Has(x1 >= 2), x0,
            Has(y >= 8), Has(y2 >= 4), Has(y1 >= 2), y0);
  }

  /** Sixteen digits of four bits, the highest first. */
  predicate Word(b: seq<nat>) {
    && |b| == 16
    && b[0] < 16 && b[1] < 16 && b[2] < 16 && b[3] < 16 && b[4] < 16 && b[5] < 16 && b[6] < 16 && b[7] < 16
    && b[8] < 16 && b[9] < 16 && b[10] < 16 && b[11] < 16 && b[12] < 16 && b[13] < 16 && b[14] < 16 && b[15] < 16
  }

  /** The number made of four digits. */
  function Four(a: nat, b: nat, c: nat, d: nat): nat {
    4096 * a + 256 * b + 16 * c + d
  }

  function Value(b: seq<nat>): nat
    requires Word(b)
  {
    0x1_0000_0000_0000 * Four(b[0], b[1], b[2], b[3]) + 0x1_0000_0000 * Four(b[4], b[5], b[6], b[7]) +
    0x1_0000 * Four(b[8], b[9], b[10], b[11]) + Four(b[12], b[13], b[14], b[15])
  }

  /** z is x ^ y, digit by digit. */
  predicate Differ(x: seq<nat>, y: seq<nat>, z: seq<nat>) {
    && Word(x) && Word(y) && Word(z)
    && XorDigit(x[0], y[0]) == z[0] && XorDigit(x[1], y[1]) == z[1]
    && XorDigit(x[2], y[2]) == z[2] && XorDigit(x[3], y[3]) == z[3]
    && XorDigit(x[4], y[4]) == z[4] && XorDigit(x[5], y[5]) == z[5]
    && XorDigit(x[6], y[6]) == z[6] && XorDigit(x[7], y[7]) == z[7]
    && XorDigit(x[8], y[8]) == z[8] && XorDigit(x[9], y[9]) == z[9]
    && XorDigit(x[10], y[10]) == z[10] && XorDigit(x[11], y[11]) == z[11]
    && XorDigit(x[12], y[12]) == z[12] && XorDigit(x[13], y[13]) == z[13]
    && XorDigit(x[14], y[14]) == z[14] && XorDigit(x[15], y[15]) == z[15]
  }

  /** The number made of the first n digits. */
  function Prefix(b: seq<nat>, n: nat): nat
    requires n <= |b|
    decreases n
  {
    if n == 0 then 0 else 16 * Prefix(b, n - 1) + b[n - 1]
  }

  lemma PrefixFour(b: seq<nat>, n: nat)
    requires n + 4 <= |b|
    ensures Prefix(b, n + 4) == 65536 * Prefix(b, n) + Four(b[n], b[n + 1], b[n + 2], b[n + 3])
  {
    assert Prefix(b, n + 2) == 16 * Prefix(b, n + 1) + b[n + 1];
    assert Prefix(b, n + 3) == 16 * Prefix(b, n + 2) + b[n + 2];
  }

  lemma PrefixWhole(b: seq<nat>)
    requires Word(b)
    ensures Prefix(b, 16) == Value(b) < TWO_64
  {
    PrefixFour(b, 0);
    PrefixFour(b, 4);
    PrefixFour(b, 8);
    PrefixFour(b, 12);
  }

  lemma {:induction false} XorPrefix(x: seq<nat>, y: seq<nat>, z: seq<nat>, n: nat)
    requires n <= |x| == |y| == |z|
    requires forall i :: 0 <= i < n ==> x[i] < 16 && y[i] < 16 && XorDigit(x[i], y[i]) == z[i]
    ensures BitXor(Prefix(x, n), Prefix(y, n)) == Prefix(z, n)
    decreases n
  {
    if n > 0 {
      XorPrefix(x, y, z, n - 1);
      XorLow4(Prefix(x, n - 1), Prefix(y, n - 1), x[n - 1], y[n - 1]);
    }
  }

  lemma {:induction false} XorWords(x: seq<nat>, y: seq<nat>, z: seq<nat>)
    requires Differ(x, y, z)
    ensures BitXor(Value(x), Value(y)) == Value(z)
  {
    XorPrefix(x, y, z, 16);
    PrefixWhole(x);
    PrefixWhole(y);
    PrefixWhole(z);
  }

  /** y is x ^ w, and w is x shifted right by s, where 2^s == p. */
  predicate Shifts(x: seq<nat>, p: nat, w: seq<nat>, y: seq<nat>) {
    Differ(x, w, y) && Value(w) * p <= Value(x) < Value(w) * p + p
  }

  lemma {:induction false} ShiftsIs(x: seq<nat>, s: nat, p: nat, w: seq<nat>, y: seq<nat>)
    requires Shifts(x, p, w, y) && Pow2(s) == p
    ensures Value(x) < TWO_64 && XorShr(Value(x), s) == Value(y)
  {
    PrefixWhole(x);
    ShrIsDiv(Value(x), s);
    DivModUnique(Value(x), p, Value(w), Value(x) - Value(w) * p);
    XorWords(x, w, y);
  }

  lemma Powers()
    ensures Pow2(27) == 0x800_0000 && Pow2(30) == 0x4000_0000 && Pow2(31) == 0x8000_0000
  {
    Pow2Values();
    Pow2Add(27, 5);
    Pow2Add(30, 2);
  }

  /** z is m * x modulo 2^64. */
  predicate Times(x: seq<nat>, m: nat, z: seq<nat>, q: nat) {
    Word(x) && Word(z) && Value(x) * m == q * 0x1_0000_0000_0000_0000 + Value(z)
  }

  lemma TimesIs(x: seq<nat>, m: u64, z: seq<nat>, q: nat)
    requires Times(x, m, z, q)
    ensures Value(x) < TWO_64 && MulWrap(Value(x), m) == Value(z)
  {
    PrefixWhole(x);
    PrefixWhole(z);
    DivModUnique(Value(x) * m, TWO_64, q, Value(z));
  }

  /** The intermediate words of SplitMix64, with the shifted ones and the two quotients. */
  datatype Trace = Trace(a: seq<nat>, aw: seq<nat>, b: seq<nat>, q: nat, c: seq<nat>, cw: seq<nat>, d: seq<nat>,
                         r: nat, e: seq<nat>, ew: seq<nat>, z: seq<nat>)

  predicate Starts(x: u64, t: Trace) {
    Word(t.a) && Value(t.a) == (x + 0x9e37_79b9_7f4a_7c15) % 0x1_0000_0000_0000_0000
  }

  predicate Multiplies(t: Trace) {
    Times(t.b, 0xbf58_476d_1ce4_e5b9, t.c, t.q) && Times(t.d, 0x94d0_49bb_1331_11eb, t.e, t.r)
  }

  predicate Mixing(x: u64, t: Trace) {
    && Starts(x, t) && Multiplies(t)
    && Shifts(t.a, 0x4000_0000, t.aw, t.b) && Shifts(t.c, 0x800_0000, t.cw, t.d)
    && Shifts(t.e, 0x8000_0000, t.ew, t.z)
  }

  lemma {:induction false} Evaluates(x: u64, t: Trace)
    requires Mixing(x, t)
    ensures SplitMix64(x) == Value(t.z)
  {
    Powers();
    ShiftsIs(t.a, 30, 0x4000_0000, t.aw, t.b);
    TimesIs(t.b, MUL_1, t.c, t.q);
    ShiftsIs(t.c, 27, 0x800_0000, t.cw, t.d);
    TimesIs(t.d, MUL_2, t.e, t.r);
    ShiftsIs(t.e, 31, 0x8000_0000, t.ew, t.z);
  }

  function ZeroWords(): Trace {
    Trace([9, 14, 3, 7, 7, 9, 11, 9, 7, 15, 4, 10, 7, 12, 1, 5], [0, 0, 0, 0, 0, 0, 0, 2, 7, 8, 13, 13, 14, 6, 14, 5],
          [9, 14, 3, 7, 7, 9, 11, 11, 0, 7, 9, 7, 9, 10, 15, 0], 0x7641_f309_3531_f526,
          [6, 15, 6, 8, 2, 6, 1, 11, 5, 7, 14, 7, 10, 7, 7, 0], [0, 0, 0, 0, 0, 0, 0, 13, 14, 13, 0, 4, 12, 3, 6, 10],
          [6, 15, 6, 8, 2, 6, 1, 6, 11, 10, 14, 3, 6, 4, 1, 10], 0x40c2_daba_32cd_b214,
          [14, 2, 2, 0, 10, 8, 3, 8, 11, 15, 5, 12, 9, 13, 13, 14], [0, 0, 0, 0, 0, 0, 0, 1, 12, 4, 4, 1, 5, 0, 7, 1],
          [14, 2, 2, 0, 10, 8, 3, 9, 7, 11, 1, 13, 12, 13, 10, 15])
  }

  lemma ZeroFirst()
    ensures var t := ZeroWords(); Shifts(t.a, 0x4000_0000, t.aw, t.b)
  {
  }

  lemma ZeroSecond()
    ensures var t := ZeroWords(); Shifts(t.c, 0x800_0000, t.cw, t.d)
  {
  }

  lemma ZeroThird()
    ensures var t := ZeroWords(); Shifts(t.e, 0x8000_0000, t.ew, t.z)
  {
  }

  lemma ZeroProducts()
    ensures Multiplies(ZeroWords())
  {
  }

  lemma ZeroEnds(x: u64)
    requires x == 0
    ensures var t := ZeroWords(); Starts(x, t) && Word(t.z) && Value(t.z) == 0xe220_a839_7b1d_cdaf
  {
  }

  lemma ZeroTrace(x: u64) returns (t: Trace)
    requires x == 0
    ensures Mixing(x, t) && Value(t.z) == 0xe220_a839_7b1d_cdaf
  {
    ZeroFirst();
    ZeroSecond();
    ZeroThird();
    ZeroProducts();
    ZeroEnds(x);
    t := ZeroWords();
  }

  lemma {:induction false} MixZero(x: u64)
    requires x == 0
    ensures SplitMix64(x) == 0xe220_a839_7b1d_cdaf
  {
    var t := ZeroTrace(x);
    Evaluates(x, t);
  }

  function OneWords(): Trace {
    Trace([9, 14, 3, 7, 7, 9, 11, 9, 7, 15, 4, 10, 7, 12, 1, 6], [0, 0, 0, 0, 0, 0, 0, 2, 7, 8, 13, 13, 14, 6, 14, 5],
          [9, 14, 3, 7, 7, 9, 11, 11, 0, 7, 9, 7, 9, 10, 15, 3], 0x7641_f309_3531_f528,
          [10, 13, 7, 0, 15, 12, 6, 2, 10, 14, 9, 6, 5, 8, 9, 11], [0, 0, 0, 0, 0, 0, 1, 5, 10, 14, 1, 15, 8, 12, 5, 5],
          [10, 13, 7, 0, 15, 12, 7, 7, 0, 0, 8, 9, 13, 4, 12, 14], 0x64d2_6fb5_e387_1a99,
          [9, 1, 0, 10, 2, 13, 14, 13, 10, 11, 1, 6, 0, 7, 1, 10], [0, 0, 0, 0, 0, 0, 0, 1, 2, 2, 1, 4, 5, 11, 13, 11],
          [9, 1, 0, 10, 2, 13, 14, 12, 8, 9, 0, 2, 5, 12, 12, 1])
  }

  lemma OneFirst()
    ensures var t := OneWords(); Shifts(t.a, 0x4000_0000, t.aw, t.b)
  {
  }

  lemma OneSecond()
    ensures var t := OneWords(); Shifts(t.c, 0x800_0000, t.cw, t.d)
  {
  }

  lemma OneThird()
    ensures var t := OneWords(); Shifts(t.e, 0x8000_0000, t.ew, t.z)
  {
  }

  lemma OneProducts()
    ensures Multiplies(OneWords())
  {
  }

  lemma OneEnds(x: u64)
    requires x == 1
    ensures var t := OneWords(); Starts(x, t) && Word(t.z) && Value(t.z) == 0x910a_2dec_8902_5cc1
  {
  }

  lemma OneTrace(x: u64) returns (t: Trace)
    requires x == 1
    ensures Mixing(x, t) && Value(t.z) == 0x910a_2dec_8902_5cc1
  {
    OneFirst();
    OneSecond();
    OneThird();
    OneProducts();
    OneEnds(x);
    t := OneWords();
  }

  lemma {:induction false} MixOne(x: u64)
    requires x == 1
    ensures SplitMix64(x) == 0x910a_2dec_8902_5cc1
  {
    var t := OneTrace(x);
    Evaluates(x, t);
  }

  function LowWords(): Trace {
    Trace([9, 14, 3, 7, 7, 9, 11, 9, 7, 15, 4, 10, 7, 12, 13, 9], [0, 0, 0, 0, 0, 0, 0, 2, 7, 8, 13, 13, 14, 6, 14, 5],
          [9, 14, 3, 7, 7, 9, 11, 11, 0, 7, 9, 7, 9, 10, 3, 12], 0x7641_f309_3531_f49f,
          [14, 5, 5, 5, 14, 13, 6, 3, 0, 6, 15, 6, 2, 1, 5, 12],
          [0, 0, 0, 0, 0, 0, 1, 12, 10, 10, 11, 13, 10, 12, 6, 0],
          [14, 5, 5, 5, 14, 13, 7, 15, 10, 12, 4, 11, 8, 13, 3, 12], 0x8550_452b_df06_e58e,
          [0, 1, 1, 6, 5, 11, 6, 9, 10, 10, 3, 7, 10, 2, 1, 4], [0, 0, 0, 0, 0, 0, 0, 0, 0, 2, 2, 12, 11, 6, 13, 3],
          [0, 1, 1, 6, 5, 11, 6, 9, 10, 8, 1, 11, 1, 4, 12, 7])
  }

  lemma LowFirst()
    ensures var t := LowWords(); Shifts(t.a, 0x4000_0000, t.aw, t.b)
  {
  }

  lemma LowSecond()
    ensures var t := LowWords(); Shifts(t.c, 0x800_0000, t.cw, t.d)
  {
  }

  lemma LowThird()
    ensures var t := LowWords(); Shifts(t.e, 0x8000_0000, t.ew, t.z)
  {
  }

  lemma LowProducts()
    ensures Multiplies(LowWords())
  {
  }

  lemma LowEnds(x: u64)
    requires x == 196
    ensures var t := LowWords(); Starts(x, t) && Word(t.z) && Value(t.z) == 0x116_5b69_a81b_14c7
  {
  }

  lemma LowTrace(x: u64) returns (t: Trace)
    requires x == 196
    ensures Mixing(x, t) && Value(t.z) == 0x116_5b69_a81b_14c7
  {
    LowFirst();
    LowSecond();
    LowThird();
    LowProducts();
    LowEnds(x);
    t := LowWords();
  }

  lemma {:induction false} MixLow(x: u64)
    requires x == 196
    ensures SplitMix64(x) == 0x116_5b69_a81b_14c7
  {
    var t := LowTrace(x);
    Evaluates(x, t);
  }

  function SaltWords(): Trace {
    Trace([9, 14, 3, 7, 7, 9, 11, 10, 1, 13, 8, 1, 15, 5, 12, 14], [0, 0, 0, 0, 0, 0, 0, 2, 7, 8, 13, 13, 14, 6, 14, 8],
          [9, 14, 3, 7, 7, 9, 11, 8, 6, 5, 5, 12, 1, 3, 2, 6], 0x7641_f307_3d3f_0a42,
          [2, 9, 13, 12, 15, 2, 3, 3, 13, 2, 8, 2, 13, 4, 7, 6], [0, 0, 0, 0, 0, 0, 0, 5, 3, 11, 9, 14, 4, 6, 7, 10],
          [2, 9, 13, 12, 15, 2, 3, 6, 14, 9, 1, 12, 9, 2, 0, 12], 0x1855_cb9b_23fb_ee6d,
          [9, 0, 15, 11, 13, 5, 15, 5, 11, 11, 3, 8, 13, 13, 0, 4],
          [0, 0, 0, 0, 0, 0, 0, 1, 2, 1, 15, 7, 10, 11, 14, 11],
          [9, 0, 15, 11, 13, 5, 15, 4, 9, 10, 12, 15, 7, 6, 14, 15])
  }

  lemma SaltFirst()
    ensures var t := SaltWords(); Shifts(t.a, 0x4000_0000, t.aw, t.b)
  {
  }

  lemma SaltSecond()
    ensures var t := SaltWords(); Shifts(t.c, 0x800_0000, t.cw, t.d)
  {
  }

  lemma SaltThird()
    ensures var t := SaltWords(); Shifts(t.e, 0x8000_0000, t.ew, t.z)
  {
  }

  lemma SaltProducts()
    ensures Multiplies(SaltWords())
  {
  }

  lemma SaltEnds(x: u64)
    requires x == 0x9e37_79b9
    ensures var t := SaltWords(); Starts(x, t) && Word(t.z) && Value(t.z) == 0x90fb_d5f4_9acf_76ef
  {
  }

  lemma SaltTrace(x: u64) returns (t: Trace)
    requires x == 0x9e37_79b9
    ensures Mixing(x, t) && Value(t.z) == 0x90fb_d5f4_9acf_76ef
  {
    SaltFirst();
    SaltSecond();
    SaltThird();
    SaltProducts();
    SaltEnds(x);
    t := SaltWords();
  }

  lemma {:induction false} MixSalt(x: u64)
    requires x == 0x9e37_79b9
    ensures SplitMix64(x) == 0x90fb_d5f4_9acf_76ef
  {
    var t := SaltTrace(x);
    Evaluates(x, t);
  }

  /** At one percent, with seed 0: the copies of datagram 0 on streams 0 and 1 are kept, that on stream 196 is
      dropped. */
  lemma {:induction false} KeptAndDropped(seed: u64, d: u32, s: u16)
    requires seed == 0 && d == 0 && s in {0, 1, 196}
    ensures Drop(ONE_PERCENT, seed, d, s) <==> s == 196
  {
    KeyIs(d, s, seed);
    if s == 0 {
      MixZero(Key(d, s, seed));
    } else if s == 1 {
      MixOne(Key(d, s, seed));
    } else {
      MixLow(Key(d, s, seed));
    }
  }

  /** With the default seed 1 the copy of datagram 0 on stream 0 is kept. */
  lemma {:induction false} KeptWithSeedOne(seed: u64, d: u32, s: u16)
    requires seed == 1 && d == 0 && s == 0
    ensures Key(d, s, seed) == 0x9e37_79b9 && SplitMix64(Key(d, s, seed)) == 0x90fb_d5f4_9acf_76ef
    ensures !Drop(ONE_PERCENT, seed, d, s)
  {
    KeyIs(d, s, seed);
    MixSalt(Key(d, s, seed));
  }
}
