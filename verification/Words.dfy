/** Unsigned machine words and the bit operations the pipeline applies to them.

    A word is a natural number; `&`, `|`, `^`, `~` and `>>` are defined bit by bit and a left shift by
    k is a multiplication by 2^k.  Wrap-around is always written out. */
module Words {
  const TWO_16: int := 0x1_0000
  const TWO_32: int := 0x1_0000_0000
  const TWO_64: int := 0x1_0000_0000_0000_0000

  type byte = x: int | 0 <= x < 256
  type u16 = x: int | 0 <= x < TWO_16
  type u32 = x: int | 0 <= x < TWO_32
  type u64 = x: int | 0 <= x < TWO_64

  function Pow2(k: nat): (r: nat)
    ensures r > 0
  {
    if k == 0 then 1 else 2 * Pow2(k - 1)
  }

  function Min(a: int, b: int): int {
    if a <= b then a else b
  }

  function Max(a: int, b: int): int {
    if a <= b then b else a
  }

  // ---- Bitwise operators ----

  function BitAnd(a: nat, b: nat): nat {
    if a == 0 || b == 0 then 0 else 2 * BitAnd(a / 2, b / 2) + (a % 2) * (b % 2)
  }

  function BitOr(a: nat, b: nat): nat
    decreases a + b
  {
    if a == 0 then b else if b == 0 then a else 2 * BitOr(a / 2, b / 2) + Max(a % 2, b % 2)
  }

  function BitXor(a: nat, b: nat): nat
    decreases a + b
  {
    if a == 0 then b else if b == 0 then a else 2 * BitXor(a / 2, b / 2) + if a % 2 == b % 2 then 0 else 1
  }

  function BitNot64(a: u64): u64 {
    TWO_64 - 1 - a
  }

  /** `a >> k`. */
  function Shr(a: nat, k: nat): nat
    decreases k, a
  {
    if k == 0 then a else Shr(a / 2, k - 1)
  }

  /** Bit k of w. */
  predicate Bit(w: nat, k: nat) {
    if k == 0 then w % 2 == 1 else Bit(w / 2, k - 1)
  }

  // ---- Division and powers of two ----

  lemma DivModUnique(x: int, d: int, q: int, r: int)
    requires d > 0 && 0 <= r < d && x == q * d + r
    ensures x / d == q && x % d == r
  {
    var q', r' := x / d, x % d;
    assert (q - q') * d == r' - r by {
      assert x == q' * d + r';
      assert (q - q') * d == q * d - q' * d;
    }
    if q' < q {
      MulAtLeast(q - q', d);
    } else if q < q' {
      MulAtLeast(q' - q, d);
    }
  }

  lemma MulAtLeast(a: int, d: int)
    requires a >= 1 && d >= 0
    ensures a * d >= d
  {
    assert a * d == (a - 1) * d + d;
  }

  lemma MulMonotone(a: int, b: int, d: nat)
    requires a <= b
    ensures a * d <= b * d
  {
  }

  /** Two numbers less than d apart have different residues unless they are equal. */
  lemma ModApart(a: int, b: int, d: int)
    requires d > 0 && a < b < a + d
    ensures a % d != b % d
  {
    if a % d == b % d {
      assert (b / d - a / d) * d == b - a;
      if b / d - a / d >= 1 {
        MulAtLeast(b / d - a / d, d);
      } else if b / d - a / d <= -1 {
        MulAtLeast(a / d - b / d, d);
      }
    }
  }

  lemma ModShift(a: int, d: int)
    requires d > 0
    ensures (a + d) % d == a % d && (a + d) / d == a / d + 1
  {
    DivModUnique(a + d, d, a / d + 1, a % d);
  }

  lemma Pow2Add(a: nat, b: nat)
    ensures Pow2(a + b) == Pow2(a) * Pow2(b)
  {
    if a != 0 {
      Pow2Add(a - 1, b);
      assert Pow2(a + b) == 2 * Pow2(a - 1 + b);
    }
  }

  lemma Pow2Monotone(a: nat, b: nat)
    requires a <= b
    ensures Pow2(a) <= Pow2(b)
    ensures a < b ==> 2 * Pow2(a) <= Pow2(b)
  {
    if a < b {
      Pow2Monotone(a, b - 1);
    }
  }

  lemma Pow2Values()
    ensures Pow2(6) == 64 && Pow2(16) == TWO_16 && Pow2(32) == TWO_32 &&
            Pow2(63) == 0x8000_0000_0000_0000 && Pow2(64) == TWO_64
  {
    Pow2Add(16, 16);
    Pow2Add(32, 31);
    assert Pow2(15) == 0x8000;
    Pow2Add(16, 15);
  }

  /** Dividing by 2^(k+1) is halving and then dividing by 2^k. */
  lemma DivPow2Step(x: nat, k: nat)
    ensures x / Pow2(k + 1) == (x / 2) / Pow2(k)
    ensures x % Pow2(k + 1) == 2 * ((x / 2) % Pow2(k)) + x % 2
  {
    var p := Pow2(k);
    var q, r := (x / 2) / p, (x / 2) % p;
    assert x == 2 * (x / 2) + x % 2 && x / 2 == q * p + r;
    assert x == q * (2 * p) + (2 * r + x % 2);
    DivModUnique(x, 2 * p, q, 2 * r + x % 2);
  }

  lemma {:induction false} ShrIsDiv(x: nat, k: nat)
    ensures Shr(x, k) == x / Pow2(k)
    decreases k
  {
    if k > 0 {
      ShrIsDiv(x / 2, k - 1);
      DivPow2Step(x, k - 1);
    }
  }

  lemma {:induction false} ShrCompose(x: nat, j: nat, k: nat)
    ensures Shr(Shr(x, j), k) == Shr(x, j + k)
    decreases j
  {
    if j > 0 {
      ShrCompose(x / 2, j - 1, k);
    }
  }

  /** `x & (2^p - 1)` is `x mod 2^p`: the ring's and the window's index mask. */
  lemma {:induction false} MaskIsMod(x: nat, p: nat)
    ensures BitAnd(x, Pow2(p) - 1) == x % Pow2(p)
  {
    if p > 0 {
      var m := Pow2(p - 1) - 1;
      MaskIsMod(x / 2, p - 1);
      ModPow2Step(x, p - 1);
      assert Pow2(p) - 1 == 2 * m + 1;
      AndOdd(x, m);
    }
  }

  lemma ModPow2Step(x: nat, k: nat)
    ensures x % Pow2(k + 1) == 2 * ((x / 2) % Pow2(k)) + x % 2
  {
    DivPow2Step(x, k);
  }

  /** A mask that ends in a one keeps the low bit. */
  lemma AndOdd(x: nat, m: nat)
    ensures BitAnd(x, 2 * m + 1) == 2 * BitAnd(x / 2, m) + x % 2
  {
    assert (2 * m + 1) / 2 == m && (2 * m + 1) % 2 == 1;
  }

  // ---- Single bits ----

  lemma BitOrAt(a: nat, b: nat, k: nat)
    ensures Bit(BitOr(a, b), k) == (Bit(a, k) || Bit(b, k))
    decreases k
  {
    BitZero(k);
    if k > 0 {
      BitOrAt(a / 2, b / 2, k - 1);
    }
  }

  lemma BitAndAt(a: nat, b: nat, k: nat)
    ensures Bit(BitAnd(a, b), k) == (Bit(a, k) && Bit(b, k))
    decreases k
  {
    BitZero(k);
    if k > 0 {
      BitAndAt(a / 2, b / 2, k - 1);
    }
  }

  lemma BitZero(k: nat)
    ensures !Bit(0, k)
  {
  }

  lemma BitPow2(k: nat, j: nat)
    ensures Bit(Pow2(k), j) == (j == k)
  {
    if k == 0 {
      if j > 0 {
        BitZero(j - 1);
      }
    } else if j > 0 {
      BitPow2(k - 1, j - 1);
    }
  }

  /** Testing a word against a one-bit mask tests that bit. */
  lemma BitTest(w: nat, k: nat)
    ensures (BitAnd(w, Pow2(k)) != 0) == Bit(w, k)
  {
    if k > 0 && w > 0 {
      BitTest(w / 2, k - 1);
    } else if k > 0 {
      BitZero(k);
    } else if w > 0 {
      assert BitAnd(w / 2, 0) == 0;
    }
  }

  /** Shifting right by k and keeping the low bit reads bit k. */
  lemma {:induction false} BitShifted(w: nat, k: nat)
    ensures (BitAnd(Shr(w, k), 1) == 1) == Bit(w, k)
    decreases k
  {
    if k == 0 {
      MaskIsMod(w, 1);
      assert Pow2(1) == 2;
    } else {
      BitShifted(w / 2, k - 1);
    }
  }

  lemma BitComplement(m: nat, n: nat, k: nat)
    requires m < Pow2(n) && k < n
    ensures Bit(Pow2(n) - 1 - m, k) == !Bit(m, k)
  {
    if k > 0 {
      assert (Pow2(n) - 1 - m) / 2 == Pow2(n - 1) - 1 - m / 2;
      BitComplement(m / 2, n - 1, k - 1);
    }
  }

  lemma Doubled(d: nat, p: nat)
    ensures d * (2 * p) == 2 * (d * p)
  {
  }

  lemma SameHalves(a: nat, b: nat)
    requires a / 2 == b / 2 && a % 2 == b % 2
    ensures a == b
  {
  }

  lemma OrHalves(a: nat, b: nat)
    ensures BitOr(a, b) / 2 == BitOr(a / 2, b / 2) && BitOr(a, b) % 2 == Max(a % 2, b % 2)
  {
  }

  /** Where the low k bits of one operand are free, `|` is `+`. */
  lemma {:induction false} OrDisjoint(d: nat, s: nat, k: nat)
    requires s < Pow2(k)
    ensures BitOr(s, d * Pow2(k)) == d * Pow2(k) + s
    decreases k
  {
    if k > 0 {
      var hi := d * Pow2(k - 1);
      Doubled(d, Pow2(k - 1));
      OrDisjoint(d, s / 2, k - 1);
      OrStep(hi, s);
    }
  }

  lemma OrStep(hi: nat, s: nat)
    requires BitOr(s / 2, hi) == hi + s / 2
    ensures BitOr(s, 2 * hi) == 2 * hi + s
  {
    OrHalves(s, 2 * hi);
    SameHalves(BitOr(s, 2 * hi), 2 * hi + s);
  }

  lemma BitOrBound(a: nat, b: nat, n: nat)
    requires a < Pow2(n) && b < Pow2(n)
    ensures BitOr(a, b) < Pow2(n)
  {
    if n > 0 {
      BitOrBound(a / 2, b / 2, n - 1);
    }
  }

  lemma BitAndBound(a: nat, b: nat)
    ensures BitAnd(a, b) <= a && BitAnd(a, b) <= b
  {
  }

  // ---- Exclusive or ----

  lemma XorBound(a: nat, b: nat, n: nat)
    requires a < Pow2(n) && b < Pow2(n)
    ensures BitXor(a, b) < Pow2(n)
  {
    if n > 0 {
      XorBound(a / 2, b / 2, n - 1);
    }
  }

  lemma XorHalves(a: nat, b: nat)
    ensures BitXor(a, b) / 2 == BitXor(a / 2, b / 2) && BitXor(a, b) % 2 == if a % 2 == b % 2 then 0 else 1
  {
  }

  lemma {:induction false} XorAssoc(a: nat, b: nat, c: nat)
    ensures BitXor(BitXor(a, b), c) == BitXor(a, BitXor(b, c))
    decreases a + b + c
  {
    if a != 0 && b != 0 && c != 0 {
      XorHalves(a, b);
      XorHalves(b, c);
      XorAssoc(a / 2, b / 2, c / 2);
      XorAssocStep(a, b, c, BitXor(a, b), BitXor(b, c));
    }
  }

  lemma XorAssocStep(a: nat, b: nat, c: nat, ab: nat, bc: nat)
    requires ab % 2 == (if a % 2 == b % 2 then 0 else 1)
    requires bc % 2 == (if b % 2 == c % 2 then 0 else 1)
    requires BitXor(ab / 2, c / 2) == BitXor(a / 2, bc / 2)
    ensures BitXor(ab, c) == BitXor(a, bc)
  {
    XorHalves(ab, c);
    XorHalves(a, bc);
    SameHalves(BitXor(ab, c), BitXor(a, bc));
  }

  lemma XorSelf(a: nat)
    ensures BitXor(a, a) == 0
  {
  }

  /** Exclusive or with the same word twice gives the original back. */
  lemma {:induction false} XorCancel(a: nat, b: nat)
    ensures BitXor(BitXor(a, b), b) == a
  {
    XorAssoc(a, b, b);
    XorSelf(b);
  }

  lemma {:induction false} XorShift(a: nat, b: nat, k: nat)
    ensures Shr(BitXor(a, b), k) == BitXor(Shr(a, k), Shr(b, k))
    decreases k
  {
    if k > 0 {
      XorHalves(a, b);
      XorShift(a / 2, b / 2, k - 1);
    }
  }

  /** A value shifted left by k leaves the low k bits free, so `^` is `+` there. */
  lemma {:induction false} XorDisjoint(d: nat, s: nat, k: nat)
    requires s < Pow2(k)
    ensures BitXor(d * Pow2(k), s) == d * Pow2(k) + s
    decreases k
  {
    if k > 0 {
      var hi := d * Pow2(k - 1);
      Doubled(d, Pow2(k - 1));
      XorDisjoint(d, s / 2, k - 1);
      XorStep(hi, s);
    }
  }

  lemma XorStep(hi: nat, s: nat)
    requires BitXor(hi, s / 2) == hi + s / 2
    ensures BitXor(2 * hi, s) == 2 * hi + s
  {
    XorHalves(2 * hi, s);
    SameHalves(BitXor(2 * hi, s), 2 * hi + s);
  }

  /** Exclusive or differs exactly where the operands do. */
  lemma BitXorAt(a: nat, b: nat, k: nat)
    ensures Bit(BitXor(a, b), k) == (Bit(a, k) != Bit(b, k))
    decreases k
  {
    XorHalves(a, b);
    BitZero(k);
    if k > 0 {
      BitXorAt(a / 2, b / 2, k - 1);
    }
  }

  lemma {:induction false} BitShr(a: nat, s: nat, k: nat)
    ensures Bit(Shr(a, s), k) == Bit(a, k + s)
    decreases s
  {
    if s > 0 {
      BitShr(a / 2, s - 1, k);
    }
  }
}
