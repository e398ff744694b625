/** The duplicate-suppression window: a circular bitmap in 64-bit words.

    Every method is proved equal to DedupSpec's step on the abstract state for all 64-bit sequence
    numbers; DedupSpec and DedupLaws say what that step guarantees over whole runs. */
module Dedup {
  import opened Words
  import opened DedupSpec
  import opened DedupLaws

  // ---- The bitmap as a set of positions ----

  ghost function Marks(words: seq<u64>): set<nat> {
    set i: nat | 0 <= i < 64 * |words| && Bit(words[i / 64], i % 64)
  }

  lemma {:induction false} SplitIndex(i: nat)
    ensures Shr(i, 6) == i / 64 && BitAnd(i, 63) == i % 64
  {
    Pow2Values();
    ShrIsDiv(i, 6);
    MaskIsMod(i, 6);
  }

  lemma {:induction false} MaskWord(k: nat)
    requires k < 64
    ensures 0 < Pow2(k) < TWO_64
  {
    Pow2Values();
    Pow2Monotone(k, 63);
  }

  lemma {:induction false} SetMark(words: seq<u64>, i: nat)
    requires i < 64 * |words|
    ensures Pow2(i % 64) < TWO_64 && BitOr(words[i / 64], Pow2(i % 64)) < TWO_64
    ensures Marks(words[i / 64 := BitOr(words[i / 64], Pow2(i % 64))]) == Marks(words) + {i}
  {
    MaskWord(i % 64);
    Pow2Values();
    var word := words[i / 64];
    BitOrBound(word, Pow2(i % 64), 64);
    var words' := words[i / 64 := BitOr(word, Pow2(i % 64))];
    forall j: nat | j < 64 * |words|
      ensures Bit(words'[j / 64], j % 64) == (Bit(words[j / 64], j % 64) || j == i)
    {
      if j / 64 == i / 64 {
        BitOrAt(word, Pow2(i % 64), j % 64);
        BitPow2(i % 64, j % 64);
      }
    }
  }

  lemma {:induction false} ClearMark(words: seq<u64>, i: nat)
    requires i < 64 * |words|
    ensures Pow2(i % 64) < TWO_64 && BitAnd(words[i / 64], BitNot64(Pow2(i % 64))) < TWO_64
    ensures Marks(words[i / 64 := BitAnd(words[i / 64], BitNot64(Pow2(i % 64)))]) == Marks(words) - {i}
  {
    MaskWord(i % 64);
    Pow2Values();
    var word, mask := words[i / 64], BitNot64(Pow2(i % 64));
    BitAndBound(word, mask);
    var words' := words[i / 64 := BitAnd(word, mask)];
    forall j: nat | j < 64 * |words|
      ensures Bit(words'[j / 64], j % 64) == (Bit(words[j / 64], j % 64) && j != i)
    {
      if j / 64 == i / 64 {
        BitAndAt(word, mask, j % 64);
        BitComplement(Pow2(i % 64), 64, j % 64);
        BitPow2(i % 64, j % 64);
      }
    }
  }

  lemma {:induction false} ZeroMarks(words: seq<u64>)
    requires forall k :: 0 <= k < |words| ==> words[k] == 0
    ensures Marks(words) == {}
  {
    forall i: nat | i < 64 * |words|
      ensures !Bit(words[i / 64], i % 64)
    {
      BitZero(i % 64);
    }
  }

  /** Residues of one more position. */
  lemma ResiduesSnoc(w: nat, lo: nat, hi: nat)
    requires w > 0 && lo <= hi
    ensures Residues(w, lo, hi + 1) == Residues(w, lo, hi) + {hi % w}
    ensures Residues(w, lo, lo) == {}
  {
  }

  lemma WholeWords(p: nat)
    requires p >= 6
    ensures Pow2(p) == 64 * Pow2(p - 6)
  {
    Pow2Values();
    Pow2Add(6, p - 6);
  }

  // ---- The recorded history ----

  lemma {:induction false} HistoryStep(w: nat, xs: seq<u64>, q: u64, p: nat)
    requires 6 <= p <= 63 && w == Pow2(p)
    ensures Run(w, xs + [q]) == Step(w, Run(w, xs), q).0
    ensures SafeRun(w, xs + [q]) ==> Step(w, Run(w, xs), q).1 == Fresh(w, xs, q)
  {
    RunSnoc(w, xs, q);
    if SafeRun(w, xs + [q]) {
      SafeSnoc(w, xs, q);
      Pow2Monotone(p, 63);
      RunTracks(w, xs);
      StepTracks(w, Run(w, xs), xs, q);
    }
  }

  class Window {
    const pow2: nat
    const size: nat
    const bits: array<u64>
    var started: bool
    var base: u64
    var accepted: nat
    var duplicates: nat
    var tooOld: nat
    ghost var cleared: nat
    ghost var history: seq<u64>

    ghost predicate Shape()
      reads this
    {
      6 <= pow2 <= 63 && size == Pow2(pow2) && size == 64 * bits.Length
    }

    ghost function Current(): State
      reads this, bits
    {
      State(started, base, Marks(bits[..]), accepted, duplicates, tooOld, cleared)
    }

    ghost predicate Valid()
      reads this, bits
    {
      Shape() && Current() == Run(size, history)
    }

    constructor (pow2: nat)
      requires 6 <= pow2 <= 63
      ensures Valid() && fresh(bits) && history == [] && this.pow2 == pow2
    {
      WholeWords(pow2);
      this.pow2 := pow2;
      size := Pow2(pow2);
      bits := new u64[Pow2(pow2 - 6)](_ => 0);
      started, base := false, 0;
      accepted, duplicates, tooOld := 0, 0, 0;
      cleared, history := 0, [];
      new;
      ZeroMarks(bits[..]);
    }

    /** The counters: calls with a fresh number, with one accepted before, and with one that came too late. */
    lemma CountersExact()
      requires Valid() && SafeRun(size, history)
      ensures accepted == |FreshCalls(size, history)|
      ensures duplicates == |RepeatedCalls(size, history)|
      ensures tooOld == |LateCalls(size, history)|
    {
      Pow2Monotone(pow2, 63);
      RunTracks(size, history);
    }

    /** True when this number is to be published.  The step is the specified one for every 64-bit number,
        the verdict for every run without a number of the topmost window after the largest word. */
    method Accept(q: u64) returns (isNew: bool)
      requires Valid()
      modifies this, bits
      ensures Valid() && history == old(history) + [q]
      ensures (Current(), isNew) == Step(size, old(Current()), q)
      ensures SafeRun(size, history) ==> isNew == Fresh(size, old(history), q)
    {
      HistoryStep(size, history, q, pow2);
      isNew := Decide(q);
      history := history + [q];
    }

    /** The step itself. */
    method Decide(q: u64) returns (isNew: bool)
      requires Shape()
      modifies this`started, this`base, this`accepted, this`duplicates, this`tooOld, this`cleared, bits
      ensures Shape() && (Current(), isNew) == Step(size, old(Current()), q)
    {
      if !started {
        started := true;
        base := if q >= size then (q - size + 1) % TWO_64 else 0;
      }
      if q < base {
        tooOld := tooOld + 1;
        return false;
      }
      if q >= (base + size) % TWO_64 {
        AdvanceTo((q - size + 1) % TWO_64);
      }
      isNew := MarkBit(q);
    }

    /** Records q in the bitmap unless it is there already. */
    method MarkBit(q: u64) returns (isNew: bool)
      requires Shape()
      modifies this`accepted, this`duplicates, bits
      ensures Shape() && (Current(), isNew) == Mark(size, old(Current()), q)
    {
      MaskIsMod(q, pow2);
      var i := BitAnd(q, size - 1);
      SplitIndex(i);
      MaskWord(i % 64);
      BitTest(bits[i / 64], i % 64);
      var word := bits[Shr(i, 6)];
      var mask := Pow2(BitAnd(i, 63));
      if BitAnd(word, mask) != 0 {
        duplicates := duplicates + 1;
        return false;
      }
      SetMark(bits[..], i);
      ghost var words := bits[..];
      var marked: u64 := BitOr(word, mask);
      bits[Shr(i, 6)] := marked;
      assert bits[..] == words[i / 64 := marked];
      accepted := accepted + 1;
      return true;
    }

    /** Retires [base, newBase). */
    method AdvanceTo(newBase: u64)
      requires Shape()
      modifies this`base, this`cleared, bits
      ensures Shape() && Current() == DedupSpec.AdvanceTo(size, old(Current()), newBase)
    {
      if (newBase - base) % TWO_64 >= size {
        Wipe();
        cleared := cleared + size;
        base := newBase;
        return;
      }
      ghost var st := Current();
      var s: nat := base;
      ResiduesSnoc(size, base, base);
      while s < newBase
        invariant base <= s <= Max(base, newBase)
        invariant Current() == st.(marks := st.marks - Residues(size, base, s), cleared := st.cleared + s - base)
      {
        ClearBit(s);
        ResiduesSnoc(size, base, s);
        cleared := cleared + 1;
        s := s + 1;
      }
      assert Residues(size, base, newBase) == Residues(size, base, s);
      base := newBase;
    }

    method ClearBit(s: nat)
      requires Shape()
      modifies bits
      ensures Marks(bits[..]) == old(Marks(bits[..])) - {s % size}
    {
      MaskIsMod(s, pow2);
      var i := BitAnd(s, size - 1);
      SplitIndex(i);
      MaskWord(i % 64);
      ClearMark(bits[..], i);
      ghost var words := bits[..];
      var unmarked: u64 := BitAnd(bits[Shr(i, 6)], BitNot64(Pow2(BitAnd(i, 63))));
      bits[Shr(i, 6)] := unmarked;
      assert bits[..] == words[i / 64 := unmarked];
    }

    /** Zeroes the whole bitmap. */
    method Wipe()
      requires Shape()
      modifies bits
      ensures Marks(bits[..]) == {}
    {
      forall k | 0 <= k < bits.Length {
        bits[k] := 0;
      }
      ZeroMarks(bits[..]);
    }

    method LookUp(q: u64) returns (seen: bool)
      requires Shape()
      ensures seen == Remembered(size, Current(), q)
    {
      if !started || q < base || q >= (base + size) % TWO_64 {
        return false;
      }
      MaskIsMod(q, pow2);
      var i := BitAnd(q, size - 1);
      SplitIndex(i);
      BitShifted(bits[i / 64], i % 64);
      return BitAnd(Shr(bits[Shr(i, 6)], BitAnd(i, 63)), 1) == 1;
    }

    /** Whether q is remembered, without recording it.  It is what was accepted and is still in the
        window, as long as the largest word has not arrived. */
    method Seen(q: u64) returns (seen: bool)
      requires Valid()
      ensures seen == Remembered(size, Current(), q)
      ensures TOP !in history ==> seen == Live(size, history, q)
    {
      Pow2Monotone(pow2, 63);
      SeenLive(size, history, q);
      seen := LookUp(q);
    }

    method Reset()
      requires Valid()
      modifies this, bits
      ensures Valid() && history == [] && Current() == EMPTY
    {
      Wipe();
      started, base := false, 0;
      accepted, duplicates, tooOld := 0, 0, 0;
      cleared, history := 0, [];
    }
  }
}
