/** Smallest and largest elements, and facts about sequences that are not found automatically in large
    contexts. */
module Seqs {
  import opened Words

  function MinOf(xs: seq<u64>): (m: u64)
    requires xs != []
    ensures m in xs && forall x :: x in xs ==> m <= x
  {
    var n := |xs| - 1;
    if n == 0 then xs[0]
    else
      var m := MinOf(xs[..n]);
      assert xs == xs[..n] + [xs[n]];
      if xs[n] < m then xs[n] else m
  }

  function MaxOf(xs: seq<u64>): (m: u64)
    requires xs != []
    ensures m in xs && forall x :: x in xs ==> x <= m
  {
    var n := |xs| - 1;
    if n == 0 then xs[0]
    else
      var m := MaxOf(xs[..n]);
      assert xs == xs[..n] + [xs[n]];
      if xs[n] > m then xs[n] else m
  }

  lemma Assoc<T>(a: seq<T>, b: seq<T>, c: seq<T>)
    ensures (a + b) + c == a + (b + c)
  {
  }

  lemma NilRight<T>(a: seq<T>)
    ensures a + [] == a
  {
  }

  lemma SplitLast<T>(a: seq<T>, b: seq<T>)
    requires b != []
    ensures var n := |b| - 1; a + b == (a + b[..n]) + [b[n]]
  {
  }

  lemma SliceOfSlice<T>(b: seq<T>, at: nat, n: nat, i: nat, j: nat)
    requires at + n <= |b| && i <= j <= n
    ensures b[at..at + n][i..j] == b[at + i..at + j]
  {
    var l, r := b[at..at + n][i..j], b[at + i..at + j];
    assert forall k :: 0 <= k < j - i ==> l[k] == r[k];
  }

  lemma PrefixTransitive<T>(a: seq<T>, b: seq<T>, c: seq<T>)
    requires a <= b && b <= c
    ensures a <= c
  {
  }

  lemma TakeSnoc<T>(base: seq<T>, s: seq<T>, i: nat)
    requires i < |s|
    ensures (base + s[..i]) + [s[i]] == base + s[..i + 1]
  {
  }

  lemma TakeAll<T>(base: seq<T>, s: seq<T>)
    ensures base + s[..0] == base && base + s[..|s|] == base + s
  {
  }
}
