/** One transmit stream: the same datagram to every destination, in rotating order. */
module Fanout {
  import opened Words

  /** The destination at position k of the call number `call`. */
  function Dest(n: nat, call: nat, k: nat): (d: nat)
    requires n > 0
    ensures d < n
  {
    (k + call % n) % n
  }

  class TxStream {
    const dests: nat
    const targets: array<nat>
    var rotate: nat
    var sent: nat
    var blocked: nat
    var partial: nat
    var errors: nat
    ghost var calls: nat

    ghost predicate Valid()
      reads this
    {
      targets.Length == dests && rotate == if dests == 0 then 0 else calls % dests
    }

    constructor (dests: nat)
      ensures Valid() && fresh(targets) && this.dests == dests && calls == 0
    {
      this.dests := dests;
      targets := new nat[dests](_ => 0);
      rotate, sent, blocked, partial, errors, calls := 0, 0, 0, 0, 0, 0;
    }

    /** Fills in the messages and hands them to the kernel, whose answer is `accepted`; a negative one
        is an error, `full` telling whether it was a full socket buffer. */
    method SendAll(accepted: int, full: bool) returns (result: int)
      requires Valid() && accepted <= dests
      modifies this, targets
      ensures Valid() && calls == old(calls) + 1
      ensures forall k :: 0 <= k < dests ==> targets[k] == Dest(dests, old(calls), k)
      ensures result == if accepted >= 0 then accepted else if full then 0 else -1
      ensures sent - old(sent) == Max(0, accepted)
      ensures (blocked - old(blocked), errors - old(errors), partial - old(partial)) ==
              if accepted < 0 then (if full then (1, 0, 0) else (0, 1, 0))
              else (0, 0, if accepted < dests then 1 else 0)
    {
      FillTargets();
      if dests > 0 {
        NextRotation(calls, dests);
      }
      rotate := rotate + 1;
      if rotate >= dests {
        rotate := 0;
      }
      calls := calls + 1;
      if accepted < 0 {
        if full {
          blocked := blocked + 1;
          return 0;
        }
        errors := errors + 1;
        return -1;
      }
      if accepted < dests {
        partial := partial + 1;
      }
      sent := sent + accepted;
      return accepted;
    }

    method FillTargets()
      requires Valid()
      modifies targets
      ensures forall k :: 0 <= k < dests ==> targets[k] == Dest(dests, calls, k)
    {
      var k := 0;
      while k < dests
        invariant 0 <= k <= dests
        invariant forall i :: 0 <= i < k ==> targets[i] == Dest(dests, calls, i)
      {
        targets[k] := (k + rotate) % dests;
        k := k + 1;
      }
    }
  }

  lemma {:induction false} NextRotation(c: nat, n: nat)
    requires n > 0
    ensures (c + 1) % n == if c % n + 1 >= n then 0 else c % n + 1
  {
    if c % n + 1 >= n {
      assert c + 1 == (c / n + 1) * n;
      DivModUnique(c + 1, n, c / n + 1, 0);
    } else {
      DivModUnique(c + 1, n, c / n, c % n + 1);
    }
  }

  lemma {:induction false} DestIsSum(n: nat, call: nat, k: nat)
    requires n > 0
    ensures Dest(n, call, k) == (k + call) % n
  {
    var r := k + call % n;
    assert k + call == (r / n + call / n) * n + r % n;
    DivModUnique(k + call, n, r / n + call / n, r % n);
  }

  lemma Quotients(n: nat, c: nat, d: nat, x: nat)
    requires n > 0 && d < n && x == (d + n - c % n) % n
    ensures (x + c) % n == d
  {
    var a := d + n - c % n;
    var u, v := a / n, c / n;
    assert x == a - u * n && c == v * n + c % n;
    assert (v - u + 1) * n == v * n - u * n + n;
    DivModUnique(x + c, n, v - u + 1, d);
  }

  lemma SamePosition(n: nat, call: nat, i: nat, k: nat)
    requires i < n && k < n && Dest(n, call, i) == Dest(n, call, k)
    ensures i == k
  {
    DestIsSum(n, call, i);
    DestIsSum(n, call, k);
    if i < k {
      ModApart(i + call, k + call, n);
    } else if k < i {
      ModApart(k + call, i + call, n);
    }
  }

  /** Every call serves every destination exactly once. */
  lemma {:induction false} EachCallPermutes(n: nat, call: nat, d: nat) returns (k: nat)
    requires d < n
    ensures k < n && Dest(n, call, k) == d
    ensures forall i :: 0 <= i < n && Dest(n, call, i) == d ==> i == k
  {
    k := (d + n - call % n) % n;
    Quotients(n, call, d, k);
    DestIsSum(n, call, k);
    forall i | 0 <= i < n && Dest(n, call, i) == d
      ensures i == k
    {
      SamePosition(n, call, i, k);
    }
  }

  /** The destination at position k, m calls after the call `first`. */
  function DestAfter(n: nat, first: nat, m: nat, k: nat): nat
    requires n > 0
  {
    Dest(n, first + m, k)
  }

  lemma CallsAndPositions(n: nat, first: nat, m: nat, k: nat)
    requires n > 0
    ensures DestAfter(n, first, m, k) == Dest(n, first + k, m)
  {
    DestIsSum(n, first + m, k);
    DestIsSum(n, first + k, m);
  }

  lemma SameCall(n: nat, first: nat, k: nat, i: nat, m: nat)
    requires i < n && m < n && DestAfter(n, first, i, k) == DestAfter(n, first, m, k)
    ensures i == m
  {
    CallsAndPositions(n, first, i, k);
    CallsAndPositions(n, first, m, k);
    SamePosition(n, first + k, i, m);
  }

  /** Over any n consecutive calls every destination takes every position exactly once. */
  lemma {:induction false} EachPositionOnce(n: nat, first: nat, k: nat, d: nat) returns (i: nat)
    requires d < n
    ensures i < n && DestAfter(n, first, i, k) == d
    ensures forall m :: 0 <= m < n && DestAfter(n, first, m, k) == d ==> m == i
  {
    i := EachCallPermutes(n, first + k, d);
    assert DestAfter(n, first, i, k) == d by {
      CallsAndPositions(n, first, i, k);
    }
    forall m | 0 <= m < n && DestAfter(n, first, m, k) == d
      ensures m == i
    {
      SameCall(n, first, k, i, m);
    }
  }
}
