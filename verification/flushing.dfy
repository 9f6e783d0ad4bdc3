/** When the batch scope of `TablePatcher.process` asks the session for an
    intermediate flush: the test on its `total` counter, and how many flushes
    a run of adds requests. */
module Flushing {
  import opened Wrappers

  /** The flush test of `process`: `autoflush and total % autoflush == 0`.
      `None` and `0` are falsy; divisibility does not depend on the sign of
      the divisor, so Dafny's `%` agrees with Python's here. */
  predicate ShouldFlush(total: int, autoflush: Option<int>)
  {
    autoflush.Some? && autoflush.value != 0 && total % autoflush.value == 0
  }

  /** How many flushes `adds` successful adds request when each add grows
      the `total` counter by `step` before the flush test. */
  function FlushCount(adds: nat, step: int, autoflush: Option<int>): (n: nat)
    ensures n <= adds
  {
    if adds == 0 then 0
    else FlushCount(adds - 1, step, autoflush) + (if ShouldFlush(adds * step, autoflush) then 1 else 0)
  }

  /** One more add: one more flush exactly when the grown counter passes the test. */
  lemma FlushCountStep(adds: nat, step: int, autoflush: Option<int>)
    ensures FlushCount(adds + 1, step, autoflush)
            == FlushCount(adds, step, autoflush) + if ShouldFlush((adds + 1) * step, autoflush) then 1 else 0
  {
  }

  lemma MulMono(x: int, y: int, n: int)
    requires x <= y && n > 0
    ensures x * n <= y * n
  {
    assert y * n - x * n == (y - x) * n;
  }

  /** Quotient and remainder are the only ones with `a == q * n + r`, `0 <= r < n`. */
  lemma DivUnique(a: int, n: int, q: int, r: int)
    requires n > 0 && 0 <= r < n && a == q * n + r
    ensures a / n == q && a % n == r
  {
    var q', r' := a / n, a % n;
    assert a == q' * n + r' && 0 <= r' < n;
    if q' > q {
      MulMono(q + 1, q', n);
      assert false;
    } else if q' < q {
      MulMono(q' + 1, q, n);
      assert false;
    }
  }

  /** Counting one more: the quotient grows exactly at multiples of `n`. */
  lemma DivStep(k: int, n: int)
    requires k >= 1 && n > 0
    ensures k / n == (k - 1) / n + (if k % n == 0 then 1 else 0)
  {
    var q, r := (k - 1) / n, (k - 1) % n;
    if r == n - 1 {
      DivUnique(k, n, q + 1, 0);
    } else {
      DivUnique(k, n, q, r + 1);
    }
  }

  /** As written the counter grows by 0, so it stays 0 and every add of a
      batch with a non-zero interval flushes. */
  lemma {:induction false} FlushCountAsWritten(adds: nat, n: int)
    requires n != 0
    ensures FlushCount(adds, 0, Some(n)) == adds
  {
    if adds > 0 {
      FlushCountAsWritten(adds - 1, n);
    }
  }

  /** With the counter growing by one, a batch flushes once per full
      interval: after the n-th, 2n-th, ... add. */
  lemma {:induction false} FlushCountEveryInterval(adds: nat, n: int)
    requires n > 0
    ensures FlushCount(adds, 1, Some(n)) == adds / n
  {
    if adds > 0 {
      FlushCountEveryInterval(adds - 1, n);
      DivStep(adds, n);
    }
  }

  /** Two adds with `autoflush=1000`: two flushes as written, none intended. */
  lemma FlushCountDiscrepancy()
    ensures FlushCount(2, 0, Some(1000)) == 2
    ensures FlushCount(2, 1, Some(1000)) == 0
  {
    FlushCountAsWritten(2, 1000);
    FlushCountEveryInterval(2, 1000);
  }
}
