/**
  The slideshow cursor: an index into a catalog of `n` projects that the
  auto-advance interval moves forward one step at a time, wrapping around
  at the end of the catalog.
 */
module Cursor {

  /** One auto-advance step, `(prev + 1) % n`. The remainder is taken of a
      non-negative number, so JavaScript's truncating `%` and Dafny's
      Euclidean `%` agree here. */
  function Advance(cursor: nat, n: nat): (r: nat)
    requires n >= 1
    ensures r < n
    ensures cursor + 1 < n ==> r == cursor + 1
    ensures cursor + 1 == n ==> r == 0
  {
    (cursor + 1) % n
  }

  /** The cursor after `k` consecutive advances from `cursor`. */
  function AdvanceN(k: nat, cursor: nat, n: nat): (r: nat)
    requires n >= 1
    ensures k > 0 || cursor < n ==> r < n
    decreases k
  {
    if k == 0 then cursor else Advance(AdvanceN(k - 1, cursor, n), n)
  }

  /** Within one lap, advancing `k` times from `c` is plain addition that
      wraps once past the end of the catalog. */
  lemma {:induction false} AdvanceNWithinLap(k: nat, c: nat, n: nat)
    requires n >= 1 && c < n && k <= n
    ensures AdvanceN(k, c, n) == if c + k < n then c + k else c + k - n
    decreases k
  {
    if k > 0 {
      AdvanceNWithinLap(k - 1, c, n);
    }
  }

  /** `n` consecutive advances bring the cursor back to where it started. */
  lemma FullCycle(c: nat, n: nat)
    requires n >= 1 && c < n
    ensures AdvanceN(n, c, n) == c
  {
    AdvanceNWithinLap(n, c, n);
  }

  /** The number of ticks that takes the cursor from `c` to `t` within one lap. */
  function TicksBetween(c: nat, t: nat, n: nat): nat
    requires c < n && t < n
  {
    if c <= t then t - c else t + n - c
  }

  /** The `n` positions of one lap are pairwise distinct, and every index of
      the catalog is reached within the lap: each project is shown exactly once. */
  lemma LapVisitsEachIndexOnce(c: nat, n: nat)
    requires n >= 1 && c < n
    ensures forall i, j :: 0 <= i < j < n ==> AdvanceN(i, c, n) != AdvanceN(j, c, n)
    ensures forall t :: 0 <= t < n ==>
              TicksBetween(c, t, n) < n && AdvanceN(TicksBetween(c, t, n), c, n) == t
  {
    forall i, j | 0 <= i < j < n
      ensures AdvanceN(i, c, n) != AdvanceN(j, c, n)
    {
      AdvanceNWithinLap(i, c, n);
      AdvanceNWithinLap(j, c, n);
    }
    forall t | 0 <= t < n
      ensures TicksBetween(c, t, n) < n && AdvanceN(TicksBetween(c, t, n), c, n) == t
    {
      AdvanceNWithinLap(TicksBetween(c, t, n), c, n);
    }
  }

  /** Division by `n` is unique: `q * n + r` with `0 <= r < n` has remainder `r`. */
  lemma ModOfQuotientForm(x: int, q: int, r: int, n: int)
    requires n >= 1 && 0 <= r < n && x == q * n + r
    ensures x % n == r
  {
    var q' := x / n;
    var r' := x % n;
    assert q' * n + r' == q * n + r;
    if q' > q {
      MulAtLeast(q' - q, n);
      assert false;
    } else if q' < q {
      MulAtLeast(q - q', n);
      assert false;
    }
  }

  lemma MulAtLeast(a: int, n: int)
    requires a >= 1 && n >= 1
    ensures a * n >= n
  {
  }

  /** Taking the remainder before or after one increment gives the same index. */
  lemma ModSucc(x: nat, n: nat)
    requires n >= 1
    ensures ((x % n) + 1) % n == (x + 1) % n
  {
    var q := x / n;
    var r := x % n;
    assert x == q * n + r;
    if r + 1 < n {
      ModOfQuotientForm(x + 1, q, r + 1, n);
      ModOfQuotientForm(r + 1, 0, r + 1, n);
    } else {
      assert x + 1 == (q + 1) * n + 0;
      ModOfQuotientForm(x + 1, q + 1, 0, n);
      ModOfQuotientForm(r + 1, 1, 0, n);
    }
  }

  /** Reference definition: after `k` ticks from `c` the cursor is
      `(c + k) mod n`, for every number of ticks. */
  lemma {:induction false} AdvanceNIsModularSum(k: nat, c: nat, n: nat)
    requires n >= 1 && c < n
    ensures AdvanceN(k, c, n) == (c + k) % n
    decreases k
  {
    if k == 0 {
      ModOfQuotientForm(c, 0, c, n);
    } else {
      AdvanceNIsModularSum(k - 1, c, n);
      ModSucc(c + k - 1, n);
    }
  }

  /** Ticks compose: `a` ticks followed by `b` ticks are `a + b` ticks. */
  lemma {:induction false} AdvanceNAdditive(a: nat, b: nat, c: nat, n: nat)
    requires n >= 1
    ensures AdvanceN(b, AdvanceN(a, c, n), n) == AdvanceN(a + b, c, n)
    decreases b
  {
    if b > 0 {
      AdvanceNAdditive(a, b - 1, c, n);
    }
  }
}
