/**
 * The search for a free run of pages in mmap: what it looks for, and why looking there is enough
 * (src/process/process_memory.rs).
 */
module FreeRuns {
  import opened Physical

  /** The n pages that end at page `last`; check_collapse computes last - n first, so it needs n <= last. */
  function RunEndingAt(last: nat, n: nat): set<nat>
    requires n <= last
  {
    PageRange(last + 1 - n, n)
  }

  /** A run of n pages ending at `last` is wholly unmapped. */
  ghost predicate FreeRun(keys: set<nat>, last: nat, n: nat) {
    n <= last && RunEndingAt(last, n) !! keys
  }

  /** Where a run may end: just below the mmap base, or anywhere from the break page up to there. */
  ghost predicate Allowed(base: nat, brkPage: nat, last: nat) {
    last == base || brkPage <= last < base
  }

  /** The fallback looks only just below mapped pages between the break and the mmap base. */
  predicate Candidate(keys: set<nat>, base: nat, brkPage: nat, mapped: nat) {
    mapped in keys && brkPage < mapped <= base && mapped - 1 !in keys
  }

  /** What mmap chose: the run just below the base if it is free, otherwise the lowest candidate that fits. */
  ghost predicate Chosen(keys: set<nat>, base: nat, brkPage: nat, n: nat, last: nat) {
    && FreeRun(keys, last, n)
    && (FreeRun(keys, base, n) ==> last == base)
    && (!FreeRun(keys, base, n) ==>
          && Candidate(keys, base, brkPage, last + 1)
          && forall q: nat :: Candidate(keys, base, brkPage, q) && q <= last ==> !FreeRun(keys, q - 1, n))
  }

  /**
   * The search panics on a request that reaches below page zero: at the base, or at the first candidate it looks at.
   */
  ghost predicate RunTooLong(keys: set<nat>, base: nat, brkPage: nat, n: nat) {
    || (base !in keys && n > base)
    || (!FreeRun(keys, base, n) && exists q: nat :: Candidate(keys, base, brkPage, q) && n >= q)
  }

  /** A request that fits below the break page never panics. */
  lemma ShortRequestsNeverPanic(keys: set<nat>, base: nat, brkPage: nat, n: nat)
    requires n <= base && n <= brkPage
    ensures !RunTooLong(keys, base, brkPage, n)
  {
  }

  /** The least mapped page in (last, base], if there is one. */
  lemma LeastAbove(keys: set<nat>, last: nat, base: nat) returns (q: nat)
    requires last <= base
    ensures last < q <= base + 1 && (q <= base ==> q in keys) && forall p :: last < p < q ==> p !in keys
  {
    q := last + 1;
    while q <= base && q !in keys
      invariant last < q <= base + 1 && forall p :: last < p < q ==> p !in keys
    {
      q := q + 1;
    }
  }

  /** Any free run that may be used can be slid up against the base or against a candidate. */
  lemma SlideUp(keys: set<nat>, base: nat, brkPage: nat, n: nat, last: nat)
    requires n > 0 && FreeRun(keys, last, n) && Allowed(base, brkPage, last)
    ensures FreeRun(keys, base, n) || exists q: nat :: Candidate(keys, base, brkPage, q) && FreeRun(keys, q - 1, n)
  {
    var q := LeastAbove(keys, last, base);
    assert last in RunEndingAt(last, n);
    forall p | p in RunEndingAt(q - 1, n) ensures p !in keys {
      if p <= last { assert p in RunEndingAt(last, n); }
    }
    assert FreeRun(keys, q - 1, n);
    if q <= base {
      assert Candidate(keys, base, brkPage, q);
    }
  }

  /** The search is complete: it has something to choose exactly when some allowed run is free. */
  lemma SearchComplete(keys: set<nat>, base: nat, brkPage: nat, n: nat)
    requires n > 0
    ensures
      (|| FreeRun(keys, base, n)
       || exists q: nat :: Candidate(keys, base, brkPage, q) && FreeRun(keys, q - 1, n)) <==>
      exists last :: Allowed(base, brkPage, last) && FreeRun(keys, last, n)
  {
    if last :| Allowed(base, brkPage, last) && FreeRun(keys, last, n) {
      SlideUp(keys, base, brkPage, n, last);
    }
    if q: nat :| Candidate(keys, base, brkPage, q) && FreeRun(keys, q - 1, n) {
      assert Allowed(base, brkPage, q - 1);
    }
    if FreeRun(keys, base, n) {
      assert Allowed(base, brkPage, base);
    }
  }
}
