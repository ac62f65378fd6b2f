/** Runs of free pages in a page map (true = reserved), and what it means to
    search for one. This is the reference the bitmap scan is proved against. */
module PageRuns {
  import opened Options

  /** Pages s, s + 1, ..., s + n - 1 all exist and are all free. */
  ghost predicate IsFreeRun(used: seq<bool>, s: nat, n: nat) {
    s + n <= |used| && forall p :: s <= p < s + n ==> !used[p]
  }

  /** The page map with pages s, ..., s + n - 1 set to `v`. */
  function Mark(used: seq<bool>, s: nat, n: nat, v: bool): (r: seq<bool>)
    ensures |r| == |used|
    ensures forall p :: 0 <= p < |used| ==> r[p] == if s <= p < s + n then v else used[p]
  {
    seq(|used|, p requires 0 <= p < |used| => if s <= p < s + n then v else used[p])
  }

  /** Naive search: try every start in [lo, hi - n] one after the other. */
  ghost function FirstRun(used: seq<bool>, lo: nat, hi: nat, n: nat): Option<nat>
    requires hi <= |used|
    decreases hi - lo
  {
    if lo + n > hi || lo >= hi then None
    else if IsFreeRun(used, lo, n) then Some(lo)
    else FirstRun(used, lo + 1, hi, n)
  }

  /** The search returns a run exactly when one lies wholly in [lo, hi), and then the lowest. */
  lemma {:induction false} FirstRunIsLowest(used: seq<bool>, lo: nat, hi: nat, n: nat)
    requires hi <= |used| && n >= 1
    ensures match FirstRun(used, lo, hi, n)
            case Some(s) =>
              && lo <= s && s + n <= hi && IsFreeRun(used, s, n)
              && (forall t: nat :: lo <= t < s ==> !IsFreeRun(used, t, n))
            case None =>
              forall t: nat :: lo <= t && t + n <= hi ==> !IsFreeRun(used, t, n)
    decreases hi - lo
  {
    if lo + n <= hi && !IsFreeRun(used, lo, n) {
      FirstRunIsLowest(used, lo + 1, hi, n);
    }
  }

  /** What is true of the lowest run is enough to find it. */
  lemma FirstRunFound(used: seq<bool>, lo: nat, hi: nat, n: nat, s: nat)
    requires lo <= s && s + n <= hi <= |used| && n >= 1 && IsFreeRun(used, s, n)
    requires forall t: nat :: lo <= t < s ==> !IsFreeRun(used, t, n)
    ensures FirstRun(used, lo, hi, n) == Some(s)
  {
    FirstRunIsLowest(used, lo, hi, n);
  }

  /** What a scan of [lo, hi) knows on reaching page i with `c` free pages just behind it:
      those pages are free, and no run starts before them. */
  ghost predicate Scanned(used: seq<bool>, lo: nat, hi: nat, n: nat, i: nat, c: nat) {
    && lo + c <= i <= hi <= |used| && c < n
    && (forall p :: i - c <= p < i ==> !used[p])
    && (forall t: nat :: lo <= t < i - c ==> !IsFreeRun(used, t, n))
  }

  lemma ScanFree(used: seq<bool>, lo: nat, hi: nat, n: nat, i: nat, c: nat)
    requires Scanned(used, lo, hi, n, i, c) && i < hi && !used[i]
    ensures c + 1 < n ==> Scanned(used, lo, hi, n, i + 1, c + 1)
    ensures c + 1 == n ==> FirstRun(used, lo, hi, n) == Some(i - c)
  {
    if c + 1 == n {
      FirstRunFound(used, lo, hi, n, i - c);
    }
  }

  /** A reserved page rules out every start it is within reach of. */
  lemma ScanReserved(used: seq<bool>, lo: nat, hi: nat, n: nat, i: nat, c: nat)
    requires Scanned(used, lo, hi, n, i, c) && i < hi && used[i]
    ensures Scanned(used, lo, hi, n, i + 1, 0)
  {
  }

  /** A stretch of reserved pages can be skipped as a whole. */
  lemma ScanSkip(used: seq<bool>, lo: nat, hi: nat, n: nat, i: nat, k: nat)
    requires Scanned(used, lo, hi, n, i, 0) && i <= k <= hi
    requires forall p :: i <= p < k ==> used[p]
    ensures Scanned(used, lo, hi, n, k, 0)
  {
    forall t: nat | lo <= t < k ensures !IsFreeRun(used, t, n) {
      assert t >= i ==> used[t];
    }
  }

  lemma ScanExhausted(used: seq<bool>, lo: nat, hi: nat, n: nat, c: nat)
    requires Scanned(used, lo, hi, n, hi, c)
    ensures FirstRun(used, lo, hi, n) == None
  {
    FirstRunIsLowest(used, lo, hi, n);
  }
}
