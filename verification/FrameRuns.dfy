/** Runs of free frames below a bound, for a given set of taken frames. */
module FrameRuns {

  ghost predicate FreeRun(taken: set<nat>, s: nat, n: nat) {
    forall f: nat :: s <= f < s + n ==> f !in taken
  }

  /** Some run of `n` free frames lies below `total`. */
  ghost predicate HasRun(taken: set<nat>, total: nat, n: nat) {
    exists s: nat :: s + n <= total && FreeRun(taken, s, n)
  }

  ghost predicate IsLargest(taken: set<nat>, total: nat, r: nat) {
    HasRun(taken, total, r) && !HasRun(taken, total, r + 1)
  }

  ghost function FreeFrames(taken: set<nat>, total: nat): set<nat> {
    set f: nat | f < total && f !in taken
  }

  predicate StartsRun(taken: set<nat>, f: nat) {
    f !in taken && (f == 0 || f - 1 in taken)
  }

  /** The first frames of the maximal free runs. */
  ghost function RunStarts(taken: set<nat>, total: nat): set<nat> {
    set f: nat | f < total && StartsRun(taken, f)
  }

  /** A free run that cannot be extended at either end. */
  ghost predicate MaximalRun(taken: set<nat>, total: nat, s: nat, n: nat) {
    && n > 0 && s + n <= total && FreeRun(taken, s, n)
    && (s == 0 || s - 1 in taken) && (s + n == total || s + n in taken)
  }

  /** The length of the free run that ends just below `k`. */
  ghost function Tail(taken: set<nat>, k: nat): nat {
    if k == 0 || k - 1 in taken then 0 else 1 + Tail(taken, k - 1)
  }

  lemma TailStart(taken: set<nat>)
    ensures Tail(taken, 0) == 0
  {
  }

  lemma TailStep(taken: set<nat>, k: nat)
    ensures Tail(taken, k + 1) == if k in taken then 0 else Tail(taken, k) + 1
  {
  }

  lemma {:induction false} TailIsRun(taken: set<nat>, k: nat)
    ensures Tail(taken, k) <= k && FreeRun(taken, k - Tail(taken, k), Tail(taken, k))
  {
    if k > 0 && k - 1 !in taken {
      TailIsRun(taken, k - 1);
    }
  }

  lemma {:induction false} TailIsLongest(taken: set<nat>, k: nat, n: nat)
    requires n <= k && FreeRun(taken, k - n, n)
    ensures n <= Tail(taken, k)
  {
    if n > 0 {
      assert k - 1 !in taken;
      TailIsLongest(taken, k - 1, n - 1);
    }
  }

  lemma ShorterRun(taken: set<nat>, total: nat, n: nat, m: nat)
    requires n <= m && HasRun(taken, total, m)
    ensures HasRun(taken, total, n)
  {
    var s: nat :| s + m <= total && FreeRun(taken, s, m);
    assert FreeRun(taken, s, n);
  }

  /** The largest run decides which lengths can be placed. */
  lemma LargestDecides(taken: set<nat>, total: nat, r: nat, n: nat)
    requires IsLargest(taken, total, r)
    ensures HasRun(taken, total, n) <==> n <= r
  {
    if n <= r {
      ShorterRun(taken, total, n, r);
    } else if HasRun(taken, total, n) {
      ShorterRun(taken, total, r + 1, n);
    }
  }

  /** One more frame adds no run except those that end with it. */
  lemma RunsGrow(taken: set<nat>, k: nat, n: nat)
    ensures HasRun(taken, k + 1, n) <==> HasRun(taken, k, n) || n <= Tail(taken, k + 1)
  {
    if HasRun(taken, k + 1, n) {
      var s: nat :| s + n <= k + 1 && FreeRun(taken, s, n);
      if s + n == k + 1 {
        TailIsLongest(taken, k + 1, n);
      }
    }
    if HasRun(taken, k, n) {
      var s: nat :| s + n <= k && FreeRun(taken, s, n);
      assert s + n <= k + 1;
    }
    if n <= Tail(taken, k + 1) {
      TailIsRun(taken, k + 1);
      assert FreeRun(taken, k + 1 - n, n);
    }
  }

  lemma {:induction false} RunEnd(taken: set<nat>, total: nat, s: nat) returns (n: nat)
    requires s < total && s !in taken
    ensures n > 0 && s + n <= total && FreeRun(taken, s, n) && (s + n == total || s + n in taken)
  {
    n := 1;
    while s + n < total && s + n !in taken
      invariant n > 0 && s + n <= total && FreeRun(taken, s, n)
    {
      n := n + 1;
    }
  }

  /** The run starts are exactly the starts of maximal runs, one run for each. */
  lemma StartsAreMaximalRuns(taken: set<nat>, total: nat, s: nat)
    ensures s in RunStarts(taken, total) <==> exists n: nat :: MaximalRun(taken, total, s, n)
    ensures forall n: nat, m: nat :: MaximalRun(taken, total, s, n) && MaximalRun(taken, total, s, m) ==> n == m
  {
    if s in RunStarts(taken, total) {
      var n := RunEnd(taken, total, s);
      assert MaximalRun(taken, total, s, n);
    }
    forall n: nat, m: nat | MaximalRun(taken, total, s, n) && MaximalRun(taken, total, s, m) ensures n == m {
      assert n < m ==> s + n !in taken;
      assert m < n ==> s + m !in taken;
    }
  }

  lemma FreeFramesGrow(taken: set<nat>, k: nat)
    ensures FreeFrames(taken, k + 1) == if k in taken then FreeFrames(taken, k) else FreeFrames(taken, k) + {k}
    ensures |FreeFrames(taken, k + 1)| == |FreeFrames(taken, k)| + (if k in taken then 0 else 1)
  {
  }

  lemma RunStartsGrow(taken: set<nat>, k: nat)
    ensures |RunStarts(taken, k + 1)| == |RunStarts(taken, k)| + (if k !in taken && Tail(taken, k) == 0 then 1 else 0)
  {
    var starts := k !in taken && (k == 0 || k - 1 in taken);
    assert RunStarts(taken, k + 1) == if starts then RunStarts(taken, k) + {k} else RunStarts(taken, k);
  }

  lemma RunWithin(taken: set<nat>, total: nat, k: nat, n: nat)
    requires n <= Tail(taken, k) && k <= total
    ensures HasRun(taken, total, n)
  {
    TailIsRun(taken, k);
    assert (k - n) + n <= total && FreeRun(taken, k - n, n);
  }

  lemma {:induction false} PrefixBound(taken: set<nat>, total: nat, k: nat, longest: nat)
    requires k <= total && !HasRun(taken, total, longest + 1)
    ensures Tail(taken, k) <= longest
    ensures |FreeFrames(taken, k)| + (if Tail(taken, k) == 0 then 0 else longest - Tail(taken, k))
         <= |RunStarts(taken, k)| * longest
  {
    hide Tail, HasRun, FreeFrames, RunStarts;
    if Tail(taken, k) > longest {
      RunWithin(taken, total, k, longest + 1);
    }
    if k == 0 {
      NothingFree(taken);
      TailStart(taken);
    } else {
      TailStep(taken, k - 1);
      PrefixBound(taken, total, k - 1, longest);
      FreeFramesGrow(taken, k - 1);
      RunStartsGrow(taken, k - 1);
      var starts := |RunStarts(taken, k - 1)|;
      assert (starts + 1) * longest == starts * longest + longest;
    }
  }

  lemma NothingFree(taken: set<nat>)
    ensures FreeFrames(taken, 0) == {} && RunStarts(taken, 0) == {}
  {
  }

  /** There are at most as many free frames as maximal runs times the largest run. */
  lemma FragmentationBound(taken: set<nat>, total: nat, longest: nat)
    requires IsLargest(taken, total, longest)
    ensures |FreeFrames(taken, total)| <= |RunStarts(taken, total)| * longest
  {
    PrefixBound(taken, total, total, longest);
  }

  lemma {:induction false} FreeAndTaken(taken: set<nat>, total: nat)
    requires forall f :: f in taken ==> f < total
    ensures |FreeFrames(taken, total)| == total - |taken|
  {
    AllBelow(total);
    assert FreeFrames(taken, total) == FreeFrames({}, total) - taken;
    assert taken <= FreeFrames({}, total);
  }

  lemma {:induction false} AllBelow(n: nat)
    ensures |FreeFrames({}, n)| == n
  {
    if n > 0 {
      AllBelow(n - 1);
      FreeFramesGrow({}, n - 1);
    }
  }
}
