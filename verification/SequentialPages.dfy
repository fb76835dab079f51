/** The page allocator of src/syscall/core.rs as one thread would see it: whole operations on a set of taken pages. */
module SequentialPages {
  import opened Options

  /** The taken pages and the search hint. */
  datatype Pages = Pages(taken: set<nat>, hint: nat)

  /**
    A finished operation: the page handed out, if any, after so many failed compare-and-swaps, and the address that
    was answered; or the page given back, whether it was taken, and the address that was passed.
   */
  datatype Event = Alloc(result: Option<nat>, failed: nat, answer: Option<nat>) | Free(page: nat, ok: bool, addr: nat)

  /** The `k`-th page of the circular search from `hint`. */
  function Visit(total: nat, hint: nat, k: nat): nat
    requires total > 0
  {
    (hint + k) % total
  }

  /** The first free page of the circular search, starting with the `k`-th visit. */
  function NextFrom(taken: set<nat>, total: nat, hint: nat, k: nat): Option<nat>
    decreases total - k
  {
    if k >= total then None
    else if Visit(total, hint, k) !in taken then Some(Visit(total, hint, k))
    else NextFrom(taken, total, hint, k + 1)
  }

  /** The first `k` pages of the search are taken. */
  predicate Searched(total: nat, s: Pages, k: nat) {
    total > 0 ==> forall j: nat :: j < k ==> Visit(total, s.hint, j) in s.taken
  }

  /** The visit at which the circular search reaches page `p`. */
  function VisitOf(total: nat, hint: nat, p: nat): nat
    requires p < total && hint < total
  {
    if hint <= p then p - hint else p + total - hint
  }

  /** Page `p` is reached within the rounds that the failed compare-and-swaps leave. */
  predicate InTime(total: nat, s: Pages, p: nat, failed: nat) {
    p < total && s.hint < total && failed + VisitOf(total, s.hint, p) < total
  }

  /** Every failed compare-and-swap costs the search one of its `total` rounds. */
  predicate Legal(total: nat, s: Pages, e: Event) {
    match e
    case Alloc(None, failed, _) => failed <= total && Searched(total, s, total - failed)
    case Alloc(Some(p), failed, _) => NextFrom(s.taken, total, s.hint, 0) == Some(p) && InTime(total, s, p, failed)
    case Free(p, ok, _) => p < total && (ok <==> p in s.taken)
  }

  function Apply(total: nat, s: Pages, e: Event): Pages {
    match e
    case Alloc(None, _, _) => s
    case Alloc(Some(p), _, _) => Pages(s.taken + {p}, if total == 0 then 0 else (p + 1) % total)
    case Free(p, _, _) => Pages(s.taken - {p}, s.hint)
  }

  function Replay(total: nat, log: seq<Event>): Pages {
    if log == [] then Pages({}, 0) else Apply(total, Replay(total, log[..|log| - 1]), log[|log| - 1])
  }

  predicate AllLegal(total: nat, log: seq<Event>) {
    log == [] || (AllLegal(total, log[..|log| - 1]) && Legal(total, Replay(total, log[..|log| - 1]), log[|log| - 1]))
  }

  lemma ReplaySnoc(total: nat, log: seq<Event>, e: Event)
    ensures Replay(total, log + [e]) == Apply(total, Replay(total, log), e)
    ensures AllLegal(total, log + [e]) <==> AllLegal(total, log) && Legal(total, Replay(total, log), e)
  {
    assert (log + [e])[..|log|] == log;
  }

  lemma {:induction false} NextFromSkips(taken: set<nat>, total: nat, hint: nat, k: nat)
    requires total > 0 && k <= total
    requires forall j: nat :: j < k ==> Visit(total, hint, j) in taken
    ensures NextFrom(taken, total, hint, 0) == NextFrom(taken, total, hint, k)
  {
    if k > 0 {
      NextFromSkips(taken, total, hint, k - 1);
      assert Visit(total, hint, k - 1) in taken;
    }
  }

  lemma {:induction false} NextFromFound(taken: set<nat>, total: nat, hint: nat, k: nat)
    ensures match NextFrom(taken, total, hint, k)
      case None => forall j: nat :: k <= j < total ==> Visit(total, hint, j) in taken
      case Some(p) => p < total && p !in taken
    decreases total - k
  {
    hide Visit;
    if k < total {
      VisitBound(total, hint, k);
      NextFromFound(taken, total, hint, k + 1);
    }
  }

  lemma VisitBound(total: nat, hint: nat, k: nat)
    requires total > 0
    ensures Visit(total, hint, k) < total
  {
  }

  /** The search visits every page exactly once, from any hint. */
  lemma VisitsEachOnce(total: nat, hint: nat, p: nat, k: nat)
    requires p < total && hint < total && k < total
    ensures VisitOf(total, hint, p) < total
    ensures Visit(total, hint, k) == p <==> k == VisitOf(total, hint, p)
  {
    Wrap(total, hint + k);
  }

  lemma Wrap(total: nat, x: nat)
    requires 0 < total && x < 2 * total
    ensures x % total == if x < total then x else x - total
  {
    var q, r := x / total, x % total;
    assert x == total * q + r && 0 <= r < total;
    Bounded(total, q, r);
  }

  lemma Bounded(total: nat, q: int, r: nat)
    requires 0 < total && r < total && 0 <= total * q + r < 2 * total
    ensures q == 0 || q == 1
  {
  }

  ghost function FreePages(total: nat, taken: set<nat>): set<nat> {
    set p: nat | p < total && p !in taken
  }

  ghost function Rounds(lo: nat, hi: nat): (r: set<nat>)
    requires lo <= hi
    ensures |r| == hi - lo && forall j: nat :: j in r <==> lo <= j < hi
  {
    if lo == hi then {} else Rounds(lo, hi - 1) + {hi - 1}
  }

  lemma {:induction false} InjectionBound(total: nat, hint: nat, pages: set<nat>, rounds: set<nat>)
    requires hint < total && forall p :: p in pages ==> p < total && VisitOf(total, hint, p) in rounds
    ensures |pages| <= |rounds|
    decreases |pages|
  {
    if pages != {} {
      var p :| p in pages;
      InjectionBound(total, hint, pages - {p}, rounds - {VisitOf(total, hint, p)});
    }
  }

  /** A search that gave up after `failed` failed compare-and-swaps left at most that many pages free. */
  lemma GaveUpBound(total: nat, s: Pages, failed: nat)
    requires failed <= total && Searched(total, s, total - failed) && (total == 0 || s.hint < total)
    ensures |FreePages(total, s.taken)| <= failed
  {
    var free := FreePages(total, s.taken);
    if total == 0 {
      assert free == {};
    } else {
      var rounds := Rounds(total - failed, total);
      forall p | p in free ensures VisitOf(total, s.hint, p) in rounds {
        hide Visit;
        VisitsEachOnce(total, s.hint, p, 0);
        VisitsEachOnce(total, s.hint, p, VisitOf(total, s.hint, p));
      }
      InjectionBound(total, s.hint, free, rounds);
    }
  }

  /**
    A page handed out is the first free one of the search, and no page is handed out exactly when the search cannot
    reach any free page within the rounds that the failed compare-and-swaps leave.
   */
  lemma LegalAlloc(total: nat, s: Pages, r: Option<nat>, failed: nat, answer: Option<nat>)
    requires Legal(total, s, Alloc(r, failed, answer)) && (total == 0 || s.hint < total)
    ensures r.Some? ==> r.value in FreePages(total, s.taken)
    ensures r.Some? ==> forall p :: p in FreePages(total, s.taken) ==>
        VisitOf(total, s.hint, r.value) <= VisitOf(total, s.hint, p)
    ensures r == None <==> forall p :: p in FreePages(total, s.taken) ==> total <= failed + VisitOf(total, s.hint, p)
    ensures r == None ==> |FreePages(total, s.taken)| <= failed
  {
    if r == None {
      GaveUpBound(total, s, failed);
      forall p | p in FreePages(total, s.taken) ensures total <= failed + VisitOf(total, s.hint, p) {
        hide Visit;
        VisitsEachOnce(total, s.hint, p, 0);
        VisitsEachOnce(total, s.hint, p, VisitOf(total, s.hint, p));
      }
    } else {
      NextFromFound(s.taken, total, s.hint, 0);
      forall p | p in FreePages(total, s.taken) ensures VisitOf(total, s.hint, r.value) <= VisitOf(total, s.hint, p) {
        NextIsFirst(s.taken, total, s.hint, p);
      }
    }
  }

  lemma NextIsFirst(taken: set<nat>, total: nat, hint: nat, p: nat)
    requires hint < total && p < total && p !in taken
    ensures var r := NextFrom(taken, total, hint, 0);
      r.Some? && r.value < total && VisitOf(total, hint, r.value) <= VisitOf(total, hint, p)
  {
    hide Visit;
    VisitsEachOnce(total, hint, p, 0);
    VisitsEachOnce(total, hint, p, VisitOf(total, hint, p));
    NextBefore(taken, total, hint, 0, VisitOf(total, hint, p));
  }

  lemma {:induction false} NextBefore(taken: set<nat>, total: nat, hint: nat, k: nat, j: nat)
    requires hint < total && k <= j < total && Visit(total, hint, j) !in taken
    ensures var r := NextFrom(taken, total, hint, k);
      r.Some? && r.value < total && VisitOf(total, hint, r.value) <= j
    decreases total - k
  {
    hide Visit;
    VisitBound(total, hint, k);
    if Visit(total, hint, k) !in taken {
      VisitsEachOnce(total, hint, Visit(total, hint, k), k);
    } else {
      NextBefore(taken, total, hint, k + 1, j);
    }
  }

  lemma {:induction false} ReplayBounds(total: nat, log: seq<Event>)
    requires AllLegal(total, log)
    ensures forall p :: p in Replay(total, log).taken ==> p < total
    ensures if total == 0 then Replay(total, log).hint == 0 else Replay(total, log).hint < total
    decreases |log|
  {
    if log != [] {
      var prefix := log[..|log| - 1];
      ReplayBounds(total, prefix);
      var s := Replay(total, prefix);
      NextFromFound(s.taken, total, s.hint, 0);
    }
  }

  /** The taken pages are those handed out and not successfully given back since. */
  ghost predicate Holds(log: seq<Event>, p: nat) {
    exists i :: HandedOut(log, p, i) && forall k :: i < k ==> !GivenBack(log, p, k)
  }

  /** Event `k` gave page `p` back. */
  predicate GivenBack(log: seq<Event>, p: nat, k: int) {
    0 <= k < |log| && log[k].Free? && log[k].page == p && log[k].ok
  }

  predicate HandedOut(log: seq<Event>, p: nat, i: int) {
    0 <= i < |log| && log[i].Alloc? && log[i].result == Some(p)
  }

  lemma {:induction false} TakenAreHeld(total: nat, log: seq<Event>, p: nat)
    requires AllLegal(total, log)
    ensures p in Replay(total, log).taken <==> Holds(log, p)
    decreases |log|
  {
    if log != [] {
      var prefix, last := log[..|log| - 1], |log| - 1;
      TakenAreHeld(total, prefix, p);
      var before := Replay(total, prefix);
      if HandedOut(log, p, last) {
        assert HandedOut(log, p, last);
      } else if GivenBack(log, p, last) {
      } else {
        if Holds(prefix, p) {
          var i :| HandedOut(prefix, p, i) && forall k :: i < k ==> !GivenBack(prefix, p, k);
          assert HandedOut(log, p, i);
          forall k | i < k ensures !GivenBack(log, p, k) {
            assert k < last ==> !GivenBack(prefix, p, k);
          }
        }
        if Holds(log, p) {
          var i :| HandedOut(log, p, i) && forall k :: i < k ==> !GivenBack(log, p, k);
          assert HandedOut(prefix, p, i);
          forall k | i < k ensures !GivenBack(prefix, p, k) {
            assert !GivenBack(log, p, k);
          }
        }
      }
    }
  }

  /** No page is handed out twice without a successful deallocation in between. */
  lemma {:induction false} NoDoubleHandOut(total: nat, log: seq<Event>, p: nat, i: nat, j: nat)
    requires AllLegal(total, log) && i < j && HandedOut(log, p, i) && HandedOut(log, p, j)
    ensures exists k :: i < k < j && GivenBack(log, p, k)
    decreases |log|
  {
    if j < |log| - 1 {
      var shorter := log[..|log| - 1];
      NoDoubleHandOut(total, shorter, p, i, j);
      var k :| i < k < j && GivenBack(shorter, p, k);
      assert GivenBack(log, p, k);
    } else {
      var prefix := log[..j];
      var before := Replay(total, prefix);
      NextFromFound(before.taken, total, before.hint, 0);
      TakenAreHeld(total, prefix, p);
      assert HandedOut(prefix, p, i) && !Holds(prefix, p);
      var k :| i < k && GivenBack(prefix, p, k);
      assert GivenBack(log, p, k);
    }
  }
}
