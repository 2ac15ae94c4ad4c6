/**
 * `is_possible` exactly as written: no path set, the dependency loop stops
 * at the first check that fails, and a question whose (distribution, extra)
 * pair is already being evaluated recurses without end. That outcome is the
 * value `None`: `is_possible` keeps no state, so a call that repeats a call
 * still on the stack asks the same questions in the same order and reaches
 * the same call again, until Python's recursion limit is hit.
 */
module AsWritten {

  import opened Wrappers
  import opened Names
  import opened Wheels
  import opened Resolver

  /**
   * The `for` loops over an extra's dependencies and their extras, asking the
   * questions `qs` in order while `stack` is being evaluated: the first check
   * that does not return true decides (`return False`, or a recursion that
   * never returns); when every check returns true, so does the loop.
   */
  function SourceAll(u: WheelMap, qs: seq<Query>, stack: set<Pair>): (r: Option<bool>)
    requires forall q :: q in qs ==> Rank(u, q.0, q.1) == 0
    decreases |Pairs(u) - stack|, 0, |qs|
  {
    if qs == [] then Some(true)
    else
      var first := SourceIsPossible(u, qs[0].0, qs[0].1, stack);
      if first == Some(true) then SourceAll(u, qs[1..], stack) else first
  }

  /** The loops return true exactly when every check returns true. */
  lemma {:induction false} SourceAllTrueIff(u: WheelMap, qs: seq<Query>, stack: set<Pair>)
    requires forall q :: q in qs ==> Rank(u, q.0, q.1) == 0
    ensures SourceAll(u, qs, stack) == Some(true) <==>
              forall k :: 0 <= k < |qs| ==> SourceIsPossible(u, qs[k].0, qs[k].1, stack) == Some(true)
  {
    if qs != [] && SourceIsPossible(u, qs[0].0, qs[0].1, stack) == Some(true) {
      SourceAllTrueIff(u, qs[1..], stack);
      assert forall k :: 1 <= k < |qs| ==> qs[k] == qs[1..][k - 1];
    }
  }

  /** Otherwise the first check that does not return true decides the outcome. */
  lemma {:induction false} SourceAllFirstFailure(u: WheelMap, qs: seq<Query>, stack: set<Pair>)
    requires forall q :: q in qs ==> Rank(u, q.0, q.1) == 0
    requires SourceAll(u, qs, stack) != Some(true)
    ensures exists k :: 0 <= k < |qs| && SourceAll(u, qs, stack) == SourceIsPossible(u, qs[k].0, qs[k].1, stack) &&
                        forall j :: 0 <= j < k ==> SourceIsPossible(u, qs[j].0, qs[j].1, stack) == Some(true)
  {
    if SourceIsPossible(u, qs[0].0, qs[0].1, stack) == Some(true) {
      var tail := qs[1..];
      SourceAllFirstFailure(u, tail, stack);
      var k :| 0 <= k < |tail| && SourceAll(u, tail, stack) == SourceIsPossible(u, tail[k].0, tail[k].1, stack) &&
               forall j :: 0 <= j < k ==> SourceIsPossible(u, tail[j].0, tail[j].1, stack) == Some(true);
      assert SourceAll(u, qs, stack) == SourceIsPossible(u, qs[k + 1].0, qs[k + 1].1, stack) by {
        assert qs[k + 1] == tail[k];
      }
      forall j | 0 <= j < k + 1
        ensures SourceIsPossible(u, qs[j].0, qs[j].1, stack) == Some(true)
      {
        if j > 0 {
          assert qs[j] == tail[j - 1];
        }
      }
    } else {
      assert SourceAll(u, qs, stack) == SourceIsPossible(u, qs[0].0, qs[0].1, stack);
    }
  }

  /**
   * `is_possible(distro, extra)` called while the pairs in `stack` are being
   * evaluated: `Some(b)` when the call returns `b`, `None` when it never
   * returns.
   */
  function SourceIsPossible(u: WheelMap, distro: string, extra: Option<string>, stack: set<Pair>): (r: Option<bool>)
    ensures ReplaceDash(distro) !in u ==> r == Some(false)
    ensures ReplaceDash(distro) in u && NoExtra(extra) ==> r == Some(true)
    decreases |Pairs(u) - stack|, Rank(u, distro, extra), 0
  {
    var n := ReplaceDash(distro);
    if n !in u then Some(false)
    else if NoExtra(extra) then Some(true)
    else if (n, extra.value) in stack then None
    else
      var p := (n, extra.value);
      PathShrinks(Pairs(u), stack, p);
      QueriesStayInPairs(u, n, extra.value);
      SourceAll(u, Queries(Dependencies(u[n], extra.value)), stack + {p})
  }

  /** Whenever the loop finishes, its answer is the conjunction the guarded model takes. */
  lemma {:induction false} SourceAllAgrees(u: WheelMap, qs: seq<Query>, stack: set<Pair>)
    requires forall q :: q in qs ==> Rank(u, q.0, q.1) == 0
    requires SourceAll(u, qs, stack).Some?
    ensures SourceAll(u, qs, stack).value <==> forall q :: q in qs ==> IsPossibleOn(u, q.0, q.1, stack)
    decreases |Pairs(u) - stack|, 0, |qs|
  {
    if qs != [] {
      SourceAgrees(u, qs[0].0, qs[0].1, stack);
      if SourceIsPossible(u, qs[0].0, qs[0].1, stack) == Some(true) {
        SourceAllAgrees(u, qs[1..], stack);
        assert forall q :: q in qs ==> q == qs[0] || q in qs[1..];
      }
    }
  }

  /** Whenever the source returns, the guarded model gives the same answer. */
  lemma {:induction false} SourceAgrees(u: WheelMap, distro: string, extra: Option<string>, stack: set<Pair>)
    requires SourceIsPossible(u, distro, extra, stack).Some?
    ensures IsPossibleOn(u, distro, extra, stack) == SourceIsPossible(u, distro, extra, stack).value
    decreases |Pairs(u) - stack|, Rank(u, distro, extra), 0
  {
    var n := ReplaceDash(distro);
    if n in u && !NoExtra(extra) {
      var p := (n, extra.value);
      PathShrinks(Pairs(u), stack, p);
      QueriesStayInPairs(u, n, extra.value);
      SourceAllAgrees(u, Queries(Dependencies(u[n], extra.value)), stack + {p});
    }
  }

  /** Where the source never returns, the guarded model answers false. */
  lemma {:induction false} DivergenceRejected(u: WheelMap, distro: string, extra: Option<string>, stack: set<Pair>)
    requires SourceIsPossible(u, distro, extra, stack) == None
    ensures !IsPossibleOn(u, distro, extra, stack)
    decreases |Pairs(u) - stack|, Rank(u, distro, extra), 0
  {
    var n := ReplaceDash(distro);
    var p := (n, extra.value);
    if p !in stack {
      PathShrinks(Pairs(u), stack, p);
      QueriesStayInPairs(u, n, extra.value);
      DivergentLoopRejected(u, Queries(Dependencies(u[n], extra.value)), stack + {p});
    }
  }

  /** A loop that never returns contains a check the guarded model rejects. */
  lemma {:induction false} DivergentLoopRejected(u: WheelMap, qs: seq<Query>, stack: set<Pair>)
    requires forall q :: q in qs ==> Rank(u, q.0, q.1) == 0
    requires SourceAll(u, qs, stack) == None
    ensures exists q :: q in qs && !IsPossibleOn(u, q.0, q.1, stack)
    decreases |Pairs(u) - stack|, 0, |qs|
  {
    if SourceIsPossible(u, qs[0].0, qs[0].1, stack) == Some(true) {
      DivergentLoopRejected(u, qs[1..], stack);
      var q :| q in qs[1..] && !IsPossibleOn(u, q.0, q.1, stack);
      assert q in qs;
    } else {
      DivergenceRejected(u, qs[0].0, qs[0].1, stack);
    }
  }

  /**
   * The guarded model accepts a question from the top exactly when the source,
   * asked the same question, returns true.
   */
  lemma SourceTrueIff(u: WheelMap, distro: string, extra: Option<string>)
    ensures IsPossible(u, distro, extra) <==> SourceIsPossible(u, distro, extra, {}) == Some(true)
  {
    if SourceIsPossible(u, distro, extra, {}) == None {
      DivergenceRejected(u, distro, extra, {});
    } else {
      SourceAgrees(u, distro, extra, {});
    }
  }

  /**
   * A ranking of the (distribution, extra) pairs under which every extra
   * requested by an extra's dependencies ranks strictly lower: the extras of
   * `u` form no cycle.
   */
  ghost predicate Acyclic(u: WheelMap, rank: (string, string) -> nat)
  {
    forall n, e, q :: n in u && q in Queries(Dependencies(u[n], e)) && ReplaceDash(q.0) in u && !NoExtra(q.1) ==>
      rank(ReplaceDash(q.0), q.1.value) < rank(n, e)
  }

  /** Every pair on the stack ranks above the question `(distro, extra)`. */
  ghost predicate StackAbove(u: WheelMap, rank: (string, string) -> nat, distro: string, extra: Option<string>, stack: set<Pair>)
  {
    ReplaceDash(distro) in u && !NoExtra(extra) ==>
      forall s :: s in stack ==> rank(s.0, s.1) > rank(ReplaceDash(distro), extra.value)
  }

  lemma {:induction false} SourceAllTerminates(u: WheelMap, rank: (string, string) -> nat, qs: seq<Query>, stack: set<Pair>)
    requires Acyclic(u, rank)
    requires forall q :: q in qs ==> Rank(u, q.0, q.1) == 0 && StackAbove(u, rank, q.0, q.1, stack)
    ensures SourceAll(u, qs, stack).Some?
    decreases |Pairs(u) - stack|, 0, |qs|
  {
    if qs != [] {
      SourceTerminates(u, rank, qs[0].0, qs[0].1, stack);
      SourceAllTerminates(u, rank, qs[1..], stack);
    }
  }

  /** Pushing `(n, e)` keeps every question that extra raises below the whole stack. */
  lemma StackAboveChildren(u: WheelMap, rank: (string, string) -> nat, n: string, e: string, stack: set<Pair>)
    requires Acyclic(u, rank)
    requires n in u
    requires forall s :: s in stack ==> rank(s.0, s.1) > rank(n, e)
    ensures forall q :: q in Queries(Dependencies(u[n], e)) ==> StackAbove(u, rank, q.0, q.1, stack + {(n, e)})
  {
    forall q | q in Queries(Dependencies(u[n], e)) ensures StackAbove(u, rank, q.0, q.1, stack + {(n, e)}) {
      if ReplaceDash(q.0) in u && !NoExtra(q.1) {
        assert rank(ReplaceDash(q.0), q.1.value) < rank(n, e);
      }
    }
  }

  /** On an acyclic universe the source never recurses forever. */
  lemma {:induction false} SourceTerminates(u: WheelMap, rank: (string, string) -> nat, distro: string, extra: Option<string>, stack: set<Pair>)
    requires Acyclic(u, rank)
    requires StackAbove(u, rank, distro, extra, stack)
    ensures SourceIsPossible(u, distro, extra, stack).Some?
    decreases |Pairs(u) - stack|, Rank(u, distro, extra), 0
  {
    var n := ReplaceDash(distro);
    if n in u && !NoExtra(extra) {
      var p := (n, extra.value);
      var qs := Queries(Dependencies(u[n], extra.value));
      PathShrinks(Pairs(u), stack, p);
      QueriesStayInPairs(u, n, extra.value);
      StackAboveChildren(u, rank, n, extra.value, stack);
      SourceAllTerminates(u, rank, qs, stack + {p});
    }
  }

  /** On an acyclic universe the guarded model is exactly what the source computes. */
  lemma AcyclicAgrees(u: WheelMap, rank: (string, string) -> nat, distro: string, extra: Option<string>)
    requires Acyclic(u, rank)
    ensures SourceIsPossible(u, distro, extra, {}) == Some(IsPossible(u, distro, extra))
  {
    SourceTerminates(u, rank, distro, extra, {});
    SourceAgrees(u, distro, extra, {});
  }
}
