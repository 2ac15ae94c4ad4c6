/**
 * The extras resolver `determine_possible_extras` and its recursive
 * predicate `is_possible`, with the one addition termination forces: a set
 * of (distribution, extra) pairs already on the current recursion path, and
 * re-entering such a pair yields false.
 */
module Resolver {

  import opened Wrappers
  import opened Names
  import opened Wheels

  /** A (normalised distribution, extra) pair on the recursion path. */
  type Pair = (string, string)

  /** One recursive question `is_possible(name, extra)`, extra `None` for the base package. */
  type Query = (string, Option<string>)

  /** Python's `not extra`: both `None` and the empty string ask for the base package. */
  predicate NoExtra(extra: Option<string>)
  {
    extra.None? || extra.value == ""
  }

  function ExtraQueries(r: Requirement): (qs: seq<Query>)
    ensures |qs| == |r.extras|
    ensures forall i :: 0 <= i < |qs| ==> qs[i] == (r.projectName, Some(r.extras[i]))
  {
    seq(|r.extras|, i requires 0 <= i < |r.extras| => (r.projectName, Some(r.extras[i])))
  }

  /**
   * The recursive questions the loop over an extra's dependencies asks, in
   * the order it asks them: for each requirement its base package first,
   * then each extra it requests.
   */
  function Queries(deps: seq<Requirement>): seq<Query>
  {
    if deps == [] then []
    else [(deps[0].projectName, None)] + ExtraQueries(deps[0]) + Queries(deps[1..])
  }

  /** `q` is one of the questions a requirement `r` raises. */
  predicate Asks(r: Requirement, q: Query)
  {
    q.0 == r.projectName && (q.1 == None || (q.1.Some? && q.1.value in r.extras))
  }

  lemma {:induction false} QueriesMembership(deps: seq<Requirement>, q: Query)
    ensures q in Queries(deps) <==> exists r :: r in deps && Asks(r, q)
  {
    if deps != [] {
      QueriesMembership(deps[1..], q);
      var r := deps[0];
      var head := [(r.projectName, None)] + ExtraQueries(r);
      assert Queries(deps) == head + Queries(deps[1..]);
      if Asks(r, q) && q.1.Some? {
        var i :| 0 <= i < |r.extras| && r.extras[i] == q.1.value;
        assert head[i + 1] == q;
      }
      if q in head {
        assert Asks(r, q);
      }
      if exists r' :: r' in deps[1..] && Asks(r', q) {
        var r' :| r' in deps[1..] && Asks(r', q);
        assert r' in deps;
      }
      if exists r' :: r' in deps && Asks(r', q) {
        var r' :| r' in deps && Asks(r', q);
        if r' != r {
          assert r' in deps[1..];
        }
      }
    }
  }

  /** Every extra requested anywhere in the universe. */
  function RequestedExtras(u: WheelMap): set<string>
  {
    set k, e, q | k in u && e in u[k].extraRequires && q in Queries(u[k].extraRequires[e]) && q.1.Some? :: q.1.value
  }

  /** The pairs the recursion can put on its path below the top-level call. */
  function Pairs(u: WheelMap): set<Pair>
  {
    set k, x | k in u && x in RequestedExtras(u) :: (k, x)
  }

  /** 1 only for a top-level question whose pair lies outside `Pairs(u)`. */
  function Rank(u: WheelMap, distro: string, extra: Option<string>): nat
  {
    if ReplaceDash(distro) in u && !NoExtra(extra) && (ReplaceDash(distro), extra.value) !in Pairs(u) then 1 else 0
  }

  lemma PathShrinks(all: set<Pair>, path: set<Pair>, p: Pair)
    requires p !in path
    ensures p in all ==> |all - (path + {p})| < |all - path|
    ensures p !in all ==> all - (path + {p}) == all - path
  {
    if p in all {
      assert all - path == (all - (path + {p})) + {p};
    }
  }

  /** The questions an extra of a present wheel raises stay inside `Pairs(u)`. */
  lemma QueriesStayInPairs(u: WheelMap, n: string, e: string)
    requires n in u
    ensures forall q :: q in Queries(Dependencies(u[n], e)) && ReplaceDash(q.0) in u && q.1.Some? ==>
              (ReplaceDash(q.0), q.1.value) in Pairs(u)
  {
    forall q | q in Queries(Dependencies(u[n], e)) && ReplaceDash(q.0) in u && q.1.Some?
      ensures (ReplaceDash(q.0), q.1.value) in Pairs(u)
    {
      assert e in u[n].extraRequires;
      assert q.1.value in RequestedExtras(u);
    }
  }

  /**
   * `is_possible(distro, extra)` evaluated with `path` on the recursion path.
   * The name is normalised by `-` to `_` only; the keys are left as they are.
   */
  function IsPossibleOn(u: WheelMap, distro: string, extra: Option<string>, path: set<Pair>): (r: bool)
    ensures r ==> ReplaceDash(distro) in u
    ensures ReplaceDash(distro) in u && NoExtra(extra) ==> r
    decreases |Pairs(u) - path|, Rank(u, distro, extra)
  {
    var n := ReplaceDash(distro);
    if n !in u then false
    else if NoExtra(extra) then true
    else if (n, extra.value) in path then false
    else
      var p := (n, extra.value);
      PathShrinks(Pairs(u), path, p);
      QueriesStayInPairs(u, n, extra.value);
      forall q :: q in Queries(Dependencies(u[n], extra.value)) ==> IsPossibleOn(u, q.0, q.1, path + {p})
  }

  /** `is_possible(distro, extra)` as called from the top: nothing on the path yet. */
  function IsPossible(u: WheelMap, distro: string, extra: Option<string>): bool
  {
    IsPossibleOn(u, distro, extra, {})
  }

  /**
   * For a present wheel and a non-empty extra: the extra is possible exactly
   * when it is not already on the path and, for every dependency of that
   * extra, the base package and each extra requested on it are possible.
   */
  lemma ExtraPossibleIff(u: WheelMap, distro: string, e: string, path: set<Pair>)
    requires ReplaceDash(distro) in u && e != ""
    ensures var n := ReplaceDash(distro);
            var path' := path + {(n, e)};
            IsPossibleOn(u, distro, Some(e), path) <==>
              && (n, e) !in path
              && forall d :: d in Dependencies(u[n], e) ==>
                   && IsPossibleOn(u, d.projectName, None, path')
                   && forall x :: x in d.extras ==> IsPossibleOn(u, d.projectName, Some(x), path')
  {
    var n := ReplaceDash(distro);
    var path' := path + {(n, e)};
    var deps := Dependencies(u[n], e);
    if (n, e) !in path {
      forall q | q in Queries(deps) ensures exists d :: d in deps && Asks(d, q) {
        QueriesMembership(deps, q);
      }
      forall d, q | d in deps && Asks(d, q) ensures q in Queries(deps) {
        QueriesMembership(deps, q);
      }
      forall d | d in deps ensures (d.projectName, None) in Queries(deps) {
        assert Asks(d, (d.projectName, None));
      }
      forall d, x | d in deps && x in d.extras ensures (d.projectName, Some(x)) in Queries(deps) {
        assert Asks(d, (d.projectName, Some(x)));
      }
    }
  }

  /** An extra with no dependencies is possible as soon as its wheel is present. */
  lemma EmptyExtraIsPossible(u: WheelMap, distro: string, e: string)
    requires ReplaceDash(distro) in u
    requires Dependencies(u[ReplaceDash(distro)], e) == []
    ensures IsPossible(u, distro, Some(e))
  {
  }

  /** The lookup treats `-` and `_` in the queried name alike, whatever is asked. */
  lemma SeparatorInsensitive(u: WheelMap, a: string, b: string, extra: Option<string>, path: set<Pair>)
    requires SameUpToSeparator(a, b)
    ensures IsPossibleOn(u, a, extra, path) == IsPossibleOn(u, b, extra, path)
  {
    ReplaceDashIdentifiesSeparators(a, b);
  }

  /** A longer recursion path can only turn answers from true to false. */
  lemma {:induction false} PathMonotone(u: WheelMap, distro: string, extra: Option<string>, small: set<Pair>, large: set<Pair>)
    requires small <= large
    requires IsPossibleOn(u, distro, extra, large)
    ensures IsPossibleOn(u, distro, extra, small)
    decreases |Pairs(u) - large|, Rank(u, distro, extra)
  {
    var n := ReplaceDash(distro);
    if !NoExtra(extra) {
      var p := (n, extra.value);
      PathShrinks(Pairs(u), large, p);
      QueriesStayInPairs(u, n, extra.value);
      forall q | q in Queries(Dependencies(u[n], extra.value))
        ensures IsPossibleOn(u, q.0, q.1, small + {p})
      {
        PathMonotone(u, q.0, q.1, small + {p}, large + {p});
      }
    }
  }

  /** An extra that requests itself, directly, can never be built. */
  lemma SelfRequiringExtraImpossible(u: WheelMap, distro: string, e: string, d: Requirement)
    requires ReplaceDash(distro) in u && e != ""
    requires d in Dependencies(u[ReplaceDash(distro)], e)
    requires ReplaceDash(d.projectName) == ReplaceDash(distro) && e in d.extras
    ensures !IsPossible(u, distro, Some(e))
  {
    var n := ReplaceDash(distro);
    ExtraPossibleIff(u, distro, e, {});
    assert !IsPossibleOn(u, d.projectName, Some(e), {(n, e)});
  }

  /**
   * If adding the pair of `(distro, e)` to the path turns a question from
   * true to false, the evaluation under the shorter path reached that pair
   * and found it possible.
   */
  lemma {:induction false} Reentry(u: WheelMap, cd: string, cx: Option<string>, distro: string, e: string, path: set<Pair>)
    requires IsPossibleOn(u, cd, cx, path)
    requires !IsPossibleOn(u, cd, cx, path + {(ReplaceDash(distro), e)})
    ensures IsPossibleOn(u, distro, Some(e), path)
    decreases |Pairs(u) - path|, Rank(u, cd, cx)
  {
    var p := (ReplaceDash(distro), e);
    var n := ReplaceDash(cd);
    if n in u && !NoExtra(cx) {
      var c := (n, cx.value);
      assert c !in path;
      if c == p {
        ReplaceDashIdentifiesSeparators(cd, distro);
        SeparatorInsensitive(u, cd, distro, cx, path);
      } else {
        var q := FailingQuery(u, cd, cx, path + {p});
        assert IsPossibleOn(u, q.0, q.1, path + {c}) by {
          assert q in Queries(Dependencies(u[n], cx.value));
        }
        assert !IsPossibleOn(u, q.0, q.1, path + {c} + {p}) by {
          assert path + {p} + {c} == path + {c} + {p};
        }
        PathShrinks(Pairs(u), path, c);
        QueriesStayInPairs(u, n, cx.value);
        Reentry(u, q.0, q.1, distro, e, path + {c});
        PathMonotone(u, distro, Some(e), path, path + {c});
      }
    }
  }

  /** A rejected extra of a present wheel, off the path, has a question among its dependencies that fails. */
  lemma FailingQuery(u: WheelMap, distro: string, extra: Option<string>, path: set<Pair>) returns (q: Query)
    requires ReplaceDash(distro) in u && !NoExtra(extra)
    requires (ReplaceDash(distro), extra.value) !in path
    requires !IsPossibleOn(u, distro, extra, path)
    ensures q in Queries(Dependencies(u[ReplaceDash(distro)], extra.value))
    ensures !IsPossibleOn(u, q.0, q.1, path + {(ReplaceDash(distro), extra.value)})
  {
    var n := ReplaceDash(distro);
    q :| q in Queries(Dependencies(u[n], extra.value)) && !IsPossibleOn(u, q.0, q.1, path + {(n, extra.value)});
  }

  /**
   * From the top, an extra of a present wheel is possible exactly when, for
   * each of its dependencies, the base package and every extra requested on
   * it are possible from the top.
   */
  lemma TopLevelIff(u: WheelMap, distro: string, e: string)
    requires ReplaceDash(distro) in u && e != ""
    ensures IsPossible(u, distro, Some(e)) <==>
              forall d :: d in Dependencies(u[ReplaceDash(distro)], e) ==>
                && IsPossible(u, d.projectName, None)
                && forall x :: x in d.extras ==> IsPossible(u, d.projectName, Some(x))
  {
    var n := ReplaceDash(distro);
    var p := (n, e);
    var deps := Dependencies(u[n], e);
    assert {} + {p} == {p};
    ExtraPossibleIff(u, distro, e, {});
    if IsPossible(u, distro, Some(e)) {
      forall d, x | d in deps && x in d.extras ensures IsPossible(u, d.projectName, Some(x)) {
        PathMonotone(u, d.projectName, Some(x), {}, {p});
      }
    } else if forall d :: d in deps ==> forall x :: x in d.extras ==> IsPossible(u, d.projectName, Some(x)) {
      forall d, x | d in deps && x in d.extras ensures IsPossibleOn(u, d.projectName, Some(x), {p}) {
        if !IsPossibleOn(u, d.projectName, Some(x), {p}) {
          Reentry(u, d.projectName, Some(x), distro, e, {});
        }
      }
    }
  }

  /**
   * Keeps the extras of `extras`, in order, that `is_possible(distribution, extra)`
   * accepts: the list comprehension for one wheel.
   */
  function PossibleExtras(u: WheelMap, distribution: string, extras: seq<string>): (r: seq<string>)
    ensures forall x :: x in r <==> x in extras && IsPossible(u, distribution, Some(x))
    ensures IsSubsequence(r, extras)
  {
    if extras == [] then []
    else
      var rest := PossibleExtras(u, distribution, extras[1..]);
      assert forall x :: x in extras <==> x == extras[0] || x in extras[1..];
      if IsPossible(u, distribution, Some(extras[0])) then
        assert ([extras[0]] + rest)[1..] == rest;
        [extras[0]] + rest
      else rest
  }

  /** A kept extra occurs as often as it is declared, a rejected one not at all. */
  lemma {:induction false} PossibleExtrasCounts(u: WheelMap, distribution: string, extras: seq<string>)
    ensures forall x :: multiset(PossibleExtras(u, distribution, extras))[x] ==
              if IsPossible(u, distribution, Some(x)) then multiset(extras)[x] else 0
  {
    if extras != [] {
      PossibleExtrasCounts(u, distribution, extras[1..]);
      assert multiset(extras) == multiset{extras[0]} + multiset(extras[1..]) by {
        assert extras == [extras[0]] + extras[1..];
      }
    }
  }

  /** `a` is `b` with some elements left out, the rest kept in order. */
  predicate IsSubsequence<T(==)>(a: seq<T>, b: seq<T>)
  {
    a == [] || (b != [] && ((a[0] == b[0] && IsSubsequence(a[1..], b[1..])) || IsSubsequence(a, b[1..])))
  }

  /** When every declared extra is possible, the wheel keeps all of them, in order. */
  lemma {:induction false} AllPossibleKeepsAll(u: WheelMap, distribution: string, extras: seq<string>)
    requires forall x :: x in extras ==> IsPossible(u, distribution, Some(x))
    ensures PossibleExtras(u, distribution, extras) == extras
  {
    if extras != [] {
      AllPossibleKeepsAll(u, distribution, extras[1..]);
    }
  }

  /** One wheel together with its possible extras: one entry of the returned dict. */
  datatype Resolved = Resolved(wheel: Wheel, extras: seq<string>)

  /**
   * `determine_possible_extras(whls)`: one entry per input wheel, in input
   * order, holding the declared extras that can be built from the wheels
   * present, in declaration order.
   */
  function DeterminePossibleExtras(whls: seq<Wheel>): (r: seq<Resolved>)
    ensures |r| == |whls|
    ensures forall i :: 0 <= i < |whls| ==> r[i].wheel == whls[i]
    ensures forall i :: 0 <= i < |whls| ==> IsSubsequence(r[i].extras, whls[i].extras)
    ensures forall i, x :: 0 <= i < |whls| ==>
              (x in r[i].extras <==> x in whls[i].extras && IsPossible(BuildWheelMap(whls), whls[i].distribution, Some(x)))
  {
    var u := BuildWheelMap(whls);
    seq(|whls|, i requires 0 <= i < |whls| => Resolved(whls[i], PossibleExtras(u, whls[i].distribution, whls[i].extras)))
  }

  /** Each wheel keeps every possible extra as often as it declares it, and no other. */
  lemma DeterminePossibleExtrasCounts(whls: seq<Wheel>, i: int, x: string)
    requires 0 <= i < |whls|
    ensures multiset(DeterminePossibleExtras(whls)[i].extras)[x] ==
              if IsPossible(BuildWheelMap(whls), whls[i].distribution, Some(x)) then multiset(whls[i].extras)[x] else 0
  {
    PossibleExtrasCounts(BuildWheelMap(whls), whls[i].distribution, whls[i].extras);
  }

  /** A wheel whose normalised name is no key of the map (its name holds `-`, say) keeps none of its extras. */
  lemma UnreachableWheelKeepsNoExtras(whls: seq<Wheel>, i: int)
    requires 0 <= i < |whls|
    requires ReplaceDash(whls[i].distribution) !in BuildWheelMap(whls)
    ensures forall x :: x !in DeterminePossibleExtras(whls)[i].extras
  {
  }
}
