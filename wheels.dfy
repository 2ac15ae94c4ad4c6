/**
 * The wheels piptool downloads, seen only through the three accessors the
 * resolver calls (`distribution()`, `extras()`, `dependencies(extra=...)`),
 * and the name-to-wheel dictionary `whl_map` built from them.
 */
module Wheels {

  /** A dependency after requirement parsing: a project name and the extras requested on it. */
  datatype Requirement = Requirement(projectName: string, extras: seq<string>)

  /**
   * One downloaded wheel. `extraRequires` maps an extra name to the requirements
   * that `dependencies(extra=...)` yields for it; `repository` is the Bazel
   * repository name used only in generated labels.
   */
  datatype Wheel = Wheel(
    distribution: string,
    repository: string,
    extras: seq<string>,
    extraRequires: map<string, seq<Requirement>>)

  /** `whl.dependencies(extra=extra)`: an extra the metadata does not mention has no requirements. */
  function Dependencies(w: Wheel, extra: string): (r: seq<Requirement>)
    ensures extra !in w.extraRequires ==> r == []
  {
    if extra in w.extraRequires then w.extraRequires[extra] else []
  }

  /** The last index of `kvs` whose key is `k`: no later pair has the same key. */
  predicate IsLastWithKey<V>(kvs: seq<(string, V)>, i: int)
  {
    0 <= i < |kvs| && forall j :: i < j < |kvs| ==> kvs[j].0 != kvs[i].0
  }

  /**
   * A Python dict built by inserting `kvs` in order, as a dict comprehension
   * does: a later pair overwrites an earlier one.
   */
  function FromPairs<V>(kvs: seq<(string, V)>): map<string, V>
  {
    if kvs == [] then map[]
    else FromPairs(kvs[..|kvs| - 1])[kvs[|kvs| - 1].0 := kvs[|kvs| - 1].1]
  }

  /** The keys of the dict are exactly the keys that occur in `kvs`. */
  lemma {:induction false} FromPairsKeys<V>(kvs: seq<(string, V)>, k: string)
    ensures k in FromPairs(kvs) <==> exists i :: 0 <= i < |kvs| && kvs[i].0 == k
  {
    if kvs != [] {
      var init := kvs[..|kvs| - 1];
      FromPairsKeys(init, k);
      if exists i :: 0 <= i < |kvs| && kvs[i].0 == k {
        var i :| 0 <= i < |kvs| && kvs[i].0 == k;
        if i < |kvs| - 1 {
          assert init[i].0 == k;
        }
      }
    }
  }

  /** Last write wins: a key maps to the value of its last occurrence. */
  lemma {:induction false} FromPairsLastWins<V>(kvs: seq<(string, V)>, i: int)
    requires IsLastWithKey(kvs, i)
    ensures kvs[i].0 in FromPairs(kvs) && FromPairs(kvs)[kvs[i].0] == kvs[i].1
  {
    var last := |kvs| - 1;
    if i < last {
      var init := kvs[..last];
      assert kvs[i] == init[i];
      assert kvs[last].0 != kvs[i].0;
      assert IsLastWithKey(init, i);
      FromPairsLastWins(init, i);
    }
  }

  /** `whl_map`: distribution name (exactly as `distribution()` returns it) to wheel. */
  type WheelMap = map<string, Wheel>

  /** The (distribution, wheel) pairs that the comprehension inserts, in input order. */
  function WheelPairs(whls: seq<Wheel>): (kvs: seq<(string, Wheel)>)
    ensures |kvs| == |whls|
    ensures forall i :: 0 <= i < |whls| ==> kvs[i] == (whls[i].distribution, whls[i])
  {
    seq(|whls|, i requires 0 <= i < |whls| => (whls[i].distribution, whls[i]))
  }

  /** `whl_map = {whl.distribution(): whl for whl in whls}`. */
  function BuildWheelMap(whls: seq<Wheel>): WheelMap
  {
    FromPairs(WheelPairs(whls))
  }

  /** The keys of `whl_map` are exactly the distributions of the input wheels. */
  lemma WheelMapKeys(whls: seq<Wheel>, k: string)
    ensures k in BuildWheelMap(whls) <==> exists w :: w in whls && w.distribution == k
  {
    var kvs := WheelPairs(whls);
    FromPairsKeys(kvs, k);
    if exists w :: w in whls && w.distribution == k {
      var w :| w in whls && w.distribution == k;
      var i :| 0 <= i < |whls| && whls[i] == w;
      assert kvs[i].0 == k;
    }
  }

  /** When several wheels share a distribution, the later one in `whls` wins. */
  lemma WheelMapLastWins(whls: seq<Wheel>, i: int)
    requires 0 <= i < |whls|
    requires forall j :: i < j < |whls| ==> whls[j].distribution != whls[i].distribution
    ensures whls[i].distribution in BuildWheelMap(whls)
    ensures BuildWheelMap(whls)[whls[i].distribution] == whls[i]
  {
    var kvs := WheelPairs(whls);
    assert IsLastWithKey(kvs, i);
    FromPairsLastWins(kvs, i);
  }

  /** Whatever a key maps to is one of the input wheels, of that very distribution. */
  lemma WheelMapBindsOwnName(whls: seq<Wheel>, k: string)
    requires k in BuildWheelMap(whls)
    ensures BuildWheelMap(whls)[k] in whls
    ensures BuildWheelMap(whls)[k].distribution == k
  {
    WheelMapKeys(whls, k);
    var w :| w in whls && w.distribution == k;
    var i :| 0 <= i < |whls| && whls[i] == w;
    while exists j :: i < j < |whls| && whls[j].distribution == k
      invariant 0 <= i < |whls| && whls[i].distribution == k
      decreases |whls| - i
    {
      var j :| i < j < |whls| && whls[j].distribution == k;
      i := j;
    }
    WheelMapLastWins(whls, i);
  }
}
