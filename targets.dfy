/**
 * The `_requirements` dictionary written into `requirements.bzl`: one entry
 * per wheel for its base package and one per possible extra, and the
 * generated `requirement(name)` lookup into it.
 */
module Targets {

  import opened Wrappers
  import opened Names
  import opened Wheels
  import opened Resolver

  /** One `"key": "label"` entry of `_requirements`. */
  datatype Mapping = Mapping(key: string, target: string)

  /** `"<dist>": "@<repo>//:pkg"`, the key lower-cased. */
  function BaseMapping(w: Wheel): Mapping
  {
    Mapping(BaseKey(w.distribution), "@" + w.repository + "//:pkg")
  }

  /** `"<dist>[<extra>]": "@<repo>//:<extra>"`: the key lower-cased, the label's extra as declared. */
  function ExtraMapping(w: Wheel, extra: string): Mapping
  {
    Mapping(ExtraKey(w.distribution, extra), "@" + w.repository + "//:" + extra)
  }

  /** The entries for one wheel: the base entry, then one per possible extra in order. */
  function WheelMappings(res: Resolved): (ms: seq<Mapping>)
    ensures |ms| == 1 + |res.extras|
    ensures ms[0] == BaseMapping(res.wheel)
    ensures forall i :: 0 <= i < |res.extras| ==> ms[i + 1] == ExtraMapping(res.wheel, res.extras[i])
  {
    [BaseMapping(res.wheel)] + seq(|res.extras|, i requires 0 <= i < |res.extras| => ExtraMapping(res.wheel, res.extras[i]))
  }

  /** All entries, wheel by wheel in input order, as `whl_targets` joins them. */
  function Mappings(rs: seq<Resolved>): (ms: seq<Mapping>)
    ensures forall i :: 0 <= i < |rs| ==> BaseMapping(rs[i].wheel) in ms
    ensures forall i, x :: 0 <= i < |rs| && x in rs[i].extras ==> ExtraMapping(rs[i].wheel, x) in ms
  {
    if rs == [] then []
    else
      var head, tail := WheelMappings(rs[0]), Mappings(rs[1..]);
      assert forall i :: 1 <= i < |rs| ==> rs[i] == rs[1..][i - 1];
      assert forall x :: x in rs[0].extras ==> ExtraMapping(rs[0].wheel, x) in head by {
        forall x | x in rs[0].extras
          ensures ExtraMapping(rs[0].wheel, x) in head
        {
          var k :| 0 <= k < |rs[0].extras| && rs[0].extras[k] == x;
          assert head[k + 1] == ExtraMapping(rs[0].wheel, x);
        }
      }
      head + tail
  }

  /** `m` is one of the entries written for the resolved wheel `res`. */
  predicate EntryOf(res: Resolved, m: Mapping)
  {
    m == BaseMapping(res.wheel) || exists x :: x in res.extras && m == ExtraMapping(res.wheel, x)
  }

  /** One wheel's entries are exactly its base entry and an entry per possible extra. */
  lemma WheelMappingsMembership(res: Resolved, m: Mapping)
    ensures m in WheelMappings(res) <==> EntryOf(res, m)
  {
    if m in WheelMappings(res) {
      WrittenIsEntry(res, m);
    }
    if EntryOf(res, m) {
      EntryIsWritten(res, m);
    }
  }

  lemma WrittenIsEntry(res: Resolved, m: Mapping)
    requires m in WheelMappings(res)
    ensures EntryOf(res, m)
  {
    var ms := WheelMappings(res);
    var k :| 0 <= k < |ms| && ms[k] == m;
    if k > 0 {
      ExtraEntryOf(res, k - 1);
    }
  }

  lemma EntryIsWritten(res: Resolved, m: Mapping)
    requires EntryOf(res, m)
    ensures m in WheelMappings(res)
  {
    if m != BaseMapping(res.wheel) {
      var x :| x in res.extras && m == ExtraMapping(res.wheel, x);
      var k :| 0 <= k < |res.extras| && res.extras[k] == x;
      ExtraWritten(res, k);
    }
  }

  lemma ExtraWritten(res: Resolved, k: int)
    requires 0 <= k < |res.extras|
    ensures ExtraMapping(res.wheel, res.extras[k]) in WheelMappings(res)
  {
    assert WheelMappings(res)[k + 1] == ExtraMapping(res.wheel, res.extras[k]);
  }

  lemma ExtraEntryOf(res: Resolved, k: int)
    requires 0 <= k < |res.extras|
    ensures EntryOf(res, ExtraMapping(res.wheel, res.extras[k]))
  {
    assert res.extras[k] in res.extras;
  }

  /** The entries are exactly the base entry of each wheel and an extra entry per possible extra. */
  lemma {:induction false} MappingsMembership(rs: seq<Resolved>, m: Mapping)
    ensures m in Mappings(rs) <==> exists i :: 0 <= i < |rs| && EntryOf(rs[i], m)
  {
    if rs != [] {
      MappingsMembership(rs[1..], m);
      WheelMappingsMembership(rs[0], m);
      assert m in Mappings(rs) <==> m in WheelMappings(rs[0]) || m in Mappings(rs[1..]);
      if exists i :: 1 <= i < |rs| && EntryOf(rs[i], m) {
        var i :| 1 <= i < |rs| && EntryOf(rs[i], m);
        assert rs[1..][i - 1] == rs[i];
      }
      if exists i :: 0 <= i < |rs[1..]| && EntryOf(rs[1..][i], m) {
        var i :| 0 <= i < |rs[1..]| && EntryOf(rs[1..][i], m);
        assert rs[1..][i] == rs[i + 1];
      }
    }
  }

  /** Only possible extras get an entry: every entry is a base entry or the entry of a possible extra. */
  lemma OnlyPossibleExtrasGetEntries(whls: seq<Wheel>, m: Mapping)
    requires m in Mappings(DeterminePossibleExtras(whls))
    ensures exists i :: 0 <= i < |whls| &&
              (m == BaseMapping(whls[i]) ||
               exists x :: x in whls[i].extras && IsPossible(BuildWheelMap(whls), whls[i].distribution, Some(x)) &&
                           m == ExtraMapping(whls[i], x))
  {
    var rs := DeterminePossibleExtras(whls);
    MappingsMembership(rs, m);
    var i :| 0 <= i < |rs| && EntryOf(rs[i], m);
    assert rs[i].wheel == whls[i];
  }

  /** No two entries share a key. */
  predicate DistinctKeys(ms: seq<Mapping>)
  {
    forall i, j :: 0 <= i < j < |ms| ==> ms[i].key != ms[j].key
  }

  /** The entries as the (key, label) pairs of a dict display, in order. */
  function EntryPairs(ms: seq<Mapping>): seq<(string, string)>
  {
    seq(|ms|, i requires 0 <= i < |ms| => (ms[i].key, ms[i].target))
  }

  /** With distinct keys, the dict built from the entries binds every entry's key to its label and holds nothing else. */
  lemma DistinctEntries(ms: seq<Mapping>)
    requires DistinctKeys(ms)
    ensures forall m :: m in ms ==> m.key in FromPairs(EntryPairs(ms)) && FromPairs(EntryPairs(ms))[m.key] == m.target
    ensures forall k :: k in FromPairs(EntryPairs(ms)) ==> exists m :: m in ms && m.key == k
  {
    var kvs := EntryPairs(ms);
    forall m | m in ms
      ensures m.key in FromPairs(kvs) && FromPairs(kvs)[m.key] == m.target
    {
      var i :| 0 <= i < |ms| && ms[i] == m;
      assert IsLastWithKey(kvs, i);
      FromPairsLastWins(kvs, i);
    }
    forall k | k in FromPairs(kvs)
      ensures exists m :: m in ms && m.key == k
    {
      FromPairsKeys(kvs, k);
      var i :| 0 <= i < |kvs| && kvs[i].0 == k;
      assert ms[i] in ms;
    }
  }

  /**
   * `_requirements`, written out as a Starlark dict display. Starlark rejects
   * a dict display that repeats a key, so loading the generated file then
   * fails: `None`.
   */
  function RequirementsTable(rs: seq<Resolved>): (t: Option<map<string, string>>)
    ensures t.Some? <==> DistinctKeys(Mappings(rs))
    ensures t.Some? ==> forall m :: m in Mappings(rs) ==> m.key in t.value && t.value[m.key] == m.target
    ensures t.Some? ==> forall k :: k in t.value ==> exists m :: m in Mappings(rs) && m.key == k
  {
    var ms := Mappings(rs);
    if DistinctKeys(ms) then
      DistinctEntries(ms);
      Some(FromPairs(EntryPairs(ms)))
    else None
  }

  /** The generated `requirement(name)`: `None` where the lookup fails with a missing key. */
  function LookupRequirement(table: map<string, string>, name: string): (r: Option<string>)
    ensures r.Some? <==> RequirementKey(name) in table
    ensures r.Some? ==> r.value == table[RequirementKey(name)]
  {
    var key := RequirementKey(name);
    if key in table then Some(table[key]) else None
  }

  /** `requirement()` gives the same answer for names that differ only in ASCII case and `-`/`_`. */
  lemma LookupIgnoresCaseAndSeparator(table: map<string, string>, a: string, b: string)
    requires SameUpToCaseAndSeparator(a, b)
    ensures LookupRequirement(table, a) == LookupRequirement(table, b)
  {
    RequirementKeyIgnoresCaseAndSeparator(a, b);
  }

  /**
   * When the generated file loads, `requirement(d)` returns the label of every
   * downloaded wheel whose distribution name holds no `-`.
   */
  lemma LookupFindsEveryWheel(whls: seq<Wheel>, i: int)
    requires 0 <= i < |whls|
    requires '-' !in whls[i].distribution
    requires RequirementsTable(DeterminePossibleExtras(whls)).Some?
    ensures LookupRequirement(RequirementsTable(DeterminePossibleExtras(whls)).value, whls[i].distribution) ==
            Some("@" + whls[i].repository + "//:pkg")
  {
    var rs := DeterminePossibleExtras(whls);
    assert BaseMapping(rs[i].wheel) in Mappings(rs);
    RequirementKeyFindsBaseKey(whls[i].distribution);
  }
}
