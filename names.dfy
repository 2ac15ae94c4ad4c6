/**
 * String helpers used by piptool: the separator normalisation applied to
 * every queried distribution name, ASCII lower-casing, and the keys of the
 * generated `_requirements` dictionary.
 */
module Names {

  /** `str.replace("-", "_")` on a single character. */
  function DashToUnderscore(c: char): char
  {
    if c == '-' then '_' else c
  }

  /** `s.replace("-", "_")`: every `-` becomes `_`, nothing else changes. */
  function ReplaceDash(s: string): (r: string)
    ensures |r| == |s|
    ensures '-' !in r
    ensures forall i :: 0 <= i < |s| && s[i] != '-' ==> r[i] == s[i]
    ensures forall i :: 0 <= i < |s| && s[i] == '-' ==> r[i] == '_'
  {
    seq(|s|, i requires 0 <= i < |s| => DashToUnderscore(s[i]))
  }

  predicate IsUpper(c: char)
  {
    'A' <= c <= 'Z'
  }

  /** `str.lower()` on a single character, restricted to ASCII letters. */
  function LowerChar(c: char): (r: char)
    ensures !IsUpper(r)
    ensures IsUpper(c) ==> r as int == c as int + 32
    ensures !IsUpper(c) ==> r == c
  {
    if IsUpper(c) then (c as int + 32) as char else c
  }

  /** `s.lower()`: same length, upper-case ASCII letters become lower case. */
  function Lower(s: string): (r: string)
    ensures |r| == |s|
    ensures forall i :: 0 <= i < |r| ==> !IsUpper(r[i])
    ensures forall i :: 0 <= i < |s| && !IsUpper(s[i]) ==> r[i] == s[i]
    ensures forall i :: 0 <= i < |s| && IsUpper(s[i]) ==> r[i] as int == s[i] as int + 32
  {
    seq(|s|, i requires 0 <= i < |s| => LowerChar(s[i]))
  }

  /** Base key of a wheel in `_requirements`: `distribution().lower()`. */
  function BaseKey(distribution: string): (r: string)
    ensures |r| == |distribution|
    ensures forall i :: 0 <= i < |r| ==> !IsUpper(r[i])
    ensures forall i :: 0 <= i < |r| ==>
              r[i] == distribution[i] || (IsUpper(distribution[i]) && r[i] as int == distribution[i] as int + 32)
  {
    Lower(distribution)
  }

  /** Key of one possible extra: `"<dist>[<extra>]"`, both parts lower-cased. */
  function ExtraKey(distribution: string, extra: string): (r: string)
    ensures |r| == |distribution| + |extra| + 2
  {
    Lower(distribution) + "[" + Lower(extra) + "]"
  }

  /** An extra key splits back into the wheel's base key, the bracket and the lower-cased extra. */
  lemma ExtraKeySplits(distribution: string, extra: string)
    ensures var r := ExtraKey(distribution, extra);
            && r[..|distribution|] == BaseKey(distribution)
            && r[|distribution|] == '[' && r[|r| - 1] == ']'
            && r[|distribution| + 1..|r| - 1] == Lower(extra)
  {
    var r := ExtraKey(distribution, extra);
    assert r[..|distribution|] == Lower(distribution);
    assert r[|distribution| + 1..|r| - 1] == Lower(extra);
  }

  /** For one distribution, two extras share a key exactly when they agree up to ASCII case. */
  lemma ExtraKeyInjective(distribution: string, e1: string, e2: string)
    ensures ExtraKey(distribution, e1) == ExtraKey(distribution, e2) <==> Lower(e1) == Lower(e2)
  {
    var k1, k2 := ExtraKey(distribution, e1), ExtraKey(distribution, e2);
    if k1 == k2 {
      ExtraKeySplits(distribution, e1);
      ExtraKeySplits(distribution, e2);
      assert Lower(e1) == k1[|distribution| + 1..|k1| - 1];
    }
  }

  /** The key that the generated `requirement(name)` looks up. */
  function RequirementKey(name: string): (r: string)
    ensures |r| == |name|
    ensures '-' !in r
    ensures forall i :: 0 <= i < |r| ==> !IsUpper(r[i])
  {
    var r := Lower(ReplaceDash(name));
    assert forall i :: 0 <= i < |r| ==> r[i] != '-' by {
      forall i | 0 <= i < |r| ensures r[i] != '-' {
        assert ReplaceDash(name)[i] != '-';
      }
    }
    r
  }

  /** `-` and `_` count as the same character. */
  predicate IsSeparator(c: char)
  {
    c == '-' || c == '_'
  }

  /** Two names that differ at most in `-` versus `_`. */
  predicate SameUpToSeparator(a: string, b: string)
  {
    && |a| == |b|
    && forall i :: 0 <= i < |a| ==> a[i] == b[i] || (IsSeparator(a[i]) && IsSeparator(b[i]))
  }

  /** `replace("-", "_")` identifies exactly the names that differ only in separators. */
  lemma ReplaceDashIdentifiesSeparators(a: string, b: string)
    ensures SameUpToSeparator(a, b) <==> ReplaceDash(a) == ReplaceDash(b)
  {
    if ReplaceDash(a) == ReplaceDash(b) {
      assert forall i :: 0 <= i < |a| ==> ReplaceDash(a)[i] == ReplaceDash(b)[i];
    }
    if SameUpToSeparator(a, b) {
      assert forall i :: 0 <= i < |a| ==> ReplaceDash(a)[i] == ReplaceDash(b)[i];
    }
  }

  /** Two characters that are the same ASCII letter in either case. */
  predicate SameLetter(x: char, y: char)
  {
    (IsUpper(x) && y as int == x as int + 32) || (IsUpper(y) && x as int == y as int + 32)
  }

  /** Two names that differ at most in ASCII case and in `-` versus `_`. */
  predicate SameUpToCaseAndSeparator(a: string, b: string)
  {
    && |a| == |b|
    && forall i :: 0 <= i < |a| ==>
         a[i] == b[i] || (IsSeparator(a[i]) && IsSeparator(b[i])) || SameLetter(a[i], b[i])
  }

  /** `requirement()` resolves two names to one key exactly when they differ only in ASCII case and separator. */
  lemma RequirementKeyIgnoresCaseAndSeparator(a: string, b: string)
    ensures SameUpToCaseAndSeparator(a, b) <==> RequirementKey(a) == RequirementKey(b)
  {
    if |a| == |b| {
      forall i | 0 <= i < |a|
        ensures RequirementKey(a)[i] == RequirementKey(b)[i] <==>
                (a[i] == b[i] || (IsSeparator(a[i]) && IsSeparator(b[i])) || SameLetter(a[i], b[i]))
      {
        assert RequirementKey(a)[i] == LowerChar(ReplaceDash(a)[i]);
        assert RequirementKey(b)[i] == LowerChar(ReplaceDash(b)[i]);
      }
      if SameUpToCaseAndSeparator(a, b) {
        assert forall i :: 0 <= i < |a| ==> RequirementKey(a)[i] == RequirementKey(b)[i];
      }
    }
  }

  /** Normalising a requirement key again changes nothing. */
  lemma RequirementKeyIdempotent(name: string)
    ensures RequirementKey(RequirementKey(name)) == RequirementKey(name)
  {
    var k := RequirementKey(name);
    assert ReplaceDash(k) == k;
    assert Lower(k) == k;
  }

  /** A distribution name without `-` is found by `requirement()` under its own base key. */
  lemma RequirementKeyFindsBaseKey(distribution: string)
    requires '-' !in distribution
    ensures RequirementKey(distribution) == BaseKey(distribution)
  {
    assert ReplaceDash(distribution) == distribution;
  }

  /** `requirement()` never produces a key holding `-`, so an extra key whose extra holds `-` is out of its reach. */
  lemma RequirementKeyMissesHyphenatedExtra(name: string, distribution: string, extra: string)
    requires '-' in extra
    ensures RequirementKey(name) != ExtraKey(distribution, extra)
  {
    var i :| 0 <= i < |extra| && extra[i] == '-';
    var k := ExtraKey(distribution, extra);
    ExtraKeySplits(distribution, extra);
    assert k[|distribution| + 1..|k| - 1][i] == '-';
    assert k[|distribution| + 1 + i] == '-';
  }
}
