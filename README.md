# Extras resolver of rules_python's piptool

`piptool` turns the wheels that `pip wheel` downloaded for a
`requirements.txt` into a Bazel `requirements.bzl`. Its core is
`determine_possible_extras`: given every downloaded wheel, it decides for
each wheel which of its declared extras can be built from the wheels
present. An extra is possible when, for each of its dependencies, the base
package is present and every extra requested on that dependency is itself
possible, recursively. The generated file then holds a `_requirements`
dictionary with one key per wheel (`distribution().lower()`) and one key per
possible extra (`dist[extra]`, lower-cased), and a `requirement(name)`
function that looks keys up after `replace("-", "_").lower()`.

This project models that core in Dafny and proves its properties.

- `wrappers.dfy` (`Wrappers`): `Option`, the stand-in for Python's `None`.
- `names.dfy` (`Names`): the `-` to `_` replacement, ASCII lower-casing, the
  base key, the extra key and the key `requirement()` looks up.
- `wheels.dfy` (`Wheels`): `Requirement` (an already parsed dependency: project
  name and requested extras) and `Wheel` (`distribution()`, `extras()`,
  `dependencies(extra=...)` as plain fields). `FromPairs` is a Python dict
  filled in order, where the last write wins. `BuildWheelMap` is `whl_map`.
- `resolver.dfy` (`Resolver`): `IsPossibleOn` is `is_possible`, and
  `DeterminePossibleExtras` is `determine_possible_extras`.
- `as_written.dfy` (`AsWritten`): `is_possible` exactly as written, with a
  result that tells whether the recursion ever returns.
- `targets.dfy` (`Targets`): the entries of `_requirements` and the
  `requirement()` lookup.
- `examples.dfy` (`Examples`): small universes worked out in full.

Modelling choices:

- The queried name is normalised by replacing `-` with `_` only. The map keys
  are the distributions exactly as given. Nothing is case-folded. So a
  dependency on `Foo` does not find a wheel `foo`.
- An extra is `Option<string>`. Both `None` and `""` ask for the base package,
  as `if not extra` does.
- `is_possible` has no cycle guard, so a cyclic chain of extras recurses until
  Python's recursion limit. A Dafny function must terminate, so
  `IsPossibleOn` carries the set of (normalised name, extra) pairs on the
  current recursion path. Re-entering one of them yields false. This guard is
  an addition to the source. `AsWritten.SourceIsPossible` models the
  unguarded code. It returns `None` where the Python recursion never returns,
  because a stateless call that repeats a call still on the stack repeats it
  forever. `AsWritten.SourceAgrees` proves that whenever the source returns,
  the guarded model gives the same answer, and `AsWritten.SourceTrueIff` that
  the guarded model accepts exactly what the source returns true for: where
  the source never returns, it answers false. `AsWritten.AcyclicAgrees` proves
  that on universes without cycles among extras the two always agree.
- The resolver's dict is keyed by `Wheel` objects, which hash by identity. It
  is modelled as a sequence of `Resolved` entries, one per input wheel, in
  input order.
- `_requirements` is written out as a Starlark dict display. Starlark rejects
  a dict display that repeats a key, so when two entries share a key (wheels
  `Foo` and `foo`, or extras `X` and `x` of one wheel) the generated file
  fails to load. `RequirementsTable` returns `None` then.
- Everything is a pure function, so resolving the same wheels twice gives the
  same answer, and the key names depend only on their inputs.

Details of the code that the model keeps, though a reader might expect otherwise:

- The code does not lower-case the queried name and does not normalise the
  map keys.
- The code has no cycle guard (see above).
- A requirement's extras are an ordered list. They are checked in order.

## Model

| member | source | states |
|---|---|---|
| `Names.ReplaceDash` | rules_python/piptool.py:81 | every `-` becomes `_`, every other character stays, the length is kept, and no `-` is left |
| `Names.ReplaceDashIdentifiesSeparators` | rules_python/piptool.py:81 | two names normalise to the same key if and only if they differ at most in `-` versus `_` |
| `Names.Lower` | rules_python/piptool.py:150 | `lower()` keeps the length, turns each upper-case ASCII letter into its lower-case letter (code point plus 32), keeps every other character, and leaves no upper-case ASCII letter |
| `Names.BaseKey` | rules_python/piptool.py:150 | the base key `distribution().lower()` has the distribution's length and no upper-case ASCII letter; each character is the distribution's own or the lower-case form of its upper-case letter |
| `Names.ExtraKey` | rules_python/piptool.py:153 | the key `"<dist>[<extra>]"` is two characters longer than the distribution and the extra together |
| `Names.ExtraKeySplits` | rules_python/piptool.py:153 | an extra key is the wheel's base key, then `[`, then the lower-cased extra, then `]` |
| `Names.ExtraKeyInjective` | rules_python/piptool.py:153 | for one wheel, two extras write the same key if and only if they agree up to ASCII case |
| `Names.RequirementKey` | rules_python/piptool.py:178 | the key `requirement()` looks up keeps the name's length and holds neither `-` nor an upper-case ASCII letter |
| `Names.RequirementKeyIgnoresCaseAndSeparator` | rules_python/piptool.py:178 | `requirement()` maps two names to the same key if and only if they differ at most in ASCII case and in `-` versus `_` |
| `Names.RequirementKeyIdempotent` | rules_python/piptool.py:178 | normalising a looked-up key a second time changes nothing |
| `Names.RequirementKeyFindsBaseKey` | rules_python/piptool.py:150-178 | for a distribution without `-`, `requirement(dist)` looks up exactly the base key written for that wheel |
| `Names.RequirementKeyMissesHyphenatedExtra` | rules_python/piptool.py:153-178 | the key `requirement()` looks up never equals the key of an extra whose name holds `-` |
| `Wheels.Dependencies` | rules_python/piptool.py:92 | an extra that the wheel's metadata does not mention has no dependencies |
| `Wheels.FromPairsKeys` | rules_python/piptool.py:73-76 | a dict filled from pairs in order has exactly the keys that occur among the pairs |
| `Wheels.FromPairsLastWins` | rules_python/piptool.py:73-76 | in such a dict a key maps to the value of its last occurrence |
| `Wheels.WheelMapKeys` | rules_python/piptool.py:73-76 | the keys of `whl_map` (`BuildWheelMap`) are exactly the distributions of the input wheels, unnormalised |
| `Wheels.WheelMapLastWins` | rules_python/piptool.py:73-76 | when several wheels share a distribution, the later one in `whls` is the one in the map |
| `Wheels.WheelMapBindsOwnName` | rules_python/piptool.py:73-85 | a key maps to one of the input wheels, and that wheel has that very distribution |
| `Resolver.QueriesMembership` | rules_python/piptool.py:92-99 | the loops ask about exactly the base package of every dependency and every extra it requests |
| `Resolver.IsPossibleOn` | rules_python/piptool.py:80-102 | a normalised name that is not a key gives false for any extra; a present wheel with extra `None` or `""` gives true |
| `Resolver.ExtraPossibleIff` | rules_python/piptool.py:92-102 | for a present wheel and a non-empty extra: possible iff the pair is not already on the path and every dependency's base package and requested extras are possible |
| `Resolver.Reentry` | rules_python/piptool.py:80-102 | if a question succeeds on a path but fails once `(d, e)` joins the path, then `d[e]` itself is possible on that path |
| `Resolver.TopLevelIff` | rules_python/piptool.py:92-102 | for the top-level call `IsPossible`, a present wheel and a non-empty extra: the extra is possible if and only if every dependency's base package and every extra it requests is possible at top level |
| `Resolver.EmptyExtraIsPossible` | rules_python/piptool.py:92-102 | an extra with no dependencies is possible as soon as its wheel is present |
| `Resolver.SeparatorInsensitive` | rules_python/piptool.py:81-83 | two queries that differ only in `-`/`_` give the same answer |
| `Resolver.PathMonotone` | rules_python/piptool.py:78-102 | a longer recursion path can only turn an answer from true to false, so the top-level call is the most permissive |
| `Resolver.SelfRequiringExtraImpossible` | rules_python/piptool.py:92-99 | an extra that requests itself through one of its own dependencies is never possible |
| `Resolver.PossibleExtras` | rules_python/piptool.py:105-109 | the kept extras are exactly the declared extras that `is_possible` accepts, and they form a subsequence of the declared list |
| `Resolver.PossibleExtrasCounts` | rules_python/piptool.py:105-109 | a possible extra is kept as many times as it is declared, and an impossible one not at all |
| `Resolver.AllPossibleKeepsAll` | rules_python/piptool.py:105-109 | when every declared extra is possible, the wheel keeps the whole declared list in order |
| `Resolver.DeterminePossibleExtras` | rules_python/piptool.py:59-111 | one entry per input wheel in input order; each holds a subsequence of the declared extras, containing an extra iff it is possible in `whl_map` |
| `Resolver.DeterminePossibleExtrasCounts` | rules_python/piptool.py:59-111 | each wheel keeps every possible extra as many times as it declares it, and no impossible extra |
| `Resolver.UnreachableWheelKeepsNoExtras` | rules_python/piptool.py:104-111 | a wheel whose normalised distribution is no key of `whl_map` (a name holding `-`) keeps none of its extras |
| `AsWritten.SourceIsPossible` | rules_python/piptool.py:80-102 | the unguarded recursion returns false for a missing wheel and true for a present wheel asked for no extra |
| `AsWritten.SourceAllAgrees` | rules_python/piptool.py:92-99 | when the short-circuiting loops return, they return the conjunction of all their checks |
| `AsWritten.SourceAllTrueIff` | rules_python/piptool.py:92-99 | the loops (`SourceAll`) return true if and only if every check returns true |
| `AsWritten.SourceAllFirstFailure` | rules_python/piptool.py:92-99 | when the loops do not return true, their outcome is that of the first check that does not return true, every earlier check having returned true |
| `AsWritten.SourceAgrees` | rules_python/piptool.py:78-102 | whenever the unguarded source returns, the guarded model gives the same answer |
| `AsWritten.DivergenceRejected` | rules_python/piptool.py:78-102 | where the unguarded source never returns, the guarded model answers false |
| `AsWritten.DivergentLoopRejected` | rules_python/piptool.py:92-99 | loops that never return contain a check that the guarded model rejects |
| `AsWritten.SourceTrueIff` | rules_python/piptool.py:78-102 | from the top, the guarded model accepts a question if and only if the source, asked the same question, returns true |
| `AsWritten.SourceAllTerminates` | rules_python/piptool.py:92-99 | on a universe without cycles among extras, the loops always finish |
| `AsWritten.SourceTerminates` | rules_python/piptool.py:78-102 | on a universe without cycles among extras, the unguarded recursion always returns |
| `AsWritten.AcyclicAgrees` | rules_python/piptool.py:78-102 | on a universe without cycles among extras, the guarded model equals the source's answer |
| `Targets.WheelMappings` | rules_python/piptool.py:149-156 | a wheel's entries are its base entry, then one entry per possible extra in order, keys lower-cased and labels keeping the extra as declared |
| `Targets.WheelMappingsMembership` | rules_python/piptool.py:149-156 | one wheel's entries are exactly its base entry and one entry per possible extra |
| `Targets.Mappings` | rules_python/piptool.py:148-158 | every wheel's base entry, and the entry of every extra it keeps, is among the written entries |
| `Targets.MappingsMembership` | rules_python/piptool.py:148-158 | the written entries are exactly each wheel's base entry and one entry per possible extra |
| `Targets.OnlyPossibleExtrasGetEntries` | rules_python/piptool.py:152-155 | every entry is a base entry or the entry of a declared extra that the resolver found possible |
| `Targets.DistinctEntries` | rules_python/piptool.py:171-173 | when no two entries share a key, the dict binds each entry's key to its label and holds no other key |
| `Targets.RequirementsTable` | rules_python/piptool.py:171-173 | `_requirements` loads if and only if no two entries share a key; then each entry's key maps to its label and there is no other key |
| `Targets.LookupRequirement` | rules_python/piptool.py:177-179 | `requirement(name)` succeeds if and only if the normalised name is a key, and then returns the label bound to that key |
| `Targets.LookupIgnoresCaseAndSeparator` | rules_python/piptool.py:178-179 | `requirement()` gives the same answer for names that differ only in ASCII case and in `-` versus `_` |
| `Targets.LookupFindsEveryWheel` | rules_python/piptool.py:177-179 | when the generated file loads, `requirement(dist)` returns `@<repo>//:pkg` for every downloaded wheel whose distribution holds no `-` |
| `Examples.PresentDependency` | rules_python/piptool.py:59-111 | A's extra `x` needs B, which is present: A keeps `["x"]`, B keeps nothing |
| `Examples.MissingDependency` | rules_python/piptool.py:82-84 | A's extra `x` needs C, which is absent: A keeps nothing |
| `Examples.CyclicPairImpossible` | rules_python/piptool.py:92-99 | in the universe where A[x] needs B[y] and B[y] needs A[x], the guarded model rejects each extra |
| `Examples.CyclicExtrasImpossible` | rules_python/piptool.py:104-111 | on that universe the resolver keeps no extra for either wheel |
| `Examples.CyclicInnerCallDiverges` | rules_python/piptool.py:92-99 | on that universe, inside `is_possible("A", "x")`, the call `is_possible("B", "y")` never returns |
| `Examples.CyclicExtrasDiverge` | rules_python/piptool.py:78-102 | on that universe the source's `is_possible("A", "x")` never returns |
| `Examples.NoCaseFolding` | rules_python/piptool.py:81-83 | a wheel `foo` is found by `foo` but not by `Foo` |
| `Examples.DashFindsUnderscore` | rules_python/piptool.py:81 | a dependency spelled `foo-bar` finds the wheel `foo_bar` |
| `Examples.CaseCollisionRejected` | rules_python/piptool.py:148-173 | wheels `Foo` and `foo` both write the key `foo`, so `_requirements` does not load |

## Findings

| source | as written | input that shows it | evidently intended | confidence | as-written member | corrected member |
|---|---|---|---|---|---|---|
| rules_python/piptool.py:78-102 | `is_possible` recurses with no record of the pairs already being evaluated | wheel A whose extra `x` requires `B[y]`, and wheel B whose extra `y` requires `A[x]` | the run finishes; an extra that can only be justified through itself counts as impossible, the rule the guarded model applies on re-entry | medium, not executed | `Examples.CyclicExtrasDiverge` | `Examples.CyclicExtrasImpossible` |

The corrected definition is `Resolver.IsPossibleOn`, the guarded recursion.
The rest of the model uses it.

## Left out

- `pip_main` (rules_python/piptool.py:31-40) is left out. It writes a certificate to a temporary file and calls pip, which is I/O and a foreign call.
- Argument parsing (rules_python/piptool.py:44-57) is left out. It reads the command line.
- `main`'s call to pip, its directory walk, `sys.exit`, and the writing of `requirements.bzl` (rules_python/piptool.py:113-182) are left out. They are I/O and template text. Only the keys and labels of `_requirements` and the `requirement()` lookup are modelled.
- `all_requirements = _requirements.values()` (rules_python/piptool.py:175) is left out. It only lists the labels of the table that `RequirementsTable` models.
- The `whl_library` text (rules_python/piptool.py:131-146) is left out. It is template rendering.
- The `Wheel` class is not part of this model. `distribution()`, `extras()`, `dependencies(extra=...)` and `repository_name()` are plain fields, not read from archive metadata. Environment markers, which that class evaluates, are therefore not modelled.
- `pkg_resources.Requirement.parse` is not part of this model. A requirement arrives already parsed into a project name and its requested extras. Version constraints are ignored, as the resolver ignores them.
- Names.Lower: lower-cases ASCII letters only, because Python's Unicode case mapping is not modelled.
- AsWritten.SourceIsPossible: does not model Python's recursion limit. It reports an unbounded recursion as `None` instead of a `RecursionError`.
