/** Small universes on which the resolver's answers are worked out in full. */
module Examples {

  import opened Wrappers
  import opened Names
  import opened Wheels
  import opened Resolver
  import opened AsWritten
  import opened Targets

  function Plain(name: string): Wheel
  {
    Wheel(name, "pypi__" + name, [], map[])
  }

  function WithExtra(name: string, extra: string, deps: seq<Requirement>): Wheel
  {
    Wheel(name, "pypi__" + name, [extra], map[extra := deps])
  }

  /** In the universe of A[x] needing B, A's extra `x` is possible. */
  lemma PresentDependencyPossible()
    ensures var a := WithExtra("A", "x", [Requirement("B", [])]);
            IsPossible(BuildWheelMap([a, Plain("B")]), "A", Some("x"))
  {
    var a := WithExtra("A", "x", [Requirement("B", [])]);
    var u := BuildWheelMap([a, Plain("B")]);
    assert ReplaceDash("A") == "A";
    assert ReplaceDash("B") == "B";
    WheelMapKeys([a, Plain("B")], "A");
    WheelMapKeys([a, Plain("B")], "B");
    WheelMapLastWins([a, Plain("B")], 0);
    assert Queries(Dependencies(u["A"], "x")) == [("B", None)];
  }

  /** A's extra `x` needs B, which is present: A keeps `x`, B has no extras. */
  lemma PresentDependency()
    ensures var a := WithExtra("A", "x", [Requirement("B", [])]);
            var b := Plain("B");
            DeterminePossibleExtras([a, b]) == [Resolved(a, ["x"]), Resolved(b, [])]
  {
    var a := WithExtra("A", "x", [Requirement("B", [])]);
    var b := Plain("B");
    var u := BuildWheelMap([a, b]);
    PresentDependencyPossible();
    AllPossibleKeepsAll(u, "A", ["x"]);
    var r := DeterminePossibleExtras([a, b]);
    assert r[0] == Resolved(a, PossibleExtras(u, "A", ["x"]));
    assert r[1] == Resolved(b, PossibleExtras(u, "B", []));
  }

  /** A's extra `x` needs C, which was not downloaded: A keeps no extras. */
  lemma MissingDependency()
    ensures var a := WithExtra("A", "x", [Requirement("C", [])]);
            DeterminePossibleExtras([a]) == [Resolved(a, [])]
  {
    var a := WithExtra("A", "x", [Requirement("C", [])]);
    var u := BuildWheelMap([a]);
    assert ReplaceDash("A") == "A";
    assert ReplaceDash("C") == "C";
    WheelMapKeys([a], "A");
    WheelMapKeys([a], "C");
    WheelMapLastWins([a], 0);
    assert Queries(Dependencies(u["A"], "x")) == [("C", None)];
    assert !IsPossible(u, "A", Some("x"));
  }

  /** A[x] needs B[y] and B[y] needs A[x]. */
  function CyclicUniverse(): seq<Wheel>
  {
    [WithExtra("A", "x", [Requirement("B", ["y"])]), WithExtra("B", "y", [Requirement("A", ["x"])])]
  }

  /** The map and the questions each extra of the cyclic universe raises. */
  lemma CyclicUniverseShape()
    ensures var u := BuildWheelMap(CyclicUniverse());
            && ReplaceDash("A") == "A" && ReplaceDash("B") == "B"
            && "A" in u && "B" in u
            && u["A"] == CyclicUniverse()[0] && u["B"] == CyclicUniverse()[1]
            && Queries(Dependencies(u["A"], "x")) == [("B", None), ("B", Some("y"))]
            && Queries(Dependencies(u["B"], "y")) == [("A", None), ("A", Some("x"))]
  {
    var whls := CyclicUniverse();
    assert ReplaceDash("A") == "A";
    assert ReplaceDash("B") == "B";
    WheelMapLastWins(whls, 0);
    WheelMapLastWins(whls, 1);
  }

  /** The guarded model: each extra of the cycle, asked from the top, is impossible. */
  lemma CyclicPairImpossible(start: string, e: string, other: string, f: string)
    requires (start, e, other, f) in {("A", "x", "B", "y"), ("B", "y", "A", "x")}
    ensures !IsPossible(BuildWheelMap(CyclicUniverse()), start, Some(e))
  {
    var u := BuildWheelMap(CyclicUniverse());
    CyclicUniverseShape();
    var both := {(start, e), (other, f)};
    assert {(start, e)} + {(other, f)} == both;
    assert {} + {(start, e)} == {(start, e)};
    ExtraPossibleIff(u, other, f, {(start, e)});
    assert !IsPossibleOn(u, start, Some(e), both);
    assert !IsPossibleOn(u, other, Some(f), {(start, e)});
    ExtraPossibleIff(u, start, e, {});
  }

  /** The guarded model: neither extra of the cycle can be built. */
  lemma CyclicExtrasImpossible()
    ensures var whls := CyclicUniverse();
            DeterminePossibleExtras(whls) == [Resolved(whls[0], []), Resolved(whls[1], [])]
  {
    CyclicPairImpossible("A", "x", "B", "y");
    CyclicPairImpossible("B", "y", "A", "x");
  }

  /** The source as written: asking for A[x] on the cyclic universe never returns. */
  lemma CyclicExtrasDiverge()
    ensures SourceIsPossible(BuildWheelMap(CyclicUniverse()), "A", Some("x"), {}) == None
  {
    var u := BuildWheelMap(CyclicUniverse());
    CyclicUniverseShape();
    CyclicInnerCallDiverges();
    var qa := Queries(Dependencies(u["A"], "x"));
    assert {} + {("A", "x")} == {("A", "x")};
    assert SourceAll(u, qa[1..], {("A", "x")}) == None;
    assert SourceAll(u, qa, {("A", "x")}) == None;
  }

  /** Inside that call, `is_possible("B", "y")` reaches `is_possible("A", "x")` again. */
  lemma CyclicInnerCallDiverges()
    ensures SourceIsPossible(BuildWheelMap(CyclicUniverse()), "B", Some("y"), {("A", "x")}) == None
  {
    var u := BuildWheelMap(CyclicUniverse());
    CyclicUniverseShape();
    var qb := Queries(Dependencies(u["B"], "y"));
    var s2 := {("A", "x"), ("B", "y")};
    assert {("A", "x")} + {("B", "y")} == s2;
    assert SourceIsPossible(u, "A", Some("x"), s2) == None;
    assert SourceAll(u, qb[1..], s2) == None;
    assert SourceAll(u, qb, s2) == None;
  }

  /** The lookup does not fold case: "Foo" misses a wheel named "foo". */
  lemma NoCaseFolding()
    ensures IsPossible(BuildWheelMap([Plain("foo")]), "foo", None)
    ensures !IsPossible(BuildWheelMap([Plain("foo")]), "Foo", None)
  {
    assert ReplaceDash("foo") == "foo";
    assert ReplaceDash("Foo") == "Foo";
    WheelMapKeys([Plain("foo")], "foo");
    WheelMapKeys([Plain("foo")], "Foo");
  }

  /** A dependency spelled with `-` finds the wheel whose distribution uses `_`. */
  lemma DashFindsUnderscore()
    ensures IsPossible(BuildWheelMap([Plain("foo_bar")]), "foo-bar", None)
  {
    assert ReplaceDash("foo-bar") == "foo_bar";
    WheelMapKeys([Plain("foo_bar")], "foo_bar");
  }

  /** Wheels `Foo` and `foo` both write the key `foo`, so the generated dict display is rejected. */
  lemma CaseCollisionRejected()
    ensures RequirementsTable(DeterminePossibleExtras([Plain("Foo"), Plain("foo")])) == None
  {
    var rs := DeterminePossibleExtras([Plain("Foo"), Plain("foo")]);
    var ms := Mappings(rs);
    assert rs[0].extras == [] && rs[1].extras == [];
    assert ms[..2] == [BaseMapping(Plain("Foo")), BaseMapping(Plain("foo"))] by {
      assert ms == WheelMappings(rs[0]) + Mappings(rs[1..]);
      assert Mappings(rs[1..]) == WheelMappings(rs[1]) + Mappings([]);
    }
    assert BaseKey("Foo") == "foo" by {
      assert LowerChar('F') == 'f';
      assert Lower("Foo") == [LowerChar('F'), LowerChar('o'), LowerChar('o')];
    }
    assert BaseKey("foo") == "foo" by {
      assert Lower("foo") == [LowerChar('f'), LowerChar('o'), LowerChar('o')];
    }
    assert ms[0].key == ms[1].key;
  }
}
