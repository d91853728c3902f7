/**
 * A worked case of overload alignment: class `Derived` overrides the
 * two-overload method `Base.run`, and the second overload of `Derived.run`
 * says `@inheritDoc Base.run`. It receives the comment of the second
 * overload of `Base.run`, and no other reflection's comment changes.
 */
module InheritDocScenario {
  import opened Wrappers
  import opened Arrays
  import opened Tags
  import opened Comments
  import opened Reflections
  import opened InheritDocPlugin
  import opened InheritDocProperties

  /**
   * 0 the project; 1 `Base.run` with overloads 3 and 4; 2 `Derived.run` with
   * overloads 5 and 6.
   */
  const Overloads: seq<Node> := [
    Node(Project, "project", None, [1, 2], None),
    Node(Declaration(true), "Base.run", Some(0), [3, 4], Some([3, 4])),
    Node(Declaration(true), "Derived.run", Some(0), [5, 6], Some([5, 6])),
    Node(Signature, "run", Some(1), [], None),
    Node(Signature, "run", Some(1), [], None),
    Node(Signature, "run", Some(2), [], None),
    Node(Signature, "run", Some(2), [], None)
  ]

  /** Name resolution in the project: only `Base.run` is known. */
  function FindInProject(container: nat, name: string): Option<nat>
  {
    if name == "Base.run" then Some(1) else None
  }

  lemma OverloadsWellFormed()
    ensures WellFormed(Overloads)
  {
    forall i | 0 <= i < |Overloads| ensures NodeWellFormed(Overloads, i) {
      assert NoDup(Overloads[i].children) by {
        assert Overloads[0].children == [1, 2];
        assert Overloads[1].children == [3, 4];
        assert Overloads[2].children == [5, 6];
      }
    }
  }

  /** The pass run when the project is resolved. */
  function ProjectPass(copy: (Comment, Option<Comment>) -> Comment): (p: Pass)
    ensures p.Valid() && p.nodes == Overloads && p.container == 0
  {
    OverloadsWellFormed();
    Pass(Overloads, 0, FindInProject, copy)
  }

  /** `@inheritDoc Base.run` on overload 6 resolves to `Base.run` and aligns to its overload 4. */
  lemma DerivedReferencesSecond(copy: (Comment, Option<Comment>) -> Comment, derived: Comment)
    requires derived.tags == [NewTag(InheritDocTagName, Some("Base.run"), None)]
    ensures IsAncestor(ProjectPass(copy).nodes, 0, 6)
    ensures Referenced(ProjectPass(copy), 6, Some(derived)) == Some(4)
  {
    var p := ProjectPass(copy);
    assert Source(p, Some(derived)) == Some(1);
    OverloadAlignment(p, 6, derived, 1);
    assert IsAncestor(Overloads, 0, 2);
  }

  /** Every reflection but overload 6 carries no directive, so the pass leaves it alone. */
  lemma InertOverloads(copy: (Comment, Option<Comment>) -> Comment, cs: seq<Option<Comment>>)
    requires |cs| == 7
    requires forall j :: 0 <= j < 6 ==> cs[j].None? || cs[j].value.tags == []
    ensures forall j :: 0 <= j < 6 ==> PassResult(ProjectPass(copy), cs)[j] == cs[j]
  {
    var p := ProjectPass(copy);
    forall j | 0 <= j < 6 ensures PassResult(p, cs)[j] == cs[j] {
      if j == 0 {
        PassOnlyTouchesDescendants(p, cs, 0);
      } else {
        MissingOrEmptyDirective(p, j, cs[j]);
        PassKeepsInert(p, cs, j);
      }
    }
  }

  /**
   * Whatever `copyComment` does, the pass gives overload 6 the copy from
   * overload 4 (its position-1 counterpart), and leaves every reflection
   * that carries no directive as it was.
   */
  lemma {:induction false} SecondOverloadInheritsSecond(
    copy: (Comment, Option<Comment>) -> Comment,
    cs: seq<Option<Comment>>,
    derived: Comment)
    requires |cs| == 7 && cs[6] == Some(derived)
    requires derived.tags == [NewTag(InheritDocTagName, Some("Base.run"), None)]
    requires forall j :: 0 <= j < 6 ==> cs[j].None? || cs[j].value.tags == []
    ensures PassResult(ProjectPass(copy), cs) == cs[6 := Some(copy(derived, cs[4]))]
  {
    var p := ProjectPass(copy);
    DerivedReferencesSecond(copy, derived);
    InertOverloads(copy, cs);
    PassCopiesReferenced(p, cs, 6);
  }
}
