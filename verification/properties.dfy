/** Properties of the conversion and of the lookup, each stated on its own
    in terms of the declarations. */
module PlanProperties {
  import opened Wrappers
  import opened BuildPlan
  import Strings

  /** On success there is one step per declaration, in declaration order;
      step `i` has position `i` and the declared name and Dockerfile. */
  lemma ConvertKeepsDeclarationOrder(b: BuildDecl)
    requires Convert(b).Success?
    ensures |Convert(b).value.steps| == |b.steps|
    ensures forall i :: 0 <= i < |b.steps| ==>
      && Convert(b).value.steps[i].order == i
      && Convert(b).value.steps[i].name == b.steps[i].name
      && Convert(b).value.steps[i].dockerfile == b.steps[i].dockerfile
  {
  }

  /** Each step has one artefact per declared specification, in order;
      artefact `k` has position `k` and the source and destination split
      from specification `k`. */
  lemma ConvertKeepsArtefactOrder(b: BuildDecl, i: nat)
    requires Convert(b).Success? && i < |b.steps|
    ensures |Convert(b).value.steps[i].artefacts| == |b.steps[i].artefacts|
    ensures forall k :: 0 <= k < |b.steps[i].artefacts| ==>
      && Convert(b).value.steps[i].artefacts[k].order == k
      && Convert(b).value.steps[i].artefacts[k].source == SplitArtefact(b.steps[i].artefacts[k]).source
      && Convert(b).value.steps[i].artefacts[k].dest == SplitArtefact(b.steps[i].artefacts[k]).dest
  {
  }

  /** Two declarations with one name make the conversion fail, and the error
      names the first declaration that repeats an earlier name. */
  lemma ConvertRejectsDuplicate(b: BuildDecl, i: nat, j: nat)
    requires i < j < |b.steps| && b.steps[i].name == b.steps[j].name
    ensures Convert(b).Failure?
    ensures exists j' :: 0 < j' <= j && FirstDuplicate(b.steps, j')
                         && Convert(b).error == NotUniqueError(b.steps[j'].name)
  {
  }

  /** On success the step names of the plan are pairwise distinct. */
  lemma ConvertNamesDistinct(b: BuildDecl)
    requires Convert(b).Success?
    ensures forall i, j :: 0 <= i < j < |Convert(b).value.steps| ==>
      Convert(b).value.steps[i].name != Convert(b).value.steps[j].name
  {
  }

  /** The plan is privileged exactly when cleanups are retained and some
      declaration has a cleanup block. */
  lemma ConvertPrivilege(b: BuildDecl)
    requires Convert(b).Success?
    ensures Convert(b).value.isPrivileged <==>
      !b.config.noSquash && exists i :: 0 <= i < |b.steps| && b.steps[i].cleanup.Some?
  {
  }

  /** Every step carries a cleanup; it holds the declared commands when the
      declaration has a cleanup block and cleanups are retained, and no
      commands otherwise. */
  lemma ConvertCleanup(b: BuildDecl, i: nat)
    requires Convert(b).Success? && i < |b.steps|
    ensures Convert(b).value.steps[i].cleanup.Some?
    ensures b.steps[i].cleanup.Some? && !b.config.noSquash ==>
      Convert(b).value.steps[i].cleanup.value.commands == b.steps[i].cleanup.value.commands
    ensures b.steps[i].cleanup.None? || b.config.noSquash ==>
      Convert(b).value.steps[i].cleanup.value.commands == []
  {
  }

  /** Step `i` holds a copy of the plan of the earlier steps, privileged only
      by their cleanups; artefact `k` of it holds a copy of the step with
      only the artefacts before `k`. */
  lemma ConvertSnapshots(b: BuildDecl, i: nat)
    requires Convert(b).Success? && i < |b.steps|
    ensures Convert(b).value.steps[i].manifest.steps == Convert(b).value.steps[..i]
    ensures Convert(b).value.steps[i].manifest.isPrivileged <==>
      !b.config.noSquash && exists j :: 0 <= j < i && b.steps[j].cleanup.Some?
    ensures forall k :: 0 <= k < |Convert(b).value.steps[i].artefacts| ==>
      Convert(b).value.steps[i].artefacts[k].step
        == Convert(b).value.steps[i].(artefacts := Convert(b).value.steps[i].artefacts[..k])
  {
  }

  /** Looking up the name of a converted declaration finds its step. */
  lemma FindConvertedStep(b: BuildDecl, i: nat)
    requires Convert(b).Success? && i < |b.steps|
    ensures FindStepByName(Convert(b).value, b.steps[i].name) == Success(Some(Convert(b).value.steps[i]))
  {
  }

  // ---------------------------------------------------------------------
  // The plan is determined by the declarations

  /** Two steps converted from one declaration at one position on top of one
      snapshot are equal. */
  lemma StepOfUnique(st1: Step, st2: Step, d: StepDecl, i: nat, snapshot: Manifest, noSquash: bool)
    requires StepOf(st1, d, i, snapshot, noSquash)
    requires StepOf(st2, d, i, snapshot, noSquash)
    ensures st1 == st2
  {
    assert st1.cleanup == st2.cleanup;
    ArtefactPrefixesAgree(st1, st2, d.artefacts, |d.artefacts|);
    assert st1.artefacts[..|d.artefacts|] == st1.artefacts;
    assert st2.artefacts[..|d.artefacts|] == st2.artefacts;
  }

  lemma {:induction false} ArtefactPrefixesAgree(st1: Step, st2: Step, specs: seq<string>, n: nat)
    requires ArtefactsOf(st1, specs) && ArtefactsOf(st2, specs)
    requires st1.(artefacts := []) == st2.(artefacts := [])
    requires n <= |specs|
    ensures st1.artefacts[..n] == st2.artefacts[..n]
    decreases n
  {
    if n > 0 {
      var k := n - 1;
      ArtefactPrefixesAgree(st1, st2, specs, k);
      assert st1.(artefacts := st1.artefacts[..k]) == st2.(artefacts := st2.artefacts[..k]);
      assert st1.artefacts[k] == st2.artefacts[k];
      assert st1.artefacts[..n] == st1.artefacts[..k] + [st1.artefacts[k]];
      assert st2.artefacts[..n] == st2.artefacts[..k] + [st2.artefacts[k]];
    }
  }

  /** `PlanOf` pins down a single plan: it is a complete description of
      what the conversion produces. */
  lemma PlanOfUnique(m1: Manifest, m2: Manifest, decls: seq<StepDecl>, noSquash: bool)
    requires PlanOf(m1, decls, noSquash) && PlanOf(m2, decls, noSquash)
    ensures m1 == m2
  {
    PlanPrefixesAgree(m1, m2, decls, noSquash, |decls|);
    assert m1.steps[..|decls|] == m1.steps;
    assert m2.steps[..|decls|] == m2.steps;
  }

  lemma {:induction false} PlanPrefixesAgree(m1: Manifest, m2: Manifest, decls: seq<StepDecl>, noSquash: bool, n: nat)
    requires PlanOf(m1, decls, noSquash) && PlanOf(m2, decls, noSquash)
    requires n <= |decls|
    ensures m1.steps[..n] == m2.steps[..n]
    decreases n
  {
    if n > 0 {
      var k := n - 1;
      PlanPrefixesAgree(m1, m2, decls, noSquash, k);
      var snapshot := Manifest(m1.steps[..k], Privileged(decls[..k], noSquash));
      StepOfUnique(m1.steps[k], m2.steps[k], decls[k], k, snapshot, noSquash);
      assert m1.steps[..n] == m1.steps[..k] + [m1.steps[k]];
      assert m2.steps[..n] == m2.steps[..k] + [m2.steps[k]];
    }
  }

  // ---------------------------------------------------------------------
  // Worked cases

  /** A specification without ':' is all source, with destination ".". */
  lemma SplitArtefactWithoutColon()
    ensures SplitArtefact("a") == ArtefactPath("a", ".")
    ensures SplitArtefact("") == ArtefactPath("", ".")
  {
  }

  /** With one ':' the text after it is the destination, possibly empty. */
  lemma SplitArtefactOneColon()
    ensures SplitArtefact("a:b") == ArtefactPath("a", "b")
    ensures SplitArtefact("a:") == ArtefactPath("a", "")
  {
    assert Strings.Split("a:b", ':') == ["a", "b"] by {
      Strings.SplitJoin(["a", "b"], ':');
      assert Strings.Join(["a", "b"], ':') == "a:b";
    }
    assert Strings.Split("a:", ':') == ["a", ""] by {
      Strings.SplitJoin(["a", ""], ':');
      assert Strings.Join(["a", ""], ':') == "a:";
    }
  }

  /** With two ':' the segment after the second one is dropped. */
  lemma SplitArtefactTwoColons()
    ensures SplitArtefact("a:b:c") == ArtefactPath("a", "b")
  {
    assert Strings.Split("a:b:c", ':') == ["a", "b", "c"] by {
      Strings.SplitJoin(["a", "b", "c"], ':');
      assert Strings.Join(["a", "b", "c"], ':') == "a:b:c";
    }
  }

  /** Steps x, y, z get positions 0, 1, 2 in that order. */
  lemma ThreeStepsInOrder()
    ensures var decls := [StepDecl("x", "Dockerfile.x", [], None),
                          StepDecl("y", "Dockerfile.y", [], None),
                          StepDecl("z", "Dockerfile.z", [], None)];
            var r := Convert(BuildDecl(decls, Config(false)));
            && r.Success?
            && |r.value.steps| == 3
            && r.value.steps[0].order == 0 && r.value.steps[0].name == "x"
            && r.value.steps[1].order == 1 && r.value.steps[1].name == "y"
            && r.value.steps[2].order == 2 && r.value.steps[2].name == "z"
  {
  }

  /** Two steps named "build" fail with an error naming "build". */
  lemma DuplicateBuildFails()
    ensures var decls := [StepDecl("build", "Dockerfile", [], None),
                          StepDecl("build", "Dockerfile.2", [], None)];
            Convert(BuildDecl(decls, Config(false))) == Failure("Step name 'build' is not unique")
  {
    var decls := [StepDecl("build", "Dockerfile", [], None),
                  StepDecl("build", "Dockerfile.2", [], None)];
    var r := Convert(BuildDecl(decls, Config(false)));
    assert !DistinctNames(decls) by {
      assert decls[0].name == decls[1].name;
    }
    var j :| 0 <= j < |decls| && FirstDuplicate(decls, j) && r.error == NotUniqueError(decls[j].name);
    assert decls[j].name == "build";
    assert NotUniqueError("build") == "Step name 'build' is not unique";
  }

  /** A cleanup block makes the plan privileged and is kept, unless
      no-squash is set, in which case it is dropped and the plan is not
      privileged. */
  lemma CleanupAndNoSquash()
    ensures var decls := [StepDecl("app", "Dockerfile", [], Some(CleanupDecl(["rm -rf /tmp"])))];
            var kept := Convert(BuildDecl(decls, Config(false)));
            var dropped := Convert(BuildDecl(decls, Config(true)));
            && kept.Success? && kept.value.isPrivileged
            && kept.value.steps[0].cleanup == Some(Cleanup(["rm -rf /tmp"]))
            && dropped.Success? && !dropped.value.isPrivileged
            && dropped.value.steps[0].cleanup == Some(Cleanup([]))
  {
  }
}
