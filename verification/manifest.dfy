/** The build plan of a multi-step container build and its construction
    from the step declarations read out of a build file: every step gets
    its position, its artefact specifications are split into source and
    destination, cleanups are kept or dropped according to the no-squash
    option, step names are checked for uniqueness, and the plan records
    whether any retained cleanup needs privileged execution. */
module BuildPlan {
  import opened Wrappers
  import Strings

  // ---------------------------------------------------------------------
  // The finished plan

  /** A file or folder a step exports. `step` is a copy of the owning step
      as it was when this artefact was made, so it holds only the earlier
      artefacts. `dest` is only a folder; the file name comes from `source`. */
  datatype Artefact = Artefact(order: nat, step: Step, source: string, dest: string)

  /** Shell commands run before the image is squashed. */
  datatype Cleanup = Cleanup(commands: seq<string>)

  /** One build step. `manifest` is a copy of the plan as it was before this
      step was added: it holds the earlier steps only, and its privileged
      flag reflects only their cleanups. */
  datatype Step = Step(
    order: nat,
    name: string,
    dockerfile: string,
    artefacts: seq<Artefact>,
    manifest: Manifest,
    cleanup: Option<Cleanup>)

  /** The whole build: the steps in declaration order, and whether some
      retained cleanup makes the build privileged. */
  datatype Manifest = Manifest(steps: seq<Step>, isPrivileged: bool)

  // ---------------------------------------------------------------------
  // The declarations as read from the build file

  datatype CleanupDecl = CleanupDecl(commands: seq<string>)

  /** A step as declared: artefacts are `<source>[:<dest>]` specifications. */
  datatype StepDecl = StepDecl(
    name: string,
    dockerfile: string,
    artefacts: seq<string>,
    cleanup: Option<CleanupDecl>)

  /** The part of the load configuration the conversion reads. */
  datatype Config = Config(noSquash: bool)

  /** A parsed build file: its steps in declaration order and the
      configuration it is loaded under. */
  datatype BuildDecl = BuildDecl(steps: seq<StepDecl>, config: Config)

  // ---------------------------------------------------------------------
  // Artefact specifications

  datatype ArtefactPath = ArtefactPath(source: string, dest: string)

  /** Splits an artefact specification at every ':' and keeps the first two
      parts: without a ':' the whole text is the source and the destination
      is "."; otherwise the source is the text before the first ':' and the
      destination the text from there up to the second ':' or the end.
      Anything from a second ':' on is dropped. */
  function SplitArtefact(spec: string): (r: ArtefactPath)
    ensures ':' !in spec ==> r == ArtefactPath(spec, ".")
    ensures ':' in spec ==>
      && ':' !in r.source && ':' !in r.dest
      && r.source + ":" + r.dest <= spec
      && (|r.source + ":" + r.dest| < |spec| ==> spec[|r.source + ":" + r.dest|] == ':')
  {
    var parts := Strings.Split(spec, ':');
    if |parts| == 1 then ArtefactPath(parts[0], ".")
    else
      Strings.SplitFirstTwo(spec, ':');
      ArtefactPath(parts[0], parts[1])
  }

  // ---------------------------------------------------------------------
  // Conversion

  /** The message of the error reporting a repeated step name. */
  function NotUniqueError(name: string): string
  {
    "Step name '" + name + "' is not unique"
  }

  /** The position of the first step at or after `from` named `name`. */
  function FindIndex(steps: seq<Step>, name: string, from: nat): (r: Option<nat>)
    requires from <= |steps|
    decreases |steps| - from
    ensures r.Some? ==> from <= r.value < |steps| && steps[r.value].name == name
    ensures forall j :: from <= j < |steps| && (r.None? || j < r.value) ==> steps[j].name != name
  {
    if from == |steps| then None
    else if steps[from].name == name then Some(from)
    else FindIndex(steps, name, from + 1)
  }

  /** Appends artefacts `kdx..` of `specs` to `st`, each holding a copy of
      the step with the artefacts appended before it. */
  function AppendArtefacts(specs: seq<string>, kdx: nat, st: Step): Step
    requires kdx <= |specs|
    decreases |specs| - kdx
  {
    if kdx == |specs| then st
    else
      var path := SplitArtefact(specs[kdx]);
      var art := Artefact(kdx, st, path.source, path.dest);
      AppendArtefacts(specs, kdx + 1, st.(artefacts := st.artefacts + [art]))
  }

  /** Converts declarations `idx..` onto the plan `r` built from the earlier
      ones, stopping at the first step whose name is already in `r`. */
  function ConvertFrom(decls: seq<StepDecl>, noSquash: bool, idx: nat, r: Manifest)
    : Result<Manifest, string>
    requires idx <= |decls|
    decreases |decls| - idx
  {
    if idx == |decls| then Success(r)
    else
      var s := decls[idx];
      var retained := s.cleanup.Some? && !noSquash;
      var cleanup := if retained then Cleanup(s.cleanup.value.commands) else Cleanup([]);
      var initial := Step(idx, s.name, s.dockerfile, [], r, Some(cleanup));
      var converted := AppendArtefacts(s.artefacts, 0, initial);
      if FindIndex(r.steps, converted.name, 0).Some? then
        Failure(NotUniqueError(converted.name))
      else
        ConvertFrom(decls, noSquash, idx + 1,
                    Manifest(r.steps + [converted], r.isPrivileged || retained))
  }

  /** Turns a parsed build file into its plan, or reports the first step
      whose name repeats an earlier one. */
  function Convert(b: BuildDecl): (r: Result<Manifest, string>)
    ensures r.Success? <==> DistinctNames(b.steps)
    ensures r.Success? ==> PlanOf(r.value, b.steps, b.config.noSquash)
    ensures r.Failure? ==>
      exists j :: 0 <= j < |b.steps| && FirstDuplicate(b.steps, j)
                  && r.error == NotUniqueError(b.steps[j].name)
  {
    assert b.steps[..0] == [];
    ConvertFromMeetsPlan(b.steps, b.config.noSquash, 0, Manifest([], false));
    ConvertFrom(b.steps, b.config.noSquash, 0, Manifest([], false))
  }

  // ---------------------------------------------------------------------
  // Lookup

  /** The first step named `name`, or none; absence is not an error, and the
      error half of the result is never used. */
  function FindStepByName(m: Manifest, name: string): (r: Result<Option<Step>, string>)
    ensures r.Success?
    ensures r.value.Some? <==> exists i :: 0 <= i < |m.steps| && m.steps[i].name == name
    ensures r.value.Some? ==>
      exists i :: 0 <= i < |m.steps| && m.steps[i] == r.value.value && m.steps[i].name == name
                  && forall j :: 0 <= j < i ==> m.steps[j].name != name
  {
    match FindIndex(m.steps, name, 0)
    case Some(i) => Success(Some(m.steps[i]))
    case None => Success(None)
  }

  // ---------------------------------------------------------------------
  // What a correct plan is, stated independently of the conversion

  /** No two declarations share a name. */
  ghost predicate DistinctNames(decls: seq<StepDecl>)
  {
    forall i, j :: 0 <= i < j < |decls| ==> decls[i].name != decls[j].name
  }

  /** Declaration `j` is the first one whose name repeats an earlier one. */
  ghost predicate FirstDuplicate(decls: seq<StepDecl>, j: nat)
    requires j < |decls|
  {
    && DistinctNames(decls[..j])
    && exists i :: 0 <= i < j && decls[i].name == decls[j].name
  }

  /** Some declaration has a cleanup block, and cleanups are retained. */
  ghost predicate Privileged(decls: seq<StepDecl>, noSquash: bool)
  {
    !noSquash && exists i :: 0 <= i < |decls| && decls[i].cleanup.Some?
  }

  /** `st` carries one artefact per specification, in order: artefact `k` has
      position `k`, the source and destination split from specification `k`,
      and a copy of `st` holding only the artefacts before it. */
  ghost predicate ArtefactsOf(st: Step, specs: seq<string>)
  {
    && |st.artefacts| == |specs|
    && forall k :: 0 <= k < |specs| ==>
         && st.artefacts[k].order == k
         && st.artefacts[k].step == st.(artefacts := st.artefacts[..k])
         && ArtefactPath(st.artefacts[k].source, st.artefacts[k].dest) == SplitArtefact(specs[k])
  }

  /** `st` is declaration `d` converted at position `i`, on top of the plan
      `snapshot` of the steps before it. A cleanup is always present; it
      holds the declared commands only when there is a cleanup block and
      cleanups are retained. */
  ghost predicate StepOf(st: Step, d: StepDecl, i: nat, snapshot: Manifest, noSquash: bool)
  {
    && st.order == i
    && st.name == d.name
    && st.dockerfile == d.dockerfile
    && st.manifest == snapshot
    && st.cleanup.Some?
    && (d.cleanup.Some? && !noSquash ==> st.cleanup.value.commands == d.cleanup.value.commands)
    && (d.cleanup.None? || noSquash ==> st.cleanup.value.commands == [])
    && ArtefactsOf(st, d.artefacts)
  }

  /** `m` is the plan of `decls`: one step per declaration, in order, step
      `i` holding a copy of the plan of the first `i` declarations. */
  ghost predicate PlanOf(m: Manifest, decls: seq<StepDecl>, noSquash: bool)
  {
    && |m.steps| == |decls|
    && m.isPrivileged == Privileged(decls, noSquash)
    && forall i :: 0 <= i < |decls| ==>
         StepOf(m.steps[i], decls[i], i, Manifest(m.steps[..i], Privileged(decls[..i], noSquash)), noSquash)
  }

  // ---------------------------------------------------------------------
  // Proofs

  /** Appending the remaining artefacts completes the artefact list and
      changes nothing else about the step. */
  lemma {:induction false} AppendArtefactsMeetsSpec(specs: seq<string>, kdx: nat, st: Step)
    requires kdx <= |specs|
    requires ArtefactsOf(st, specs[..kdx])
    ensures ArtefactsOf(AppendArtefacts(specs, kdx, st), specs)
    ensures AppendArtefacts(specs, kdx, st) == st.(artefacts := AppendArtefacts(specs, kdx, st).artefacts)
    decreases |specs| - kdx
  {
    if kdx == |specs| {
      assert specs[..kdx] == specs;
    } else {
      var path := SplitArtefact(specs[kdx]);
      var art := Artefact(kdx, st, path.source, path.dest);
      var st' := st.(artefacts := st.artefacts + [art]);
      forall k | 0 <= k < kdx + 1
        ensures st'.artefacts[k].order == k
        ensures st'.artefacts[k].step == st'.(artefacts := st'.artefacts[..k])
        ensures ArtefactPath(st'.artefacts[k].source, st'.artefacts[k].dest) == SplitArtefact(specs[..kdx + 1][k])
      {
        if k < kdx {
          assert st'.artefacts[..k] == st.artefacts[..k];
          assert specs[..kdx + 1][k] == specs[..kdx][k];
        } else {
          assert st'.artefacts[..k] == st.artefacts;
        }
      }
      assert ArtefactsOf(st', specs[..kdx + 1]);
      AppendArtefactsMeetsSpec(specs, kdx + 1, st');
    }
  }

  /** Adding a step converted from declaration `idx`, whose name is new,
      to a correct plan of the first `idx` declarations gives a correct
      plan of the first `idx + 1`. */
  lemma ExtendPlan(decls: seq<StepDecl>, noSquash: bool, idx: nat, r: Manifest, st: Step)
    requires idx < |decls|
    requires PlanOf(r, decls[..idx], noSquash) && DistinctNames(decls[..idx])
    requires StepOf(st, decls[idx], idx, r, noSquash)
    requires forall j :: 0 <= j < |r.steps| ==> r.steps[j].name != st.name
    ensures PlanOf(Manifest(r.steps + [st], r.isPrivileged || (decls[idx].cleanup.Some? && !noSquash)),
                   decls[..idx + 1], noSquash)
    ensures DistinctNames(decls[..idx + 1])
  {
    var s := decls[idx];
    var pre := decls[..idx];
    var pre' := decls[..idx + 1];
    var r' := Manifest(r.steps + [st], r.isPrivileged || (s.cleanup.Some? && !noSquash));
    assert pre' == pre + [s];
    forall i, j | 0 <= i < j < |pre'| ensures pre'[i].name != pre'[j].name {
      if j == idx {
        assert r.steps[i].name == pre[i].name;
      } else {
        assert pre'[i] == pre[i] && pre'[j] == pre[j];
      }
    }
    assert Privileged(pre', noSquash) == r'.isPrivileged by {
      if Privileged(pre, noSquash) {
        var k :| 0 <= k < |pre| && pre[k].cleanup.Some?;
        assert pre'[k] == pre[k];
      }
      if Privileged(pre', noSquash) {
        var k :| 0 <= k < |pre'| && pre'[k].cleanup.Some?;
        if k < idx {
          assert pre[k] == pre'[k];
        }
      }
    }
    forall i | 0 <= i < idx + 1
      ensures StepOf(r'.steps[i], pre'[i], i, Manifest(r'.steps[..i], Privileged(pre'[..i], noSquash)), noSquash)
    {
      if i < idx {
        assert r'.steps[..i] == r.steps[..i];
        assert pre'[..i] == pre[..i];
        assert r'.steps[i] == r.steps[i];
        assert pre'[i] == pre[i];
      } else {
        assert r'.steps[..i] == r.steps;
        assert pre'[..i] == pre;
      }
    }
  }

  /** The loop of the conversion keeps `PlanOf` for the steps converted so
      far; it succeeds exactly when all names are distinct, and otherwise
      names the first repeated one. */
  lemma {:induction false} ConvertFromMeetsPlan(decls: seq<StepDecl>, noSquash: bool, idx: nat, r: Manifest)
    requires idx <= |decls|
    requires PlanOf(r, decls[..idx], noSquash)
    requires DistinctNames(decls[..idx])
    ensures ConvertFrom(decls, noSquash, idx, r).Success? <==> DistinctNames(decls)
    ensures ConvertFrom(decls, noSquash, idx, r).Success? ==>
      PlanOf(ConvertFrom(decls, noSquash, idx, r).value, decls, noSquash)
    ensures ConvertFrom(decls, noSquash, idx, r).Failure? ==>
      exists j :: idx <= j < |decls| && FirstDuplicate(decls, j)
                  && ConvertFrom(decls, noSquash, idx, r).error == NotUniqueError(decls[j].name)
    decreases |decls| - idx
  {
    if idx == |decls| {
      assert decls[..idx] == decls;
    } else {
      var s := decls[idx];
      var retained := s.cleanup.Some? && !noSquash;
      var cleanup := if retained then Cleanup(s.cleanup.value.commands) else Cleanup([]);
      var initial := Step(idx, s.name, s.dockerfile, [], r, Some(cleanup));
      assert ArtefactsOf(initial, s.artefacts[..0]);
      AppendArtefactsMeetsSpec(s.artefacts, 0, initial);
      var converted := AppendArtefacts(s.artefacts, 0, initial);
      if FindIndex(r.steps, converted.name, 0).Some? {
        var i := FindIndex(r.steps, converted.name, 0).value;
        assert decls[..idx][i].name == s.name;
        assert FirstDuplicate(decls, idx);
        assert decls[i].name == decls[idx].name;
      } else {
        var r' := Manifest(r.steps + [converted], r.isPrivileged || retained);
        assert r == Manifest(r.steps, Privileged(decls[..idx], noSquash));
        ExtendPlan(decls, noSquash, idx, r, converted);
        ConvertFromMeetsPlan(decls, noSquash, idx + 1, r');
      }
    }
  }
}
