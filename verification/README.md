# Build-plan normalisation of habitus

This project models how habitus turns the steps declared in a build file
into the build plan (`Manifest`) its builder executes, and proves what that
plan looks like. The input is the already-parsed list of step declarations:
name, Dockerfile, artefact specifications and an optional cleanup block. The
no-squash option of the load configuration comes with it. The conversion
does the following:

- it numbers the steps, and the artefacts within each step, in declaration order;
- it splits every artefact specification `<source>[:<dest>]` into a source
  and a destination folder, which defaults to `"."`;
- it keeps a step's cleanup commands only when no-squash is off, and marks the
  plan privileged when it keeps one. A cleanup block counts even if it lists no
  commands: the code tests only that the block is present, not that it is non-empty;
- it rejects the whole build with `Step name '<name>' is not unique` at the
  first step whose name repeats an earlier one.

Each step holds a copy of the plan as it stood before the step was added.
Each artefact holds a copy of its step with only the earlier artefacts. The
model keeps both copies as plain values. `FindStepByName` looks a step up by
name; finding nothing is not an error.

Files:

- `wrappers.dfy`: `Option` and `Result`, standing in for nil pointers and
  `(value, error)` returns.
- `strings.dfy`: Go's `strings.Split` on a one-character separator, with
  `Join` as its inverse.
- `manifest.dfy`: the plan and declaration datatypes, the artefact split, the
  conversion, the lookup, and `PlanOf`. `PlanOf` describes a correct plan
  without referring to how the conversion computes it.
- `properties.dfy`: the conversion's properties, one lemma each. It also
  proves that `PlanOf` allows only one plan, and works a few concrete cases.
- `env.dfy`: where an `_env(NAME)` token's value comes from.

The model follows the code in one place where the documented artefact
syntax suggests otherwise. The syntax `<source>[:<dest>]` reads as if
everything after the first `':'` were the destination, so `"a:b:c"` would give
`"b:c"`. The code splits on every `':'` and takes the second part, so the
destination is `"b"` and `":c"` is dropped (`SplitArtefactTwoColons`).

## Model

| member | source | states |
|---|---|---|
| `BuildPlan.Convert` | build/manifest.go:84-132 | runs the step loop `ConvertFrom` from an empty, unprivileged plan; succeeds exactly when all declared names are distinct; on success the result satisfies `PlanOf`; on failure the error is `NotUniqueError` (the message of build/manifest.go:124) for the first declaration that repeats an earlier name |
| `BuildPlan.ConvertFromMeetsPlan` | build/manifest.go:89-129 | specifies `BuildPlan.ConvertFrom`, the step loop, which has no contract of its own: started on a correct plan of the first `idx` declarations, ends in a correct plan of all of them, or fails naming the first repeat at or after `idx` |
| `BuildPlan.ExtendPlan` | build/manifest.go:90-128 | one pass of the step loop: adding a step converted from declaration `idx`, whose name is new, to a correct plan of the first `idx` declarations gives a correct plan of the first `idx + 1`, with names still distinct and the privileged flag updated by this step's retained cleanup |
| `BuildPlan.AppendArtefactsMeetsSpec` | build/manifest.go:104-119 | specifies `BuildPlan.AppendArtefacts`, the artefact loop, which has no contract of its own: it produces one artefact per specification in order: artefact `k` has position `k`, the split source and destination, and a copy of the step with artefacts `0..k-1` only; the step's other fields do not change |
| `BuildPlan.SplitArtefact` | build/manifest.go:109-116 | without `':'` the source is the whole specification and the destination is `"."`; otherwise the source is the colon-free text before the first `':'`, the destination is the colon-free text after it, and that text ends at the second `':'` or at the end of the specification |
| `BuildPlan.FindIndex` | build/manifest.go:122-126 | the scan finds a position exactly when some step has the name, and that position is the first one |
| `BuildPlan.FindStepByName` | build/manifest.go:134-143 | never fails; finds a step exactly when some step has the name, and then returns the first such step |
| `Strings.Split` | build/manifest.go:109 | at least one part; one part more than there are separators; no part contains the separator; exactly one part when the text has no separator; the first part is the text up to the first separator |
| `Strings.JoinSplit` | build/manifest.go:109 | joining the parts of a split with the separator gives back the text |
| `Strings.SplitJoin` | build/manifest.go:109 | splitting a join of one or more separator-free parts gives back the parts |
| `PlanProperties.ConvertKeepsDeclarationOrder` | build/manifest.go:89-95 | on success there is one step per declaration, in order; step `i` has position `i` and the declared name and Dockerfile |
| `PlanProperties.ConvertKeepsArtefactOrder` | build/manifest.go:104-118 | step `i` has one artefact per declared specification; artefact `k` has position `k` and the source and destination split from specification `k` |
| `PlanProperties.ConvertRejectsDuplicate` | build/manifest.go:121-126 | any two declarations sharing a name make the conversion fail; the error names the first declaration, at or before the later of the two, that repeats an earlier name |
| `PlanProperties.ConvertNamesDistinct` | build/manifest.go:121-131 | on success the step names of the plan are pairwise distinct |
| `PlanProperties.ConvertPrivilege` | build/manifest.go:85-99 | the plan is privileged exactly when no-squash is off and some declaration has a cleanup block |
| `PlanProperties.ConvertCleanup` | build/manifest.go:97-102 | every step has a cleanup; it holds the declared commands when there is a cleanup block and no-squash is off, and no commands otherwise |
| `PlanProperties.ConvertSnapshots` | build/manifest.go:92-108 | step `i` holds a plan of exactly the steps before it, privileged only if one of those has a retained cleanup; artefact `k` holds the step with only the artefacts before `k` |
| `PlanProperties.FindConvertedStep` | build/manifest.go:134-143 | in a converted plan, looking up the name of declaration `i` finds step `i` |
| `PlanProperties.StepOfUnique` | build/manifest.go:90-119 | a declaration converted at one position on top of one snapshot gives exactly one step |
| `PlanProperties.PlanOfUnique` | build/manifest.go:84-132 | at most one plan satisfies `PlanOf` for given declarations and no-squash setting, so `PlanOf` pins down the conversion's result completely |
| `PlanProperties.SplitArtefactWithoutColon` | build/manifest.go:111-113 | `"a"` gives source `"a"` and destination `"."`; the empty specification gives source `""` and destination `"."` |
| `PlanProperties.SplitArtefactOneColon` | build/manifest.go:114-116 | `"a:b"` gives `("a", "b")`; `"a:"` gives `("a", "")` |
| `PlanProperties.SplitArtefactTwoColons` | build/manifest.go:109-116 | `"a:b:c"` gives `("a", "b")`: the part after the second `':'` is dropped |
| `PlanProperties.ThreeStepsInOrder` | build/manifest.go:89-95 | steps x, y, z convert to positions 0, 1, 2 in that order |
| `PlanProperties.DuplicateBuildFails` | build/manifest.go:121-126 | two steps named `build` fail with `Step name 'build' is not unique` |
| `PlanProperties.CleanupAndNoSquash` | build/manifest.go:97-102 | with no-squash off, a cleanup block makes the plan privileged and is kept; with no-squash on, it is emptied and the plan is not privileged |
| `EnvTokens.TableShadowsProcessEnv` | build/manifest.go:152-156 | specifies `EnvTokens.TokenValue`, which has no contract of its own: with a non-empty variable table a token's value is the table lookup's, whatever the process environment holds |
| `EnvTokens.EmptyTableUsesProcessEnv` | build/manifest.go:152-156 | specifies `EnvTokens.TokenValue`: with an empty variable table a token's value is the process environment's, whatever the table lookup would give |

## Left out

- `LoadBuildFromFile` (build/manifest.go:64-82) is left out because it is I/O and a foreign library: it logs, reads the file and unmarshals YAML. The model's input is the parsed declaration list, and read and parse errors are not modelled.
- The textual rewrite in `parseForEnvVars` (build/manifest.go:145-160) is left out because it depends on Go's regular-expression semantics. For example, the greedy `_env\((.*)\)` turns two tokens on one line into one match. Only the choice of lookup is modelled (`EnvTokens.TokenValue`). The process environment and `configuration.EnvVars.Find` are function parameters, and the table's size stands in for `len(config.EnvVars)`.
- `configuration.Config` is reduced to its `NoSquash` flag, because the configuration package is not part of this model. A nil `Config` pointer, which would make the Go code panic, is not modelled.
- The `Workdir` field is left out: it is parsed but the conversion never reads it.
- Pointer identity is not modelled. A step's `Cleanup` pointer is an `Option<Cleanup>`, and the model proves it is always present. `FindStepByName` returns a pointer to a copy of the step, which the model returns as a value.
- Go's `int` is modelled as `nat` for step and artefact positions. A position is an index into a slice, so it cannot overflow.
