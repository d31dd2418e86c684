# Verification of the DIFC Verilog compiler's core passes

This project models parts of DIFCVerilog, a Verilog compiler derived from Icarus Verilog with an
information-flow type checker added, and proves properties of them in Dafny.

    dafny verify dfyconfig.toml

## What is modelled

**Statement lowering** (`Verinum`, `PExprs`, `World`, `PForm`, `Netlist`, `Elaborate`, `Design`,
`Preservation`, `Instants`, `LoweringTheorems`, `Acceptance`, `Temporaries`, `ForStep`, `LoweringExamples`).
`PForm` gives parsed statements a timed semantics and `Netlist` gives one to netlist statements. Both run
against a `World`: time is a sequence of instants, and between two instants the other processes may change every
signal and fire every event. Two cut-offs, a last instant and a number of loop rounds in which no time passes,
make the semantics total; the theorems hold for all cut-offs, and `CompletionUnique` shows that the cut-offs
never choose a result. `Elaborate` is the lowering as a function, `Design` is the lowering as the program
carries it out, method by method, on the design's error count and symbol counter. The meaning of expressions is
a parameter: any interpretation of the operators that gives every expression that elaborates its width and the
constant it folds to, in all stores that give each signal a value of its declared width. Runs keep such stores:
assignments resize what they store. `LoweringExamples` has a design, a meaning and a world that meet all
hypotheses, and a run. `Acceptance` says which statements elaborate without an error, `Temporaries` that no two
pieces of code share a local net.

**Predicate analysis** (`Polarity`, `Counting`, `FlowStatements`, `AbsInterp`, `DeclaredDeps`, `Invalidation`,
`PredicateState`). The weakening of conditions, the abstract interpreter over hypotheses, and the merge at the
end of a branch, for every interpretation that gives the operators of conditions their two-valued meaning.
`AbsInterp` allows any set of expressions that types may depend on; `DeclaredDeps` has the sets that
`Module::CollectDepExprs` collects, which hold declared names only. Nothing in the program calls it, so the set is
empty there.

**Flow collection and labels** (`Flow`, `Labels`, `MustModify`). The names an expression's constraints
mention, the label it gets in any lattice, and the must-modify analysis of statements.

**Scope elaboration** (`Scopes`, `ScopeElab`, `ScopeSteps`, `WorkList`, `WorkOrder`, `ScopeDesign`,
`ScopeExamples`, `GenerateChoice`). The scan for recursive instantiation, the expansion of modules and generate
schemes, and the rounds of the work list. `GenerateChoice` says which scopes come of them, by the tests alone.
`ScopeElab` says what each part does as a sequence of steps (scope created, work queued, error counted, work
run); `ScopeDesign` carries the same out in place. What depends on parameter values (constants, whether a name
is taken) is a parameter of the model, free to answer anything per scope and source line. The results hold
for every program each of whose generate loops is finite.

**Constant propagation** (`Nexus`, `Valuation`, `MuxRewrite`, `ConstProp`). Links and nexuses with the
remembered value `driven_`, the two scans that compute it, and the replacement of muxes until nothing changes.
`Valuation` gives a netlist its meaning: the set of valuations of its nexuses that balance every nexus with
its drivers, for any behaviour of the devices and of what is outside of the ports of a root module.

**Vectors and wiring** (`Selects`, `Slicing`, `GateArray`, `Widths`). Constant selects of parameters, l-values
and nets; the cutting of vectors for concatenations and ports; gate arrays; the widths of sums.

**String heap** (`StringLayout`, `StringHeap`). The next-fit allocator and the interning table in front of it.

## What was found

Where a law does not hold of the code as it is, the code was kept, the exact condition is proved, and a
concrete failing case is given.

- A constant `repeat` count is tested after truncation to 63 bits, so a count with a 1 above bit 62 and a low
  part of 0 or 1 loses its rounds (`Verinum.CountFoldExact`, `LoweringTheorems.RepeatFoldExact`); 2 to the
  power of 63 reads as 0 (`Verinum.CountFoldLoses`, `LoweringExamples.RoundsLost`). The same holds of the count
  in `a = repeat (n) @ev b` (`LoweringTheorems.WaitsFoldExact`, `LoweringExamples.WaitsLost`).
- The step of a `for` loop is the one assignment whose right-hand side is not padded, and the code generated for
  an assignment stores only the bits there are. The step is right exactly when it is elaborated at least as wide
  as the variable (`ForStep.StepExact`); stepping a vector by a scalar leaves it with one bit
  (`LoweringExamples.StepTooNarrow`).
- `contains_expr` does not look into concatenations, ternaries, calls and indices, and an l-value is searched
  for by its text. `is_wellformed` accepts any operand of `~|`, so a branch can leave a hypothesis that
  outlives its truth: `~|{x, a}` survives `x = b` (`Invalidation.NotOverlooked`), and `~|x` survives
  `x[0] = b` (`Invalidation.PartOverlooked`). For negations, chains of them and conjunctions of them the
  assignment is dealt with soundly exactly when the l-value is found or its name does not occur
  (`Invalidation.NotExact`), and so for names and equalities (`Invalidation.NameExact`,
  `Invalidation.EqualityExact`), where only assignments to parts of a collected name go unnoticed. Where only
  declared names are collected, every assignment is safe to record (`DeclaredDeps.BareSafeAssign`), and the
  analysis is sound when no name beneath a `~|` is hidden or assigned in parts, no collected name is assigned in
  parts, and no connective stands beneath a comparison (`DeclaredDeps.DeclaredSound`).
- The merge intersects hypotheses that are ordered by address with a comparator on names. It never keeps too
  much (`PredicateState.IntersectionSound`), finds everything common with every sorted range exactly when its
  own range is sorted (`PredicateState.IntersectionExact`), and else may lose a hypothesis both branches have
  (`PredicateState.IntersectionLoses`). Where the order fits at every merge nothing is lost
  (`PredicateState.StepsExact`), as it does without branches or with never more than one hypothesis
  (`PredicateState.NothingLost`).
- Weakening is sound when no connective that stands beneath a comparison is dropped from, for which it is
  enough that none stands there (`Polarity.TwoSided`); `(a && b[0]) == 0` fails for every set of declared names
  with `a` in it (`Polarity.NestedConnectiveUnsound`).
- Repeat counts of concatenations and widths of indexed selects are not among the collected names
  (`Flow.CollectedDetermine`, `Flow.OpenWidthUndetermined`); ternaries and calls get the bottom label, and
  indices are not looked at (`Labels.NoninterferenceExact`, `Labels.UnseenForms`).
- Of the constants and pulls on a nexus the last one scanned counts, and of supplies the first. A 0 or 1 found
  so is the value the drivers combine to exactly when nothing stands against it: with a supply not the other
  one, else no constant that differs and, if no constant gives the value, not the other pull
  (`Valuation.ScanExact`; a clash in `Valuation.LastConstantWins`, and a pull that hides a constant in
  `Valuation.PullWins`).
- The value of a nexus that is not constant would be remembered as if it were
  (`ConstProp.Design.DrivenValue`); the callers ask for constant ones only.
- An l-value `[b -: w]` with `w > 1` on a vector whose declared bounds are equal is placed as if it went up
  (`Selects.LvalNetIdx`, `Selects.DownSelectMisplaced`).
- A signal as wide as one instance of an array is cut as if it were as wide as the whole array when the port
  is a concatenation (`Slicing.ConnectPorts`, `Slicing.SlicesFit`, `Slicing.SlicedTooWide`).
- A bit select below the range of its net is refused in l-values (`Selects.LnetSelect`) but not in the port
  expressions of a module, where it becomes a slice outside of the port (`Selects.PortSelect`,
  `Selects.BelowUnnoticed`).
- A parameter that stands alone may be narrower than the width asked for (`Widths.WidthsCover`,
  `Widths.NarrowParameter`).

The comment in `elaborate.cc` on `wait` promises a block around the loop only when there is a statement; the
caller always passes one, an empty block at least, and the model follows the code.

## Model

| member | source | states |
|---|---|---|
| Verinum.ReduceOr | DIFCVerilog/elaborate.cc:2533-2535 | folding `or` over the bits of a constant condition gives 1 exactly when some bit is 1, and the same bit as comparing with zero |
| Verinum.CountFoldExact | DIFCVerilog/verinum.cc:423-470 | testing a count through `as_long` decides between no round, one round and more exactly when the count fits 63 bits; a count that does not fit means two rounds or more but reads as 0 or 1 |
| Verinum.CountFoldLoses | DIFCVerilog/verinum.cc:423-470 | the count with only bit 63 set is 2 to the power of 63 and reads as 0 |
| Design.Design.ElaborateAssign | DIFCVerilog/elaborate.cc:2079-2239 | the imperative lowering of assignments, with the padding of the value to the l-value width, computes the lowering function, with its errors and its fresh local net |
| Design.Design.ElaborateBlock | DIFCVerilog/elaborate.cc:2407-2427 | the loop over a block appends exactly the statements that elaborate and are not empty, in order |
| Design.Design.ElaborateCase | DIFCVerilog/elaborate.cc:2433-2499 | the case table is filled with one entry for every guard and one for a default, in order |
| Design.Design.ElaborateCondit | DIFCVerilog/elaborate.cc:2504-2590 | the lowering of conditionals, with constant conditions folded and empty branches removed |
| Design.Design.ElaborateFor | DIFCVerilog/elaborate.cc:3576-3692 | the lowering of `for` to a padded assignment and a `while` that ends with an unpadded one |
| Design.Design.ElaborateWait | DIFCVerilog/elaborate.cc:3332-3468 | the lowering of `wait` |
| Design.Design.ElaborateEvents | DIFCVerilog/elaborate.cc:3111-3315 | event expressions that fail are counted and skipped, the others are kept in order |
| Design.Design.ElaborateStatement | DIFCVerilog/elaborate.cc:3471-3503 | every kind of statement is lowered as the lowering function says |
| Preservation.LoweringPreserves | DIFCVerilog/elaborate.cc:2366-2590 | main theorem: from any store with the declared widths, at any instant, whatever other processes do within these widths, the lowered statement ends with the same signals at the same instant as the parsed one, or neither ends; for all statements that elaborate without error, whose constant counts fit, and whose `for` steps are as wide as their variables |
| Preservation.PadStores | DIFCVerilog/pad_to_width.cc:32-51 | padding an elaborated value and storing its low bits is resizing the value of the expression to the l-value, by its sign if it is signed; without padding it is so for values that are wide enough |
| Preservation.ListPreserved | DIFCVerilog/elaborate.cc:2407-2427 | dropping empty blocks from a list preserves its runs |
| Preservation.SelectPreserved | DIFCVerilog/elaborate.cc:2460-2497 | the flattened case table selects the elaboration of the item the source selects, the first match, or the last default wherever it stands |
| Preservation.ForPreserved | DIFCVerilog/elaborate.cc:3632-3691 | the `while` made of a `for` runs round by round like it |
| Preservation.RepeatedRun | DIFCVerilog/elaborate.cc:3775-3787 | folding constant counts of at most 0 and of 1 is exact for counts that fit |
| Preservation.WaitLoop | DIFCVerilog/elaborate.cc:3409-3465 | the loop around the event wait on the inputs of a condition ends exactly when the condition becomes true |
| Preservation.RepeatedAssignPreserved | DIFCVerilog/elaborate.cc:2149-2216 | the block made of `a = repeat (n) @ev b` runs like it, whether the repeat was folded or not |
| Instants.AwaitTrueExact | DIFCVerilog/elaborate.cc:3318-3331 | waiting for a condition ends at t' exactly when it is true there for the first time |
| Instants.AwaitTimeExact | DIFCVerilog/elaborate.cc:2960-2992 | a delay ends at the first later instant whose clock has reached the due time |
| Instants.AwaitEventsExact | DIFCVerilog/elaborate.cc:2149-2186 | n waits for an event end exactly at its n-th occurrence |
| LoweringTheorems.SameCompletion | DIFCVerilog/elaborate.cc:2366-2590 | the lowered statement ends with a store at an instant if and only if the parsed one does: both diverge or block for ever on the same inputs |
| Acceptance.AcceptedExact | DIFCVerilog/elaborate.cc:2079-2590 | a statement elaborates without an error if and only if its l-values are declared, its expressions, counts, delays and events elaborate, and what it waits for is constant or reads something; of a constant condition only the branch taken counts |
| Acceptance.AcceptedRuns | DIFCVerilog/elaborate.cc:2366-2590 | every such statement gets code without an error, and with fitting counts and steps the code runs exactly like it |
| Acceptance.NothingEmpty | DIFCVerilog/elaborate.cc:2407-2590 | no empty block is left in a block or as a branch, and no branch on a constant at all |
| Acceptance.EventsSkipped | DIFCVerilog/elaborate.cc:3111-3315 | events that do not elaborate are counted once each, and exactly the others kept |
| Acceptance.CodeInError | DIFCVerilog/elaborate.cc:2079-2147 | an assignment with a failed delay is made without one; a `for` whose step assigns to an unknown name leaves its body; each with an error more |
| Acceptance.BlockGoesOn | DIFCVerilog/elaborate.cc:2407-2427 | a block goes on behind a statement that fails: its two halves elaborate one after the other |
| Temporaries.NetsFresh | DIFCVerilog/elaborate.cc:2129-2147 | the local nets in the code of a statement are new ones: they lie between the symbol counter before and after it, each is assigned in one place, and no other is read |
| Temporaries.NetsApart | DIFCVerilog/elaborate.cc:2129-2147 | two statements elaborated one after the other have no local net in common |
| Temporaries.TemporaryTaken | DIFCVerilog/elaborate.cc:2129-2147 | an assignment with a delay or an event takes exactly one |
| Temporaries.ValuesKept | DIFCVerilog/elaborate.cc:2129-2147 | so what one process keeps during a delay is not touched by the code of another, however long it runs |
| LoweringTheorems.WaitStartsAtFirstTrue | DIFCVerilog/elaborate.cc:3332-3468 | the netlist for `wait` starts the statement at the first instant at which the condition is true, and never if there is none, constant conditions included |
| LoweringTheorems.IntraAssignmentExact | DIFCVerilog/elaborate.cc:2099-2217 | for `a = #d b`, `a = @ev b` and `a = repeat (n) @ev b` the value of `b` at the start, resized to `a`, is stored into the signals as others have made them, exactly when the delay is over or the n-th event has happened |
| LoweringTheorems.RepeatFoldExact | DIFCVerilog/elaborate.cc:3775-3787 | a constant repeat is preserved for every body, world and store if and only if its count fits |
| LoweringExamples.RoundsLost | DIFCVerilog/elaborate.cc:3775-3787 | a repeat of 2 to the power of 63 rounds is not preserved |
| LoweringTheorems.WaitsFoldExact | DIFCVerilog/elaborate.cc:2172-2192 | an assignment that waits for a constant number of events is preserved, whatever is assigned and awaited, if and only if the count fits |
| LoweringExamples.WaitsLost | DIFCVerilog/elaborate.cc:2172-2192 | an assignment that waits for 2 to the power of 63 events is not preserved |
| ForStep.StepExact | DIFCVerilog/elaborate.cc:3661-3667 | the `for` loops that step a variable by an expression are all preserved if and only if the expression is elaborated at least as wide as the variable |
| LoweringExamples.StepTooNarrow | DIFCVerilog/tgt-vvp/vvp_process.c:451-479 | stepping a vector by a scalar is not preserved: an assignment stores as many bits as its r-value has |
| LoweringExamples.ExampleCode | DIFCVerilog/elaborate.cc:2099-2239 | a run of a delayed assignment and a wait, in a design and a world that meet every hypothesis of the theorems |
| Polarity.TwoSided | DIFCVerilog/PExpr.cc:141-205 | with no connective beneath a comparison, a condition implies its weakening and is implied by its negative one, and each exists exactly when its test says so |
| Polarity.AllowedKept | DIFCVerilog/PExpr.cc:157-205 | a condition in which everything may be mentioned is kept as it is by both weakenings |
| Polarity.ConjunctsKept | DIFCVerilog/PExpr.cc:157-172 | every conjunct that may be mentioned follows from the weakened condition |
| Polarity.DisjunctsKept | DIFCVerilog/PExpr.cc:190-205 | every disjunct that may be mentioned implies what is kept for the negation |
| Polarity.MentionsOnly | DIFCVerilog/PExpr.cc:399-415 | a weakened condition without `N` operators mentions only names of the given set |
| Polarity.NestedConnectiveUnsound | DIFCVerilog/PExpr.cc:157-172 | with any set of declared names that has `a`, the condition `(a && b[0]) == 0` does not imply its weakening |
| FlowStatements.TranslatePreserves | DIFCVerilog/PExpr.cc:494-517 | the branches made of a nested conditional expression store its value, in a name or in a part of it, and contain no conditional expression as a right-hand side |
| AbsInterp.InvalidatedSound | DIFCVerilog/absinterp.cc:30-41 | hypotheses left after invalidation do not depend on the name, unless they mention it where it is overlooked |
| AbsInterp.AssignSound | DIFCVerilog/absinterp.cc:49-57 | after an assignment every hypothesis left or added holds |
| AbsInterp.BranchSound | DIFCVerilog/absinterp.cc:72-86 | on entering a branch every hypothesis kept or added holds |
| AbsInterp.AnalysisSound | DIFCVerilog/absinterp.cc:30-93 | if the start store satisfies every hypothesis then after any run of any safe tree of blocks, branches and assignments, to names or to parts of them, the store satisfies every hypothesis left |
| AbsInterp.PartSound | DIFCVerilog/absinterp.cc:49-57 | after an assignment to a part every hypothesis left holds, if none is about the name |
| DeclaredDeps.BareSafeAssign | DIFCVerilog/typecheck.cc:239-256 | with declared names only every assignment is safe to record |
| DeclaredDeps.DeclaredSound | DIFCVerilog/typecheck.cc:239-256 | with declared names only the analysis is sound for every tree with no connective beneath a comparison and with no name beneath a negation hidden or assigned in parts, if no collected name is assigned in parts |
| AbsInterp.TransparencyKept | DIFCVerilog/absinterp.cc:72-86 | hypotheses without overlooked names and names assigned in parts lead only to such hypotheses |
| AbsInterp.AnalyzeMonotone | DIFCVerilog/absinterp.cc:30-93 | fewer hypotheses at the start never give more at the end |
| AbsInterp.RecordingSafe | DIFCVerilog/absinterp.cc:49-57 | the recorded equality holds in every store after the assignment if the right-hand side is the name itself or does not mention it |
| AbsInterp.RecordingExact | DIFCVerilog/absinterp.cc:49-57 | and only if, for right-hand sides without condition operators: the limit for arbitrary sets of expressions, which sets of declared names never reach |
| Invalidation.InvalidationSafe | DIFCVerilog/PExpr.cc:135-139 | keeping any hypothesis across every assignment to a name or part is right if the name does not occur, or the l-value is found |
| Invalidation.NotExact | DIFCVerilog/PExpr.cc:534-551 | and only if, for negations of anything without condition operators, chains of them and conjunctions of them, as branches leave them |
| Invalidation.NotOverlooked | DIFCVerilog/PExpr.cc:539-551 | a branch on the NOR of the concatenation of `x` and `a` leaves that condition as a hypothesis, whatever the set of expressions; it survives `x = b`, after which it can be false |
| Invalidation.PartOverlooked | DIFCVerilog/absinterp.cc:30-57 | the NOR of `x` survives an assignment to a bit of `x` |
| Invalidation.NameExact | DIFCVerilog/absinterp.cc:30-57 | a name as a hypothesis is dealt with soundly if and only if no part of it is assigned |
| Invalidation.EqualityExact | DIFCVerilog/absinterp.cc:49-57 | an equality without condition operators is dealt with soundly if and only if the l-value is found or its name does not occur |
| PredicateState.IntersectionSound | DIFCVerilog/absinterp.cc:88-93 | in any order the intersection holds only common hypotheses |
| PredicateState.IntersectionComplete | DIFCVerilog/absinterp.cc:88-93 | on ranges sorted by the comparator it holds all of them, as often as they are common |
| PredicateState.IntersectionExact | DIFCVerilog/absinterp.cc:88-93 | a range finds everything it has in common with every sorted range, as often as it is common, if and only if it is sorted itself |
| PredicateState.IntersectionLoses | DIFCVerilog/sectypes.h:317-334 | out of order it can lose a hypothesis that both sides have |
| PredicateState.Predicate.Invalidate | DIFCVerilog/absinterp.cc:30-41 | the erasing loop takes out every copy of exactly the hypotheses that contain the l-value, and leaves the others in order |
| PredicateState.Predicate.AbsintpAssign | DIFCVerilog/absinterp.cc:49-57 | the hypotheses after an assignment to a name or part, with their numbers of copies |
| PredicateState.Predicate.AbsintpCondit | DIFCVerilog/absinterp.cc:72-86 | the hypotheses on entering a branch: at most one object more, somewhere among the others |
| PredicateState.Predicate.Merge | DIFCVerilog/absinterp.cc:88-93 | the merged hypotheses are the library intersection of both sides in the order of their addresses, and within both, copies included |
| PredicateState.Predicate.Typecheck | DIFCVerilog/typecheck.cc:1287-1355 | threading the predicate through a statement in place is a walk of the model, and leaves no more than the analysis with exact intersections |
| PredicateState.AssignAdds | DIFCVerilog/absinterp.cc:49-57 | an assignment leaves every hypothesis that does not contain the l-value, and for a number or a collected name stored to a collected name one that holds exactly where both are equal; and nothing else |
| PredicateState.TrueSideAdds | DIFCVerilog/absinterp.cc:72-79 | the true side of a branch gains a hypothesis from which every conjunct of the condition follows that may be mentioned, and loses none; it is the condition if all of it may be |
| PredicateState.FalseSideAdds | DIFCVerilog/absinterp.cc:80-85 | the other side gains one that excludes every disjunct that may be mentioned; it is the negation if all of the condition may be |
| PredicateState.StepsExact | DIFCVerilog/typecheck.cc:1287-1355 | a walk leaves no more than the analysis with exact intersections, and exactly that if both sides of every merge are in order |
| PredicateState.MergeExact | DIFCVerilog/absinterp.cc:88-93 | a merge of two sides in order leaves everything both have, as often as both have it |
| PredicateState.ShortOrdered | DIFCVerilog/typecheck.cc:1287-1355 | a walk on which there is never more than one hypothesis meets only sides in order |
| PredicateState.NothingLost | DIFCVerilog/typecheck.cc:1287-1355 | so nothing is lost on it, nor in a tree without branches |
| PredicateState.KeptAcrossBranch | DIFCVerilog/typecheck.cc:1287-1355 | what is known of `z` is still known after a branch on `c` that assigns `y` |
| PredicateState.LeftHypothesesHold | DIFCVerilog/typecheck.cc:1287-1355 | whatever order the merges met, all that is left holds after every run |
| Flow.TypecheckString | DIFCVerilog/PExpr.h:475-490 | the collecting loops compute the names in order, over all expression forms |
| Flow.GetIndexExpressions | DIFCVerilog/PExpr.h:427-451 | the index expressions collected, widths left out |
| Flow.CollectsNames | DIFCVerilog/PExpr.h:750-755 | nothing is collected that is not mentioned, and with constant repeat counts and widths everything is |
| Flow.DeterminesExact | DIFCVerilog/PExpr.h:945-959 | a set of names determines an expression's value, for all meanings of the operators, if and only if it holds every name in it |
| Flow.CollectedDetermine | DIFCVerilog/PExpr.h:1169-1188 | stores agreeing on the collected names give one value if and only if all names are collected, and always when repeat counts and indexed widths are constant |
| Flow.OpenWidthUndetermined | DIFCVerilog/PExpr.h:441-444 | a width or repeat count that names a net is overlooked |
| Labels.Typecheck | DIFCVerilog/check_expr.cc:30-109 | the label computed, with the joining loop over a concatenation |
| Labels.TypeIsLeastUpperBound | DIFCVerilog/check_expr.cc:30-52 | in every lattice the label is the least upper bound of the labels of the names seen, unbound names counting as top |
| Labels.NoninterferenceExact | DIFCVerilog/check_expr.cc:68-109 | labels are noninterfering for every labelling and observer if and only if all names of the expression are seen |
| Labels.PlainAnalysesAgree | DIFCVerilog/check_expr.cc:30-52 | for index-, ternary- and call-free expressions with constant repeat counts the label is the least upper bound of the labels of exactly the collected names |
| Labels.UnseenForms | DIFCVerilog/check_expr.cc:95-104 | ternaries, calls and indices are not noninterfering |
| MustModify.Mustmodify | DIFCVerilog/Statement.cc:129-135 | what is added joins the set passed by reference, nothing in it is lost, and a branch adds what both its arms add to fresh sets |
| MustModify.MustIsMeetOverPaths | DIFCVerilog/Statement.cc:203-213 | a name is added only if it is of interest and assigned on every path, and exactly then when only assignments, blocks and branches occur |
| MustModify.OtherIsMissed | DIFCVerilog/Statement.h:87 | other statements contribute nothing even when they always assign |
| Scopes.CheckRecursion | DIFCVerilog/elab_scope.cc:1168-1211 | the loop over the ancestors computes the verdict |
| Scopes.ScanExact | DIFCVerilog/elab_scope.cc:1168-1211 | an instance is refused exactly when the module is in itself without a generate block in between, or is already `recursive_mod_limit` deep |
| Scopes.LegalInstance | DIFCVerilog/elab_scope.cc:1168-1211 | an allowed instance keeps paths legal: at most limit + 1 scopes of a module, any two with a generate block between |
| Scopes.DepthBound | DIFCVerilog/elab_scope.cc:1168-1211 | a legal path has at most (number of modules) * (limit + 1) module scopes |
| ScopeSteps.EffectsKeep | DIFCVerilog/elab_scope.cc:516-544 | a work item creates legal scopes only, queues the generate schemes of a module scope as soon as it is created, and queues only work of lower rank |
| ScopeSteps.SchemesKeep | DIFCVerilog/elab_scope.cc:1012-1089 | the same for generate schemes, however nested |
| ScopeSteps.InstancesKeep | DIFCVerilog/elab_scope.cc:1241-1394 | the same for the instances of a module |
| ScopeSteps.IndicesExact | DIFCVerilog/elab_scope.cc:1254-1294 | the instance indices of an array are distinct and run over its range from the low end |
| WorkList.ElaborationConserves | DIFCVerilog/elaborate.cc:4624-4653 | every queued item runs exactly once, in queue order; there are at most 2 * modules * (limit + 1) + 1 rounds; every path created is legal and within the bound |
| WorkOrder.Staged | DIFCVerilog/elaborate.cc:4624-4653 | what one round queues runs in the next, at its place in line, with exactly one complete run of the defparams in between |
| WorkOrder.QueuedThenRun | DIFCVerilog/elaborate.cc:4624-4653 | for the whole elaboration: what a round queues is run in the next, at its place in line, and the items of the roots are run in the first round, with no run of the defparams before |
| WorkOrder.DefparamsBeforeGenerates | DIFCVerilog/elab_scope.cc:460-465 | between the creation of any module scope, of a root or not, and the run of its generate schemes, at their place in line, the defparams are run completely, exactly once |
| ScopeExamples.LoopsRun | DIFCVerilog/elab_scope.cc:617-712 | in a program to which the results apply, a loop that counts up and one that counts down take their turns in the same scope |
| GenerateChoice.ConditExact | DIFCVerilog/elab_scope.cc:717-806 | a generate `if` or `else` with a free name has its scope created if and only if its test is constant and not 0, or 0 for an `else`; a test that is not constant is an error |
| GenerateChoice.OneArm | DIFCVerilog/elab_scope.cc:733-742 | of an `if` and `else` on one constant test exactly one has its scope created, by the value of the test |
| GenerateChoice.DirectExact | DIFCVerilog/elab_scope.cc:785-796 | a directly nested branch is expanded in place if its test takes it, and else not at all |
| GenerateChoice.NestedFlat | DIFCVerilog/PGenerate.cc:36-83 | a body under a generated name that is but an `if`, with or without `else`, or a `case` adds no scope of its own |
| GenerateChoice.CaseExact | DIFCVerilog/elab_scope.cc:810-940 | a generate `case` with constant tests has the scope created of the first item with a test equal to the value, or else of the last default, and of no other |
| GenerateChoice.CaseNone | DIFCVerilog/elab_scope.cc:876-880 | without such an item it does nothing |
| GenerateChoice.CaseStops | DIFCVerilog/elab_scope.cc:834-870 | a test that is not constant, met before an item fits, is an error |
| GenerateChoice.LoopStarts | DIFCVerilog/elab_scope.cc:549-712 | a generate loop has a scope created for exactly the genvar values it takes, from its first value to the first failing test |
| GenerateChoice.BlockExact | DIFCVerilog/elab_scope.cc:947-1000 | a generate block has its scope created exactly if its name is free |
| GenerateChoice.ClashFails | DIFCVerilog/elab_scope.cc:744-806 | a scheme whose name is taken is an error, if its scope would be created, and nothing else comes of it |
| GenerateChoice.ContentsExpanded | DIFCVerilog/elab_scope.cc:1012-1089 | a generated scope has all of its schemes and gates expanded in it |
| GenerateChoice.GateExact | DIFCVerilog/elab_scope.cc:1126-1235 | an instance without a range has exactly its scope created if and only if its module is there, its name given and free and the recursion within bounds; with a range it is put off; else it is an error, unless it is a primitive |
| GenerateChoice.InstanceExpanded | DIFCVerilog/elab_scope.cc:1286-1394 | every instance has the gates of its module expanded in its scope, and its generate schemes queued |
| GenerateChoice.RangeExact | DIFCVerilog/elab_scope.cc:1254-1294 | an array of instances has a scope created for exactly the numbers in its range, in either direction |
| GenerateChoice.RangeOpen | DIFCVerilog/elab_scope.cc:1254-1280 | without a constant high end there is one instance without an index; without a constant low end that is an error |
| GenerateChoice.RootExact | DIFCVerilog/elaborate.cc:4580-4622 | a root has its scope created exactly if there is such a module, and its turn in the list; else that is an error |
| GenerateChoice.RootExpanded | DIFCVerilog/elab_scope.cc:455-500 | so has a root |
| GenerateChoice.ElaborationDone | DIFCVerilog/elaborate.cc:4624-4653 | every item run in the whole elaboration takes all of its steps |
| GenerateChoice.SchemeDone | DIFCVerilog/elab_scope.cc:1012-1089 | so each generate scheme of a module is expanded in each scope of the module whose turn comes |
| ScopeDesign.Design.ElaborateGate | DIFCVerilog/elab_scope.cc:1126-1235 | instantiating a module in place takes the steps of the model: refused, put off, or expanded at once |
| ScopeDesign.Design.ElaborateInstances | DIFCVerilog/elab_scope.cc:1286-1385 | the loop over the instances |
| ScopeDesign.Design.GenerateLoop | DIFCVerilog/elab_scope.cc:617-712 | the genvar loop takes the turns of the model and terminates |
| ScopeDesign.Design.GenerateScope | DIFCVerilog/elab_scope.cc:516-544 | the choice among the generate schemes |
| ScopeDesign.Design.PickItem | DIFCVerilog/elab_scope.cc:834-880 | a generate case takes the first matching item, or the last default |
| ScopeDesign.Design.ElaborateSubscope | DIFCVerilog/elab_scope.cc:1012-1089 | a generated scope with its schemes and then its gates |
| ScopeDesign.Design.Pass | DIFCVerilog/elaborate.cc:4624-4648 | one pass runs the queue as it was, the defparams last, and leaves the new work |
| ScopeDesign.Design.Elaborate | DIFCVerilog/elaborate.cc:4563-4653 | the whole elaboration in place takes the steps of the model, ends with an empty work list, and shows them in the scopes and the error count |
| Nexus.SupplyDecides | DIFCVerilog/link_const.cc:74-84 | a supply that ends the scan for drivers is the value the other scan finds |
| Nexus.ConstantExact | DIFCVerilog/link_const.cc:30-100 | a nexus is constant if and only if before every driver that can change, an input or inout port of a root module included, there is a supply |
| Nexus.InputsIgnored | DIFCVerilog/net_link.cc:350-353 | an input link changes neither scan |
| Valuation.ScanIsValue | DIFCVerilog/link_const.cc:102-173 | a 0 or 1 that the scan finds on a constant nexus without assignments is the value every allowed valuation has there, if its constants agree |
| Valuation.ScanExact | DIFCVerilog/link_const.cc:127-157 | with any constants, pulls and supplies, a 0 or 1 that the scan finds is the value the drivers combine to if and only if nothing stands against it |
| Valuation.PullWins | DIFCVerilog/link_const.cc:148-156 | of a constant 0 and then a pull to 1 the scan finds 1 |
| Valuation.LastConstantWins | DIFCVerilog/link_const.cc:127-157 | of a 0 and then a 1 the scan finds 1, where the wires clash |
| MuxRewrite.ReplacedEquivalent | DIFCVerilog/cprop.cc:824-852 | replacing a mux by a buffer from the selected input leaves the set of allowed valuations unchanged |
| MuxRewrite.ReplacedSatisfied | DIFCVerilog/cprop.cc:824-852 | for every behaviour of the devices and every valuation, the netlist after the replacement is balanced if and only if the one before is |
| ConstProp.ReplaceableExact | DIFCVerilog/cprop.cc:824-852 | a mux is replaced exactly if no assigned net is on its select, before every driver that can change there is a supply, and there is a supply or, as the last constant or pull, a 0 or 1, which chooses the input |
| ConstProp.Design.DriversConstant | DIFCVerilog/link_const.cc:30-100 | answers as a fresh scan would, and what it remembers stays true |
| ConstProp.Design.DrivenValue | DIFCVerilog/link_const.cc:102-173 | the value of a fresh scan for every nexus that is not remembered to vary, and what is remembered is true if and only if the nexus is constant |
| ConstProp.Design.HasAssignLval | DIFCVerilog/net_link.cc:262-279 | whether an assigned net is linked |
| ConstProp.Design.Relink | DIFCVerilog/net_link.cc:374-391 | a new link keeps everything remembered true |
| ConstProp.Design.Unlink | DIFCVerilog/net_link.cc:343-372 | so does a link that is taken away |
| ConstProp.Design.LpmMux | DIFCVerilog/cprop.cc:791-853 | counts one exactly when the mux was replaced, and else leaves the netlist as it is because no replacement is possible |
| ConstProp.Design.Functor | DIFCVerilog/functor.cc:123-162 | a pass that counts something lowers the number of muxes, one that counts nothing proves there is nothing to do |
| ConstProp.Design.Cprop | DIFCVerilog/cprop.cc:959-967 | the passes end at a fixpoint, everything remembered equals a fresh scan, and the allowed valuations are those of the start, if the constants on each select agree and no pull or supply is on it |
| Selects.DenotesExact | DIFCVerilog/netlist.cc:780-786 | one low canonical index and one width stand for exactly the declared bits that a select names |
| Selects.ParamPartSelectBits | DIFCVerilog/elab_expr.cc:2301-2326 | the bits collected: x outside of a sized value, the extension above the top of an unsized one |
| Selects.ParamPart | DIFCVerilog/elab_expr.cc:2328-2414 | a part select gives exactly the named bits, and is refused exactly when it runs against its range |
| Selects.ParamIdxUp | DIFCVerilog/elab_expr.cc:2452-2517 | `[b +: w]` gives exactly the named bits for either direction of the range |
| Selects.ParamIdxDo | DIFCVerilog/elab_expr.cc:2531-2597 | so does `[b -: w]` |
| Selects.ParamBit | DIFCVerilog/elab_expr.cc:2682-2755 | a bit select equals the part select of that bit |
| Selects.SelectsAgree | DIFCVerilog/elab_expr.cc:2301-2609 | an indexed select equals the plain part select of the same bits in declared order, and each named bit is the parameter's bit at its canonical index |
| Selects.SelectedBits | DIFCVerilog/elab_expr.cc:2301-2326 | a select gives the bits of the declared range, x outside of it if the parameter is sized, and else x below and the extension above |
| Selects.UnsizedExtends | DIFCVerilog/verinum.h:115-121 | any select of all of an unsized parameter and more, whatever its range, extends its value and keeps the number it stands for, in two's complement if it is signed |
| Selects.LvalNetBit | DIFCVerilog/elab_lval.cc:364-380 | reaches exactly the bit named, refused exactly when out of range |
| Selects.LvalNetPart | DIFCVerilog/elab_lval.cc:404-435 | reaches exactly the bits named, refused exactly when reversed |
| Selects.LvalNetIdx | DIFCVerilog/elab_lval.cc:478-510 | reaches exactly the bits named if and only if the bounds of the vector differ, or the select goes up, or is one bit wide; with equal bounds it reaches those of the select that goes up |
| Selects.DownSelectMisplaced | DIFCVerilog/elab_lval.cc:478-510 | `[1 -: 2]` of a vector `[0:0]` reaches the bits 2 and 1 |
| Selects.EvalPartSelect | DIFCVerilog/elab_net.cc:222-420 | the bounds are exactly those of the bits named, and a select is skipped exactly when none of them is in the vector |
| Selects.LnetSelect | DIFCVerilog/elab_net.cc:556-569 | an l-value net gives exactly the bits named, and is refused with an error if it starts below the vector; a bit is refused or counted exactly when it is out of range |
| Selects.PortSelect | DIFCVerilog/elab_net.cc:710-753 | a port expression gives a slice of exactly the bits named, which is within the port if and only if all of them are; one below the range becomes a slice there |
| Selects.BelowUnnoticed | DIFCVerilog/elab_net.cc:710-753 | bit -1 of a port `[3:0]` becomes a slice at the canonical index -1 without an error |
| Slicing.ElaborateLnetConcat | DIFCVerilog/elab_net.cc:39-158 | the operands of an l-value concatenation get their slices from the most significant down; errors are counted operand by operand |
| Slicing.SlicesApart | DIFCVerilog/elab_net.cc:113-153 | the slices are disjoint and as wide as their operands |
| Slicing.SlicesTile | DIFCVerilog/elab_net.cc:113-153 | a bit is in some slice if and only if it is in the vector |
| Slicing.JoinCut | DIFCVerilog/elab_net.cc:113-153 | cutting a vector and joining the parts gives it back |
| Slicing.CutJoin | DIFCVerilog/elab_net.cc:113-153 | joining parts and cutting gives them back |
| Slicing.CollectSubPorts | DIFCVerilog/elaborate.cc:1226-1247 | the sub-ports are listed from the last instance down, each in the order of the port, with their total width |
| Slicing.SlicePorts | DIFCVerilog/elaborate.cc:1649-1681 | counting up from the last sub-port gives the slices of a concatenation |
| Slicing.ConcatPorts | DIFCVerilog/elaborate.cc:1635-1643 | an output concatenation takes the sub-ports from the last on |
| Slicing.PortsRoundTrip | DIFCVerilog/elaborate.cc:1634-1681 | inputs and outputs give every sub-port the same bits, in both directions |
| Slicing.InstanceBits | DIFCVerilog/elaborate.cc:1229-1247 | instance i of an array has the i-th stretch of the vector from the low end |
| Slicing.ConnectPorts | DIFCVerilog/elaborate.cc:1499-1681 | a signal is given whole to the only sub-port, or to every instance if it is as wide as one of them and the port is no concatenation, and else cut; its slices stay within it exactly when it is as wide as all sub-ports; it is a mismatch exactly when it is as wide neither as the array nor as one instance |
| Slicing.SlicedTooWide | DIFCVerilog/elaborate.cc:1499-1634 | two instances, a port of two scalars and a signal of two bits: slices beyond the signal |
| Slicing.SlicesFit | DIFCVerilog/elaborate.cc:1649-1664 | slices stay within a signal exactly when it is as wide as all sub-ports together |
| GateArray.CountsFit | DIFCVerilog/elaborate.cc:291-320 | gates, pins and port expressions add up for every kind of gate |
| GateArray.Wiring.ConnectPort | DIFCVerilog/elaborate.cc:782-911 | one port expression is connected to exactly the pins that belong to it, or counted as an error |
| GateArray.Wiring.CreateGates | DIFCVerilog/elaborate.cc:696-737 | gates are made and named by array index and gate number, unless the kind does not take so many pins |
| GateArray.Wiring.Elaborate | DIFCVerilog/elaborate.cc:612-914 | exactly the acceptable gate statements elaborate without error, and then each pin of each gate is connected once, to the bit its array position names, and all names differ |
| GateArray.AcceptableExact | DIFCVerilog/elaborate.cc:628-911 | a gate statement is acceptable exactly if its pins fit its kind, its outputs are alike, and every port is one bit or as wide as the array, for a switch wide only if the outputs are |
| GateArray.RowsExact | DIFCVerilog/elaborate.cc:662-675 | one row of gates as wide as the array is made if the outputs are as wide, else one gate for every number in the range |
| GateArray.NamedGetsBit | DIFCVerilog/elaborate.cc:696-911 | the gate named v gets, of a signal as wide as the array, the bit that a vector of the same range numbers v |
| Widths.TestWidth | DIFCVerilog/elab_expr.cc:152-236 | testing an operand again when the other one turns out unsized is enough: every part ends up tested as what the whole is |
| Widths.UnsizedLossless | DIFCVerilog/elab_expr.cc:185-194 | the exact value of an unsized sum is below 2 to its width |
| Widths.SizedOverflows | DIFCVerilog/elab_expr.cc:185-194 | a sized sum of nets can overflow |
| Widths.WidthsCover | DIFCVerilog/elab_expr.cc:2077-2113 | no sum is narrower than its operands, and only a parameter alone may be narrower than asked for |
| Widths.SumWidth | DIFCVerilog/elab_expr.cc:152-236 | a sized sum is as wide as its widest part or as asked for; an unsized one at most one bit more for every level of sums, and exactly that if the width asked for is the greatest |
| Widths.NarrowParameter | DIFCVerilog/elab_expr.cc:2077-2113 | a four-bit parameter asked for at eight bits stays at four, unless it is in a sum |
| StringLayout.SpotsDisjoint | DIFCVerilog/StringHeap.cc:43-70 | all stored strings are disjoint |
| StringLayout.SpotStable | DIFCVerilog/StringHeap.cc:43-70 | later additions do not move a string |
| StringLayout.SpaceBound | DIFCVerilog/StringHeap.cc:43-70 | a cell's size times half the number of cells is at most the bytes stored |
| StringLayout.HashStepBits | DIFCVerilog/StringHeap.cc:117-126 | a round of the hash, bit by bit: the bits move up by four, the top four come in below, and the character flips them, its bit 7 repeated above it |
| StringLayout.InternStep | DIFCVerilog/StringHeap.cc:128-148 | an addition returns the text asked for, keeps the earlier ones and counts itself once |
| StringLayout.InternRun | DIFCVerilog/StringHeap.cc:128-148 | after any run every string returned is the one asked for, hits and adds count the calls, and no more is stored than without the table |
| StringLayout.HitExact | DIFCVerilog/StringHeap.cc:128-148 | after any run an addition hits, and stores nothing, exactly if its text was added and since then no other text of its bucket |
| StringHeap.HashString | DIFCVerilog/StringHeap.cc:117-126 | the hash loop |
| StringHeap.StringHeap.Add | DIFCVerilog/StringHeap.cc:43-70 | a text gets a permanent place: all pointers ever returned still read as their texts, in cells that are kept |
| StringHeap.StringHeapLex.Add | DIFCVerilog/StringHeap.cc:128-148 | the pointer returned reads as the text, the table points to stored strings that hash to their slots, and the state is the one the pure interning heap has |

## Left out

- Fork-join blocks, `@*`, tasks, functions, disable, force and release: statements of these kinds are not lowered here.
- The lowering of non-blocking assignments: they appear only in the flow analyses.
- Design.Design.ElaborateAssign: does not model how operands are extended for the width of the l-value, which is a parameter, nor unsized x constants, which are extended with x.
- Design.Design.ElaborateFor: does not model a failed initial expression, which the code dereferences, or a failed step, which it stores; the model ends the statement there.
- Design.Design.ElaborateEvents: does not model `@*` and the refusal of edges on named events.
- Reals, drive strengths and the scaling of delays: the ticks of a delay are a parameter.
- Netlist statements are values: sharing of nodes and deletion of discarded ones are not modelled.
- A `while` or a delay whose expression failed is built around a null expression by the code; the model drops it. Such statements have counted an error.
- An error that callers report again is counted once.
- Design.Design.ElaborateStatement: does not model hierarchical names, which are reduced to their last component.
- Expressions stand for their printed texts, by which hypotheses and l-values are compared.
- PredicateState.Predicate.Insert: does not say where among the others a new hypothesis falls, because that depends on its address.
- PredicateState.Predicate.Typecheck: does not model the labels, alive variables and constraints that the same walk produces.
- AbsInterp.RecordingExact: does not say which right-hand sides with condition operators fail; a name in `x ? a : a` or `x && !x` does not matter, so no condition on names is exact there. With declared names only none fails.
- Invalidation.NotExact: does not say which hypotheses that mix negations with comparisons or disjunctions fail; there a name can occur without mattering.
- The event, real and time expressions `PEEvent`, `PEFNumber` and the like in collection and labels.
- Other statements in the must-modify analysis are known only by the names their paths assign.
- Name clashes that only count an error, attributes, tasks and functions of a scope, and the evaluation of parameters; `load_module` is taken to have loaded what it can.
- A genvar test that stops being constant after the first turn aborts the program; the model counts an error and ends the loop.
- The merging of two nexuses that both have links, and changes of a link's direction after it was linked.
- ConstProp.Design.Cprop: does not model the removal of dangling constants at the end, nor the folding of other devices, which is disabled.
- A nexus that lost all its links is kept without effect instead of being deleted.
- Selects.ParamPartSelectBits: does not model string parameters, whose bits above the top are 0.
- Selects.ParamIdxUp: does not model a base that is not constant, which makes a select at run time.
- Selects.ParamIdxDo: does not model a base that is not constant either.
- Indices and widths beyond the range of machine words.
- Slicing.CollectSubPorts: does not model sub-ports that fail to elaborate.
- Slicing.ConnectPorts: does not model the padding and pruning of the signal at a single instance, which is done before, nor conversions between reals and vectors.
- Gates are addressed by array position and gate number instead of by one index that combines them.
- An assertion of the gate elaboration that fails counts as an error, and instance indices do not wrap at 32 bits.
- Widths.TestWidth: does not model products and other operators, signed operands, and literals tested against an l-value width.
- Freeing unused cell space (`cleanup`), and running out of memory.
