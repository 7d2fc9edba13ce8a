# Verified models of a set of C89 libraries

This project models, in Dafny, the core algorithms of six libraries and proves what each
of them is for. The models follow the C code branch by branch: loops that update arrays
are methods on arrays, objects whose fields change are classes, and pure workers are
functions. Every method is proved against a specification that does not mention its body,
and the specifications themselves are tied together by lemmas (round trips, uniqueness,
existence, if-and-only-if characterisations).

| library | what is proved |
|---|---|
| libbwt89 | SA-IS yields the suffix array; the Burrows-Wheeler transform and its inverse round-trip in both directions, with the exact set of accepted inputs, the transform being characterised on the bytes themselves; the bijective transform is a bijection on byte strings and both directions round-trip, in place |
| libdl89 | semi-naive evaluation terminates and computes exactly the least model of the rules as they were written, through rule checking, compilation, joins with backtracking and delta rounds; it fails exactly when a call of the caller's store fails, and then leaves only derivable facts |
| libadt89 | what match usefulness answers on every matrix it can read, for arbitrary (also recursive) families, and exactly when that is the right answer; it answers on every such matrix if and only if no family can be unfolded forever; exhaustiveness and redundancy follow |
| libcat89 | the table validator accepts exactly the categories; the finders find a product, equalizer or pullback (or dual) exactly when one exists; products, equalizers and pullbacks are unique up to isomorphism |
| libbpf | the loader accepts exactly the well-formed programs, refuses the others with the code of the first check that fails, loses no byte and resolves every branch to the instruction its offset or immediate names; guest memory is a permission-checked byte map; what each kind of instruction does; run invariants, balanced calls, budget, and exactly when a trap is terminal |
| libcksum89 | INET16 is the one's-complement complement of the word sum for every way of chunking the data, padding is neutral, and appended checksums verify |

## Files

- libbwt89: `LexOrder`, `SuffixTypes`, `InducedSort`, `Seeding`, `StageOrders`, `LmsNaming`, `SaIs`
  (suffix sorting); `LfMapping`, `BwtTheory`, `Bwt` (regular transform); `Lyndon`, `Duval`,
  `PeriodicWords`, `Conjugates`, `ConjugateSort`, `BijectiveTheory`, `Bijection`, `BijectiveBwt`
  (bijective transform).
- libdl89: `Datalog` (meaning), `DeltaTables`, `Unify`, `Join`, `Fixpoint`, `Rules`, `Evaluators`.
- libadt89: `Patterns`, `Erasure`, `Usefulness`, `MatchTermination`, `MatchAnalysis`.
- libcat89: `FiniteCategory`, `UniversalTheory`, `FindLimits`, `FindColimits`.
- libbpf: `BpfMemory`, `BpfGuest`, `BpfDecode`, `BpfProgram`, `BpfMachine`, `BpfSteps`, `BpfVm`.
- libcksum89: `Inet16`.
- `Common`: what several of them share.

`dafny verify dfyconfig.toml` checks everything.

## Where the code and its documentation part ways

The models follow the code. Seven places are worth knowing:

- The usefulness recursion need not end on recursive families, although the library supports recursive
  datatypes. `MatchTermination.EndsIffNoTrap` is the exact condition for the recursion over all matrices:
  no set of families can be unfolded forever. For `adt_match_exhaustive`, which starts from one column,
  the condition is sufficient over the families as they are (lists alone, with Nil declared first, are
  recursive and yet unproblematic) and exact once a type of pairs may be declared beside them:
  `MatchTermination.MatchesEndIffNoTrap`. `MatchTermination.RecursiveFamilyDiverges` is such a match: pairs
  of lists, Pair(_, Nil) and Pair(_, Cons(_, _)).
- Constructor patterns in a field whose declared type is a type parameter are read as wildcards when the
  query is a wildcard there (libadt89/src/adt_match.c:369-381). `Usefulness.ExactErased` says what is
  answered then, `Usefulness.RightIff` exactly when that is right, and `Usefulness.RightIffConfirmed` how a
  caller can tell: by asking once more without the clauses that have such patterns. The answer "useful" (not
  exhaustive, not redundant) is always right. `MatchTermination.TypeParameterColumn` is a match reported
  exhaustive that is not.
- `adt_match_redundant` writes one flag even when there are no clauses (libadt89/src/adt_match.c:677-685),
  so `MatchAnalysis.MatchRedundant` asks for room for one and says what is written.
- libbpf/src/vm.h:38-39 says that a machine that has returned or trapped stays terminal. For returning this
  holds (`BpfMachine.ReturnedForever`). Most traps are returned without being stored (for example
  libbpf/src/vm.c:424-427): `BpfMachine.TrappedForeverIff` says that every later step, whatever the host does
  in between, traps exactly when the machine was already trapped or had run off the program before the step;
  `BpfMachine.TrapRunsOut` says that any other trap, left alone, repeats for exactly the remaining budget and
  then turns into exhaustion. `BpfMachine.TrapForgotten` is the smallest such run.
- JMP32 instructions with the call or exit code are accepted by the loader and executed as calls and
  exits, a call with the target of its offset field (libbpf/src/program.c:331-341, libbpf/src/vm.c:483-598).
  Even an exit of that class needs a branch target: alone it is refused (`BpfMachine.Exit32AloneRefused`),
  followed by another instruction it is accepted and ends the program (`BpfMachine.Exit32Returns`).
- libbpf/src/program.h:7-9 says that unknown and reserved operations and forms are rejected. For memory
  instructions `BpfProgram.UndefinedAccepted` lists exactly the forms outside section 5 of RFC 9669 that are
  accepted all the same; `BpfMachine.UndefinedModeAccepted` is one in a whole program. In the load class they
  run as loads of their immediate (`BpfSteps.NarrowStep`).
- The conformance fold takes every arithmetic or jump instruction of code 13 with immediate 64 for a 64-bit byte
  swap (libbpf/src/validate.c:311-317), so a 32-bit conditional jump with that immediate needs the 64-bit
  group: `BpfProgram.GroupsNeeded`.

## Model

| member | source | states |
|---|---|---|
| `SuffixTypes.ClassifyTypes` | libbwt89/src/bwt89_sa.c:58-149 | every position has the type its symbol, its neighbour's and its neighbour's type determine |
| `SuffixTypes.TypeMeaning` | libbwt89/src/bwt89_sa.c:58-69 | the suffix of an S position is smaller than the next one, of an L position larger |
| `SuffixTypes.LBeforeS` | libbwt89/src/bwt89_sa.c:58-69 | among suffixes with one first symbol the L ones are smaller than the S ones |
| `Seeding.CountSymbols` | libbwt89/src/bwt89_sa.c:169-176 | cnt gives the bucket sizes |
| `Seeding.MakeHeads` | libbwt89/src/bwt89_sa.c:178-186 | each cursor stands at its bucket's first slot |
| `Seeding.MakeTails` | libbwt89/src/bwt89_sa.c:188-196 | each cursor stands one past its bucket's last slot |
| `Seeding.SeedingFinished` | libbwt89/src/bwt89_sa.c:239-246 | seeds placed from bucket tails, in any order compatible with the stage, are a valid start of the L pass |
| `InducedSort.InduceL` | libbwt89/src/bwt89_sa.c:248-263 | from ordered seeds the left-to-right pass puts every L position into its slot and keeps the seeds in theirs |
| `InducedSort.InduceS` | libbwt89/src/bwt89_sa.c:265-280 | the right-to-left pass overwrites every stale S slot before reading it and fills all slots in order |
| `InducedSort.SecondPassReads` | libbwt89/src/bwt89_sa.c:265-280 | a slot is final when the right-to-left pass reads it |
| `InducedSort.PlaceHead` | libbwt89/src/bwt89_sa.c:198-204 | writes at the head cursor and advances it, nothing else changes |
| `InducedSort.PlaceTail` | libbwt89/src/bwt89_sa.c:206-212 | writes at the tail cursor and retreats it, nothing else changes |
| `StageOrders.SuffixOrders` | libbwt89/src/bwt89_sa.c:427-448 | true suffix order satisfies the laws both passes need |
| `StageOrders.SubstringOrders` | libbwt89/src/bwt89_sa.c:370-385 | the first stage's order, LMS substrings with ties by position, satisfies them too |
| `LmsNaming.FindNextLms` | libbwt89/src/bwt89_sa.c:94-105 | the next LMS position, or the end |
| `LmsNaming.LmsEqual` | libbwt89/src/bwt89_sa.c:108-127 | true exactly when the two LMS substrings without their final symbol are equal |
| `LmsNaming.NameOrder` | libbwt89/src/bwt89_sa.c:130-137 | names compared without the final symbol still order the suffixes whose names differ |
| `SaIs.CollectLms` | libbwt89/src/bwt89_sa.c:214-218 | lists exactly the LMS positions, in text order |
| `SaIs.AppendSorted` | libbwt89/src/bwt89_sa.c:228-237 | lists exactly the LMS positions, in sorted order |
| `SaIs.NameLms` | libbwt89/src/bwt89_sa.c:282-295 | equal neighbours share a name, different ones get the next |
| `SaIs.BuildReduced` | libbwt89/src/bwt89_sa.c:297-303 | the reduced string lists the names in text order |
| `SaIs.ReducedOrder` | libbwt89/src/bwt89_sa.c:392-421 | suffixes of the reduced string are ordered as the LMS suffixes of the text |
| `SaIs.ReducedShorter` | libbwt89/src/bwt89_sa.c:402-421 | the reduced string is at most half as long, so the recursion ends |
| `SaIs.BuildInverse` | libbwt89/src/bwt89_sa.c:305-312 | sa1 is the inverse permutation of distinct names |
| `SaIs.SeedInRankOrder` | libbwt89/src/bwt89_sa.c:314-320 | seeding in the order of the reduced suffix array is a valid start of the L pass |
| `SaIs.SeedInTextOrder` | libbwt89/src/bwt89_sa.c:239-246 | seeding in text order is a valid start of the L pass for the substring order |
| `SaIs.SaIsCore` | libbwt89/src/bwt89_sa.c:324-451 | for every text ending in a unique least symbol, sa is a permutation with strictly increasing suffixes |
| `LfMapping.LfUnique` | libbwt89/src/bwt89_bwt.c:210-216 | the LF mapping is the only permutation that sorts rows stably by symbol |
| `LfMapping.LfCounts` | libbwt89/src/bwt89_bwt.c:210-216 | less plus occ computes it |
| `LfMapping.SingleCycleIff` | libbwt89/src/bwt89_bwt.c:234-244 | never returning before n steps is the same as being one cycle |
| `BwtTheory.RankKeepsOrder` | libbwt89/src/bwt89_bwt.c:26-29 | bytes become positive symbols in the same order |
| `BwtTheory.TransformOfBytes` | libbwt89/src/bwt89_bwt.c:72-168 | a transform lists the suffixes of the bytes in ascending order, the empty one first, and shows the byte before each; the index is the row of the whole text |
| `BwtTheory.LfStepsBack` | libbwt89/src/bwt89_bwt.c:72-168 | LF takes the row of suffix i to the row of suffix i - 1 |
| `BwtTheory.WalkSpells` | libbwt89/src/bwt89_bwt.c:218-230 | walking a transform from its index spells the text backwards |
| `BwtTheory.TransformUnique` | libbwt89/src/bwt89_bwt.c:110-168 | a text has one transform and one index |
| `BwtTheory.TransformInjective` | libbwt89/src/bwt89_bwt.c:246-330 | a transform and index come from one text |
| `BwtTheory.TransformIsCycle` | libbwt89/src/bwt89_bwt.c:210-244 | the LF mapping of a transform is a single cycle |
| `BwtTheory.SpelledIsTransform` | libbwt89/src/bwt89_bwt.c:246-330 | if the LF mapping is a single cycle, what the walk spells transforms back to the same bytes and index |
| `Bwt.Transform` | libbwt89/src/bwt89_bwt.c:110-168 | writes the transform and row index of the input, also in place |
| `Bwt.MapRows` | libbwt89/src/bwt89_bwt.c:210-216 | computes the LF mapping |
| `Bwt.Peek` | libbwt89/src/bwt89_bwt.c:234-244 | decides whether the walk avoids the sentinel for n steps |
| `Bwt.Walk` | libbwt89/src/bwt89_bwt.c:218-230 | writes the spelled text |
| `Bwt.AcceptedIff` | libbwt89/src/bwt89_bwt.c:301-330 | accepted pairs are exactly those that are a transform of something |
| `Bwt.Invert` | libbwt89/src/bwt89_bwt.c:246-330 | OK exactly on single cycles, then the output's transform is the input; BAD_DATA leaves out unchanged |
| `Bwt.RoundTrip` | libbwt89/src/bwt89_bwt.c:72-330 | inverting a transform gives the text back, in place |
| `Lyndon.DuvalStep` | libbwt89/src/bwt89_bwts.c:92-116 | a broken period with a larger symbol is again a Lyndon word |
| `Lyndon.LyndonUnique` | libbwt89/src/bwt89_bwts.c:127-182 | a string has one non-increasing factorization into Lyndon words |
| `Lyndon.LyndonExists` | libbwt89/src/bwt89_bwts.c:127-182 | and it has one |
| `Duval.ScanWord` | libbwt89/src/bwt89_bwts.c:92-116 | the scan ends behind repetitions of one Lyndon word and a proper prefix of it |
| `Duval.FactorWord` | libbwt89/src/bwt89_bwts.c:127-149 | records the repetitions as the next factors |
| `Duval.Factorize` | libbwt89/src/bwt89_bwts.c:163-182 | the starts are the Lyndon factorization, and ws and ln give each position its own factor |
| `PeriodicWords.FineWilf` | libbwt89/src/bwt89_bwts.c:70-86 | two periodic words that agree for the sum of their periods agree forever |
| `PeriodicWords.LyndonOrder` | libbwt89/src/bwt89_bwts.c:188-292 | Lyndon words compare as the infinite words they generate |
| `PeriodicWords.SameRotation` | libbwt89/src/bwt89_bwts.c:300-376 | equal infinite words of Lyndon rotations sit at equal offsets of equal words |
| `ConjugateSort.ConjCmp` | libbwt89/src/bwt89_bwts.c:70-86 | its sign is the order of the two infinite periodic words |
| `ConjugateSort.MergeRun` | libbwt89/src/bwt89_bwts.c:255-277 | two sorted runs become one sorted run with the same elements |
| `ConjugateSort.SortRun` | libbwt89/src/bwt89_bwts.c:280-292 | ord stays a permutation and is sorted, ties by position |
| `ConjugateSort.SortedIsInverse` | libbwt89/src/bwt89_bwts.c:294-298 | the sorted order is the inverse of the rank, so it is unique |
| `Conjugates.PrevOrder` | libbwt89/src/bwt89_bwts.c:300-308 | stepping back within the factor sorts by symbol and then keeps the order |
| `Conjugates.StartLeast` | libbwt89/src/bwt89_bwts.c:363-376 | a factor's start is its least row |
| `BijectiveTheory.LfFollowsWords` | libbwt89/src/bwt89_bwts.c:312-348 | the LF mapping of the transform steps back around each factor |
| `BijectiveTheory.NextWord` | libbwt89/src/bwt89_bwts.c:363-376 | the smallest unvisited row starts the next factor to write, also when factors repeat |
| `Bijection.TransformExists` | libbwt89/src/bwt89_bwts.c:394-454 | every text has a bijective transform |
| `Bijection.BijectiveUnique` | libbwt89/src/bwt89_bwts.c:394-454 | only one |
| `Bijection.BijectiveInjective` | libbwt89/src/bwt89_bwts.c:456-518 | no two texts share it |
| `Bijection.TextExists` | libbwt89/src/bwt89_bwts.c:456-518 | every byte string is one |
| `BijectiveBwt.Transform` | libbwt89/src/bwt89_bwts.c:394-454 | writes the bijective transform, also in place |
| `BijectiveBwt.BuildRank` | libbwt89/src/bwt89_bwts.c:312-322 | rank is the LF mapping |
| `BijectiveBwt.RunCycle` | libbwt89/src/bwt89_bwts.c:325-361 | writes one factor back to front and marks exactly its rows |
| `BijectiveBwt.RunCycles` | libbwt89/src/bwt89_bwts.c:363-376 | writes the whole text |
| `BijectiveBwt.Invert` | libbwt89/src/bwt89_bwts.c:456-518 | writes the text of which the input is the bijective transform; never fails on data |
| `BijectiveBwt.RoundTrip` | libbwt89/src/bwt89_bwts.c:300-376 | inverse after transform is the identity |
| `BijectiveBwt.RoundTripBack` | libbwt89/src/bwt89_bwts.c:300-376 | transform after inverse is the identity |
| `Datalog.LeastModelUnique` | libdl89/README:5-8 | there is one least model |
| `Datalog.LeastModelIsDerivable` | libdl89/README:5-8 | it holds exactly the facts that have a derivation |
| `Datalog.ActiveClosed` | libdl89/src/dl89_fixpoint.c:303-333 | derivations stay inside a finite active domain |
| `DeltaTables.DeltaTable.Find` | libdl89/src/dl89_fixpoint.c:73-89 | the recorded tuples of a signature, or none exist |
| `DeltaTables.DeltaTable.Record` | libdl89/src/dl89_fixpoint.c:142-229 | adds exactly one fact and counts it |
| `DeltaTables.DeltaTable.Clear` | libdl89/src/dl89_fixpoint.c:50-59 | empties the table and its count |
| `Unify.NarrowedBind` | libdl89/src/dl89_join.c:111-138 | binding a variable keeps exactly the extensions that agree with the tuple |
| `Unify.NarrowedClash` | libdl89/src/dl89_join.c:111-138 | a clash excludes every extension |
| `Join.CompiledRule.BuildBindings` | libdl89/src/dl89_join.c:52-80 | the scan pattern is matched by every instance of the atom that extends the environment |
| `Join.CompiledRule.UnifyPosition` | libdl89/src/dl89_join.c:111-138 | known terms are compared and nothing changes, a free variable is bound and logged |
| `Join.CompiledRule.UnifyTuple` | libdl89/src/dl89_join.c:111-163 | success leaves exactly the matching extensions, failure means there are none; the log lists the new bindings |
| `Join.CompiledRule.Unbind` | libdl89/src/dl89_join.c:89-97 | the bound flags are exactly as before the unification |
| `Join.EmitHead` | libdl89/src/dl89_join.c:167-196 | inserts the instance's head, records it once if new |
| `Join.TryTuple` | libdl89/src/dl89_join.c:219-307 | everything that takes the atom from this tuple is covered; bound flags restored, also on errors |
| `Join.ScanOne` | libdl89/src/dl89_join.c:219-253 | one scanned tuple is covered, or the scan is complete |
| `Join.ScanAtom` | libdl89/src/dl89_join.c:255-282 | every extension over the store at the call is covered; the loop ends although the store grows meanwhile; the scan is closed on every path |
| `Join.DeltaAtom` | libdl89/src/dl89_join.c:309-326 | every extension with this atom in the delta is covered |
| `Join.EvalBody` | libdl89/src/dl89_join.c:330-353 | the rest of the body is covered, new facts are heads of instances over the final store |
| `Join.JoinRule` | libdl89/src/dl89_join.c:354-362 | every instance over the store at the call, with the delta at its position, has its head in the store; only heads are added; all flags clear; an error is returned exactly when a store call failed, the last one made |
| `Fixpoint.RunVariant` | libdl89/src/dl89_fixpoint.c:231-250 | the variant is done, also when it is skipped, unless a store call failed |
| `Fixpoint.RoundSettles` | libdl89/src/dl89_fixpoint.c:261-280 | all variants together settle every instance over the round's starting store |
| `Fixpoint.RunRound` | libdl89/src/dl89_fixpoint.c:261-280 | after a round instances over the old store have their heads, and next holds exactly the new facts |
| `Fixpoint.FixpointStep` | libdl89/src/dl89_fixpoint.c:288-301 | keeps the semi-naive invariant across clear and swap; the total counts the delta |
| `Fixpoint.FirstPass` | libdl89/src/dl89_fixpoint.c:303-320 | establishes the semi-naive invariant |
| `Fixpoint.RoundProgress` | libdl89/src/dl89_fixpoint.c:321-329 | a round that adds something leaves less of the active domain |
| `Fixpoint.FixpointRun` | libdl89/src/dl89_fixpoint.c:303-333 | terminates; the store ends as the least model, or, exactly when one store call failed, below it |
| `Rules.RuleCheck` | libdl89/src/dl89_rule.c:242-279 | accepts exactly the rules with consistent arities and safe heads |
| `Rules.CompileAtom` | libdl89/src/dl89_rule.c:407-450 | equal variables share a slot, different ones do not |
| `Rules.CompileRule` | libdl89/src/dl89_rule.c:551-586 | the compiled rule means the source rule |
| `Rules.CompiledOk` | libdl89/src/dl89_rule.c:222-239 | a safe rule compiles to one the join can run |
| `Rules.CompilePreservesMeaning` | libdl89/src/dl89_rule.c:551-586 | source and compiled rules have the same least models |
| `Evaluators.Evaluator.AddRule` | libdl89/src/dl89_rule.c:690-720 | installs exactly the accepted rules and registers their atoms' arities and no others, otherwise nothing changes |
| `Evaluators.Evaluator.AddFact` | libdl89/src/dl89_eval.c:196-249 | inserts the fact and registers its arity and no other, or, exactly when the store failed, undoes the registration |
| `Evaluators.Evaluator.Run` | libdl89/src/dl89_eval.c:251-267 | the store ends as the least model of the rules as written, unless exactly one store call failed, the last; arities stay as registered and no scan is left open |
| `Patterns.SpecRowsMatch` | libadt89/src/adt_match.c:214-300 | some row matches a constructor value exactly when some specialized row matches its fields |
| `Patterns.DropRowsMatch` | libadt89/src/adt_match.c:354-381 | a column of wildcards can be dropped |
| `Erasure.UsefulForMeans` | libadt89/src/adt_match.c:501-536 | for queries typed in every column with a family, the question is about the values of the columns |
| `Erasure.UsefulIfErased` | libadt89/src/adt_match.c:369-381 | what the rows leave out when read with wildcards, they leave out |
| `Erasure.UsefulWithoutErased` | libadt89/src/adt_match.c:369-381 | rows with a constructor pattern read as a wildcard play no part in the true answer |
| `Usefulness.UsefulUnderSome` | libadt89/src/adt_match.c:439-499 | a query is useful exactly when it is under some constructor: its own, or one of the column's family |
| `Usefulness.EraseSpecRows` | libadt89/src/adt_match.c:278-300 | specializing commutes with reading family-less columns as wildcards |
| `Usefulness.ExactErased` | libadt89/src/adt_match.c:501-536 | on every matrix the recursion can read, whatever the typing and the families, an answer is exact for the rows as they are read |
| `Usefulness.RightIff` | libadt89/src/adt_match.c:369-381 | the answer is right exactly when dropping the rows with a constructor pattern in a family-less column and blanking those patterns give the same answer |
| `Usefulness.RightIffConfirmed` | libadt89/src/adt_match.c:369-381 | which is exactly when asking again without those rows gives the same answer |
| `Usefulness.UsefulIsRight` | libadt89/src/adt_match.c:501-536 | the answer 1 is always right |
| `Usefulness.Exact` | libadt89/src/adt_match.c:501-536 | on well-typed matrices 1 means that some value vector matches the query and no row |
| `MatchTermination.FindWeights` | libadt89/src/adt_match.c:485-497 | families that cannot be unfolded forever have a weight measure |
| `MatchTermination.Ends` | libadt89/src/adt_match.c:501-536 | the weight of the reachable part of the query bounds the recursion depth, on every matrix that can be read |
| `MatchTermination.NoTrapDecides` | libadt89/src/adt_match.c:501-536 | one depth decides every matrix beside the same query |
| `MatchTermination.EndsIffNoTrap` | libadt89/src/adt_match.c:477-536 | the recursion ends on every matrix it can read, and on every well-typed one, if and only if no set of families can be unfolded forever |
| `MatchTermination.MatchesEndIffNoTrap` | libadt89/src/adt_match.c:554-646 | with pairs of one family declared beside them, the exhaustiveness question ends for every type and clause list if and only if no set of families can be unfolded forever |
| `MatchTermination.PairDiverges` | libadt89/src/adt_match.c:485-497 | otherwise the exhaustive match of a pair on its second component never ends |
| `MatchTermination.RankedHasNoTrap` | libadt89/src/adt_match.c:485-497 | acyclic families are among them |
| `MatchTermination.RecursiveFamilyDiverges` | libadt89/src/adt_match.c:485-497 | an exhaustive match over lists on which it never ends |
| `MatchTermination.TypeParameterColumn` | libadt89/src/adt_match.c:369-381 | a match reported exhaustive although a value is unmatched |
| `MatchAnalysis.Specialize` | libadt89/src/adt_match.c:278-300 | the specialized matrix, the old one unchanged |
| `MatchAnalysis.DropColumn` | libadt89/src/adt_match.c:354-367 | every row loses its first column, in place |
| `MatchAnalysis.CtorCovered` | libadt89/src/adt_match.c:462-475 | true exactly when some row is all wildcards |
| `MatchAnalysis.Useful` | libadt89/src/adt_match.c:501-536 | runs the recursion although it shrinks rows in place |
| `MatchAnalysis.MatchExhaustive` | libadt89/src/adt_match.c:554-646 | for all clauses: what is answered, that non-exhaustive is always right, exactly when exhaustive is, and always for well-typed clauses; foreign patterns are refused |
| `MatchAnalysis.TypedClauses` | libadt89/src/adt_match.c:554-646 | well-typed clauses are read as they are |
| `MatchAnalysis.MatchRedundant` | libadt89/src/adt_match.c:717-764 | for all clauses, also of mixed families: each flag answers for the earlier clauses as they are read, not redundant is always right, and exactly when redundant is; with no clauses the first flag is cleared |
| `FiniteCategory.CompLookup` | libcat89/src/finite.c:358-370 | counts one row exactly when the composite is given once, and then finds it |
| `FiniteCategory.StoreComp` | libcat89/src/finite.c:766-782 | the composite, or nothing when no row gives it |
| `FiniteCategory.AssocPair` | libcat89/src/finite.c:469-527 | every composable triple over the pair associates |
| `FiniteCategory.TableValid` | libcat89/src/finite.c:550-581 | true exactly when the table is a category |
| `FiniteCategory.Builder.AddMorphism` | libcat89/src/finite.c:110-144 | appends the arrow, or refuses objects out of range |
| `FiniteCategory.Builder.SetComposition` | libcat89/src/finite.c:169-198 | appends the row, or refuses morphisms out of range |
| `FiniteCategory.Builder.Build` | libcat89/src/finite.c:1262-1351 | hands out a table exactly when it is a category |
| `FiniteCategory.OppositeIsCategory` | libcat89/src/finite.c:550-581 | the opposite table of a category is a category |
| `UniversalTheory.CountDecides` | libcat89/src/findlim.c:3-11 | equal cardinality plus surjectivity is bijectivity |
| `UniversalTheory.PairsCount` | libcat89/src/findlim.c:760-828 | there are as many cones over a pair as the product of the hom counts |
| `UniversalTheory.LegsCommute` | libcat89/src/findlim.c:3995-4027 | associativity makes every arrow into the apex induce a commuting cone |
| `UniversalTheory.ProductsIsomorphic` | libcat89/src/findlim.c:3-11 | two products are isomorphic by arrows that respect the legs |
| `UniversalTheory.PullbacksIsomorphic` | libcat89/src/findlim.c:4148-4184 | so are two pullbacks |
| `UniversalTheory.EqualizersIsomorphic` | libcat89/src/findlim.c:2526-2562 | so are two equalizers |
| `FindLimits.HomCount` | libcat89/src/findlim.c:453-472 | the number of arrows |
| `FindLimits.Gather` | libcat89/src/findlim.c:514-537 | lists each arrow once |
| `FindLimits.CountMediators` | libcat89/src/findlim.c:624-644 | the number of arrows through which a cone factors |
| `FindLimits.FactorMediator` | libcat89/src/findlim.c:917-968 | the mediator, exactly when it is unique |
| `FindLimits.ObjCheck` | libcat89/src/findlim.c:760-828 | every cone from this object has exactly one mediator |
| `FindLimits.ProductCheck` | libcat89/src/findlim.c:830-854 | true exactly for products |
| `FindLimits.FindProduct` | libcat89/src/findlim.c:1231-1447 | found means a product, NOT_FOUND means that none exists |
| `FindLimits.EqualizerObjCheck` | libcat89/src/findlim.c:2480-2523 | every equalizing arrow from this object factors exactly once |
| `FindLimits.EqualizerCheck` | libcat89/src/findlim.c:2526-2562 | true exactly for equalizers |
| `FindLimits.FindEqualizer` | libcat89/src/findlim.c:2979-3046 | found, not found and DOMAIN each exactly when they should be |
| `FindLimits.PullbackScan` | libcat89/src/findlim.c:4078-4146 | counts the commuting cones and checks each for a mediator |
| `FindLimits.PullbackObjCheck` | libcat89/src/findlim.c:4078-4146 | every commuting cone from this object factors exactly once |
| `FindLimits.PullbackCheck` | libcat89/src/findlim.c:4148-4184 | true exactly for pullbacks |
| `FindLimits.FindPullback` | libcat89/src/findlim.c:4694-4764 | found, not found and DOMAIN each exactly when they should be |
| `FindColimits.CoproductCheckDecides` | libcat89/src/findlim.c:1672-1740 | the comparisons of the coproduct check decide unique factoring |
| `FindColimits.PushoutCheckDecides` | libcat89/src/findlim.c:4945-5013 | the comparisons of the pushout check decide unique factoring |
| `FindColimits.CoequalizerCheckDecides` | libcat89/src/findlim.c:3304-3347 | the comparisons of the coequalizer check decide unique factoring |
| `FindColimits.CountComediators` | libcat89/src/findlim.c:1538-1558 | the number of arrows through which a cocone factors |
| `FindColimits.FactorComediator` | libcat89/src/findlim.c:1874-1925 | the comediator, exactly when it is unique |
| `FindColimits.CoproductObjCheck` | libcat89/src/findlim.c:1672-1740 | every cocone to this object factors exactly once |
| `FindColimits.CoproductCheck` | libcat89/src/findlim.c:1742-1766 | true exactly for coproducts |
| `FindColimits.CoequalizerObjCheck` | libcat89/src/findlim.c:3304-3347 | every arrow that makes f and g equal factors exactly once |
| `FindColimits.CoequalizerCheck` | libcat89/src/findlim.c:3349-3385 | true exactly for coequalizers |
| `FindColimits.PushoutScan` | libcat89/src/findlim.c:4945-5013 | counts the commuting cocones and checks each for a comediator |
| `FindColimits.PushoutObjCheck` | libcat89/src/findlim.c:4945-5013 | every commuting cocone to this object factors exactly once |
| `FindColimits.PushoutCheck` | libcat89/src/findlim.c:5015-5051 | true exactly for pushouts |
| `FindColimits.CoproductIsOppositeProduct` | libcat89/src/findlim.c:1742-1766 | a coproduct is a product in the opposite category |
| `FindColimits.PushoutIsOppositePullback` | libcat89/src/findlim.c:5015-5051 | a pushout is a pullback in the opposite category |
| `FindColimits.CoequalizerIsOppositeEqualizer` | libcat89/src/findlim.c:3349-3385 | a coequalizer is an equalizer in the opposite category |
| `FindColimits.FindCoproduct` | libcat89/src/findlim.c:2003-2219 | found means a coproduct, NOT_FOUND means that none exists |
| `FindColimits.FindPushout` | libcat89/src/findlim.c:5376-5649 | found, not found and DOMAIN each exactly when they should be |
| `FindColimits.FindCoequalizer` | libcat89/src/findlim.c:3805-3872 | found, not found and DOMAIN each exactly when they should be |
| `BpfMemory.FitsUnique` | libbpf/src/mem.c:283-333 | a nonempty interval resolves in at most one region |
| `BpfMemory.ZeroUnmapped` | libbpf/src/mem.c:64-78 | address zero is never mapped |
| `BpfMemory.LoadIsFlat` | libbpf/src/mem.c:359-446 | a load succeeds exactly inside one region and reads the byte map |
| `BpfMemory.StoreAllowed` | libbpf/src/mem.c:448-486 | a store succeeds exactly inside one writable region |
| `BpfMemory.StoreWrites` | libbpf/src/mem.c:448-486 | it changes exactly the addressed bytes of the map |
| `BpfMemory.LoadAfterStore` | libbpf/src/mem.c:359-486 | a load of the same or fewer bytes returns the stored value modulo 256 to its width |
| `BpfMemory.LoadElsewhere` | libbpf/src/mem.c:359-486 | loads that do not overlap the store see nothing of it |
| `BpfGuest.CreateRegions` | libbpf/src/mem.c:80-249 | accepts exactly four or fewer disjoint, non-empty, non-wrapping mappings off zero, with their initial bytes |
| `BpfGuest.KindDecides` | libbpf/src/mem.c:21-35 | guest code can write memory and stack mappings, is refused in input and constant ones, and can read all of them |
| `BpfGuest.Memory.ResolveAccess` | libbpf/src/mem.c:283-333 | the first region that holds the interval, or why there is none |
| `BpfGuest.Memory.Load` | libbpf/src/mem.c:359-446 | computes the specified load |
| `BpfGuest.Memory.Store` | libbpf/src/mem.c:448-486 | performs the specified store; a rejected one changes nothing |
| `BpfDecode.Decode` | libbpf/src/decode.c:68-194 | succeeds exactly when the bytes frame completely and fit, and fills out with the instructions |
| `BpfDecode.WidthsSum` | libbpf/src/decode.c:91-193 | the slot widths sum to the length in slots |
| `BpfDecode.StartsAt` | libbpf/src/program.c:470-512 | instruction k is decoded from the byte its slot says |
| `BpfDecode.SlotsIncrease` | libbpf/src/program.c:470-512 | slots strictly increase |
| `BpfDecode.EncodeDecoded` | libbpf/src/decode.c:91-193 | encoding a decoded instruction gives its bytes back |
| `BpfDecode.OpcodeFields` | libbpf/src/decode.c:101-190 | the opcode byte is made of class, size and mode or of class, source and code, the next one of the two registers |
| `BpfDecode.SignedFields` | libbpf/src/decode.c:3-41 | offset and immediate are the two's complement readings of their little-endian bytes |
| `BpfProgram.SlotPass` | libbpf/src/program.c:470-512 | records every start slot; refuses nonzero reserved bytes |
| `BpfProgram.ValidatePass` | libbpf/src/validate.c:370-460 | the code of the first ill-formed instruction |
| `BpfProgram.CheckPass` | libbpf/src/program.c:535-568 | the code of the first instruction with an unsupported operation or a write to r10 |
| `BpfProgram.ProfilePass` | libbpf/src/program.c:514-586 | true exactly when every instruction's conformance groups are allowed |
| `BpfProgram.ResolveOne` | libbpf/src/program.c:587-663 | finds the target exactly when an instruction starts there |
| `BpfProgram.ResolvePass` | libbpf/src/program.c:587-663 | records the target of every branch and local call |
| `BpfProgram.TargetUnique` | libbpf/src/program.c:364-383 | the target is unique |
| `BpfProgram.NotInside` | libbpf/src/program.c:364-383 | the target is never the interior of a wide instruction |
| `BpfProgram.BranchesResolved` | libbpf/src/vm.c:483-598 | whatever the machine branches from has a resolved target in the program |
| `BpfProgram.Load` | libbpf/src/program.c:385-666 | accepts exactly the acceptable programs, with their slots and targets, and refuses the others with the code of the first check that fails |
| `BpfProgram.ErrorIff` | libbpf/src/program.c:385-666 | there is such a code exactly for programs that are not acceptable |
| `BpfProgram.AcceptedIsEncoding` | libbpf/src/program.c:385-666 | an accepted byte string is the encoding of the loaded instructions |
| `BpfProgram.FirstFailure` | libbpf/src/program.c:385-666 | a refusal names the first check that fails, and the first instruction that fails it |
| `BpfProgram.AcceptedAlu` | libbpf/src/validate.c:84-141 | which arithmetic instructions are acceptable |
| `BpfProgram.AcceptedJmp` | libbpf/src/validate.c:143-187 | which jumps, calls and exits are |
| `BpfProgram.AcceptedMem` | libbpf/src/validate.c:189-241 | which loads, stores and atomics are |
| `BpfProgram.UndefinedAccepted` | libbpf/src/program.h:7-9 | exactly which memory forms without a definition are acceptable |
| `BpfProgram.RefusalCodes` | libbpf/src/validate.c:66-241 | what each refusal code of validation means |
| `BpfProgram.CheckCodes` | libbpf/src/program.c:67-219 | when an operation is unsupported |
| `BpfProgram.GroupsNeeded` | libbpf/src/validate.c:243-368 | the conformance groups each class of instruction needs |
| `BpfProgram.TargetSlot` | libbpf/src/program.c:264-344 | which instructions get a target, and that local calls and 32-bit jumps count by immediate and all other branches by offset |
| `BpfMachine.ApplyKept` | libbpf/src/vm.c:777-874 | every step, completion, budget change and gate change keeps the machine invariant, memory layout, read-only bytes and stack discipline |
| `BpfMachine.AtomicRegsKept` | libbpf/src/program.c:117-174 | the loader's check keeps atomics off r10 |
| `BpfMachine.RunKeeps` | libbpf/src/vm.c:273-874 | over whole runs pc and return indices stay at most n, depth at most 64, r10 and read-only memory never change |
| `BpfMachine.BalancedCall` | libbpf/src/vm.c:483-598 | a balanced local call resumes at call + 1 with r6 to r10 as they were |
| `BpfMachine.BudgetBounds` | libbpf/src/vm.c:812-819 | the budget bounds the instructions in a row |
| `BpfMachine.TrappedForeverIff` | libbpf/src/vm.c:777-874 | after a trap every later step of every run traps exactly when the machine was already trapped or off the program before the step |
| `BpfMachine.RecordedIff` | libbpf/src/vm.c:777-874 | a trap is stored under exactly that condition, and otherwise costs one unit of budget and changes nothing |
| `BpfMachine.TrapRunsOut` | libbpf/src/vm.c:777-874 | an unstored trap, left alone, repeats for exactly the remaining budget and then turns into exhaustion |
| `BpfMachine.ReturnedForever` | libbpf/src/vm.c:777-874 | after a return every later step of every run reports it |
| `BpfMachine.Exit32Returns` | libbpf/src/vm.c:517-541 | an accepted program whose 32-bit exit ends it |
| `BpfMachine.Exit32AloneRefused` | libbpf/src/program.c:331-341 | a lone 32-bit exit is refused for its branch target |
| `BpfMachine.TrapForgotten` | libbpf/src/vm.c:424-427 | a trap followed by exhaustion |
| `BpfMachine.UndefinedModeAccepted` | libbpf/src/program.h:7-9 | an accepted program with a load-class instruction of an undefined mode |
| `BpfSteps.NothingExecuted` | libbpf/src/vm.c:777-817 | settled machines do not move; leaving the program and lacking budget are reported |
| `BpfSteps.ConditionalJump` | libbpf/src/vm.c:576-598 | goes by its offset if the condition holds and to the next instruction otherwise; nothing else changes |
| `BpfSteps.JumpAlways` | libbpf/src/vm.c:511-516 | goes by its offset, in the 32-bit class by its immediate |
| `BpfSteps.LocalCall` | libbpf/src/vm.c:542-572 | saves the return index and r6 to r10 and goes by its immediate, or traps at 64 open calls |
| `BpfSteps.HelperCall` | libbpf/src/vm.c:297-345 | waits for the host with the import's number, or traps at the gate |
| `BpfSteps.Completion` | libbpf/src/vm.c:273-295 | the status goes to r0, r1 to r5 are cleared, the machine goes on behind the call |
| `BpfSteps.ExitStep` | libbpf/src/vm.c:517-541 | returns to the last open call with its saved registers, or ends the program |
| `BpfSteps.AluStep` | libbpf/src/vm.c:349-363 | sets the destination and never traps in a loaded program |
| `BpfSteps.WideStep` | libbpf/src/vm.c:365-391 | the register gets the number made of bytes 4 to 7 and 12 to 15 |
| `BpfSteps.NarrowStep` | libbpf/src/vm.c:365-391 | other load-class instructions load their immediate |
| `BpfSteps.SignExtendMeans` | libbpf/src/vm.c:60-94 | a sign-extended value is congruent to the value read and lies in the signed range |
| `BpfSteps.LoadStep` | libbpf/src/vm.c:393-435 | reads the byte map inside one region, sign-extending in mode 4; elsewhere traps |
| `BpfSteps.StoreStep` | libbpf/src/vm.c:437-466 | writes the low bytes into one writable region and changes nothing else; elsewhere traps |
| `BpfSteps.AtomicStep` | libbpf/src/vm.c:674-765 | one cell is read and written and the old value returned where the operation says |
| `BpfSteps.StartMeans` | libbpf/src/vm.c:119-201 | the first machine |
| `BpfVm.Vm.StepOnce` | libbpf/src/vm.c:777-874 | one step of the machine, with registers and save areas in place |
| `BpfVm.Vm.ExecCallInsn` | libbpf/src/vm.c:542-572 | pushes the caller's frame, or traps at depth 64 |
| `BpfVm.Vm.ExecExitInsn` | libbpf/src/vm.c:517-541 | pops the frame it returns to, or finishes |
| `BpfVm.Vm.ExecAtomicInsn` | libbpf/src/vm.c:674-765 | one read-modify-write with its register result |
| `BpfVm.Vm.CompleteHelper` | libbpf/src/vm.c:273-295 | resumes behind the helper call, or refuses when nothing is pending |
| `Inet16.AddWord` | libcksum89/src/cksum89_inet16.c:13-30 | folding after each word keeps the one's-complement sum |
| `Inet16.Context.AddByte` | libcksum89/src/cksum89_inet16.c:32-57 | the context stands for the bytes so far |
| `Inet16.Context.Update` | libcksum89/src/cksum89_inet16.c:66-77 | appends the chunk, however the stream is cut |
| `Inet16.Context.Final` | libcksum89/src/cksum89_inet16.c:80-103 | 0xffff minus the one's-complement word sum |
| `Inet16.Checksum` | libcksum89/src/cksum89_inet16.c:105-114 | the one-shot form agrees |
| `Inet16.OnesStands` | libcksum89/src/cksum89_inet16.c:12-103 | the sum lies in 0..0xffff and is congruent to the word sum modulo 65535 |
| `Inet16.ZeroOnlyForZeros` | libcksum89/src/cksum89_inet16.c:12-103 | it is zero only for all-zero data |
| `Inet16.PaddingNeutral` | libcksum89/src/cksum89_inet16.c:21-25 | an odd last byte counts as the high half of its word: a zero byte behind it changes nothing |
| `Inet16.AppendedChecksum` | libcksum89/src/cksum89_inet16.c:12-103 | appending the checksum to the data, padded to whole words, makes the checksum zero |

## Left out

- Allocation failure, NULL arguments, reference counts and ownership in every library: allocation is taken to succeed.
- C `int` and `size_t` ranges: indices and counts are mathematical integers, except where wrap-around decides (region bases, effective addresses, branch deltas, folding).
- libbwt89: the editor handle and the allocation counters.
- libdl89: the `running` flag and its EBUSY result, invalid term kinds, and the flat memory layout of recorded delta tuples, which are sequences of tuples here.
- libdl89 store callbacks: the store is a set that may fail at any call and whose scans return at least what matched at open and only what is present, in any order and without repetition.
- libadt89: schemes, binding, pattern typing, unsealed types and NULL pattern pointers; families and constructors are numbered instead of being pointers.
- libadt89 stack: the recursion runs with an explicit depth that stands for the C stack; running out of it is an answer of its own.
- libcat89 handles, diagrams, shapes and limit wrappers; the equality handle is the finite category's own index equality.
- libcat89 unchecked building: only the validating build is modelled.
- libbpf: the arithmetic of ALU, condition and atomic opcodes, which are parameters of the machine; the capability table, of which only the set of handles that pass the gate is kept.
- libbpf region initialisation from a NULL `init` with a nonzero length, which leaves bytes unspecified.
- libbpf: choosing the context and stack among the region configurations; they are parameters of `BpfVm.Vm`.
- The legacy interpreter, disassembler, command line, CRC tables, libfsm89 and the libraries present only as READMEs.
