# Step-and-score ledger of OpenMS identification data

A Dafny model of `ScoredProcessingResult`. This is the base record that OpenMS identification data items use to track two things: the processing steps applied to an item, and the scores each step produced.

The record holds a container of applied steps. Each entry pairs an optional processing-step reference with a map from score type to score. The container has two views:

- a sequence in order of first application;
- a unique index on the step option. The absent step counts as one value, so it has at most one entry too.

Operations on the container:

- **Adding a step.** A new step option is appended. If the step option already has an entry, the new scores are written into that entry, and a new value replaces an old value of the same score type.
- **Adding a score.** This adds a one-score step.
- **`+=`.** Adds every entry of the other record, in its order.
- **Lookups.** A score can be looked up for one exact step option. It can also be looked up by scanning the entries most recent first; that scan can also report which step option produced the score.

## Layout

- `applied_steps.dfy`, module `AppliedSteps`:
  - The entry datatype `AppliedStep`.
  - The container, the subset type `AppliedProcessingSteps`. It is a sequence of entries in which no two entries share a step option. The sequence stands for the application-order view. The predicate `UniqueSteps` stands for the unique index. `FindStep` finds an entry through that index.
  - `ApplyStep`: what adding a step does to the container.
  - `OverwriteScores`: the loop that writes new scores into an existing entry.
  - The read-only lookups `GetScore`, `GetScoreForStep`, `GetScoreAndStep` and `StepsAndScoresByStep`. They are functions of the container value.
- `scored_processing_result.dfy`, module `ScoredProcessing`:
  - The class `ScoredProcessingResult`, which owns the container in the field `stepsAndScores`.
  - Its methods change that field in place. Each method's postcondition gives the new container as a function of the old one.
- `ledger_properties.dfy`, module `LedgerProperties`: lemmas that connect adding a step to the lookups that follow it.
- `merging.dfy`, module `Merging`:
  - The step-by-step merge `MergeAll`.
  - A direct description of the merge result, `MergedSpec`, and the proof that the two agree.

Scores and references are opaque types with equality:

- `StepRef` and `ScoreType` stand for the iterators into external containers that the source uses as references.
- `Score` stands for a `double`.

A lookup that misses returns `None`. This stands for the source's pair (NaN, `false`).

## Model

| member | source | states |
|---|---|---|
| `AppliedSteps.FindStep` | src/openms/include/OpenMS/METADATA/ID/ScoredProcessingResult.h:112-114 | Returns the position of an entry that has the given step option, with no earlier entry having it. Returns None exactly when no entry has that step option. |
| `AppliedSteps.FindStepUnique` | src/openms/include/OpenMS/METADATA/ID/ScoredProcessingResult.h:77-85 | In a container, looking up the step option of entry k gives k. The index is unique. |
| `AppliedSteps.ApplyStep` | src/openms/include/OpenMS/METADATA/ID/ScoredProcessingResult.h:110-129 | The result is again a container, so step options stay unique. It grows by at most one entry. Existing entries keep their step options and positions. The set of step options gains exactly the added one. |
| `AppliedSteps.ApplyStepAppendsNew` | src/openms/include/OpenMS/METADATA/ID/ScoredProcessingResult.h:112-117 | A step option with no entry yet is appended at the end exactly as given. Everything before it is unchanged. |
| `AppliedSteps.ApplyStepUpdatesInPlace` | src/openms/include/OpenMS/METADATA/ID/ScoredProcessingResult.h:118-128 | When the step option is already at position k: the length stays the same, and entry k's scores become the old scores overridden by the new ones. Old score types that are not in the new map keep their values. Every other entry is unchanged. |
| `AppliedSteps.OverwriteScores` | src/openms/include/OpenMS/METADATA/ID/ScoredProcessingResult.h:120-127 | The loop that writes each new score into the entry's score map. The result has the keys of both maps. A new value wins on a shared key. Old values are kept elsewhere. So the result is the override union `scores + updates`. |
| `AppliedSteps.GetScoreAndStep` | src/openms/include/OpenMS/METADATA/ID/ScoredProcessingResult.h:212-227 | Finds a score exactly when some entry has the score type. The score and step option come from the last entry that has it. On a miss, both the score and the step option are absent. |
| `AppliedSteps.GetScore` | src/openms/include/OpenMS/METADATA/ID/ScoredProcessingResult.h:176-181 | Same as the scanning lookup without the step: found exactly when some entry has the score type, with the value from the last such entry. |
| `AppliedSteps.GetScoreForStep` | src/openms/include/OpenMS/METADATA/ID/ScoredProcessingResult.h:188-203 | Found exactly when the entry of the given step option exists and has the score type. In that case the value is that entry's score. |
| `AppliedSteps.StepsAndScoresByStep` | src/openms/include/OpenMS/METADATA/ID/ScoredProcessingResult.h:92-103 | The by-step view. Its keys are exactly the step options in the container, and each key maps to that entry's scores. |
| `LedgerProperties.ByStepViewSize` | src/openms/include/OpenMS/METADATA/ID/ScoredProcessingResult.h:77-85 | The by-step view has exactly as many entries as the sequence view: one per step option. |
| `LedgerProperties.ReadAfterApplyStep` | src/openms/include/OpenMS/METADATA/ID/ScoredProcessingResult.h:110-129 | After a step is added, a direct lookup of one of its score types under its step option returns the new value. Every other (score type, step option) lookup returns what it returned before. |
| `LedgerProperties.SecondWriteWins` | src/openms/include/OpenMS/METADATA/ID/ScoredProcessingResult.h:140-148 | Two scores are added for the same type and step option. A direct lookup afterwards returns the second one as found. |
| `LedgerProperties.NewStepShadowsEarlierScores` | src/openms/include/OpenMS/METADATA/ID/ScoredProcessingResult.h:215-223 | Take a step option that is new to the container. After it is added, the scanning lookup of any of its score types returns its score and its step option, whatever earlier entries hold. |
| `LedgerProperties.EmptyLedgerMisses` | src/openms/include/OpenMS/METADATA/ID/ScoredProcessingResult.h:224-226 | On an empty container every lookup misses, and the scanning lookup reports no step. |
| `LedgerProperties.MostRecentFirstExample` | src/openms/include/OpenMS/METADATA/ID/ScoredProcessingResult.h:212-223 | S1 and then S2 are added, each with a score of type T. The scanning lookup of T returns S2's score together with S2. |
| `LedgerProperties.AbsentStepScoreExample` | src/openms/include/OpenMS/METADATA/ID/ScoredProcessingResult.h:141-148 | A score added with no step is found under the absent step option. It is not found under a step that was never added. |
| `Merging.MergeAll` | src/openms/include/OpenMS/METADATA/ID/ScoredProcessingResult.h:153-157 | Adding the other record's entries one by one keeps every existing entry in place with its step option. The step options of the result are the union of both. |
| `Merging.NewEntries` | src/openms/include/OpenMS/METADATA/ID/ScoredProcessingResult.h:112-117 | An entry is in the result exactly when it is in the other record and its step option is missing from this one. The result is empty when every step option is already present. |
| `Merging.MergeAllIsMergedSpec` | src/openms/include/OpenMS/METADATA/ID/ScoredProcessingResult.h:151-157 | The step-by-step merge equals the direct description. Each entry of this record stays at its position, with its scores overridden by the other record's scores for that step option. After them come the other record's entries for new step options, in the other record's order. |
| `Merging.MergeWithItself` | src/openms/include/OpenMS/METADATA/ID/ScoredProcessingResult.h:151-157 | Merging a record into itself leaves its steps and scores unchanged. |
| `Merging.MergePrecedenceExample` | src/openms/include/OpenMS/METADATA/ID/ScoredProcessingResult.h:154-157 | Start from (S1, T=v1). Merging in (S1, T=v9), (S2, T=v3) gives (S1, T=v9) followed by (S2, T=v3). |
| `ScoredProcessing.ScoredProcessingResult.constructor` | src/openms/include/OpenMS/METADATA/ID/ScoredProcessingResult.h:230-235 | The new record holds the given container, which is empty by default. |
| `ScoredProcessing.ScoredProcessingResult.AddProcessingStep` | src/openms/include/OpenMS/METADATA/ID/ScoredProcessingResult.h:110-129 | The new container is `ApplyStep` of the old one. The method looks the step up, then either appends it or runs the score-overwrite loop on the existing entry. |
| `ScoredProcessing.ScoredProcessingResult.AddProcessingStepRef` | src/openms/include/OpenMS/METADATA/ID/ScoredProcessingResult.h:132-138 | Same effect as adding an entry with that step reference (present) and the given scores, empty by default. |
| `ScoredProcessing.ScoredProcessingResult.AddScore` | src/openms/include/OpenMS/METADATA/ID/ScoredProcessingResult.h:141-148 | Same effect as adding an entry with the given step option (absent by default) and a one-score map. |
| `ScoredProcessing.ScoredProcessingResult.Merge` | src/openms/include/OpenMS/METADATA/ID/ScoredProcessingResult.h:151-157 | The new container is `MergeAll` of the old one and the other record's old container. This also holds when the other record is this one. |
| `ScoredProcessing.SecondWriteWinsOnResult` | src/openms/include/OpenMS/METADATA/ID/ScoredProcessingResult.h:140-148 | On a record, adding scores v1 and then v2 for the same type and step option makes the direct lookup return v2. |

## Left out

- The meta-information merge in `+=` (lines 158-164). It relies on `MetaInfoInterface`, which is not part of this model.
- The order of the by-step view. The source orders it by step reference, and that ordering is defined in DataProcessingStep.h, which is not part of this model. `StepsAndScoresByStep` gives the view as a map, without an order.
- Changing entries through the by-step view (the non-const `getStepsAndScoresByStep`) is not modelled. The only changes are through the class's methods.
- NaN. A missed lookup returns `None`, not a NaN value, and scores are never computed with.
- Iterator identity and the internals of boost's container (`get<1>()`, `modify`, reversed ranges). The two views are one sequence plus the uniqueness predicate and `FindStep`.
- The defaulted copy constructor (line 237) is not modelled. The same goes for `operator==` on applied steps (lines 68-72), which is Dafny's built-in equality on the `AppliedStep` datatype.
- The lookups are functions of the container value, not members of the class.
- `Merge` reads the other record's entries once, before the loop. The source iterates over them live. The two differ only when the other record is this one. In that case the source's loop only overwrites each score with itself and appends nothing, so the outcome is the same.
- The overload that adds a step by reference takes a present reference in the source (its parameter type is not optional). `AddProcessingStepRef` therefore always adds `Some(stepRef)`. It cannot add the absent step; scores without a step go through `AddScore`.
