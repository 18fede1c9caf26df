/**
  The base of identification data items that carry scores and processing
  steps: an object that owns a ledger of applied steps and changes it in place.
  Its read-only lookups are the functions of module AppliedSteps applied to
  the ledger (`GetScore(r.stepsAndScores, t)` and so on).
*/
module ScoredProcessing {
  import opened AppliedSteps
  import opened Merging
  import opened LedgerProperties

  class ScoredProcessingResult {
    /** The applied steps with their scores, in order of application and unique by step option. */
    var stepsAndScores: AppliedProcessingSteps

    /** A result holding the given applied steps (none by default). */
    constructor (stepsAndScores: AppliedProcessingSteps := [])
      ensures this.stepsAndScores == stepsAndScores
    {
      this.stepsAndScores := stepsAndScores;
    }

    /**
      Add an applied processing step: appended if its step option is new,
      otherwise its scores are written into the existing entry.
    */
    method AddProcessingStep(step: AppliedStep)
      modifies this
      ensures stepsAndScores == ApplyStep(old(stepsAndScores), step)
    {
      match FindStep(stepsAndScores, step.step)
      case None =>
        ApplyStepAppendsNew(stepsAndScores, step);
        stepsAndScores := stepsAndScores + [step];
      case Some(i) =>
        var merged := OverwriteScores(stepsAndScores[i].scores, step.scores);
        ApplyStepUpdatesInPlace(stepsAndScores, step, i);
        stepsAndScores := stepsAndScores[i := AppliedStep(stepsAndScores[i].step, merged)];
    }

    /** Add a processing step given by reference, with its scores (none by default). */
    method AddProcessingStepRef(stepRef: StepRef, scores: map<ScoreType, Score> := map[])
      modifies this
      ensures stepsAndScores == ApplyStep(old(stepsAndScores), AppliedStep(Some(stepRef), scores))
    {
      AddProcessingStep(AppliedStep(Some(stepRef), scores));
    }

    /** Add one score, tied to a processing step or (by default) to none. */
    method AddScore(scoreType: ScoreType, score: Score, stepOpt: Option<StepRef> := None)
      modifies this
      ensures stepsAndScores == ApplyStep(old(stepsAndScores), AppliedStep(stepOpt, map[scoreType := score]))
    {
      var scores := map[];
      scores := scores[scoreType := score];
      AddProcessingStep(AppliedStep(stepOpt, scores));
    }

    /**
      Merge the applied steps of `other` into this result (`+=`): each of its
      entries, in order, is added as by AddProcessingStep.
    */
    method Merge(other: ScoredProcessingResult)
      modifies this
      ensures stepsAndScores == MergeAll(old(stepsAndScores), old(other.stepsAndScores))
    {
      var source := other.stepsAndScores;
      ghost var start := stepsAndScores;
      var i := 0;
      while i < |source|
        invariant 0 <= i <= |source|
        invariant stepsAndScores == MergeAll(start, source[..i])
      {
        assert source[..i + 1][..i] == source[..i];
        MergeAllLast(start, source[..i + 1]);
        AddProcessingStep(source[i]);
        i := i + 1;
      }
      assert source[..i] == source;
    }
  }

  /**
    Two scores written for the same score type and step option: the direct
    lookup afterwards reads the second.
  */
  method SecondWriteWinsOnResult(r: ScoredProcessingResult, t: ScoreType, v1: Score, v2: Score,
                                 s: Option<StepRef>)
    modifies r
    ensures GetScoreForStep(r.stepsAndScores, t, s) == Some(v2)
  {
    r.AddScore(t, v1, s);
    ghost var between := r.stepsAndScores;
    r.AddScore(t, v2, s);
    ReadAfterApplyStep(between, AppliedStep(s, map[t := v2]), t, s);
  }
}
