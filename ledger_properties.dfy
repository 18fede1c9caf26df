/**
  Properties that relate adding a step to the lookups afterwards, and the size
  of the by-step view.
*/
module LedgerProperties {
  import opened AppliedSteps

  /**
    Direct lookup after adding a step: the new step's own scores are read back,
    and every other (score type, step option) pair reads as before.
  */
  lemma ReadAfterApplyStep(e: AppliedProcessingSteps, step: AppliedStep, t: ScoreType, s: Option<StepRef>)
    ensures GetScoreForStep(ApplyStep(e, step), t, s) ==
            if s == step.step && t in step.scores then Some(step.scores[t])
            else GetScoreForStep(e, t, s)
  {
    var r := ApplyStep(e, step);
    match FindStep(e, step.step)
    case None =>
      ApplyStepAppendsNew(e, step);
      if s == step.step {
        FindStepUnique(r, |e|);
      } else if s in Steps(e) {
        var k := FindStep(e, s).value;
        FindStepUnique(r, k);
      } else {
        assert s !in Steps(r);
      }
    case Some(k) =>
      ApplyStepUpdatesInPlace(e, step, k);
      if s in Steps(e) {
        var j := FindStep(e, s).value;
        FindStepUnique(r, j);
      } else {
        assert s !in Steps(r);
      }
  }

  /** Second write wins: of two scores written for the same type and step, the later one is read back. */
  lemma SecondWriteWins(e: AppliedProcessingSteps, t: ScoreType, v1: Score, v2: Score, s: Option<StepRef>)
    ensures GetScoreForStep(ApplyStep(ApplyStep(e, AppliedStep(s, map[t := v1])), AppliedStep(s, map[t := v2])), t, s)
            == Some(v2)
  {
    ReadAfterApplyStep(ApplyStep(e, AppliedStep(s, map[t := v1])), AppliedStep(s, map[t := v2]), t, s);
  }

  /**
    A step that is new to the container is appended last, so a scanning lookup
    of any score type it carries finds it, with its step option.
  */
  lemma NewStepShadowsEarlierScores(e: AppliedProcessingSteps, step: AppliedStep, t: ScoreType)
    requires step.step !in Steps(e) && t in step.scores
    ensures GetScoreAndStep(ApplyStep(e, step), t) == ScoreAndStep(Some(step.scores[t]), step.step)
  {
    ApplyStepAppendsNew(e, step);
    var r := ApplyStep(e, step);
    assert r[|e|] == step;
    forall i | IsLatestWith(r, t, i)
      ensures i == |e|
    {
    }
  }

  /** The by-step view has exactly one entry per entry of the sequence: the index is unique. */
  lemma {:induction false} ByStepViewSize(e: AppliedProcessingSteps)
    ensures |StepsAndScoresByStep(e)| == |e|
  {
    if e != [] {
      var prefix := e[..|e| - 1];
      assert forall i | 0 <= i < |e| - 1 :: prefix[i] == e[i];
      ByStepViewSize(prefix);
      assert e[|e| - 1].step !in Steps(prefix);
    }
  }

  /** An empty ledger answers every lookup with not found and no step. */
  lemma EmptyLedgerMisses(t: ScoreType, s: Option<StepRef>)
    ensures GetScoreAndStep([], t) == ScoreAndStep(None, None)
    ensures GetScore([], t) == None
    ensures GetScoreForStep([], t, s) == None
  {
  }

  /**
    Most recent first: after scores of one type for step S1 and then for step
    S2, the scanning lookup reports the score of S2, with S2.
  */
  lemma MostRecentFirstExample(s1: StepRef, s2: StepRef, t: ScoreType, v1: Score, v2: Score)
    requires s1 != s2
    ensures GetScoreAndStep(ApplyStep(ApplyStep([], AppliedStep(Some(s1), map[t := v1])),
                                      AppliedStep(Some(s2), map[t := v2])), t)
            == ScoreAndStep(Some(v2), Some(s2))
  {
    var first := ApplyStep([], AppliedStep(Some(s1), map[t := v1]));
    assert Steps(first) == {Some(s1)};
    NewStepShadowsEarlierScores(first, AppliedStep(Some(s2), map[t := v2]), t);
  }

  /**
    Scores without a step: a score added with no step option is found under
    the absent step, and not under a step that was never added.
  */
  lemma AbsentStepScoreExample(t: ScoreType, v: Score, other: StepRef)
    ensures GetScoreForStep(ApplyStep([], AppliedStep(None, map[t := v])), t, None) == Some(v)
    ensures GetScoreForStep(ApplyStep([], AppliedStep(None, map[t := v])), t, Some(other)) == None
  {
    ReadAfterApplyStep([], AppliedStep(None, map[t := v]), t, None);
    ReadAfterApplyStep([], AppliedStep(None, map[t := v]), t, Some(other));
  }
}
