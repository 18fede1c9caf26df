/**
  Entries of the step-and-score ledger of an identification data item: which
  processing steps were applied to it, in order of application, and which
  scores each step produced.

  The container keeps the entries in a sequence (order of first application)
  and also indexes them uniquely by their step option. Here the sequence is the
  storage and the unique index is a property of it (`UniqueSteps`), enforced by
  the subset type `AppliedProcessingSteps`; finding an entry by its step is the
  function `FindStep`.
*/
module AppliedSteps {

  datatype Option<T> = None | Some(value: T)

  /** A reference to a processing step kept elsewhere; only compared for identity. */
  type StepRef(==)

  /** A reference to a score type kept elsewhere; the key of a score map. */
  type ScoreType(==)

  /** A score value (a floating-point number in the source, never computed with here). */
  type Score(==)

  /** One applied processing step: the step (absent when there are only scores) and its scores. */
  datatype AppliedStep = AppliedStep(step: Option<StepRef>, scores: map<ScoreType, Score>)

  /** The unique index of the container: no two entries share a step option, absent included. */
  ghost predicate UniqueSteps(e: seq<AppliedStep>)
  {
    forall i, j | 0 <= i < j < |e| :: e[i].step != e[j].step
  }

  /** The container: entries in order of application, at most one per step option. */
  type AppliedProcessingSteps = e: seq<AppliedStep> | UniqueSteps(e) witness []

  /** The step options that have an entry. */
  function Steps(e: seq<AppliedStep>): set<Option<StepRef>>
  {
    set i | 0 <= i < |e| :: e[i].step
  }

  /** Look up the entry of step option `s` through the index: its position, or None. */
  function FindStep(e: seq<AppliedStep>, s: Option<StepRef>): (r: Option<nat>)
    ensures r.Some? ==> r.value < |e| && e[r.value].step == s
    ensures r.Some? ==> forall j | 0 <= j < r.value :: e[j].step != s
    ensures r.None? <==> s !in Steps(e)
  {
    if e == [] then None
    else if e[0].step == s then Some(0)
    else
      match FindStep(e[1..], s)
      case Some(j) => Some(j + 1)
      case None => None
  }

  /** In a container, the position that FindStep reports is the only one holding that step. */
  lemma FindStepUnique(e: AppliedProcessingSteps, k: nat)
    requires k < |e|
    ensures FindStep(e, e[k].step) == Some(k)
  {
  }

  /** The last entry of a container is the only one with its step option. */
  lemma LastStepIsNew(e: AppliedProcessingSteps)
    requires e != []
    ensures e[|e| - 1].step !in Steps(e[..|e| - 1])
  {
    var prefix := e[..|e| - 1];
    forall i | 0 <= i < |prefix|
      ensures prefix[i].step != e[|e| - 1].step
    {
      assert prefix[i] == e[i];
    }
  }

  /**
    The effect of adding an applied processing step: a step option not yet
    present is appended with its scores; otherwise the scores are written into
    the existing entry, where they replace earlier values of the same score type.
  */
  function ApplyStep(e: AppliedProcessingSteps, step: AppliedStep): (r: AppliedProcessingSteps)
    ensures |e| <= |r| <= |e| + 1
    ensures forall i | 0 <= i < |e| :: r[i].step == e[i].step
    ensures Steps(r) == Steps(e) + {step.step}
  {
    match FindStep(e, step.step)
    case None =>
      var r := e + [step];
      assert forall i | 0 <= i < |e| :: r[i] == e[i];
      assert r[|e|] == step;
      r
    case Some(i) =>
      e[i := AppliedStep(e[i].step, e[i].scores + step.scores)]
  }

  /** Append when new: a step option not yet present is appended as given, and nothing else moves. */
  lemma ApplyStepAppendsNew(e: AppliedProcessingSteps, step: AppliedStep)
    requires step.step !in Steps(e)
    ensures ApplyStep(e, step) == e + [step]
    ensures ApplyStep(e, step)[|e|] == step
  {
  }

  /**
    Update in place when present: the entry of that step keeps its position, its
    scores become the old scores overridden by the new ones, and every other
    entry is left as it was.
  */
  lemma ApplyStepUpdatesInPlace(e: AppliedProcessingSteps, step: AppliedStep, k: nat)
    requires k < |e| && e[k].step == step.step
    ensures ApplyStep(e, step) == e[k := AppliedStep(step.step, e[k].scores + step.scores)]
    ensures |ApplyStep(e, step)| == |e|
    ensures ApplyStep(e, step)[k] == AppliedStep(step.step, e[k].scores + step.scores)
    ensures forall t | t in e[k].scores && t !in step.scores ::
              ApplyStep(e, step)[k].scores[t] == e[k].scores[t]
    ensures forall i | 0 <= i < |e| && i != k :: ApplyStep(e, step)[i] == e[i]
  {
    FindStepUnique(e, k);
  }

  /**
    The loop that writes each new score into an existing entry's score map:
    the result is the old map overridden by the new one.
  */
  method OverwriteScores(scores: map<ScoreType, Score>, updates: map<ScoreType, Score>)
    returns (merged: map<ScoreType, Score>)
    ensures merged.Keys == scores.Keys + updates.Keys
    ensures forall t | t in updates :: merged[t] == updates[t]
    ensures forall t | t in scores && t !in updates :: merged[t] == scores[t]
    ensures merged == scores + updates
  {
    merged := scores;
    var pending := updates.Keys;
    while pending != {}
      invariant pending <= updates.Keys
      invariant merged.Keys == scores.Keys + (updates.Keys - pending)
      invariant forall t | t in updates && t !in pending :: merged[t] == updates[t]
      invariant forall t | t in scores && t !in updates.Keys - pending :: merged[t] == scores[t]
      decreases pending
    {
      var t :| t in pending;
      merged := merged[t := updates[t]];
      pending := pending - {t};
    }
  }

  /** The result of a scanning score lookup; `score == None` stands for (NaN, not found). */
  datatype ScoreAndStep = ScoreAndStep(score: Option<Score>, step: Option<StepRef>)

  /** Entry `i` holds score type `t` and no later entry does. */
  ghost predicate IsLatestWith(e: seq<AppliedStep>, t: ScoreType, i: int)
  {
    0 <= i < |e| && t in e[i].scores && forall j | i < j < |e| :: t !in e[j].scores
  }

  /**
    Scanning lookup, most recent first: the score of type `t` in the last entry
    that has one, with that entry's step option; on a miss no score and no step.
  */
  function GetScoreAndStep(e: seq<AppliedStep>, t: ScoreType): (r: ScoreAndStep)
    ensures r.score.Some? <==> exists i | 0 <= i < |e| :: t in e[i].scores
    ensures r.score.None? ==> r.step == None
    ensures r.score.Some? ==>
              exists i :: IsLatestWith(e, t, i) && r == ScoreAndStep(Some(e[i].scores[t]), e[i].step)
  {
    if e == [] then ScoreAndStep(None, None)
    else
      var last := e[|e| - 1];
      if t in last.scores then
        assert IsLatestWith(e, t, |e| - 1);
        ScoreAndStep(Some(last.scores[t]), last.step)
      else
        var r := GetScoreAndStep(e[..|e| - 1], t);
        assert forall i | 0 <= i < |e| - 1 :: e[..|e| - 1][i] == e[i];
        assert forall i :: IsLatestWith(e[..|e| - 1], t, i) ==> IsLatestWith(e, t, i);
        r
  }

  /** Scanning lookup without the step: the score of type `t` in the last entry that has one. */
  function GetScore(e: seq<AppliedStep>, t: ScoreType): (r: Option<Score>)
    ensures r.Some? <==> exists i | 0 <= i < |e| :: t in e[i].scores
    ensures r.Some? ==> exists i :: IsLatestWith(e, t, i) && r.value == e[i].scores[t]
  {
    GetScoreAndStep(e, t).score
  }

  /** Direct lookup: the score of type `t` in the entry of step option `s`, if both exist. */
  function GetScoreForStep(e: AppliedProcessingSteps, t: ScoreType, s: Option<StepRef>): (r: Option<Score>)
    ensures r.Some? <==> exists i | 0 <= i < |e| :: e[i].step == s && t in e[i].scores
    ensures forall i | 0 <= i < |e| && e[i].step == s && t in e[i].scores :: r == Some(e[i].scores[t])
  {
    match FindStep(e, s)
    case None => None
    case Some(i) => if t in e[i].scores then Some(e[i].scores[t]) else None
  }

  /** The view of the container keyed by step option. */
  function StepsAndScoresByStep(e: AppliedProcessingSteps): (m: map<Option<StepRef>, map<ScoreType, Score>>)
    ensures m.Keys == Steps(e)
    ensures forall i | 0 <= i < |e| :: m[e[i].step] == e[i].scores
  {
    if e == [] then map[]
    else
      var prefix := e[..|e| - 1];
      assert forall i | 0 <= i < |e| - 1 :: prefix[i] == e[i];
      assert Steps(e) == Steps(prefix) + {e[|e| - 1].step};
      StepsAndScoresByStep(prefix)[e[|e| - 1].step := e[|e| - 1].scores]
  }
}
