/**
  Merging another ledger into this one (the steps part of `+=`): every entry of
  the other ledger is added, in its order, as a single added step would be.
  `MergedSpec` describes the outcome directly, and `MergeAllIsMergedSpec`
  proves that the step-by-step merge produces it.
*/
module Merging {
  import opened AppliedSteps

  /** Add the entries of `b` to `a` one after the other, in `b`'s order. */
  function MergeAll(a: AppliedProcessingSteps, b: seq<AppliedStep>): (r: AppliedProcessingSteps)
    ensures |a| <= |r|
    ensures forall i | 0 <= i < |a| :: r[i].step == a[i].step
    ensures Steps(r) == Steps(a) + Steps(b)
    decreases |b|
  {
    if b == [] then a
    else
      var prefix := b[..|b| - 1];
      assert forall i | 0 <= i < |b| - 1 :: prefix[i] == b[i];
      assert Steps(b) == Steps(prefix) + {b[|b| - 1].step};
      ApplyStep(MergeAll(a, prefix), b[|b| - 1])
  }

  /** The scores that `b` holds for step option `s`; empty when `b` has no entry for it. */
  function ScoresFor(b: seq<AppliedStep>, s: Option<StepRef>): map<ScoreType, Score>
  {
    match FindStep(b, s)
    case Some(j) => b[j].scores
    case None => map[]
  }

  /** The entries of `b` whose step option has no entry in `a`, in `b`'s order. */
  function NewEntries(b: seq<AppliedStep>, a: seq<AppliedStep>): (r: seq<AppliedStep>)
    ensures forall x | x in r :: x in b && x.step !in Steps(a)
    ensures forall x | x in b && x.step !in Steps(a) :: x in r
    ensures |r| <= |b|
    ensures Steps(b) <= Steps(a) ==> r == []
  {
    if b == [] then []
    else
      var prefix := b[..|b| - 1];
      assert b == prefix + [b[|b| - 1]];
      assert Steps(b) == Steps(prefix) + {b[|b| - 1].step};
      NewEntries(prefix, a) + (if b[|b| - 1].step in Steps(a) then [] else [b[|b| - 1]])
  }

  /** An entry of `a` after the merge: its scores overridden by those `b` holds for its step option. */
  function UpdatedEntry(entry: AppliedStep, b: seq<AppliedStep>): AppliedStep
  {
    AppliedStep(entry.step, entry.scores + ScoresFor(b, entry.step))
  }

  /** The entries of `a`, each with its scores overridden by those `b` holds for its step option. */
  function UpdatedEntries(a: seq<AppliedStep>, b: seq<AppliedStep>): (r: seq<AppliedStep>)
    ensures |r| == |a|
    ensures forall i | 0 <= i < |a| :: r[i] == UpdatedEntry(a[i], b)
  {
    seq(|a|, i requires 0 <= i < |a| => UpdatedEntry(a[i], b))
  }

  /**
    The merge described directly: every entry of `a` stays where it was, its
    scores overridden by the scores `b` holds for the same step option; after
    them come the entries of `b` whose step option `a` lacks, in `b`'s order.
  */
  ghost function MergedSpec(a: seq<AppliedStep>, b: seq<AppliedStep>): seq<AppliedStep>
  {
    UpdatedEntries(a, b) + NewEntries(b, a)
  }

  /** Dropping the last entry of a container does not change what it holds for other step options. */
  lemma ScoresForDropLast(b: AppliedProcessingSteps, s: Option<StepRef>)
    requires b != [] && s != b[|b| - 1].step
    ensures ScoresFor(b, s) == ScoresFor(b[..|b| - 1], s)
  {
    var prefix := b[..|b| - 1];
    assert forall i | 0 <= i < |b| - 1 :: prefix[i] == b[i];
    match FindStep(prefix, s)
    case Some(j) =>
      FindStepUnique(b, j);
    case None =>
      assert s !in Steps(b);
  }

  /** The last entry of `b` only touches the entry of `a` with the same step option. */
  lemma UpdatedEntriesDropLast(a: AppliedProcessingSteps, b: AppliedProcessingSteps, i: nat)
    requires b != [] && i < |a| && a[i].step != b[|b| - 1].step
    ensures UpdatedEntries(a, b)[i] == UpdatedEntries(a, b[..|b| - 1])[i]
  {
    ScoresForDropLast(b, a[i].step);
  }

  /** The described merge, when the last entry of `b` has a step option that `a` lacks. */
  lemma MergedSpecAppendsNew(a: AppliedProcessingSteps, b: AppliedProcessingSteps)
    requires b != [] && b[|b| - 1].step !in Steps(a)
    ensures MergedSpec(a, b) == MergedSpec(a, b[..|b| - 1]) + [b[|b| - 1]]
  {
    var prefix := b[..|b| - 1];
    assert b == prefix + [b[|b| - 1]];
    forall i | 0 <= i < |a|
      ensures UpdatedEntries(a, b)[i] == UpdatedEntries(a, prefix)[i]
    {
      assert a[i].step in Steps(a);
      UpdatedEntriesDropLast(a, b, i);
    }
    assert UpdatedEntries(a, b) == UpdatedEntries(a, prefix);
    assert NewEntries(b, a) == NewEntries(prefix, a) + [b[|b| - 1]];
  }

  /** Replacing an element of the front part of a concatenation. */
  lemma UpdateInFront(front: seq<AppliedStep>, back: seq<AppliedStep>, k: nat, v: AppliedStep)
    requires k < |front|
    ensures (front + back)[k := v] == front[k := v] + back
  {
  }

  /** The described merge, when `a` already has the step option of the last entry of `b`, at `k`. */
  lemma MergedSpecUpdatesExisting(a: AppliedProcessingSteps, b: AppliedProcessingSteps, k: nat)
    requires b != [] && k < |a| && a[k].step == b[|b| - 1].step
    ensures MergedSpec(a, b) ==
            MergedSpec(a, b[..|b| - 1])[k := AppliedStep(a[k].step, a[k].scores + b[|b| - 1].scores)]
  {
    var prefix, x := b[..|b| - 1], b[|b| - 1];
    assert b == prefix + [x];
    LastStepIsNew(b);
    FindStepUnique(b, |b| - 1);
    assert UpdatedEntries(a, b)[k] == AppliedStep(a[k].step, a[k].scores + x.scores);
    assert UpdatedEntries(a, prefix)[k] == AppliedStep(a[k].step, a[k].scores + map[]);
    forall i | 0 <= i < |a| && i != k
      ensures UpdatedEntries(a, b)[i] == UpdatedEntries(a, prefix)[i]
    {
      UpdatedEntriesDropLast(a, b, i);
    }
    assert UpdatedEntries(a, b) == UpdatedEntries(a, prefix)[k := AppliedStep(a[k].step, a[k].scores + x.scores)];
    assert NewEntries(b, a) == NewEntries(prefix, a) by {
      assert x.step in Steps(a);
    }
    UpdateInFront(UpdatedEntries(a, prefix), NewEntries(prefix, a), k,
                  AppliedStep(a[k].step, a[k].scores + x.scores));
  }

  /** Before the last entry of `b` is merged, the entry of `a` with its step option is unchanged. */
  lemma EntryUntouchedByPrefix(a: AppliedProcessingSteps, b: AppliedProcessingSteps, k: nat)
    requires b != [] && k < |a| && a[k].step == b[|b| - 1].step
    ensures MergedSpec(a, b[..|b| - 1])[k] == a[k]
  {
    LastStepIsNew(b);
    assert ScoresFor(b[..|b| - 1], a[k].step) == map[];
    assert a[k].scores + map[] == a[k].scores;
  }

  /** The last entry of `b` is added after all the others. */
  lemma MergeAllLast(a: AppliedProcessingSteps, b: seq<AppliedStep>)
    requires b != []
    ensures MergeAll(a, b) == ApplyStep(MergeAll(a, b[..|b| - 1]), b[|b| - 1])
  {
  }

  /** One merge step, for a last entry of `b` whose step option `a` has at `k`. */
  lemma MergeStepExisting(a: AppliedProcessingSteps, b: AppliedProcessingSteps, k: nat)
    requires b != [] && k < |a| && a[k].step == b[|b| - 1].step
    requires MergeAll(a, b[..|b| - 1]) == MergedSpec(a, b[..|b| - 1])
    ensures MergeAll(a, b) == MergedSpec(a, b)
  {
    var m, x := MergeAll(a, b[..|b| - 1]), b[|b| - 1];
    MergeAllLast(a, b);
    MergedSpecUpdatesExisting(a, b, k);
    EntryUntouchedByPrefix(a, b, k);
    FindStepUnique(m, k);
    ApplyStepUpdatesInPlace(m, x, k);
  }

  /** One merge step, for a last entry of `b` whose step option `a` lacks. */
  lemma MergeStepNew(a: AppliedProcessingSteps, b: AppliedProcessingSteps)
    requires b != [] && b[|b| - 1].step !in Steps(a)
    requires MergeAll(a, b[..|b| - 1]) == MergedSpec(a, b[..|b| - 1])
    ensures MergeAll(a, b) == MergedSpec(a, b)
  {
    LastStepIsNew(b);
    MergedSpecAppendsNew(a, b);
    ApplyStepAppendsNew(MergeAll(a, b[..|b| - 1]), b[|b| - 1]);
  }

  /** Merging step by step yields the directly described merge. */
  lemma {:induction false} MergeAllIsMergedSpec(a: AppliedProcessingSteps, b: AppliedProcessingSteps)
    ensures MergeAll(a, b) == MergedSpec(a, b)
  {
    if b == [] {
      assert forall i | 0 <= i < |a| :: a[i].scores + map[] == a[i].scores;
      assert UpdatedEntries(a, b) == a;
    } else {
      MergeAllIsMergedSpec(a, b[..|b| - 1]);
      match FindStep(a, b[|b| - 1].step)
      case Some(k) => MergeStepExisting(a, b, k);
      case None => MergeStepNew(a, b);
    }
  }

  /** An entry merged with its own scores is unchanged. */
  lemma UpdatedEntrySelf(a: AppliedProcessingSteps, i: nat)
    requires i < |a|
    ensures UpdatedEntry(a[i], a) == a[i]
  {
    FindStepUnique(a, i);
    assert a[i].scores + a[i].scores == a[i].scores;
  }

  /** Merging a ledger into itself changes nothing. */
  lemma MergeWithItself(a: AppliedProcessingSteps)
    ensures MergeAll(a, a) == a
  {
    MergeAllIsMergedSpec(a, a);
    forall i | 0 <= i < |a|
      ensures UpdatedEntries(a, a)[i] == a[i]
    {
      UpdatedEntrySelf(a, i);
    }
    assert UpdatedEntries(a, a) == a;
  }

  /**
    Merge precedence: with `a` holding (S1, T = v1) and `b` holding (S1, T = v9)
    then (S2, T = v3), merging `b` into `a` gives S1 with T = v9 followed by
    S2 with T = v3.
  */
  lemma MergePrecedenceExample(s1: StepRef, s2: StepRef, t: ScoreType, v1: Score, v9: Score, v3: Score)
    requires s1 != s2
    ensures MergeAll([AppliedStep(Some(s1), map[t := v1])],
                     [AppliedStep(Some(s1), map[t := v9]), AppliedStep(Some(s2), map[t := v3])])
            == [AppliedStep(Some(s1), map[t := v9]), AppliedStep(Some(s2), map[t := v3])]
  {
    var a: AppliedProcessingSteps := [AppliedStep(Some(s1), map[t := v1])];
    var b: AppliedProcessingSteps := [AppliedStep(Some(s1), map[t := v9]), AppliedStep(Some(s2), map[t := v3])];
    MergeAllIsMergedSpec(a, b);
    FindStepUnique(b, 0);
    assert map[t := v1] + map[t := v9] == map[t := v9];
    assert NewEntries(b, a) == [b[1]];
  }
}
