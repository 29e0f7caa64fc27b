/**
 The scoring rules of the verification page: each of four steps draws a score
 from its own range, a step passes when its score is above 70, the page shows
 the rounded mean of the passed steps while it runs, and at the end the user's
 trust level comes from the rounded mean of all four scores. The
 `Math.random()` draw of each step is a parameter `r` with `0 <= r < 1`.
 */
module Verification {
  import opened Numeric

  /** `TrustLevel`, from the lowest level to the highest. */
  datatype TrustLevel = New | Developing | Verified | Trusted | HighlyTrusted

  function Rank(t: TrustLevel): nat
  {
    match t
    case New => 0
    case Developing => 1
    case Verified => 2
    case Trusted => 3
    case HighlyTrusted => 4
  }

  /** The least score that earns `t`. */
  function Threshold(t: TrustLevel): int
    requires t != New
  {
    match t
    case Developing => 40
    case Verified => 60
    case Trusted => 80
    case HighlyTrusted => 90
  }

  /** `getTrustLevel`. */
  function GetTrustLevel(score: int): (t: TrustLevel)
    ensures t == New <==> score < Threshold(Developing)
  {
    if score >= 90 then HighlyTrusted
    else if score >= 80 then Trusted
    else if score >= 60 then Verified
    else if score >= 40 then Developing
    else New
  }

  /** A score earns level `t` or better exactly when it reaches `t`'s threshold. */
  lemma TrustLevelThresholds(score: int, t: TrustLevel)
    requires t != New
    ensures Rank(GetTrustLevel(score)) >= Rank(t) <==> score >= Threshold(t)
  {
  }

  /** A higher score never lowers the trust level. */
  lemma TrustLevelMonotone(s1: int, s2: int)
    requires s1 <= s2
    ensures Rank(GetTrustLevel(s1)) <= Rank(GetTrustLevel(s2))
  {
    if GetTrustLevel(s1) != New {
      TrustLevelThresholds(s1, GetTrustLevel(s1));
      TrustLevelThresholds(s2, GetTrustLevel(s1));
    }
  }

  /** Each level is reached by its own threshold score. */
  lemma ThresholdEarnsLevel(t: TrustLevel)
    requires t != New
    ensures GetTrustLevel(Threshold(t)) == t
  {
  }

  // ---------------------------------------------------------------------------
  // generateStepScore

  /** The step ids `baseScores` knows; any other string is `Other`. The type
      also admits `Other("risk")` and the like, which `StepScore` scores 75 like
      any unknown id; the page never builds one, because `ParseStepId` maps each
      known name to its own constructor. */
  datatype StepId = Behavioral | Consistency | Risk | Social | Other(name: string)

  function Name(id: StepId): string
  {
    match id
    case Behavioral => "behavioral"
    case Consistency => "consistency"
    case Risk => "risk"
    case Social => "social"
    case Other(name) => name
  }

  /** Looks a step's string id up among the known ones. */
  function ParseStepId(name: string): (id: StepId)
    ensures Name(id) == name
  {
    if name == "behavioral" then Behavioral
    else if name == "consistency" then Consistency
    else if name == "risk" then Risk
    else if name == "social" then Social
    else Other(name)
  }

  /** Parsing a known id's name gives the id back. */
  lemma ParseName(id: StepId)
    requires !id.Other?
    ensures ParseStepId(Name(id)) == id
  {
  }

  /** The four steps of the page, in order. */
  const StepIds: seq<StepId> := [Behavioral, Consistency, Risk, Social]

  /** The score an unknown step id gets. */
  const DefaultScore: int := 75

  /** A step passes when its score is strictly above this. */
  const PassMark: int := 70

  /** The unrounded score of a step; none of the four known ranges contains 0,
      so `|| 75` only applies to an unknown id. */
  function BaseScore(id: StepId, r: real): real
  {
    match id
    case Behavioral => 85.0 + r * 10.0
    case Consistency => 80.0 + r * 15.0
    case Risk => 90.0 - r * 20.0
    case Social => 75.0 + r * 20.0
    case Other(_) => DefaultScore as real
  }

  /** The lowest score a step can get. */
  function MinScore(id: StepId): int
  {
    match id
    case Behavioral => 85
    case Consistency => 80
    case Risk => 70
    case Social => 75
    case Other(_) => DefaultScore
  }

  /** The highest score a step can get. */
  function MaxScore(id: StepId): int
  {
    match id
    case Behavioral => 95
    case Consistency => 95
    case Risk => 90
    case Social => 95
    case Other(_) => DefaultScore
  }

  /** `generateStepScore`: the rounded base score, within the step's range. */
  function StepScore(id: StepId, r: real): (s: int)
    requires 0.0 <= r < 1.0
    ensures MinScore(id) <= s <= MaxScore(id)
  {
    var lo := MinScore(id) as real;
    var hi := MaxScore(id) as real;
    assert lo <= BaseScore(id, r) <= hi;
    RoundMonotone(lo, BaseScore(id, r));
    RoundMonotone(BaseScore(id, r), hi);
    RoundOfInt(MinScore(id));
    RoundOfInt(MaxScore(id));
    Round(BaseScore(id, r))
  }

  /** Both ends of every known range are reached. */
  lemma StepScoreExtremes(id: StepId)
    requires !id.Other?
    ensures StepScore(id, 0.0) == (if id == Risk then MaxScore(id) else MinScore(id))
    ensures exists r :: 0.0 <= r < 1.0 && StepScore(id, r) == (if id == Risk then MinScore(id) else MaxScore(id))
  {
    var r := 0.99;
    assert 0.0 <= r < 1.0 && StepScore(id, r) == (if id == Risk then MinScore(id) else MaxScore(id));
  }

  /** An unknown id always scores 75, whatever the draw. */
  lemma UnknownStepScore(name: string, r: real)
    requires name !in ["behavioral", "consistency", "risk", "social"] && 0.0 <= r < 1.0
    ensures StepScore(ParseStepId(name), r) == DefaultScore
  {
  }

  datatype StepStatus = Pending | Processing | Completed | Failed

  /** `score > 70 ? 'completed' : 'failed'`. */
  function StatusOf(score: int): (s: StepStatus)
    ensures s == Completed || s == Failed
    ensures s == Completed <==> score > PassMark
  {
    if score > PassMark then Completed else Failed
  }

  /** Only the risk step can fail, and only with a rounded score of exactly 70. */
  lemma OnlyRiskCanFail(id: StepId, r: real)
    requires 0.0 <= r < 1.0
    ensures StatusOf(StepScore(id, r)) == Failed <==> id == Risk && StepScore(id, r) == PassMark
  {
  }

  /** The risk step fails exactly for draws above 0.975, where `90 - 20r` rounds to 70. */
  lemma RiskFailsExactly(r: real)
    requires 0.0 <= r < 1.0
    ensures StatusOf(StepScore(Risk, r)) == Failed <==> r > 0.975
  {
    var x := BaseScore(Risk, r);
    if r > 0.975 {
      assert x < 70.5;
    } else {
      assert 70.5 <= x;
      RoundMonotone(70.5, x);
    }
  }

  // ---------------------------------------------------------------------------
  // startVerification

  datatype VerificationStep = VerificationStep(id: StepId, status: StepStatus, score: int)

  function Total(steps: seq<VerificationStep>): int
  {
    if |steps| == 0 then 0 else steps[0].score + Total(steps[1..])
  }

  function CompletedTotal(steps: seq<VerificationStep>): int
  {
    if |steps| == 0 then 0
    else (if steps[0].status == Completed then steps[0].score else 0) + CompletedTotal(steps[1..])
  }

  function CompletedCount(steps: seq<VerificationStep>): (n: nat)
    ensures n <= |steps|
  {
    if |steps| == 0 then 0
    else (if steps[0].status == Completed then 1 else 0) + CompletedCount(steps[1..])
  }

  /** Whether a mean counts the step: the final score counts every step (`all`),
      the running score only the completed ones. */
  predicate Counted(step: VerificationStep, all: bool)
  {
    all || step.status == Completed
  }

  /** The index of a least counted score from `from` on. */
  function LeastFrom(steps: seq<VerificationStep>, all: bool, from: nat): (i: nat)
    requires exists k :: from <= k < |steps| && Counted(steps[k], all)
    ensures from <= i < |steps| && Counted(steps[i], all)
    ensures forall k :: from <= k < |steps| && Counted(steps[k], all) ==> steps[i].score <= steps[k].score
    decreases |steps| - from
  {
    if !exists k :: from + 1 <= k < |steps| && Counted(steps[k], all) then from
    else
      var j := LeastFrom(steps, all, from + 1);
      if Counted(steps[from], all) && steps[from].score <= steps[j].score then from else j
  }

  /** The index of a greatest counted score from `from` on. */
  function GreatestFrom(steps: seq<VerificationStep>, all: bool, from: nat): (i: nat)
    requires exists k :: from <= k < |steps| && Counted(steps[k], all)
    ensures from <= i < |steps| && Counted(steps[i], all)
    ensures forall k :: from <= k < |steps| && Counted(steps[k], all) ==> steps[k].score <= steps[i].score
    decreases |steps| - from
  {
    if !exists k :: from + 1 <= k < |steps| && Counted(steps[k], all) then from
    else
      var j := GreatestFrom(steps, all, from + 1);
      if Counted(steps[from], all) && steps[j].score <= steps[from].score then from else j
  }

  /** A positive completed count has a completed step to show for it. */
  lemma {:induction false} CompletedWitness(steps: seq<VerificationStep>)
    requires CompletedCount(steps) > 0
    ensures exists k :: 0 <= k < |steps| && Counted(steps[k], false)
  {
    if steps[0].status != Completed {
      CompletedWitness(steps[1..]);
      var k :| 0 <= k < |steps[1..]| && Counted(steps[1..][k], false);
      assert Counted(steps[k + 1], false);
    } else {
      assert Counted(steps[0], false);
    }
  }

  /** The score shown while running: the rounded mean of the completed steps,
      which lies between the least and the greatest completed score, and 0
      when none is completed (`0 / 0` is NaN, and `|| 0` turns it into 0). */
  function RunningScore(steps: seq<VerificationStep>): (s: int)
    ensures CompletedCount(steps) == 0 ==> s == 0
    ensures CompletedCount(steps) > 0 ==>
      exists i, j :: 0 <= i < |steps| && 0 <= j < |steps| &&
        steps[i].status == Completed && steps[j].status == Completed &&
        steps[i].score <= s <= steps[j].score
  {
    var n := CompletedCount(steps);
    if n == 0 then 0
    else
      CompletedWitness(steps);
      var i := LeastFrom(steps, false, 0);
      var j := GreatestFrom(steps, false, 0);
      CompletedTotalBounds(steps, steps[i].score, steps[j].score);
      MeanOfBoundedTotal(CompletedTotal(steps), n, steps[i].score, steps[j].score);
      var s := Round(CompletedTotal(steps) as real / n as real);
      assert steps[i].status == Completed && steps[j].status == Completed && steps[i].score <= s <= steps[j].score;
      s
  }

  /** The final score: the rounded mean over every step, failed ones included,
      which lies between the least and the greatest score. */
  function FinalScore(steps: seq<VerificationStep>): (s: int)
    requires |steps| > 0
    ensures exists i, j :: 0 <= i < |steps| && 0 <= j < |steps| && steps[i].score <= s <= steps[j].score
  {
    assert Counted(steps[0], true);
    var i := LeastFrom(steps, true, 0);
    var j := GreatestFrom(steps, true, 0);
    TotalWithin(steps, steps[i].score, steps[j].score);
    MeanOfBoundedTotal(Total(steps), |steps|, steps[i].score, steps[j].score);
    Round(Total(steps) as real / |steps| as real)
  }

  /** Completed scores between `lo` and `hi` sum to between `n * lo` and `n * hi`. */
  lemma {:induction false} CompletedTotalBounds(steps: seq<VerificationStep>, lo: int, hi: int)
    requires forall i :: 0 <= i < |steps| && steps[i].status == Completed ==> lo <= steps[i].score <= hi
    ensures CompletedCount(steps) * lo <= CompletedTotal(steps) <= CompletedCount(steps) * hi
  {
    if |steps| > 0 {
      CompletedTotalBounds(steps[1..], lo, hi);
      var n := CompletedCount(steps[1..]);
      if steps[0].status == Completed {
        assert (n + 1) * lo == n * lo + lo;
        assert (n + 1) * hi == n * hi + hi;
      }
    }
  }

  /** Scores between `lo` and `hi` sum to between `|steps| * lo` and `|steps| * hi`. */
  lemma {:induction false} TotalWithin(steps: seq<VerificationStep>, lo: int, hi: int)
    requires forall i :: 0 <= i < |steps| ==> lo <= steps[i].score <= hi
    ensures |steps| * lo <= Total(steps) <= |steps| * hi
  {
    if |steps| > 0 {
      TotalWithin(steps[1..], lo, hi);
      var n := |steps| - 1;
      assert (n + 1) * lo == n * lo + lo;
      assert (n + 1) * hi == n * hi + hi;
    }
  }

  /** The running score is 0 exactly when nothing has completed; otherwise it
      lies between the least and greatest completed scores allowed. */
  lemma RunningScoreBounds(steps: seq<VerificationStep>, lo: int, hi: int)
    requires forall i :: 0 <= i < |steps| && steps[i].status == Completed ==> lo <= steps[i].score <= hi
    ensures CompletedCount(steps) == 0 ==> RunningScore(steps) == 0
    ensures CompletedCount(steps) > 0 ==> lo <= RunningScore(steps) <= hi
  {
    var n := CompletedCount(steps);
    if n > 0 {
      CompletedTotalBounds(steps, lo, hi);
      MeanOfBoundedTotal(CompletedTotal(steps), n, lo, hi);
    }
  }

  /** A total of `n` numbers in `[lo, hi]` has a rounded mean in `[lo, hi]`. */
  lemma MeanOfBoundedTotal(total: int, n: nat, lo: int, hi: int)
    requires 0 < n && n * lo <= total <= n * hi
    ensures lo <= Round(total as real / n as real) <= hi
  {
    var m := total as real / n as real;
    var nr := n as real;
    assert (n * lo) as real == nr * lo as real;
    assert (n * hi) as real == nr * hi as real;
    BoundedQuotient(total as real, nr, lo as real, hi as real);
    RoundMonotone(lo as real, m);
    RoundMonotone(m, hi as real);
    RoundOfInt(lo);
    RoundOfInt(hi);
  }

  /** Every completed step scores above the pass mark. */
  lemma CompletedAbovePassMark(steps: seq<VerificationStep>)
    requires forall i :: 0 <= i < |steps| ==> steps[i].status == StatusOf(steps[i].score)
    ensures forall i :: 0 <= i < |steps| && steps[i].status == Completed ==> PassMark < steps[i].score
  {
  }

  function MinTotal(ids: seq<StepId>): int
  {
    if |ids| == 0 then 0 else MinScore(ids[0]) + MinTotal(ids[1..])
  }

  function MaxTotal(ids: seq<StepId>): int
  {
    if |ids| == 0 then 0 else MaxScore(ids[0]) + MaxTotal(ids[1..])
  }

  /** Scores within their steps' ranges total within the sums of those ranges. */
  lemma {:induction false} TotalBounds(steps: seq<VerificationStep>, ids: seq<StepId>)
    requires |steps| == |ids|
    requires forall i :: 0 <= i < |steps| ==> steps[i].id == ids[i]
    requires forall i :: 0 <= i < |steps| ==> MinScore(steps[i].id) <= steps[i].score <= MaxScore(steps[i].id)
    ensures MinTotal(ids) <= Total(steps) <= MaxTotal(ids)
  {
    if |steps| > 0 {
      TotalBounds(steps[1..], ids[1..]);
    }
  }

  /** The four known steps total between 310 and 375 points. */
  lemma KnownTotals()
    ensures MinTotal(StepIds) == 310 && MaxTotal(StepIds) == 375
  {
    assert StepIds[1..] == [Consistency, Risk, Social];
    assert StepIds[1..][1..] == [Risk, Social];
    assert StepIds[1..][1..][1..] == [Social];
    assert StepIds[1..][1..][1..][1..] == [];
  }

  /** The four steps' final score lies in [78, 94], since 310 / 4 rounds to 78 and 375 / 4 to 94. */
  lemma FinalScoreRange(steps: seq<VerificationStep>)
    requires |steps| == |StepIds|
    requires forall i :: 0 <= i < |steps| ==> steps[i].id == StepIds[i]
    requires forall i :: 0 <= i < |steps| ==> MinScore(steps[i].id) <= steps[i].score <= MaxScore(steps[i].id)
    ensures 78 <= FinalScore(steps) <= 94
  {
    TotalBounds(steps, StepIds);
    KnownTotals();
    var t := Total(steps) as real;
    DivideMonotone(310.0, t, 4.0);
    DivideMonotone(t, 375.0, 4.0);
    RoundMonotone(77.5, t / 4.0);
    RoundMonotone(t / 4.0, 93.75);
  }

  /** A step with its score and the status that score earns. */
  function ScoredStep(id: StepId, r: real): (step: VerificationStep)
    requires 0.0 <= r < 1.0
    ensures step.id == id && step.status == StatusOf(step.score)
    ensures MinScore(id) <= step.score <= MaxScore(id)
  {
    var score := StepScore(id, r);
    VerificationStep(id, StatusOf(score), score)
  }

  /** While the steps run, the shown score is 0 or a passing score of at most 95. */
  lemma RunningScoreOfScoredSteps(steps: seq<VerificationStep>)
    requires forall k :: 0 <= k < |steps| && steps[k].status == Completed ==> PassMark < steps[k].score <= 95
    ensures RunningScore(steps) == 0 || PassMark < RunningScore(steps) <= 95
  {
    RunningScoreBounds(steps, PassMark + 1, 95);
  }

  /** The step list of the page before any run: every step pending at score 0. */
  const Fresh: seq<VerificationStep> :=
    [VerificationStep(Behavioral, Pending, 0), VerificationStep(Consistency, Pending, 0),
     VerificationStep(Risk, Pending, 0), VerificationStep(Social, Pending, 0)]

  /** The step lists a run can start from. The page shares its step objects with
      the list a run mutates, and it runs again whenever the user changes, which
      every run does at its end. So a step is either fresh, or still holds the
      status and score an earlier run gave it. */
  predicate Startable(initial: seq<VerificationStep>)
  {
    && |initial| == |StepIds|
    && forall k :: 0 <= k < |initial| ==>
         initial[k].id == StepIds[k] &&
         (initial[k] == Fresh[k] ||
          (initial[k].status == StatusOf(initial[k].score) &&
           MinScore(StepIds[k]) <= initial[k].score <= MaxScore(StepIds[k])))
  }

  /** The step list once the first `n` steps of a run from `initial` are scored. */
  function Snapshot(initial: seq<VerificationStep>, draws: seq<real>, n: nat): (steps: seq<VerificationStep>)
    requires |initial| == |draws| == |StepIds| && n <= |StepIds|
    requires forall i :: 0 <= i < |draws| ==> 0.0 <= draws[i] < 1.0
    ensures |steps| == |StepIds|
    ensures forall k :: 0 <= k < n ==> steps[k] == ScoredStep(StepIds[k], draws[k])
    ensures forall k :: n <= k < |StepIds| ==> steps[k] == initial[k]
  {
    seq(|StepIds|, k requires 0 <= k < |StepIds| => if k < n then ScoredStep(StepIds[k], draws[k]) else initial[k])
  }

  /** Whatever a run starts from, every completed step of every snapshot passes with at most 95. */
  lemma SnapshotCompletedScores(initial: seq<VerificationStep>, draws: seq<real>, n: nat)
    requires Startable(initial) && |draws| == |StepIds| && n <= |StepIds|
    requires forall i :: 0 <= i < |draws| ==> 0.0 <= draws[i] < 1.0
    ensures forall k :: 0 <= k < |StepIds| && Snapshot(initial, draws, n)[k].status == Completed ==>
      PassMark < Snapshot(initial, draws, n)[k].score <= 95
  {
  }

  /** Steps at and after `n` that are not completed add nothing to the running mean. */
  lemma {:induction false} CompletedPrefix(steps: seq<VerificationStep>, n: nat)
    requires n <= |steps|
    requires forall k :: n <= k < |steps| ==> steps[k].status != Completed
    ensures CompletedTotal(steps) == CompletedTotal(steps[..n])
    ensures CompletedCount(steps) == CompletedCount(steps[..n])
  {
    if |steps| > 0 {
      var m := if n == 0 then 0 else n - 1;
      assert forall k :: m <= k < |steps[1..]| ==> steps[1..][k].status != Completed;
      CompletedPrefix(steps[1..], m);
      if n == 0 {
        assert steps[1..][..0] == [];
      } else {
        assert steps[..n][1..] == steps[1..][..m];
      }
    }
  }

  /** On the first run, the shown score averages only the steps scored so far. */
  lemma FreshRunningScore(draws: seq<real>, n: nat)
    requires |draws| == |StepIds| && n <= |StepIds|
    requires forall i :: 0 <= i < |draws| ==> 0.0 <= draws[i] < 1.0
    ensures RunningScore(Snapshot(Fresh, draws, n)) == RunningScore(Snapshot(Fresh, draws, n)[..n])
  {
    CompletedPrefix(Snapshot(Fresh, draws, n), n);
  }

  /** On a later run, the steps still completed from before count while the
      first step is rescored. A previous run left scores 85, 80, 90 and 75; the
      first step scores 85 again; the page shows the rounded mean of all four,
      83, where a fresh list shows 85. */
  lemma StaleStepsCount()
    ensures var initial := [VerificationStep(Behavioral, Completed, 85), VerificationStep(Consistency, Completed, 80),
                            VerificationStep(Risk, Completed, 90), VerificationStep(Social, Completed, 75)];
      && Startable(initial)
      && RunningScore(Snapshot(initial, [0.0, 0.0, 0.0, 0.0], 1)) == 83
      && RunningScore(Snapshot(Fresh, [0.0, 0.0, 0.0, 0.0], 1)) == 85
  {
    var draws := [0.0, 0.0, 0.0, 0.0];
    var initial := [VerificationStep(Behavioral, Completed, 85), VerificationStep(Consistency, Completed, 80),
                    VerificationStep(Risk, Completed, 90), VerificationStep(Social, Completed, 75)];
    assert StepScore(Behavioral, 0.0) == 85;
    var s := Snapshot(initial, draws, 1);
    assert s == initial;
    StaleTotals(s);
    assert Round(330.0 / 4.0) == 83;
    var f := Snapshot(Fresh, draws, 1);
    FreshRunningScore(draws, 1);
    assert f[..1] == [VerificationStep(Behavioral, Completed, 85)];
    assert f[..1][1..] == [];
    assert Round(85.0 / 1.0) == 85;
  }

  lemma StaleTotals(s: seq<VerificationStep>)
    requires s == [VerificationStep(Behavioral, Completed, 85), VerificationStep(Consistency, Completed, 80),
                   VerificationStep(Risk, Completed, 90), VerificationStep(Social, Completed, 75)]
    ensures CompletedTotal(s) == 330 && CompletedCount(s) == 4
  {
    assert s[1..][1..][1..][1..] == [];
    assert CompletedTotal(s[1..][1..][1..]) == 75 && CompletedCount(s[1..][1..][1..]) == 1;
    assert CompletedTotal(s[1..][1..]) == 165 && CompletedCount(s[1..][1..]) == 2;
    assert CompletedTotal(s[1..]) == 245 && CompletedCount(s[1..]) == 3;
  }

  /** The arithmetic of `startVerification`: each step in turn gets its score and
      status, the running score is recomputed over the whole list after each,
      and the final score sets the trust level. `initial` is the list the run
      starts from and `draws[i]` is the random draw of step `i`. */
  method StartVerification(initial: seq<VerificationStep>, draws: seq<real>)
    returns (steps: seq<VerificationStep>, progress: seq<int>, final: int, level: TrustLevel)
    requires Startable(initial)
    requires |draws| == |StepIds|
    requires forall i :: 0 <= i < |draws| ==> 0.0 <= draws[i] < 1.0
    ensures |steps| == |StepIds| && |progress| == |StepIds|
    ensures forall i :: 0 <= i < |steps| ==> steps[i] == ScoredStep(StepIds[i], draws[i])
    ensures forall i :: 0 <= i < |progress| ==> progress[i] == RunningScore(Snapshot(initial, draws, i + 1))
    ensures forall i :: 0 <= i < |progress| ==> progress[i] == 0 || PassMark < progress[i] <= 95
    ensures forall i :: 0 <= i < |steps| && steps[i].status == Failed ==> steps[i].id == Risk
    ensures final == FinalScore(steps) && 78 <= final <= 94
    ensures level == GetTrustLevel(final) && Rank(Verified) <= Rank(level)
  {
    steps := initial;
    progress := [];
    var i := 0;
    assert steps == Snapshot(initial, draws, 0);
    while i < |StepIds|
      invariant 0 <= i <= |StepIds|
      invariant steps == Snapshot(initial, draws, i)
      invariant |progress| == i
      invariant forall k :: 0 <= k < i ==> progress[k] == RunningScore(Snapshot(initial, draws, k + 1))
    {
      steps := steps[i := ScoredStep(StepIds[i], draws[i])];
      assert steps == Snapshot(initial, draws, i + 1);
      progress := progress + [RunningScore(steps)];
      i := i + 1;
    }
    forall k | 0 <= k < |progress|
      ensures progress[k] == 0 || PassMark < progress[k] <= 95
    {
      SnapshotCompletedScores(initial, draws, k + 1);
      RunningScoreOfScoredSteps(Snapshot(initial, draws, k + 1));
    }
    forall k | 0 <= k < |steps| && steps[k].status == Failed
      ensures steps[k].id == Risk
    {
      OnlyRiskCanFail(StepIds[k], draws[k]);
    }
    FinalScoreRange(steps);
    final := FinalScore(steps);
    level := GetTrustLevel(final);
    TrustLevelMonotone(Threshold(Verified), final);
  }
}
