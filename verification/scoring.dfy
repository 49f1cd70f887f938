/** The score reconciliation engine: turns binary per-problem outcomes and the
    teacher's point scales into per-exercise scores and grand totals. Every
    exercise's score is recomputed from its problems and its scale; nothing
    is patched incrementally. */
module Scoring {
  import opened Types

  /** Number of problems whose reported score is exactly 1. */
  function CountCorrect(ps: seq<SubProblem>): (c: nat)
    ensures c <= |ps|
  {
    if |ps| == 0 then 0
    else CountCorrect(ps[..|ps| - 1]) + (if ps[|ps| - 1].studentScore == 1.0 then 1 else 0)
  }

  /** The count is zero exactly when no problem is correct, and full exactly
      when every problem is. */
  lemma {:induction false} CountCorrectExtremes(ps: seq<SubProblem>)
    ensures CountCorrect(ps) == 0 <==> forall i :: 0 <= i < |ps| ==> ps[i].studentScore != 1.0
    ensures CountCorrect(ps) == |ps| <==> forall i :: 0 <= i < |ps| ==> ps[i].studentScore == 1.0
  {
    if |ps| > 0 {
      var init := ps[..|ps| - 1];
      CountCorrectExtremes(init);
      assert forall i :: 0 <= i < |init| ==> init[i] == ps[i];
    }
  }

  /** Each problem carries an equal share of the exercise's point scale; an
      exercise without problems scores nothing. */
  function ExerciseScore(ps: seq<SubProblem>, points: int): real {
    if |ps| == 0 then 0.0
    else (CountCorrect(ps) as real / |ps| as real) * points as real
  }

  /** The stored score of an exercise is the one its problems and scale give. */
  predicate Consistent(ex: Exercise) {
    ex.studentScore == ExerciseScore(ex.problems, ex.totalPossiblePoints)
  }

  function Rescored(ex: Exercise): Exercise {
    ex.(studentScore := ExerciseScore(ex.problems, ex.totalPossiblePoints))
  }

  /** Two exercises agree on everything except the derived score. */
  predicate SameExceptScore(a: Exercise, b: Exercise) {
    && a.id == b.id
    && a.title == b.title
    && a.totalPossiblePoints == b.totalPossiblePoints
    && a.problems == b.problems
  }

  /** Two exercise lists agree position by position except on derived scores. */
  predicate SameShape(xs: seq<Exercise>, ys: seq<Exercise>) {
    |xs| == |ys| && forall i :: 0 <= i < |xs| ==> SameExceptScore(xs[i], ys[i])
  }

  /** Sum of the stored exercise scores. */
  function SumScores(exs: seq<Exercise>): real {
    if |exs| == 0 then 0.0
    else SumScores(exs[..|exs| - 1]) + exs[|exs| - 1].studentScore
  }

  /** Sum of the exercise point scales. */
  function SumPoints(exs: seq<Exercise>): int {
    if |exs| == 0 then 0
    else SumPoints(exs[..|exs| - 1]) + exs[|exs| - 1].totalPossiblePoints
  }

  /** A result whose every stored score can be recomputed from the other
      fields: each exercise is consistent and both totals are plain sums. */
  predicate WellFormed(r: GradingResult) {
    && (forall i :: 0 <= i < |r.exercises| ==> Consistent(r.exercises[i]))
    && r.totalScore == SumScores(r.exercises)
    && r.totalPossiblePoints == SumPoints(r.exercises)
  }

  /** Point scales only: exercises of the same shape have the same sum of
      scales. */
  lemma {:induction false} SumPointsOfSameShape(xs: seq<Exercise>, ys: seq<Exercise>)
    requires SameShape(xs, ys)
    ensures SumPoints(xs) == SumPoints(ys)
  {
    if |xs| > 0 {
      SumPointsOfSameShape(xs[..|xs| - 1], ys[..|ys| - 1]);
    }
  }

  /** The reconciliation: recompute every exercise's score, keep everything
      else, and total the scores and the scales. */
  function Recalculate(exs: seq<Exercise>): (r: GradingResult)
    ensures WellFormed(r)
    ensures SameShape(r.exercises, exs)
  {
    var updated := seq(|exs|, i requires 0 <= i < |exs| => Rescored(exs[i]));
    SumPointsOfSameShape(updated, exs);
    GradingResult(SumScores(updated), SumPoints(exs), updated)
  }

  /** Any well-formed result over the same exercises is the recomputed one:
      the derived fields hold no information of their own. */
  lemma {:induction false} RecalculateIsUnique(r: GradingResult, exs: seq<Exercise>)
    requires WellFormed(r)
    requires SameShape(r.exercises, exs)
    ensures r == Recalculate(exs)
  {
    var q := Recalculate(exs);
    assert |r.exercises| == |q.exercises|;
    forall i | 0 <= i < |r.exercises|
      ensures r.exercises[i] == q.exercises[i]
    {
      assert SameExceptScore(r.exercises[i], exs[i]);
      assert SameExceptScore(q.exercises[i], exs[i]);
      assert Consistent(r.exercises[i]) && Consistent(q.exercises[i]);
    }
    assert r.exercises == q.exercises;
  }

  /** Recomputing twice gives the same result as recomputing once. */
  lemma RecalculateIdempotent(exs: seq<Exercise>)
    ensures Recalculate(Recalculate(exs).exercises) == Recalculate(exs)
  {
    var r := Recalculate(exs);
    var q := Recalculate(r.exercises);
    assert SameShape(q.exercises, exs);
    RecalculateIsUnique(q, exs);
  }

  /** Recomputing exercises whose scores are already consistent returns them
      unchanged, in the same order. */
  lemma RecalculateOfConsistent(exs: seq<Exercise>)
    requires forall i :: 0 <= i < |exs| ==> Consistent(exs[i])
    ensures Recalculate(exs).exercises == exs
    ensures Recalculate(exs).totalScore == SumScores(exs)
  {
    var r := Recalculate(exs);
    assert |r.exercises| == |exs|;
    forall i | 0 <= i < |exs|
      ensures r.exercises[i] == exs[i]
    {
      assert SameExceptScore(r.exercises[i], exs[i]);
    }
    assert r.exercises == exs;
  }

  /** A fraction between 0 and 1 of a scale lies between 0 and the scale. */
  lemma FractionOfScale(q: real, p: real)
    requires 0.0 <= q <= 1.0
    ensures p >= 0.0 ==> 0.0 <= q * p <= p
    ensures p < 0.0 ==> p <= q * p <= 0.0
  {
    assert p - q * p == (1.0 - q) * p;
    if p >= 0.0 {
      assert (1.0 - q) * p >= 0.0;
    } else {
      assert q * (-p) >= 0.0;
      assert (1.0 - q) * (-p) >= 0.0;
    }
  }

  /** A value lies between 0 and a scale, on whichever side of 0 the scale is. */
  predicate WithinScale(v: real, points: int) {
    if points >= 0 then 0.0 <= v <= points as real else points as real <= v <= 0.0
  }

  /** An exercise's score lies between 0 and its scale. */
  lemma ExerciseScoreBounds(ps: seq<SubProblem>, points: int)
    ensures WithinScale(ExerciseScore(ps, points), points)
  {
    if |ps| > 0 {
      ScaledShareBounds(CountCorrect(ps), |ps|, points);
    }
  }

  /** The share of a count out of a positive total, applied to a scale. */
  lemma ScaledShareBounds(c: nat, n: nat, points: int)
    requires 0 < n && c <= n
    ensures WithinScale((c as real / n as real) * points as real, points)
  {
    ShareBetweenZeroAndOne(c, n);
    FractionOfScale(c as real / n as real, points as real);
  }

  /** All problems correct earns the full scale. */
  lemma AllCorrectEarnsFullScale(ps: seq<SubProblem>, points: int)
    requires |ps| > 0 && CountCorrect(ps) == |ps|
    ensures ExerciseScore(ps, points) == points as real
  {
    var n := |ps|;
    ShareBetweenZeroAndOne(n, n);
    var q := n as real / n as real;
    var p := points as real;
    assert q * p == p;
    assert ExerciseScore(ps, points) == q * p;
  }

  /** No problem correct earns nothing. */
  lemma NoneCorrectEarnsNothing(ps: seq<SubProblem>, points: int)
    requires CountCorrect(ps) == 0
    ensures ExerciseScore(ps, points) == 0.0
  {
    if |ps| > 0 {
      var q := CountCorrect(ps) as real / |ps| as real;
      assert q == 0.0;
      assert ExerciseScore(ps, points) == q * points as real;
    }
  }

  /** A count out of a positive total is a share between 0 and 1. */
  lemma ShareBetweenZeroAndOne(c: nat, n: nat)
    requires 0 < n && c <= n
    ensures 0.0 <= c as real / n as real <= 1.0
    ensures c == n ==> c as real / n as real == 1.0
  {
    var q := c as real / n as real;
    assert q * n as real == c as real;
  }

  lemma {:induction false} SumScoresAppend(a: seq<Exercise>, b: seq<Exercise>)
    ensures SumScores(a + b) == SumScores(a) + SumScores(b)
  {
    if |b| == 0 {
      assert a + b == a;
    } else {
      var b' := b[..|b| - 1];
      assert (a + b)[..|a + b| - 1] == a + b';
      SumScoresAppend(a, b');
    }
  }

  lemma {:induction false} SumPointsAppend(a: seq<Exercise>, b: seq<Exercise>)
    ensures SumPoints(a + b) == SumPoints(a) + SumPoints(b)
  {
    if |b| == 0 {
      assert a + b == a;
    } else {
      var b' := b[..|b| - 1];
      assert (a + b)[..|a + b| - 1] == a + b';
      SumPointsAppend(a, b');
    }
  }

  /** An exercise with no recognised problems scores 0, yet its scale still
      counts towards the grand total of possible points: appending it leaves
      the grand score alone and raises the possible total by its scale. */
  lemma EmptyExerciseStillCounts(exs: seq<Exercise>, e: Exercise)
    requires |e.problems| == 0
    ensures Recalculate(exs + [e]).exercises[|exs|].studentScore == 0.0
    ensures Recalculate(exs + [e]).totalScore == Recalculate(exs).totalScore
    ensures Recalculate(exs + [e]).totalPossiblePoints
         == Recalculate(exs).totalPossiblePoints + e.totalPossiblePoints
  {
    var r := Recalculate(exs + [e]);
    var q := Recalculate(exs);
    assert r.exercises == q.exercises + [Rescored(e)];
    SumScoresAppend(q.exercises, [Rescored(e)]);
    SumPointsAppend(exs, [e]);
    assert SumScores([Rescored(e)]) == 0.0 by {
      assert [Rescored(e)][..0] == [];
    }
    assert SumPoints([e]) == e.totalPossiblePoints by {
      assert [e][..0] == [];
    }
  }

  /** Three of four problems correct on a 10-point exercise scores 7.5. */
  lemma ThreeOfFourAtTenIsSevenAndAHalf(ex: Exercise)
    requires |ex.problems| == 4 && ex.totalPossiblePoints == 10
    requires ex.problems[0].studentScore == 1.0 && ex.problems[1].studentScore == 1.0
    requires ex.problems[2].studentScore == 0.0 && ex.problems[3].studentScore == 1.0
    ensures Recalculate([ex]).exercises[0].studentScore == 7.5
    ensures Recalculate([ex]).totalScore == 7.5
    ensures Recalculate([ex]).totalPossiblePoints == 10
  {
    var ps := ex.problems;
    assert ps[..3][..2] == ps[..2] && ps[..2][..1] == ps[..1] && ps[..1][..0] == [];
    assert ps[..4] == ps && ps[..4][..3] == ps[..3];
    assert CountCorrect(ps[..1]) == 1;
    assert CountCorrect(ps[..2]) == 2;
    assert CountCorrect(ps[..3]) == 2;
    assert CountCorrect(ps) == 3;
    var r := Recalculate([ex]);
    assert r.exercises[0].studentScore == 7.5;
    assert r.exercises[..0] == [] && [ex][..0] == [];
    assert SumScores(r.exercises) == SumScores(r.exercises[..0]) + r.exercises[0].studentScore;
    assert SumPoints([ex]) == SumPoints([ex][..0]) + ex.totalPossiblePoints;
  }

  lemma SumScoresSnoc(s: seq<Exercise>, x: Exercise)
    ensures SumScores(s + [x]) == SumScores(s) + x.studentScore
  {
    assert (s + [x])[..|s|] == s;
  }

  lemma SumPointsPrefix(s: seq<Exercise>, i: nat)
    requires i < |s|
    ensures SumPoints(s[..i + 1]) == SumPoints(s[..i]) + s[i].totalPossiblePoints
  {
    assert s[..i + 1][..i] == s[..i];
  }

  /** The recalculation loop: one pass over the exercises that rescores
      each and accumulates both grand totals as it goes. */
  method RecalculateScores(exs: seq<Exercise>) returns (r: GradingResult)
    ensures r == Recalculate(exs)
    ensures WellFormed(r) && SameShape(r.exercises, exs)
  {
    var grandTotalScore := 0.0;
    var grandTotalPossiblePoints := 0;
    var updated: seq<Exercise> := [];
    for i := 0 to |exs|
      invariant |updated| == i
      invariant forall k :: 0 <= k < i ==> updated[k] == Rescored(exs[k])
      invariant grandTotalScore == SumScores(updated)
      invariant grandTotalPossiblePoints == SumPoints(exs[..i])
    {
      var ex := exs[i];
      var next: Exercise;
      if |ex.problems| == 0 {
        grandTotalPossiblePoints := grandTotalPossiblePoints + ex.totalPossiblePoints;
        next := ex.(studentScore := 0.0);
        assert next == Rescored(ex);
      } else {
        var score := ExerciseScore(ex.problems, ex.totalPossiblePoints);
        grandTotalScore := grandTotalScore + score;
        grandTotalPossiblePoints := grandTotalPossiblePoints + ex.totalPossiblePoints;
        next := ex.(studentScore := score);
      }
      SumScoresSnoc(updated, next);
      SumPointsPrefix(exs, i);
      updated := updated + [next];
    }
    assert exs[..|exs|] == exs;
    r := GradingResult(grandTotalScore, grandTotalPossiblePoints, updated);
    assert updated == Recalculate(exs).exercises;
  }
}
