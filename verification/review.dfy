/** Review edits on a displayed result: changing an exercise's point scale
    and overriding one problem's verdict. Each edit changes the field it
    targets, selected by id, and then recomputes every score. */
module Review {
  import opened Types
  import opened Scoring
  import opened Memory

  /** The title of the last exercise carrying the given id, or the empty
      string when there is none (a later match overwrites an earlier one). */
  function EditedTitle(exs: seq<Exercise>, id: int): (t: string)
    ensures t != "" ==> exists i :: 0 <= i < |exs| && exs[i].id == id && exs[i].title == t
    ensures (forall i :: 0 <= i < |exs| ==> exs[i].id != id) ==> t == ""
    ensures forall i :: (0 <= i < |exs| && exs[i].id == id
      && forall j :: i < j < |exs| ==> exs[j].id != id) ==> t == exs[i].title
  {
    if |exs| == 0 then ""
    else if exs[|exs| - 1].id == id then exs[|exs| - 1].title
    else EditedTitle(exs[..|exs| - 1], id)
  }

  /** Sets the scale of every exercise with the given id. */
  function SetPoints(exs: seq<Exercise>, id: int, points: int): seq<Exercise> {
    seq(|exs|, i requires 0 <= i < |exs| =>
      if exs[i].id == id then exs[i].(totalPossiblePoints := points) else exs[i])
  }

  /** Sets the score of every problem with the given id. */
  function SetProblemScore(ps: seq<SubProblem>, problemId: int, mark: Mark): seq<SubProblem> {
    seq(|ps|, j requires 0 <= j < |ps| =>
      if ps[j].id == problemId then ps[j].(studentScore := mark as real) else ps[j])
  }

  /** Overrides the verdict of the selected problems inside the selected
      exercises. */
  function SetScore(exs: seq<Exercise>, exerciseId: int, problemId: int, mark: Mark): seq<Exercise> {
    seq(|exs|, i requires 0 <= i < |exs| =>
      if exs[i].id == exerciseId
      then exs[i].(problems := SetProblemScore(exs[i].problems, problemId, mark))
      else exs[i])
  }

  /** The outcome of an edit: the new result (absent stays absent) and the
      new point memory. */
  datatype Edit = Edit(result: Option<GradingResult>, memory: PointMemory)

  /** A scale edit: applied to the matching exercises, remembered under the
      edited exercise's title when that title is non-empty, then recomputed. */
  function PointsChange(result: Option<GradingResult>, mem: PointMemory, exerciseId: int, points: int): Edit {
    match result
    case None => Edit(None, mem)
    case Some(r) =>
      var title := EditedTitle(r.exercises, exerciseId);
      var mem' := if title != "" then mem[title := points] else mem;
      Edit(Some(Recalculate(SetPoints(r.exercises, exerciseId, points))), mem')
  }

  /** A verdict override, followed by a recomputation. */
  function Correction(result: Option<GradingResult>, exerciseId: int, problemId: int, mark: Mark): Option<GradingResult> {
    match result
    case None => None
    case Some(r) => Some(Recalculate(SetScore(r.exercises, exerciseId, problemId, mark)))
  }

  /** A scale edit changes the scale of exactly the matching exercises and
      nothing else; the new result is consistent; exercises it does not
      target keep their scores; and no result stays no result, with the
      memory untouched. */
  lemma PointsChangeContract(result: Option<GradingResult>, mem: PointMemory, exerciseId: int, points: int)
    ensures result.None? ==> PointsChange(result, mem, exerciseId, points) == Edit(None, mem)
    ensures result.Some? ==>
      var prev := result.value.exercises;
      var e := PointsChange(result, mem, exerciseId, points);
      && e.result.Some?
      && WellFormed(e.result.value)
      && var exs := e.result.value.exercises;
      && |exs| == |prev|
      && (forall i :: 0 <= i < |prev| ==>
            && exs[i].id == prev[i].id
            && exs[i].title == prev[i].title
            && exs[i].problems == prev[i].problems
            && exs[i].totalPossiblePoints == (if prev[i].id == exerciseId then points else prev[i].totalPossiblePoints))
      && (WellFormed(result.value) ==>
            forall i :: 0 <= i < |prev| && prev[i].id != exerciseId ==> exs[i] == prev[i])
  {
    if result.Some? {
      var prev := result.value.exercises;
      var exs := PointsChange(result, mem, exerciseId, points).result.value.exercises;
      if WellFormed(result.value) {
        forall i | 0 <= i < |prev| && prev[i].id != exerciseId
          ensures exs[i] == prev[i]
        {
          assert SameExceptScore(exs[i], SetPoints(prev, exerciseId, points)[i]);
          assert Consistent(prev[i]);
        }
      }
    }
  }

  /** A scale edit on a shown result writes the new scale under the title of
      the last exercise carrying the edited id when that title is non-empty,
      and leaves the memory alone when that title is empty (even if an
      earlier matching exercise has a title) or no exercise has the id. */
  lemma PointsChangeMemory(r: GradingResult, mem: PointMemory, exerciseId: int, points: int)
    ensures var prev := r.exercises;
      var e := PointsChange(Some(r), mem, exerciseId, points);
      && (forall i :: (0 <= i < |prev| && prev[i].id == exerciseId && prev[i].title != ""
            && forall j :: i < j < |prev| ==> prev[j].id != exerciseId) ==>
            e.memory == mem[prev[i].title := points])
      && (forall i :: (0 <= i < |prev| && prev[i].id == exerciseId && prev[i].title == ""
            && forall j :: i < j < |prev| ==> prev[j].id != exerciseId) ==>
            e.memory == mem)
      && ((forall i :: 0 <= i < |prev| && prev[i].id == exerciseId ==> prev[i].title == "") ==>
            e.memory == mem)
  {
  }

  /** Replacing one exercise changes the sum of scales by the difference. */
  lemma {:induction false} SumPointsReplace(exs: seq<Exercise>, k: nat, e: Exercise)
    requires k < |exs|
    ensures SumPoints(exs[k := e]) == SumPoints(exs) - exs[k].totalPossiblePoints + e.totalPossiblePoints
    decreases |exs|
  {
    var n := |exs| - 1;
    var u := exs[k := e];
    assert u[..n] == if k == n then exs[..n] else exs[..n][k := e];
    if k < n {
      SumPointsReplace(exs[..n], k, e);
    }
  }

  /** When the edited id belongs to exactly one exercise, the grand possible
      total moves by exactly the change of that exercise's scale. */
  lemma PointsChangeShiftsTotal(r: GradingResult, mem: PointMemory, k: nat, points: int)
    requires k < |r.exercises|
    requires forall i :: 0 <= i < |r.exercises| && i != k ==> r.exercises[i].id != r.exercises[k].id
    ensures var e := PointsChange(Some(r), mem, r.exercises[k].id, points);
      e.result.Some? &&
      e.result.value.totalPossiblePoints
        == SumPoints(r.exercises) - r.exercises[k].totalPossiblePoints + points
  {
    var exs := r.exercises;
    var id := exs[k].id;
    var edited := SetPoints(exs, id, points);
    assert edited == exs[k := exs[k].(totalPossiblePoints := points)];
    SumPointsReplace(exs, k, exs[k].(totalPossiblePoints := points));
  }

  /** A correction rewrites verdicts as `SetScoreFields` describes and then
      recomputes: the new result is consistent, agrees with the rewritten
      exercises on everything but the derived scores, exercises it does not
      target keep their scores, and no result stays no result. */
  lemma CorrectionContract(result: Option<GradingResult>, exerciseId: int, problemId: int, mark: Mark)
    ensures result.None? ==> Correction(result, exerciseId, problemId, mark).None?
    ensures result.Some? ==>
      var c := Correction(result, exerciseId, problemId, mark);
      && c.Some?
      && WellFormed(c.value)
      && SameShape(c.value.exercises, SetScore(result.value.exercises, exerciseId, problemId, mark))
    ensures result.Some? && WellFormed(result.value) ==>
      var prev := result.value.exercises;
      var exs := Correction(result, exerciseId, problemId, mark).value.exercises;
      forall i :: 0 <= i < |prev| && prev[i].id != exerciseId ==> exs[i] == prev[i]
  {
    if result.Some? && WellFormed(result.value) {
      var prev := result.value.exercises;
      var edited := SetScore(prev, exerciseId, problemId, mark);
      var exs := Correction(result, exerciseId, problemId, mark).value.exercises;
      forall i | 0 <= i < |prev| && prev[i].id != exerciseId
        ensures exs[i] == prev[i]
      {
        assert SameExceptScore(exs[i], edited[i]);
        assert Consistent(prev[i]);
      }
    }
  }

  /** The verdict override sets the score of exactly the matching problems of
      the matching exercises; ids, titles, scales, problem counts and every
      other problem field stay as they were. */
  lemma SetScoreFields(prev: seq<Exercise>, exerciseId: int, problemId: int, mark: Mark)
    ensures var edited := SetScore(prev, exerciseId, problemId, mark);
      && |edited| == |prev|
      && (forall i :: 0 <= i < |prev| ==>
            && edited[i].id == prev[i].id
            && edited[i].title == prev[i].title
            && edited[i].totalPossiblePoints == prev[i].totalPossiblePoints
            && |edited[i].problems| == |prev[i].problems|)
      && (forall i, j :: 0 <= i < |prev| && 0 <= j < |prev[i].problems| ==>
            var p := prev[i].problems[j];
            var q := edited[i].problems[j];
            && q.id == p.id && q.text == p.text && q.solution == p.solution && q.feedback == p.feedback
            && q.studentScore == (if prev[i].id == exerciseId && p.id == problemId then mark as real else p.studentScore))
  {
  }

  /** Corrections only ever write 0 or 1, so binary verdicts stay binary. */
  lemma CorrectionKeepsVerdictsBinary(r: GradingResult, exerciseId: int, problemId: int, mark: Mark)
    requires forall i, j :: 0 <= i < |r.exercises| && 0 <= j < |r.exercises[i].problems| ==>
      IsBinary(r.exercises[i].problems[j])
    ensures var c := Correction(Some(r), exerciseId, problemId, mark).value;
      forall i, j :: 0 <= i < |c.exercises| && 0 <= j < |c.exercises[i].problems| ==>
        IsBinary(c.exercises[i].problems[j])
  {
    CorrectionContract(Some(r), exerciseId, problemId, mark);
    SetScoreFields(r.exercises, exerciseId, problemId, mark);
  }

  /** Replacing one problem changes the correct count by the change of that
      problem's verdict. */
  lemma {:induction false} CountCorrectReplace(ps: seq<SubProblem>, k: nat, q: SubProblem)
    requires k < |ps|
    ensures CountCorrect(ps[k := q]) ==
      CountCorrect(ps) - (if ps[k].studentScore == 1.0 then 1 else 0) + (if q.studentScore == 1.0 then 1 else 0)
    decreases |ps|
  {
    var n := |ps| - 1;
    var u := ps[k := q];
    var last := if u[n].studentScore == 1.0 then 1 else 0;
    assert CountCorrect(u) == CountCorrect(u[..n]) + last;
    if k < n {
      assert u[..n] == ps[..n][k := q];
      assert u[n] == ps[n];
      CountCorrectReplace(ps[..n], k, q);
    } else {
      assert u[..n] == ps[..n];
    }
  }

  /** Marking correct a problem that was judged incorrect, where exercise and
      problem ids are unique, raises that exercise's correct count by one and
      leaves the number of problems alone. */
  lemma CorrectionCountsOneMore(r: GradingResult, k: nat, j: nat)
    requires k < |r.exercises| && j < |r.exercises[k].problems|
    requires forall i :: 0 <= i < |r.exercises| && i != k ==> r.exercises[i].id != r.exercises[k].id
    requires forall i :: 0 <= i < |r.exercises[k].problems| && i != j ==>
      r.exercises[k].problems[i].id != r.exercises[k].problems[j].id
    requires r.exercises[k].problems[j].studentScore != 1.0
    ensures var c := Correction(Some(r), r.exercises[k].id, r.exercises[k].problems[j].id, 1).value;
      && |c.exercises[k].problems| == |r.exercises[k].problems|
      && CountCorrect(c.exercises[k].problems) == CountCorrect(r.exercises[k].problems) + 1
  {
    var ex := r.exercises[k];
    var ps := ex.problems;
    var edited := SetScore(r.exercises, ex.id, ps[j].id, 1);
    assert SetProblemScore(ps, ps[j].id, 1) == ps[j := ps[j].(studentScore := 1.0)];
    CountCorrectReplace(ps, j, ps[j].(studentScore := 1.0));
    var c := Correction(Some(r), ex.id, ps[j].id, 1).value;
    assert SameExceptScore(c.exercises[k], edited[k]);
  }

  /** One exercise with one problem judged wrong on a 10-point scale: marking
      it correct gives the exercise and the grand total 10 points. */
  lemma CorrectionExample(p: SubProblem, ex: Exercise)
    requires p.studentScore == 0.0
    requires ex.problems == [p] && ex.totalPossiblePoints == 10
    ensures var c := Correction(Some(Recalculate([ex])), ex.id, p.id, 1).value;
      c.exercises[0].studentScore == 10.0 && c.totalScore == 10.0
  {
    var c := Correction(Some(Recalculate([ex])), ex.id, p.id, 1).value;
    var q := p.(studentScore := 1.0);
    assert c.exercises[0].problems == [q];
    assert [q][..0] == [];
    assert CountCorrect([q]) == 1;
    assert c.exercises[0].studentScore == 10.0;
    assert |c.exercises| == 1 && c.exercises[..0] == [];
    assert c.totalScore == SumScores(c.exercises[..0]) + c.exercises[0].studentScore;
  }
}
