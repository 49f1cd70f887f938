/** The grading session: the four-phase workflow (exam pages, student pages,
    grading, review), the transitions between phases, the handlers that the
    screen of each phase offers, and the invariant that every reachable
    session keeps. The asynchronous call to the grading service is split into
    a start (guards, then the busy phase) and a finish carrying the
    service's outcome. */
module Session {
  import opened Types
  import opened Scoring
  import opened Memory
  import opened Review
  import opened Uploads

  const MissingExamError: string := "Vui lòng tải lên ảnh đề bài gốc."
  const MissingStudentWorkError: string := "Vui lòng tải lên bài làm của học sinh."
  const GradingFailedError: string := "Đã có lỗi xảy ra khi chấm bài."
  const RememberedNotice: string := "Đã áp dụng thang điểm đã ghi nhớ từ lần chấm trước."

  /** Everything the session holds. The loading flag of the screen is not a
      separate field: it is raised exactly while the phase is Grading. */
  datatype Session = Session(
    phase: Phase,
    examFiles: seq<File>,
    studentWorkFiles: seq<File>,
    result: Option<GradingResult>,
    error: Option<string>,
    notification: Option<string>,
    memory: PointMemory)

  /** How the grading request ended:
      - `Succeeded`: the service returned exercises that all carry a problem
        list;
      - `Failed`: the service call threw, carrying the thrown error's
        message (None when what was thrown was not an error object, in which
        case a fixed message is shown);
      - `Malformed`: the service returned exercises of which at least one
        has no problem list. The scales are merged and the memory written
        before scoring reads that missing list and throws a runtime error
        with the given message. The problems of the listed exercises play no
        part in what happens. */
  datatype GradingOutcome =
    | Succeeded(exercises: seq<RawExercise>)
    | Failed(message: Option<string>)
    | Malformed(exercises: seq<RawExercise>, error: string)

  function Initial(): Session {
    Session(UploadExam, [], [], None, None, None, map[])
  }

  /** The start of a grading request: refuse with the exam error when there
      are no exam pages, else with the student error when there are no
      student pages, else clear both message slots and become busy. */
  function StartGrading(s: Session): (r: Session)
    ensures |s.examFiles| == 0 ==>
      r == s.(error := Some(MissingExamError))
    ensures |s.examFiles| > 0 && |s.studentWorkFiles| == 0 ==>
      r == s.(error := Some(MissingStudentWorkError))
    ensures |s.examFiles| > 0 && |s.studentWorkFiles| > 0 ==>
      r.phase == Grading && r.error.None? && r.notification.None?
    ensures r.examFiles == s.examFiles && r.studentWorkFiles == s.studentWorkFiles
    ensures r.memory == s.memory && r.result == s.result
  {
    if |s.examFiles| == 0 then s.(error := Some(MissingExamError))
    else if |s.studentWorkFiles| == 0 then s.(error := Some(MissingStudentWorkError))
    else s.(error := None, notification := None, phase := Grading)
  }

  /** The end of a grading request. On success the returned exercises take
      their scales from the memory, the memory learns every returned title,
      the scores are computed and the review phase begins, with the notice
      raised when some scale was remembered. On failure the session returns
      to the student-pages phase with the error shown. On a malformed reply
      the memory learns the returned titles just as on success, and then the
      session fails like a thrown call. Files are kept in every case. */
  function FinishGrading(s: Session, outcome: GradingOutcome): (r: Session)
    ensures r.examFiles == s.examFiles && r.studentWorkFiles == s.studentWorkFiles
    ensures outcome.Succeeded? ==>
      var m := MergeWithMemory(outcome.exercises, s.memory);
      && r.phase == ShowResults
      && r.result == Some(Recalculate(m.exercises))
      && r.memory == m.memory
      && r.error == s.error
      && (m.remembered ==> r.notification == Some(RememberedNotice))
      && (!m.remembered ==> r.notification == s.notification)
    ensures outcome.Failed? ==>
      && r.phase == UploadStudentWork
      && r.error == Some(if outcome.message.Some? then outcome.message.value else GradingFailedError)
      && r.result == s.result && r.memory == s.memory && r.notification == s.notification
    ensures outcome.Malformed? ==>
      && r.phase == UploadStudentWork
      && r.error == Some(outcome.error)
      && r.memory == MergeWithMemory(outcome.exercises, s.memory).memory
      && r.result == s.result && r.notification == s.notification
  {
    match outcome
    case Succeeded(raws) =>
      var m := MergeWithMemory(raws, s.memory);
      s.(memory := m.memory,
         result := Some(Recalculate(m.exercises)),
         notification := if m.remembered then Some(RememberedNotice) else s.notification,
         phase := ShowResults)
    case Failed(msg) =>
      s.(error := Some(if msg.Some? then msg.value else GradingFailedError),
         phase := UploadStudentWork)
    case Malformed(raws, msg) =>
      s.(memory := MergeWithMemory(raws, s.memory).memory,
         error := Some(msg),
         phase := UploadStudentWork)
  }

  /** A scale edit on the displayed result. */
  function ChangePoints(s: Session, exerciseId: int, points: int): (r: Session)
    ensures r.phase == s.phase && r.examFiles == s.examFiles && r.studentWorkFiles == s.studentWorkFiles
    ensures r.error == s.error && r.notification == s.notification
    ensures r.result.Some? <==> s.result.Some?
    ensures r.result.Some? ==> WellFormed(r.result.value)
  {
    var e := PointsChange(s.result, s.memory, exerciseId, points);
    s.(result := e.result, memory := e.memory)
  }

  /** A verdict override on the displayed result. */
  function CorrectProblem(s: Session, exerciseId: int, problemId: int, mark: Mark): (r: Session)
    ensures r.phase == s.phase && r.examFiles == s.examFiles && r.studentWorkFiles == s.studentWorkFiles
    ensures r.error == s.error && r.notification == s.notification && r.memory == s.memory
    ensures r.result.Some? <==> s.result.Some?
    ensures r.result.Some? ==> WellFormed(r.result.value)
  {
    s.(result := Correction(s.result, exerciseId, problemId, mark))
  }

  /** Start over with another student of the same exam: the student pages,
      the result and both message slots go; the exam pages and the point
      memory stay. */
  function GradeAnotherStudent(s: Session): (r: Session)
    ensures r.phase == UploadStudentWork
    ensures r.examFiles == s.examFiles && r.memory == s.memory
    ensures r.studentWorkFiles == [] && r.result.None?
    ensures r.error.None? && r.notification.None?
  {
    s.(studentWorkFiles := [], result := None, error := None, notification := None,
       phase := UploadStudentWork)
  }

  /** Start over with a new exam: everything goes, the point memory too. */
  function GradeNewExam(s: Session): (r: Session)
    ensures r == Initial()
    ensures forall t :: t !in r.memory
  {
    s.(phase := UploadExam, examFiles := [], studentWorkFiles := [], result := None,
       error := None, notification := None, memory := map[])
  }

  /** What the operator can do. Each alternative is one handler of the
      screen. */
  datatype Event =
    | SelectExamFiles(files: seq<File>)
    | RemoveExamFile(index: int)
    | ClearExamFiles
    | ContinueToStudentWork
    | BackToExam
    | SelectStudentWorkFiles(files: seq<File>)
    | RemoveStudentWorkFile(index: int)
    | ClearStudentWorkFiles
    | Grade
    | GradingFinished(outcome: GradingOutcome)
    | EditPoints(exerciseId: int, points: int)
    | Correct(exerciseId: int, problemId: int, mark: Mark)
    | AnotherStudent
    | NewExam

  /** Whether the screen of the current phase can deliver the event: the
      exam screen has its collection handlers and, once there is an exam
      page, the continue button; the student screen has the back link, its
      collection handlers and, once there is a student page, the grade
      button; the busy screen only awaits the service; the review screen has
      edits and the two restarts while a result is shown. This allows a
      superset of what the screen offers: any ids in an edit, a verdict
      equal to the current one (whose button is disabled), and removal
      indices outside the list. */
  predicate Enabled(s: Session, e: Event) {
    match e
    case SelectExamFiles(_) => s.phase == UploadExam
    case RemoveExamFile(_) => s.phase == UploadExam
    case ClearExamFiles => s.phase == UploadExam
    case ContinueToStudentWork => s.phase == UploadExam && |s.examFiles| > 0
    case BackToExam => s.phase == UploadStudentWork
    case SelectStudentWorkFiles(_) => s.phase == UploadStudentWork
    case RemoveStudentWorkFile(_) => s.phase == UploadStudentWork
    case ClearStudentWorkFiles => s.phase == UploadStudentWork
    case Grade => s.phase == UploadStudentWork && |s.studentWorkFiles| > 0
    case GradingFinished(_) => s.phase == Grading
    case EditPoints(_, _) => s.phase == ShowResults && s.result.Some?
    case Correct(_, _, _) => s.phase == ShowResults && s.result.Some?
    case AnotherStudent => s.phase == ShowResults && s.result.Some?
    case NewExam => s.phase == ShowResults && s.result.Some?
  }

  /** The handler behind each event. */
  function Apply(s: Session, e: Event): Session {
    match e
    case SelectExamFiles(files) => s.(examFiles := AddFiles(s.examFiles, files))
    case RemoveExamFile(i) => s.(examFiles := RemoveAt(s.examFiles, i))
    case ClearExamFiles => s.(examFiles := [])
    case ContinueToStudentWork => s.(phase := UploadStudentWork)
    case BackToExam => s.(phase := UploadExam)
    case SelectStudentWorkFiles(files) => s.(studentWorkFiles := AddFiles(s.studentWorkFiles, files))
    case RemoveStudentWorkFile(i) => s.(studentWorkFiles := RemoveAt(s.studentWorkFiles, i))
    case ClearStudentWorkFiles => s.(studentWorkFiles := [])
    case Grade => StartGrading(s)
    case GradingFinished(outcome) => FinishGrading(s, outcome)
    case EditPoints(id, points) => ChangePoints(s, id, points)
    case Correct(eid, pid, mark) => CorrectProblem(s, eid, pid, mark)
    case AnotherStudent => GradeAnotherStudent(s)
    case NewExam => GradeNewExam(s)
  }

  /** One operator action: an event the current screen does not offer
      changes nothing. */
  function Step(s: Session, e: Event): Session {
    if Enabled(s, e) then Apply(s, e) else s
  }

  /** A sequence of operator actions, in order. */
  function Run(s: Session, es: seq<Event>): Session
    decreases |es|
  {
    if |es| == 0 then s else Run(Step(s, es[0]), es[1..])
  }

  /** What holds of every session the operator can reach: no collection has
      two files with the same key; the student screen and everything after
      it have exam pages; the busy and review phases have student pages; the
      busy phase starts with both message slots clear; a result is held
      exactly in the review phase; and a held result's scores are the ones
      its problems and scales give. */
  predicate Inv(s: Session) {
    && DistinctKeys(s.examFiles)
    && DistinctKeys(s.studentWorkFiles)
    && (s.phase != UploadExam ==> |s.examFiles| > 0)
    && (s.phase == Grading || s.phase == ShowResults ==> |s.studentWorkFiles| > 0)
    && (s.phase == Grading ==> s.error.None? && s.notification.None?)
    && (s.result.Some? <==> s.phase == ShowResults)
    && (s.result.Some? ==> WellFormed(s.result.value))
  }

  lemma InitialSatisfiesInv()
    ensures Inv(Initial())
    ensures Initial().phase == UploadExam && Initial().memory == map[]
  {
  }

  /** Every operator action keeps the invariant. */
  lemma StepPreservesInv(s: Session, e: Event)
    requires Inv(s)
    ensures Inv(Step(s, e))
  {
    if Enabled(s, e) {
      match e
      case SelectExamFiles(files) => KeepFirstContract(s.examFiles + files);
      case SelectStudentWorkFiles(files) => KeepFirstContract(s.studentWorkFiles + files);
      case RemoveExamFile(i) => RemoveKeepsDistinct(s.examFiles, i);
      case RemoveStudentWorkFile(i) => RemoveKeepsDistinct(s.studentWorkFiles, i);
      case _ =>
    }
  }

  /** Every sequence of actions from a session that keeps the invariant
      keeps it, so every session reachable from the initial one does. */
  lemma {:induction false} RunPreservesInv(s: Session, es: seq<Event>)
    requires Inv(s)
    ensures Inv(Run(s, es))
    decreases |es|
  {
    if |es| > 0 {
      StepPreservesInv(s, es[0]);
      RunPreservesInv(Step(s, es[0]), es[1..]);
    }
  }

  /** From any reachable session the grade button, when shown, always gets
      past both guards: the validation errors cannot fire through the
      screen. */
  lemma GradeButtonPassesGuards(s: Session)
    requires Inv(s)
    requires Enabled(s, Grade)
    ensures Step(s, Grade).phase == Grading
    ensures Step(s, Grade).error.None?
  {
  }

  /** Selecting a non-empty batch leaves a non-empty collection. */
  lemma AddFilesNonEmpty(prev: seq<File>, added: seq<File>)
    requires |added| > 0
    ensures |AddFiles(prev, added)| > 0
  {
    assert Key(added[0]) in KeysOf(prev + added) by {
      assert (prev + added)[|prev|] == added[0];
    }
    KeepFirstContract(prev + added);
  }

  /** An offered event runs its handler. */
  lemma StepWhenEnabled(s: Session, e: Event)
    requires Enabled(s, e)
    ensures Step(s, e) == Apply(s, e)
  {
  }

  /** Running two sequences one after the other is running their
      concatenation. */
  lemma {:induction false} RunAppend(s: Session, a: seq<Event>, b: seq<Event>)
    ensures Run(s, a + b) == Run(Run(s, a), b)
    decreases |a|
  {
    if |a| == 0 {
      assert a + b == b;
    } else {
      assert (a + b)[0] == a[0];
      assert (a + b)[1..] == a[1..] + b;
      RunAppend(Step(s, a[0]), a[1..], b);
    }
  }

  /** One more action at the end of a run. */
  lemma RunSnoc(s: Session, a: seq<Event>, e: Event)
    ensures Run(s, a + [e]) == Step(Run(s, a), e)
  {
    RunAppend(s, a, [e]);
    assert [e][1..] == [];
  }

  /** Five actions in a row, each taken from the state the previous left. */
  lemma RunFive(s: Session, e0: Event, e1: Event, e2: Event, e3: Event, e4: Event)
    ensures Run(s, [e0, e1, e2, e3, e4]) == Step(Step(Step(Step(Step(s, e0), e1), e2), e3), e4)
  {
    RunSnoc(s, [], e0);
    RunSnoc(s, [e0], e1);
    RunSnoc(s, [e0, e1], e2);
    RunSnoc(s, [e0, e1, e2], e3);
    RunSnoc(s, [e0, e1, e2, e3], e4);
    assert [] + [e0] == [e0];
    assert [e0] + [e1] == [e0, e1];
    assert [e0, e1] + [e2] == [e0, e1, e2];
    assert [e0, e1, e2] + [e3] == [e0, e1, e2, e3];
    assert [e0, e1, e2, e3] + [e4] == [e0, e1, e2, e3, e4];
  }

  /** A scale edit under a non-empty title, followed by another student,
      leaves the new scale in the memory and the exam pages in place on the
      student screen. */
  lemma EditThenAnotherStudent(s: Session, k: nat, points: int)
    requires s.phase == ShowResults && s.result.Some?
    requires k < |s.result.value.exercises|
    requires var exs := s.result.value.exercises;
      exs[k].title != "" && forall i :: k < i < |exs| ==> exs[i].id != exs[k].id
    ensures var exs := s.result.value.exercises;
      var s2 := Step(Step(s, EditPoints(exs[k].id, points)), AnotherStudent);
      && s2.phase == UploadStudentWork && s2.examFiles == s.examFiles
      && exs[k].title in s2.memory && s2.memory[exs[k].title] == points
  {
    var exs := s.result.value.exercises;
    var s1 := ChangePoints(s, exs[k].id, points);
    StepWhenEnabled(s, EditPoints(exs[k].id, points));
    PointsChangeMemory(s.result.value, s.memory, exs[k].id, points);
    assert s1.memory == s.memory[exs[k].title := points];
    StepWhenEnabled(s1, AnotherStudent);
  }

  /** Selecting pages and grading from the student screen with exam pages
      present reaches the review phase with the merge of the returned
      exercises against the memory held before. */
  lemma SelectGradeFinish(s: Session, pages: seq<File>, raws: seq<RawExercise>)
    requires s.phase == UploadStudentWork && |s.examFiles| > 0 && |pages| > 0
    ensures var s1 := Step(s, SelectStudentWorkFiles(pages));
      var s2 := Step(s1, Grade);
      var s3 := Step(s2, GradingFinished(Succeeded(raws)));
      var m := MergeWithMemory(raws, s.memory);
      && s2.phase == Grading && s2.notification.None?
      && s3.phase == ShowResults
      && s3.result == Some(Recalculate(m.exercises))
      && s3.memory == m.memory
      && s3.notification == (if m.remembered then Some(RememberedNotice) else None)
  {
    AddFilesNonEmpty(s.studentWorkFiles, pages);
  }

  /** Grading again from the student screen, with a title's scale in the
      memory, gives a returned exercise of that title that scale and raises
      the notice. */
  lemma GradingAgainUsesMemory(s: Session, pages: seq<File>, raws: seq<RawExercise>, j: nat, points: int)
    requires s.phase == UploadStudentWork && |s.examFiles| > 0 && |pages| > 0
    requires j < |raws| && raws[j].title in s.memory && s.memory[raws[j].title] == points
    ensures var s3 := Step(Step(Step(s, SelectStudentWorkFiles(pages)), Grade), GradingFinished(Succeeded(raws)));
      && s3.phase == ShowResults
      && s3.result.Some?
      && |s3.result.value.exercises| == |raws|
      && s3.result.value.exercises[j].totalPossiblePoints == points
      && s3.notification == Some(RememberedNotice)
  {
    SelectGradeFinish(s, pages, raws);
    var m := MergeWithMemory(raws, s.memory);
    assert m.remembered;
    assert m.exercises[j].totalPossiblePoints == points;
    assert SameShape(Recalculate(m.exercises).exercises, m.exercises);
  }

  /** The remembered scale reaches the next student: after the teacher sets
      an exercise's scale during review, starts another student, selects
      pages and grades again, a returned exercise with the same title gets
      that scale and the notice is raised. */
  lemma ScaleRememberedForNextStudent(
    s: Session, k: nat, points: int, pages: seq<File>, raws: seq<RawExercise>, j: nat)
    requires s.phase == ShowResults && s.result.Some? && |s.examFiles| > 0
    requires k < |s.result.value.exercises|
    requires var exs := s.result.value.exercises;
      exs[k].title != "" && forall i :: k < i < |exs| ==> exs[i].id != exs[k].id
    requires |pages| > 0
    requires j < |raws| && raws[j].title == s.result.value.exercises[k].title
    ensures var exs := s.result.value.exercises;
      var s5 := Run(s, [EditPoints(exs[k].id, points), AnotherStudent,
                        SelectStudentWorkFiles(pages), Grade, GradingFinished(Succeeded(raws))]);
      && s5.phase == ShowResults
      && s5.result.Some?
      && |s5.result.value.exercises| == |raws|
      && s5.result.value.exercises[j].totalPossiblePoints == points
      && s5.notification == Some(RememberedNotice)
  {
    var exs := s.result.value.exercises;
    EditThenAnotherStudent(s, k, points);
    var s2 := Step(Step(s, EditPoints(exs[k].id, points)), AnotherStudent);
    GradingAgainUsesMemory(s2, pages, raws, j, points);
    RunFive(s, EditPoints(exs[k].id, points), AnotherStudent,
            SelectStudentWorkFiles(pages), Grade, GradingFinished(Succeeded(raws)));
  }

  /** A new exam followed by exam pages and the continue button reaches the
      student screen with exam pages and an empty memory. */
  lemma NewExamThenContinue(s: Session, exam: seq<File>)
    requires s.phase == ShowResults && s.result.Some?
    requires |exam| > 0
    ensures var s3 := Step(Step(Step(s, NewExam), SelectExamFiles(exam)), ContinueToStudentWork);
      s3.phase == UploadStudentWork && |s3.examFiles| > 0 && s3.memory == map[]
  {
    StepWhenEnabled(s, NewExam);
    AddFilesNonEmpty([], exam);
  }

  /** A new exam forgets every scale: the first grading pass of the new
      exam gives every exercise the default scale and raises no notice. */
  lemma NewExamForgetsScales(s: Session, exam: seq<File>, pages: seq<File>, raws: seq<RawExercise>)
    requires s.phase == ShowResults && s.result.Some?
    requires |exam| > 0 && |pages| > 0
    ensures var s5 := Run(s, [NewExam, SelectExamFiles(exam), ContinueToStudentWork,
                              SelectStudentWorkFiles(pages), Grade]);
      var s6 := Step(s5, GradingFinished(Succeeded(raws)));
      && s6.phase == ShowResults
      && s6.notification.None?
      && s6.result.Some?
      && |s6.result.value.exercises| == |raws|
      && forall i :: 0 <= i < |raws| ==> s6.result.value.exercises[i].totalPossiblePoints == DefaultPoints
  {
    NewExamThenContinue(s, exam);
    var s3 := Step(Step(Step(s, NewExam), SelectExamFiles(exam)), ContinueToStudentWork);
    SelectGradeFinish(s3, pages, raws);
    var m := MergeWithMemory(raws, map[]);
    assert !m.remembered;
    assert SameShape(Recalculate(m.exercises).exercises, m.exercises);
    RunFive(s, NewExam, SelectExamFiles(exam), ContinueToStudentWork,
            SelectStudentWorkFiles(pages), Grade);
  }

  /** A grading pass whose service call threw returns to the student screen
      with the error shown and both collections and the memory as they
      were. */
  lemma FailureKeepsUploads(s: Session, msg: Option<string>)
    requires Inv(s) && s.phase == Grading
    ensures var r := Step(s, GradingFinished(Failed(msg)));
      && r.phase == UploadStudentWork
      && r.error.Some?
      && r.examFiles == s.examFiles && r.studentWorkFiles == s.studentWorkFiles
      && r.memory == s.memory && r.result.None?
  {
  }

  /** A reply with an exercise lacking its problem list still fails, but
      only after the memory was written: every returned title now maps to
      the scale it was given (the remembered one, else the default), every
      other entry is kept, and no result and no notice are shown. */
  lemma MalformedReplyStillRemembers(s: Session, raws: seq<RawExercise>, msg: string)
    requires Inv(s) && s.phase == Grading
    ensures var r := Step(s, GradingFinished(Malformed(raws, msg)));
      && r.phase == UploadStudentWork
      && r.error == Some(msg)
      && r.examFiles == s.examFiles && r.studentWorkFiles == s.studentWorkFiles
      && r.result.None? && r.notification.None?
      && (forall i :: 0 <= i < |raws| ==>
            raws[i].title in r.memory && r.memory[raws[i].title] == ScaleFor(s.memory, raws[i].title))
      && (forall t :: t in s.memory && t !in Titles(ApplyMemory(raws, s.memory)) ==>
            t in r.memory && r.memory[t] == s.memory[t])
  {
    MergeWithMemoryContract(raws, s.memory);
  }
}
