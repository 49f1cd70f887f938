/** Data shapes of a grading session: the sub-problems and exercises the
    grading service returns, the scored result the teacher reviews, the four
    phases of the workflow and the uploaded image files. */
module Types {

  /** The conventional Some/None datatype, used for the nullable values of a
      session (the current result, the error and notification slots). */
  datatype Option<+T> = None | Some(value: T)

  /** One question inside an exercise. `studentScore` is the number the
      grading service reported; it is meant to be 1 (correct) or 0
      (incorrect), but nothing on the service side enforces that. */
  datatype SubProblem = SubProblem(
    id: int,
    text: string,
    solution: string,
    studentScore: real,
    feedback: string)

  /** The score a review correction may assign: 0 or 1 only. */
  type Mark = m: int | m == 0 || m == 1

  /** True when a sub-problem carries one of the two intended outcomes. */
  predicate IsBinary(p: SubProblem) {
    p.studentScore == 0.0 || p.studentScore == 1.0
  }

  /** A top-level exercise. `totalPossiblePoints` is the teacher's point
      scale (an integer that may be zero or negative, since it comes from an
      integer text field); `studentScore` is derived by the scoring engine. */
  datatype Exercise = Exercise(
    id: int,
    title: string,
    totalPossiblePoints: int,
    studentScore: real,
    problems: seq<SubProblem>)

  /** Scored exercises together with the two grand totals. */
  datatype GradingResult = GradingResult(
    totalScore: real,
    totalPossiblePoints: int,
    exercises: seq<Exercise>)

  /** An exercise as the grading service returns it: its JSON schema has an
      id, a title and the graded problems, but no point scale and no score. */
  datatype RawExercise = RawExercise(
    id: int,
    title: string,
    problems: seq<SubProblem>)

  /** The four phases of a grading session, and no others. */
  datatype Phase = UploadExam | UploadStudentWork | Grading | ShowResults

  /** An uploaded image as far as the session sees it: only its name and size
      take part, because two files are the same upload exactly when those
      agree, and nothing else of a file is read before it is sent away. */
  datatype File = File(name: string, size: int)

  /** The key under which uploads are de-duplicated. */
  function Key(f: File): (string, int) {
    (f.name, f.size)
  }

  /** Title-to-point-scale memory carried across grading passes of one exam. */
  type PointMemory = map<string, int>
}
