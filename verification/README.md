# Grading session model

A Dafny model of the grading workflow of a single-screen web app that
grades handwritten student work. The teacher uploads the exam pages, then a
student's pages; an external AI service returns the graded exercises; the
app assigns each exercise a point scale, computes the scores, and lets the
teacher adjust scales and override verdicts before moving on to the next
student or to a new exam. Scales the teacher chose are remembered by
exercise title and reused for later students of the same exam.

The model has six modules:

- `Types`: the data shapes of `types.ts`. Sub-problems, exercises and
  results; the four phases; uploaded files as the app sees them; the point
  memory as a map from title to scale.
- `Scoring`: the score reconciliation engine (`recalculateScores`).
  - An exercise scores `(correct / total) * scale`, or 0 when it has no
    problems.
  - Both grand totals are sums over all exercises.
  - A result is `WellFormed` when every stored score and both totals are
    the ones its problems and scales give.
- `Memory`: what a successful grading pass does with the point memory. It
  applies remembered scales (default 10), records every returned title, and
  decides whether the "scale remembered" notice is shown.
- `Review`: the two review edits, a scale change and a verdict override.
  Each is followed by a full recomputation.
- `Uploads`: the exam-page and student-page collections. A selection is
  appended and de-duplicated on (name, size), keeping the first occurrence;
  a removal drops one position. Both handlers appear twice: as the source's
  loops (methods) and as a reference definition (functions).
- `Session`: the whole state machine.
  - The handlers of each phase's screen, and which events each screen can
    deliver (`Enabled`). This is a superset of what the screen shows: edits
    may name any id, a verdict may equal the current one, and a removal
    index may lie outside the list.
  - One operator action (`Step`) and a sequence of actions (`Run`).
  - The invariant every reachable session keeps.
  - End-to-end scenarios, such as a remembered scale reaching the next
    student and a new exam forgetting every scale.

Behaviour of the code that the model keeps as written:

- A point scale is any integer, zero and negative included, because the
  scale field parses the input text and falls back to 0. A negative scale
  gives a non-positive score (`Scoring.ExerciseScoreBounds`).
- The service's per-problem score is a plain number. Only a score of
  exactly 1 counts as correct. Nothing forces scores from the service to be
  0 or 1; only corrections are limited to 0 and 1.
- `handleGrade` itself has no phase guard. Only the screen stops it from
  running twice: the grade button is shown only on the student screen, and
  during grading the spinner replaces the whole screen. The model puts that
  gating in `Session.Enabled`. It then proves that from any reachable
  session the two validation errors cannot fire through the screen.
- A scale edit writes the memory under the title of the last exercise
  carrying the edited id. When that title is empty, nothing is written.

## Model

| member | source | states |
|---|---|---|
| Scoring.CountCorrect | App.tsx:95 | the number of problems scored exactly 1 never exceeds the number of problems |
| Scoring.CountCorrectExtremes | App.tsx:95 | the count is 0 exactly when no problem scores 1, and equals the number of problems exactly when every problem scores 1 |
| Scoring.Recalculate | App.tsx:85-109 | the recomputed result is well-formed (every stored score and both totals follow from problems and scales) and agrees with the input exercises on everything but the derived scores |
| Scoring.RecalculateScores | App.tsx:85-109 | the source's single accumulating pass returns exactly the reference recomputation, hence a well-formed result of the same shape |
| Scoring.RecalculateIsUnique | App.tsx:85-109 | any well-formed result over the same exercises is the recomputed one, so the derived fields carry no information of their own |
| Scoring.RecalculateIdempotent | App.tsx:85-109 | recomputing a recomputed result changes nothing |
| Scoring.RecalculateOfConsistent | App.tsx:85-109 | recomputing exercises whose stored scores are already consistent keeps those exercises unchanged |
| Scoring.SumPointsOfSameShape | App.tsx:92-99 | exercise lists that differ only in derived scores have the same total of scales |
| Scoring.ExerciseScoreBounds | App.tsx:95-96 | an exercise's score lies between 0 and its scale, on whichever side of 0 the scale is |
| Scoring.AllCorrectEarnsFullScale | App.tsx:95-96 | a non-empty exercise with every problem correct earns exactly its scale |
| Scoring.NoneCorrectEarnsNothing | App.tsx:95-96 | an exercise with no correct problem earns 0 |
| Scoring.SumScoresAppend | App.tsx:98 | the score total of two concatenated lists is the sum of their totals |
| Scoring.SumPointsAppend | App.tsx:92-99 | the scale total of two concatenated lists is the sum of their totals |
| Scoring.EmptyExerciseStillCounts | App.tsx:90-93 | appending an exercise without problems gives it score 0, leaves the score total unchanged and adds its scale to the possible total |
| Scoring.ThreeOfFourAtTenIsSevenAndAHalf | App.tsx:95-101 | three of four correct on a 10-point exercise scores 7.5, with totals 7.5 and 10 |
| Memory.ApplyMemory | App.tsx:129-139 | each fresh exercise keeps id, title and problems, starts at score 0, and takes the remembered scale for its title or 10 when the title is unknown |
| Memory.AnyRemembered | App.tsx:128-133 | the notice flag is raised exactly when some returned title is in the memory |
| Memory.RememberAll | App.tsx:141-144 | the new memory's titles are the old ones plus the returned ones, and entries for other titles are untouched |
| Memory.RememberAllRecordsScales | App.tsx:141-144 | when exercises sharing a title share a scale, every returned title maps to its exercise's scale afterwards |
| Memory.ApplyMemoryScalesAgree | App.tsx:130-136 | fresh exercises with the same title get the same scale |
| Memory.MergeWithMemoryContract | App.tsx:128-151 | after a successful pass every returned title maps to its exercise's scale, every other entry is kept, the key set is the union, and the notice is raised exactly when a title was known |
| Memory.RememberedScalesReapply | App.tsx:128-145 | grading the same exercises again against the memory a pass left reproduces that pass's scales and raises the notice |
| Review.EditedTitle | App.tsx:166-175 | the title recorded by a scale edit is the title of the last exercise with the edited id, or empty when no exercise has that id |
| Review.PointsChangeContract | App.tsx:162-186 | with no result nothing changes; otherwise exactly the exercises with the id take the new scale, ids, titles and problems are kept, the result is well-formed, and untargeted exercises of a well-formed result stay equal |
| Review.PointsChangeMemory | App.tsx:177-182 | the memory gains the new scale under the last matching exercise's title when it is non-empty, and is left alone when that title is empty or no exercise has the id |
| Review.SumPointsReplace | App.tsx:99 | replacing one exercise moves the scale total by the difference of the two scales |
| Review.PointsChangeShiftsTotal | App.tsx:167-184 | when the edited id is unique, the possible total moves by exactly the change of that exercise's scale |
| Review.CorrectionContract | App.tsx:188-206 | with no result nothing changes; otherwise the result is well-formed, matches the verdict rewrite on everything but derived scores, and untargeted exercises of a well-formed result stay equal |
| Review.SetScoreFields | App.tsx:192-203 | the verdict rewrite sets the score of exactly the matching problems of the matching exercises, and every other field and count stays as it was |
| Review.CorrectionKeepsVerdictsBinary | App.tsx:188-196 | when every verdict is 0 or 1 before a correction, every verdict is 0 or 1 after it |
| Review.CountCorrectReplace | App.tsx:95 | replacing one problem moves the correct count by the change of that problem's verdict |
| Review.CorrectionCountsOneMore | App.tsx:192-205 | marking correct a problem judged wrong, with unique ids, raises that exercise's correct count by one |
| Review.CorrectionExample | App.tsx:188-206 | one wrong problem on a 10-point exercise, marked correct, gives the exercise and the total 10 |
| Uploads.FindIndex | App.tsx:51 | the first position holding the key, or -1 exactly when no entry has the key |
| Uploads.KeyInPrefix | App.tsx:50-51 | an entry's key occurs earlier exactly when the first index with that key lies before the entry |
| Uploads.KeepFirstExtend | App.tsx:50-51 | taking one more entry into the de-duplication keeps it exactly when its own index is the first index with its key |
| Uploads.KeepFirstContract | App.tsx:49-52 | de-duplication leaves no two entries with one key, loses no key and keeps only entries of the input |
| Uploads.SelectFiles | App.tsx:47-55 | the source's filter with first-index test computes the reference de-duplication of the combined list |
| Uploads.RemoveFile | App.tsx:57-59 | dropping an in-range index shifts the later entries down by one and keeps the earlier ones; an out-of-range index removes nothing |
| Uploads.KeepFirstOfDistinct | App.tsx:49-52 | a collection with distinct keys is its own de-duplication |
| Uploads.AddFilesKeepsExisting | App.tsx:47-55 | a selection keeps the existing entries in front, in order, and adds only entries with new keys after them |
| Uploads.AddKnownKeysIsNoop | App.tsx:47-55 | re-selecting files whose keys are all present changes nothing |
| Uploads.AddNewKeyAppends | App.tsx:47-55 | a file with a new key is appended at the end |
| Uploads.SelectingTwiceKeepsOne | App.tsx:66-74 | selecting the same file twice gives the same collection as selecting it once, with exactly one entry of its key |
| Uploads.RemoveKeepsDistinct | App.tsx:76-78 | removing an entry keeps the keys distinct |
| Session.StartGrading | App.tsx:111-124 | no exam pages gives the exam error and nothing else; exam pages but no student pages gives the student error; both present clears both message slots and enters grading; files, memory and result are kept |
| Session.FinishGrading | App.tsx:125-159 | success enters review with the recomputed merge, the updated memory and the notice when a scale was remembered; a thrown call returns to the student screen with the thrown message or the fixed one; a reply with an exercise lacking its problem list writes the merged memory and then fails with the runtime error; files are kept in every case |
| Session.ChangePoints | App.tsx:162-186 | a scale edit keeps phase, files and message slots, keeps a result present or absent, and leaves a well-formed result |
| Session.CorrectProblem | App.tsx:188-207 | a correction keeps phase, files, message slots and memory, and leaves a well-formed result when there is one |
| Session.GradeAnotherStudent | App.tsx:209-217 | another student returns to the student screen with no student pages, no result and clear messages, keeping the exam pages and the memory |
| Session.GradeNewExam | App.tsx:219-230 | a new exam returns to the initial session, with an empty point memory |
| Session.InitialSatisfiesInv | App.tsx:11-19 | the initial session is on the exam screen with an empty memory and satisfies the session invariant |
| Session.StepPreservesInv | App.tsx:232-298 | every offered action keeps the invariant: distinct keys, pages present where the phase needs them, a result exactly in review, and that result well-formed |
| Session.RunPreservesInv | App.tsx:232-330 | every sequence of actions from a session satisfying the invariant keeps it |
| Session.GradeButtonPassesGuards | App.tsx:285-293 | from a reachable session, pressing the grade button always enters grading with no error |
| Session.AddFilesNonEmpty | App.tsx:47-55 | selecting a non-empty batch leaves a non-empty collection |
| Session.EditThenAnotherStudent | App.tsx:162-217 | a scale edit under a non-empty title followed by another student leaves the new scale in the memory and the exam pages in place |
| Session.SelectGradeFinish | App.tsx:111-153 | selecting pages, grading and succeeding reaches review with the merge of the returned exercises against the memory held before |
| Session.GradingAgainUsesMemory | App.tsx:128-151 | grading from the student screen with a title's scale remembered gives the returned exercise of that title that scale and raises the notice |
| Session.ScaleRememberedForNextStudent | App.tsx:128-186 | a scale set during review reaches the next student's exercise of the same title, with the notice raised |
| Session.NewExamThenContinue | App.tsx:219-258 | a new exam, exam pages and the continue button reach the student screen with exam pages and an empty memory |
| Session.NewExamForgetsScales | App.tsx:229 | the first grading pass of a new exam gives every exercise the default scale and raises no notice |
| Session.FailureKeepsUploads | App.tsx:154-156 | a pass whose service call threw returns to the student screen with an error, keeping both collections and the memory and holding no result |
| Session.MalformedReplyStillRemembers | App.tsx:141-156 | a reply with an exercise lacking its problem list fails into the student screen, but only after every returned title was written into the memory with the scale it was given, other entries kept, no result and no notice |
| Session.RunAppend | App.tsx:232-330 | running two action sequences one after the other is running their concatenation |

## Left out

- The call to the grading service (`services/geminiService.ts`): the prompt, the JSON schema and its parsing, and the API key. `FinishGrading` takes the service's outcome as a parameter: the exercises returned, a thrown failure with an optional message, or a reply in which some exercise has no problem list (the cast of the parsed JSON lets that through), together with the runtime error scoring then throws.
- Session.FinishGrading: a returned exercise lacking other fields (an id or a title) is not modelled; every exercise is assumed to carry both, because the service's schema requires them and the app reads them without a check.
- Image preview URLs and their revocation (App.tsx:21-27, 38-44, 62, 81, 210, 220-221): these are browser resources with no effect on the session's data.
- The five-second timer that hides the notification (App.tsx:29-36): it depends on a clock. The model keeps the notification until a handler clears it.
- The loading message text and the `isLoading` flag (App.tsx:15-16, 120-121, 158, 213, 226): the flag is true exactly while the phase is `Grading`, so the phase stands for it.
- The markup and styling of the screens (App.tsx:240-298, 300-387 apart from which handlers each screen wires up, and components/GradingResult.tsx) and the `toFixed(2)` display of scores: presentation only. Which events each phase's screen can deliver (App.tsx:232-330) is modelled by `Session.Enabled`.
- Text-to-number parsing of the scale field (`parseInt(...) || 0` in components/GradingResult.tsx:48): the model takes the parsed integer as the event's argument.
- Floating-point rounding: scores are exact rationals (`real`), so the model does not reproduce IEEE rounding of `(correct / total) * scale`.
- Object-prototype keys of the JavaScript memory record (a title such as `constructor` reads an inherited value): the memory is modelled as a plain map.
- Ids and file sizes are unbounded integers. Of a browser `File` only the name and size are modelled; no other field takes part in the session before the files are sent to the service.
- The asynchronous interleaving of React state updates: each handler is modelled as one atomic transition, with the grading call split into a start and a finish.
- The build configuration (vite.config.ts) and the spinner component: they play no part in the session.
