/** The point-memory cache: a title-keyed record of the last point scale used
    for each exercise, consulted when a fresh grading pass arrives and
    rewritten after it, so that later students of the same exam inherit the
    teacher's scales. */
module Memory {
  import opened Types
  import opened Scoring

  /** Scale given to an exercise whose title the memory does not know. */
  const DefaultPoints: int := 10

  /** The titles of a list of exercises. */
  function Titles(exs: seq<Exercise>): set<string> {
    set i | 0 <= i < |exs| :: exs[i].title
  }

  /** Exercises that share a title also share a scale. */
  predicate ScalesAgreeByTitle(exs: seq<Exercise>) {
    forall i, j :: 0 <= i < |exs| && 0 <= j < |exs| && exs[i].title == exs[j].title ==>
      exs[i].totalPossiblePoints == exs[j].totalPossiblePoints
  }

  /** The scale a freshly graded exercise starts with. */
  function ScaleFor(mem: PointMemory, title: string): int {
    if title in mem then mem[title] else DefaultPoints
  }

  /** Turns the service's exercises into scored-later exercises: every
      exercise keeps its id, title and problems, takes the remembered scale
      for its title or the default one, and starts with score 0. */
  function ApplyMemory(raws: seq<RawExercise>, mem: PointMemory): (exs: seq<Exercise>)
    ensures |exs| == |raws|
    ensures forall i :: 0 <= i < |raws| ==>
      && exs[i].id == raws[i].id
      && exs[i].title == raws[i].title
      && exs[i].problems == raws[i].problems
      && exs[i].studentScore == 0.0
    ensures forall i :: 0 <= i < |raws| && raws[i].title in mem ==>
      exs[i].totalPossiblePoints == mem[raws[i].title]
    ensures forall i :: 0 <= i < |raws| && raws[i].title !in mem ==>
      exs[i].totalPossiblePoints == DefaultPoints
  {
    seq(|raws|, i requires 0 <= i < |raws| =>
      Exercise(raws[i].id, raws[i].title, ScaleFor(mem, raws[i].title), 0.0, raws[i].problems))
  }

  /** Whether the memory supplied the scale of at least one exercise; this is
      the condition for the "remembered scale applied" notification. */
  function AnyRemembered(raws: seq<RawExercise>, mem: PointMemory): (b: bool)
    ensures b <==> exists i :: 0 <= i < |raws| && raws[i].title in mem
  {
    if |raws| == 0 then false
    else AnyRemembered(raws[..|raws| - 1], mem) || raws[|raws| - 1].title in mem
  }

  /** Writes every exercise's scale under its title, in list order, over a
      copy of the memory. Entries for other titles are left untouched. */
  function RememberAll(mem: PointMemory, exs: seq<Exercise>): (r: PointMemory)
    ensures r.Keys == mem.Keys + Titles(exs)
    ensures forall t :: t in mem && t !in Titles(exs) ==> r[t] == mem[t]
    decreases |exs|
  {
    if |exs| == 0 then mem
    else
      var r := RememberAll(mem[exs[0].title := exs[0].totalPossiblePoints], exs[1..]);
      assert Titles(exs) == {exs[0].title} + Titles(exs[1..]) by {
        forall t | t in Titles(exs) ensures t in {exs[0].title} + Titles(exs[1..]) {
          var i :| 0 <= i < |exs| && exs[i].title == t;
          if i > 0 { assert exs[1..][i - 1] == exs[i]; }
        }
      }
      r
  }

  /** When exercises that share a title share a scale, the rewritten memory
      maps every exercise's title to that exercise's scale. */
  lemma {:induction false} RememberAllRecordsScales(mem: PointMemory, exs: seq<Exercise>)
    requires ScalesAgreeByTitle(exs)
    ensures forall i :: 0 <= i < |exs| ==>
      exs[i].title in RememberAll(mem, exs)
      && RememberAll(mem, exs)[exs[i].title] == exs[i].totalPossiblePoints
    decreases |exs|
  {
    if |exs| > 0 {
      var mem' := mem[exs[0].title := exs[0].totalPossiblePoints];
      var rest := exs[1..];
      assert ScalesAgreeByTitle(rest) by {
        forall i, j | 0 <= i < |rest| && 0 <= j < |rest| && rest[i].title == rest[j].title
          ensures rest[i].totalPossiblePoints == rest[j].totalPossiblePoints
        {
          assert rest[i] == exs[i + 1] && rest[j] == exs[j + 1];
        }
      }
      RememberAllRecordsScales(mem', rest);
      var r := RememberAll(mem, exs);
      assert r == RememberAll(mem', rest);
      forall i | 0 <= i < |exs|
        ensures exs[i].title in r && r[exs[i].title] == exs[i].totalPossiblePoints
      {
        if i > 0 {
          assert rest[i - 1] == exs[i];
        } else if exs[0].title in Titles(rest) {
          var j :| 0 <= j < |rest| && rest[j].title == exs[0].title;
          assert rest[j] == exs[j + 1];
        }
      }
    }
  }

  /** Fresh exercises take their scale from their title alone, so equal
      titles get equal scales. */
  lemma ApplyMemoryScalesAgree(raws: seq<RawExercise>, mem: PointMemory)
    ensures ScalesAgreeByTitle(ApplyMemory(raws, mem))
  {
  }

  /** The whole merge performed when a grading pass succeeds. */
  datatype Merge = Merge(exercises: seq<Exercise>, memory: PointMemory, remembered: bool)

  function MergeWithMemory(raws: seq<RawExercise>, mem: PointMemory): Merge {
    var exs := ApplyMemory(raws, mem);
    Merge(exs, RememberAll(mem, exs), AnyRemembered(raws, mem))
  }

  /** What a successful pass does to the memory: every returned title now
      maps to its exercise's scale, every other entry is unchanged, and the
      notification flag is raised exactly when some title was already known. */
  lemma MergeWithMemoryContract(raws: seq<RawExercise>, mem: PointMemory)
    ensures var m := MergeWithMemory(raws, mem);
      && (forall i :: 0 <= i < |raws| ==>
            raws[i].title in m.memory
            && m.memory[raws[i].title] == m.exercises[i].totalPossiblePoints)
      && (forall t :: t in mem && t !in Titles(m.exercises) ==> t in m.memory && m.memory[t] == mem[t])
      && m.memory.Keys == mem.Keys + Titles(m.exercises)
      && (m.remembered <==> exists i :: 0 <= i < |raws| && raws[i].title in mem)
  {
    var exs := ApplyMemory(raws, mem);
    ApplyMemoryScalesAgree(raws, mem);
    RememberAllRecordsScales(mem, exs);
  }

  /** Grading the same exercises again against the memory a pass left behind
      reproduces exactly the scales of that pass, and (when there is at least
      one exercise) raises the notification. */
  lemma RememberedScalesReapply(raws: seq<RawExercise>, mem: PointMemory)
    ensures var m := MergeWithMemory(raws, mem);
      && ApplyMemory(raws, m.memory) == m.exercises
      && (|raws| > 0 ==> AnyRemembered(raws, m.memory))
  {
    var m := MergeWithMemory(raws, mem);
    MergeWithMemoryContract(raws, mem);
    var again := ApplyMemory(raws, m.memory);
    assert |again| == |m.exercises|;
    forall i | 0 <= i < |raws| ensures again[i] == m.exercises[i] {
    }
    if |raws| > 0 {
      assert raws[0].title in m.memory;
    }
  }
}
