/** The recursive evaluation of "complete" with its shared `seen` set
    (learning/server/progress.py:371-462), and what it really decides. */
module Completion {
  import opened Options
  import opened Curricula

  datatype Status = NotStarted | InProgress | Complete

  /** A lesson's record; the times it also holds are not modelled, only that they are set. */
  datatype Record = Record(
    status: Status, stepsDone: seq<string>, validations: map<string, bool>, quizCorrect: seq<string>, quizAttempts: nat,
    explainDone: seq<string>, attempts: nat, hintsUsed: nat, started: bool)

  datatype Tally = Tally(correct: nat, incorrect: nat)

  datatype Answers = Answers(correct: nat, incorrect: nat, streak: nat)

  datatype State = State(lastLesson: Option<string>, lessons: map<string, Record>, concepts: map<string, Tally>,
                         interview: map<string, Answers>)

  datatype Missing =
    | LessonUnavailable
    | LessonNotStarted
    | PrerequisiteMissing(lesson: string)
    | ValidationMissing(block: string)
    | QuizMissing(block: string)
    | ExplainMissing(block: string)

  // ----- What the evaluation computes

  predicate StoredComplete(s: State, id: string) { id in s.lessons && s.lessons[id].status == Complete }

  function MissingValidations(r: Record, ids: seq<string>): seq<Missing> {
    if ids == [] then []
    else (if ids[0] in r.validations && r.validations[ids[0]] then [] else [ValidationMissing(ids[0])])
         + MissingValidations(r, ids[1..])
  }

  function MissingQuizzes(r: Record, ids: seq<string>): seq<Missing> {
    if ids == [] then []
    else (if ids[0] in r.quizCorrect then [] else [QuizMissing(ids[0])]) + MissingQuizzes(r, ids[1..])
  }

  function MissingExplains(r: Record, ids: seq<string>): seq<Missing> {
    if ids == [] then []
    else (if ids[0] in r.explainDone then [] else [ExplainMissing(ids[0])]) + MissingExplains(r, ids[1..])
  }

  function OwnMissing(r: Record, lesson: Lesson): seq<Missing> {
    MissingValidations(r, lesson.MandatoryValidators())
    + (MissingQuizzes(r, lesson.RequiredQuizIds()) + MissingExplains(r, lesson.RequiredExplainIds()))
  }

  /** The lessons the recursion can still enter. */
  function Unseen(c: Curriculum, seen: set<string>): set<string> { c.lessons.Keys - seen }

  lemma UnseenShrinks(c: Curriculum, seen: set<string>, id: string)
    ensures |Unseen(c, seen + {id})| <= |Unseen(c, seen)|
    ensures id in c.lessons && id !in seen ==> |Unseen(c, seen + {id})| < |Unseen(c, seen)|
  {
    var a, b := Unseen(c, seen + {id}), Unseen(c, seen);
    assert a <= b;
    if id in c.lessons && id !in seen { assert b == a + {id}; } else { assert a == b; }
  }

  /** `_lesson_is_complete_locked`: a lesson already seen counts as complete. */
  function IsComplete(s: State, c: Curriculum, id: string, seen: set<string>): bool
    decreases |Unseen(c, seen)|, 0, 0
  {
    if !StoredComplete(s, id) then false
    else if id in seen || id !in c.lessons then true
    else UnseenShrinks(c, seen, id); LessonMissing(s, c, c.lessons[id], seen + {id}) == []
  }

  /** What the call leaves in the set it was handed. */
  function SeenAfter(s: State, c: Curriculum, id: string, seen: set<string>): set<string> {
    if StoredComplete(s, id) && id in c.lessons then seen + {id} else seen
  }

  /** `_lesson_completion_locked`: everything that is missing, in the order it is found. */
  function LessonMissing(s: State, c: Curriculum, lesson: Lesson, seen: set<string>): seq<Missing>
    decreases |Unseen(c, seen)|, 2, 0
  {
    if !lesson.available then [LessonUnavailable]
    else if lesson.id !in s.lessons then [LessonNotStarted]
    else
      UnseenShrinks(c, seen, lesson.id);
      PrerequisitesMissing(s, c, lesson.prerequisites, seen + {lesson.id}) + OwnMissing(s.lessons[lesson.id], lesson)
  }

  /** The loop over prerequisites; the set grows from one to the next. */
  function PrerequisitesMissing(s: State, c: Curriculum, ids: seq<string>, seen: set<string>): seq<Missing>
    decreases |Unseen(c, seen)|, 1, |ids|
  {
    if ids == [] then []
    else
      UnseenShrinks(c, seen, ids[0]);
      (if IsComplete(s, c, ids[0], seen) then [] else [PrerequisiteMissing(ids[0])])
      + PrerequisitesMissing(s, c, ids[1..], SeenAfter(s, c, ids[0], seen))
  }

  // ----- What it is meant to decide

  /** A lesson's own gates, read off its record. */
  predicate OwnGates(s: State, lesson: Lesson) {
    && lesson.available && lesson.id in s.lessons
    && var r := s.lessons[lesson.id];
       && (forall b | b in lesson.MandatoryValidators() :: b in r.validations && r.validations[b])
       && (forall b | b in lesson.RequiredQuizIds() :: b in r.quizCorrect)
       && (forall b | b in lesson.RequiredExplainIds() :: b in r.explainDone)
  }

  /** Marked complete and, when part of the curriculum, available with its gates passed. */
  predicate Sound(s: State, c: Curriculum, id: string) {
    StoredComplete(s, id) && (id in c.lessons ==> OwnGates(s, c.lessons[id]))
  }

  predicate Requires(c: Curriculum, id: string, p: string) { id in c.lessons && p in c.lessons[id].prerequisites }

  /** A chain of prerequisites. */
  predicate Chain(c: Curriculum, path: seq<string>) {
    path != [] && forall i | 0 <= i < |path| - 1 :: Requires(c, path[i], path[i + 1])
  }

  lemma ChainTail(c: Curriculum, path: seq<string>)
    requires Chain(c, path) && |path| > 1
    ensures Chain(c, path[1..]) && Requires(c, path[0], path[1])
  {
    assert Requires(c, path[0], path[0 + 1]);
    forall i | 0 <= i < |path[1..]| - 1
      ensures Requires(c, path[1..][i], path[1..][i + 1])
    {
      assert Requires(c, path[i + 1], path[i + 1 + 1]);
    }
  }

  ghost predicate Reaches(c: Curriculum, from: string, to: string) {
    exists path :: Chain(c, path) && path[0] == from && path[|path| - 1] == to
  }

  /** Every lesson in the prerequisite closure, the lesson itself included, is sound. */
  ghost predicate ClosureSound(s: State, c: Curriculum, id: string) {
    forall y | Reaches(c, id, y) :: Sound(s, c, y)
  }

  // ----- Own gates

  lemma {:induction false} NoneMissing(r: Record, ids: seq<string>)
    ensures MissingValidations(r, ids) == [] <==> forall b | b in ids :: b in r.validations && r.validations[b]
    ensures MissingQuizzes(r, ids) == [] <==> forall b | b in ids :: b in r.quizCorrect
    ensures MissingExplains(r, ids) == [] <==> forall b | b in ids :: b in r.explainDone
  {
    if ids != [] {
      NoneMissing(r, ids[1..]);
      assert ids == [ids[0]] + ids[1..];
    }
  }

  lemma OwnMissingIsOwnGates(s: State, lesson: Lesson)
    requires lesson.available && lesson.id in s.lessons
    ensures OwnMissing(s.lessons[lesson.id], lesson) == [] <==> OwnGates(s, lesson)
  {
    var r := s.lessons[lesson.id];
    NoneMissing(r, lesson.MandatoryValidators());
    NoneMissing(r, lesson.RequiredQuizIds());
    NoneMissing(r, lesson.RequiredExplainIds());
  }

  // ----- The shortcut is sound

  /** Sound lessons whose prerequisites are in the set itself or in `seen`, and stored
      complete: what an evaluation that answered "complete" has looked at. */
  ghost predicate Explored(s: State, c: Curriculum, visited: set<string>, seen: set<string>) {
    && (forall v | v in visited :: Sound(s, c, v))
    && (forall v, p | v in visited && Requires(c, v, p) :: StoredComplete(s, p) && (p in visited || p in seen))
  }

  lemma {:induction false} CompleteExplores(s: State, c: Curriculum, id: string, seen: set<string>)
    returns (visited: set<string>)
    requires WellKeyed(c) && IsComplete(s, c, id, seen)
    ensures Explored(s, c, visited, seen) && (id in visited || id in seen)
    decreases |Unseen(c, seen)|, 0, 0
  {
    if id in seen {
      visited := {};
    } else if id !in c.lessons {
      visited := {id};
    } else {
      UnseenShrinks(c, seen, id);
      var lesson := c.lessons[id];
      var inside := seen + {id};
      assert inside + {lesson.id} == inside;
      OwnMissingIsOwnGates(s, lesson);
      var more := PrerequisitesExplore(s, c, lesson.prerequisites, inside);
      visited := more + {id};
    }
  }

  lemma {:induction false} PrerequisitesExplore(s: State, c: Curriculum, ids: seq<string>, seen: set<string>)
    returns (visited: set<string>)
    requires WellKeyed(c) && PrerequisitesMissing(s, c, ids, seen) == []
    ensures Explored(s, c, visited, seen) && Looked(s, ids, visited, seen)
    decreases |Unseen(c, seen)|, 1, |ids|
  {
    visited := {};
    if ids != [] {
      UnseenShrinks(c, seen, ids[0]);
      var after := SeenAfter(s, c, ids[0], seen);
      var first := CompleteExplores(s, c, ids[0], seen);
      var others := PrerequisitesExplore(s, c, ids[1..], after);
      visited := first + others;
      ExploredTogether(s, c, ids, first, others, seen);
    }
  }

  ghost predicate Looked(s: State, ids: seq<string>, visited: set<string>, seen: set<string>) {
    forall p | p in ids :: StoredComplete(s, p) && (p in visited || p in seen)
  }

  /** What a later sibling was excused from was looked at under an earlier one. */
  lemma ExploredTogether(s: State, c: Curriculum, ids: seq<string>, first: set<string>, others: set<string>,
                         seen: set<string>)
    requires ids != [] && StoredComplete(s, ids[0]) && (ids[0] in first || ids[0] in seen)
    requires Explored(s, c, first, seen)
    requires var after := SeenAfter(s, c, ids[0], seen);
             Explored(s, c, others, after) && Looked(s, ids[1..], others, after)
    ensures Explored(s, c, first + others, seen) && Looked(s, ids, first + others, seen)
  {
    assert ids == [ids[0]] + ids[1..];
  }

  /** A set closed under prerequisites holds everything reachable from its members. */
  lemma {:induction false} ClosedHoldsReachable(s: State, c: Curriculum, visited: set<string>, path: seq<string>)
    requires Explored(s, c, visited, {}) && Chain(c, path) && path[0] in visited
    ensures path[|path| - 1] in visited
    decreases |path|
  {
    if |path| > 1 {
      ChainTail(c, path);
      ClosedHoldsReachable(s, c, visited, path[1..]);
    }
  }

  // ----- An answer of "incomplete" has a reason

  lemma ChainFront(c: Curriculum, id: string, path: seq<string>)
    requires Chain(c, path) && Requires(c, id, path[0])
    ensures Chain(c, [id] + path) && ([id] + path)[|path|] == path[|path| - 1]
  {
    var longer := [id] + path;
    forall i | 0 <= i < |longer| - 1
      ensures Requires(c, longer[i], longer[i + 1])
    {
      if i > 0 { assert longer[i] == path[i - 1] && longer[i + 1] == path[i]; }
    }
  }

  lemma {:induction false} IncompleteHasWitness(s: State, c: Curriculum, id: string, seen: set<string>)
    returns (path: seq<string>)
    requires WellKeyed(c) && !IsComplete(s, c, id, seen)
    ensures Chain(c, path) && path[0] == id && !Sound(s, c, path[|path| - 1])
    decreases |Unseen(c, seen)|, 0, 0
  {
    path := [id];
    if StoredComplete(s, id) {
      UnseenShrinks(c, seen, id);
      var lesson := c.lessons[id];
      var inside := seen + {id};
      assert inside + {lesson.id} == inside;
      if OwnGates(s, lesson) {
        OwnMissingIsOwnGates(s, lesson);
        var tail := PrerequisiteWitness(s, c, lesson.prerequisites, inside);
        ChainFront(c, id, tail);
        path := [id] + tail;
      }
    }
  }

  lemma {:induction false} PrerequisiteWitness(s: State, c: Curriculum, ids: seq<string>, seen: set<string>)
    returns (path: seq<string>)
    requires WellKeyed(c) && PrerequisitesMissing(s, c, ids, seen) != []
    ensures Chain(c, path) && path[0] in ids && !Sound(s, c, path[|path| - 1])
    decreases |Unseen(c, seen)|, 1, |ids|
  {
    UnseenShrinks(c, seen, ids[0]);
    if IsComplete(s, c, ids[0], seen) {
      path := PrerequisiteWitness(s, c, ids[1..], SeenAfter(s, c, ids[0], seen));
    } else {
      path := IncompleteHasWitness(s, c, ids[0], seen);
    }
  }

  // ----- Main results

  /** On any prerequisite graph, cyclic ones included, the evaluation with the shared `seen`
      set answers "complete" exactly when the whole prerequisite closure is sound. */
  lemma SharedSeenIsExact(s: State, c: Curriculum, id: string)
    requires WellKeyed(c)
    ensures IsComplete(s, c, id, {}) <==> ClosureSound(s, c, id)
  {
    if IsComplete(s, c, id, {}) {
      var visited := CompleteExplores(s, c, id, {});
      forall y | Reaches(c, id, y)
        ensures Sound(s, c, y)
      {
        var path :| Chain(c, path) && path[0] == id && path[|path| - 1] == y;
        ClosedHoldsReachable(s, c, visited, path);
      }
    } else {
      var path := IncompleteHasWitness(s, c, id, {});
      assert Reaches(c, id, path[|path| - 1]);
    }
  }

  /** Completing a lesson asks for its own gates and for the soundness of everything behind
      its prerequisites. */
  lemma MissingIsExact(s: State, c: Curriculum, id: string)
    requires WellKeyed(c) && id in c.lessons
    ensures LessonMissing(s, c, c.lessons[id], {}) == [] <==>
              OwnGates(s, c.lessons[id]) && forall p | Requires(c, id, p) :: ClosureSound(s, c, p)
  {
    var lesson := c.lessons[id];
    if !lesson.available || id !in s.lessons { return; }
    OwnMissingIsOwnGates(s, lesson);
    assert {} + {lesson.id} == {id};
    if LessonMissing(s, c, lesson, {}) == [] {
      var visited := PrerequisitesExplore(s, c, lesson.prerequisites, {id});
      assert Looked(s, lesson.prerequisites, visited, {id});
      forall p, y | Requires(c, id, p) && Reaches(c, p, y)
        ensures Sound(s, c, y)
      {
        var path :| Chain(c, path) && path[0] == p && path[|path| - 1] == y;
        ReachesWithin(s, c, id, visited, path);
      }
    } else if OwnGates(s, lesson) {
      var path := PrerequisiteWitness(s, c, lesson.prerequisites, {id});
      assert Reaches(c, path[0], path[|path| - 1]);
      assert Requires(c, id, path[0]);
    }
  }

  /** Behind the prerequisites of `id` everything was visited, or is `id` itself, stored
      complete because something visited requires it. */
  lemma {:induction false} ReachesWithin(s: State, c: Curriculum, id: string, visited: set<string>, path: seq<string>)
    requires id in c.lessons && OwnGates(s, c.lessons[id]) && Explored(s, c, visited, {id})
    requires forall p | Requires(c, id, p) :: StoredComplete(s, p) && (p in visited || p == id)
    requires Chain(c, path) && StoredComplete(s, path[0]) && (path[0] in visited || path[0] == id)
    ensures Sound(s, c, path[|path| - 1])
    decreases |path|
  {
    if |path| > 1 {
      ChainTail(c, path);
      ReachesWithin(s, c, id, visited, path[1..]);
    }
  }

  // ----- What is reported

  /** What a report says holds of the store. */
  ghost predicate Holds(s: State, c: Curriculum, lesson: Lesson, m: Missing) {
    match m
    case LessonUnavailable => !lesson.available
    case LessonNotStarted => lesson.available && lesson.id !in s.lessons
    case PrerequisiteMissing(p) =>
      lesson.available && lesson.id in s.lessons && p in lesson.prerequisites && !ClosureSound(s, c, p)
    case _ => lesson.available && lesson.id in s.lessons && OwnHolds(s.lessons[lesson.id], lesson, m)
  }

  predicate OwnHolds(r: Record, lesson: Lesson, m: Missing) {
    match m
    case ValidationMissing(b) => b in lesson.MandatoryValidators() && !(b in r.validations && r.validations[b])
    case QuizMissing(b) => b in lesson.RequiredQuizIds() && b !in r.quizCorrect
    case ExplainMissing(b) => b in lesson.RequiredExplainIds() && b !in r.explainDone
    case _ => false
  }

  /** Everything reported is indeed missing, and everything of the lesson's own that is
      missing is reported. */
  lemma ReportedIsMissing(s: State, c: Curriculum, lesson: Lesson, m: Missing)
    requires WellKeyed(c)
    ensures m in LessonMissing(s, c, lesson, {}) ==> Holds(s, c, lesson, m)
    ensures Holds(s, c, lesson, m) && !m.PrerequisiteMissing? ==> m in LessonMissing(s, c, lesson, {})
  {
    if lesson.available && lesson.id in s.lessons {
      var missing := PrerequisitesMissing(s, c, lesson.prerequisites, {} + {lesson.id});
      OwnReported(s.lessons[lesson.id], lesson, m);
      if m in missing {
        OnlyPrerequisites(s, c, lesson.prerequisites, {} + {lesson.id}, m);
        PrerequisiteReported(s, c, lesson.prerequisites, {} + {lesson.id}, m.lesson);
      }
    }
  }

  lemma OwnReported(r: Record, lesson: Lesson, m: Missing)
    ensures m in OwnMissing(r, lesson) <==> OwnHolds(r, lesson, m)
  {
    ValidationsReported(r, lesson.MandatoryValidators(), m);
    QuizzesReported(r, lesson.RequiredQuizIds(), m);
    ExplainsReported(r, lesson.RequiredExplainIds(), m);
  }

  lemma {:induction false} ValidationsReported(r: Record, ids: seq<string>, m: Missing)
    ensures m in MissingValidations(r, ids)
       <==> m.ValidationMissing? && m.block in ids && !(m.block in r.validations && r.validations[m.block])
  {
    if ids != [] {
      ValidationsReported(r, ids[1..], m);
      assert ids == [ids[0]] + ids[1..];
    }
  }

  lemma {:induction false} QuizzesReported(r: Record, ids: seq<string>, m: Missing)
    ensures m in MissingQuizzes(r, ids) <==> m.QuizMissing? && m.block in ids && m.block !in r.quizCorrect
  {
    if ids != [] {
      QuizzesReported(r, ids[1..], m);
      assert ids == [ids[0]] + ids[1..];
    }
  }

  lemma {:induction false} ExplainsReported(r: Record, ids: seq<string>, m: Missing)
    ensures m in MissingExplains(r, ids) <==> m.ExplainMissing? && m.block in ids && m.block !in r.explainDone
  {
    if ids != [] {
      ExplainsReported(r, ids[1..], m);
      assert ids == [ids[0]] + ids[1..];
    }
  }

  lemma {:induction false} PrerequisiteReported(s: State, c: Curriculum, ids: seq<string>, seen: set<string>, p: string)
    requires WellKeyed(c) && PrerequisiteMissing(p) in PrerequisitesMissing(s, c, ids, seen)
    ensures p in ids && !ClosureSound(s, c, p)
    decreases |ids|
  {
    if p == ids[0] && !IsComplete(s, c, p, seen) {
      var path := IncompleteHasWitness(s, c, p, seen);
      assert Reaches(c, p, path[|path| - 1]);
    } else {
      PrerequisiteReported(s, c, ids[1..], SeenAfter(s, c, ids[0], seen), p);
    }
  }

  lemma {:induction false} OnlyPrerequisites(s: State, c: Curriculum, ids: seq<string>, seen: set<string>, m: Missing)
    requires m in PrerequisitesMissing(s, c, ids, seen)
    ensures m.PrerequisiteMissing?
    decreases |ids|
  {
    if m != PrerequisiteMissing(ids[0]) {
      OnlyPrerequisites(s, c, ids[1..], SeenAfter(s, c, ids[0], seen), m);
    }
  }

  // ----- Without a curriculum

  /** What the calls that are given no curriculum amount to: one that knows no lesson. */
  const NO_CURRICULUM: Curriculum := Curriculum(map[], [])

  /** Without a curriculum the stored status decides, for the lesson and its prerequisites. */
  lemma {:induction false} StoredStatusDecides(s: State, id: string, seen: set<string>)
    ensures IsComplete(s, NO_CURRICULUM, id, seen) <==> StoredComplete(s, id)
  {
  }

  lemma {:induction false} StoredStatusesMissing(s: State, ids: seq<string>, seen: set<string>)
    ensures PrerequisitesMissing(s, NO_CURRICULUM, ids, seen) == [] <==> forall p | p in ids :: StoredComplete(s, p)
    decreases |ids|
  {
    if ids != [] {
      StoredStatusDecides(s, ids[0], seen);
      StoredStatusesMissing(s, ids[1..], SeenAfter(s, NO_CURRICULUM, ids[0], seen));
      assert ids == [ids[0]] + ids[1..];
    }
  }

  /** So there a lesson may be completed when its own gates hold and its prerequisites are
      stored complete. */
  lemma MissingWithoutCurriculum(s: State, lesson: Lesson)
    ensures LessonMissing(s, NO_CURRICULUM, lesson, {}) == [] <==>
              OwnGates(s, lesson) && forall p | p in lesson.prerequisites :: StoredComplete(s, p)
  {
    if lesson.available && lesson.id in s.lessons {
      OwnMissingIsOwnGates(s, lesson);
      StoredStatusesMissing(s, lesson.prerequisites, {} + {lesson.id});
    }
  }
}
