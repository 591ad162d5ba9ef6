/** What holds in every state the store can reach through the calls the server makes
    (learning/server/progress.py:230-361, 464-475; learning/server/app.py:671-687). */
module ProgressRuns {
  import opened Curricula
  import opened Completion
  import opened Interview
  import opened Progress

  /** One call on the store. */
  datatype Call =
    | Started(lesson: string)
    | StepDone(lesson: string, block: string)
    | Validated(lesson: string, block: string, passed: bool, mandatory: bool, concepts: seq<string>, historical: bool)
    | QuizAnswered(lesson: string, block: string, correct: bool, concepts: seq<string>)
    | Explained(lesson: string, block: string, passed: bool, concepts: seq<string>)
    | HintShown(lesson: string, index: nat)
    | MarkedComplete(lesson: string)
    | Interviewed(question: string, correct: bool, concepts: seq<string>)

  /** The server only names lessons of the curriculum, and hands a check its block's own
      flags. */
  predicate Legal(c: Curriculum, call: Call) {
    call.Interviewed? || (
      && call.lesson in c.lessons
      && (call.Validated? ==>
            var lesson := c.lessons[call.lesson];
            var i := lesson.VerifyBlock(call.block);
            i < |lesson.blocks| && lesson.blocks[i].mandatory == call.mandatory
                && lesson.blocks[i].historical == call.historical))
  }

  function After(s: State, c: Curriculum, call: Call): State
    requires Legal(c, call)
  {
    match call
    case Started(l) => AfterStarted(s, l)
    case StepDone(l, b) => AfterStep(s, l, b)
    case Validated(l, b, passed, mandatory, concepts, historical) =>
      AfterValidation(s, l, b, passed, mandatory, concepts, historical)
    case QuizAnswered(l, b, correct, concepts) => AfterQuiz(s, l, b, correct, concepts)
    case Explained(l, b, passed, concepts) => AfterExplain(s, l, b, passed, concepts)
    case HintShown(l, index) => AfterHint(s, l, index)
    case MarkedComplete(l) => AfterMarkComplete(s, c, c.lessons[l])
    case Interviewed(q, correct, concepts) => AfterInterview(s, q, correct, concepts)
  }

  predicate AllLegal(c: Curriculum, calls: seq<Call>) { forall i | 0 <= i < |calls| :: Legal(c, calls[i]) }

  function AfterCalls(s: State, c: Curriculum, calls: seq<Call>): State
    requires AllLegal(c, calls)
    decreases |calls|
  {
    if calls == [] then s else AfterCalls(After(s, c, calls[0]), c, calls[1..])
  }

  // ----- Completion always rests on gates

  /** A lesson stored as complete is available, with its mandatory checks, quizzes and
      explanations all passed. */
  predicate GatesHeld(s: State, c: Curriculum) {
    forall id | id in c.lessons && StoredComplete(s, id) :: OwnGates(s, c.lessons[id])
  }

  lemma MandatoryBlock(lesson: Lesson, block: string)
    requires lesson.UniqueBlocks() && lesson.VerifyBlock(block) < |lesson.blocks|
    ensures block in lesson.MandatoryValidators() <==> lesson.blocks[lesson.VerifyBlock(block)].mandatory
  {
    var i := lesson.VerifyBlock(block);
    forall b | b in lesson.blocks && b.kind == Verify && b.mandatory && b.id == block
      ensures lesson.blocks[i].mandatory
    {
      var j :| 0 <= j < |lesson.blocks| && lesson.blocks[j] == b;
      assert i == j;
    }
    assert lesson.blocks[i] in lesson.blocks;
  }

  /** Only its own record and the curriculum decide a lesson's gates. */
  lemma GatesOfRecord(s: State, s': State, lesson: Lesson)
    requires lesson.id in s.lessons && lesson.id in s'.lessons && s.lessons[lesson.id] == s'.lessons[lesson.id]
    ensures OwnGates(s, lesson) == OwnGates(s', lesson)
  {
  }

  lemma CallKeepsGates(s: State, c: Curriculum, call: Call)
    requires WellOrdered(c) && Legal(c, call) && GatesHeld(s, c)
    ensures GatesHeld(After(s, c, call), c)
  {
    var s' := After(s, c, call);
    forall id | id in c.lessons && StoredComplete(s', id)
      ensures OwnGates(s', c.lessons[id])
    {
      if call.Interviewed? || call.lesson != id {
        GatesOfRecord(s, s', c.lessons[id]);
      } else {
        OwnCallKeepsGates(s, c, call);
      }
    }
  }

  /** A failed mandatory check revokes; any other outcome leaves the gates as they were. */
  lemma ValidationKeepsGates(s: State, c: Curriculum, call: Call)
    requires WellOrdered(c) && Legal(c, call) && GatesHeld(s, c) && call.Validated?
    requires StoredComplete(After(s, c, call), call.lesson)
    ensures OwnGates(After(s, c, call), c.lessons[call.lesson])
  {
    MandatoryBlock(c.lessons[call.lesson], call.block);
  }

  lemma OwnCallKeepsGates(s: State, c: Curriculum, call: Call)
    requires WellOrdered(c) && Legal(c, call) && GatesHeld(s, c) && !call.Interviewed?
    requires StoredComplete(After(s, c, call), call.lesson)
    ensures OwnGates(After(s, c, call), c.lessons[call.lesson])
  {
    var lesson := c.lessons[call.lesson];
    match call
    case Validated(_, _, _, _, _, _) => ValidationKeepsGates(s, c, call);
    case MarkedComplete(l) => if LessonMissing(s, c, lesson, {}) == [] { MissingIsExact(s, c, l); }
    case _ =>
  }

  lemma {:induction false} RunKeepsGates(s: State, c: Curriculum, calls: seq<Call>)
    requires WellOrdered(c) && AllLegal(c, calls) && GatesHeld(s, c)
    ensures GatesHeld(AfterCalls(s, c, calls), c)
    decreases |calls|
  {
    if calls != [] {
      CallKeepsGates(s, c, calls[0]);
      RunKeepsGates(After(s, c, calls[0]), c, calls[1..]);
    }
  }

  /** From an empty store, through any calls, a stored "complete" always implies the gates;
      so there a lesson is complete exactly when its whole closure is stored complete. */
  lemma CompleteRestsOnGates(c: Curriculum, calls: seq<Call>, id: string)
    requires WellOrdered(c) && AllLegal(c, calls) && id in c.lessons
    ensures var s := AfterCalls(EMPTY_STATE, c, calls);
            && (StoredComplete(s, id) ==> OwnGates(s, c.lessons[id]))
            && (IsComplete(s, c, id, {}) <==> forall y | Reaches(c, id, y) :: StoredComplete(s, y))
  {
    RunKeepsGates(EMPTY_STATE, c, calls);
    var s := AfterCalls(EMPTY_STATE, c, calls);
    SharedSeenIsExact(s, c, id);
    forall y | Reaches(c, id, y)
      ensures StoredComplete(s, y) <==> Sound(s, c, y)
    {
    }
  }

  // ----- Red-stage checks

  predicate HistoricalBlock(c: Curriculum, l: string, b: string) {
    l in c.lessons &&
    var lesson := c.lessons[l];
    var i := lesson.VerifyBlock(b);
    i < |lesson.blocks| && lesson.blocks[i].historical
  }

  predicate CheckPassed(s: State, l: string, b: string) {
    l in s.lessons && b in s.lessons[l].validations && s.lessons[l].validations[b]
  }

  /** A historical check once seen to pass is never un-passed. */
  lemma {:induction false} HistoricalPassStands(s: State, c: Curriculum, calls: seq<Call>, l: string, b: string)
    requires AllLegal(c, calls) && HistoricalBlock(c, l, b) && CheckPassed(s, l, b)
    requires WellKeyed(c)
    ensures CheckPassed(AfterCalls(s, c, calls), l, b)
    decreases |calls|
  {
    if calls != [] {
      HistoricalPassStandsOnce(s, c, calls[0], l, b);
      HistoricalPassStands(After(s, c, calls[0]), c, calls[1..], l, b);
    }
  }

  lemma HistoricalPassStandsOnce(s: State, c: Curriculum, call: Call, l: string, b: string)
    requires Legal(c, call) && HistoricalBlock(c, l, b) && CheckPassed(s, l, b) && WellKeyed(c)
    ensures CheckPassed(After(s, c, call), l, b)
  {
  }

  // ----- Revocation

  /** A failed mandatory check, unless it is a historical one that has already passed, makes
      its lesson, and exactly the lessons that depend on it, incomplete. */
  lemma RevocationIsExact(s: State, c: Curriculum, call: Call, id: string)
    requires WellKeyed(c) && Legal(c, call)
    requires call.Validated? && !call.passed && call.mandatory
    requires !(call.historical && CheckPassed(s, call.lesson, call.block))
    ensures IsComplete(After(s, c, call), c, id, {}) <==> IsComplete(s, c, id, {}) && !Reaches(c, id, call.lesson)
  {
    var s' := After(s, c, call);
    SharedSeenIsExact(s, c, id);
    SharedSeenIsExact(s', c, id);
    assert !Sound(s', c, call.lesson);
    forall y | y != call.lesson
      ensures Sound(s', c, y) == Sound(s, c, y)
    {
      if y in c.lessons && y in s.lessons { GatesOfRecord(s, s', c.lessons[y]); }
    }
  }

  /** The check still stands in the way: it is mandatory and not passed, and the lesson is not
      marked complete. */
  predicate HeldBack(s: State, c: Curriculum, l: string, b: string) {
    l in c.lessons && b in c.lessons[l].MandatoryValidators() && !CheckPassed(s, l, b) && !StoredComplete(s, l)
  }

  predicate Passes(call: Call, l: string, b: string) {
    call.Validated? && call.lesson == l && call.block == b && call.passed
  }

  lemma HeldBackStays(s: State, c: Curriculum, call: Call, l: string, b: string)
    requires WellKeyed(c) && Legal(c, call) && HeldBack(s, c, l, b) && !Passes(call, l, b)
    ensures HeldBack(After(s, c, call), c, l, b)
  {
    if call == MarkedComplete(l) {
      assert !OwnGates(s, c.lessons[l]);
      MissingIsExact(s, c, l);
    }
  }

  /** Completeness comes only from being marked. */
  lemma {:induction false} CompleteWasMarked(s: State, c: Curriculum, calls: seq<Call>, l: string) returns (j: nat)
    requires WellKeyed(c) && AllLegal(c, calls) && !StoredComplete(s, l) && StoredComplete(AfterCalls(s, c, calls), l)
    ensures j < |calls| && calls[j] == MarkedComplete(l)
    decreases |calls|
  {
    if calls[0] == MarkedComplete(l) {
      j := 0;
    } else {
      MarkingIsNeeded(s, c, calls[0], l);
      j := CompleteWasMarked(After(s, c, calls[0]), c, calls[1..], l);
      j := j + 1;
    }
  }

  lemma MarkingIsNeeded(s: State, c: Curriculum, call: Call, l: string)
    requires WellKeyed(c) && Legal(c, call) && !StoredComplete(s, l) && call != MarkedComplete(l)
    ensures !StoredComplete(After(s, c, call), l)
  {
  }

  /** A lesson whose mandatory check failed is complete again only after the check has passed
      and, later still, the lesson has been marked. */
  lemma {:induction false} UntilPassedAndMarked(s: State, c: Curriculum, calls: seq<Call>, l: string, b: string)
    returns (i: nat, j: nat)
    requires WellKeyed(c) && AllLegal(c, calls) && HeldBack(s, c, l, b)
    requires StoredComplete(AfterCalls(s, c, calls), l)
    ensures i < j < |calls| && Passes(calls[i], l, b) && calls[j] == MarkedComplete(l)
    decreases |calls|
  {
    if Passes(calls[0], l, b) {
      MarkingIsNeeded(s, c, calls[0], l);
      i := 0;
      j := CompleteWasMarked(After(s, c, calls[0]), c, calls[1..], l);
      j := j + 1;
    } else {
      HeldBackStays(s, c, calls[0], l, b);
      i, j := UntilPassedAndMarked(After(s, c, calls[0]), c, calls[1..], l, b);
      i, j := i + 1, j + 1;
    }
  }

  /** The same goes for every lesson that depends on it. */
  lemma DependentsWait(s: State, c: Curriculum, calls: seq<Call>, l: string, b: string, id: string)
    requires WellKeyed(c) && AllLegal(c, calls) && HeldBack(s, c, l, b) && Reaches(c, id, l)
    requires IsComplete(AfterCalls(s, c, calls), c, id, {})
    ensures exists i, j :: 0 <= i < j < |calls| && Passes(calls[i], l, b) && calls[j] == MarkedComplete(l)
  {
    SharedSeenIsExact(AfterCalls(s, c, calls), c, id);
    assert Sound(AfterCalls(s, c, calls), c, l);
    var i, j := UntilPassedAndMarked(s, c, calls, l, b);
  }

  /** A failed check puts its lesson in that position. */
  lemma FailureBlocks(s: State, c: Curriculum, call: Call)
    requires WellOrdered(c) && Legal(c, call)
    requires call.Validated? && !call.passed && call.mandatory
    requires !(call.historical && CheckPassed(s, call.lesson, call.block))
    ensures HeldBack(After(s, c, call), c, call.lesson, call.block)
  {
    MandatoryBlock(c.lessons[call.lesson], call.block);
  }

  // ----- Interview streaks

  /** How many correct answers to `q` the calls end with, answers to others aside. */
  function TrailingCorrect(calls: seq<Call>, q: string): nat
    decreases |calls|
  {
    if calls == [] then 0
    else
      var last := calls[|calls| - 1];
      var front := calls[..|calls| - 1];
      if last.Interviewed? && last.question == q then (if last.correct then 1 + TrailingCorrect(front, q) else 0)
      else TrailingCorrect(front, q)
  }

  lemma {:induction false} RunSnoc(s: State, c: Curriculum, calls: seq<Call>, last: Call)
    requires AllLegal(c, calls + [last])
    ensures AllLegal(c, calls) && Legal(c, last)
    ensures AfterCalls(s, c, calls + [last]) == After(AfterCalls(s, c, calls), c, last)
    decreases |calls|
  {
    var all := calls + [last];
    assert Legal(c, all[|calls|]);
    forall i | 0 <= i < |calls|
      ensures Legal(c, calls[i])
    {
      assert all[i] == calls[i];
    }
    if calls == [] {
      assert all[1..] == [];
    } else {
      assert all[1..] == calls[1..] + [last];
      RunSnoc(After(s, c, calls[0]), c, calls[1..], last);
    }
  }

  /** In every reachable state the stored streak is the length of the trailing run of correct
      answers. */
  lemma {:induction false} StreakIsTrailingRun(c: Curriculum, calls: seq<Call>, q: string)
    requires AllLegal(c, calls)
    ensures HistoryOf(AfterCalls(EMPTY_STATE, c, calls), q).streak == TrailingCorrect(calls, q)
    decreases |calls|
  {
    if calls != [] {
      var front, last := calls[..|calls| - 1], calls[|calls| - 1];
      assert calls == front + [last];
      RunSnoc(EMPTY_STATE, c, front, last);
      StreakIsTrailingRun(c, front, q);
      OneCallStreak(AfterCalls(EMPTY_STATE, c, front), c, last, q);
    }
  }

  lemma OneCallStreak(s: State, c: Curriculum, call: Call, q: string)
    requires Legal(c, call)
    ensures HistoryOf(After(s, c, call), q).streak
         == if call.Interviewed? && call.question == q then (if call.correct then 1 + HistoryOf(s, q).streak else 0)
            else HistoryOf(s, q).streak
  {
  }

  // ----- Hints and steps

  /** `n` hints are those up to the highest index asked for. */
  ghost predicate HighWater(calls: seq<Call>, l: string, n: nat) {
    && (forall i | 0 <= i < |calls| && calls[i].HintShown? && calls[i].lesson == l :: calls[i].index < n)
    && (n == 0 || HintShown(l, n - 1) in calls)
  }

  /** From an empty store, the hints revealed are the largest index asked for and the ones
      before it. */
  lemma {:induction false} HintsAreHighWater(c: Curriculum, calls: seq<Call>, l: string)
    requires AllLegal(c, calls)
    ensures HighWater(calls, l, RecordOf(AfterCalls(EMPTY_STATE, c, calls), l).hintsUsed)
    decreases |calls|
  {
    if calls != [] {
      var front, last := calls[..|calls| - 1], calls[|calls| - 1];
      assert calls == front + [last];
      RunSnoc(EMPTY_STATE, c, front, last);
      HintsAreHighWater(c, front, l);
      OneCallHints(AfterCalls(EMPTY_STATE, c, front), c, last, l);
      OneMoreHint(front, last, l, RecordOf(AfterCalls(EMPTY_STATE, c, front), l).hintsUsed);
    }
  }

  function HintsAfter(n: nat, call: Call, l: string): nat {
    if call.HintShown? && call.lesson == l && n <= call.index then call.index + 1 else n
  }

  lemma OneCallHints(s: State, c: Curriculum, call: Call, l: string)
    requires Legal(c, call)
    ensures RecordOf(After(s, c, call), l).hintsUsed == HintsAfter(RecordOf(s, l).hintsUsed, call, l)
  {
  }

  lemma OneMoreHint(front: seq<Call>, last: Call, l: string, n: nat)
    requires HighWater(front, l, n)
    ensures HighWater(front + [last], l, HintsAfter(n, last, l))
  {
    var all, m := front + [last], HintsAfter(n, last, l);
    forall i | 0 <= i < |all| && all[i].HintShown? && all[i].lesson == l
      ensures all[i].index < m
    {
      if i < |front| { assert front[i] == all[i]; }
    }
    if m == n {
      assert n > 0 ==> HintShown(l, n - 1) in all;
    } else {
      assert all[|front|] == HintShown(l, m - 1);
    }
  }

  /** No call takes a revealed hint back. */
  lemma {:induction false} HintsNeverFall(s: State, c: Curriculum, calls: seq<Call>, l: string)
    requires AllLegal(c, calls)
    ensures RecordOf(AfterCalls(s, c, calls), l).hintsUsed >= RecordOf(s, l).hintsUsed
    decreases |calls|
  {
    if calls != [] {
      OneCallHints(s, c, calls[0], l);
      HintsNeverFall(After(s, c, calls[0]), c, calls[1..], l);
    }
  }

  /** Asking again for a hint already revealed changes nothing. */
  lemma HintAgainChangesNothing(s: State, l: string, index: nat, again: nat)
    requires again <= index
    ensures AfterHint(AfterHint(s, l, index), l, again) == AfterHint(s, l, index)
  {
    var t := AfterHint(s, l, index);
    assert t.lessons[l := t.lessons[l]] == t.lessons;
  }

  /** No step is listed twice. */
  predicate NoneTwice(xs: seq<string>) { forall i, j | 0 <= i < j < |xs| :: xs[i] != xs[j] }

  /** From an empty store, the steps done are those recorded, each listed once. */
  lemma {:induction false} StepsAreRecordedOnce(c: Curriculum, calls: seq<Call>, l: string)
    requires AllLegal(c, calls)
    ensures var steps := RecordOf(AfterCalls(EMPTY_STATE, c, calls), l).stepsDone;
            NoneTwice(steps) && forall b :: b in steps <==> StepDone(l, b) in calls
    decreases |calls|
  {
    if calls != [] {
      var front, last := calls[..|calls| - 1], calls[|calls| - 1];
      assert calls == front + [last];
      RunSnoc(EMPTY_STATE, c, front, last);
      StepsAreRecordedOnce(c, front, l);
      OneCallSteps(AfterCalls(EMPTY_STATE, c, front), c, last, l);
    }
  }

  lemma OneCallSteps(s: State, c: Curriculum, call: Call, l: string)
    requires Legal(c, call)
    ensures RecordOf(After(s, c, call), l).stepsDone
         == if call.StepDone? && call.lesson == l then Append(RecordOf(s, l).stepsDone, call.block)
            else RecordOf(s, l).stepsDone
  {
  }
}
