/** What the store holds, told by the calls that were made on it from the empty store on
    (learning/server/progress.py:230-369, 464-475): nothing gets into a record otherwise. */
module ProgressHistory {
  import opened Options
  import opened Curricula
  import opened Completion
  import opened Interview
  import opened Progress
  import opened ProgressRuns

  // ----- Calls about a block of a lesson

  predicate Answered(call: Call, l: string, b: string) {
    call.QuizAnswered? && call.lesson == l && call.block == b && call.correct
  }

  predicate WasExplained(call: Call, l: string, b: string) {
    call.Explained? && call.lesson == l && call.block == b && call.passed
  }

  predicate Checked(call: Call, l: string, b: string) { call.Validated? && call.lesson == l && call.block == b }

  /** The last check of the block passed. */
  ghost predicate LastCheckPassed(calls: seq<Call>, l: string, b: string) {
    exists i | 0 <= i < |calls| ::
      Passes(calls[i], l, b) && forall j | i < j < |calls| :: !Checked(calls[j], l, b)
  }

  ghost predicate EverPassed(calls: seq<Call>, l: string, b: string) {
    exists i | 0 <= i < |calls| :: Passes(calls[i], l, b)
  }

  function RecordAfter(c: Curriculum, calls: seq<Call>, l: string): Record
    requires AllLegal(c, calls)
  {
    RecordOf(AfterCalls(EMPTY_STATE, c, calls), l)
  }

  /** The last of some calls, and the state before it. */
  lemma Last(c: Curriculum, calls: seq<Call>) returns (front: seq<Call>, last: Call)
    requires calls != [] && AllLegal(c, calls)
    ensures calls == front + [last] && AllLegal(c, front) && Legal(c, last)
    ensures AfterCalls(EMPTY_STATE, c, calls) == After(AfterCalls(EMPTY_STATE, c, front), c, last)
  {
    front, last := calls[..|calls| - 1], calls[|calls| - 1];
    assert calls == front + [last];
    RunSnoc(EMPTY_STATE, c, front, last);
  }

  // ----- Quizzes and explanations

  /** A quiz counts as answered if and only if it was answered correctly at some time. */
  lemma {:induction false} QuizCorrectWasAnswered(c: Curriculum, calls: seq<Call>, l: string, b: string)
    requires AllLegal(c, calls)
    ensures b in RecordAfter(c, calls, l).quizCorrect <==> exists i | 0 <= i < |calls| :: Answered(calls[i], l, b)
    decreases |calls|
  {
    if calls != [] {
      var front, last := Last(c, calls);
      QuizCorrectWasAnswered(c, front, l, b);
      OneCallQuiz(AfterCalls(EMPTY_STATE, c, front), c, last, l, b);
      SomeCall(front, last, (call: Call) => Answered(call, l, b));
    }
  }

  lemma OneCallQuiz(s: State, c: Curriculum, call: Call, l: string, b: string)
    requires Legal(c, call)
    ensures b in RecordOf(After(s, c, call), l).quizCorrect <==> b in RecordOf(s, l).quizCorrect || Answered(call, l, b)
  {
  }

  lemma SomeCall(front: seq<Call>, last: Call, p: Call -> bool)
    ensures (exists i | 0 <= i < |front + [last]| :: p((front + [last])[i]))
       <==> (exists i | 0 <= i < |front| :: p(front[i])) || p(last)
  {
    var all := front + [last];
    assert all[|front|] == last;
    forall i | 0 <= i < |front|
      ensures all[i] == front[i]
    {
    }
  }

  /** An explanation counts if and only if it passed at some time. */
  lemma {:induction false} ExplainDoneWasExplained(c: Curriculum, calls: seq<Call>, l: string, b: string)
    requires AllLegal(c, calls)
    ensures b in RecordAfter(c, calls, l).explainDone <==> exists i | 0 <= i < |calls| :: WasExplained(calls[i], l, b)
    decreases |calls|
  {
    if calls != [] {
      var front, last := Last(c, calls);
      ExplainDoneWasExplained(c, front, l, b);
      OneCallExplain(AfterCalls(EMPTY_STATE, c, front), c, last, l, b);
      SomeCall(front, last, (call: Call) => WasExplained(call, l, b));
    }
  }

  lemma OneCallExplain(s: State, c: Curriculum, call: Call, l: string, b: string)
    requires Legal(c, call)
    ensures b in RecordOf(After(s, c, call), l).explainDone
       <==> b in RecordOf(s, l).explainDone || WasExplained(call, l, b)
  {
  }

  // ----- Checks

  /** A historical check counts as passed if and only if it has ever passed, any other if and
      only if its last run passed. */
  lemma {:induction false} CheckPassedWasChecked(c: Curriculum, calls: seq<Call>, l: string, b: string)
    requires AllLegal(c, calls)
    ensures CheckPassed(AfterCalls(EMPTY_STATE, c, calls), l, b)
       <==> if HistoricalBlock(c, l, b) then EverPassed(calls, l, b) else LastCheckPassed(calls, l, b)
    decreases |calls|
  {
    if calls != [] {
      var front, last := Last(c, calls);
      CheckPassedWasChecked(c, front, l, b);
      OneCallCheck(AfterCalls(EMPTY_STATE, c, front), c, last, l, b);
      SomeCall(front, last, (call: Call) => Passes(call, l, b));
      LastOneMore(front, last, l, b);
    }
  }

  lemma OneCallCheck(s: State, c: Curriculum, call: Call, l: string, b: string)
    requires Legal(c, call)
    ensures CheckPassed(After(s, c, call), l, b)
       <==> if Checked(call, l, b) then call.passed || (HistoricalBlock(c, l, b) && CheckPassed(s, l, b))
            else CheckPassed(s, l, b)
  {
  }

  lemma LastOneMore(front: seq<Call>, last: Call, l: string, b: string)
    ensures LastCheckPassed(front + [last], l, b)
       <==> if Checked(last, l, b) then last.passed else LastCheckPassed(front, l, b)
  {
    var all := front + [last];
    if Checked(last, l, b) {
      assert all[|front|] == last;
    } else {
      if LastCheckPassed(front, l, b) { StillLast(front, last, l, b); }
      if LastCheckPassed(all, l, b) { WasLast(front, last, l, b); }
    }
  }

  lemma StillLast(front: seq<Call>, last: Call, l: string, b: string)
    requires LastCheckPassed(front, l, b) && !Checked(last, l, b)
    ensures LastCheckPassed(front + [last], l, b)
  {
    var all := front + [last];
    var i :| 0 <= i < |front| && Passes(front[i], l, b) && forall j | i < j < |front| :: !Checked(front[j], l, b);
    assert all[i] == front[i] && forall j | i < j < |all| :: j < |front| ==> all[j] == front[j];
  }

  lemma WasLast(front: seq<Call>, last: Call, l: string, b: string)
    requires LastCheckPassed(front + [last], l, b) && !Checked(last, l, b)
    ensures LastCheckPassed(front, l, b)
  {
    var all := front + [last];
    var i :| 0 <= i < |all| && Passes(all[i], l, b) && forall j | i < j < |all| :: !Checked(all[j], l, b);
    assert front[i] == all[i] && forall j | i < j < |front| :: front[j] == all[j];
  }

  // ----- Gates, block by block

  /** A block asks for nothing, or its check, quiz or explanation is in the record. */
  predicate BlockSatisfied(r: Record, b: Block) {
    match b.kind
    case Verify => b.mandatory ==> b.id in r.validations && r.validations[b.id]
    case Quiz => b.id in r.quizCorrect
    case Explain => b.id in r.explainDone
    case _ => true
  }

  /** The gates of a lesson are its mandatory checks, its quizzes and its explanations. */
  lemma GatesAreBlocks(s: State, lesson: Lesson)
    ensures OwnGates(s, lesson) <==>
              lesson.available && lesson.id in s.lessons
              && forall b | b in lesson.blocks :: BlockSatisfied(s.lessons[lesson.id], b)
  {
    if lesson.available && lesson.id in s.lessons {
      var r := s.lessons[lesson.id];
      forall b | b in lesson.blocks
        ensures b.kind == Verify && b.mandatory ==> b.id in lesson.MandatoryValidators()
        ensures b.kind == Quiz ==> b.id in lesson.RequiredQuizIds()
        ensures b.kind == Explain ==> b.id in lesson.RequiredExplainIds()
      {
      }
    }
  }

  /** What a block of a complete lesson says about the calls. */
  ghost predicate Earned(c: Curriculum, calls: seq<Call>, l: string, b: Block) {
    match b.kind
    case Verify =>
      b.mandatory ==> if b.historical then EverPassed(calls, l, b.id) else LastCheckPassed(calls, l, b.id)
    case Quiz => exists i | 0 <= i < |calls| :: Answered(calls[i], l, b.id)
    case Explain => exists i | 0 <= i < |calls| :: WasExplained(calls[i], l, b.id)
    case _ => true
  }

  /** From an empty store, through any calls: a lesson stored complete is available, each of
      its quizzes was answered correctly, each explanation passed, each mandatory check passed
      when it was last run, or ever if it is historical. */
  lemma CompleteWasEarned(c: Curriculum, calls: seq<Call>, l: string)
    requires WellOrdered(c) && AllLegal(c, calls) && l in c.lessons
    requires StoredComplete(AfterCalls(EMPTY_STATE, c, calls), l)
    ensures c.lessons[l].available && forall b | b in c.lessons[l].blocks :: Earned(c, calls, l, b)
  {
    CompleteRestsOnGates(c, calls, l);
    GatesAreBlocks(AfterCalls(EMPTY_STATE, c, calls), c.lessons[l]);
    forall b | b in c.lessons[l].blocks
      ensures Earned(c, calls, l, b)
    {
      BlockEarned(c, calls, l, b);
    }
  }

  lemma BlockEarned(c: Curriculum, calls: seq<Call>, l: string, b: Block)
    requires WellOrdered(c) && AllLegal(c, calls) && l in c.lessons && b in c.lessons[l].blocks
    requires BlockSatisfied(RecordAfter(c, calls, l), b)
    ensures Earned(c, calls, l, b)
  {
    match b.kind
    case Verify =>
      TheVerifyBlock(c.lessons[l], b);
      CheckPassedWasChecked(c, calls, l, b.id);
    case Quiz => QuizCorrectWasAnswered(c, calls, l, b.id);
    case Explain => ExplainDoneWasExplained(c, calls, l, b.id);
    case _ =>
  }

  lemma TheVerifyBlock(lesson: Lesson, b: Block)
    requires lesson.UniqueBlocks() && b in lesson.blocks && b.kind == Verify
    ensures lesson.VerifyBlock(b.id) < |lesson.blocks| && lesson.blocks[lesson.VerifyBlock(b.id)] == b
  {
    var i :| 0 <= i < |lesson.blocks| && lesson.blocks[i] == b;
    var j := lesson.VerifyBlock(b.id);
    assert j < |lesson.blocks| ==> lesson.blocks[j].id == lesson.blocks[i].id;
  }

  // ----- Status

  /** The call fails a mandatory check that no historical pass covers. */
  predicate Revokes(s: State, call: Call, l: string) {
    call.Validated? && call.lesson == l && !call.passed && call.mandatory
    && !(call.historical && CheckPassed(s, l, call.block))
  }

  /** The call marks the lesson, and nothing is missing. */
  ghost predicate Grants(s: State, c: Curriculum, call: Call, l: string) {
    && call == MarkedComplete(l) && l in c.lessons && OwnGates(s, c.lessons[l])
    && forall p | Requires(c, l, p) :: ClosureSound(s, c, p)
  }

  /** A lesson becomes complete when it is marked with nothing missing, stops being so when a
      check revokes it, and otherwise stays as it was. */
  lemma CompleteFollowsCalls(s: State, c: Curriculum, call: Call, l: string)
    requires WellKeyed(c) && Legal(c, call)
    ensures StoredComplete(After(s, c, call), l) <==>
              Grants(s, c, call, l) || (StoredComplete(s, l) && !Revokes(s, call, l))
  {
    if call.MarkedComplete? { MissingIsExact(s, c, call.lesson); }
  }

  /** A lesson is not started until it is opened or completed. */
  lemma StartedFollowsCalls(s: State, c: Curriculum, call: Call, l: string)
    requires WellKeyed(c) && Legal(c, call)
    ensures RecordOf(After(s, c, call), l).status == NotStarted <==>
              RecordOf(s, l).status == NotStarted && call != Started(l) && !Grants(s, c, call, l)
    ensures l in After(s, c, call).lessons <==>
              l in s.lessons || (!call.Interviewed? && !call.MarkedComplete? && call.lesson == l)
  {
    if call.MarkedComplete? { MissingIsExact(s, c, call.lesson); }
  }

  // ----- Counts

  function Times(calls: seq<Call>, p: Call -> bool): nat
    decreases |calls|
  {
    if calls == [] then 0
    else Times(calls[..|calls| - 1], p) + if p(calls[|calls| - 1]) then 1 else 0
  }

  lemma TimesSnoc(front: seq<Call>, last: Call, p: Call -> bool)
    ensures Times(front + [last], p) == Times(front, p) + if p(last) then 1 else 0
  {
    assert (front + [last])[..|front|] == front;
  }

  /** Attempts count the times a lesson was opened, quiz attempts the answers, right or wrong. */
  lemma {:induction false} AttemptsAreCounted(c: Curriculum, calls: seq<Call>, l: string)
    requires AllLegal(c, calls)
    ensures RecordAfter(c, calls, l).attempts == Times(calls, (call: Call) => call == Started(l))
    ensures RecordAfter(c, calls, l).quizAttempts
         == Times(calls, (call: Call) => call.QuizAnswered? && call.lesson == l)
    decreases |calls|
  {
    if calls != [] {
      var front, last := Last(c, calls);
      AttemptsAreCounted(c, front, l);
      OneCallAttempts(AfterCalls(EMPTY_STATE, c, front), c, last, l);
      TimesSnoc(front, last, (call: Call) => call == Started(l));
      TimesSnoc(front, last, (call: Call) => call.QuizAnswered? && call.lesson == l);
    }
  }

  lemma OneCallAttempts(s: State, c: Curriculum, call: Call, l: string)
    requires Legal(c, call)
    ensures RecordOf(After(s, c, call), l).attempts == RecordOf(s, l).attempts + if call == Started(l) then 1 else 0
    ensures RecordOf(After(s, c, call), l).quizAttempts
         == RecordOf(s, l).quizAttempts + if call.QuizAnswered? && call.lesson == l then 1 else 0
    ensures RecordOf(After(s, c, call), l).started <==> RecordOf(s, l).started || call == Started(l)
  {
  }

  /** Interview totals count the answers to the question. */
  lemma {:induction false} InterviewIsCounted(c: Curriculum, calls: seq<Call>, q: string)
    requires AllLegal(c, calls)
    ensures var a := HistoryOf(AfterCalls(EMPTY_STATE, c, calls), q);
            && a.correct == Times(calls, (call: Call) => call.Interviewed? && call.question == q && call.correct)
            && a.incorrect == Times(calls, (call: Call) => call.Interviewed? && call.question == q && !call.correct)
    decreases |calls|
  {
    if calls != [] {
      var front, last := Last(c, calls);
      InterviewIsCounted(c, front, q);
      OneCallInterview(AfterCalls(EMPTY_STATE, c, front), c, last, q);
      TimesSnoc(front, last, (call: Call) => call.Interviewed? && call.question == q && call.correct);
      TimesSnoc(front, last, (call: Call) => call.Interviewed? && call.question == q && !call.correct);
    }
  }

  lemma OneCallInterview(s: State, c: Curriculum, call: Call, q: string)
    requires Legal(c, call)
    ensures var a, a' := HistoryOf(s, q), HistoryOf(After(s, c, call), q);
            && a'.correct == a.correct + (if call.Interviewed? && call.question == q && call.correct then 1 else 0)
            && a'.incorrect == a.incorrect + if call.Interviewed? && call.question == q && !call.correct then 1 else 0
  {
  }

  // ----- Concepts

  /** The verdict a call passes on its concepts, if it does: not when the check is not
      mandatory, nor when a historical one has already served its purpose. */
  function Verdict(s: State, call: Call): Option<bool> {
    match call
    case QuizAnswered(_, _, correct, _) => Some(correct)
    case Explained(_, _, passed, _) => Some(passed)
    case Interviewed(_, correct, _) => Some(correct)
    case Validated(l, b, passed, mandatory, _, historical) =>
      if !mandatory || (historical && CheckPassed(s, l, b)) then None else Some(passed)
    case _ => None
  }

  function ConceptsOf(call: Call): seq<string> {
    if call.QuizAnswered? || call.Explained? || call.Interviewed? || call.Validated? then call.concepts else []
  }

  /** Each call adds to each of its concepts, as often as it names it, one success or one
      failure, as its verdict goes. */
  lemma ConceptsFollowCalls(s: State, c: Curriculum, call: Call, n: string)
    requires Legal(c, call)
    ensures var t, t' := TallyOf(s.concepts, n), TallyOf(After(s, c, call).concepts, n);
            var named := multiset(ConceptsOf(call))[n];
            && t'.correct == t.correct + (if Verdict(s, call) == Some(true) then named else 0)
            && t'.incorrect == t.incorrect + if Verdict(s, call) == Some(false) then named else 0
  {
    BumpCounts(s.concepts, ConceptsOf(call), true, n);
    BumpCounts(s.concepts, ConceptsOf(call), false, n);
  }

  lemma {:induction false} BumpCounts(concepts: map<string, Tally>, names: seq<string>, correct: bool, n: string)
    ensures var t, t' := TallyOf(concepts, n), TallyOf(Bump(concepts, names, correct), n);
            && t'.correct == t.correct + (if correct then multiset(names)[n] else 0)
            && t'.incorrect == t.incorrect + if correct then 0 else multiset(names)[n]
    decreases |names|
  {
    if names != [] {
      assert names == [names[0]] + names[1..];
      BumpCounts(concepts[names[0] := Counted(TallyOf(concepts, names[0]), correct)], names[1..], correct, n);
    }
  }

  // ----- Where the learner is

  /** The lesson the call leaves the learner at, if it moves her. */
  function Moves(call: Call): Option<string> {
    match call
    case Started(l) => Some(l)
    case StepDone(l, _) => Some(l)
    case Validated(l, _, _, _, _, _) => Some(l)
    case QuizAnswered(l, _, _, _) => Some(l)
    case Explained(l, _, _, _) => Some(l)
    case _ => None
  }

  lemma LastLessonFollowsCalls(s: State, c: Curriculum, call: Call)
    requires Legal(c, call)
    ensures After(s, c, call).lastLesson == if Moves(call) == None then s.lastLesson else Moves(call)
  {
  }

  // ----- Navigation

  /** A lesson can be worked on exactly when it is available, not complete itself, and
      complete all the way behind each of its prerequisites. */
  lemma ActionableMeans(s: State, c: Curriculum, id: string)
    requires WellOrdered(c)
    ensures Actionable(s, c, id) <==>
              id in c.lessons && c.lessons[id].available && !ClosureSound(s, c, id)
              && forall p | Requires(c, id, p) :: ClosureSound(s, c, p)
  {
    if id in c.lessons {
      SharedSeenIsExact(s, c, id);
      var i :| 0 <= i < |c.ordered| && c.ordered[i] == id;
      forall p | p in c.lessons[id].prerequisites
        ensures p in c.ordered && (Done(s, c, p) <==> ClosureSound(s, c, p))
      {
        assert ComesBefore(c, p, i);
        SharedSeenIsExact(s, c, p);
      }
    }
  }

  /** The lesson to resume is the first of the program that can be worked on, and the last of
      the program when there is none. */
  lemma {:induction false} FirstActionableIsFirst(s: State, c: Curriculum, ordered: seq<string>)
    requires c.ordered != []
    ensures (forall l | l in ordered :: !Actionable(s, c, l)) ==>
              FirstActionable(s, c, ordered) == c.ordered[|c.ordered| - 1]
    ensures (exists l | l in ordered :: Actionable(s, c, l)) ==>
              IsFirst(s, c, ordered, FirstActionable(s, c, ordered))
  {
    if ordered != [] && !Actionable(s, c, ordered[0]) {
      FirstActionableIsFirst(s, c, ordered[1..]);
      assert ordered == [ordered[0]] + ordered[1..];
      if exists l | l in ordered[1..] :: Actionable(s, c, l) { FirstIsLater(s, c, ordered); }
    }
  }

  /** This lesson is the first of the list that can be worked on. */
  ghost predicate IsFirst(s: State, c: Curriculum, ordered: seq<string>, id: string) {
    exists i | 0 <= i < |ordered| ::
      ordered[i] == id && Actionable(s, c, ordered[i]) && forall j | 0 <= j < i :: !Actionable(s, c, ordered[j])
  }

  lemma FirstIsLater(s: State, c: Curriculum, ordered: seq<string>)
    requires c.ordered != [] && ordered != [] && !Actionable(s, c, ordered[0])
    requires IsFirst(s, c, ordered[1..], FirstActionable(s, c, ordered[1..]))
    ensures IsFirst(s, c, ordered, FirstActionable(s, c, ordered))
  {
    var more := ordered[1..];
    var i :| 0 <= i < |more| && more[i] == FirstActionable(s, c, more) && Actionable(s, c, more[i])
             && forall j | 0 <= j < i :: !Actionable(s, c, more[j]);
    assert ordered[i + 1] == more[i];
    assert forall j | 1 <= j < i + 1 :: ordered[j] == more[j - 1];
  }
}
