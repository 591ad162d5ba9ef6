/** The learner's progress as a mutable store (learning/server/progress.py:118-494): what
    each operation does to the state, and the object that does it. */
module Progress {
  import opened Options
  import opened Curricula
  import opened Completion
  import opened Interview

  const EMPTY_RECORD: Record := Record(NotStarted, [], map[], [], 0, [], 0, 0, false)

  const EMPTY_STATE: State := State(None, map[], map[], map[])

  /** The record of a lesson, made from the template when there is none. */
  function RecordOf(s: State, id: string): Record { if id in s.lessons then s.lessons[id] else EMPTY_RECORD }

  function WithRecord(s: State, id: string, r: Record): State { s.(lessons := s.lessons[id := r]) }

  function Visited(s: State, id: string, r: Record): State { WithRecord(s, id, r).(lastLesson := Some(id)) }

  function Append(xs: seq<string>, x: string): seq<string> { if x in xs then xs else xs + [x] }

  // ----- The effect of each operation

  function AfterStarted(s: State, id: string): State {
    var r := RecordOf(s, id);
    Visited(s, id,
            r.(started := true, attempts := r.attempts + 1,
               status := if r.status == NotStarted then InProgress else r.status))
  }

  function AfterStep(s: State, id: string, block: string): State {
    var r := RecordOf(s, id);
    Visited(s, id, r.(stepsDone := Append(r.stepsDone, block)))
  }

  /** A historical check that has been seen to pass stands; any other outcome replaces the one
      before, and a mandatory failure un-completes the lesson. */
  function AfterValidation(s: State, id: string, block: string, passed: bool, mandatory: bool, concepts: seq<string>,
                           historical: bool): State {
    var r := RecordOf(s, id);
    if historical && block in r.validations && r.validations[block] then Visited(s, id, r)
    else
      var r' := r.(validations := r.validations[block := passed],
                   status := if !passed && mandatory && r.status == Complete then InProgress else r.status);
      Visited(s, id, r').(concepts := if mandatory then Bump(s.concepts, concepts, passed) else s.concepts)
  }

  function AfterQuiz(s: State, id: string, block: string, correct: bool, concepts: seq<string>): State {
    var r := RecordOf(s, id);
    var r' := r.(quizAttempts := r.quizAttempts + 1,
                 quizCorrect := if correct then Append(r.quizCorrect, block) else r.quizCorrect);
    Visited(s, id, r').(concepts := Bump(s.concepts, concepts, correct))
  }

  function AfterExplain(s: State, id: string, block: string, passed: bool, concepts: seq<string>): State {
    var r := RecordOf(s, id);
    var r' := r.(explainDone := if passed then Append(r.explainDone, block) else r.explainDone);
    Visited(s, id, r').(concepts := Bump(s.concepts, concepts, passed))
  }

  function AfterHint(s: State, id: string, index: nat): State {
    var r := RecordOf(s, id);
    WithRecord(s, id, r.(hintsUsed := if r.hintsUsed < index + 1 then index + 1 else r.hintsUsed))
  }

  function AfterMarkComplete(s: State, c: Curriculum, lesson: Lesson): State {
    if LessonMissing(s, c, lesson, {}) != [] then s
    else WithRecord(s, lesson.id, RecordOf(s, lesson.id).(status := Complete))
  }

  // ----- The store

  class ProgressStore {
    var state: State
    /** The division the scores are computed with. */
    const divide: Division

    constructor (divide: Division)
      ensures state == EMPTY_STATE && this.divide == divide
    {
      state := EMPTY_STATE;
      this.divide := divide;
    }

    /** Makes sure the lesson has a record, and returns it. */
    method LessonRecord(id: string) returns (r: Record)
      modifies this
      ensures r == RecordOf(old(state), id) && state == WithRecord(old(state), id, r)
    {
      if id !in state.lessons {
        state := state.(lessons := state.lessons[id := EMPTY_RECORD]);
      }
      r := state.lessons[id];
      assert state.lessons == state.lessons[id := r];
    }

    method BumpConcepts(names: seq<string>, correct: bool)
      modifies this
      ensures state == old(state).(concepts := Bump(old(state).concepts, names, correct))
    {
      for i := 0 to |names|
        invariant state == old(state).(concepts := state.concepts)
        invariant Bump(state.concepts, names[i..], correct) == Bump(old(state).concepts, names, correct)
      {
        assert names[i..][1..] == names[i + 1..];
        var entry := if names[i] in state.concepts then state.concepts[names[i]] else Tally(0, 0);
        if correct {
          entry := entry.(correct := entry.correct + 1);
        } else {
          entry := entry.(incorrect := entry.incorrect + 1);
        }
        state := state.(concepts := state.concepts[names[i] := entry]);
      }
    }

    method MarkStarted(id: string)
      modifies this
      ensures state == AfterStarted(old(state), id)
    {
      var r := LessonRecord(id);
      if !r.started {
        r := r.(started := true);
      }
      if r.status == NotStarted {
        r := r.(status := InProgress);
      }
      r := r.(attempts := r.attempts + 1);
      state := state.(lessons := state.lessons[id := r], lastLesson := Some(id));
    }

    method RecordStep(id: string, block: string)
      modifies this
      ensures state == AfterStep(old(state), id, block)
    {
      var r := LessonRecord(id);
      if block !in r.stepsDone {
        r := r.(stepsDone := r.stepsDone + [block]);
      }
      state := state.(lessons := state.lessons[id := r], lastLesson := Some(id));
    }

    method RecordValidation(id: string, block: string, passed: bool, mandatory: bool, concepts: seq<string>,
                            historical: bool)
      modifies this
      ensures state == AfterValidation(old(state), id, block, passed, mandatory, concepts, historical)
    {
      var r := LessonRecord(id);
      if historical && block in r.validations && r.validations[block] {
        state := state.(lastLesson := Some(id));
        return;
      }
      r := r.(validations := r.validations[block := passed]);
      if concepts != [] && mandatory {
        BumpConcepts(concepts, passed);
      }
      if !passed && mandatory && r.status == Complete {
        r := r.(status := InProgress);
      }
      state := state.(lessons := state.lessons[id := r], lastLesson := Some(id));
    }

    method RecordQuiz(id: string, block: string, correct: bool, concepts: seq<string>)
      modifies this
      ensures state == AfterQuiz(old(state), id, block, correct, concepts)
    {
      var r := LessonRecord(id);
      r := r.(quizAttempts := r.quizAttempts + 1);
      if correct && block !in r.quizCorrect {
        r := r.(quizCorrect := r.quizCorrect + [block]);
      }
      BumpConcepts(concepts, correct);
      state := state.(lessons := state.lessons[id := r], lastLesson := Some(id));
    }

    method RecordExplain(id: string, block: string, passed: bool, concepts: seq<string>)
      modifies this
      ensures state == AfterExplain(old(state), id, block, passed, concepts)
    {
      var r := LessonRecord(id);
      if passed && block !in r.explainDone {
        r := r.(explainDone := r.explainDone + [block]);
      }
      BumpConcepts(concepts, passed);
      state := state.(lessons := state.lessons[id := r], lastLesson := Some(id));
    }

    method RecordHint(id: string, index: nat) returns (revealed: nat)
      modifies this
      ensures state == AfterHint(old(state), id, index) && revealed == state.lessons[id].hintsUsed
    {
      var r := LessonRecord(id);
      revealed := if r.hintsUsed < index + 1 then index + 1 else r.hintsUsed;
      if revealed != r.hintsUsed {
        r := r.(hintsUsed := revealed);
        state := state.(lessons := state.lessons[id := r]);
      }
    }

    method RecordInterview(question: string, correct: bool, concepts: seq<string>)
      modifies this
      ensures state == AfterInterview(old(state), question, correct, concepts)
    {
      var entry := if question in state.interview then state.interview[question] else Answers(0, 0, 0);
      if correct {
        entry := Answers(entry.correct + 1, entry.incorrect, entry.streak + 1);
      } else {
        entry := Answers(entry.correct, entry.incorrect + 1, 0);
      }
      state := state.(interview := state.interview[question := entry]);
      if concepts != [] {
        BumpConcepts(concepts, correct);
      }
    }

    /** How well each concept is known. */
    method ConceptMastery(names: set<string>) returns (mastery: map<string, Mastery>)
      ensures mastery.Keys == names && forall n | n in names :: mastery[n] == MasteryOf(divide, state.concepts, n)
    {
      mastery := map[];
      var rest := names;
      while rest != {}
        invariant rest <= names && mastery.Keys == names - rest
        invariant forall n | n in mastery :: mastery[n] == MasteryOf(divide, state.concepts, n)
      {
        var n :| n in rest;
        var entry := MasteryEntry(divide, TallyOf(state.concepts, n));
        mastery := mastery[n := entry];
        rest := rest - {n};
      }
    }

    /** A weight for every question, heavier for weak concepts and recent misses. */
    method InterviewWeights(questions: map<string, seq<string>>) returns (weights: map<string, real>)
      ensures weights.Keys == questions.Keys
      ensures forall q | q in questions :: weights[q] == Weight(divide, state, q, questions[q])
    {
      var names := set q, n | q in questions && n in questions[q] :: n;
      var mastery := ConceptMastery(names);
      weights := map[];
      var rest := questions.Keys;
      while rest != {}
        invariant rest <= questions.Keys && weights.Keys == questions.Keys - rest
        invariant forall q | q in weights :: weights[q] == Weight(divide, state, q, questions[q])
      {
        var q :| q in rest;
        assert forall n | n in questions[q] :: n in names;
        var weight := QuestionWeight(q, questions[q], mastery);
        weights := weights[q := weight];
        rest := rest - {q};
      }
    }

    method QuestionWeight(q: string, concepts: seq<string>, mastery: map<string, Mastery>) returns (weight: real)
      requires Shows(divide, mastery, state.concepts, concepts)
      ensures weight == Weight(divide, state, q, concepts)
    {
      weight := ConceptsWeight(concepts, mastery);
      AddsUp(divide, state.concepts, concepts, mastery);
      var history := if q in state.interview then state.interview[q] else Answers(0, 0, 0);
      weight := HistoryWeight(weight, Weakness(divide, state.concepts, concepts), history);
    }

    /** The set handed in is the caller's own; what the call adds to it comes back. */
    method LessonIsComplete(id: string, c: Curriculum, seen: set<string>)
      returns (complete: bool, seenAfter: set<string>)
      ensures complete == IsComplete(state, c, id, seen) && seenAfter == SeenAfter(state, c, id, seen)
      decreases |Unseen(c, seen)|, 0, 0
    {
      seenAfter := seen;
      if id !in state.lessons || state.lessons[id].status != Complete {
        return false, seenAfter;
      }
      if id in seen {
        assert seen + {id} == seen;
        return true, seenAfter;
      }
      if id !in c.lessons {
        return true, seenAfter;
      }
      UnseenShrinks(c, seen, id);
      seenAfter := seenAfter + {id};
      var missing;
      complete, missing := LessonCompletion(c.lessons[id], c, seenAfter);
    }

    /** The set is copied here, so siblings share it and the caller's is not touched. */
    method LessonCompletion(lesson: Lesson, c: Curriculum, seen: set<string>)
      returns (complete: bool, missing: seq<Missing>)
      ensures missing == LessonMissing(state, c, lesson, seen) && complete == (missing == [])
      decreases |Unseen(c, seen)|, 2, 0
    {
      if !lesson.available {
        return false, [LessonUnavailable];
      }
      if lesson.id !in state.lessons {
        return false, [LessonNotStarted];
      }
      var record := state.lessons[lesson.id];
      UnseenShrinks(c, seen, lesson.id);
      var own := seen + {lesson.id};
      missing := CheckPrerequisites(lesson.prerequisites, c, own);
      var validations := CheckValidations(record, lesson.MandatoryValidators());
      var quizzes := CheckQuizzes(record, lesson.RequiredQuizIds());
      var explains := CheckExplains(record, lesson.RequiredExplainIds());
      missing := missing + (validations + (quizzes + explains));
      complete := missing == [];
    }

    /** The loop over prerequisites: each call may add to the set the next one is handed. */
    method CheckPrerequisites(ids: seq<string>, c: Curriculum, seen: set<string>) returns (missing: seq<Missing>)
      ensures missing == PrerequisitesMissing(state, c, ids, seen)
      decreases |Unseen(c, seen)|, 1, |ids|
    {
      missing := [];
      var own := seen;
      for i := 0 to |ids|
        invariant |Unseen(c, own)| <= |Unseen(c, seen)|
        invariant missing + PrerequisitesMissing(state, c, ids[i..], own) == PrerequisitesMissing(state, c, ids, seen)
      {
        UnseenShrinks(c, own, ids[i]);
        NextPrerequisite(state, c, ids[i..], own, missing);
        assert ids[i..][1..] == ids[i + 1..];
        var one;
        one, own := LessonIsComplete(ids[i], c, own);
        if !one {
          missing := missing + [PrerequisiteMissing(ids[i])];
        }
      }
    }

    method MarkComplete(lesson: Lesson, c: Curriculum) returns (complete: bool, missing: seq<Missing>)
      modifies this
      ensures missing == LessonMissing(old(state), c, lesson, {}) && complete == (missing == [])
      ensures state == AfterMarkComplete(old(state), c, lesson)
    {
      complete, missing := LessonCompletion(lesson, c, {});
      if !complete {
        return;
      }
      var r := LessonRecord(lesson.id);
      state := state.(lessons := state.lessons[lesson.id := r.(status := Complete)]);
    }

    /** One verdict per lesson of the program, by the rule prerequisites use. */
    method CompletionMap(c: Curriculum) returns (m: map<string, bool>)
      ensures forall id :: id in m <==> id in c.ordered
      ensures forall id | id in m :: m[id] == IsComplete(state, c, id, {})
    {
      m := map[];
      for i := 0 to |c.ordered|
        invariant forall id :: id in m <==> id in c.ordered[..i]
        invariant forall id | id in m :: m[id] == IsComplete(state, c, id, {})
      {
        var id := c.ordered[i];
        var complete, _ := LessonIsComplete(id, c, {});
        m := m[id := complete];
        assert c.ordered[..i + 1] == c.ordered[..i] + [id];
      }
      assert c.ordered[..|c.ordered|] == c.ordered;
    }

    /** Where the learner should go on. */
    method ResumeLessonId(c: Curriculum) returns (id: string)
      requires c.ordered != []
      ensures (exists l | l in c.ordered :: Actionable(state, c, l)) ==> Actionable(state, c, id)
      ensures state.lastLesson.Some? && Actionable(state, c, state.lastLesson.value) ==> id == state.lastLesson.value
      ensures !(state.lastLesson.Some? && Actionable(state, c, state.lastLesson.value))
              ==> id == FirstActionable(state, c, c.ordered)
    {
      var complete := CompletionMap(c);
      if state.lastLesson.Some? {
        var ok := IsActionable(state.lastLesson.value, c, complete);
        if ok {
          return state.lastLesson.value;
        }
      }
      for i := 0 to |c.ordered|
        invariant forall j | 0 <= j < i :: !Actionable(state, c, c.ordered[j])
        invariant FirstActionable(state, c, c.ordered[i..]) == FirstActionable(state, c, c.ordered)
      {
        assert c.ordered[i..][1..] == c.ordered[i + 1..];
        var ok := IsActionable(c.ordered[i], c, complete);
        if ok {
          return c.ordered[i];
        }
      }
      id := c.ordered[|c.ordered| - 1];
    }

    method IsActionable(id: string, c: Curriculum, complete: map<string, bool>) returns (ok: bool)
      requires forall l :: l in complete <==> l in c.ordered
      requires forall l | l in complete :: complete[l] == IsComplete(state, c, l, {})
      ensures ok == Actionable(state, c, id)
    {
      if id !in c.lessons || !c.lessons[id].available {
        return false;
      }
      if id in complete && complete[id] {
        return false;
      }
      var ids := c.lessons[id].prerequisites;
      for i := 0 to |ids|
        invariant forall j | 0 <= j < i :: Done(state, c, ids[j])
      {
        if !(ids[i] in complete && complete[ids[i]]) {
          assert !Done(state, c, ids[i]) && ids[i] in ids;
          return false;
        }
      }
      return true;
    }
  }

  lemma NextPrerequisite(s: State, c: Curriculum, ids: seq<string>, own: set<string>, missing: seq<Missing>)
    requires ids != []
    ensures var rest := PrerequisitesMissing(s, c, ids[1..], SeenAfter(s, c, ids[0], own));
            missing + PrerequisitesMissing(s, c, ids, own)
            == if IsComplete(s, c, ids[0], own) then missing + rest
               else (missing + [PrerequisiteMissing(ids[0])]) + rest
  {
    UnseenShrinks(c, own, ids[0]);
    var rest := PrerequisitesMissing(s, c, ids[1..], SeenAfter(s, c, ids[0], own));
    assert [] + rest == rest;
    assert (missing + [PrerequisiteMissing(ids[0])]) + rest == missing + ([PrerequisiteMissing(ids[0])] + rest);
  }

  /** A concept nobody was asked about weighs half, any other by how often it was missed. */
  method MasteryEntry(divide: Division, t: Tally) returns (entry: Mastery)
    ensures entry.correct == t.correct && entry.incorrect == t.incorrect
    ensures entry.score == Score(divide, t.correct, t.incorrect)
            && (entry.weak <==> entry.score.Some? && entry.score.value < 0.7)
  {
    var total := t.correct + t.incorrect;
    if total == 0 {
      entry := Mastery(t.correct, t.incorrect, None, false);
    } else {
      var score := divide(t.correct, total);
      entry := Mastery(t.correct, t.incorrect, Some(score), score < 0.7);
    }
  }

  /** One, and what each concept adds. */
  method ConceptsWeight(names: seq<string>, mastery: map<string, Mastery>) returns (weight: real)
    ensures weight == 1.0 + Added(mastery, names)
  {
    weight := 1.0;
    for i := 0 to |names|
      invariant weight == 1.0 + Added(mastery, names[..i])
    {
      assert names[..i + 1][..i] == names[..i];
      var score := if names[i] in mastery then mastery[names[i]].score else None;
      if score == None {
        weight := weight + 0.5;
      } else {
        weight := weight + (1.0 - score.value);
      }
    }
    assert names[..|names|] == names;
  }

  /** Two for every miss, then the decay of the streak. */
  method HistoryWeight(before: real, ghost weakness: real, history: Answers) returns (weight: real)
    requires before == 1.0 + weakness
    ensures weight == WeightOf(weakness, history)
  {
    weight := before + 2.0 * history.incorrect as real;
    var streak := if history.streak < 6 then history.streak else 6;
    weight := Decayed(weight, streak);
  }

  /** Halves the weight once for every correct answer of the streak, down to the floor. */
  method Decayed(full: real, streak: nat) returns (weight: real)
    ensures weight == Floored(Decay(full, streak))
  {
    weight := full;
    for i := 0 to streak
      invariant weight == Decay(full, i)
    {
      weight := weight / 2.0;
    }
    if weight < MIN_INTERVIEW_WEIGHT {
      weight := MIN_INTERVIEW_WEIGHT;
    }
  }

  lemma Appended(a: seq<Missing>, b: seq<Missing>, c: seq<Missing>)
    ensures a + (b + c) == (a + b) + c && a + [] == a
  {
  }

  method CheckValidations(r: Record, ids: seq<string>) returns (missing: seq<Missing>)
    ensures missing == MissingValidations(r, ids)
  {
    missing := [];
    for i := 0 to |ids|
      invariant missing + MissingValidations(r, ids[i..]) == MissingValidations(r, ids)
    {
      assert ids[i..][1..] == ids[i + 1..];
      Appended(missing,
               if ids[i] in r.validations && r.validations[ids[i]] then [] else [ValidationMissing(ids[i])],
               MissingValidations(r, ids[i + 1..]));
      if !(ids[i] in r.validations && r.validations[ids[i]]) {
        missing := missing + [ValidationMissing(ids[i])];
      }
    }
  }

  method CheckQuizzes(r: Record, ids: seq<string>) returns (missing: seq<Missing>)
    ensures missing == MissingQuizzes(r, ids)
  {
    missing := [];
    for i := 0 to |ids|
      invariant missing + MissingQuizzes(r, ids[i..]) == MissingQuizzes(r, ids)
    {
      assert ids[i..][1..] == ids[i + 1..];
      Appended(missing, if ids[i] in r.quizCorrect then [] else [QuizMissing(ids[i])], MissingQuizzes(r, ids[i + 1..]));
      if ids[i] !in r.quizCorrect {
        missing := missing + [QuizMissing(ids[i])];
      }
    }
  }

  method CheckExplains(r: Record, ids: seq<string>) returns (missing: seq<Missing>)
    ensures missing == MissingExplains(r, ids)
  {
    missing := [];
    for i := 0 to |ids|
      invariant missing + MissingExplains(r, ids[i..]) == MissingExplains(r, ids)
    {
      assert ids[i..][1..] == ids[i + 1..];
      Appended(missing, if ids[i] in r.explainDone then [] else [ExplainMissing(ids[i])],
               MissingExplains(r, ids[i + 1..]));
      if ids[i] !in r.explainDone {
        missing := missing + [ExplainMissing(ids[i])];
      }
    }
  }

  // ----- Navigation

  /** The map the navigation reads has this lesson down as complete. */
  predicate Done(s: State, c: Curriculum, id: string) { id in c.ordered && IsComplete(s, c, id, {}) }

  /** A lesson the learner can work on now. */
  predicate Actionable(s: State, c: Curriculum, id: string) {
    && id in c.lessons && c.lessons[id].available && !Done(s, c, id)
    && forall p | p in c.lessons[id].prerequisites :: Done(s, c, p)
  }

  /** The first actionable lesson of the program, or its last lesson. */
  function FirstActionable(s: State, c: Curriculum, ordered: seq<string>): string
    requires c.ordered != []
  {
    if ordered == [] then c.ordered[|c.ordered| - 1]
    else if Actionable(s, c, ordered[0]) then ordered[0]
    else FirstActionable(s, c, ordered[1..])
  }

  /** When nothing is actionable, every lesson whose whole prerequisite closure is available
      is complete: the program has no dead end. */
  lemma {:induction false} NoDeadEnd(s: State, c: Curriculum, i: nat)
    requires WellOrdered(c) && i < |c.ordered|
    requires forall l | l in c.ordered :: !Actionable(s, c, l)
    requires forall y | Reaches(c, c.ordered[i], y) :: y in c.lessons && c.lessons[y].available
    ensures IsComplete(s, c, c.ordered[i], {})
    decreases i
  {
    var id := c.ordered[i];
    assert Chain(c, [id]) && Reaches(c, id, id) by { assert [id][0] == id; }
    forall p | p in c.lessons[id].prerequisites
      ensures Done(s, c, p)
    {
      assert ComesBefore(c, p, i);
      var j :| 0 <= j < i && c.ordered[j] == p;
      forall y | Reaches(c, p, y)
        ensures Reaches(c, id, y)
      {
        var path :| Chain(c, path) && path[0] == p && path[|path| - 1] == y;
        ChainFront(c, id, path);
        assert ([id] + path)[0] == id;
      }
      NoDeadEnd(s, c, j);
    }
    assert !Actionable(s, c, id);
  }
}
