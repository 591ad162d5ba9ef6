/** Lessons, their gates, and the loader's checks on identity and order
    (learning/server/curriculum.py:45-113, 143-156, 293-354). */
module Curricula {

  datatype Kind = Learn | Predict | Do | Verify | Quiz | Explain

  datatype Block = Block(id: string, kind: Kind, mandatory: bool, historical: bool)

  datatype Lesson = Lesson(id: string, available: bool, prerequisites: seq<string>, concepts: seq<string>,
                           blocks: seq<Block>)
  {
    /** The identifiers of the blocks a test selects, in order. */
    static function Select(blocks: seq<Block>, test: Block -> bool): (ids: seq<string>)
      ensures forall id :: id in ids <==> exists b | b in blocks :: test(b) && b.id == id
    {
      if blocks == [] then []
      else
        var rest := Select(blocks[1..], test);
        assert blocks == [blocks[0]] + blocks[1..];
        (if test(blocks[0]) then [blocks[0].id] else []) + rest
    }

    function MandatoryValidators(): seq<string> { Select(blocks, (b: Block) => b.kind == Verify && b.mandatory) }

    function RequiredQuizIds(): seq<string> { Select(blocks, (b: Block) => b.kind == Quiz) }

    function RequiredExplainIds(): seq<string> { Select(blocks, (b: Block) => b.kind == Explain) }

    /** The loader rejects a lesson whose blocks share an identifier. */
    predicate UniqueBlocks() { forall i, j | 0 <= i < j < |blocks| :: blocks[i].id != blocks[j].id }

    predicate ConceptsKnown(known: set<string>) { forall c | c in concepts :: c in known }

    /** The verify block a request names, as the server looks it up. */
    function VerifyBlock(blockId: string): (i: nat)
      ensures i <= |blocks|
      ensures i < |blocks| ==> blocks[i].kind == Verify && blocks[i].id == blockId
      ensures i == |blocks| ==> forall j | 0 <= j < |blocks| :: !(blocks[j].kind == Verify && blocks[j].id == blockId)
    {
      FindVerify(blocks, blockId)
    }

    static function FindVerify(blocks: seq<Block>, blockId: string): (i: nat)
      ensures i <= |blocks|
      ensures i < |blocks| ==> blocks[i].kind == Verify && blocks[i].id == blockId
      ensures i == |blocks| ==> forall j | 0 <= j < |blocks| :: !(blocks[j].kind == Verify && blocks[j].id == blockId)
    {
      if blocks == [] || (blocks[0].kind == Verify && blocks[0].id == blockId) then 0
      else
        var i := FindVerify(blocks[1..], blockId);
        assert forall j | 0 < j < |blocks| :: blocks[j] == blocks[1..][j - 1];
        1 + i
    }
  }

  datatype Curriculum = Curriculum(lessons: map<string, Lesson>, ordered: seq<string>)

  /** The lessons are filed under their own identifiers. */
  ghost predicate WellKeyed(c: Curriculum) {
    forall id | id in c.lessons :: c.lessons[id].id == id
  }

  /** `p` comes before place `i` of the program. */
  predicate ComesBefore(c: Curriculum, p: string, i: nat)
    requires i <= |c.ordered|
  {
    p in c.ordered[..i]
  }

  /** The order the loader guarantees: every lesson once, prerequisites strictly earlier. */
  ghost predicate WellOrdered(c: Curriculum) {
    && WellKeyed(c)
    && c.ordered != []
    && (forall id :: id in c.lessons <==> id in c.ordered)
    && (forall i, j | 0 <= i < j < |c.ordered| :: c.ordered[i] != c.ordered[j])
    && (forall id | id in c.lessons :: c.lessons[id].UniqueBlocks())
    && (forall i, p | 0 <= i < |c.ordered| && p in c.lessons[c.ordered[i]].prerequisites :: ComesBefore(c, p, i))
  }

  datatype Loaded =
    | Program(c: Curriculum)
    | DuplicateBlock(lesson: string)
    | DuplicateLesson(lesson: string)
    | UnknownConcept(lesson: string, concept: string)
    | NoLessons
    | UnknownPrerequisite(lesson: string, prerequisite: string)
    | SelfPrerequisite(lesson: string)
    | LaterPrerequisite(lesson: string, prerequisite: string)

  /** `_validate_blocks`, as far as identifiers go. */
  method BlocksUnique(lesson: Lesson) returns (ok: bool)
    ensures ok == lesson.UniqueBlocks()
  {
    var seenIds: set<string> := {};
    for i := 0 to |lesson.blocks|
      invariant seenIds == set j | 0 <= j < i :: lesson.blocks[j].id
      invariant forall j, k | 0 <= j < k < i :: lesson.blocks[j].id != lesson.blocks[k].id
    {
      if lesson.blocks[i].id in seenIds {
        return false;
      }
      seenIds := seenIds + {lesson.blocks[i].id};
    }
    return true;
  }

  /** These are the places of exactly the blocks that pass the test, from left to right. */
  ghost predicate Places(blocks: seq<Block>, test: Block -> bool, places: seq<nat>) {
    && (forall i | 0 <= i < |places| :: places[i] < |blocks| && test(blocks[places[i]]))
    && (forall i, j | 0 <= i < j < |places| :: places[i] < places[j])
    && (forall k | 0 <= k < |blocks| && test(blocks[k]) :: k in places)
  }

  function IdsAt(blocks: seq<Block>, places: seq<nat>): (ids: seq<string>)
    requires forall i | 0 <= i < |places| :: places[i] < |blocks|
    ensures |ids| == |places| && forall i | 0 <= i < |places| :: ids[i] == blocks[places[i]].id
  {
    seq(|places|, i requires 0 <= i < |places| => blocks[places[i]].id)
  }

  /** A gate lists the identifiers of exactly the blocks it selects, in the blocks' order. */
  lemma {:induction false} SelectKeepsOrder(blocks: seq<Block>, test: Block -> bool) returns (places: seq<nat>)
    ensures Places(blocks, test, places) && Lesson.Select(blocks, test) == IdsAt(blocks, places)
    decreases |blocks|
  {
    if blocks == [] {
      places := [];
    } else {
      var front, last := blocks[..|blocks| - 1], blocks[|blocks| - 1];
      assert blocks == front + [last];
      places := SelectKeepsOrder(front, test);
      SelectSnoc(front, last, test);
      SamePlaces(front, last, test, places);
      if test(last) {
        OneMorePlace(front, last, test, places);
        places := places + [|front|];
      }
    }
  }

  lemma SamePlaces(front: seq<Block>, last: Block, test: Block -> bool, places: seq<nat>)
    requires Places(front, test, places)
    ensures !test(last) ==> Places(front + [last], test, places)
    ensures IdsAt(front + [last], places) == IdsAt(front, places)
  {
  }

  lemma OneMorePlace(front: seq<Block>, last: Block, test: Block -> bool, places: seq<nat>)
    requires test(last) && Places(front, test, places)
    ensures Places(front + [last], test, places + [|front|])
    ensures IdsAt(front + [last], places + [|front|]) == IdsAt(front, places) + [last.id]
  {
    var all := places + [|front|];
    assert all[|places|] == |front|;
    forall k | 0 <= k < |front| && test(front[k])
      ensures k in all
    {
      assert k in places;
    }
  }

  lemma InOrder(a: seq<string>, b: seq<string>, c: seq<string>)
    ensures a + (b + c) == (a + b) + c
  {
  }

  lemma {:induction false} SelectSnoc(front: seq<Block>, last: Block, test: Block -> bool)
    ensures Lesson.Select(front + [last], test) == Lesson.Select(front, test) + if test(last) then [last.id] else []
    decreases |front|
  {
    if front == [] {
      assert [last][1..] == [];
    } else {
      SelectSnoc(front[1..], last, test);
      assert (front + [last])[0] == front[0] && (front + [last])[1..] == front[1..] + [last];
      InOrder(if test(front[0]) then [front[0].id] else [], Lesson.Select(front[1..], test),
              if test(last) then [last.id] else []);
    }
  }

  /** What the raw lessons must satisfy to be accepted. */
  ghost predicate Acceptable(raw: seq<Lesson>, known: set<string>) {
    && raw != []
    && (forall i | 0 <= i < |raw| :: raw[i].ConceptsKnown(known))
    && (forall i | 0 <= i < |raw| :: raw[i].UniqueBlocks())
    && (forall i, j | 0 <= i < j < |raw| :: raw[i].id != raw[j].id)
    && (forall i | 0 <= i < |raw| :: Backward(raw, i))
  }

  predicate Lists(raw: seq<Lesson>, l: string, p: string) {
    exists i | 0 <= i < |raw| :: raw[i].id == l && p in raw[i].prerequisites
  }

  /** What a rejection says is true of the raw lessons. */
  ghost predicate Justified(raw: seq<Lesson>, known: set<string>, r: Loaded) {
    match r
    case Program(_) => true
    case DuplicateBlock(l) => exists i | 0 <= i < |raw| :: raw[i].id == l && !raw[i].UniqueBlocks()
    case DuplicateLesson(l) => exists i, j | 0 <= i < j < |raw| :: raw[i].id == l && raw[j].id == l
    case UnknownConcept(l, n) => n !in known && exists i | 0 <= i < |raw| :: raw[i].id == l && n in raw[i].concepts
    case NoLessons => raw == []
    case UnknownPrerequisite(l, p) => Lists(raw, l, p) && forall i | 0 <= i < |raw| :: raw[i].id != p
    case SelfPrerequisite(l) => Lists(raw, l, l)
    case LaterPrerequisite(l, p) =>
      exists i, j | 0 <= i < j < |raw| :: raw[i].id == l && p in raw[i].prerequisites && raw[j].id == p
  }

  ghost predicate EarlierIn(raw: seq<Lesson>, p: string, i: nat) {
    exists j | 0 <= j < i && j < |raw| :: raw[j].id == p
  }

  /** Files the lessons in program order, then checks that prerequisites resolve and point
      backwards. */
  method LoadCurriculum(raw: seq<Lesson>, known: set<string>) returns (r: Loaded)
    ensures r.Program? <==> Acceptable(raw, known)
    ensures !r.Program? ==> Justified(raw, known, r)
    ensures r.Program? ==> WellOrdered(r.c) && |r.c.ordered| == |raw|
    ensures r.Program? ==> forall i | 0 <= i < |raw| :: r.c.ordered[i] == raw[i].id && r.c.lessons[raw[i].id] == raw[i]
  {
    r := FileLessons(raw, known);
    if !r.Program? {
      return;
    }
    var c := r.c;
    if c.ordered == [] {
      return NoLessons;
    }
    r := CheckAll(raw, c, known);
    if r.Program? {
      ProgramIsOrdered(raw, known, c);
    }
  }

  method CheckAll(raw: seq<Lesson>, c: Curriculum, ghost known: set<string>) returns (r: Loaded)
    requires Filed(raw, |raw|, c.lessons, c.ordered)
    ensures r.Program? ==> r.c == c
    ensures r.Program? <==> forall k | 0 <= k < |raw| :: Backward(raw, k)
    ensures !r.Program? ==> Justified(raw, known, r)
  {
    var position := Positions(c.ordered);
    for i := 0 to |raw|
      invariant forall k | 0 <= k < i :: Backward(raw, k)
    {
      r := CheckPrerequisites(raw, i, c, position, known);
      if !r.Program? {
        return;
      }
    }
    return Program(c);
  }

  /** The place of each lesson in the program. */
  function Positions(ordered: seq<string>): (position: map<string, nat>)
    requires forall i, j | 0 <= i < j < |ordered| :: ordered[i] != ordered[j]
    ensures forall k | 0 <= k < |ordered| :: ordered[k] in position
    ensures forall id | id in position :: position[id] < |ordered| && ordered[position[id]] == id
  {
    map i | 0 <= i < |ordered| :: ordered[i] := i
  }

  /** The first concept of the lesson that is not known. */
  method FirstUnknown(lesson: Lesson, known: set<string>) returns (i: nat)
    ensures i <= |lesson.concepts| && (i < |lesson.concepts| ==> lesson.concepts[i] !in known)
    ensures i == |lesson.concepts| <==> lesson.ConceptsKnown(known)
  {
    i := 0;
    while i < |lesson.concepts|
      invariant i <= |lesson.concepts| && forall j | 0 <= j < i :: lesson.concepts[j] in known
    {
      if lesson.concepts[i] !in known {
        assert lesson.concepts[i] in lesson.concepts;
        return;
      }
      i := i + 1;
    }
  }

  method FileLessons(raw: seq<Lesson>, known: set<string>) returns (r: Loaded)
    ensures r.Program?
            ==> Filed(raw, |raw|, r.c.lessons, r.c.ordered) && forall i | 0 <= i < |raw| :: raw[i].ConceptsKnown(known)
    ensures !r.Program? ==> !Acceptable(raw, known) && Justified(raw, known, r)
  {
    var lessons: map<string, Lesson> := map[];
    var ordered: seq<string> := [];
    for i := 0 to |raw|
      invariant Filed(raw, i, lessons, ordered)
      invariant forall j | 0 <= j < i :: raw[j].ConceptsKnown(known)
    {
      var ok := BlocksUnique(raw[i]);
      if !ok {
        return DuplicateBlock(raw[i].id);
      }
      if raw[i].id in lessons {
        return DuplicateLesson(raw[i].id);
      }
      var unknown := FirstUnknown(raw[i], known);
      if unknown < |raw[i].concepts| {
        return UnknownConcept(raw[i].id, raw[i].concepts[unknown]);
      }
      lessons := lessons[raw[i].id := raw[i]];
      ordered := ordered + [raw[i].id];
    }
    return Program(Curriculum(lessons, ordered));
  }

  ghost predicate Backward(raw: seq<Lesson>, i: nat)
    requires i < |raw|
  {
    forall p | p in raw[i].prerequisites :: EarlierIn(raw, p, i)
  }

  /** The prerequisites of one lesson: the curriculum itself when they are in order, else
      what is wrong with the first that is not. */
  method CheckPrerequisites(raw: seq<Lesson>, i: nat, c: Curriculum, position: map<string, nat>,
                            ghost known: set<string>)
    returns (r: Loaded)
    requires i < |raw| && Filed(raw, |raw|, c.lessons, c.ordered)
    requires forall k | 0 <= k < |raw| :: c.ordered[k] in position
    requires forall id | id in position :: position[id] < |raw| && c.ordered[position[id]] == id
    ensures r.Program? <==> Backward(raw, i)
    ensures !r.Program? ==> Justified(raw, known, r)
  {
    var lesson := raw[i];
    for n := 0 to |lesson.prerequisites|
      invariant forall m | 0 <= m < n :: EarlierIn(raw, lesson.prerequisites[m], i)
    {
      var prerequisite := lesson.prerequisites[n];
      assert prerequisite in lesson.prerequisites;
      if prerequisite !in c.lessons {
        return UnknownPrerequisite(lesson.id, prerequisite);
      }
      if prerequisite == lesson.id {
        return SelfPrerequisite(lesson.id);
      }
      if position[prerequisite] > position[lesson.id] {
        assert raw[position[prerequisite]].id == prerequisite;
        return LaterPrerequisite(lesson.id, prerequisite);
      }
      assert raw[position[prerequisite]].id == prerequisite;
    }
    return Program(c);
  }

  ghost predicate Filed(raw: seq<Lesson>, n: nat, lessons: map<string, Lesson>, ordered: seq<string>) {
    && n <= |raw| && |ordered| == n
    && (forall i | 0 <= i < n :: ordered[i] == raw[i].id && raw[i].id in lessons && lessons[raw[i].id] == raw[i])
    && (forall id | id in lessons :: id in ordered)
    && (forall i, j | 0 <= i < j < n :: raw[i].id != raw[j].id)
    && (forall i | 0 <= i < n :: raw[i].UniqueBlocks())
  }

  lemma ProgramIsOrdered(raw: seq<Lesson>, known: set<string>, c: Curriculum)
    requires Filed(raw, |raw|, c.lessons, c.ordered) && Acceptable(raw, known)
    ensures WellOrdered(c)
  {
    forall id
      ensures id in c.lessons <==> id in c.ordered
    {
    }
    forall i, p | 0 <= i < |c.ordered| && p in c.lessons[c.ordered[i]].prerequisites
      ensures ComesBefore(c, p, i)
    {
      assert Backward(raw, i) && EarlierIn(raw, p, i);
      var j :| 0 <= j < i && j < |raw| && raw[j].id == p;
      assert c.ordered[..i][j] == p;
    }
  }
}
