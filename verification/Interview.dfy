/** Weighting of interview questions (learning/server/progress.py:344-369, 545-597), with
    real numbers for the floating-point ones and the division a parameter. */
module Interview {
  import opened Options
  import opened Completion

  const MIN_INTERVIEW_WEIGHT: real := 0.05

  function TallyOf(concepts: map<string, Tally>, name: string): Tally {
    if name in concepts then concepts[name] else Tally(0, 0)
  }

  function HistoryOf(s: State, q: string): Answers { if q in s.interview then s.interview[q] else Answers(0, 0, 0) }

  function Counted(t: Tally, correct: bool): Tally {
    if correct then Tally(t.correct + 1, t.incorrect) else Tally(t.correct, t.incorrect + 1)
  }

  function Bump(concepts: map<string, Tally>, names: seq<string>, correct: bool): map<string, Tally>
    decreases |names|
  {
    if names == [] then concepts
    else Bump(concepts[names[0] := Counted(TallyOf(concepts, names[0]), correct)], names[1..], correct)
  }

  function AfterInterview(s: State, question: string, correct: bool, concepts: seq<string>): State {
    var a := HistoryOf(s, question);
    var a' := if correct then Answers(a.correct + 1, a.incorrect, a.streak + 1)
        else Answers(a.correct, a.incorrect + 1, 0);
    s.(interview := s.interview[question := a'], concepts := Bump(s.concepts, concepts, correct))
  }

  /** The division of a count by a larger one. Any division that keeps the order of such
      fractions will do, exact or rounded. */
  type Division = (nat, nat) -> real

  ghost predicate Keeps(d: Division) {
    && (forall c: nat, t: nat | c <= t && t > 0 :: 0.0 <= d(c, t) <= 1.0)
    && (forall t: nat | t > 0 :: d(0, t) == 0.0 && d(t, t) == 1.0)
    && (forall c: nat, t: nat, c': nat, t': nat | c <= t && t > 0 && t' == t + 1 && c' == c + 1 :: d(c, t) <= d(c', t'))
    && (forall c: nat, t: nat, t': nat | c <= t && t > 0 && t' == t + 1 :: d(c, t') <= d(c, t))
  }

  datatype Mastery = Mastery(correct: nat, incorrect: nat, score: Option<real>, weak: bool)

  function Score(d: Division, correct: nat, incorrect: nat): Option<real> {
    if correct + incorrect == 0 then None else Some(d(correct, correct + incorrect))
  }

  function MasteryOf(d: Division, concepts: map<string, Tally>, name: string): Mastery {
    var t := TallyOf(concepts, name);
    var score := Score(d, t.correct, t.incorrect);
    Mastery(t.correct, t.incorrect, score, score.Some? && score.value < 0.7)
  }

  /** What a concept with this score adds to a question's weight. */
  function WeakAt(score: Option<real>): real { match score case None => 0.5 case Some(x) => 1.0 - x }

  function Weak(d: Division, t: Tally): real { WeakAt(Score(d, t.correct, t.incorrect)) }

  function Weakness(d: Division, concepts: map<string, Tally>, names: seq<string>): real
    decreases |names|
  {
    if names == [] then 0.0 else
      var n := |names| - 1;
      Weakness(d, concepts, names[..n]) + Weak(d, TallyOf(concepts, names[n]))
  }

  function ScoreIn(mastery: map<string, Mastery>, name: string): Option<real> {
    if name in mastery then mastery[name].score else None
  }

  /** What some concepts add, read off a mastery table. */
  function Added(mastery: map<string, Mastery>, names: seq<string>): real
    decreases |names|
  {
    if names == [] then 0.0 else
      var n := |names| - 1;
      Added(mastery, names[..n]) + WeakAt(ScoreIn(mastery, names[n]))
  }

  /** The mastery table has the tallies of these concepts. */
  predicate Shows(d: Division, mastery: map<string, Mastery>, concepts: map<string, Tally>, names: seq<string>) {
    forall n | n in names :: n in mastery && mastery[n] == MasteryOf(d, concepts, n)
  }

  lemma {:induction false} AddsUp(d: Division, concepts: map<string, Tally>, names: seq<string>,
                                  mastery: map<string, Mastery>)
    requires Shows(d, mastery, concepts, names)
    ensures Added(mastery, names) == Weakness(d, concepts, names)
    decreases |names|
  {
    if names != [] {
      var n := |names| - 1;
      FewerShown(d, concepts, names, mastery);
      AddsUp(d, concepts, names[..n], mastery);
    }
  }

  lemma FewerShown(d: Division, concepts: map<string, Tally>, names: seq<string>, mastery: map<string, Mastery>)
    requires names != [] && Shows(d, mastery, concepts, names)
    ensures Shows(d, mastery, concepts, names[..|names| - 1])
    ensures WeakAt(ScoreIn(mastery, names[|names| - 1])) == Weak(d, TallyOf(concepts, names[|names| - 1]))
  {
    assert names[|names| - 1] in names;
  }

  /** `w * 0.5 ** n`. */
  function Decay(w: real, n: nat): real {
    if n == 0 then w else Decay(w, n - 1) / 2.0
  }

  function Capped(streak: nat): nat { if streak < 6 then streak else 6 }

  /** The weight from the weakness of a question's concepts and its history of answers. */
  function WeightOf(weakness: real, a: Answers): real {
    Floored(Decay(1.0 + weakness + 2.0 * a.incorrect as real, Capped(a.streak)))
  }

  function Floored(w: real): real { if w < MIN_INTERVIEW_WEIGHT then MIN_INTERVIEW_WEIGHT else w }

  function Weight(d: Division, s: State, q: string, names: seq<string>): real {
    WeightOf(Weakness(d, s.concepts, names), HistoryOf(s, q))
  }

  // ----- Exact division

  lemma Quotient(a: real, t: real) returns (x: real)
    requires t > 0.0
    ensures x == a / t && x * t == a
  {
    x := a / t;
  }

  lemma SignOfFactor(d: real, m: real)
    requires m > 0.0 && d * m >= 0.0
    ensures d >= 0.0
  {
  }

  /** Fractions compare as their cross products. */
  lemma FractionOrder(a: real, t: real, b: real, u: real)
    requires t > 0.0 && u > 0.0 && a * u <= b * t
    ensures a / t <= b / u
  {
    var x := Quotient(a, t);
    var y := Quotient(b, u);
    assert (y - x) * (t * u) == (y * u) * t - (x * t) * u && t * u > 0.0;
    SignOfFactor(y - x, t * u);
  }

  lemma OneMoreCounted(c: real, t: real)
    requires 0.0 <= c <= t && 0.0 < t
    ensures c / t <= (c + 1.0) / (t + 1.0) && c / (t + 1.0) <= c / t && 0.0 <= c / t <= 1.0
  {
    assert c * (t + 1.0) == c * t + c && (c + 1.0) * t == c * t + t;
    FractionOrder(c, t, c + 1.0, t + 1.0);
    FractionOrder(c, t + 1.0, c, t);
    FractionOrder(0.0, 1.0, c, t);
    FractionOrder(c, t, 1.0, 1.0);
  }

  function Exact(c: nat, t: nat): real { if t == 0 then 0.0 else c as real / t as real }

  /** Exact division keeps the order. */
  lemma ExactKeeps()
    ensures Keeps(Exact)
  {
    forall c: nat, t: nat, c': nat, t': nat | c <= t && t > 0 && t' == t + 1 && c' == c + 1
      ensures Exact(c, t) <= Exact(c', t')
    {
      OneMoreCounted(c as real, t as real);
    }
    forall c: nat, t: nat | c <= t && t > 0
      ensures Exact(c, t + 1) <= Exact(c, t) && 0.0 <= Exact(c, t) <= 1.0
    {
      OneMoreCounted(c as real, t as real);
    }
    forall t: nat | t > 0
      ensures Exact(0, t) == 0.0 && Exact(t, t) == 1.0
    {
      var x := Quotient(t as real, t as real);
    }
  }

  // ----- What an answer changes

  lemma WeakBounds(d: Division, t: Tally)
    requires Keeps(d)
    ensures 0.0 <= Weak(d, t) <= 1.0
  {
  }

  /** One more correct answer about a concept never makes it weaker, one more miss never
      stronger. */
  lemma CountedWeak(d: Division, t: Tally)
    requires Keeps(d)
    ensures Weak(d, Counted(t, true)) <= Weak(d, t) <= Weak(d, Counted(t, false))
  {
    DivisionMoves(d, t.correct, t.correct + t.incorrect);
  }

  lemma DivisionMoves(d: Division, c: nat, t: nat)
    requires Keeps(d) && c <= t
    ensures if t == 0 then d(c + 1, t + 1) == 1.0 && d(c, t + 1) == 0.0
            else d(c, t) <= d(c + 1, t + 1) && d(c, t + 1) <= d(c, t)
  {
  }

  lemma OneBump(d: Division, concepts: map<string, Tally>, bumped: string, correct: bool, name: string)
    requires Keeps(d)
    ensures var next := concepts[bumped := Counted(TallyOf(concepts, bumped), correct)];
            var before, after := Weak(d, TallyOf(concepts, name)), Weak(d, TallyOf(next, name));
            if correct then after <= before else before <= after
  {
    CountedWeak(d, TallyOf(concepts, bumped));
  }

  /** Counting an answer under some concepts moves every concept one way. */
  lemma {:induction false} BumpMoves(d: Division, concepts: map<string, Tally>, names: seq<string>, correct: bool,
                                     name: string)
    requires Keeps(d)
    ensures var before := Weak(d, TallyOf(concepts, name));
            var after := Weak(d, TallyOf(Bump(concepts, names, correct), name));
            if correct then after <= before else before <= after
    decreases |names|
  {
    if names != [] {
      var next := concepts[names[0] := Counted(TallyOf(concepts, names[0]), correct)];
      OneBump(d, concepts, names[0], correct, name);
      BumpMoves(d, next, names[1..], correct, name);
    }
  }

  lemma {:induction false} WeaknessMoves(d: Division, concepts: map<string, Tally>, bumped: seq<string>,
                                         correct: bool, names: seq<string>)
    requires Keeps(d)
    ensures var before, after := Weakness(d, concepts, names), Weakness(d, Bump(concepts, bumped, correct), names);
            if correct then after <= before else before <= after
    decreases |names|
  {
    if names != [] {
      BumpMoves(d, concepts, bumped, correct, names[|names| - 1]);
      WeaknessMoves(d, concepts, bumped, correct, names[..|names| - 1]);
    }
  }

  lemma {:induction false} WeaknessNonNegative(d: Division, concepts: map<string, Tally>, names: seq<string>)
    requires Keeps(d)
    ensures Weakness(d, concepts, names) >= 0.0
    decreases |names|
  {
    if names != [] {
      WeakBounds(d, TallyOf(concepts, names[|names| - 1]));
      WeaknessNonNegative(d, concepts, names[..|names| - 1]);
    }
  }

  lemma {:induction false} DecayOrder(a: real, b: real, n: nat)
    requires 0.0 <= a <= b
    ensures 0.0 <= Decay(a, n + 1) <= Decay(a, n) <= Decay(b, n) <= b
  {
    if n > 0 { DecayOrder(a, b, n - 1); }
  }

  lemma AtMostFull(weakness: real, a: Answers)
    requires weakness >= 0.0
    ensures MIN_INTERVIEW_WEIGHT <= WeightOf(weakness, a) <= 1.0 + weakness + 2.0 * a.incorrect as real
  {
    var full := 1.0 + weakness + 2.0 * a.incorrect as real;
    DecayOrder(full, full, Capped(a.streak));
  }

  lemma CorrectLowers(before: real, after: real, a: Answers)
    requires 0.0 <= after <= before
    ensures WeightOf(after, Answers(a.correct + 1, a.incorrect, a.streak + 1)) <= WeightOf(before, a)
  {
    var misses := 2.0 * a.incorrect as real;
    DecayOrder(1.0 + after + misses, 1.0 + before + misses, Capped(a.streak));
  }

  lemma MissLifts(before: real, after: real, a: Answers)
    requires 0.0 <= before <= after
    ensures WeightOf(after, Answers(a.correct, a.incorrect + 1, 0)) == 3.0 + after + 2.0 * a.incorrect as real
    ensures WeightOf(after, Answers(a.correct, a.incorrect + 1, 0)) > WeightOf(before, a)
  {
    AtMostFull(before, a);
  }

  // ----- Main results

  /** The weight after an answer, in terms of the state before it. */
  lemma AnsweredWeight(d: Division, s: State, q: string, correct: bool, names: seq<string>)
    ensures var a := HistoryOf(s, q);
            Weight(d, AfterInterview(s, q, correct, names), q, names)
            == WeightOf(Weakness(d, Bump(s.concepts, names, correct), names),
                        if correct then Answers(a.correct + 1, a.incorrect, a.streak + 1)
                            else Answers(a.correct, a.incorrect + 1, 0))
  {
  }

  /** A correct answer never raises the question's weight. */
  lemma CorrectNeverRaises(d: Division, s: State, q: string, names: seq<string>)
    requires Keeps(d)
    ensures Weight(d, AfterInterview(s, q, true, names), q, names) <= Weight(d, s, q, names)
  {
    AnsweredWeight(d, s, q, true, names);
    WeaknessMoves(d, s.concepts, names, true, names);
    WeaknessNonNegative(d, Bump(s.concepts, names, true), names);
    CorrectLowers(Weakness(d, s.concepts, names), Weakness(d, Bump(s.concepts, names, true), names), HistoryOf(s, q));
  }

  /** A miss strictly raises it, and puts the question strictly above an unanswered one with
      the same concepts. */
  lemma MissRaises(d: Division, s: State, q: string, names: seq<string>, other: string)
    requires Keeps(d)
    ensures var s' := AfterInterview(s, q, false, names);
            && Weight(d, s', q, names) > Weight(d, s, q, names)
            && (other !in s.interview && other != q ==> Weight(d, s', q, names) > Weight(d, s', other, names))
  {
    var concepts := Bump(s.concepts, names, false);
    WeaknessMoves(d, s.concepts, names, false, names);
    WeaknessNonNegative(d, s.concepts, names);
    MissLifts(Weakness(d, s.concepts, names), Weakness(d, concepts, names), HistoryOf(s, q));
    AtMostFull(Weakness(d, concepts, names), Answers(0, 0, 0));
  }

  /** Every weight stays at or above the floor, so a mastered question stays in the pool. */
  lemma WeightAtLeastFloor(d: Division, s: State, q: string, names: seq<string>)
    requires Keeps(d)
    ensures Weight(d, s, q, names) >= MIN_INTERVIEW_WEIGHT
  {
    WeaknessNonNegative(d, s.concepts, names);
    AtMostFull(Weakness(d, s.concepts, names), HistoryOf(s, q));
  }

  // ----- What a weight is

  function Two(n: nat): real { if n == 0 then 1.0 else 2.0 * Two(n - 1) }

  lemma {:induction false} DecayHalves(w: real, n: nat)
    ensures Decay(w, n) * Two(n) == w && Two(n) > 0.0
  {
    if n > 0 {
      DecayHalves(w, n - 1);
      var x, y := Decay(w, n - 1), Two(n - 1);
      assert (x / 2.0) * (2.0 * y) == x * y;
    }
  }

  /** One, the weakness of the concepts and two for each miss, halved for each answer of the
      streak up to six, and never below the floor. */
  lemma WeightFormula(d: Division, s: State, q: string, names: seq<string>)
    ensures var a := HistoryOf(s, q);
            var full := 1.0 + Weakness(d, s.concepts, names) + 2.0 * a.incorrect as real;
            var halved := Decay(full, if a.streak < 6 then a.streak else 6);
            && halved * Two(if a.streak < 6 then a.streak else 6) == full
            && Weight(d, s, q, names) == if halved < 0.05 then 0.05 else halved
  {
    var a := HistoryOf(s, q);
    DecayHalves(1.0 + Weakness(d, s.concepts, names) + 2.0 * a.incorrect as real, if a.streak < 6 then a.streak else 6);
  }

  /** A concept is worth a half before any answer, and then what its score lacks of one. */
  lemma WeaknessFormula(d: Division, concepts: map<string, Tally>, names: seq<string>, name: string)
    ensures Weakness(d, concepts, []) == 0.0
    ensures Weakness(d, concepts, names + [name]) == Weakness(d, concepts, names) + Weak(d, TallyOf(concepts, name))
    ensures Weak(d, Tally(0, 0)) == 0.5
    ensures forall t: Tally | t.correct + t.incorrect > 0 :: Weak(d, t) + d(t.correct, t.correct + t.incorrect) == 1.0
  {
    assert (names + [name])[..|names|] == names;
  }

  /** A question never answered, on concepts never met, weighs one and a half for each. */
  lemma {:induction false} NeutralWeight(d: Division, s: State, q: string, names: seq<string>)
    requires q !in s.interview && forall n | n in names :: n !in s.concepts
    ensures Weight(d, s, q, names) == 1.0 + 0.5 * |names| as real
  {
    NeutralWeakness(d, s.concepts, names);
    assert HistoryOf(s, q) == Answers(0, 0, 0);
    assert Decay(1.0 + Weakness(d, s.concepts, names), 0) == 1.0 + Weakness(d, s.concepts, names);
  }

  lemma {:induction false} NeutralWeakness(d: Division, concepts: map<string, Tally>, names: seq<string>)
    requires forall n | n in names :: n !in concepts
    ensures Weakness(d, concepts, names) == 0.5 * |names| as real
    decreases |names|
  {
    if names != [] {
      var n := |names| - 1;
      NeutralWeakness(d, concepts, names[..n]);
      assert names[n] in names;
      WeaknessFormula(d, concepts, names[..n], names[n]);
    }
  }

  /** With exact division a concept is weak when fewer than seven answers in ten are right. */
  lemma WeakBelowSeventy(concepts: map<string, Tally>, name: string)
    ensures var t := TallyOf(concepts, name);
            MasteryOf(Exact, concepts, name).weak
            <==> t.correct + t.incorrect > 0 && 10 * t.correct < 7 * (t.correct + t.incorrect)
  {
    var t := TallyOf(concepts, name);
    if t.correct + t.incorrect > 0 { BelowSeventy(t.correct, t.correct + t.incorrect); }
  }

  lemma BelowSeventy(c: nat, t: nat)
    requires t > 0
    ensures Exact(c, t) < 0.7 <==> 10 * c < 7 * t
  {
    var x := Quotient(c as real, t as real);
    Distributed(x, t as real, c as real);
    StrictSign(0.7 - x, t as real);
    BelowSeventyPercent(c, t);
  }

  lemma Distributed(x: real, y: real, c: real)
    requires x * y == c
    ensures (0.7 - x) * y == 0.7 * y - c
  {
  }

  lemma BelowSeventyPercent(c: nat, t: nat)
    ensures 0.7 * t as real - c as real > 0.0 <==> 10 * c < 7 * t
  {
  }

  lemma StrictSign(d: real, m: real)
    requires m > 0.0
    ensures d * m > 0.0 <==> d > 0.0
  {
  }
}
