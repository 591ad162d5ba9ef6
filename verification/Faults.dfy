/** Request counting and injected faults under concurrency (cpp/src/server.cpp:95-127,
    198-204, 427-429; simulator/simulator.py:373-384, 429-432). Handler threads share one
    counter; a run is any interleaving of their atomic steps. */
module Faults {
  import opened Options

  datatype Fault = Crash | BadAccess | Hang | Slow

  /** The native DUT fires a fault on one request number, the Python one exits from one
      request on. */
  datatype Policy = Native(fault: Option<Fault>, after: nat) | Python(exitAfter: nat)

  /** `after` and the native counter are 32-bit. */
  const WIDTH: nat := 0x1_0000_0000

  predicate ValidPolicy(p: Policy) {
    match p
    case Native(_, after) => after < WIDTH / 2
    case Python(exitAfter) => exitAfter >= 1
  }

  /** What the native counter shows after `ordinal` increments; it wraps around. */
  function Shown(ordinal: nat): int {
    var low := ordinal % WIDTH;
    if low < WIDTH / 2 then low else low - WIDTH
  }

  datatype Outcome = Proceed | Block | Die

  predicate Fires(p: Policy, ordinal: nat) {
    match p
    case Native(fault, after) => fault != None && Shown(ordinal) == after
    case Python(exitAfter) => ordinal >= exitAfter
  }

  /** A write past the end of a heap block may or may not end the process. */
  function OutcomeOf(p: Policy, ordinal: nat, survives: bool): Outcome {
    if !Fires(p, ordinal) then Proceed else
    match p
    case Python(_) => Die
    case Native(fault, _) =>
      match fault.value
      case Crash => Die
      case BadAccess => if survives then Proceed else Die
      case Hang => Block
      case Slow => Proceed
  }

  /** Faults that end the process. */
  predicate Fatal(p: Policy) { p.Python? || p.fault == Some(Crash) }

  /** A handler thread: waiting for a frame, holding the number of one, past the fault check,
      or blocked for good. */
  datatype Phase = Waiting | Numbered(ordinal: nat) | Cleared(ordinal: nat) | Blocked

  /** The shared counter, the handlers, whether the process runs and serves, and the history:
      the numbers checked, those that fired, those answered. */
  datatype Dut = Dut(count: nat, phases: map<nat, Phase>, up: bool, decided: seq<nat>, fired: seq<nat>,
                     answered: seq<nat>)

  datatype Action = Count(h: nat) | Decide(h: nat, survives: bool) | Answer(h: nat)

  function PhaseOf(s: Dut, h: nat): Phase { if h in s.phases then s.phases[h] else Waiting }

  function Mark(p: Policy, ordinal: nat): seq<nat> { if Fires(p, ordinal) then [ordinal] else [] }

  /** Before the first connection: the native DUT checks number zero if it is configured to
      fire there. */
  function Startup(p: Policy, survives: bool): Dut {
    if p.Native? && p.after == 0
    then Dut(0, map[], OutcomeOf(p, 0, survives) == Proceed, [0], Mark(p, 0), [])
    else Dut(0, map[], true, [], [], [])
  }

  /** One atomic step of one handler; a step that is not possible changes nothing. */
  function Stepped(p: Policy, s: Dut, a: Action): Dut {
    if !s.up then s else
    match a
    case Count(h) =>
      if PhaseOf(s, h) != Waiting then s
      else s.(count := s.count + 1, phases := s.phases[h := Numbered(s.count + 1)])
    case Decide(h, survives) =>
      (match PhaseOf(s, h)
       case Numbered(n) => Decided(p, s, h, n, OutcomeOf(p, n, survives))
       case _ => s)
    case Answer(h) =>
      match PhaseOf(s, h)
      case Cleared(n) => s.(answered := s.answered + [n], phases := s.phases[h := Waiting])
      case _ => s
  }

  function Decided(p: Policy, s: Dut, h: nat, n: nat, outcome: Outcome): Dut {
    s.(decided := s.decided + [n], fired := s.fired + Mark(p, n), up := outcome != Die,
       phases := s.phases[h := if outcome == Proceed then Cleared(n) else Blocked])
  }

  function Run(p: Policy, s: Dut, actions: seq<Action>): Dut
    decreases |actions|
  {
    if actions == [] then s else Run(p, Stepped(p, s, actions[0]), actions[1..])
  }

  // ----- What every step keeps

  ghost predicate AllDifferent(s: seq<nat>) { forall i, j | 0 <= i < j < |s| :: s[i] != s[j] }

  function FiredOf(p: Policy, decided: seq<nat>): seq<nat>
    decreases |decided|
  {
    if decided == [] then [] else
      var n := |decided| - 1;
      FiredOf(p, decided[..n]) + Mark(p, decided[n])
  }

  /** Numbers are handed out once: each is held by one handler or has been checked. */
  ghost predicate Unique(s: Dut) {
    && (forall h | h in s.phases && s.phases[h].Numbered? ::
          1 <= s.phases[h].ordinal <= s.count && s.phases[h].ordinal !in s.decided)
    && (forall h, k | h in s.phases && k in s.phases && s.phases[h].Numbered? && s.phases[k] == s.phases[h] :: h == k)
    && (forall n | 1 <= n <= s.count :: n in s.decided || exists h | h in s.phases :: s.phases[h] == Numbered(n))
    && (forall n | n in s.decided :: n <= s.count)
    && AllDifferent(s.decided)
  }

  /** Only a number that was checked and let through is answered, and only once. */
  ghost predicate Answerable(p: Policy, s: Dut) {
    && (forall h | h in s.phases && s.phases[h].Cleared? ::
          Passed(p, s, s.phases[h].ordinal) && s.phases[h].ordinal !in s.answered)
    && (forall h, k | h in s.phases && k in s.phases && s.phases[h].Cleared? && s.phases[k] == s.phases[h] :: h == k)
    && (forall n | n in s.answered :: Passed(p, s, n))
    && AllDifferent(s.answered)
  }

  ghost predicate Passed(p: Policy, s: Dut, n: nat) {
    1 <= n && n in s.decided && exists survives :: OutcomeOf(p, n, survives) == Proceed
  }

  ghost predicate Consistent(p: Policy, s: Dut) {
    Unique(s) && Answerable(p, s) && s.fired == FiredOf(p, s.decided)
    && (p.Native? && p.after == 0 ==> 0 in s.decided)
    && (Fatal(p) ==> |s.fired| == if s.up then 0 else 1)
  }

  lemma NothingCounted(s: Dut, p: Policy)
    requires s.count == 0 && s.phases == map[] && s.answered == [] && (s.decided == [] || s.decided == [0])
    ensures Unique(s) && Answerable(p, s)
  {
  }

  lemma FiredAtStartup(p: Policy, survives: bool)
    ensures FiredOf(p, [0]) == Mark(p, 0)
    ensures |Mark(p, 0)| <= 1 && (Fatal(p) ==> (Mark(p, 0) != [] <==> OutcomeOf(p, 0, survives) != Proceed))
  {
    assert [0][..0] == [];
    assert FiredOf(p, []) == [];
  }

  lemma StartupConsistent(p: Policy, survives: bool)
    ensures Consistent(p, Startup(p, survives))
  {
    if p.Native? && p.after == 0 { FiredAtStartup(p, survives); }
    NothingCounted(Startup(p, survives), p);
  }

  lemma StepUnique(p: Policy, s: Dut, a: Action)
    requires Consistent(p, s)
    ensures Unique(Stepped(p, s, a))
  {
    match a
    case Count(h) =>
      if s.up && PhaseOf(s, h) == Waiting {
        var t := Stepped(p, s, a);
        assert t.phases[h] == Numbered(t.count);
        forall n | 1 <= n <= s.count && n !in s.decided
          ensures exists k | k in t.phases :: t.phases[k] == Numbered(n)
        {
          var k :| k in s.phases && s.phases[k] == Numbered(n);
          assert k in t.phases && t.phases[k] == Numbered(n);
        }
      }
    case Decide(h, survives) =>
      if s.up && PhaseOf(s, h).Numbered? { DecidedUnique(p, s, h, OutcomeOf(p, PhaseOf(s, h).ordinal, survives)); }
    case Answer(h) =>
      if s.up && PhaseOf(s, h).Cleared? { AnsweredUnique(p, s, h); }
  }

  lemma DecidedUnique(p: Policy, s: Dut, h: nat, outcome: Outcome)
    requires Unique(s) && PhaseOf(s, h).Numbered?
    ensures Unique(Decided(p, s, h, PhaseOf(s, h).ordinal, outcome))
  {
    var n := PhaseOf(s, h).ordinal;
    var t := Decided(p, s, h, n, outcome);
    assert n in t.decided;
    forall m | 1 <= m <= s.count && m !in t.decided
      ensures exists k | k in t.phases :: t.phases[k] == Numbered(m)
    {
      assert m !in s.decided;
      var k :| k in s.phases && s.phases[k] == Numbered(m);
      assert k in t.phases && t.phases[k] == Numbered(m);
    }
  }

  lemma AnsweredUnique(p: Policy, s: Dut, h: nat)
    requires Unique(s) && s.up && PhaseOf(s, h).Cleared?
    ensures Unique(Stepped(p, s, Answer(h)))
  {
    var t := Stepped(p, s, Answer(h));
    forall m | 1 <= m <= s.count && m !in s.decided
      ensures exists k | k in t.phases :: t.phases[k] == Numbered(m)
    {
      var k :| k in s.phases && s.phases[k] == Numbered(m);
      assert k in t.phases && t.phases[k] == Numbered(m);
    }
  }

  lemma StepAnswerable(p: Policy, s: Dut, a: Action)
    requires Consistent(p, s)
    ensures Answerable(p, Stepped(p, s, a))
  {
    if a.Decide? && s.up && PhaseOf(s, a.h).Numbered? {
      DecidedAnswerable(p, s, a.h, a.survives);
    } else {
      assert forall m | Passed(p, s, m) :: Passed(p, Stepped(p, s, a), m);
    }
  }

  lemma DecidedAnswerable(p: Policy, s: Dut, h: nat, survives: bool)
    requires Consistent(p, s) && PhaseOf(s, h).Numbered?
    ensures var n := PhaseOf(s, h).ordinal; Answerable(p, Decided(p, s, h, n, OutcomeOf(p, n, survives)))
  {
    var n := PhaseOf(s, h).ordinal;
    var t := Decided(p, s, h, n, OutcomeOf(p, n, survives));
    assert n in t.decided;
    forall m | Passed(p, s, m)
      ensures Passed(p, t, m) && m != n
    {
      assert m in t.decided;
    }
  }

  lemma StepFired(p: Policy, s: Dut, a: Action)
    requires Consistent(p, s)
    ensures var t := Stepped(p, s, a);
            t.fired == FiredOf(p, t.decided) && s.decided <= t.decided
                && (Fatal(p) ==> |t.fired| == if t.up then 0 else 1)
  {
    if a.Decide? && s.up && PhaseOf(s, a.h).Numbered? {
      var n := PhaseOf(s, a.h).ordinal;
      FiredOneMore(p, s.decided, n);
      if Fatal(p) { FatalEnds(p, n, a.survives); }
    }
  }

  lemma FiredOneMore(p: Policy, decided: seq<nat>, n: nat)
    ensures FiredOf(p, decided + [n]) == FiredOf(p, decided) + Mark(p, n)
  {
    assert (decided + [n])[..|decided|] == decided;
  }

  lemma FatalEnds(p: Policy, n: nat, survives: bool)
    requires Fatal(p)
    ensures |Mark(p, n)| == if OutcomeOf(p, n, survives) == Die then 1 else 0
  {
  }

  lemma {:induction false} RunConsistent(p: Policy, s: Dut, actions: seq<Action>)
    requires Consistent(p, s)
    ensures Consistent(p, Run(p, s, actions))
    decreases |actions|
  {
    if actions != [] {
      StepUnique(p, s, actions[0]);
      StepAnswerable(p, s, actions[0]);
      StepFired(p, s, actions[0]);
      assert forall n | n in s.decided :: n in Stepped(p, s, actions[0]).decided;
      RunConsistent(p, Stepped(p, s, actions[0]), actions[1..]);
    }
  }

  // ----- Main results

  ghost predicate Reachable(p: Policy, s: Dut) {
    exists survives, actions :: s == Run(p, Startup(p, survives), actions)
  }

  lemma ReachableConsistent(p: Policy, s: Dut)
    requires Reachable(p, s)
    ensures Consistent(p, s)
  {
    var survives, actions :| s == Run(p, Startup(p, survives), actions);
    StartupConsistent(p, survives);
    RunConsistent(p, Startup(p, survives), actions);
  }

  lemma {:induction false} FiredMembers(p: Policy, decided: seq<nat>, n: nat)
    ensures n in FiredOf(p, decided) <==> n in decided && Fires(p, n)
    decreases |decided|
  {
    if decided != [] {
      FiredMembers(p, decided[..|decided| - 1], n);
      assert decided == decided[..|decided| - 1] + [decided[|decided| - 1]];
    }
  }

  lemma {:induction false} FiredDistinct(p: Policy, decided: seq<nat>)
    requires AllDifferent(decided)
    ensures AllDifferent(FiredOf(p, decided))
    decreases |decided|
  {
    if decided != [] {
      var n := |decided| - 1;
      FiredDistinct(p, decided[..n]);
      FiredMembers(p, decided[..n], decided[n]);
    }
  }

  lemma ShownOnce(n: nat, after: nat)
    requires after < WIDTH / 2 && n < after + WIDTH
    ensures Shown(n) == after <==> n == after
  {
  }

  lemma FirstTwoDiffer(s: seq<nat>)
    requires AllDifferent(s)
    ensures |s| >= 2 ==> s[0] != s[1]
  {
  }

  lemma AtMostOne(s: seq<nat>, x: nat)
    requires AllDifferent(s) && forall n | n in s :: n == x
    ensures s == if x in s then [x] else []
  {
    forall i | 0 <= i < |s|
      ensures s[i] == x
    {
      assert s[i] in s;
    }
    FirstTwoDiffer(s);
    if s != [] { assert s == [x]; }
  }

  /** In every interleaving, as long as the counter has not come round to `after` again, the
      native fault has fired at most once: on request `after`, and that as soon as that
      request was checked (at startup when `after` is zero). */
  lemma FiresOnce(p: Policy, s: Dut)
    requires ValidPolicy(p) && p.Native? && p.fault != None && Reachable(p, s) && s.count < p.after + WIDTH
    ensures s.fired == if p.after in s.decided then [p.after] else []
    ensures p.after == 0 ==> s.fired == [0]
    ensures s.fired != [] && p.fault == Some(Crash) ==> !s.up
  {
    ReachableConsistent(p, s);
    FiredDistinct(p, s.decided);
    forall n: nat
      ensures n in s.fired <==> n in s.decided && n == p.after
    {
      FiredMembers(p, s.decided, n);
      if n in s.decided { ShownOnce(n, p.after); }
    }
    AtMostOne(s.fired, p.after);
  }

  /** When no handler is between counting and checking, exactly the numbers up to the count
      have been checked: the fault has fired once `after` requests are counted, and not
      before. */
  lemma FiresOnTheNthRequest(p: Policy, s: Dut)
    requires ValidPolicy(p) && p.Native? && p.fault != None && Reachable(p, s) && s.count < p.after + WIDTH
    requires forall h | h in s.phases :: !s.phases[h].Numbered?
    ensures s.fired == if p.after <= s.count then [p.after] else []
  {
    ReachableConsistent(p, s);
    FiresOnce(p, s);
  }

  /** What fired is exactly what was checked while the counter showed `after`, each once. */
  lemma FiresWhenShown(p: Policy, s: Dut, n: nat)
    requires p.Native? && p.fault != None && Reachable(p, s)
    ensures n in s.fired <==> n in s.decided && Shown(n) == p.after
    ensures AllDifferent(s.fired)
  {
    ReachableConsistent(p, s);
    FiredMembers(p, s.decided, n);
    FiredDistinct(p, s.decided);
  }

  // ----- After the counter has come round

  lemma TwoElements(s: seq<nat>, a: nat, b: nat)
    requires a in s && b in s && a != b
    ensures |s| >= 2
  {
    var i :| 0 <= i < |s| && s[i] == a;
    var j :| 0 <= j < |s| && s[j] == b;
    assert i != j;
  }

  /** When no handler is between counting and checking, the fault has fired at most once if
      and only if the counter has not come round to `after` again. */
  lemma OneShotExactly(p: Policy, s: Dut)
    requires ValidPolicy(p) && p.Native? && p.fault != None && Reachable(p, s)
    requires forall h | h in s.phases :: !s.phases[h].Numbered?
    ensures |s.fired| <= 1 <==> s.count < p.after + WIDTH
  {
    ReachableConsistent(p, s);
    if s.count < p.after + WIDTH {
      FiresOnce(p, s);
    } else {
      assert p.after in s.decided && p.after + WIDTH in s.decided;
      FiresWhenShown(p, s, p.after);
      FiresWhenShown(p, s, p.after + WIDTH);
      TwoElements(s.fired, p.after, p.after + WIDTH);
    }
  }

  /** The faults after which requests are still served: a delay, a bad access that goes
      unnoticed, and a hang unless it is the main thread that hangs. */
  predicate GoesOn(p: Policy) {
    p.Native? && (p.fault == Some(Slow) || p.fault == Some(BadAccess) || (p.fault == Some(Hang) && p.after > 0))
  }

  /** `n` requests one after the other, each on a connection of its own. */
  function Serving(n: nat): seq<Action> {
    if n == 0 then [] else Serving(n - 1) + [Count(n), Decide(n, true), Answer(n)]
  }

  lemma {:induction false} RunConcat(p: Policy, s: Dut, a: seq<Action>, b: seq<Action>)
    ensures Run(p, s, a + b) == Run(p, Run(p, s, a), b)
    decreases |a|
  {
    if a == [] {
      assert a + b == b;
    } else {
      assert (a + b)[1..] == a[1..] + b;
      RunConcat(p, Stepped(p, s, a[0]), a[1..], b);
    }
  }

  /** Up, with `n` requests counted, all of them checked, by handlers 1 to `n`, and those let
      through answered. */
  ghost predicate Served(p: Policy, s: Dut, n: nat) {
    && s.up && s.count == n
    && (forall m | 1 <= m <= n :: m in s.decided)
    && (forall m | 1 <= m <= n && OutcomeOf(p, m, true) == Proceed :: m in s.answered)
    && ((forall m | 1 <= m <= n :: OutcomeOf(p, m, true) == Proceed) ==> |s.answered| == n)
    && (forall h | h in s.phases :: h <= n && !s.phases[h].Numbered?)
  }

  lemma ServeOne(p: Policy, s: Dut, n: nat)
    requires Served(p, s, n) && OutcomeOf(p, n + 1, true) != Die
    ensures Served(p, Stepped(p, Stepped(p, Stepped(p, s, Count(n + 1)), Decide(n + 1, true)), Answer(n + 1)), n + 1)
  {
    var counted := s.(count := n + 1, phases := s.phases[n + 1 := Numbered(n + 1)]);
    assert Stepped(p, s, Count(n + 1)) == counted;
    assert Stepped(p, counted, Decide(n + 1, true)) == Decided(p, counted, n + 1, n + 1, OutcomeOf(p, n + 1, true));
    AnsweredServed(p, counted, n + 1);
  }

  lemma AnsweredServed(p: Policy, s: Dut, n: nat)
    requires s.up && s.count == n && n >= 1 && OutcomeOf(p, n, true) != Die
    requires forall m | 1 <= m < n :: m in s.decided
    requires forall m | 1 <= m < n && OutcomeOf(p, m, true) == Proceed :: m in s.answered
    requires (forall m | 1 <= m < n :: OutcomeOf(p, m, true) == Proceed) ==> |s.answered| == n - 1
    requires forall h | h in s.phases :: h <= n && (h < n ==> !s.phases[h].Numbered?)
    ensures Served(p, Stepped(p, Decided(p, s, n, n, OutcomeOf(p, n, true)), Answer(n)), n)
  {
    var outcome := OutcomeOf(p, n, true);
    var t := Decided(p, s, n, n, outcome);
    assert t.decided == s.decided + [n];
    forall m | 1 <= m <= n
      ensures m in t.decided
    {
      if m < n { assert m in s.decided; }
    }
    var u := Stepped(p, t, Answer(n));
    assert t.phases[n] == if outcome == Proceed then Cleared(n) else Blocked;
    assert u.phases[n] == if outcome == Proceed then Waiting else Blocked;
    assert u.answered == s.answered + if outcome == Proceed then [n] else [];
  }

  lemma RunThree(p: Policy, s: Dut, a: Action, b: Action, c: Action)
    ensures Run(p, s, [a, b, c]) == Stepped(p, Stepped(p, Stepped(p, s, a), b), c)
  {
    var s1 := Stepped(p, s, a);
    var s2 := Stepped(p, s1, b);
    assert [a, b, c][1..] == [b, c] && [b, c][1..] == [c] && [c][1..] == [];
    assert Run(p, s2, [c]) == Stepped(p, s2, c);
    assert Run(p, s1, [b, c]) == Run(p, s2, [c]);
  }

  lemma {:induction false} ServingServes(p: Policy, n: nat)
    requires Startup(p, true).up && forall m | 1 <= m <= n :: OutcomeOf(p, m, true) != Die
    ensures Served(p, Run(p, Startup(p, true), Serving(n)), n)
  {
    if n > 0 {
      ServingServes(p, n - 1);
      var s := Run(p, Startup(p, true), Serving(n - 1));
      RunConcat(p, Startup(p, true), Serving(n - 1), [Count(n), Decide(n, true), Answer(n)]);
      RunThree(p, s, Count(n), Decide(n, true), Answer(n));
      ServeOne(p, s, n - 1);
    }
  }

  /** Over all interleavings, a configured native fault can fire a second time if and only if
      it is one that goes on. Serving one request after another till the counter has come
      round is such a run. */
  lemma FiresAgainAfterWrap(p: Policy)
    requires ValidPolicy(p) && p.Native? && p.fault != None
    ensures (exists s :: Reachable(p, s) && |s.fired| >= 2) <==> GoesOn(p)
  {
    if GoesOn(p) {
      var n := p.after + WIDTH;
      var s := Run(p, Startup(p, true), Serving(n));
      ServingServes(p, n);
      assert Reachable(p, s);
      OneShotExactly(p, s);
    } else {
      forall s | Reachable(p, s)
        ensures |s.fired| <= 1
      {
        EndsAtOnce(p, s);
      }
    }
  }

  /** A crash ends the process, and a hang of the main thread keeps it from serving. */
  lemma EndsAtOnce(p: Policy, s: Dut)
    requires p.Native? && p.fault != None && !GoesOn(p) && Reachable(p, s)
    ensures |s.fired| <= 1
  {
    match p.fault.value
    case Crash => ReachableConsistent(p, s);
    case Hang =>
      var survives, actions :| s == Run(p, Startup(p, survives), actions);
      ShownOnce(0, 0);
      DownStays(p, Startup(p, survives), actions);
  }

  lemma {:induction false} DownStays(p: Policy, s: Dut, actions: seq<Action>)
    requires !s.up
    ensures Run(p, s, actions) == s
    decreases |actions|
  {
    if actions != [] { DownStays(p, s, actions[1..]); }
  }

  // ----- Fewer answers

  lemma MemberAt(s: seq<nat>, i: nat)
    ensures i < |s| ==> s[i] in s
  {
  }

  lemma {:induction false} Pigeonhole(s: seq<nat>, n: nat)
    requires AllDifferent(s) && forall x | x in s :: 1 <= x < n
    requires n >= 1
    ensures |s| <= n - 1
    decreases n
  {
    if n == 1 {
      MemberAt(s, 0);
    } else if n - 1 in s {
      var i :| 0 <= i < |s| && s[i] == n - 1;
      var rest := s[..i] + s[i + 1..];
      assert forall x | x in rest :: x in s && x != n - 1;
      Pigeonhole(rest, n - 1);
    } else {
      Pigeonhole(s, n - 1);
    }
  }

  /** In every interleaving the Python DUT answers fewer requests than it was told to exit
      after, each numbered below that, and has ended once any later number was checked. */
  lemma AnswersFewer(p: Policy, s: Dut)
    requires ValidPolicy(p) && p.Python? && Reachable(p, s)
    ensures |s.answered| <= p.exitAfter - 1
    ensures forall n | n in s.answered :: 1 <= n < p.exitAfter
    ensures forall n | n in s.decided && n >= p.exitAfter :: !s.up
  {
    ReachableConsistent(p, s);
    forall n | n in s.decided && n >= p.exitAfter
      ensures !s.up
    {
      FiredMembers(p, s.decided, n);
    }
    Pigeonhole(s.answered, p.exitAfter);
  }

  /** It gets that far: serving one request after another answers all the others. And it has
      ended exactly when a later number was checked. */
  lemma AnswersUpToTheLast(p: Policy)
    requires ValidPolicy(p) && p.Python?
    ensures exists s :: Reachable(p, s) && |s.answered| == p.exitAfter - 1
  {
    var n := p.exitAfter - 1;
    ServingServes(p, n);
    assert Reachable(p, Run(p, Startup(p, true), Serving(n)));
  }

  lemma EndsExactly(p: Policy, s: Dut)
    requires ValidPolicy(p) && p.Python? && Reachable(p, s)
    ensures s.up <==> forall n | n in s.decided :: n < p.exitAfter
  {
    ReachableConsistent(p, s);
    if !s.up {
      assert s.fired[0] in s.fired;
      FiredMembers(p, s.decided, s.fired[0]);
    }
    forall n | n in s.decided && n >= p.exitAfter
      ensures !s.up
    {
      FiredMembers(p, s.decided, n);
    }
  }

  /** The request a fault fires on can be answered if and only if the fault lets its handler
      go on. */
  lemma AnsweredDespiteFault(p: Policy)
    requires ValidPolicy(p) && p.Native? && p.after > 0
    ensures (exists s :: Reachable(p, s) && p.after in s.answered)
       <==> p.fault == None || p.fault == Some(Slow) || p.fault == Some(BadAccess)
  {
    if p.fault == None || p.fault == Some(Slow) || p.fault == Some(BadAccess) {
      ServingServes(p, p.after);
      assert Reachable(p, Run(p, Startup(p, true), Serving(p.after)));
      assert OutcomeOf(p, p.after, true) == Proceed;
    } else {
      forall s | Reachable(p, s)
        ensures p.after !in s.answered
      {
        ReachableConsistent(p, s);
        NotPassed(p, s);
      }
    }
  }

  lemma NotPassed(p: Policy, s: Dut)
    requires ValidPolicy(p) && p.Native? && p.fault != None && p.fault != Some(Slow) && p.fault != Some(BadAccess)
    ensures !Passed(p, s, p.after)
  {
    ShownOnce(p.after, p.after);
  }

  /** Requests are numbered without gaps or repeats: every number up to the count has been
      checked once or is held by one handler about to check it. */
  lemma NumbersAreUnique(p: Policy, s: Dut)
    requires Reachable(p, s)
    ensures Unique(s)
  {
    ReachableConsistent(p, s);
  }
}
