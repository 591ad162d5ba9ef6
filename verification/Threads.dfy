/** Connection threads of the native DUT (cpp/src/server.cpp:279-299, 431-522): handles kept
    in a vector, compacted in place as handlers finish, joined in two passes at shutdown.
    Handlers run beside all this, so any of them may finish between any two steps. */
module Threads {
  import opened Options

  /** A slot of the vector: a thread handle, joinable while it names a thread, and the flag
      the thread sets on its way out. A slot that was moved from has neither. */
  datatype Handler = Handler(thread: Option<nat>, done: Option<nat>)

  const EMPTIED: Handler := Handler(None, None)

  datatype Ending = ReturnZero | ExitNow

  predicate Joinable(h: Handler) { h.thread.Some? }

  /** A slot as it was pushed: thread `k` and the flag of thread `k`. */
  predicate Running(h: Handler, started: nat) { h.thread.Some? && h.thread == h.done && h.thread.value < started }

  /** A slot at shutdown: as it was pushed, or joined. */
  predicate Settled(h: Handler, started: nat) { Running(h, started) || (h.thread == None && h.done.Some?) }

  /** The slots not marked as gone, in order. */
  function Kept(hs: seq<Handler>, gone: seq<bool>): seq<Handler>
    requires |gone| == |hs|
    decreases |hs|
  {
    if hs == [] then [] else
      var n := |hs| - 1;
      Kept(hs[..n], gone[..n]) + if gone[n] then [] else [hs[n]]
  }

  /** The threads of the slots marked as gone, in order. */
  function Reaped(hs: seq<Handler>, gone: seq<bool>): seq<nat>
    requires |gone| == |hs|
    decreases |hs|
  {
    if hs == [] then [] else
      var n := |hs| - 1;
      Reaped(hs[..n], gone[..n]) + if gone[n] && hs[n].thread.Some? then [hs[n].thread.value] else []
  }

  /** How many slots hold thread `k`. */
  function Slots(hs: seq<Handler>, k: nat): nat
    decreases |hs|
  {
    if hs == [] then 0 else
      var n := |hs| - 1;
      Slots(hs[..n], k) + if hs[n].thread == Some(k) then 1 else 0
  }

  /** How often `k` is in the list. */
  function Times(xs: seq<nat>, k: nat): nat
    decreases |xs|
  {
    if xs == [] then 0 else
      var n := |xs| - 1;
      Times(xs[..n], k) + if xs[n] == k then 1 else 0
  }

  lemma {:induction false} TimesConcat(a: seq<nat>, b: seq<nat>, k: nat)
    ensures Times(a + b, k) == Times(a, k) + Times(b, k)
    decreases |b|
  {
    if b == [] {
      assert a + b == a;
    } else {
      var n := |b| - 1;
      TimesConcat(a, b[..n], k);
      assert (a + b)[..|a + b| - 1] == a + b[..n] && (a + b)[|a + b| - 1] == b[n];
    }
  }

  lemma {:induction false} TimesOfMember(xs: seq<nat>, k: nat)
    ensures Times(xs, k) > 0 <==> k in xs
    decreases |xs|
  {
    if xs != [] {
      var n := |xs| - 1;
      TimesOfMember(xs[..n], k);
      assert xs == xs[..n] + [xs[n]];
    }
  }

  lemma KeptStep(hs: seq<Handler>, gone: seq<bool>, h: Handler, g: bool)
    requires |gone| == |hs|
    ensures Kept(hs + [h], gone + [g]) == Kept(hs, gone) + if g then [] else [h]
    ensures Reaped(hs + [h], gone + [g]) == Reaped(hs, gone) + if g && h.thread.Some? then [h.thread.value] else []
  {
    var all, marks := hs + [h], gone + [g];
    assert all[..|hs|] == hs && marks[..|hs|] == gone;
  }

  lemma {:induction false} NoneGone(hs: seq<Handler>, gone: seq<bool>)
    requires |gone| == |hs| && forall i | 0 <= i < |gone| :: !gone[i]
    ensures Kept(hs, gone) == hs && Reaped(hs, gone) == []
    decreases |hs|
  {
    if hs != [] {
      var n := |hs| - 1;
      NoneGone(hs[..n], gone[..n]);
      assert hs == hs[..n] + [hs[n]];
    }
  }

  /** Compaction neither loses nor doubles a thread. */
  lemma {:induction false} KeptOrReaped(hs: seq<Handler>, gone: seq<bool>, k: nat)
    requires |gone| == |hs|
    ensures Slots(Kept(hs, gone), k) + Times(Reaped(hs, gone), k) == Slots(hs, k)
    decreases |hs|
  {
    if hs != [] {
      var n := |hs| - 1;
      KeptOrReaped(hs[..n], gone[..n], k);
      assert Kept(hs[..n], gone[..n]) + [] == Kept(hs[..n], gone[..n]);
      assert Reaped(hs[..n], gone[..n]) + [] == Reaped(hs[..n], gone[..n]);
      if gone[n] {
        if hs[n].thread.Some? {
          TimesConcat(Reaped(hs[..n], gone[..n]), [hs[n].thread.value], k);
          OneTime(hs[n].thread.value, k);
        }
      } else {
        PushedSlot(Kept(hs[..n], gone[..n]), hs[n], k);
      }
    }
  }

  lemma OneTime(x: nat, k: nat)
    ensures Times([x], k) == if x == k then 1 else 0
  {
    assert [x][..0] == [];
  }

  lemma PushedSlot(hs: seq<Handler>, h: Handler, k: nat)
    ensures Slots(hs + [h], k) == Slots(hs, k) + if h.thread == Some(k) then 1 else 0
  {
    assert (hs + [h])[..|hs|] == hs;
  }

  lemma {:induction false} KeptRunning(hs: seq<Handler>, gone: seq<bool>, started: nat)
    requires |gone| == |hs| && forall i | 0 <= i < |hs| :: Running(hs[i], started)
    ensures var kept := Kept(hs, gone); |kept| <= |hs| && forall i | 0 <= i < |kept| :: Running(kept[i], started)
    decreases |hs|
  {
    if hs != [] { KeptRunning(hs[..|hs| - 1], gone[..|hs| - 1], started); }
  }

  lemma {:induction false} SlotEmptied(hs: seq<Handler>, i: nat, k: nat)
    requires i < |hs| && hs[i].thread.Some?
    ensures Slots(hs, k) == Slots(hs[i := hs[i].(thread := None)], k) + if hs[i].thread == Some(k) then 1 else 0
    decreases |hs|
  {
    var n := |hs| - 1;
    var after := hs[i := hs[i].(thread := None)];
    if i < n {
      SlotEmptied(hs[..n], i, k);
      assert after[..n] == hs[..n][i := hs[i].(thread := None)];
    } else {
      assert after[..n] == hs[..n];
    }
  }

  lemma {:induction false} NoSlot(hs: seq<Handler>, k: nat)
    requires forall i | 0 <= i < |hs| :: !Joinable(hs[i])
    ensures Slots(hs, k) == 0
    decreases |hs|
  {
    if hs != [] { NoSlot(hs[..|hs| - 1], k); }
  }

  lemma SlotAhead(hs: seq<Handler>, was: seq<Handler>, i: nat)
    requires i < |hs| && |hs| == |was| && hs[i..] == was[i..]
    ensures hs[i] == was[i] && hs[i + 1..] == was[i + 1..]
  {
    assert hs[i] == hs[i..][0] && was[i] == was[i..][0];
    assert hs[i + 1..] == hs[i..][1..] && was[i + 1..] == was[i..][1..];
  }

  lemma OneMoreJoined(hs: seq<Handler>, i: nat)
    requires i < |hs|
    ensures NoneJoinable(hs[..i]) && !Joinable(hs[i]) ==> NoneJoinable(hs[..i + 1])
  {
  }

  lemma PrefixGrows(hs: seq<Handler>, i: nat, started: nat, late: set<nat>, all: bool)
    requires i < |hs| && if all then NoneJoinable(hs[..i]) else OneStillRunning(hs[..i], started, late)
    requires Joinable(hs[i]) ==> hs[i].thread.value < started && hs[i].thread.value !in late
    ensures if all && !Joinable(hs[i]) then NoneJoinable(hs[..i + 1]) else OneStillRunning(hs[..i + 1], started, late)
  {
    assert hs[..i + 1][i] == hs[i];
    if !all {
      var j :| 0 <= j < i && Joinable(hs[..i][j]) && hs[..i][j].thread.value < started
          && hs[..i][j].thread.value !in late;
      assert hs[..i + 1][j] == hs[..i][j];
    }
  }

  lemma NoneLeft(hs: seq<Handler>, joined: seq<nat>, finished: set<nat>, started: nat)
    requires Accounts(hs, joined, finished, started) && forall i | 0 <= i < |hs| :: !Joinable(hs[i])
    ensures AllJoined(joined, finished, started)
  {
    forall k: nat
      ensures Times(joined, k) == if k < started then 1 else 0
    {
      NoSlot(hs, k);
    }
  }

  function Misses(n: nat): (r: seq<bool>)
    ensures |r| == n && forall i | 0 <= i < n :: !r[i]
  {
    seq(n, _ => false)
  }

  predicate AllRunning(hs: seq<Handler>, started: nat) { forall i | 0 <= i < |hs| :: Running(hs[i], started) }

  /** Every thread ever started has been joined once or is held by one slot, and only
      finished ones have been joined. */
  ghost predicate Accounts(hs: seq<Handler>, joined: seq<nat>, finished: set<nat>, started: nat) {
    && (forall k: nat :: Slots(hs, k) + Times(joined, k) == if k < started then 1 else 0)
    && (forall k | k in finished :: k < started)
    && (forall k | k in joined :: k in finished)
  }

  /** The marks are what the flags said when each was read. */
  ghost predicate Marked(was: seq<Handler>, gone: seq<bool>, before: set<nat>, finished: set<nat>) {
    && |gone| <= |was|
    && before <= finished
    && forall i | 0 <= i < |gone| ::
         was[i].done.Some? && (gone[i] ==> was[i].done.value in finished) && (was[i].done.value in before ==> gone[i])
  }

  predicate AllSettled(hs: seq<Handler>, started: nat) { forall i | 0 <= i < |hs| :: Settled(hs[i], started) }

  predicate NoneJoinable(hs: seq<Handler>) { forall i | 0 <= i < |hs| :: !Joinable(hs[i]) }

  ghost predicate AllJoined(joined: seq<nat>, finished: set<nat>, started: nat) {
    && (forall k: nat :: Times(joined, k) == if k < started then 1 else 0)
    && (forall k | k in joined :: k in finished)
  }

  /** Some slot holds a thread that had not finished at the time `late` was taken. */
  ghost predicate OneStillRunning(hs: seq<Handler>, started: nat, late: set<nat>) {
    exists i | 0 <= i < |hs| :: Joinable(hs[i]) && hs[i].thread.value < started && hs[i].thread.value !in late
  }

  /** Between the compaction of the first `next` slots and that of the rest: those kept come
      first, then slots that are not joinable, then the untouched ones. */
  ghost predicate Compact(was: seq<Handler>, gone: seq<bool>, hs: seq<Handler>, kept: nat, next: nat) {
    && |gone| == next && kept <= next <= |was| == |hs|
    && hs[..kept] == Kept(was[..next], gone)
    && (forall i | kept <= i < next :: !Joinable(hs[i]))
    && hs[next..] == was[next..]
  }

  lemma NextUntouched(was: seq<Handler>, gone: seq<bool>, hs: seq<Handler>, kept: nat, next: nat, done: bool)
    requires Compact(was, gone, hs, kept, next) && next < |was|
    ensures hs[next] == was[next]
    ensures Kept(was[..next + 1], gone + [done]) == Kept(was[..next], gone) + if done then [] else [was[next]]
    ensures Reaped(was[..next + 1], gone + [done])
         == Reaped(was[..next], gone) + if done && was[next].thread.Some? then [was[next].thread.value] else []
  {
    assert hs[next..][0] == hs[next] && was[next..][0] == was[next];
    KeptStep(was[..next], gone, was[next], done);
    assert was[..next + 1] == was[..next] + [was[next]];
  }

  lemma LeftBehind(was: seq<Handler>, gone: seq<bool>, hs: seq<Handler>, kept: nat, next: nat)
    requires Compact(was, gone, hs, kept, next) && next < |was|
    ensures Compact(was, gone + [true], hs[next := hs[next].(thread := None)], kept, next + 1)
  {
    NextUntouched(was, gone, hs, kept, next, true);
    var now := hs[next := hs[next].(thread := None)];
    assert now[..kept] == hs[..kept];
    assert now[next + 1..] == hs[next..][1..] && was[next + 1..] == was[next..][1..];
  }

  lemma MovedDown(was: seq<Handler>, gone: seq<bool>, hs: seq<Handler>, kept: nat, next: nat)
    requires Compact(was, gone, hs, kept, next) && kept < next < |was|
    ensures Compact(was, gone + [false], hs[kept := hs[next]][next := EMPTIED], kept + 1, next + 1)
  {
    NextUntouched(was, gone, hs, kept, next, false);
    var now := hs[kept := hs[next]][next := EMPTIED];
    assert now[..kept + 1] == hs[..kept] + [hs[next]];
    assert now[next + 1..] == hs[next..][1..] && was[next + 1..] == was[next..][1..];
  }

  class Server {
    var handlers: seq<Handler>
    /** The threads whose flag is set, the threads started so far, and those joined. */
    var finished: set<nat>
    var started: nat
    var joined: seq<nat>
    var clock: nat
    /** When each finished thread finished, and when each thread was started. */
    ghost var doneAt: map<nat, nat>
    ghost var startedAt: seq<nat>

    /** No time lies in the future. */
    ghost predicate Dated()
      reads this
    {
      && (forall k | k in finished :: k < started && k in doneAt && doneAt[k] <= clock)
      && |startedAt| == started && forall k | 0 <= k < started :: startedAt[k] <= clock
    }

    /** Since then time has gone on, and what has finished since has finished at such a time. */
    twostate predicate Passed()
      reads this
    {
      && old(finished) <= finished && old(clock) <= clock
      && (forall k | k in old(finished) && k in old(doneAt) :: k in doneAt && doneAt[k] == old(doneAt)[k])
      && (forall k | k in finished && k !in old(finished) :: k in doneAt && old(clock) <= doneAt[k])
    }

    ghost predicate Valid()
      reads this
    {
      Accounts(handlers, joined, finished, started) && AllRunning(handlers, started) && Dated()
    }

    constructor ()
      ensures Valid() && handlers == [] && started == 0 && joined == []
    {
      handlers, finished, started, joined, clock, doneAt, startedAt := [], {}, 0, [], 0, map[], [];
    }

    /** What other threads may do before the next step of this one: some time passes, some
        finish, and more time passes. */
    method Tick()
      requires Dated()
      modifies this`finished, this`clock, this`doneAt
      ensures Dated() && Passed()
    {
      Wait();
      var some: set<nat> := *;
      var more := (set k: nat | k < started && k in some) - finished;
      doneAt := doneAt + map k | k in more :: clock;
      finished := finished + more;
      Wait();
    }

    method Wait()
      modifies this`clock
      ensures old(clock) <= clock
    {
      var passed: int := *;
      if passed > 0 {
        clock := clock + passed;
      }
    }

    /** Reads the flag of a slot. */
    method Load(i: nat) returns (done: bool)
      requires Dated() && i < |handlers| && handlers[i].done.Some?
      modifies this`finished, this`clock, this`doneAt
      ensures Dated() && Passed()
      ensures done <==> handlers[i].done.value in finished
    {
      Tick();
      done := handlers[i].done.value in finished;
    }

    /** Joining a finished thread does not wait; the handle is no longer joinable. */
    method Join(i: nat)
      requires i < |handlers| && Joinable(handlers[i]) && handlers[i].thread.value in finished
      modifies this`handlers, this`joined
      ensures handlers == old(handlers)[i := old(handlers[i]).(thread := None)]
      ensures joined == old(joined) + [old(handlers[i].thread.value)]
    {
      joined := joined + [handlers[i].thread.value];
      handlers := handlers[i := handlers[i].(thread := None)];
    }

    /** Move assignment; onto a joinable handle it would end the process. */
    method MoveAssign(target: nat, source: nat)
      requires target < source < |handlers| && !Joinable(handlers[target])
      modifies this`handlers
      ensures handlers == old(handlers)[target := old(handlers[source])][source := EMPTIED]
    {
      handlers := handlers[target := handlers[source]][source := EMPTIED];
    }

    /** Drops the slots from `first` on; destroying a joinable handle would end the process. */
    method Erase(first: nat)
      requires first <= |handlers| && forall i | first <= i < |handlers| :: !Joinable(handlers[i])
      modifies this`handlers
      ensures handlers == old(handlers)[..first]
    {
      handlers := handlers[..first];
    }

    /** The predicate of the compaction: joins the handler if it is done. */
    method IsFinished(i: nat) returns (done: bool)
      requires Dated() && i < |handlers| && handlers[i].done.Some?
      requires Joinable(handlers[i]) ==> handlers[i].thread == handlers[i].done
      modifies this`finished, this`clock, this`doneAt, this`handlers, this`joined
      ensures Dated() && Passed()
      ensures done <==> old(handlers[i]).done.value in finished
      ensures handlers == if done then old(handlers)[i := old(handlers[i]).(thread := None)] else old(handlers)
      ensures joined == old(joined) + if done && Joinable(old(handlers[i])) then [old(handlers[i]).thread.value] else []
    {
      done := Load(i);
      if !done {
        return;
      }
      if Joinable(handlers[i]) {
        Join(i);
      }
    }

    /** The compaction has come to slot `next`. */
    ghost predicate Compacting(was: seq<Handler>, gone: seq<bool>, kept: nat, next: nat, joinedBefore: seq<nat>)
      reads this
    {
      Compact(was, gone, handlers, kept, next) && joined == joinedBefore + Reaped(was[..next], gone)
    }

    /** One more slot: joined and left behind, or moved down over one that is not joinable. */
    method CompactNext(kept: nat, next: nat, ghost was: seq<Handler>, ghost gone: seq<bool>, ghost before: set<nat>,
                       ghost joinedBefore: seq<nat>)
      returns (keptNow: nat, ghost goneNow: seq<bool>)
      requires kept < next < |was| && Compacting(was, gone, kept, next, joinedBefore)
               && Marked(was, gone, before, finished)
      requires Running(was[next], started) && Dated()
      modifies this`handlers, this`finished, this`joined, this`clock, this`doneAt
      ensures keptNow <= next && Compacting(was, goneNow, keptNow, next + 1, joinedBefore)
              && Marked(was, goneNow, before, finished)
      ensures Dated() && Passed()
    {
      NextUntouched(was, gone, handlers, kept, next, true);
      NextUntouched(was, gone, handlers, kept, next, false);
      LeftBehind(was, gone, handlers, kept, next);
      MovedDown(was, gone, handlers, kept, next);
      var done := IsFinished(next);
      goneNow := gone + [done];
      keptNow := kept;
      if !done {
        MoveAssign(kept, next);
        keptNow := kept + 1;
      }
    }

    /** The first finished slot, if any; the ones before it stay where they are. */
    method FindFinished() returns (first: nat, found: bool, ghost gone: seq<bool>)
      requires Valid()
      modifies this`handlers, this`finished, this`joined, this`clock, this`doneAt
      ensures first <= |old(handlers)| && (found <==> first < |old(handlers)|)
      ensures gone == Misses(first) + if found then [true] else []
      ensures handlers == if found then old(handlers)[first := old(handlers)[first].(thread := None)] else old(handlers)
      ensures found ==> Running(old(handlers)[first], started)
      ensures joined == old(joined) + if found then [old(handlers)[first].done.value] else []
      ensures Marked(old(handlers), gone, old(finished), finished) && Dated() && Passed()
    {
      first, found, gone := 0, false, [];
      while first < |handlers|
        invariant first <= |handlers| && handlers == old(handlers) && joined == old(joined) && gone == Misses(first)
        invariant Marked(old(handlers), gone, old(finished), finished) && Dated() && Passed()
      {
        assert Running(handlers[first], started);
        found := IsFinished(first);
        gone := gone + [found];
        if found {
          return;
        }
        first := first + 1;
      }
    }

    method BeginCompacting() returns (kept: nat, next: nat, ghost gone: seq<bool>)
      requires Valid()
      modifies this`handlers, this`finished, this`joined, this`clock, this`doneAt
      ensures next <= |handlers| && (kept < next || next == |handlers|)
      ensures Compacting(old(handlers), gone, kept, next, old(joined))
      ensures Marked(old(handlers), gone, old(finished), finished) && Dated() && Passed()
    {
      var found;
      kept, found, gone := FindFinished();
      next := if found then kept + 1 else kept;
      FoundFirst(old(handlers), kept, found, gone);
    }

    /** Slots of finished handlers are dropped and the others keep their order. A handler that
        was done at the start is dropped, one that is dropped is done by the end, and no
        other is joined. */
    method ReapFinished() returns (ghost gone: seq<bool>)
      requires Valid()
      modifies this`handlers, this`finished, this`joined, this`clock, this`doneAt
      ensures Valid() && Passed()
      ensures |gone| == |old(handlers)| && handlers == Kept(old(handlers), gone)
      ensures joined == old(joined) + Reaped(old(handlers), gone)
      ensures Marked(old(handlers), gone, old(finished), finished)
    {
      ghost var was := handlers;
      var finish;
      finish, gone := RemoveFinished();
      WholeKept(was, gone, finish, handlers);
      Erase(finish);
      AccountsReaped(was, gone, old(joined), old(finished), finished, started);
    }

    /** Leaves the handlers that are kept at the front and gives where they end. */
    method RemoveFinished() returns (finish: nat, ghost gone: seq<bool>)
      requires Valid()
      modifies this`handlers, this`finished, this`joined, this`clock, this`doneAt
      ensures Compacting(old(handlers), gone, finish, |old(handlers)|, old(joined))
      ensures Marked(old(handlers), gone, old(finished), finished) && Dated() && Passed()
    {
      var next: nat;
      finish, next, gone := BeginCompacting();
      while next < |handlers|
        invariant (finish < next || next == |handlers|) && Compacting(old(handlers), gone, finish, next, old(joined))
        invariant Marked(old(handlers), gone, old(finished), finished) && Dated() && Passed()
      {
        finish, gone := CompactNext(finish, next, old(handlers), gone, old(finished), old(joined));
        next := next + 1;
      }
    }

    /** A connection was accepted: its thread is started, its flag not yet set. */
    method Start()
      requires Valid()
      modifies this`handlers, this`started, this`startedAt
      ensures Valid() && started == old(started) + 1 && startedAt == old(startedAt) + [clock]
      ensures handlers == old(handlers) + [Handler(Some(old(started)), Some(old(started)))]
    {
      AccountsStarted(handlers, joined, finished, started);
      handlers := handlers + [Handler(Some(started), Some(started))];
      started := started + 1;
      startedAt := startedAt + [clock];
      assert forall k | 0 <= k < started :: startedAt[k] <= clock;
    }

    /** Between the two passes: each slot is as it was pushed, or joined. */
    ghost predicate Draining()
      reads this
    {
      Accounts(handlers, joined, finished, started) && AllSettled(handlers, started) && Dated()
    }

    method JoinIfDone(i: nat)
      requires Draining() && i < |handlers|
      modifies this`handlers, this`finished, this`joined, this`clock, this`doneAt
      ensures Draining() && |handlers| == |old(handlers)| && Passed()
      ensures handlers[..i] == old(handlers)[..i] && handlers[i + 1..] == old(handlers)[i + 1..]
      ensures handlers[i] == old(handlers)[i] || !Joinable(handlers[i])
      ensures Joinable(handlers[i]) ==> handlers[i].thread.value < started && handlers[i].thread.value !in old(finished)
    {
      assert Settled(handlers[i], started);
      var done := Load(i);
      if done && Joinable(handlers[i]) {
        JoinSettled(i);
      }
    }

    method JoinSettled(i: nat)
      requires Draining() && i < |handlers| && Joinable(handlers[i]) && handlers[i].thread.value in finished
      modifies this`handlers, this`joined
      ensures Draining() && |handlers| == |old(handlers)| && !Joinable(handlers[i])
      ensures handlers[..i] == old(handlers)[..i] && handlers[i + 1..] == old(handlers)[i + 1..]
    {
      assert Settled(handlers[i], started);
      AccountsJoined(handlers, i, joined, finished, started);
      Join(i);
    }

    /** Sleeping takes some time. */
    method Sleep()
      requires Dated()
      modifies this`finished, this`clock, this`doneAt
      ensures Dated() && Passed() && old(clock) < clock
    {
      Tick();
      clock := clock + 1;
    }

    /** Waits until the handler is done or the deadline has passed. */
    method Await(i: nat, deadline: nat)
      requires Draining() && i < |handlers|
      modifies this`finished, this`clock, this`doneAt
      ensures Draining() && Passed()
      ensures (exists k | k in finished :: handlers[i].done == Some(k)) || deadline <= clock
    {
      assert Settled(handlers[i], started);
      var done := Load(i);
      while !done && clock < deadline
        invariant Draining() && Passed()
        invariant done <==> handlers[i].done.value in finished
        decreases deadline - clock
      {
        Sleep();
        done := Load(i);
      }
    }

    method AwaitAndJoin(i: nat, deadline: nat)
      requires Draining() && i < |handlers|
      modifies this`handlers, this`finished, this`joined, this`clock, this`doneAt
      ensures Draining() && |handlers| == |old(handlers)| && Passed()
      ensures handlers[..i] == old(handlers)[..i] && handlers[i + 1..] == old(handlers)[i + 1..]
      ensures !Joinable(handlers[i]) || deadline <= clock
    {
      Await(i, deadline);
      assert Settled(handlers[i], started);
      JoinIfDone(i);
    }

    /** First pass: every handler that is done by the common deadline is joined. */
    method FirstPass(deadline: nat)
      requires Draining()
      modifies this`handlers, this`finished, this`joined, this`clock, this`doneAt
      ensures Draining() && |handlers| == |old(handlers)| && Passed()
      ensures NoneJoinable(handlers) || deadline <= clock
    {
      var i := 0;
      while i < |handlers|
        invariant Draining() && i <= |handlers| == |old(handlers)| && Passed()
        invariant deadline <= clock || NoneJoinable(handlers[..i])
      {
        AwaitAndJoin(i, deadline);
        OneMoreJoined(handlers, i);
        i := i + 1;
      }
      assert handlers[..i] == handlers;
    }

    /** Second pass: joins what has finished since, and decides by what it could not join. */
    method SecondPass() returns (allJoined: bool)
      requires Draining()
      modifies this`handlers, this`finished, this`joined, this`clock, this`doneAt
      ensures Draining() && |handlers| == |old(handlers)| && Passed()
      ensures if allJoined then NoneJoinable(handlers) else OneStillRunning(handlers, started, old(finished))
      ensures NoneJoinable(old(handlers)) ==> allJoined
    {
      allJoined := true;
      ghost var was, late := handlers, finished;
      var i := 0;
      while i < |handlers|
        invariant i <= |handlers| == |was| && Passed() && Scanned(was, late, i, allJoined)
      {
        allJoined := JoinOrNote(i, allJoined, was, late);
        i := i + 1;
      }
      assert handlers[..i] == handlers;
    }

    /** The first `i` slots have been looked at, with this verdict; the rest are as they were. */
    ghost predicate Scanned(was: seq<Handler>, late: set<nat>, i: nat, allJoined: bool)
      reads this
    {
      && Draining() && late <= finished
      && i <= |handlers| == |was| && handlers[i..] == was[i..]
      && (if allJoined then NoneJoinable(handlers[..i]) else OneStillRunning(handlers[..i], started, late))
      && (NoneJoinable(was) ==> allJoined)
    }

    method JoinOrNote(i: nat, allJoined: bool, ghost was: seq<Handler>, ghost late: set<nat>) returns (still: bool)
      requires i < |handlers| && Scanned(was, late, i, allJoined)
      modifies this`handlers, this`finished, this`joined, this`clock, this`doneAt
      ensures |handlers| == |old(handlers)| && Passed() && Scanned(was, late, i + 1, still)
    {
      SlotAhead(handlers, was, i);
      JoinIfDone(i);
      PrefixGrows(handlers, i, started, late, allJoined);
      still := allJoined && !Joinable(handlers[i]);
    }

    /** Shutdown with its grace period. Returning destroys the vector, which is safe because
        every thread ever started has been joined, once. The process exits without that
        only if, the whole grace period over, some thread had still not finished. */
    method Shutdown(grace: nat) returns (ending: Ending, ghost late: set<nat>)
      requires Valid()
      modifies this
      ensures started == old(started) && startedAt == old(startedAt) && Dated() && Passed()
      ensures old(finished) <= late <= finished
      ensures forall k | k in finished && doneAt[k] < old(clock) + grace :: k in late
      ensures ending == ReturnZero ==> handlers == [] && AllJoined(joined, finished, started)
      ensures ending == ExitNow ==> old(clock) + grace <= clock
      ensures ending == ExitNow ==> OneStillRunning(handlers, started, late)
    {
      var allJoined;
      allJoined, late := Drain(clock + grace);
      if !allJoined {
        return ExitNow, late;
      }
      NoneLeft(handlers, joined, finished, started);
      Erase(0);
      return ReturnZero, late;
    }

    /** Both passes, with the threads that had finished between them. */
    method Drain(deadline: nat) returns (allJoined: bool, ghost late: set<nat>)
      requires Draining()
      modifies this`handlers, this`finished, this`joined, this`clock, this`doneAt
      ensures Draining() && Passed() && old(finished) <= late <= finished
      ensures forall k | k in finished && doneAt[k] < deadline :: k in late
      ensures if allJoined then NoneJoinable(handlers)
              else deadline <= clock && OneStillRunning(handlers, started, late)
    {
      FirstPass(deadline);
      late := finished;
      ghost var noted := clock;
      assert deadline <= noted || forall k: nat | k < started :: k in late by {
        if NoneJoinable(handlers) { AllFinished(handlers, joined, finished, started); }
      }
      allJoined := SecondPass();
    }

    /** No slot holds a thread that had finished before the last connection was accepted. */
    ghost predicate Swept()
      reads this
      requires Dated()
    {
      forall i | 0 <= i < |handlers| && started > 0 && handlers[i].done.Some? && handlers[i].done.value in finished ::
        startedAt[started - 1] <= doneAt[handlers[i].done.value]
    }

    /** One connection: its thread is started and the vector compacted. */
    method Accept()
      requires Valid()
      modifies this
      ensures Valid() && Swept() && started == old(started) + 1 && old(clock) <= clock
    {
      Start();
      ghost var was, before := handlers, finished;
      ghost var gone := ReapFinished();
      KeptAreLate(was, gone, before, finished);
    }

    /** Waiting for a connection. */
    method Idle()
      requires Valid() && Swept()
      modifies this`finished, this`clock, this`doneAt
      ensures Valid() && Swept() && old(clock) <= clock
    {
      ghost var before, noted := finished, clock;
      Tick();
      forall i | 0 <= i < |handlers| && started > 0 && handlers[i].done.Some? && handlers[i].done.value in finished
        ensures startedAt[started - 1] <= doneAt[handlers[i].done.value]
      {
        if handlers[i].done.value !in before { assert noted <= doneAt[handlers[i].done.value]; }
      }
    }

    /** The accept loop over any sequence of accepted connections and timeouts. A long session
        does not accumulate a slot for every connection there ever was. */
    method AcceptLoop(accepts: seq<bool>)
      requires Valid() && Swept()
      modifies this
      ensures Valid() && Swept() && old(clock) <= clock && started == old(started) + Accepted(accepts)
    {
      for i := 0 to |accepts|
        invariant Valid() && Swept() && old(clock) <= clock && started == old(started) + Accepted(accepts[..i])
      {
        AcceptedNext(accepts, i);
        Idle();
        if accepts[i] {
          Accept();
        }
      }
      assert accepts[..|accepts|] == accepts;
    }

    /** The accept loop, then the shutdown from the time `stopped` on: nothing a thread uses
        is torn down while the thread may run, and threads that all finish within the grace
        period are all joined. */
    method RunServer(accepts: seq<bool>, grace: nat) returns (ending: Ending, ghost stopped: nat, ghost late: set<nat>)
      requires Valid() && Swept()
      modifies this
      ensures started == old(started) + Accepted(accepts) && Dated() && late <= finished
      ensures old(clock) <= stopped && forall k | 0 <= k < started :: startedAt[k] <= stopped
      ensures forall k | k in finished && doneAt[k] < stopped + grace :: k in late
      ensures ending == ReturnZero ==> handlers == [] && AllJoined(joined, finished, started)
      ensures ending == ExitNow ==> stopped + grace <= clock && OneStillRunning(handlers, started, late)
      ensures (forall k: nat | k < started :: k in finished && doneAt[k] < stopped + grace) ==> ending == ReturnZero
    {
      AcceptLoop(accepts);
      stopped := clock;
      ending, late := Shutdown(grace);
    }
  }

  /** When every handle is joined, every thread has finished. */
  lemma AllFinished(hs: seq<Handler>, joined: seq<nat>, finished: set<nat>, started: nat)
    requires Accounts(hs, joined, finished, started) && NoneJoinable(hs)
    ensures forall k: nat | k < started :: k in finished
  {
    NoneLeft(hs, joined, finished, started);
    forall k: nat | k < started
      ensures k in finished
    {
      TimesOfMember(joined, k);
    }
  }

  /** What the compaction keeps was not finished when it began. */
  lemma {:induction false} KeptAreLate(was: seq<Handler>, gone: seq<bool>, before: set<nat>, finished: set<nat>)
    requires |gone| == |was| && Marked(was, gone, before, finished)
    ensures forall i | 0 <= i < |Kept(was, gone)| ::
              Kept(was, gone)[i].done.Some? && Kept(was, gone)[i].done.value !in before
    decreases |was|
  {
    if was != [] { KeptAreLate(was[..|was| - 1], gone[..|was| - 1], before, finished); }
  }

  lemma AcceptedNext(accepts: seq<bool>, i: nat)
    requires i < |accepts|
    ensures Accepted(accepts[..i + 1]) == Accepted(accepts[..i]) + if accepts[i] then 1 else 0
  {
    assert accepts[..i + 1][..i] == accepts[..i];
  }

  function Accepted(accepts: seq<bool>): nat
    decreases |accepts|
  {
    if accepts == [] then 0 else
      var n := |accepts| - 1;
      Accepted(accepts[..n]) + if accepts[n] then 1 else 0
  }

  lemma FoundFirst(was: seq<Handler>, first: nat, found: bool, gone: seq<bool>)
    requires first <= |was| && (found <==> first < |was|)
    requires gone == Misses(first) + if found then [true] else []
    ensures var next := if found then first + 1 else first;
            && |gone| == next
            && Kept(was[..next], gone) == was[..first]
            && Reaped(was[..next], gone) == if found && was[first].thread.Some? then [was[first].thread.value] else []
  {
    NoneGone(was[..first], Misses(first));
    if found {
      KeptStep(was[..first], Misses(first), was[first], true);
      assert was[..first + 1] == was[..first] + [was[first]];
    } else {
      assert gone == Misses(first);
    }
  }

  lemma AccountsStarted(hs: seq<Handler>, joined: seq<nat>, finished: set<nat>, started: nat)
    requires Accounts(hs, joined, finished, started) && AllRunning(hs, started)
    ensures var hs' := hs + [Handler(Some(started), Some(started))];
            Accounts(hs', joined, finished, started + 1) && AllRunning(hs', started + 1)
  {
    var h := Handler(Some(started), Some(started));
    forall k: nat
      ensures Slots(hs + [h], k) + Times(joined, k) == if k < started + 1 then 1 else 0
    {
      PushedSlot(hs, h, k);
    }
  }

  lemma AccountsReaped(was: seq<Handler>, gone: seq<bool>, joined: seq<nat>, before: set<nat>, finished: set<nat>,
                       started: nat)
    requires Accounts(was, joined, before, started) && AllRunning(was, started)
    requires |gone| == |was| && Marked(was, gone, before, finished) && forall k | k in finished :: k < started
    ensures Accounts(Kept(was, gone), joined + Reaped(was, gone), finished, started)
    ensures AllRunning(Kept(was, gone), started)
  {
    KeptRunning(was, gone, started);
    forall k: nat
      ensures Slots(Kept(was, gone), k) + Times(joined + Reaped(was, gone), k) == if k < started then 1 else 0
    {
      KeptOrReaped(was, gone, k);
      TimesConcat(joined, Reaped(was, gone), k);
    }
    ReapedAreMarked(was, gone);
  }

  lemma WholeKept(was: seq<Handler>, gone: seq<bool>, finish: nat, hs: seq<Handler>)
    requires |gone| == |was| == |hs| && finish <= |hs| && hs[..finish] == Kept(was[..|was|], gone)
    ensures was[..|was|] == was && hs[..finish] == Kept(was, gone)
  {
    assert was[..|was|] == was;
  }

  lemma AccountsJoined(hs: seq<Handler>, i: nat, joined: seq<nat>, finished: set<nat>, started: nat)
    requires Accounts(hs, joined, finished, started)
    requires i < |hs| && hs[i].thread.Some? && hs[i].thread.value in finished
    ensures Accounts(hs[i := hs[i].(thread := None)], joined + [hs[i].thread.value], finished, started)
  {
    var x := hs[i].thread.value;
    forall k: nat
      ensures Slots(hs[i := hs[i].(thread := None)], k) + Times(joined + [x], k) == if k < started then 1 else 0
    {
      SlotEmptied(hs, i, k);
      TimesConcat(joined, [x], k);
      OneTime(x, k);
    }
  }

  lemma {:induction false} ReapedAreMarked(hs: seq<Handler>, gone: seq<bool>)
    requires |gone| == |hs|
    ensures forall k | k in Reaped(hs, gone) :: exists i | 0 <= i < |hs| :: gone[i] && hs[i].thread == Some(k)
    decreases |hs|
  {
    if hs != [] {
      var n := |hs| - 1;
      ReapedAreMarked(hs[..n], gone[..n]);
      forall k | k in Reaped(hs, gone)
        ensures exists i | 0 <= i < |hs| :: gone[i] && hs[i].thread == Some(k)
      {
        if k in Reaped(hs[..n], gone[..n]) {
          var i :| 0 <= i < n && gone[..n][i] && hs[..n][i].thread == Some(k);
          assert gone[i] && hs[i].thread == Some(k);
        } else {
          assert gone[n] && hs[n].thread == Some(k);
        }
      }
    }
  }
}
