/**
 With allocateIP run under its caller's lock, the handlers never block one another for good: the work
 they do is bounded on every schedule, and on every fair one they all finish. All of it holds whether
 or not the lock keeps new readers out while a writer waits, as Go's does.
 */
module SmfLiveness {
  import opened SmfHandlers
  import opened SmfInvariants
  import opened SmfTheorems

  /** The thread is at a lock it cannot have now. */
  predicate Waits(sh: Shared, th: Thread) {
    match th.pc
    case CreateLock => !LockFree(sh)
    case AllocateLock => !LockFree(sh)
    case DeleteLock(_) => !LockFree(sh)
    case DeleteReadLock => sh.writer.Some?
    case _ => false
  }

  /** How many more times a handler can move at most. */
  function Rank(th: Thread): nat {
    match th.pc
    case CreateEntry => 11
    case CreateLock => 10
    case CreateLookup => 9
    case AllocateLock => 8
    case AllocateRead => 7
    case AllocateBump(_) => 6
    case CreateStore(_) => 5
    case CreateUnlock(_) => 4
    case CreateRespond(_) => 3
    case CreateActivate(_) => 2
    case CreateTouch(_) => 1
    case DeleteEntry => 8
    case DeleteReadLock => 7
    case DeleteRead => 6
    case DeleteReadUnlock(_) => 5
    case DeleteRespond(_) => 4
    case DeleteLock(_) => 3
    case DeleteRemove(_) => 2
    case DeleteUnlock(_) => 1
    case Done(_, _) => 0
  }

  function RankSum(threads: seq<Thread>): nat {
    if threads == [] then 0 else RankSum(threads[..|threads| - 1]) + Rank(threads[|threads| - 1])
  }

  lemma {:induction false} RankSumUpdate(threads: seq<Thread>, t: nat, th: Thread)
    requires t < |threads|
    ensures RankSum(threads[t := th]) == RankSum(threads) - Rank(threads[t]) + Rank(th)
  {
    var n := |threads| - 1;
    if t == n {
      assert threads[t := th][..n] == threads[..n];
    } else {
      assert threads[t := th][..n] == threads[..n][t := th];
      RankSumUpdate(threads[..n], t, th);
    }
  }

  lemma {:induction false} RankSumBound(threads: seq<Thread>)
    ensures RankSum(threads) <= 11 * |threads|
    ensures RankSum(threads) == 0 <==> forall t :: 0 <= t < |threads| ==> threads[t].pc.Done?
  {
    if threads == [] {
    } else {
      var n := |threads| - 1;
      RankSumBound(threads[..n]);
      assert forall t :: 0 <= t < n ==> threads[..n][t] == threads[t];
    }
  }

  /** A step changes nothing or takes its thread forward. */
  lemma StepMoves(sh: Shared, th: Thread, t: nat, c: Choice)
    requires MapValid(sh) && PointerValid(sh, th) && Control(th)
    ensures if th.pc.Done? || Waits(sh, th) then Step(sh, th, t, c) == (sh, th)
            else Rank(Step(sh, th, t, c).1) < Rank(th)
  {
  }

  // Go's lock keeps new readers out once a writer has announced itself.

  predicate AtLock(pc: PC) {
    pc.CreateLock? || pc.AllocateLock? || pc.DeleteLock?
  }

  /** A reader is about to enter and some thread is at a call of Lock, announced or not. */
  predicate MayBeKeptOut(s: State, t: nat) {
    t < |s.threads| && s.threads[t].pc.DeleteReadLock? && exists u :: 0 <= u < |s.threads| && AtLock(s.threads[u].pc)
  }

  /** A choice, and whether a reader that may be kept out is kept out. */
  datatype Turn = Turn(choice: Choice, keepOut: bool)

  function Take(s: State, turn: Turn): (s': State)
    requires PointersValid(s)
    ensures PointersValid(s') && |s'.threads| == |s.threads|
  {
    if turn.keepOut && MayBeKeptOut(s, turn.choice.thread) then s else Next(s, turn.choice)
  }

  function TakeAll(s: State, turns: seq<Turn>): (s': State)
    requires PointersValid(s)
    ensures PointersValid(s') && |s'.threads| == |s.threads|
  {
    if turns == [] then s else Take(TakeAll(s, turns[..|turns| - 1]), turns[|turns| - 1])
  }

  lemma {:induction false} TakeAllAppend(s: State, first: seq<Turn>, second: seq<Turn>)
    requires PointersValid(s)
    ensures TakeAll(s, first + second) == TakeAll(TakeAll(s, first), second)
  {
    hide Take;
    if second == [] {
      assert first + second == first;
    } else {
      var n := |second| - 1;
      TakeAllAppend(s, first, second[..n]);
      assert (first + second)[..|first + second| - 1] == first + second[..n];
    }
  }

  /** Keeping readers out only removes steps: what such a run reaches, a schedule reaches. */
  lemma {:induction false} TurnsAreARun(s: State, turns: seq<Turn>) returns (schedule: seq<Choice>)
    requires PointersValid(s)
    ensures Run(s, schedule) == TakeAll(s, turns)
  {
    hide Next;
    if turns == [] {
      schedule := [];
    } else {
      var n := |turns| - 1;
      var front := TurnsAreARun(s, turns[..n]);
      if turns[n].keepOut && MayBeKeptOut(TakeAll(s, turns[..n]), turns[n].choice.thread) {
        schedule := front;
      } else {
        schedule := front + [turns[n].choice];
        assert schedule[..|schedule| - 1] == front;
      }
    }
  }

  lemma TakeAllKeepsInvariant(s: State, turns: seq<Turn>)
    requires PointersValid(s) && Invariant(s)
    ensures Invariant(TakeAll(s, turns)) && TakeAll(s, turns).shared.reading == s.shared.reading
  {
    hide Run, Next, Take, Invariant;
    var schedule := TurnsAreARun(s, turns);
    RunKeepsInvariant(s, schedule);
    RunExtends(s, schedule);
  }

  // Somebody can always move.

  predicate CanMove(s: State, t: nat) {
    t < |s.threads| && !s.threads[t].pc.Done? && !Waits(s.shared, s.threads[t])
  }

  lemma NextMovesOrNot(s: State, c: Choice)
    requires PointersValid(s) && Invariant(s)
    ensures CanMove(s, c.thread) ==> RankSum(Next(s, c).threads) < RankSum(s.threads)
    ensures !CanMove(s, c.thread) ==> Next(s, c) == s
  {
    if c.thread < |s.threads| {
      var t := c.thread;
      assert Good(s.shared, s.threads[t], t);
      StepMoves(s.shared, s.threads[t], t, c);
      RankSumUpdate(s.threads, t, Step(s.shared, s.threads[t], t, c).1);
      assert s.threads[t := s.threads[t]] == s.threads;
    }
  }

  /** A thread that holds a lock never waits; with no lock held, a writer at the lock goes before readers. */
  lemma SomeoneCanMove(s: State, t: nat) returns (u: nat)
    requires Invariant(s) && s.shared.reading.Meant? && t < |s.threads| && !s.threads[t].pc.Done?
    ensures u < |s.threads| && CanMove(s, u) && !MayBeKeptOut(s, u)
  {
    if s.shared.writer.Some? {
      u := s.shared.writer.value;
      assert Good(s.shared, s.threads[u], u);
    } else if r :| r in s.shared.readers {
      u := r;
      assert Good(s.shared, s.threads[u], u);
    } else if v :| 0 <= v < |s.threads| && AtLock(s.threads[v].pc) {
      u := v;
    } else {
      u := t;
    }
  }

  predicate AllDone(s: State) {
    forall t :: 0 <= t < |s.threads| ==> s.threads[t].pc.Done?
  }

  lemma StuckOnlyWhenAllDone(s: State)
    requires PointersValid(s) && Invariant(s) && s.shared.reading.Meant?
    ensures !AllDone(s) <==> exists c :: Take(s, Turn(c, true)) != s
  {
    hide Next, Invariant;
    if t :| 0 <= t < |s.threads| && !s.threads[t].pc.Done? {
      var u := SomeoneCanMove(s, t);
      var c := Choice(u, 0, true);
      NextMovesOrNot(s, c);
      assert Take(s, Turn(c, true)) != s;
    } else {
      forall c ensures Next(s, c) == s { NextMovesOrNot(s, c); }
    }
  }

  /**
   Deadlock freedom: in every reachable state with an unfinished handler some handler's step changes
   the state, even if every reader that may be kept out is.
   */
  lemma DeadlockFree(s: State, turns: seq<Turn>)
    requires Initial(s) && s.shared.reading.Meant?
    ensures !AllDone(TakeAll(s, turns)) <==> exists c :: Take(TakeAll(s, turns), Turn(c, true)) != TakeAll(s, turns)
  {
    hide TakeAll, Take, Invariant;
    InitialInvariant(s);
    TakeAllKeepsInvariant(s, turns);
    StuckOnlyWhenAllDone(TakeAll(s, turns));
  }

  // How much they can move, and when they have finished.

  /** How many turns change the state; waiting, being kept out or being done does not. */
  function Moves(s: State, turns: seq<Turn>): nat
    requires PointersValid(s)
  {
    if turns == [] then 0
    else
      var s' := TakeAll(s, turns[..|turns| - 1]);
      Moves(s, turns[..|turns| - 1]) + if Take(s', turns[|turns| - 1]) != s' then 1 else 0
  }

  lemma TakeUsesUpRank(s: State, turn: Turn)
    requires PointersValid(s) && Invariant(s)
    ensures Take(s, turn) == s || RankSum(Take(s, turn).threads) < RankSum(s.threads)
    ensures CanMove(s, turn.choice.thread) && !MayBeKeptOut(s, turn.choice.thread) ==> Take(s, turn) != s
  {
    hide Next, Invariant, CanMove, MayBeKeptOut;
    NextMovesOrNot(s, turn.choice);
  }

  lemma {:induction false} MovesUseUpRank(s: State, turns: seq<Turn>)
    requires PointersValid(s) && Invariant(s)
    ensures Moves(s, turns) + RankSum(TakeAll(s, turns).threads) <= RankSum(s.threads)
    ensures Moves(s, turns) == 0 ==> TakeAll(s, turns) == s
  {
    hide Invariant, Take, RankSum;
    if turns == [] {
    } else {
      var n := |turns| - 1;
      MovesUseUpRank(s, turns[..n]);
      TakeAllKeepsInvariant(s, turns[..n]);
      TakeUsesUpRank(TakeAll(s, turns[..n]), turns[n]);
    }
  }

  /** Bounded work: no schedule, however long, makes N handlers move more than 11 N times. */
  lemma BoundedWork(s: State, turns: seq<Turn>)
    requires Initial(s)
    ensures Moves(s, turns) <= 11 * |s.threads|
  {
    hide Moves, TakeAll, RankSum;
    InitialInvariant(s);
    MovesUseUpRank(s, turns);
    RankSumBound(s.threads);
  }

  predicate HasTurn(round: seq<Turn>, t: nat) {
    exists j :: 0 <= j < |round| && round[j].choice.thread == t
  }

  /** Each of the first n threads gets a turn. */
  predicate NamesAll(round: seq<Turn>, n: nat) {
    forall t :: 0 <= t < n ==> HasTurn(round, t)
  }

  function InARow(rounds: seq<seq<Turn>>): seq<Turn> {
    if rounds == [] then [] else InARow(rounds[..|rounds| - 1]) + rounds[|rounds| - 1]
  }

  lemma RoundMoves(s: State, round: seq<Turn>)
    requires PointersValid(s) && Invariant(s) && s.shared.reading.Meant? && !AllDone(s) && NamesAll(round, |s.threads|)
    ensures RankSum(TakeAll(s, round).threads) < RankSum(s.threads)
  {
    hide Invariant, Take, RankSum, Moves, CanMove, MayBeKeptOut;
    var t :| 0 <= t < |s.threads| && !s.threads[t].pc.Done?;
    var u := SomeoneCanMove(s, t);
    assert HasTurn(round, u);
    var j :| 0 <= j < |round| && round[j].choice.thread == u;
    var x, y := TakeAll(s, round[..j]), TakeAll(s, round[..j + 1]);
    assert round[..j + 1][..j] == round[..j] && y == Take(x, round[j]);
    MovesUseUpRank(s, round[..j]);
    TakeAllKeepsInvariant(s, round[..j]);
    TakeUsesUpRank(x, round[j]);
    TakeAllKeepsInvariant(s, round[..j + 1]);
    assert round == round[..j + 1] + round[j + 1..];
    TakeAllAppend(s, round[..j + 1], round[j + 1..]);
    MovesUseUpRank(y, round[j + 1..]);
  }

  lemma {:induction false} RoundsUseUpRank(s: State, rounds: seq<seq<Turn>>)
    requires PointersValid(s) && Invariant(s) && s.shared.reading.Meant?
    requires forall i :: 0 <= i < |rounds| ==> NamesAll(rounds[i], |s.threads|)
    ensures AllDone(TakeAll(s, InARow(rounds))) || RankSum(TakeAll(s, InARow(rounds)).threads) + |rounds| <= RankSum(s.threads)
  {
    hide Invariant, TakeAll, RankSum, Moves, NamesAll;
    if rounds == [] {
      MovesUseUpRank(s, []);
    } else {
      var n := |rounds| - 1;
      var front := InARow(rounds[..n]);
      RoundsUseUpRank(s, rounds[..n]);
      TakeAllAppend(s, front, rounds[n]);
      TakeAllKeepsInvariant(s, front);
      var x := TakeAll(s, front);
      if AllDone(x) {
        RankSumBound(x.threads);
        MovesUseUpRank(x, rounds[n]);
        RankSumBound(TakeAll(x, rounds[n]).threads);
      } else {
        RoundMoves(x, rounds[n]);
      }
    }
  }

  /**
   On a fair schedule all handlers finish: after any beginning, 11 N rounds in each of which every
   one of the N handlers gets a turn are enough, whoever is kept out when.
   */
  lemma FairRunsFinish(s: State, first: seq<Turn>, rounds: seq<seq<Turn>>)
    requires Initial(s) && s.shared.reading.Meant?
    requires |rounds| >= 11 * |s.threads| && forall i :: 0 <= i < |rounds| ==> NamesAll(rounds[i], |s.threads|)
    ensures AllDone(TakeAll(s, first + InARow(rounds)))
  {
    hide Invariant, TakeAll, RankSum, NamesAll, InARow;
    InitialInvariant(s);
    TakeAllKeepsInvariant(s, first);
    var s1 := TakeAll(s, first);
    RoundsUseUpRank(s1, rounds);
    RankSumBound(s1.threads);
    RankSumBound(TakeAll(s1, InARow(rounds)).threads);
    TakeAllAppend(s, first, InARow(rounds));
  }

  /** From every state that keeps the invariant all handlers can still finish. */
  lemma {:induction false} AllCanFinish(s: State) returns (schedule: seq<Choice>)
    requires PointersValid(s) && Invariant(s) && s.shared.reading.Meant?
    ensures AllDone(Run(s, schedule))
    decreases RankSum(s.threads)
  {
    if t :| 0 <= t < |s.threads| && !s.threads[t].pc.Done? {
      var u := SomeoneCanMove(s, t);
      var c := Choice(u, 0, true);
      NextMovesOrNot(s, c);
      NextKeepsInvariant(s, c);
      var rest := AllCanFinish(Next(s, c));
      assert [c][..0] == [] && Run(s, [c]) == Next(Run(s, []), c) == Next(s, c);
      RunAppend(s, [c], rest);
      schedule := [c] + rest;
    } else {
      schedule := [];
    }
  }
}
