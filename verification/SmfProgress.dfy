/**
 What a handler does when nothing else runs, and the two faults of cmd/smf/main.go: the second
 acquisition of a mutex already held, and the deletion of a session that was not looked up.
 */
module SmfProgress {
  import opened Wrappers
  import opened InMemorySmf
  import opened SmfHandlers
  import opened SmfInvariants
  import opened SmfTheorems

  /** n steps of one thread with no other thread in between. */
  function Alone(sh: Shared, th: Thread, t: nat, now: nat, n: nat): (r: (Shared, Thread))
    requires MapValid(sh) && PointerValid(sh, th)
    ensures MapValid(r.0) && PointerValid(r.0, r.1) && |sh.heap| <= |r.0.heap|
    decreases n
  {
    if n == 0 then (sh, th)
    else
      var (sh', th') := Step(sh, th, t, Choice(t, now, true));
      Alone(sh', th', t, now, n - 1)
  }

  lemma {:induction false} AloneAppend(sh: Shared, th: Thread, t: nat, now: nat, m: nat, n: nat)
    requires MapValid(sh) && PointerValid(sh, th)
    ensures var (sh', th') := Alone(sh, th, t, now, m);
            Alone(sh, th, t, now, m + n) == Alone(sh', th', t, now, n)
    decreases m
  {
    hide StepCreate, StepDelete;
    if m == 0 {
    } else {
      var (sh', th') := Step(sh, th, t, Choice(t, now, true));
      AloneAppend(sh', th', t, now, m - 1, n);
    }
  }

  function Repeat(t: nat, now: nat, n: nat): seq<Choice> {
    if n == 0 then [] else [Choice(t, now, true)] + Repeat(t, now, n - 1)
  }

  lemma {:induction false} AloneIsARun(s: State, t: nat, now: nat, n: nat)
    requires PointersValid(s) && t < |s.threads|
    ensures var (sh, th) := Alone(s.shared, s.threads[t], t, now, n);
            Run(s, Repeat(t, now, n)) == State(sh, s.threads[t := th])
    decreases n
  {
    hide Step;
    if n == 0 {
    } else {
      var c := Choice(t, now, true);
      var s1 := Next(s, c);
      assert Run(s, [c]) == s1 by {
        assert [c][..|[c]| - 1] == [];
        assert Run(s, []) == s;
      }
      RunAppend(s, [c], Repeat(t, now, n - 1));
      AloneIsARun(s1, t, now, n - 1);
    }
  }

  ghost predicate CreateReady(sh: Shared, th: Thread) {
    && MapValid(sh) && LockFree(sh) && sh.nextIPIndex == |sh.heap|
    && NotStarted(th) && th.request.CreateRequest? && th.request.imsi.Some?
  }

  lemma CreateAloneEnters(sh: Shared, th: Thread, t: nat, now: nat)
    requires CreateReady(sh, th)
    ensures Alone(sh, th, t, now, 2) == (sh.(writer := Some(t)),
                                         th.(imsi := th.request.imsi.value, calls := [|sh.history|], pc := CreateLookup))
  {
    assert th.calls + [|sh.history|] == [|sh.history|];
  }

  /** Up to the point where createSession is about to return session k. */
  ghost predicate Served(sh: Shared, sh': Shared, th: Thread, th': Thread, k: nat) {
    && th'.pc == CreateUnlock(Some(k)) && th'.request == th.request && th'.imsi == th.imsi
    && MapValid(sh') && k < |sh'.heap| && sh'.sessions == sh.sessions[th.imsi := k]
    && sh' == sh.(sessions := sh'.sessions, heap := sh'.heap, nextIPIndex := sh'.nextIPIndex,
                  history := sh'.history, owners := sh'.owners)
    && sh'.nextIPIndex == |sh'.heap|
    && if th.imsi in sh.sessions then k == sh.sessions[th.imsi] && sh'.heap == sh.heap
       else k == |sh.heap| && |sh'.heap| == k + 1
  }

  lemma CreateAloneFinds(sh: Shared, th: Thread, t: nat, now: nat)
    requires MapValid(sh) && th.request.CreateRequest? && th.pc.CreateLookup? && sh.nextIPIndex == |sh.heap|
    requires th.imsi in sh.sessions
    ensures var (sh', th') := Alone(sh, th, t, now, 1); Served(sh, sh', th, th', sh.sessions[th.imsi])
  {
  }

  lemma CreateAloneAllocates(sh: Shared, th: Thread, t: nat, now: nat)
    requires MapValid(sh) && th.request.CreateRequest? && th.pc.CreateLookup? && sh.nextIPIndex == |sh.heap|
    requires sh.reading.Meant? && th.imsi !in sh.sessions && |sh.heap| < |sh.pool|
    ensures var (sh', th') := Alone(sh, th, t, now, 4); Served(sh, sh', th, th', |sh.heap|)
  {
  }

  lemma CreateAloneSends(sh: Shared, th: Thread, t: nat, now: nat, k: nat)
    requires MapValid(sh) && th.request.CreateRequest? && th.pc == CreateUnlock(Some(k)) && k < |sh.heap|
    ensures var (sh', th') := Alone(sh, th, t, now, 2);
            && th' == th.(pc := CreateActivate(k)) && sh' == sh.(writer := None, log := sh'.log)
            && |sh'.log| == |sh.log| + 1 && sh'.log[..|sh.log|] == sh.log
            && sh'.log[|sh.log|].response.CreateAccepted? && sh'.log[|sh.log|].session == k
            && sh'.log[|sh.log|].request == th.request
  {
  }

  lemma CreateAloneActivates(sh: Shared, th: Thread, t: nat, now: nat, k: nat)
    requires MapValid(sh) && th.request.CreateRequest? && th.pc == CreateActivate(k) && k < |sh.heap|
    ensures var (sh', th') := Alone(sh, th, t, now, 2);
            && th' == th.(pc := Done(Accepted, Some(k)))
            && sh' == sh.(heap := sh.heap[k := sh.heap[k].(state := ACTIVE, lastUpdated := now)])
  {
  }

  /** How many steps of its own a create needs. */
  function CreateSteps(sh: Shared, th: Thread): nat
    requires th.request.imsi.Some?
  {
    if th.request.imsi.value in sh.sessions then 7 else 10
  }

  /** A create for a live IMSI, or with an address left, ends accepted within ten steps of its own. */
  lemma CreateAloneCompletes(sh: Shared, th: Thread, t: nat, now: nat)
    requires CreateReady(sh, th) && sh.reading.Meant?
    requires th.request.imsi.value in sh.sessions || |sh.heap| < |sh.pool|
    ensures var imsi := th.request.imsi.value;
            var (sh', th') := Alone(sh, th, t, now, CreateSteps(sh, th));
            var k := if imsi in sh.sessions then sh.sessions[imsi] else |sh.heap|;
            && th'.pc == Done(Accepted, Some(k)) && th'.request == th.request
            && LockFree(sh') && sh'.reading.Meant? && sh'.pool == sh.pool
            && sh'.sessions == sh.sessions[imsi := k]
            && |sh'.heap| == (if imsi in sh.sessions then |sh.heap| else |sh.heap| + 1) == sh'.nextIPIndex
            && sh'.heap[k].state == ACTIVE
            && |sh'.log| == |sh.log| + 1 && sh'.log[..|sh.log|] == sh.log
            && sh'.log[|sh.log|].response.CreateAccepted? && sh'.log[|sh.log|].session == k
            && sh'.log[|sh.log|].request == th.request
  {
    hide Alone, Step;
    var n := CreateSteps(sh, th);
    CreateAloneEnters(sh, th, t, now);
    var (sh1, th1) := Alone(sh, th, t, now, 2);
    if th1.imsi in sh1.sessions {
      CreateAloneFinds(sh1, th1, t, now);
    } else {
      CreateAloneAllocates(sh1, th1, t, now);
    }
    var (sh2, th2) := Alone(sh1, th1, t, now, n - 6);
    var k := th2.pc.found.value;
    CreateAloneSends(sh2, th2, t, now, k);
    var (sh3, th3) := Alone(sh2, th2, t, now, 2);
    CreateAloneActivates(sh3, th3, t, now, k);
    AloneAppend(sh, th, t, now, 2, n - 2);
    AloneAppend(sh1, th1, t, now, n - 6, 4);
    AloneAppend(sh2, th2, t, now, 2, 2);
  }

  // The mutex that is taken twice.

  ghost predicate Untouched(sh: Shared) {
    sh.sessions == map[] && sh.heap == [] && sh.nextIPIndex == 0 && sh.log == []
  }

  predicate Waiting(pc: PC) {
    pc.CreateEntry? || pc.CreateLock? || pc.DeleteEntry? || pc.DeleteReadLock? || pc == Done(MissingIMSI, None)
  }

  predicate Unserved(pc: PC) {
    || Waiting(pc) || pc.CreateLookup? || pc.AllocateLock?
    || pc.DeleteRead? || pc == DeleteReadUnlock(None) || pc == Done(SessionNotFound, None)
  }

  ghost predicate Fruitless(s: State) {
    Untouched(s.shared) && forall t :: 0 <= t < |s.threads| ==> Unserved(s.threads[t].pc)
  }

  lemma FruitlessStep(sh: Shared, th: Thread, t: nat, c: Choice)
    requires MapValid(sh) && PointerValid(sh, th) && Locks(sh, th, t) && Control(th)
    requires Untouched(sh) && Unserved(th.pc) && sh.reading.AsWritten?
    ensures Untouched(Step(sh, th, t, c).0) && Unserved(Step(sh, th, t, c).1.pc)
  {
  }

  lemma {:induction false} FruitlessRun(s: State, schedule: seq<Choice>)
    requires PointersValid(s) && Invariant(s) && Fruitless(s) && s.shared.reading.AsWritten?
    ensures Fruitless(Run(s, schedule))
  {
    if schedule == [] {
    } else {
      var n := |schedule| - 1;
      var m, c := Run(s, schedule[..n]), schedule[n];
      FruitlessRun(s, schedule[..n]);
      RunKeepsInvariant(s, schedule[..n]);
      RunExtends(s, schedule[..n]);
      if c.thread < |m.threads| {
        assert Good(m.shared, m.threads[c.thread], c.thread);
        FruitlessStep(m.shared, m.threads[c.thread], c.thread, c);
      }
    }
  }

  /** With the calls as written, nothing is ever allocated, recorded or answered, on any schedule. */
  lemma AsWrittenServesNobody(s: State, schedule: seq<Choice>)
    requires Initial(s) && s.shared.reading.AsWritten?
    ensures var s' := Run(s, schedule);
            && s'.shared.sessions == map[] && s'.shared.nextIPIndex == 0 && s'.shared.log == []
            && forall t :: 0 <= t < |s'.threads| && s'.threads[t].pc.Done? ==>
                 s'.threads[t].pc.outcome in {MissingIMSI, SessionNotFound}
  {
    InitialInvariant(s);
    FruitlessRun(s, schedule);
  }

  lemma WaitingStep(sh: Shared, th: Thread, t: nat, c: Choice)
    requires MapValid(sh) && PointerValid(sh, th) && Locks(sh, th, t) && Control(th) && sh.writer.Some?
    ensures Waiting(th.pc) ==> Waiting(Step(sh, th, t, c).1.pc)
    ensures th.pc.AllocateLock? ==> Step(sh, th, t, c).1 == th
  {
  }

  lemma BlockedStep(s: State, c: Choice, t: nat)
    requires PointersValid(s) && Invariant(s) && t < |s.threads| && s.threads[t].pc.AllocateLock?
    ensures var s' := Next(s, c);
            && s'.threads[t] == s.threads[t]
            && forall u :: 0 <= u < |s.threads| && Waiting(s.threads[u].pc) ==> Waiting(s'.threads[u].pc)
  {
    hide StepCreate, StepDelete, World, Owned, Critical, Spans, Replied, Announcing;
    if c.thread < |s.threads| {
      assert Good(s.shared, s.threads[t], t);
      assert Good(s.shared, s.threads[c.thread], c.thread);
      WaitingStep(s.shared, s.threads[c.thread], c.thread, c);
    }
  }

  /** A create that got as far as allocateIP stays there, holding the lock everyone else waits for. */
  lemma {:induction false} BlockedForGood(s: State, schedule: seq<Choice>, t: nat)
    requires PointersValid(s) && Invariant(s) && t < |s.threads| && s.threads[t].pc.AllocateLock?
    ensures var s' := Run(s, schedule);
            && s'.threads[t] == s.threads[t] && s'.shared.writer == Some(t)
            && forall u :: 0 <= u < |s.threads| && Waiting(s.threads[u].pc) ==> Waiting(s'.threads[u].pc)
  {
    hide StepCreate, StepDelete, Next;
    if schedule == [] {
    } else {
      var n := |schedule| - 1;
      BlockedForGood(s, schedule[..n], t);
      RunKeepsInvariant(s, schedule[..n]);
      BlockedStep(Run(s, schedule[..n]), schedule[n], t);
    }
    RunKeepsInvariant(s, schedule);
    assert Good(Run(s, schedule).shared, Run(s, schedule).threads[t], t);
  }

  /** With the lock free and nothing else running, every create for an IMSI not on record gets there in three steps. */
  lemma CreateAloneBlocks(sh: Shared, th: Thread, t: nat, now: nat)
    requires CreateReady(sh, th) && sh.reading.AsWritten? && th.request.imsi.value !in sh.sessions
    ensures Alone(sh, th, t, now, 3).1.pc.AllocateLock?
  {
  }

  // The delete that hits a later session.

  ghost predicate DeleteReady(sh: Shared, th: Thread) {
    && MapValid(sh) && LockFree(sh) && NotStarted(th) && th.request.DeleteRequest?
    && th.request.imsi.Some? && th.request.imsi.value in sh.sessions
  }

  lemma DeleteAloneFinds(sh: Shared, th: Thread, t: nat, now: nat)
    requires DeleteReady(sh, th)
    ensures var (sh', th') := Alone(sh, th, t, now, 3);
            && th'.pc == DeleteReadUnlock(Some(sh.sessions[th.request.imsi.value]))
            && th'.imsi == th.request.imsi.value && th'.request == th.request
            && sh' == sh.(readers := {t}, history := sh'.history, owners := sh'.owners)
  {
  }

  lemma DeleteAloneSends(sh: Shared, th: Thread, t: nat, now: nat, k: nat)
    requires MapValid(sh) && th.request.DeleteRequest? && th.pc == DeleteReadUnlock(Some(k)) && k < |sh.heap|
    requires sh.writer.None? && sh.readers == {t}
    ensures var (sh', th') := Alone(sh, th, t, now, 2);
            && th'.pc == DeleteLock(k) && th'.imsi == th.imsi && th'.request == th.request
            && sh' == sh.(readers := {}, log := sh'.log)
            && |sh'.log| == |sh.log| + 1 && sh'.log[..|sh.log|] == sh.log
            && sh'.log[|sh.log|].response.DeleteAccepted? && sh'.log[|sh.log|].session == k
  {
  }

  /** Five steps take a delete past its lookup and its answer, up to its deletion. */
  lemma DeleteAloneAnswers(sh: Shared, th: Thread, t: nat, now: nat)
    requires DeleteReady(sh, th)
    ensures var (sh', th') := Alone(sh, th, t, now, 5);
            && th'.pc == DeleteLock(sh.sessions[th.request.imsi.value]) && th'.imsi == th.request.imsi.value
            && th'.request == th.request && LockFree(sh')
            && sh' == sh.(log := sh'.log, history := sh'.history, owners := sh'.owners)
            && |sh'.log| == |sh.log| + 1 && sh'.log[..|sh.log|] == sh.log
            && sh'.log[|sh.log|].response.DeleteAccepted?
            && sh'.log[|sh.log|].session == sh.sessions[th.request.imsi.value]
  {
    hide Alone, Step;
    DeleteAloneFinds(sh, th, t, now);
    var (sh3, th3) := Alone(sh, th, t, now, 3);
    DeleteAloneSends(sh3, th3, t, now, th3.pc.found.value);
    AloneAppend(sh, th, t, now, 3, 2);
  }

  lemma DeleteAloneRemoves(sh: Shared, th: Thread, t: nat, now: nat)
    requires MapValid(sh) && LockFree(sh) && th.request.DeleteRequest? && th.pc.DeleteLock? && PointerValid(sh, th)
    ensures var (sh', th') := Alone(sh, th, t, now, 3);
            && th'.pc == Done(Accepted, Some(th.pc.session)) && LockFree(sh')
            && sh' == sh.(sessions := sh.sessions - {th.imsi}, history := sh'.history, owners := sh'.owners)
  {
  }

  lemma SixPhases(s: State, a: seq<Choice>, b: seq<Choice>, c: seq<Choice>, d: seq<Choice>, e: seq<Choice>, f: seq<Choice>)
    requires PointersValid(s)
    ensures Run(s, a + b + c + d + e + f) == Run(Run(Run(Run(Run(Run(s, a), b), c), d), e), f)
  {
    hide Next, PointersValid;
    RunAppend(s, a, b);
    RunAppend(s, a + b, c);
    RunAppend(s, a + b + c, d);
    RunAppend(s, a + b + c + d, e);
    RunAppend(s, a + b + c + d + e, f);
  }

  const ATTACH := CreateRequest(Some("001010123456789"), 7, 1, "peer")
  const DETACH := DeleteRequest(Some("001010123456789"), 7, 2)

  /** Two attach and two detach requests for one subscriber, and a pool of two addresses. */
  function TwoAndTwo(): State {
    var create, delete := Thread(ATTACH, "", CreateEntry, [], []), Thread(DETACH, "", DeleteEntry, [], []);
    State(Shared(Meant, [[1], [2]], map[], [], 0, None, {}, [], [], []), [create, delete, delete, create])
  }

  lemma FirstSessionAnsweredTwice() returns (s1: State, s2: State, s3: State)
    ensures PointersValid(TwoAndTwo())
    ensures s1 == Run(TwoAndTwo(), Repeat(0, 0, 10)) && s2 == Run(s1, Repeat(1, 0, 5)) && s3 == Run(s2, Repeat(2, 0, 5))
    ensures |s3.threads| == 4 && s3.threads[0].pc == Done(Accepted, Some(0)) && s3.threads[3] == TwoAndTwo().threads[3]
    ensures forall t :: t == 1 || t == 2 ==>
              s3.threads[t].pc == DeleteLock(0) && s3.threads[t].imsi == DETACH.imsi.value && s3.threads[t].request == DETACH
    ensures LockFree(s3.shared) && s3.shared.reading.Meant? && |s3.shared.pool| == 2
    ensures s3.shared.sessions == map[DETACH.imsi.value := 0] && |s3.shared.heap| == 1 == s3.shared.nextIPIndex
    ensures |s3.shared.log| == 3 && s3.shared.log[0].response.CreateAccepted? && s3.shared.log[0].session == 0
    ensures forall i :: 1 <= i < 3 ==> s3.shared.log[i].response.DeleteAccepted? && s3.shared.log[i].session == 0
  {
    hide Alone, Step, Run;
    var s := TwoAndTwo();
    CreateAloneCompletes(s.shared, s.threads[0], 0, 0);
    AloneIsARun(s, 0, 0, 10);
    s1 := Run(s, Repeat(0, 0, 10));
    DeleteAloneAnswers(s1.shared, s1.threads[1], 1, 0);
    AloneIsARun(s1, 1, 0, 5);
    s2 := Run(s1, Repeat(1, 0, 5));
    DeleteAloneAnswers(s2.shared, s2.threads[2], 2, 0);
    AloneIsARun(s2, 2, 0, 5);
    s3 := Run(s2, Repeat(2, 0, 5));
  }

  /**
   A run in which a subscriber attaches twice and two deletes were answered for the first session:
   the second delete takes the second session off record, though no request to delete it came.
   */
  lemma DeleteCanHitALaterSession() returns (s: State, schedule: seq<Choice>)
    ensures Initial(s) && s.shared.reading.Meant?
    ensures var s' := Run(s, schedule);
            && |s'.threads| == 4 && s'.shared.sessions == map[]
            && s'.threads[0].pc == Done(Accepted, Some(0)) && s'.threads[3].pc == Done(Accepted, Some(1))
            && s'.threads[1].pc == Done(Accepted, Some(0)) && s'.threads[2].pc == Done(Accepted, Some(0))
            && |s'.shared.log| == 4 && s'.shared.log[3].response.CreateAccepted? && s'.shared.log[3].session == 1
            && forall i :: 1 <= i < 3 ==> s'.shared.log[i].response.DeleteAccepted? && s'.shared.log[i].session == 0
  {
    hide Alone, Step, Run;
    s := TwoAndTwo();
    var s1, s2, s3 := FirstSessionAnsweredTwice();
    DeleteAloneRemoves(s3.shared, s3.threads[1], 1, 0);
    AloneIsARun(s3, 1, 0, 3);
    var s4 := Run(s3, Repeat(1, 0, 3));
    CreateAloneCompletes(s4.shared, s4.threads[3], 3, 0);
    AloneIsARun(s4, 3, 0, 10);
    var s5 := Run(s4, Repeat(3, 0, 10));
    DeleteAloneRemoves(s5.shared, s5.threads[2], 2, 0);
    AloneIsARun(s5, 2, 0, 3);
    schedule := Repeat(0, 0, 10) + Repeat(1, 0, 5) + Repeat(2, 0, 5) + Repeat(1, 0, 3) + Repeat(3, 0, 10) + Repeat(2, 0, 3);
    SixPhases(s, Repeat(0, 0, 10), Repeat(1, 0, 5), Repeat(2, 0, 5), Repeat(1, 0, 3), Repeat(3, 0, 10), Repeat(2, 0, 3));
  }
}
