/** What the handlers of cmd/smf/main.go promise over every schedule of any number of requests. */
module SmfTheorems {
  import opened SmfSpec
  import opened InMemorySmf
  import opened SmfHandlers
  import opened SmfInvariants

  lemma ExtendsFurther(sh: Shared, sh1: Shared, sh2: Shared)
    requires Extends(sh, sh1) && Extends(sh1, sh2)
    ensures Extends(sh, sh2)
  {
    forall k | 0 <= k < |sh.heap| ensures SameSession(sh.heap[k], sh2.heap[k]) {
      assert SameSession(sh.heap[k], sh1.heap[k]) && SameSession(sh1.heap[k], sh2.heap[k]);
    }
  }

  lemma NextExtends(s: State, c: Choice)
    requires PointersValid(s) && Invariant(s)
    ensures Extends(s.shared, Next(s, c).shared)
  {
    NextKeepsInvariant(s, c);
    hide Invariant;
  }

  lemma {:induction false} RunExtends(s: State, schedule: seq<Choice>)
    requires PointersValid(s) && Invariant(s)
    ensures Extends(s.shared, Run(s, schedule).shared)
  {
    hide Invariant, Next;
    if schedule == [] {
    } else {
      var n := |schedule| - 1;
      RunExtends(s, schedule[..n]);
      RunKeepsInvariant(s, schedule[..n]);
      NextExtends(Run(s, schedule[..n]), schedule[n]);
      ExtendsFurther(s.shared, Run(s, schedule[..n]).shared, Run(s, schedule).shared);
    }
  }

  lemma Reached(s: State, schedule: seq<Choice>)
    requires Initial(s)
    ensures PointersValid(s) && Invariant(Run(s, schedule)) && Run(s, schedule).shared.pool == s.shared.pool
    ensures Run(s, schedule).shared.reading == s.shared.reading
  {
    InitialInvariant(s);
    RunKeepsInvariant(s, schedule);
    RunExtends(s, schedule);
  }

  /** A thread inside the write lock is alone in it, and no thread is inside the read lock. */
  lemma LockExclusion(s: State, schedule: seq<Choice>, t: nat, u: nat)
    requires Initial(s) && t < |s.threads| && u < |s.threads| && t != u
    requires HoldsWrite(Run(s, schedule).threads[t].pc)
    ensures !HoldsWrite(Run(s, schedule).threads[u].pc) && !HoldsRead(Run(s, schedule).threads[u].pc)
  {
    Reached(s, schedule);
    var s' := Run(s, schedule);
    assert Good(s'.shared, s'.threads[t], t) && Good(s'.shared, s'.threads[u], u);
  }

  // Safety of the addresses.

  /** Two accepted creates carry the same address exactly when they describe the same session. */
  lemma OneAddressOneSubscriber(s: State, schedule: seq<Choice>, i: nat, j: nat)
    requires Initial(s)
    requires i < |Run(s, schedule).shared.log| && Run(s, schedule).shared.log[i].response.CreateAccepted?
    requires j < |Run(s, schedule).shared.log| && Run(s, schedule).shared.log[j].response.CreateAccepted?
    ensures var a, b := Run(s, schedule).shared.log[i], Run(s, schedule).shared.log[j];
            && (a.response.ueIP == b.response.ueIP <==> a.session == b.session)
            && (a.response.ueIP == b.response.ueIP ==>
                  a.response.imsi == b.response.imsi && a.response.fTEID == b.response.fTEID)
  {
    Reached(s, schedule);
    var sh := Run(s, schedule).shared;
    assert Faithful(sh, sh.log[i]) && Faithful(sh, sh.log[j]);
  }

  /** Every response sent repeats its request and describes one session, with the TEID that session was built with. */
  lemma ResponsesAreFaithful(s: State, schedule: seq<Choice>, i: nat)
    requires Initial(s) && i < |Run(s, schedule).shared.log|
    ensures Faithful(Run(s, schedule).shared, Run(s, schedule).shared.log[i])
  {
    Reached(s, schedule);
  }

  ghost predicate BetweenTakingAndStoring(s: State) {
    exists t :: 0 <= t < |s.threads| && s.threads[t].pc.CreateStore?
  }

  /** Whoever holds the lock, the cursor is ahead of the sessions built only while one is being stored. */
  lemma CursorLaw(s: State)
    requires Invariant(s)
    ensures s.shared.nextIPIndex == |s.shared.heap| + if BetweenTakingAndStoring(s) then 1 else 0
  {
    if BetweenTakingAndStoring(s) {
      var t :| 0 <= t < |s.threads| && s.threads[t].pc.CreateStore?;
      assert Good(s.shared, s.threads[t], t);
    } else if s.shared.writer.Some? {
      assert Good(s.shared, s.threads[s.shared.writer.value], s.shared.writer.value);
    }
  }

  /**
   Issued addresses are the pool's prefix, one session ever built for each; the rest is untouched.
   The cursor counts the sessions ever built, and the address in hand while one is being stored.
   */
  lemma AddressConservation(s: State, schedule: seq<Choice>)
    requires Initial(s)
    ensures var s' := Run(s, schedule);
            var sh := s'.shared;
            && |sh.heap| <= |sh.pool| && sh.pool == s.shared.pool
            && sh.nextIPIndex == |sh.heap| + (if BetweenTakingAndStoring(s') then 1 else 0)
            && |sh.heap| == |Issued(sh.history)|
            && (forall k :: 0 <= k < |sh.heap| ==> sh.heap[k].identity.address == sh.pool[k])
            && (forall j, k :: 0 <= j < k < |sh.heap| ==> sh.heap[j].identity.address != sh.heap[k].identity.address)
            && (forall imsi :: imsi in sh.sessions ==>
                  sh.sessions[imsi] < |sh.heap| && sh.heap[sh.sessions[imsi]].identity.imsi == imsi)
  {
    Reached(s, schedule);
    var s' := Run(s, schedule);
    CursorLaw(s');
    Conservation(StartTable(s'.shared), s'.shared.history);
    assert |After(StartTable(s'.shared), s'.shared.history).unused| == |s'.shared.pool| - |s'.shared.heap|;
  }

  // Linearizability.

  /** How many of its manager calls a thread has returned from. */
  function CallsReturned(th: Thread): nat {
    match th.pc
    case CreateRespond(_) => 1
    case CreateActivate(_) => 1
    case CreateTouch(_) => 1
    case DeleteRespond(_) => 1
    case DeleteLock(_) => 1
    case DeleteRemove(_) => 1
    case DeleteUnlock(_) => 1
    case Done(outcome, _) =>
      if outcome.MissingIMSI? then 0
      else if outcome.Accepted? && th.request.DeleteRequest? then 2
      else 1
    case _ => 0
  }

  /** What a finished handler reports goes with what its calls returned. */
  predicate ReportsWhatItGot(th: Thread) {
    th.pc.Done? ==>
      match th.pc.outcome
      case MissingIMSI => th.calls == [] && th.request.imsi.None?
      case NoIPsAvailable => th.request.CreateRequest? && th.pc.found.None?
      case SessionNotFound => th.request.DeleteRequest? && th.pc.found.None?
      case _ => th.pc.found.Some?
  }

  lemma ReturnedCallsHaveTheirPoint(sh: Shared, th: Thread, t: nat)
    requires Good(sh, th, t)
    ensures CallsReturned(th) <= |th.points| <= |th.calls| && ReportsWhatItGot(th)
    ensures Spans(sh, th, t) && Replied(sh, th)
  {
  }

  /**
   The effects of all manager calls, in one order, form a legal history of the atomic table that
   ends in the present state. Every event belongs to one call. A call that has returned has its
   event in the history, and so may one still under way; the event was recorded after the call
   began and before it returned, and the call returns what the event says.
   */
  lemma Linearizable(s: State, schedule: seq<Choice>)
    requires Initial(s)
    ensures var s' := Run(s, schedule);
            var start := Table(map[], s.shared.pool);
            && |s'.shared.heap| <= |s'.shared.pool|
            && Legal(start, s'.shared.history) && After(start, s'.shared.history) == Abstract(s'.shared)
            && |s'.shared.owners| == |s'.shared.history| && Owned(s')
            && forall t :: 0 <= t < |s'.threads| ==>
                 && CallsReturned(s'.threads[t]) <= |s'.threads[t].points| <= |s'.threads[t].calls|
                 && Spans(s'.shared, s'.threads[t], t)
                 && Replied(s'.shared, s'.threads[t]) && ReportsWhatItGot(s'.threads[t])
  {
    hide Run, CallsReturned, ReportsWhatItGot, Good, Spans, Replied;
    Reached(s, schedule);
    var s' := Run(s, schedule);
    forall t | 0 <= t < |s'.threads|
      ensures CallsReturned(s'.threads[t]) <= |s'.threads[t].points| <= |s'.threads[t].calls|
      ensures Spans(s'.shared, s'.threads[t], t)
      ensures Replied(s'.shared, s'.threads[t]) && ReportsWhatItGot(s'.threads[t])
    {
      ReturnedCallsHaveTheirPoint(s'.shared, s'.threads[t], t);
    }
  }

  lemma NextMoves(s: State, c: Choice, t: nat)
    requires PointersValid(s) && Invariant(s) && t < |s.threads|
    ensures var th, th' := s.threads[t], Next(s, c).threads[t];
            && th.points <= th'.points && th'.request == th.request
            && (th'.calls == th.calls || th'.calls == th.calls + [|s.shared.history|])
  {
    hide StepCreate, StepDelete;
    if c.thread == t {
      assert Good(s.shared, s.threads[t], t);
      if s.threads[t].request.CreateRequest? {
        CreateShape(s.shared, s.threads[t], t, c);
      } else {
        DeleteShape(s.shared, s.threads[t], t, c);
      }
    }
  }

  lemma {:induction false} RunMoves(s: State, schedule: seq<Choice>, t: nat)
    requires PointersValid(s) && Invariant(s) && t < |s.threads|
    ensures var s' := Run(s, schedule);
            && s.threads[t].points <= s'.threads[t].points && s.threads[t].calls <= s'.threads[t].calls
            && s'.threads[t].request == s.threads[t].request
            && forall k :: |s.threads[t].calls| <= k < |s'.threads[t].calls| ==> s'.threads[t].calls[k] >= |s.shared.history|
  {
    if schedule == [] {
    } else {
      hide Next, Invariant;
      var n := |schedule| - 1;
      var m, c := Run(s, schedule[..n]), schedule[n];
      RunMoves(s, schedule[..n], t);
      RunKeepsInvariant(s, schedule[..n]);
      RunExtends(s, schedule[..n]);
      NextMoves(m, c, t);
    }
  }

  /** A call that took effect before another one began comes before it in the history, for good. */
  lemma RealTimeOrder(s: State, first: seq<Choice>, second: seq<Choice>, a: nat, i: nat, b: nat, k: nat)
    requires Initial(s) && a < |s.threads| && b < |s.threads|
    requires var s1 := Run(s, first); var s2 := Run(s1, second);
             && i < |s1.threads[a].points|
             && |s1.threads[b].calls| <= k < |s2.threads[b].points|
    ensures var s1 := Run(s, first); var s2 := Run(s1, second);
            && s2 == Run(s, first + second)
            && i < |s2.threads[a].points| && s2.threads[a].points[i] == s1.threads[a].points[i]
            && s2.threads[a].points[i] < s2.threads[b].points[k]
  {
    Reached(s, first);
    var s1 := Run(s, first);
    RunKeepsInvariant(s1, second);
    RunMoves(s1, second, a);
    RunMoves(s1, second, b);
    RunAppend(s, first, second);
    assert Good(s1.shared, s1.threads[a], a);
    var s2 := Run(s1, second);
    assert Good(s2.shared, s2.threads[b], b);
  }

  /** In particular a call that returned before another one began, as linearizability asks. */
  lemma ReturnedBeforeBegun(s: State, first: seq<Choice>, second: seq<Choice>, a: nat, i: nat, b: nat, k: nat)
    requires Initial(s) && a < |s.threads| && b < |s.threads|
    requires var s1 := Run(s, first); var s2 := Run(s1, second);
             && i < CallsReturned(s1.threads[a])
             && |s1.threads[b].calls| <= k < CallsReturned(s2.threads[b])
    ensures var s2 := Run(s, first + second);
            && i < |s2.threads[a].points| && k < |s2.threads[b].points|
            && s2.threads[a].points[i] < s2.threads[b].points[k]
  {
    hide Run, Legal, After, Owned, Spans, Replied, ReportsWhatItGot, CallsReturned;
    Linearizable(s, first);
    RunAppend(s, first, second);
    Linearizable(s, first + second);
    RealTimeOrder(s, first, second, a, i, b, k);
  }

  // Life cycle.

  /** Sessions are INITIALIZING or ACTIVE, ACTIVE only after an accepted response, and for good. */
  lemma LifeCycle(s: State, first: seq<Choice>, second: seq<Choice>, k: nat)
    requires Initial(s) && k < |Run(s, first).shared.heap|
    ensures var sh1, sh2 := Run(s, first).shared, Run(Run(s, first), second).shared;
            && k < |sh2.heap| && sh2.heap[k].identity == sh1.heap[k].identity
            && sh1.heap[k].state in {INITIALIZING, ACTIVE}
            && (sh1.heap[k].state == ACTIVE ==> Announced(sh1.log, k) && sh2.heap[k].state == ACTIVE)
  {
    Reached(s, first);
    RunExtends(Run(s, first), second);
  }

  // Histories of whole runs.

  /** Sessions ever built: as many as creates missed the table, up to the size of the pool. */
  lemma ExhaustionOverRuns(s: State, schedule: seq<Choice>)
    requires Initial(s)
    ensures var sh := Run(s, schedule).shared;
            var misses := Misses(Table(map[], s.shared.pool), sh.history);
            |sh.heap| == if misses <= |s.shared.pool| then misses else |s.shared.pool|
  {
    Reached(s, schedule);
    AddressConservation(s, schedule);
    ExhaustionLaw(Table(map[], s.shared.pool), Run(s, schedule).shared.history);
  }

  predicate Created(th: Thread, imsi: Imsi) {
    th.request.CreateRequest? && th.imsi == imsi && |th.points| == 1 && Pointer(th.pc).Some?
  }

  lemma SameIdentity(sh: Shared, j: nat, k: nat)
    requires Data(sh) && j < |sh.heap| && k < |sh.heap|
    ensures sh.heap[j].identity == sh.heap[k].identity <==> j == k
    ensures sh.heap[j].identity.address == sh.heap[k].identity.address <==> j == k
  {
  }

  lemma CreateReplyOf(s: State, t: nat)
    requires Invariant(s) && t < |s.threads| && Created(s.threads[t], s.threads[t].imsi)
    ensures Data(s.shared) && Linear(s.shared) && CreateReplied(s.shared, s.threads[t], Pointer(s.threads[t].pc))
  {
  }

  lemma RepeatedCreate(sh: Shared, a: Thread, b: Thread)
    requires Data(sh) && Linear(sh) && Created(a, a.imsi) && Created(b, a.imsi) && a.points[0] < b.points[0]
    requires CreateReplied(sh, a, Pointer(a.pc)) && CreateReplied(sh, b, Pointer(b.pc))
    ensures a.points[0] + 1 <= b.points[0] <= |sh.history|
    ensures Pointer(a.pc) == Pointer(b.pc) <==> !DeletedWithin(sh.history, a.points[0] + 1, b.points[0], a.imsi)
  {
    hide Legal, After, DeletedWithin;
    SameSessionOnRepeat(StartTable(sh), sh.history, a.points[0], b.points[0]);
    SameIdentity(sh, Pointer(a.pc).value, Pointer(b.pc).value);
  }

  /**
   Two create handlers for one IMSI get the same session object, and with it the same address and
   TEID, exactly when no deletion of the IMSI took effect between them.
   */
  lemma RetransmissionOverRuns(s: State, schedule: seq<Choice>, a: nat, b: nat)
    requires Initial(s) && a < |s.threads| && b < |s.threads|
    requires var s' := Run(s, schedule);
             && Created(s'.threads[a], s'.threads[a].imsi) && Created(s'.threads[b], s'.threads[a].imsi)
             && s'.threads[a].points[0] < s'.threads[b].points[0]
    ensures var s' := Run(s, schedule);
            var p, q := s'.threads[a].points[0], s'.threads[b].points[0];
            && p < q < |s'.shared.history|
            && (Pointer(s'.threads[a].pc) == Pointer(s'.threads[b].pc)
                <==> !DeletedWithin(s'.shared.history, p + 1, q, s'.threads[a].imsi))
  {
    hide Run, Invariant, DeletedWithin;
    Reached(s, schedule);
    var s' := Run(s, schedule);
    CreateReplyOf(s', a);
    CreateReplyOf(s', b);
    RepeatedCreate(s'.shared, s'.threads[a], s'.threads[b]);
  }

  // The delete handler looks a session up, answers, and then deletes by IMSI.

  /** What it deletes is the session it looked up exactly when no other deletion of the IMSI came first. */
  lemma DeletesWhatItFound(s: State, schedule: seq<Choice>, t: nat)
    requires Initial(s) && t < |s.threads| && Run(s, schedule).threads[t].pc.DeleteRemove?
    ensures var s' := Run(s, schedule);
            var th := s'.threads[t];
            && |th.points| == 1 && th.points[0] < |s'.shared.history|
            && (th.imsi in s'.shared.sessions && s'.shared.sessions[th.imsi] == th.pc.session
                <==> !DeletedWithin(s'.shared.history, th.points[0], |s'.shared.history|, th.imsi))
  {
    Reached(s, schedule);
    var sh, th := Run(s, schedule).shared, Run(s, schedule).threads[t];
    assert Good(sh, th, t);
    var start, h, p := StartTable(sh), sh.history, th.points[0];
    LegalAt(start, h, p);
    StillTheSameSession(start, h, p, |h|, th.imsi);
    assert h[..|h|] == h;
    if th.imsi in sh.sessions { SameIdentity(sh, sh.sessions[th.imsi], th.pc.session); }
  }
}
