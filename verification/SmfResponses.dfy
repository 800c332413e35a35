/**
 What each handler owes its peer on every schedule: which response goes out, how often and when, what
 a handler that is done reports, and what the clock readings kept in sessions and events are.
 */
module SmfResponses {
  import opened Wrappers
  import opened SmfSpec
  import opened InMemorySmf
  import opened SmfHandlers
  import opened SmfInvariants
  import opened SmfTheorems

  // One response each.

  /** The responses of thread t, in the order they went out. */
  function SentBy(log: seq<Sent>, t: nat): seq<Sent> {
    if log == [] then []
    else SentBy(log[..|log| - 1], t) + if log[|log| - 1].sender == t then [log[|log| - 1]] else []
  }

  lemma SentByNext(log: seq<Sent>, m: Sent, t: nat)
    ensures SentBy(log + [m], t) == SentBy(log, t) + if m.sender == t then [m] else []
  {
    assert (log + [m])[..|log|] == log;
  }

  lemma {:induction false} SentByIsInTheLog(log: seq<Sent>, t: nat, m: Sent)
    ensures m in SentBy(log, t) <==> m in log && m.sender == t
  {
    if log == [] {
    } else {
      var n := |log| - 1;
      SentByIsInTheLog(log[..n], t, m);
      assert log == log[..n] + [log[n]];
    }
  }

  /** Past a send that went through. */
  predicate Answered(pc: PC) {
    match pc
    case CreateActivate(_) => true
    case CreateTouch(_) => true
    case DeleteLock(_) => true
    case DeleteRemove(_) => true
    case DeleteUnlock(_) => true
    case Done(outcome, _) => outcome.Accepted?
    case _ => false
  }

  /** About to send. */
  predicate Responds(pc: PC) {
    pc.CreateRespond? || pc.DeleteRespond?
  }

  /** The response to the thread's request that describes session s. */
  function Due(request: Request, s: Identity): Response
    requires request.imsi.Some?
  {
    match request
    case CreateRequest(imsi, teid, sequence, _) => CreateAccepted(teid, sequence, imsi.value, s.teid, s.address, 5, 9, 1)
    case DeleteRequest(imsi, teid, sequence) => DeleteAccepted(teid, sequence, imsi.value)
  }

  /** One response once answered, for the session in hand and before any deletion; none otherwise. */
  ghost predicate Responded(sh: Shared, th: Thread, t: nat) {
    if Answered(th.pc) then
      && Pointer(th.pc).Some? && Pointer(th.pc).value < |sh.heap| && th.request.imsi.Some?
      && |SentBy(sh.log, t)| == 1
      && var m := SentBy(sh.log, t)[0];
      && m.response == Due(th.request, sh.heap[Pointer(th.pc).value].identity)
      && m.session == Pointer(th.pc).value && m.request == th.request
      && m.after <= |sh.history| && (|th.points| >= 2 ==> m.after <= th.points[1])
    else SentBy(sh.log, t) == []
  }

  /** A create that is done activating, or done altogether, left its session ACTIVE. */
  ghost predicate Activated(sh: Shared, th: Thread) {
    th.request.CreateRequest? && (th.pc.CreateTouch? || (th.pc.Done? && th.pc.outcome.Accepted?)) ==>
      Pointer(th.pc).Some? && Pointer(th.pc).value < |sh.heap| && sh.heap[Pointer(th.pc).value].state == ACTIVE
  }

  /** A step sends exactly when it is one of the two sends and the send goes through. */
  lemma LogStep(sh: Shared, th: Thread, t: nat, c: Choice)
    requires MapValid(sh) && PointerValid(sh, th) && Control(th) && Data(sh)
    ensures var (sh', th') := Step(sh, th, t, c);
            if Responds(th.pc) && c.sendOk then
              && th.request.imsi.Some? && Pointer(th.pc).Some?
              && sh'.log == sh.log + [Sent(Due(th.request, sh.heap[Pointer(th.pc).value].identity), th.request,
                                           Pointer(th.pc).value, t, |sh.history|)]
              && Answered(th'.pc) && sh'.heap == sh.heap && sh'.history == sh.history && th'.points == th.points
              && th'.request == th.request && |th.points| == 1 && Pointer(th'.pc) == Pointer(th.pc)
            else
              && sh'.log == sh.log && (Answered(th'.pc) <==> Answered(th.pc))
              && (Responds(th.pc) ==> th'.pc == Done(SendFailed, Pointer(th.pc)) && sh' == sh)
  {
    hide NoRepeats;
  }

  lemma RespondedStep(sh: Shared, th: Thread, t: nat, c: Choice)
    requires World(sh) && Good(sh, th, t) && Responded(sh, th, t) && Activated(sh, th)
    ensures Responded(Step(sh, th, t, c).0, Step(sh, th, t, c).1, t)
  {
    hide Linear, Reported, Spans, Replied, Announcing, Critical, NoRepeats;
    var (sh', th') := Step(sh, th, t, c);
    LogStep(sh, th, t, c);
    if th.request.CreateRequest? {
      CreateShape(sh, th, t, c);
      CreateGuarantee(sh, th, t, c);
    } else {
      DeleteShape(sh, th, t, c);
      DeleteGuarantee(sh, th, t, c);
    }
    if Responds(th.pc) && c.sendOk { SentByNext(sh.log, sh'.log[|sh.log|], t); }
    hide StepCreate, StepDelete;
  }

  lemma ActivatedStep(sh: Shared, th: Thread, t: nat, c: Choice)
    requires MapValid(sh) && PointerValid(sh, th) && Control(th) && Activated(sh, th)
    ensures Activated(Step(sh, th, t, c).0, Step(sh, th, t, c).1)
  {
  }

  /** Another thread's step leaves this thread's responses and its session's state alone. */
  lemma StillResponded(sh: Shared, sh': Shared, th: Thread, t: nat)
    requires Responded(sh, th, t) && Activated(sh, th) && Extends(sh, sh')
    requires sh'.log == sh.log || (|sh'.log| == |sh.log| + 1 && sh'.log[|sh.log|].sender != t)
    ensures Responded(sh', th, t) && Activated(sh', th)
  {
    if sh'.log != sh.log {
      assert sh'.log == sh.log + [sh'.log[|sh.log|]];
      SentByNext(sh.log, sh'.log[|sh.log|], t);
    }
    hide SentBy;
    assert Pointer(th.pc).Some? && Pointer(th.pc).value < |sh.heap| ==>
             SameSession(sh.heap[Pointer(th.pc).value], sh'.heap[Pointer(th.pc).value]);
  }

  lemma LogStepOf(sh: Shared, th: Thread, t: nat, c: Choice)
    requires World(sh) && Good(sh, th, t)
    ensures var sh' := Step(sh, th, t, c).0;
            sh'.log == sh.log || (|sh'.log| == |sh.log| + 1 && sh'.log[|sh.log|].sender == t)
  {
    hide StepCreate, StepDelete;
    LogStep(sh, th, t, c);
  }

  ghost predicate AllResponded(s: State) {
    forall t :: 0 <= t < |s.threads| ==> Responded(s.shared, s.threads[t], t) && Activated(s.shared, s.threads[t])
  }

  lemma NextKeepsResponses(s: State, c: Choice)
    requires PointersValid(s) && Invariant(s) && AllResponded(s)
    ensures AllResponded(Next(s, c))
  {
    hide StepCreate, StepDelete, World, Control, Locks, Critical, Spans, Replied, Announcing, Responded, Activated, Owned, Holders;
    if c.thread < |s.threads| {
      var t, s' := c.thread, Next(s, c);
      NextKeepsInvariant(s, c);
      assert Good(s.shared, s.threads[t], t);
      LogStepOf(s.shared, s.threads[t], t, c);
      RespondedStep(s.shared, s.threads[t], t, c);
      ActivatedStep(s.shared, s.threads[t], t, c);
      forall u | 0 <= u < |s.threads| && u != t
        ensures Responded(s'.shared, s'.threads[u], u) && Activated(s'.shared, s'.threads[u])
      {
        StillResponded(s.shared, s'.shared, s.threads[u], u);
      }
    }
  }

  lemma {:induction false} RunKeepsResponses(s: State, schedule: seq<Choice>)
    requires Initial(s)
    ensures PointersValid(s) && AllResponded(Run(s, schedule))
  {
    if schedule == [] {
    } else {
      var n := |schedule| - 1;
      RunKeepsResponses(s, schedule[..n]);
      Reached(s, schedule[..n]);
      hide Next, Invariant, AllResponded;
      NextKeepsResponses(Run(s, schedule[..n]), schedule[n]);
    }
  }

  /**
   On every schedule a handler has sent exactly one response from the moment its send went through,
   and none before, or ever if the send failed: the response is addressed as its request asks and
   describes the handler's own session. A create that reports success left its session ACTIVE.
   */
  lemma OneResponseEach(s: State, schedule: seq<Choice>, t: nat)
    requires Initial(s) && t < |s.threads|
    ensures var s' := Run(s, schedule);
            var sh, th := s'.shared, s'.threads[t];
            && (!Answered(th.pc) ==> SentBy(sh.log, t) == [])
            && (Answered(th.pc) ==>
                  && Pointer(th.pc).Some? && Pointer(th.pc).value < |sh.heap| && th.request.imsi.Some?
                  && |SentBy(sh.log, t)| == 1
                  && var k, m := Pointer(th.pc).value, SentBy(sh.log, t)[0];
                  && m.session == k && m.request == th.request
                  && m.response == match th.request
                                   case CreateRequest(imsi, teid, sequence, _) =>
                                     CreateAccepted(teid, sequence, imsi.value, sh.heap[k].identity.teid,
                                                    sh.heap[k].identity.address, 5, 9, 1)
                                   case DeleteRequest(imsi, teid, sequence) => DeleteAccepted(teid, sequence, imsi.value))
            && (th.request.CreateRequest? && th.pc.Done? && th.pc.outcome.Accepted? ==>
                  th.pc.found.Some? && th.pc.found.value < |sh.heap| && sh.heap[th.pc.found.value].state == ACTIVE)
  {
    RunKeepsResponses(s, schedule);
    var s' := Run(s, schedule);
    assert Responded(s'.shared, s'.threads[t], t) && Activated(s'.shared, s'.threads[t]);
  }

  lemma OwnerOfADeletion(s: State, p: nat) returns (t: nat)
    requires Invariant(s) && p < |s.shared.history| && s.shared.history[p].op.Delete?
    ensures p < |s.shared.owners| && t == s.shared.owners[p].0 && t < |s.threads|
    ensures var th := s.threads[t];
            && th.request.DeleteRequest? && th.request.imsi == Some(s.shared.history[p].op.imsi)
            && |th.points| == 2 && th.points[1] == p && Answered(th.pc)
            && (th.pc.Done? ==> th.pc.outcome == Accepted)
  {
    hide Data, Reported, Locks, Critical, Spans, Announcing, Legal, After;
    t := s.shared.owners[p].0;
    assert Good(s.shared, s.threads[t], t);
  }

  /**
   A deletion belongs to a delete handler for that IMSI whose response was out before it. A handler
   whose send failed deletes nothing.
   */
  lemma DeletionsAreAnswered(s: State, schedule: seq<Choice>, p: nat)
    requires Initial(s) && p < |Run(s, schedule).shared.history| && Run(s, schedule).shared.history[p].op.Delete?
    ensures var s' := Run(s, schedule);
            && p < |s'.shared.owners| && s'.shared.owners[p].0 < |s'.threads|
            && var t := s'.shared.owners[p].0;
            && s'.threads[t].request.DeleteRequest? && s'.threads[t].request.imsi == Some(s'.shared.history[p].op.imsi)
            && (s'.threads[t].pc.Done? ==> s'.threads[t].pc.outcome == Accepted)
            && exists i :: 0 <= i < |s'.shared.log| && s'.shared.log[i].sender == t && s'.shared.log[i].after <= p
                           && s'.shared.log[i].response.DeleteAccepted?
                           && s'.shared.log[i].response.imsi == s'.shared.history[p].op.imsi
  {
    Reached(s, schedule);
    RunKeepsResponses(s, schedule);
    var s' := Run(s, schedule);
    var t := OwnerOfADeletion(s', p);
    assert Responded(s'.shared, s'.threads[t], t);
    hide Run, Invariant, AllResponded;
    SentByIsInTheLog(s'.shared.log, t, SentBy(s'.shared.log, t)[0]);
  }

  // What the outcome says.

  /** How a handler ends is decided by its request, by what its first call returned and by its send. */
  lemma OutcomeLaw(s: State, schedule: seq<Choice>, t: nat)
    requires Initial(s) && t < |s.threads| && Run(s, schedule).threads[t].pc.Done?
    ensures var s' := Run(s, schedule);
            var sh, th := s'.shared, s'.threads[t];
            && (th.request.imsi.None? <==> th.pc.outcome == MissingIMSI)
            && (th.request.imsi.Some? ==>
                  && |th.points| >= 1 && th.points[0] < |sh.history|
                  && var reply := sh.history[th.points[0]].reply;
                  && (th.pc.outcome == NoIPsAvailable <==> reply == NoAddress)
                  && (th.pc.outcome == SessionNotFound <==> reply == NotFound)
                  && (th.pc.outcome == Accepted <==> reply != NoAddress && reply != NotFound && SentBy(sh.log, t) != []))
  {
    Reached(s, schedule);
    RunKeepsResponses(s, schedule);
    var s' := Run(s, schedule);
    hide Run;
    assert Good(s'.shared, s'.threads[t], t) && Responded(s'.shared, s'.threads[t], t);
  }

  /** The handler came to its send, and the send went through or failed. */
  predicate Tried(s: State, schedule: seq<Choice>, t: nat, ok: bool)
    requires PointersValid(s) && t < |s.threads|
  {
    exists i :: 0 <= i < |schedule| && TriedAt(s, schedule, t, ok, i)
  }

  predicate TriedAt(s: State, schedule: seq<Choice>, t: nat, ok: bool, i: nat)
    requires PointersValid(s) && t < |s.threads| && i < |schedule|
  {
    schedule[i].thread == t && schedule[i].sendOk == ok && Responds(Run(s, schedule[..i]).threads[t].pc)
  }

  lemma TriedNext(s: State, schedule: seq<Choice>, t: nat, ok: bool)
    requires PointersValid(s) && t < |s.threads| && schedule != []
    ensures var n := |schedule| - 1;
            Tried(s, schedule, t, ok) <==> Tried(s, schedule[..n], t, ok) || TriedAt(s, schedule, t, ok, n)
  {
    hide Run;
    var n := |schedule| - 1;
    forall i | 0 <= i < n ensures TriedAt(s, schedule, t, ok, i) <==> TriedAt(s, schedule[..n], t, ok, i) {
      assert schedule[..n][..i] == schedule[..i];
    }
  }

  lemma TriedStepOf(sh: Shared, th: Thread, t: nat, c: Choice)
    requires MapValid(sh) && PointerValid(sh, th) && Control(th)
    ensures var pc' := Step(sh, th, t, c).1.pc;
            && (Answered(pc') <==> Answered(th.pc) || (c.sendOk && Responds(th.pc)))
            && (pc'.Done? && pc'.outcome.SendFailed? <==>
                  (th.pc.Done? && th.pc.outcome.SendFailed?) || (!c.sendOk && Responds(th.pc)))
  {
  }

  lemma TriedStep(s: State, c: Choice, t: nat)
    requires PointersValid(s) && Invariant(s) && t < |s.threads|
    ensures var pc, pc' := s.threads[t].pc, Next(s, c).threads[t].pc;
            && (Answered(pc') <==> Answered(pc) || (c.thread == t && c.sendOk && Responds(pc)))
            && (pc'.Done? && pc'.outcome.SendFailed? <==>
                  (pc.Done? && pc.outcome.SendFailed?) || (c.thread == t && !c.sendOk && Responds(pc)))
  {
    hide Step, Answered, Responds, Owned, Holders, World, Locks, Control, Critical, Spans, Replied, Announcing;
    assert Good(s.shared, s.threads[t], t);
    if c.thread == t { TriedStepOf(s.shared, s.threads[t], t, c); }
  }

  /** A handler ends with SendFailed exactly when its send failed, and is past the response exactly when it went through. */
  lemma {:induction false} TheSendDecides(s: State, schedule: seq<Choice>, t: nat)
    requires Initial(s) && t < |s.threads|
    ensures var pc := Run(s, schedule).threads[t].pc;
            && (Answered(pc) <==> Tried(s, schedule, t, true))
            && (pc.Done? && pc.outcome.SendFailed? <==> Tried(s, schedule, t, false))
  {
    if schedule == [] {
    } else {
      var n := |schedule| - 1;
      TheSendDecides(s, schedule[..n], t);
      Reached(s, schedule[..n]);
      hide Next, Invariant, Tried;
      TriedNext(s, schedule, t, true);
      TriedNext(s, schedule, t, false);
      TriedStep(Run(s, schedule[..n]), schedule[n], t);
    }
  }
}
