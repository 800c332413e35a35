/** Which clock readings the sessions and the events keep: those of the steps that made them. */
module SmfClocks {
  import opened Wrappers
  import opened SmfSpec
  import opened InMemorySmf
  import opened SmfHandlers
  import opened SmfInvariants
  import opened SmfTheorems

  /** The only steps that write a session object, and what they write. */
  lemma HeapStep(sh: Shared, th: Thread, t: nat, c: Choice)
    requires MapValid(sh) && PointerValid(sh, th) && Control(th)
    ensures var sh' := Step(sh, th, t, c).0;
            match th.pc
            case CreateStore(ip) =>
              sh'.heap == sh.heap + [Record(Identity(th.imsi, ip, th.request.teid, th.request.peer, c.now),
                                            5, 9, 1, c.now, INITIALIZING)]
            case CreateActivate(k) => sh'.heap == sh.heap[k := sh.heap[k].(state := ACTIVE)]
            case CreateTouch(k) => sh'.heap == sh.heap[k := sh.heap[k].(lastUpdated := c.now)]
            case _ => sh'.heap == sh.heap
  {
  }

  lemma EventStep(sh: Shared, th: Thread, t: nat, c: Choice)
    requires MapValid(sh) && PointerValid(sh, th) && Control(th)
    ensures var sh' := Step(sh, th, t, c).0;
            sh'.history == sh.history
            || (|sh'.history| == |sh.history| + 1 && sh'.history[..|sh.history|] == sh.history
                && sh'.owners == sh.owners + [(t, |th.points|)]
                && (sh'.history[|sh.history|].op.Create? ==> sh'.history[|sh.history|].op.now == c.now))
  {
  }

  /** The choice makes the k-th session. */
  predicate Stores(s: State, c: Choice, k: nat) {
    c.thread < |s.threads| && s.threads[c.thread].pc.CreateStore? && |s.shared.heap| == k
  }

  /** The choice sets the last update of the k-th session. */
  predicate Touches(s: State, c: Choice, k: nat) {
    Stores(s, c, k) || (c.thread < |s.threads| && s.threads[c.thread].pc == CreateTouch(k))
  }

  /** What the k-th session is when choice c makes it. */
  function Built(s: State, c: Choice, k: nat): Record
    requires Stores(s, c, k) && k < |s.shared.pool| && s.threads[c.thread].request.CreateRequest?
    requires s.threads[c.thread].request.imsi.Some?
  {
    var r := s.threads[c.thread].request;
    Record(Identity(r.imsi.value, s.shared.pool[k], r.teid, r.peer, c.now), 5, 9, 1, c.now, INITIALIZING)
  }

  lemma NextStores(s: State, c: Choice, k: nat)
    requires PointersValid(s) && Invariant(s)
    ensures Stores(s, c, k) ==>
              && k < |s.shared.pool| && s.threads[c.thread].request.CreateRequest? && s.threads[c.thread].request.imsi.Some?
              && Next(s, c).shared.heap == s.shared.heap + [Built(s, c, k)]
    ensures !Stores(s, c, |s.shared.heap|) ==> |Next(s, c).shared.heap| == |s.shared.heap|
    ensures k < |s.shared.heap| ==>
              && k < |Next(s, c).shared.heap| && Next(s, c).shared.heap[k].identity == s.shared.heap[k].identity
              && Next(s, c).shared.heap[k].lastUpdated == if Touches(s, c, k) then c.now else s.shared.heap[k].lastUpdated
  {
    hide Step, Owned, Holders, Linear, Reported, Locks, Spans, Replied, Announcing, NoRepeats;
    if c.thread < |s.threads| {
      assert Good(s.shared, s.threads[c.thread], c.thread);
      HeapStep(s.shared, s.threads[c.thread], c.thread, c);
    }
  }

  /** Every session was made, as its request asks, by one step of one create, at that step's clock reading. */
  lemma {:induction false} MadeByOneStep(s: State, schedule: seq<Choice>, k: nat) returns (i: nat)
    requires Initial(s) && k < |Run(s, schedule).shared.heap|
    ensures i < |schedule| && PointersValid(s)
    ensures var m := Run(s, schedule[..i]);
            && Stores(m, schedule[i], k) && k < |m.shared.pool|
            && m.threads[schedule[i].thread].request.CreateRequest? && m.threads[schedule[i].thread].request.imsi.Some?
            && Run(s, schedule[..i + 1]).shared.heap == m.shared.heap + [Built(m, schedule[i], k)]
            && Run(s, schedule).shared.heap[k].identity == Built(m, schedule[i], k).identity
  {
    hide Next, Invariant, Stores, Touches, Built;
    var n := |schedule| - 1;
    Reached(s, schedule[..n]);
    hide Initial;
    NextStores(Run(s, schedule[..n]), schedule[n], k);
    if k < |Run(s, schedule[..n]).shared.heap| {
      i := MadeByOneStep(s, schedule[..n], k);
      assert schedule[..n][..i] == schedule[..i] && schedule[..n][..i + 1] == schedule[..i + 1];
    } else {
      NextStores(Run(s, schedule[..n]), schedule[n], |Run(s, schedule[..n]).shared.heap|);
      assert schedule[..n + 1] == schedule;
      i := n;
    }
  }

  lemma NextTouches(s: State, c: Choice, k: nat)
    requires PointersValid(s) && Invariant(s) && k < |Next(s, c).shared.heap|
    ensures if Touches(s, c, k) then Next(s, c).shared.heap[k].lastUpdated == c.now
            else k < |s.shared.heap| && Next(s, c).shared.heap[k].lastUpdated == s.shared.heap[k].lastUpdated
  {
    hide Next, Invariant;
    NextStores(s, c, k);
    NextStores(s, c, |s.shared.heap|);
  }

  /** A session's last update is the clock reading of the last step that stored or touched it. */
  lemma {:induction false} UpdatedWhenTouched(s: State, schedule: seq<Choice>, k: nat) returns (i: nat)
    requires Initial(s) && k < |Run(s, schedule).shared.heap|
    ensures i < |schedule| && PointersValid(s)
    ensures Touches(Run(s, schedule[..i]), schedule[i], k) && Run(s, schedule).shared.heap[k].lastUpdated == schedule[i].now
    ensures forall j :: i < j < |schedule| ==> !Touches(Run(s, schedule[..j]), schedule[j], k)
  {
    hide Next, Invariant, Touches;
    var n := |schedule| - 1;
    Reached(s, schedule[..n]);
    hide Initial;
    NextTouches(Run(s, schedule[..n]), schedule[n], k);
    if Touches(Run(s, schedule[..n]), schedule[n], k) {
      i := n;
    } else {
      i := UpdatedWhenTouched(s, schedule[..n], k);
      hide Run;
      forall j | i <= j < n ensures schedule[..n][..j] == schedule[..j] && schedule[..n][j] == schedule[j] {
      }
    }
  }

  lemma ComesFromTouch(sh: Shared, th: Thread, t: nat, c: Choice)
    requires MapValid(sh) && PointerValid(sh, th) && Control(th) && th.request.CreateRequest?
    requires var pc' := Step(sh, th, t, c).1.pc; pc'.Done? && pc'.outcome.Accepted? && pc'.found.Some?
    ensures Step(sh, th, t, c).1.pc == th.pc || th.pc == CreateTouch(Step(sh, th, t, c).1.pc.found.value)
  {
  }

  lemma LastStepTouches(s: State, c: Choice, t: nat, k: nat)
    requires PointersValid(s) && Invariant(s) && t < |s.threads| && s.threads[t].request.CreateRequest?
    requires Next(s, c).threads[t].pc == Done(Accepted, Some(k)) && s.threads[t].pc != Done(Accepted, Some(k))
    ensures c.thread == t && s.threads[t].pc == CreateTouch(k)
  {
    hide Step, World, Owned, Holders, Locks, Control, Critical, Spans, Replied, Announcing;
    assert Good(s.shared, s.threads[t], t);
    if c.thread == t { ComesFromTouch(s.shared, s.threads[t], t, c); }
  }

  /** A create that ends accepted touched its session: some step of its own set the last update. */
  lemma {:induction false} AcceptedCreatesTouch(s: State, schedule: seq<Choice>, t: nat, k: nat) returns (i: nat)
    requires Initial(s) && t < |s.threads| && s.threads[t].request.CreateRequest?
    requires Run(s, schedule).threads[t].pc == Done(Accepted, Some(k))
    ensures i < |schedule| && schedule[i].thread == t && PointersValid(s)
    ensures Run(s, schedule[..i]).threads[t].pc == CreateTouch(k)
  {
    hide Invariant, Next, Step;
    var n := |schedule| - 1;
    Reached(s, schedule[..n]);
    InitialInvariant(s);
    RunMoves(s, schedule[..n], t);
    hide Initial;
    var m := Run(s, schedule[..n]);
    if m.threads[t].pc == Done(Accepted, Some(k)) {
      i := AcceptedCreatesTouch(s, schedule[..n], t, k);
      assert schedule[..n][..i] == schedule[..i];
    } else {
      LastStepTouches(m, schedule[n], t, k);
      i := n;
    }
  }

  lemma NextRecords(s: State, c: Choice)
    requires PointersValid(s) && Invariant(s)
    ensures var sh, sh' := s.shared, Next(s, c).shared;
            (sh'.history == sh.history && sh'.owners == sh.owners)
            || (|sh'.history| == |sh.history| + 1 && sh'.history[..|sh.history|] == sh.history
                && |sh'.owners| == |sh'.history| && sh'.owners[..|sh.history|] == sh.owners
                && sh'.owners[|sh.history|].0 == c.thread
                && (sh'.history[|sh.history|].op.Create? ==> sh'.history[|sh.history|].op.now == c.now))
  {
    hide Step, Owned, Holders, Data, Reported, Locks, Critical, Spans, Replied, Announcing, NoRepeats;
    NextKeepsInvariant(s, c);
    if c.thread < |s.threads| {
      assert Good(s.shared, s.threads[c.thread], c.thread);
      EventStep(s.shared, s.threads[c.thread], c.thread, c);
    }
  }

  lemma OwnersMatch(s: State, schedule: seq<Choice>)
    requires Initial(s)
    ensures PointersValid(s) && |Run(s, schedule).shared.owners| == |Run(s, schedule).shared.history|
  {
    Reached(s, schedule);
  }

  /** Every event was recorded by a step of its owner; a create's event keeps that step's clock reading. */
  lemma {:induction false} RecordedByOneStep(s: State, schedule: seq<Choice>, p: nat) returns (i: nat)
    requires Initial(s) && p < |Run(s, schedule).shared.history|
    ensures i < |schedule| && PointersValid(s) && |Run(s, schedule[..i]).shared.history| == p
    ensures var sh := Run(s, schedule).shared;
            && |sh.owners| == |sh.history| && sh.owners[p].0 == schedule[i].thread
            && (sh.history[p].op.Create? ==> sh.history[p].op.now == schedule[i].now)
  {
    hide Next, Invariant;
    var n := |schedule| - 1;
    Reached(s, schedule[..n]);
    OwnersMatch(s, schedule[..n]);
    OwnersMatch(s, schedule);
    hide Initial;
    NextRecords(Run(s, schedule[..n]), schedule[n]);
    if p < |Run(s, schedule[..n]).shared.history| {
      i := RecordedByOneStep(s, schedule[..n], p);
      assert schedule[..n][..i] == schedule[..i];
    } else {
      i := n;
    }
  }
}
