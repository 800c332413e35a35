/**
 What every step of every handler keeps, for both readings of the lock: a guarantee that each
 step gives to the other threads, and an assertion about each thread that survives it.
 */
module SmfInvariants {
  import opened Wrappers
  import opened SmfSpec
  import opened InMemorySmf
  import opened SmfHandlers

  // The guarantee.

  ghost predicate SameSession(r: Record, r': Record) {
    && r'.identity == r.identity && r'.bearerID == r.bearerID && r'.qci == r.qci && r'.arp == r.arp
    && (r.state == ACTIVE ==> r'.state == ACTIVE)
  }

  /** What only ever grows. */
  ghost predicate Extends(sh: Shared, sh': Shared) {
    && sh'.reading == sh.reading && sh'.pool == sh.pool
    && |sh.heap| <= |sh'.heap| && (forall k :: 0 <= k < |sh.heap| ==> SameSession(sh.heap[k], sh'.heap[k]))
    && sh.log <= sh'.log && sh.history <= sh'.history && sh.owners <= sh'.owners
  }

  /** A step of thread t touches the table only under the write lock, and only its own locks. */
  ghost predicate Guarantee(sh: Shared, sh': Shared, t: nat) {
    && Extends(sh, sh')
    && (sh.writer != Some(t) ==>
          sh'.sessions == sh.sessions && |sh'.heap| == |sh.heap| && sh'.nextIPIndex == sh.nextIPIndex)
    && (sh'.writer == sh.writer || (sh'.writer == Some(t) && sh.writer.None?) || (sh'.writer.None? && sh.writer == Some(t)))
    && sh'.readers - {t} == sh.readers - {t}
  }

  predicate HoldsWrite(pc: PC) {
    match pc
    case CreateLookup => true
    case AllocateLock => true
    case AllocateRead => true
    case AllocateBump(_) => true
    case CreateStore(_) => true
    case CreateUnlock(_) => true
    case DeleteRemove(_) => true
    case DeleteUnlock(_) => true
    case _ => false
  }

  predicate HoldsRead(pc: PC) {
    pc.DeleteRead? || pc.DeleteReadUnlock?
  }

  ghost predicate Locks(sh: Shared, th: Thread, t: nat) {
    && (sh.writer == Some(t) <==> HoldsWrite(th.pc))
    && (t in sh.readers <==> HoldsRead(th.pc))
  }

  lemma CreateGuarantee(sh: Shared, th: Thread, t: nat, c: Choice)
    requires MapValid(sh) && PointerValid(sh, th) && th.request.CreateRequest? && Locks(sh, th, t)
    ensures Guarantee(sh, StepCreate(sh, th, t, c).0, t)
  {
  }

  lemma CreateKeepsLocks(sh: Shared, th: Thread, t: nat, c: Choice)
    requires MapValid(sh) && PointerValid(sh, th) && th.request.CreateRequest? && Locks(sh, th, t)
    ensures Locks(StepCreate(sh, th, t, c).0, StepCreate(sh, th, t, c).1, t)
  {
  }

  lemma DeleteGuarantee(sh: Shared, th: Thread, t: nat, c: Choice)
    requires MapValid(sh) && PointerValid(sh, th) && th.request.DeleteRequest? && Locks(sh, th, t)
    ensures Guarantee(sh, StepDelete(sh, th, t, c).0, t)
  {
  }

  lemma DeleteKeepsLocks(sh: Shared, th: Thread, t: nat, c: Choice)
    requires MapValid(sh) && PointerValid(sh, th) && th.request.DeleteRequest? && Locks(sh, th, t)
    ensures Locks(StepDelete(sh, th, t, c).0, StepDelete(sh, th, t, c).1, t)
  {
  }

  // What holds of the shared state between any two steps.

  /** Sessions ever built occupy the pool's prefix, one address each, in order. */
  ghost predicate Data(sh: Shared) {
    && MapValid(sh) && |sh.heap| <= |sh.pool| && NoRepeats(sh.pool)
    && (forall k :: 0 <= k < |sh.heap| ==> sh.heap[k].identity.address == sh.pool[k])
    && (forall k :: 0 <= k < |sh.heap| ==> HasDefaults(sh.heap[k]))
    && (forall imsi :: imsi in sh.sessions ==> sh.heap[sh.sessions[imsi]].identity.imsi == imsi)
    && (sh.writer.None? ==> sh.nextIPIndex == |sh.heap|)
    && (sh.writer.Some? ==> sh.readers == {})
  }

  predicate HasDefaults(r: Record) {
    r.bearerID == 5 && r.qci == 9 && r.arp == 1 && r.state in {INITIALIZING, ACTIVE}
  }

  function StartTable(sh: Shared): Table {
    Table(map[], sh.pool)
  }

  /** The calls in the order they took effect are a legal history that ends in the present table. */
  ghost predicate Linear(sh: Shared)
    requires Data(sh)
  {
    Legal(StartTable(sh), sh.history) && After(StartTable(sh), sh.history) == Abstract(sh) && |sh.owners| == |sh.history|
  }

  /** Every response repeats its request and describes the session it was built from. */
  ghost predicate Faithful(sh: Shared, m: Sent) {
    m.session < |sh.heap| &&
    match m.response
    case CreateAccepted(teid, sequence, imsi, fTEID, ueIP, ebi, qci, arp) =>
      && m.request.CreateRequest? && m.request.teid == teid && m.request.sequence == sequence && m.request.imsi == Some(imsi)
      && sh.heap[m.session].identity.imsi == imsi && sh.heap[m.session].identity.teid == fTEID
      && sh.heap[m.session].identity.address == ueIP
      && ebi == 5 && qci == 9 && arp == 1
    case DeleteAccepted(teid, sequence, imsi) =>
      && m.request.DeleteRequest? && m.request.teid == teid && m.request.sequence == sequence && m.request.imsi == Some(imsi)
      && sh.heap[m.session].identity.imsi == imsi
  }

  ghost predicate Announced(log: seq<Sent>, k: nat) {
    exists i :: 0 <= i < |log| && log[i].response.CreateAccepted? && log[i].session == k
  }

  ghost predicate Reported(sh: Shared) {
    && (forall i :: 0 <= i < |sh.log| ==> Faithful(sh, sh.log[i]))
    && (forall k :: 0 <= k < |sh.heap| && sh.heap[k].state == ACTIVE ==> Announced(sh.log, k))
  }

  // What holds of each thread.

  function Progress(th: Thread): (nat, nat) {
    match th.pc
    case CreateEntry => (0, 0)
    case DeleteEntry => (0, 0)
    case CreateUnlock(_) => (1, 1)
    case CreateRespond(_) => (1, 1)
    case CreateActivate(_) => (1, 1)
    case CreateTouch(_) => (1, 1)
    case DeleteReadUnlock(_) => (1, 1)
    case DeleteRespond(_) => (1, 1)
    case DeleteLock(_) => (2, 1)
    case DeleteRemove(_) => (2, 1)
    case DeleteUnlock(_) => (2, 2)
    case Done(outcome, _) =>
      if outcome.MissingIMSI? then (0, 0)
      else if outcome.Accepted? && th.request.DeleteRequest? then (2, 2)
      else (1, 1)
    case _ => (1, 0)
  }

  predicate IsCreatePC(pc: PC) {
    pc.CreateEntry? || pc.CreateLock? || pc.CreateLookup? || pc.AllocateLock? || pc.AllocateRead? || pc.AllocateBump?
    || pc.CreateStore? || pc.CreateUnlock? || pc.CreateRespond? || pc.CreateActivate? || pc.CreateTouch?
  }

  ghost predicate Control(th: Thread) {
    && (!th.pc.Done? ==> (th.request.CreateRequest? <==> IsCreatePC(th.pc)))
    && (|th.calls|, |th.points|) == Progress(th)
    && (th.calls != [] ==> th.request.imsi == Some(th.imsi))
    && (th.pc.Done? && th.pc.outcome.MissingIMSI? ==> th.request.imsi.None?)
    && (th.pc.Done? && th.pc.outcome.NoIPsAvailable? ==> th.request.CreateRequest? && th.pc.found.None?)
    && (th.pc.Done? && th.pc.outcome.SessionNotFound? ==> th.request.DeleteRequest? && th.pc.found.None?)
    && (th.pc.Done? && (th.pc.outcome.Accepted? || th.pc.outcome.SendFailed?) ==> th.pc.found.Some?)
  }

  /** Under the write lock the cursor is ahead of the heap only between taking and storing an address. */
  ghost predicate Critical(sh: Shared, th: Thread) {
    && (HoldsWrite(th.pc) ==> sh.nextIPIndex == |sh.heap| + if th.pc.CreateStore? then 1 else 0)
    && (th.pc.AllocateLock? || th.pc.AllocateRead? || th.pc.AllocateBump? || th.pc.CreateStore? ==>
          th.imsi !in sh.sessions)
    && (th.pc.AllocateBump? || th.pc.CreateStore? ==> |sh.heap| < |sh.pool| && th.pc.ip == sh.pool[|sh.heap|])
  }

  /** A call takes effect after it began, once, and before the next call of its thread begins. */
  ghost predicate Spans(sh: Shared, th: Thread, t: nat) {
    && |th.points| <= |th.calls|
    && (forall i :: 0 <= i < |th.calls| ==> th.calls[i] <= |sh.history|)
    && (forall i :: 0 <= i < |th.points| ==> th.calls[i] <= th.points[i] < |sh.history|)
    && (forall i :: 0 <= i < |th.points| ==> th.points[i] < |sh.owners| && sh.owners[th.points[i]] == (t, i))
  }

  /** What a thread got from the manager is what the history says its call returned. */
  ghost predicate Replied(sh: Shared, th: Thread) {
    && (|th.points| >= 1 && th.request.CreateRequest? ==> CreateReplied(sh, th, Pointer(th.pc)))
    && (|th.points| >= 1 && th.request.DeleteRequest? ==> GetReplied(sh, th, Pointer(th.pc)))
    && (|th.points| >= 2 ==> th.points[1] < |sh.history| && sh.history[th.points[1]] == Event(Delete(th.imsi), Deleted))
  }

  ghost predicate CreateReplied(sh: Shared, th: Thread, found: Option<nat>)
    requires |th.points| >= 1 && th.request.CreateRequest?
  {
    && th.points[0] < |sh.history|
    && var Event(op, reply) := sh.history[th.points[0]];
    && op.Create? && op.imsi == th.imsi && op.teid == th.request.teid && op.peer == th.request.peer
    && match found
       case None => reply == NoAddress
       case Some(k) =>
         && k < |sh.heap| && sh.heap[k].identity.imsi == th.imsi
         && (reply == New(sh.heap[k].identity) || reply == Existing(sh.heap[k].identity))
  }

  ghost predicate GetReplied(sh: Shared, th: Thread, found: Option<nat>)
    requires |th.points| >= 1
  {
    && th.points[0] < |sh.history|
    && sh.history[th.points[0]].op == Get(th.imsi)
    && match found
       case None => sh.history[th.points[0]].reply == NotFound
       case Some(k) =>
         && k < |sh.heap| && sh.heap[k].identity.imsi == th.imsi
         && sh.history[th.points[0]].reply == Found(sh.heap[k].identity)
  }

  ghost predicate Announcing(sh: Shared, th: Thread) {
    && (th.pc.CreateActivate? ==> Announced(sh.log, th.pc.session))
    && (th.pc.CreateTouch? ==> Announced(sh.log, th.pc.session))
  }

  // How a step of a thread may move its calls and the history.

  ghost predicate Quiet(sh: Shared, th: Thread, sh': Shared, th': Thread) {
    sh'.history == sh.history && sh'.owners == sh.owners && th'.points == th.points
    && (th'.calls == th.calls || th'.calls == th.calls + [|sh.history|])
  }

  ghost predicate Effect(sh: Shared, th: Thread, sh': Shared, th': Thread, t: nat) {
    && |sh'.history| == |sh.history| + 1 && sh'.history[..|sh.history|] == sh.history
    && sh'.owners == sh.owners + [(t, |th.points|)]
    && th'.calls == th.calls && th'.points == th.points + [|sh.history|]
  }

  predicate TakesEffect(sh: Shared, th: Thread) {
    match th.pc
    case CreateLookup => th.imsi in sh.sessions
    case AllocateRead => sh.nextIPIndex >= |sh.pool|
    case CreateStore(_) => true
    case DeleteRead => true
    case DeleteRemove(_) => true
    case _ => false
  }

  lemma CreateShape(sh: Shared, th: Thread, t: nat, c: Choice)
    requires MapValid(sh) && PointerValid(sh, th) && th.request.CreateRequest? && Control(th)
    ensures var (sh', th') := StepCreate(sh, th, t, c);
            && (if TakesEffect(sh, th) then Effect(sh, th, sh', th', t) else Quiet(sh, th, sh', th'))
            && (!TakesEffect(sh, th) ==> Pointer(th'.pc) == Pointer(th.pc))
            && th'.request == th.request && (th.points != [] ==> th'.imsi == th.imsi)
            && Control(th')
  {
  }

  lemma DeleteShape(sh: Shared, th: Thread, t: nat, c: Choice)
    requires MapValid(sh) && PointerValid(sh, th) && th.request.DeleteRequest? && Control(th)
    ensures var (sh', th') := StepDelete(sh, th, t, c);
            && (if TakesEffect(sh, th) then Effect(sh, th, sh', th', t) else Quiet(sh, th, sh', th'))
            && (!TakesEffect(sh, th) ==> Pointer(th'.pc) == Pointer(th.pc))
            && th'.request == th.request && (th.points != [] ==> th'.imsi == th.imsi)
            && Control(th')
  {
  }

  lemma KeepsSpans(sh: Shared, th: Thread, sh': Shared, th': Thread, t: nat)
    requires Spans(sh, th, t) && |sh.owners| == |sh.history| && Control(th')
    requires Quiet(sh, th, sh', th') || Effect(sh, th, sh', th', t)
    ensures Spans(sh', th', t)
  {
  }

  // The shared data and the write lock's critical section.

  lemma StoreKeepsData(sh: Shared, th: Thread, t: nat, c: Choice)
    requires Data(sh) && PointerValid(sh, th) && th.request.CreateRequest? && Locks(sh, th, t) && Critical(sh, th)
    requires th.pc.CreateStore?
    ensures Data(StepCreate(sh, th, t, c).0) && Critical(StepCreate(sh, th, t, c).0, StepCreate(sh, th, t, c).1)
  {
    hide NoRepeats;
  }

  lemma CreateKeepsData(sh: Shared, th: Thread, t: nat, c: Choice)
    requires Data(sh) && PointerValid(sh, th) && th.request.CreateRequest? && Locks(sh, th, t) && Critical(sh, th)
    requires !th.pc.CreateStore? && !th.pc.CreateActivate? && !th.pc.CreateTouch?
    ensures Data(StepCreate(sh, th, t, c).0)
  {
    hide NoRepeats, HasDefaults;
  }

  lemma CreateKeepsCritical(sh: Shared, th: Thread, t: nat, c: Choice)
    requires Data(sh) && PointerValid(sh, th) && th.request.CreateRequest? && Locks(sh, th, t) && Critical(sh, th)
    requires !th.pc.CreateStore? && !th.pc.CreateActivate? && !th.pc.CreateTouch?
    ensures Critical(StepCreate(sh, th, t, c).0, StepCreate(sh, th, t, c).1)
  {
    hide NoRepeats, HasDefaults;
  }

  lemma ActivateKeepsData(sh: Shared, th: Thread, t: nat, c: Choice)
    requires Data(sh) && PointerValid(sh, th) && th.request.CreateRequest? && Locks(sh, th, t) && Critical(sh, th)
    requires th.pc.CreateActivate? || th.pc.CreateTouch?
    ensures Data(StepCreate(sh, th, t, c).0) && Critical(StepCreate(sh, th, t, c).0, StepCreate(sh, th, t, c).1)
  {
    hide NoRepeats;
  }

  /** A delete handler moves sessions off record and takes or leaves the lock; heap and cursor stay. */
  lemma DeleteTouchesLittle(sh: Shared, th: Thread, t: nat, c: Choice)
    requires MapValid(sh) && PointerValid(sh, th) && th.request.DeleteRequest? && Locks(sh, th, t)
    ensures var (sh', th') := StepDelete(sh, th, t, c);
            && sh'.heap == sh.heap && sh'.pool == sh.pool && sh'.nextIPIndex == sh.nextIPIndex
            && (sh'.sessions == sh.sessions || sh'.sessions == sh.sessions - {th.imsi})
            && (sh'.writer.Some? ==> if sh'.writer == sh.writer then sh'.readers <= sh.readers else sh'.readers == {})
            && (sh'.writer.None? && sh.writer.Some? ==> HoldsWrite(th.pc))
            && (th'.pc.AllocateLock? || th'.pc.AllocateRead? || th'.pc.AllocateBump? || th'.pc.CreateStore? ==>
                  (sh', th') == (sh, th))
            && (th.pc.CreateStore? ==> (sh', th') == (sh, th))
            && (HoldsWrite(th'.pc) ==> sh.writer.None? || HoldsWrite(th.pc))
  {
  }

  lemma DeleteKeepsData(sh: Shared, th: Thread, t: nat, c: Choice)
    requires Data(sh) && PointerValid(sh, th) && th.request.DeleteRequest? && Locks(sh, th, t) && Critical(sh, th)
    ensures Data(StepDelete(sh, th, t, c).0) && Critical(StepDelete(sh, th, t, c).0, StepDelete(sh, th, t, c).1)
  {
    hide NoRepeats, HasDefaults;
    DeleteTouchesLittle(sh, th, t, c);
    hide StepDelete;
  }

  // Replies.

  lemma RepliedFrame(sh: Shared, th: Thread, sh': Shared, th': Thread)
    requires Extends(sh, sh') && th'.points == th.points && th'.request == th.request
    requires Pointer(th'.pc) == Pointer(th.pc) && (th.points != [] ==> th'.imsi == th.imsi)
    requires Replied(sh, th)
    ensures Replied(sh', th')
  {
  }

  lemma CreateEffectReplies(sh: Shared, th: Thread, t: nat, c: Choice)
    requires Data(sh) && PointerValid(sh, th) && th.request.CreateRequest? && Control(th) && TakesEffect(sh, th)
    ensures Replied(StepCreate(sh, th, t, c).0, StepCreate(sh, th, t, c).1)
  {
    hide NoRepeats;
  }

  lemma DeleteEffectReplies(sh: Shared, th: Thread, t: nat, c: Choice)
    requires Data(sh) && PointerValid(sh, th) && th.request.DeleteRequest? && Control(th) && TakesEffect(sh, th)
    requires Replied(sh, th)
    ensures Replied(StepDelete(sh, th, t, c).0, StepDelete(sh, th, t, c).1)
  {
    hide NoRepeats;
  }

  // Responses and the sessions they activate.

  lemma AnnouncedGrows(log: seq<Sent>, log': seq<Sent>)
    requires log <= log'
    ensures forall k :: Announced(log, k) ==> Announced(log', k)
    ensures |log| < |log'| && log'[|log|].response.CreateAccepted? ==> Announced(log', log'[|log|].session)
  {
  }

  lemma CreateKeepsFaithful(sh: Shared, th: Thread, t: nat, c: Choice, i: nat)
    requires Data(sh) && PointerValid(sh, th) && th.request.CreateRequest? && Control(th) && Replied(sh, th)
    requires Reported(sh) && i < |StepCreate(sh, th, t, c).0.log|
    ensures Faithful(StepCreate(sh, th, t, c).0, StepCreate(sh, th, t, c).0.log[i])
  {
    hide Announced, NoRepeats;
    assert i < |sh.log| ==> Faithful(sh, sh.log[i]);
  }

  lemma CreateKeepsReported(sh: Shared, th: Thread, t: nat, c: Choice)
    requires Data(sh) && PointerValid(sh, th) && th.request.CreateRequest? && Control(th) && Replied(sh, th)
    requires Reported(sh) && Announcing(sh, th)
    ensures Reported(StepCreate(sh, th, t, c).0) && Announcing(StepCreate(sh, th, t, c).0, StepCreate(sh, th, t, c).1)
  {
    hide Announced, NoRepeats, Faithful, Replied, Control, HasDefaults;
    var sh' := StepCreate(sh, th, t, c).0;
    AnnouncedGrows(sh.log, sh'.log);
    forall i | 0 <= i < |sh'.log| ensures Faithful(sh', sh'.log[i]) {
      CreateKeepsFaithful(sh, th, t, c, i);
    }
  }

  lemma DeleteKeepsReported(sh: Shared, th: Thread, t: nat, c: Choice)
    requires Data(sh) && PointerValid(sh, th) && th.request.DeleteRequest? && Control(th) && Replied(sh, th)
    requires Reported(sh) && Announcing(sh, th)
    ensures Reported(StepDelete(sh, th, t, c).0) && Announcing(StepDelete(sh, th, t, c).0, StepDelete(sh, th, t, c).1)
  {
    hide Announced, NoRepeats;
    AnnouncedGrows(sh.log, StepDelete(sh, th, t, c).0.log);
  }

  // The history stays legal: each call takes effect at the step that decides its reply.

  /** A step that records nothing and moves no pointer leaves the table as it was. */
  lemma QuietKeepsLinear(sh: Shared, sh': Shared)
    requires Data(sh) && Data(sh') && Linear(sh) && Extends(sh, sh')
    requires |sh'.heap| == |sh.heap| && sh'.sessions == sh.sessions
    requires sh'.history == sh.history && sh'.owners == sh.owners
    ensures Linear(sh')
  {
  }

  /** A step that records one event and changes the table the way the event says. */
  lemma EffectKeepsLinear(sh: Shared, sh': Shared)
    requires Data(sh) && Data(sh') && Linear(sh) && sh'.pool == sh.pool && |sh'.owners| == |sh'.history|
    requires |sh'.history| == |sh.history| + 1 && sh'.history[..|sh.history|] == sh.history
    requires var Event(op, reply) := sh'.history[|sh.history|]; Apply(Abstract(sh), op) == (Abstract(sh'), reply)
    ensures Linear(sh')
  {
  }

  lemma CreateEffectApplies(sh: Shared, th: Thread, t: nat, c: Choice)
    requires Data(sh) && PointerValid(sh, th) && th.request.CreateRequest? && Control(th)
    requires Locks(sh, th, t) && Critical(sh, th) && TakesEffect(sh, th)
    requires Data(StepCreate(sh, th, t, c).0)
    ensures var sh' := StepCreate(sh, th, t, c).0;
            var Event(op, reply) := sh'.history[|sh.history|];
            Apply(Abstract(sh), op) == (Abstract(sh'), reply)
  {
    hide NoRepeats;
    var sh' := StepCreate(sh, th, t, c).0;
    if th.pc.CreateStore? {
      assert sh.pool[|sh.heap|..] == [th.pc.ip] + sh'.pool[|sh'.heap|..];
      assert Abstract(sh').live == Abstract(sh).live[th.imsi := sh'.heap[|sh.heap|].identity];
    }
  }

  lemma DeleteEffectApplies(sh: Shared, th: Thread, t: nat, c: Choice)
    requires Data(sh) && PointerValid(sh, th) && th.request.DeleteRequest? && Control(th)
    requires Locks(sh, th, t) && TakesEffect(sh, th)
    requires Data(StepDelete(sh, th, t, c).0)
    ensures var sh' := StepDelete(sh, th, t, c).0;
            var Event(op, reply) := sh'.history[|sh.history|];
            Apply(Abstract(sh), op) == (Abstract(sh'), reply)
  {
    hide NoRepeats;
    var sh' := StepDelete(sh, th, t, c).0;
    if th.pc.DeleteRemove? {
      assert Abstract(sh').live == Abstract(sh).live - {th.imsi};
    }
  }

  // All of it together.

  ghost predicate World(sh: Shared) {
    Data(sh) && Linear(sh) && Reported(sh)
  }

  ghost predicate Good(sh: Shared, th: Thread, t: nat) {
    && PointerValid(sh, th) && Locks(sh, th, t) && Control(th) && Critical(sh, th)
    && Spans(sh, th, t) && Replied(sh, th) && Announcing(sh, th)
  }

  lemma QuietCreateKeepsTable(sh: Shared, th: Thread, t: nat, c: Choice)
    requires MapValid(sh) && PointerValid(sh, th) && th.request.CreateRequest? && !TakesEffect(sh, th)
    ensures var sh' := StepCreate(sh, th, t, c).0; |sh'.heap| == |sh.heap| && sh'.sessions == sh.sessions
  {
  }

  lemma CreateKeepsAll(sh: Shared, th: Thread, t: nat, c: Choice)
    requires World(sh) && Good(sh, th, t) && th.request.CreateRequest?
    ensures var (sh', th') := StepCreate(sh, th, t, c); World(sh') && Good(sh', th', t) && Guarantee(sh, sh', t)
  {
    hide Locks, Control, Critical, Spans, Replied, Announcing, Reported, StepCreate, Abstract, NoRepeats;
    var (sh', th') := StepCreate(sh, th, t, c);
    CreateGuarantee(sh, th, t, c);
    CreateKeepsLocks(sh, th, t, c);
    CreateShape(sh, th, t, c);
    if th.pc.CreateStore? {
      StoreKeepsData(sh, th, t, c);
    } else if th.pc.CreateActivate? || th.pc.CreateTouch? {
      ActivateKeepsData(sh, th, t, c);
    } else {
      CreateKeepsData(sh, th, t, c);
      CreateKeepsCritical(sh, th, t, c);
    }
    KeepsSpans(sh, th, sh', th', t);
    CreateKeepsReported(sh, th, t, c);
    if TakesEffect(sh, th) {
      CreateEffectReplies(sh, th, t, c);
      CreateEffectApplies(sh, th, t, c);
      EffectKeepsLinear(sh, sh');
    } else {
      RepliedFrame(sh, th, sh', th');
      QuietCreateKeepsTable(sh, th, t, c);
      QuietKeepsLinear(sh, sh');
    }
  }

  lemma QuietDeleteKeepsTable(sh: Shared, th: Thread, t: nat, c: Choice)
    requires MapValid(sh) && PointerValid(sh, th) && th.request.DeleteRequest? && !TakesEffect(sh, th)
    ensures var sh' := StepDelete(sh, th, t, c).0; |sh'.heap| == |sh.heap| && sh'.sessions == sh.sessions
  {
  }

  lemma DeleteKeepsAll(sh: Shared, th: Thread, t: nat, c: Choice)
    requires World(sh) && Good(sh, th, t) && th.request.DeleteRequest?
    ensures var (sh', th') := StepDelete(sh, th, t, c); World(sh') && Good(sh', th', t) && Guarantee(sh, sh', t)
  {
    hide Locks, Control, Critical, Spans, Replied, Announcing, Reported, StepDelete, Abstract, NoRepeats;
    var (sh', th') := StepDelete(sh, th, t, c);
    DeleteGuarantee(sh, th, t, c);
    DeleteKeepsLocks(sh, th, t, c);
    DeleteShape(sh, th, t, c);
    DeleteKeepsData(sh, th, t, c);
    KeepsSpans(sh, th, sh', th', t);
    DeleteKeepsReported(sh, th, t, c);
    if TakesEffect(sh, th) {
      DeleteEffectReplies(sh, th, t, c);
      DeleteEffectApplies(sh, th, t, c);
      EffectKeepsLinear(sh, sh');
    } else {
      RepliedFrame(sh, th, sh', th');
      QuietDeleteKeepsTable(sh, th, t, c);
      QuietKeepsLinear(sh, sh');
    }
  }

  /** No thread's assertion is disturbed by a step of another thread. */
  lemma Undisturbed(sh: Shared, sh': Shared, t: nat, th2: Thread, t2: nat)
    requires Guarantee(sh, sh', t) && t != t2 && Good(sh, th2, t2)
    ensures Good(sh', th2, t2)
  {
    hide Control, Replied, Announced;
    RepliedFrame(sh, th2, sh', th2);
    AnnouncedGrows(sh.log, sh'.log);
    assert t2 in sh'.readers <==> t2 in sh'.readers - {t};
    assert t2 in sh.readers <==> t2 in sh.readers - {t};
  }

  /** Every event of the history is one call of one thread. */
  ghost predicate Owned(s: State) {
    forall p :: 0 <= p < |s.shared.owners| ==>
      && s.shared.owners[p].0 < |s.threads|
      && s.shared.owners[p].1 < |s.threads[s.shared.owners[p].0].points|
      && s.threads[s.shared.owners[p].0].points[s.shared.owners[p].1] == p
  }

  /** Locks are held by threads of the run; as meant, no thread takes the mutex a second time. */
  ghost predicate Holders(s: State) {
    && (s.shared.writer.Some? ==> s.shared.writer.value < |s.threads|)
    && (forall r :: r in s.shared.readers ==> r < |s.threads|)
    && (s.shared.reading.Meant? ==> forall t :: 0 <= t < |s.threads| ==> !s.threads[t].pc.AllocateLock?)
  }

  ghost predicate Invariant(s: State) {
    && World(s.shared) && Owned(s) && Holders(s)
    && (forall t :: 0 <= t < |s.threads| ==> Good(s.shared, s.threads[t], t))
  }

  lemma OwnedKept(s: State, t: nat, sh': Shared, th': Thread)
    requires t < |s.threads| && Owned(s) && |s.shared.owners| == |s.shared.history|
    requires Quiet(s.shared, s.threads[t], sh', th') || Effect(s.shared, s.threads[t], sh', th', t)
    ensures Owned(State(sh', s.threads[t := th']))
  {
  }

  lemma TakesNoSecondLock(sh: Shared, th: Thread, t: nat, c: Choice)
    requires MapValid(sh) && PointerValid(sh, th) && sh.reading.Meant? && !th.pc.AllocateLock?
    ensures !Step(sh, th, t, c).1.pc.AllocateLock?
  {
  }

  lemma HoldersKept(s: State, t: nat, sh': Shared, th': Thread)
    requires t < |s.threads| && Holders(s) && Guarantee(s.shared, sh', t)
    requires s.shared.reading.Meant? ==> !th'.pc.AllocateLock?
    ensures Holders(State(sh', s.threads[t := th']))
  {
    forall r | r in sh'.readers ensures r < |s.threads| {
      if r != t { assert r in sh'.readers - {t}; }
    }
  }

  lemma NextKeepsInvariant(s: State, c: Choice)
    requires PointersValid(s) && Invariant(s)
    ensures Invariant(Next(s, c))
    ensures c.thread < |s.threads| ==> Guarantee(s.shared, Next(s, c).shared, c.thread)
  {
    if c.thread < |s.threads| {
      var t, s' := c.thread, Next(s, c);
      var th := s.threads[t];
      if th.request.CreateRequest? {
        CreateKeepsAll(s.shared, th, t, c);
        CreateShape(s.shared, th, t, c);
      } else {
        DeleteKeepsAll(s.shared, th, t, c);
        DeleteShape(s.shared, th, t, c);
      }
      OwnedKept(s, t, s'.shared, s'.threads[t]);
      if s.shared.reading.Meant? { TakesNoSecondLock(s.shared, th, t, c); }
      HoldersKept(s, t, s'.shared, s'.threads[t]);
      forall t2 | 0 <= t2 < |s'.threads| ensures Good(s'.shared, s'.threads[t2], t2) {
        if t2 != t { Undisturbed(s.shared, s'.shared, t, s.threads[t2], t2); }
      }
    }
  }

  lemma InitialInvariant(s: State)
    requires Initial(s)
    ensures PointersValid(s) && Invariant(s)
  {
  }

  lemma {:induction false} RunKeepsInvariant(s: State, schedule: seq<Choice>)
    requires PointersValid(s) && Invariant(s)
    ensures Invariant(Run(s, schedule))
  {
    if schedule == [] {
    } else {
      var n := |schedule| - 1;
      RunKeepsInvariant(s, schedule[..n]);
      NextKeepsInvariant(Run(s, schedule[..n]), schedule[n]);
    }
  }
}
