/**
 The two GTP-C handlers of cmd/smf/main.go as threads over one session manager, one shared
 access or lock operation a step. Any number of handlers run; a schedule says which thread
 moves next. A thread that has to wait for the lock stays where it is when it is scheduled.
 */
module SmfHandlers {
  import opened Wrappers
  import opened AddressPool
  import opened SmfSpec
  import opened InMemorySmf

  /**
   allocateIP takes the manager's mutex although createSession holds it. AsWritten keeps that
   second acquisition; Meant runs the body of allocateIP under the lock of its caller.
   */
  datatype Reading = AsWritten | Meant

  datatype Request =
    | CreateRequest(imsi: Option<Imsi>, teid: nat, sequence: nat, peer: string)
    | DeleteRequest(imsi: Option<Imsi>, teid: nat, sequence: nat)

  /** A session object. Other code names it by its index on the heap. */
  datatype Record = Record(identity: Identity, bearerID: nat, qci: nat, arp: nat, lastUpdated: nat, state: SessionState)

  datatype PC =
    // createSession and the rest of the create handler
    | CreateEntry
    | CreateLock
    | CreateLookup
    | AllocateLock
    | AllocateRead
    | AllocateBump(ip: Address)
    | CreateStore(ip: Address)
    | CreateUnlock(found: Option<nat>)
    | CreateRespond(session: nat)
    | CreateActivate(session: nat)
    | CreateTouch(session: nat)
    // getSession, the response and deleteSession
    | DeleteEntry
    | DeleteReadLock
    | DeleteRead
    | DeleteReadUnlock(found: Option<nat>)
    | DeleteRespond(session: nat)
    | DeleteLock(session: nat)
    | DeleteRemove(session: nat)
    | DeleteUnlock(session: nat)
    | Done(outcome: Outcome, found: Option<nat>)

  /** calls and points: how long the history was when a manager call began and took effect. */
  datatype Thread = Thread(request: Request, imsi: Imsi, pc: PC, calls: seq<nat>, points: seq<nat>)

  /**
   A response sent, with the request it answers, the session it was built from, the thread that sent
   it, and how long the history was by then.
   */
  datatype Sent = Sent(response: Response, request: Request, session: nat, sender: nat, after: nat)

  datatype Shared = Shared(
    reading: Reading,
    pool: seq<Address>,
    sessions: map<Imsi, nat>,
    heap: seq<Record>,
    nextIPIndex: nat,
    writer: Option<nat>,
    readers: set<nat>,
    log: seq<Sent>,
    history: seq<Event>,
    owners: seq<(nat, nat)>)

  datatype State = State(shared: Shared, threads: seq<Thread>)

  /** Which thread moves, what its clock shows, and whether a send would get through. */
  datatype Choice = Choice(thread: nat, now: nat, sendOk: bool)

  function Pointer(pc: PC): Option<nat> {
    match pc
    case CreateUnlock(found) => found
    case DeleteReadUnlock(found) => found
    case Done(_, found) => found
    case CreateRespond(session) => Some(session)
    case CreateActivate(session) => Some(session)
    case CreateTouch(session) => Some(session)
    case DeleteRespond(session) => Some(session)
    case DeleteLock(session) => Some(session)
    case DeleteRemove(session) => Some(session)
    case DeleteUnlock(session) => Some(session)
    case _ => None
  }

  /** Go keeps every pointer valid: what a thread or the map refers to is on the heap. */
  predicate PointerValid(sh: Shared, th: Thread) {
    Pointer(th.pc).Some? ==> Pointer(th.pc).value < |sh.heap|
  }

  predicate MapValid(sh: Shared) {
    forall imsi :: imsi in sh.sessions ==> sh.sessions[imsi] < |sh.heap|
  }

  predicate PointersValid(s: State) {
    MapValid(s.shared) && forall t :: 0 <= t < |s.threads| ==> PointerValid(s.shared, s.threads[t])
  }

  predicate LockFree(sh: Shared) {
    sh.writer.None? && sh.readers == {}
  }

  function Goto(th: Thread, pc: PC): Thread {
    th.(pc := pc)
  }

  function Call(sh: Shared, th: Thread, pc: PC): Thread {
    th.(pc := pc, calls := th.calls + [|sh.history|])
  }

  /** The manager call that thread t is in takes effect here, with this reply. */
  function TakeEffect(sh: Shared, th: Thread, t: nat, pc: PC, op: Op, reply: Reply): (Shared, Thread) {
    (sh.(history := sh.history + [Event(op, reply)], owners := sh.owners + [(t, |th.points|)]),
     th.(pc := pc, points := th.points + [|sh.history|]))
  }

  function StepCreate(sh: Shared, th: Thread, t: nat, c: Choice): (r: (Shared, Thread))
    requires MapValid(sh) && PointerValid(sh, th) && th.request.CreateRequest?
    ensures MapValid(r.0) && PointerValid(r.0, r.1) && |sh.heap| <= |r.0.heap|
  {
    var op := Create(th.imsi, th.request.teid, th.request.peer, c.now);
    match th.pc
    case CreateEntry =>
      if th.request.imsi.None? then (sh, Goto(th, Done(MissingIMSI, None)))
      else (sh, Call(sh, th.(imsi := th.request.imsi.value), CreateLock))
    case CreateLock =>
      if LockFree(sh) then (sh.(writer := Some(t)), Goto(th, CreateLookup)) else (sh, th)
    case CreateLookup =>
      if th.imsi in sh.sessions then
        var k := sh.sessions[th.imsi];
        TakeEffect(sh, th, t, CreateUnlock(Some(k)), op, Existing(sh.heap[k].identity))
      else
        (sh, Goto(th, if sh.reading.AsWritten? then AllocateLock else AllocateRead))
    case AllocateLock =>
      if LockFree(sh) then (sh.(writer := Some(t)), Goto(th, AllocateRead)) else (sh, th)
    case AllocateRead =>
      if sh.nextIPIndex >= |sh.pool| then TakeEffect(sh, th, t, CreateUnlock(None), op, NoAddress)
      else (sh, Goto(th, AllocateBump(sh.pool[sh.nextIPIndex])))
    case AllocateBump(ip) =>
      (sh.(nextIPIndex := sh.nextIPIndex + 1), Goto(th, CreateStore(ip)))
    case CreateStore(ip) =>
      var identity := Identity(th.imsi, ip, th.request.teid, th.request.peer, c.now);
      var r := Record(identity, DEFAULT_BEARER, DEFAULT_QCI, DEFAULT_ARP, c.now, INITIALIZING);
      TakeEffect(sh.(heap := sh.heap + [r], sessions := sh.sessions[th.imsi := |sh.heap|]), th, t,
                 CreateUnlock(Some(|sh.heap|)), op, New(identity))
    case CreateUnlock(found) =>
      (sh.(writer := None),
       Goto(th, if found.Some? then CreateRespond(found.value) else Done(NoIPsAvailable, None)))
    case CreateRespond(k) =>
      if !c.sendOk then (sh, Goto(th, Done(SendFailed, Some(k))))
      else
        var r := sh.heap[k];
        var response := CreateAccepted(th.request.teid, th.request.sequence, th.imsi, r.identity.teid,
                                       r.identity.address, r.bearerID, r.qci, r.arp);
        (sh.(log := sh.log + [Sent(response, th.request, k, t, |sh.history|)]), Goto(th, CreateActivate(k)))
    case CreateActivate(k) =>
      (sh.(heap := sh.heap[k := sh.heap[k].(state := ACTIVE)]), Goto(th, CreateTouch(k)))
    case CreateTouch(k) =>
      (sh.(heap := sh.heap[k := sh.heap[k].(lastUpdated := c.now)]), Goto(th, Done(Accepted, Some(k))))
    case _ => (sh, th)
  }

  function StepDelete(sh: Shared, th: Thread, t: nat, c: Choice): (r: (Shared, Thread))
    requires MapValid(sh) && PointerValid(sh, th) && th.request.DeleteRequest?
    ensures MapValid(r.0) && PointerValid(r.0, r.1) && |sh.heap| <= |r.0.heap|
  {
    match th.pc
    case DeleteEntry =>
      if th.request.imsi.None? then (sh, Goto(th, Done(MissingIMSI, None)))
      else (sh, Call(sh, th.(imsi := th.request.imsi.value), DeleteReadLock))
    case DeleteReadLock =>
      if sh.writer.None? then (sh.(readers := sh.readers + {t}), Goto(th, DeleteRead)) else (sh, th)
    case DeleteRead =>
      if th.imsi in sh.sessions then
        var k := sh.sessions[th.imsi];
        TakeEffect(sh, th, t, DeleteReadUnlock(Some(k)), Get(th.imsi), Found(sh.heap[k].identity))
      else
        TakeEffect(sh, th, t, DeleteReadUnlock(None), Get(th.imsi), NotFound)
    case DeleteReadUnlock(found) =>
      (sh.(readers := sh.readers - {t}),
       Goto(th, if found.Some? then DeleteRespond(found.value) else Done(SessionNotFound, None)))
    case DeleteRespond(k) =>
      if !c.sendOk then (sh, Goto(th, Done(SendFailed, Some(k))))
      else
        var response := DeleteAccepted(th.request.teid, th.request.sequence, th.imsi);
        (sh.(log := sh.log + [Sent(response, th.request, k, t, |sh.history|)]), Call(sh, th, DeleteLock(k)))
    case DeleteLock(k) =>
      if LockFree(sh) then (sh.(writer := Some(t)), Goto(th, DeleteRemove(k))) else (sh, th)
    case DeleteRemove(k) =>
      TakeEffect(sh.(sessions := sh.sessions - {th.imsi}), th, t, DeleteUnlock(k), Delete(th.imsi), Deleted)
    case DeleteUnlock(k) =>
      (sh.(writer := None), Goto(th, Done(Accepted, Some(k))))
    case _ => (sh, th)
  }

  function Step(sh: Shared, th: Thread, t: nat, c: Choice): (r: (Shared, Thread))
    requires MapValid(sh) && PointerValid(sh, th)
    ensures MapValid(r.0) && PointerValid(r.0, r.1) && |sh.heap| <= |r.0.heap|
  {
    if th.request.CreateRequest? then StepCreate(sh, th, t, c) else StepDelete(sh, th, t, c)
  }

  function Next(s: State, c: Choice): (s': State)
    requires PointersValid(s)
    ensures PointersValid(s') && |s'.threads| == |s.threads|
  {
    if c.thread >= |s.threads| then s
    else
      var (sh, th) := Step(s.shared, s.threads[c.thread], c.thread, c);
      State(sh, s.threads[c.thread := th])
  }

  function Run(s: State, schedule: seq<Choice>): (s': State)
    requires PointersValid(s)
    ensures PointersValid(s') && |s'.threads| == |s.threads|
  {
    if schedule == [] then s else Next(Run(s, schedule[..|schedule| - 1]), schedule[|schedule| - 1])
  }

  lemma {:induction false} RunAppend(s: State, first: seq<Choice>, second: seq<Choice>)
    requires PointersValid(s)
    ensures Run(s, first + second) == Run(Run(s, first), second)
  {
    hide Next, PointersValid;
    if second == [] {
      assert first + second == first;
    } else {
      var n := |second| - 1;
      RunAppend(s, first, second[..n]);
      assert (first + second)[..|first + second| - 1] == first + second[..n];
    }
  }

  /** Start-up: requests wait, nothing is allocated, and the pool names no address twice. */
  ghost predicate Initial(s: State) {
    && s.shared.sessions == map[] && s.shared.heap == [] && s.shared.nextIPIndex == 0 && LockFree(s.shared)
    && s.shared.log == [] && s.shared.history == [] && s.shared.owners == []
    && NoRepeats(s.shared.pool)
    && (forall t :: 0 <= t < |s.threads| ==> NotStarted(s.threads[t]))
  }

  predicate NotStarted(th: Thread) {
    th.calls == [] && th.points == [] && th.pc == if th.request.CreateRequest? then CreateEntry else DeleteEntry
  }

  /** The atomic table that the map of pointers, the heap and the slice stand for. */
  function Abstract(sh: Shared): Table
    requires MapValid(sh) && |sh.heap| <= |sh.pool|
  {
    Table(map imsi | imsi in sh.sessions :: sh.heap[sh.sessions[imsi]].identity, sh.pool[|sh.heap|..])
  }
}
