/**
 Create, modify and delete handlers of pkg/smf/session.go running at once. The manager's mutex is
 never taken, so every read, local change and write of a record is a step of its own.
 */
module RedisHandlers {
  import opened Wrappers
  import opened RedisSpec

  datatype Call =
    | CreateCall(imsi: Imsi, teid: nat, amfAddr: string)
    | ModifyCall(imsi: Imsi)
    | DeleteCall(imsi: Imsi)

  /** Reading, minting a session, or about to write the record in hand; a finished call keeps its result. */
  datatype PC =
    | Reading
    | Minting
    | Writing(record: Record)
    | Finished(result: Option<Record>)

  datatype Thread = Thread(call: Call, pc: PC)

  /** One CreateSession call: who made it and what it fixed. */
  datatype Mint = Mint(thread: nat, identity: Identity)

  datatype World = World(store: Store, mints: seq<Mint>, threads: seq<Thread>)

  datatype Choice = Choice(thread: nat, now: nat, readOk: bool, write: Write)

  function Goto(w: World, t: nat, pc: PC): World
    requires t < |w.threads|
  {
    w.(threads := w.threads[t := w.threads[t].(pc := pc)])
  }

  /** SessionIDs come from a source that never repeats: the number of sessions minted so far. */
  function Next(w: World, c: Choice): (w': World)
    ensures |w'.threads| == |w.threads|
  {
    if c.thread >= |w.threads| then w
    else
      var t, th := c.thread, w.threads[c.thread];
      var found := Lookup(w.store, th.call.imsi, c.now, c.readOk);
      match (th.call, th.pc)
      case (CreateCall(_, _, _), Reading) =>
        Goto(w, t, if found.Some? then Finished(found) else Minting)
      case (CreateCall(imsi, teid, amfAddr), Minting) =>
        var r := Minted(imsi, teid, |w.mints|, c.now, amfAddr);
        Goto(w.(mints := w.mints + [Mint(t, r.identity)]), t, Writing(r))
      case (CreateCall(_, _, _), Writing(r)) =>
        Goto(w.(store := Put(w.store, r, c.now, c.write)), t, Finished(if c.write.Done? then Some(r) else None))
      case (ModifyCall(_), Reading) =>
        Goto(w, t, if found.None? then Finished(None)
                   else Writing(found.value.(state := MODIFYING, lastUpdated := c.now)))
      case (ModifyCall(_), Writing(r)) =>
        var r' := r.(lastUpdated := c.now);
        Goto(w.(store := Put(w.store, r', c.now, c.write)), t, Finished(if c.write.Done? then Some(r') else None))
      case (DeleteCall(_), Reading) =>
        Goto(w, t, if found.None? then Finished(None)
                   else Writing(found.value.(state := DELETING, lastUpdated := c.now)))
      case (DeleteCall(imsi), Writing(r)) =>
        Goto(w.(store := Remove(w.store, imsi, c.write)), t, Finished(if c.write.Done? then Some(r) else None))
      case _ => w
  }

  function Run(w: World, schedule: seq<Choice>): (w': World)
    ensures |w'.threads| == |w.threads|
    decreases schedule
  {
    if schedule == [] then w else Run(Next(w, schedule[0]), schedule[1..])
  }

  ghost predicate Initial(w: World) {
    w.store == map[] && w.mints == [] && forall t :: 0 <= t < |w.threads| ==> w.threads[t].pc == Reading
  }

  // Identities.

  /** The record carries, as a whole, what one CreateSession call fixed. */
  predicate Genuine(mints: seq<Mint>, r: Record) {
    r.identity.sessionID < |mints| && mints[r.identity.sessionID].identity == r.identity
  }

  ghost predicate MintsValid(w: World) {
    forall i :: 0 <= i < |w.mints| ==>
      && w.mints[i].identity.sessionID == i && w.mints[i].thread < |w.threads|
      && var call := w.threads[w.mints[i].thread].call;
      && call.CreateCall? && call.imsi == w.mints[i].identity.imsi
      && call.teid == w.mints[i].identity.teid && call.amfAddr == w.mints[i].identity.amfAddr
  }

  ghost predicate StoreValid(w: World) {
    Keyed(w.store) &&
    forall key :: key in w.store ==>
      Genuine(w.mints, w.store[key].record) && w.store[key].record.state in {INITIALIZING, MODIFYING}
  }

  ghost predicate ThreadValid(w: World, t: nat)
    requires t < |w.threads|
  {
    var th := w.threads[t];
    match th.pc
    case Writing(r) =>
      && Genuine(w.mints, r) && r.identity.imsi == th.call.imsi
      && (th.call.CreateCall? ==> w.mints[r.identity.sessionID].thread == t)
      && r.state == match th.call { case CreateCall(_, _, _) => INITIALIZING case ModifyCall(_) => MODIFYING case DeleteCall(_) => DELETING }
    case Finished(Some(r)) => Genuine(w.mints, r) && r.identity.imsi == th.call.imsi
    case _ => true
  }

  ghost predicate Valid(w: World) {
    MintsValid(w) && StoreValid(w) && forall t :: 0 <= t < |w.threads| ==> ThreadValid(w, t)
  }

  lemma KeyInjectiveIn(store: Store, imsi: Imsi)
    requires Keyed(store)
    ensures Key(imsi) in store ==> store[Key(imsi)].record.identity.imsi == imsi
  {
    if Key(imsi) in store { KeyInjective(store[Key(imsi)].record.identity.imsi, imsi); }
  }

  lemma NextKeepsStore(w: World, c: Choice)
    requires Valid(w)
    ensures StoreValid(Next(w, c))
  {
    if c.thread < |w.threads| { assert ThreadValid(w, c.thread); }
  }

  lemma NextKeepsMints(w: World, c: Choice)
    requires MintsValid(w)
    ensures MintsValid(Next(w, c)) && w.mints <= Next(w, c).mints
  {
  }

  lemma NextKeepsThreads(w: World, c: Choice)
    requires Valid(w)
    ensures MintsValid(Next(w, c)) && w.mints <= Next(w, c).mints
    ensures forall t :: 0 <= t < |w.threads| ==> ThreadValid(Next(w, c), t)
  {
    NextKeepsMints(w, c);
    if c.thread < |w.threads| {
      KeyInjectiveIn(w.store, w.threads[c.thread].call.imsi);
      forall t | 0 <= t < |w.threads| ensures ThreadValid(Next(w, c), t) {
        assert ThreadValid(w, t);
        if t != c.thread { assert Next(w, c).threads[t] == w.threads[t]; }
      }
    }
  }

  lemma {:induction false} RunKeepsValid(w: World, schedule: seq<Choice>)
    requires Valid(w)
    ensures Valid(Run(w, schedule)) && w.mints <= Run(w, schedule).mints
    decreases schedule
  {
    if schedule == [] {
    } else {
      NextKeepsStore(w, schedule[0]);
      NextKeepsThreads(w, schedule[0]);
      RunKeepsValid(Next(w, schedule[0]), schedule[1..]);
    }
  }

  /** The i-th choice is the step of a create that mints this identity, at its clock reading. */
  predicate MintedAt(w: World, schedule: seq<Choice>, i: nat, identity: Identity) {
    && i < |schedule| && schedule[i].thread < |w.threads|
    && var m := Run(w, schedule[..i]);
    && m.threads[schedule[i].thread].pc == Minting
    && m.threads[schedule[i].thread].call == CreateCall(identity.imsi, identity.teid, identity.amfAddr)
    && identity.sessionID == |m.mints| && identity.createdAt == schedule[i].now
  }

  lemma Later(w: World, schedule: seq<Choice>, i: nat)
    requires schedule != [] && i < |schedule|
    ensures Run(w, schedule[..i + 1]) == Run(Next(w, schedule[0]), schedule[1..][..i])
  {
    assert schedule[..i + 1][1..] == schedule[1..][..i];
  }

  lemma {:induction false} EveryMintHasItsStep(w: World, schedule: seq<Choice>, k: nat) returns (i: nat)
    requires Valid(w) && |w.mints| <= k < |Run(w, schedule).mints|
    ensures MintedAt(w, schedule, i, Run(w, schedule).mints[k].identity)
    decreases schedule
  {
    var w1 := Next(w, schedule[0]);
    NextKeepsStore(w, schedule[0]);
    NextKeepsThreads(w, schedule[0]);
    if k < |w1.mints| {
      RunKeepsValid(w1, schedule[1..]);
      assert schedule[..0] == [] && Run(w, schedule[..0]) == w;
      i := 0;
    } else {
      var j := EveryMintHasItsStep(w1, schedule[1..], k);
      Later(w, schedule, j);
      i := j + 1;
    }
  }

  /**
   However reads and writes interleave and fail, a stored record never mixes two sessions: its
   IMSI, SessionID, TEID, AMF address and creation time are together those of one step of one
   create for that IMSI, and the time is that step's clock reading; it is INITIALIZING or MODIFYING.
   */
  lemma RecordsAreNeverMixed(w: World, schedule: seq<Choice>, key: string)
    requires Initial(w) && key in Run(w, schedule).store
    ensures var r := Run(w, schedule).store[key].record;
            && key == Key(r.identity.imsi) && r.state in {INITIALIZING, MODIFYING}
            && exists i :: MintedAt(w, schedule, i, r.identity)
  {
    RunKeepsValid(w, schedule);
    var i := EveryMintHasItsStep(w, schedule, Run(w, schedule).store[key].record.identity.sessionID);
  }

  /** So it is with what a handler returns, for the IMSI it was asked for; a SessionID stands for one identity everywhere. */
  lemma ResultsAreNeverMixed(w: World, schedule: seq<Choice>, t: nat, u: nat)
    requires Initial(w) && t < |w.threads| && u < |w.threads|
    requires var w' := Run(w, schedule); w'.threads[t].pc.Finished? && w'.threads[t].pc.result.Some?
    requires var w' := Run(w, schedule); w'.threads[u].pc.Finished? && w'.threads[u].pc.result.Some?
    ensures var w' := Run(w, schedule);
            var a, b := w'.threads[t].pc.result.value.identity, w'.threads[u].pc.result.value.identity;
            && a.imsi == w'.threads[t].call.imsi
            && (exists i :: MintedAt(w, schedule, i, a))
            && (a.sessionID == b.sessionID <==> a == b)
  {
    RunKeepsValid(w, schedule);
    var w' := Run(w, schedule);
    assert ThreadValid(w', t) && ThreadValid(w', u);
    var i := EveryMintHasItsStep(w, schedule, w'.threads[t].pc.result.value.identity.sessionID);
  }

  // One handler with nothing in between is the sequential operation.

  function RequestOf(call: Call, id: SessionID, c: Choice): Request {
    match call
    case CreateCall(imsi, teid, amfAddr) => Create(imsi, teid, amfAddr, id, c.now, c.readOk, c.write)
    case ModifyCall(imsi) => Modify(imsi, c.now, c.readOk, c.write)
    case DeleteCall(imsi) => Delete(imsi, c.now, c.readOk, c.write)
  }

  lemma ThreeSteps(w: World, c: Choice)
    ensures Run(w, [c, c, c]) == Next(Next(Next(w, c), c), c)
  {
    hide Next;
    assert [c, c, c][1..] == [c, c] && [c, c][1..] == [c] && [c][1..] == [];
    assert Run(w, [c, c, c]) == Run(Next(w, c), [c, c]) == Run(Next(Next(w, c), c), [c]) == Run(Next(Next(Next(w, c), c), c), []);
  }

  lemma AloneIsHandle(w: World, c: Choice)
    requires c.thread < |w.threads| && w.threads[c.thread].pc == Reading
    ensures var w' := Run(w, [c, c, c]);
            var (store, outcome) := Handle(w.store, RequestOf(w.threads[c.thread].call, |w.mints|, c));
            && w'.store == store && w'.threads[c.thread].pc.Finished?
            && (w'.threads[c.thread].pc.result.Some? <==> !outcome.NoSession? && !outcome.NotWritten?)
            && (outcome.Existing? || outcome.Created? ==> w'.threads[c.thread].pc.result == Some(outcome.record))
  {
    hide Run, Lookup, Put, Remove, Minted;
    ThreeSteps(w, c);
    var th, found := w.threads[c.thread], Lookup(w.store, w.threads[c.thread].call.imsi, c.now, c.readOk);
    var w1 := Next(w, c);
    if th.call.CreateCall? {
      assert found.None? ==> w1 == Goto(w, c.thread, Minting);
    } else {
      assert found.Some? ==> w1.threads[c.thread].pc.Writing?;
    }
    var w2 := Next(w1, c);
    assert found.Some? && !th.call.CreateCall? ==> w2.threads[c.thread].pc.Finished?;
  }

  // Records that come back, and records that overwrite newer ones.

  predicate NoCreates(w: World, schedule: seq<Choice>, imsi: Imsi) {
    forall i :: 0 <= i < |schedule| && schedule[i].thread < |w.threads| ==>
      !(w.threads[schedule[i].thread].call.CreateCall? && w.threads[schedule[i].thread].call.imsi == imsi)
  }

  /** The clock starts at now and does not go back. */
  predicate Onward(now: nat, schedule: seq<Choice>)
    decreases schedule
  {
    schedule == [] || (now <= schedule[0].now && Onward(schedule[0].now, schedule[1..]))
  }

  function EndTime(now: nat, schedule: seq<Choice>): nat
    decreases schedule
  {
    if schedule == [] then now else EndTime(schedule[0].now, schedule[1..])
  }

  /** What a read of the IMSI would find after the schedule. */
  function ReadAfter(w: World, schedule: seq<Choice>, imsi: Imsi, now: nat): Option<Record> {
    Lookup(Run(w, schedule).store, imsi, EndTime(now, schedule), true)
  }

  predicate PendingModify(w: World, imsi: Imsi) {
    exists t :: 0 <= t < |w.threads| && w.threads[t].call == ModifyCall(imsi) && w.threads[t].pc.Writing?
  }

  lemma CallsStay(w: World, c: Choice)
    ensures forall t :: 0 <= t < |w.threads| ==> Next(w, c).threads[t].call == w.threads[t].call
    ensures forall t :: 0 <= t < |w.threads| && t != c.thread ==> Next(w, c).threads[t] == w.threads[t]
  {
  }

  lemma {:induction false} RunKeepsCalls(w: World, schedule: seq<Choice>)
    ensures forall t :: 0 <= t < |w.threads| ==> Run(w, schedule).threads[t].call == w.threads[t].call
    decreases schedule
  {
    if schedule == [] {
    } else {
      CallsStay(w, schedule[0]);
      RunKeepsCalls(Next(w, schedule[0]), schedule[1..]);
    }
  }

  lemma AbsentStep(w: World, c: Choice, imsi: Imsi, now: nat)
    requires Valid(w) && now <= c.now && Lookup(w.store, imsi, now, true).None? && !PendingModify(w, imsi)
    requires c.thread < |w.threads| ==> !(w.threads[c.thread].call.CreateCall? && w.threads[c.thread].call.imsi == imsi)
    ensures Lookup(Next(w, c).store, imsi, c.now, true).None? && !PendingModify(Next(w, c), imsi)
  {
    if c.thread < |w.threads| {
      var th := w.threads[c.thread];
      assert ThreadValid(w, c.thread);
      KeyInjective(th.call.imsi, imsi);
      var w' := Next(w, c);
      forall t | 0 <= t < |w'.threads| && w'.threads[t].call == ModifyCall(imsi) ensures !w'.threads[t].pc.Writing? {
        if t != c.thread { assert w'.threads[t] == w.threads[t]; }
      }
    }
  }

  lemma {:induction false} StaysAbsent(w: World, schedule: seq<Choice>, imsi: Imsi, now: nat)
    requires Valid(w) && Lookup(w.store, imsi, now, true).None? && !PendingModify(w, imsi)
    requires NoCreates(w, schedule, imsi) && Onward(now, schedule)
    ensures ReadAfter(w, schedule, imsi, now).None?
    decreases schedule
  {
    if schedule == [] {
    } else {
      var c, w' := schedule[0], Next(w, schedule[0]);
      assert NoCreates(w', schedule[1..], imsi) by { CallsStay(w, c); }
      AbsentStep(w, c, imsi, now);
      NextKeepsStore(w, c);
      NextKeepsThreads(w, c);
      StaysAbsent(w', schedule[1..], imsi, c.now);
    }
  }

  lemma WriteOfModify(w: World, t: nat, now: nat)
    requires Valid(w) && t < |w.threads| && w.threads[t].call.ModifyCall? && w.threads[t].pc.Writing?
    ensures var schedule, r := [Choice(t, now, true, Done)], w.threads[t].pc.record;
            && Onward(now, schedule) && NoCreates(w, schedule, w.threads[t].call.imsi)
            && ReadAfter(w, schedule, w.threads[t].call.imsi, now) == Some(r.(lastUpdated := now))
  {
    var c := Choice(t, now, true, Done);
    assert ThreadValid(w, t);
    assert [c][1..] == [] && Run(w, [c]) == Run(Next(w, c), []) == Next(w, c);
    assert EndTime(now, [c]) == EndTime(now, []) == now;
    StoredIsReadBack(w.store, w.threads[t].pc.record.(lastUpdated := now), now, Done, w.threads[t].call.imsi, now);
  }

  /**
   A record that cannot be read, deleted or expired, can be read again without any create exactly
   when some modify handler read it before and has not written yet.
   */
  lemma ComesBackOnlyThroughAPendingModify(w: World, imsi: Imsi, now: nat)
    requires Valid(w) && Lookup(w.store, imsi, now, true).None?
    ensures (exists schedule :: NoCreates(w, schedule, imsi) && Onward(now, schedule) && ReadAfter(w, schedule, imsi, now).Some?)
            <==> PendingModify(w, imsi)
  {
    if PendingModify(w, imsi) {
      var t :| 0 <= t < |w.threads| && w.threads[t].call == ModifyCall(imsi) && w.threads[t].pc.Writing?;
      WriteOfModify(w, t, now);
    } else {
      forall schedule | NoCreates(w, schedule, imsi) && Onward(now, schedule) ensures ReadAfter(w, schedule, imsi, now).None? {
        StaysAbsent(w, schedule, imsi, now);
      }
    }
  }

  /** A modify handler is about to write the record of another session than this one. */
  predicate StaleModify(w: World, imsi: Imsi, id: SessionID) {
    exists t :: 0 <= t < |w.threads| && w.threads[t].call == ModifyCall(imsi)
                && w.threads[t].pc.Writing? && w.threads[t].pc.record.identity.sessionID != id
  }

  predicate OnlySession(store: Store, imsi: Imsi, id: SessionID) {
    Key(imsi) in store ==> store[Key(imsi)].record.identity.sessionID == id
  }

  lemma OnlySessionStep(w: World, c: Choice, imsi: Imsi, id: SessionID)
    requires Valid(w) && OnlySession(w.store, imsi, id) && !StaleModify(w, imsi, id)
    requires c.thread < |w.threads| ==> !(w.threads[c.thread].call.CreateCall? && w.threads[c.thread].call.imsi == imsi)
    ensures OnlySession(Next(w, c).store, imsi, id) && !StaleModify(Next(w, c), imsi, id)
  {
    if c.thread < |w.threads| {
      var th := w.threads[c.thread];
      assert ThreadValid(w, c.thread);
      KeyInjective(th.call.imsi, imsi);
      var w' := Next(w, c);
      forall t | 0 <= t < |w'.threads| && w'.threads[t].call == ModifyCall(imsi) && w'.threads[t].pc.Writing?
        ensures w'.threads[t].pc.record.identity.sessionID == id
      {
        if t != c.thread { assert w'.threads[t] == w.threads[t]; }
      }
    }
  }

  lemma {:induction false} StaysTheOnlySession(w: World, schedule: seq<Choice>, imsi: Imsi, id: SessionID)
    requires Valid(w) && OnlySession(w.store, imsi, id) && !StaleModify(w, imsi, id) && NoCreates(w, schedule, imsi)
    ensures OnlySession(Run(w, schedule).store, imsi, id)
    decreases schedule
  {
    if schedule == [] {
    } else {
      var c, w' := schedule[0], Next(w, schedule[0]);
      assert NoCreates(w', schedule[1..], imsi) by { CallsStay(w, c); }
      OnlySessionStep(w, c, imsi, id);
      NextKeepsStore(w, c);
      NextKeepsThreads(w, c);
      StaysTheOnlySession(w', schedule[1..], imsi, id);
    }
  }

  /**
   A session on record can give way to another without any create exactly when some modify handler
   still holds the record of another session.
   */
  lemma OverwrittenOnlyByAStaleModify(w: World, imsi: Imsi, id: SessionID, now: nat)
    requires Valid(w) && Lookup(w.store, imsi, now, true).Some?
    requires Lookup(w.store, imsi, now, true).value.identity.sessionID == id
    ensures (exists schedule :: NoCreates(w, schedule, imsi) && Onward(now, schedule)
                                && ReadAfter(w, schedule, imsi, now).Some?
                                && ReadAfter(w, schedule, imsi, now).value.identity.sessionID != id)
            <==> StaleModify(w, imsi, id)
  {
    if StaleModify(w, imsi, id) {
      var t :| 0 <= t < |w.threads| && w.threads[t].call == ModifyCall(imsi)
               && w.threads[t].pc.Writing? && w.threads[t].pc.record.identity.sessionID != id;
      WriteOfModify(w, t, now);
    } else {
      forall schedule | NoCreates(w, schedule, imsi) ensures OnlySession(Run(w, schedule).store, imsi, id) {
        StaysTheOnlySession(w, schedule, imsi, id);
      }
    }
  }

  lemma {:induction false} RunLast(w: World, schedule: seq<Choice>, c: Choice)
    ensures Run(w, schedule + [c]) == Next(Run(w, schedule), c)
    decreases schedule
  {
    hide Next;
    if schedule == [] {
      assert [] + [c] == [c] && [c][1..] == [];
      assert Run(w, [c]) == Run(Next(w, c), []);
    } else {
      assert (schedule + [c])[1..] == schedule[1..] + [c];
      RunLast(Next(w, schedule[0]), schedule[1..], c);
    }
  }

  /** Attach, start of a modify, complete detach: the schedule up to the end of the detach. */
  lemma DetachDuringModify(w: World, imsi: Imsi) returns (schedule: seq<Choice>)
    requires |w.threads| >= 3 && w.store == map[] && w.mints == []
    requires w.threads[0] == Thread(CreateCall(imsi, 1, "amf"), Reading) && w.threads[1] == Thread(ModifyCall(imsi), Reading)
    requires w.threads[2] == Thread(DeleteCall(imsi), Reading)
    ensures var w', r := Run(w, schedule), Minted(imsi, 1, 0, 0, "amf");
            && w'.store == map[] && |w'.mints| == 1 && |w'.threads| == |w.threads|
            && w'.threads[1] == Thread(ModifyCall(imsi), Writing(r.(state := MODIFYING)))
            && w'.threads[2].pc.Finished? && w'.threads[2].pc.result.Some?
            && forall t :: 3 <= t < |w.threads| ==> w'.threads[t] == w.threads[t]
  {
    var c0, c1, c2 := Choice(0, 0, true, Done), Choice(1, 0, true, Done), Choice(2, 0, true, Done);
    var r := Minted(imsi, 1, 0, 0, "amf");
    var w1 := Next(w, c0);
    var w2 := Next(w1, c0);
    var w3 := Next(w2, c0);
    assert w3.store == map[Key(imsi) := Entry(r, TTL)];
    var w4 := Next(w3, c1);
    var w5 := Next(w4, c2);
    var w6 := Next(w5, c2);
    hide Next;
    RunLast(w, [], c0);
    RunLast(w, [] + [c0], c0);
    RunLast(w, [] + [c0] + [c0], c0);
    RunLast(w, [] + [c0] + [c0] + [c0], c1);
    RunLast(w, [] + [c0] + [c0] + [c0] + [c1], c2);
    RunLast(w, [] + [c0] + [c0] + [c0] + [c1] + [c2], c2);
    schedule := [] + [c0] + [c0] + [c0] + [c1] + [c2] + [c2];
  }

  /** It does happen: the modify ends after the confirmed detach and brings the record back. */
  lemma DeletedRecordComesBack(imsi: Imsi) returns (w: World, schedule: seq<Choice>)
    ensures Initial(w) && |w.threads| == 3 && w.threads[2].call == DeleteCall(imsi)
    ensures var w' := Run(w, schedule);
            && w'.threads[2].pc.Finished? && w'.threads[2].pc.result.Some?
            && Key(imsi) in w'.store && w'.store[Key(imsi)].record.identity.sessionID == 0 && |w'.mints| == 1
  {
    w := World(map[], [], [Thread(CreateCall(imsi, 1, "amf"), Reading), Thread(ModifyCall(imsi), Reading), Thread(DeleteCall(imsi), Reading)]);
    schedule := DetachDuringModify(w, imsi);
    RunLast(w, schedule, Choice(1, 0, true, Done));
    schedule := schedule + [Choice(1, 0, true, Done)];
  }

  /** And with a new attach before the modify ends, the old session overwrites the new one. */
  lemma NewerSessionIsOverwritten(imsi: Imsi) returns (w: World, schedule: seq<Choice>)
    ensures Initial(w) && |w.threads| == 4
    ensures var w' := Run(w, schedule);
            && w'.threads[3].pc.Finished? && w'.threads[3].pc.result.Some?
            && w'.threads[3].pc.result.value.identity.sessionID == 1
            && Key(imsi) in w'.store && w'.store[Key(imsi)].record.identity.sessionID == 0
  {
    var attach := Thread(CreateCall(imsi, 1, "amf"), Reading);
    w := World(map[], [], [attach, Thread(ModifyCall(imsi), Reading), Thread(DeleteCall(imsi), Reading), attach]);
    schedule := DetachDuringModify(w, imsi);
    var c1, c3 := Choice(1, 0, true, Done), Choice(3, 0, true, Done);
    var w1 := Run(w, schedule);
    var w2 := Next(w1, c3);
    var w3 := Next(w2, c3);
    var w4 := Next(w3, c3);
    var w5 := Next(w4, c1);
    hide Next;
    RunLast(w, schedule, c3);
    RunLast(w, schedule + [c3], c3);
    RunLast(w, schedule + [c3] + [c3], c3);
    RunLast(w, schedule + [c3] + [c3] + [c3], c1);
    schedule := schedule + [c3] + [c3] + [c3] + [c1];
  }

  // Several creates for one IMSI.

  /** Past the lookup that found nothing, before the write. */
  predicate UnderWay(th: Thread) {
    th.pc.Minting? || th.pc.Writing?
  }

  predicate Creates(th: Thread, imsi: Imsi) {
    th.call.CreateCall? && th.call.imsi == imsi
  }

  predicate Together(w: World, imsi: Imsi) {
    exists a, b :: 0 <= a < b < |w.threads| && Creates(w.threads[a], imsi) && UnderWay(w.threads[a])
                   && Creates(w.threads[b], imsi) && UnderWay(w.threads[b])
  }

  /** At some moment of the schedule two creates for the IMSI are past their lookup and have not written. */
  predicate Overlap(w: World, schedule: seq<Choice>, imsi: Imsi)
    decreases schedule
  {
    Together(w, imsi) || (schedule != [] && Overlap(Next(w, schedule[0]), schedule[1..], imsi))
  }

  /**
   No delete for the IMSI runs, and its creates take their steps within 24 h from start and fail in
   nothing. Modifies may come at any time and fail in any way; other IMSIs are free.
   */
  predicate Undeleted(w: World, schedule: seq<Choice>, imsi: Imsi, start: nat) {
    forall i :: 0 <= i < |schedule| && schedule[i].thread < |w.threads| && w.threads[schedule[i].thread].call.imsi == imsi ==>
      && !w.threads[schedule[i].thread].call.DeleteCall? && start <= schedule[i].now
      && (w.threads[schedule[i].thread].call.CreateCall? ==>
            schedule[i].readOk && schedule[i].write.Done? && schedule[i].now < start + TTL)
  }

  predicate AllFinished(w: World, imsi: Imsi) {
    forall t :: 0 <= t < |w.threads| && Creates(w.threads[t], imsi) ==> w.threads[t].pc.Finished?
  }

  predicate Returned(th: Thread, id: SessionID) {
    th.pc.Finished? && th.pc.result.Some? && th.pc.result.value.identity.sessionID == id
  }

  predicate AllReturned(w: World, imsi: Imsi, id: SessionID) {
    forall t :: 0 <= t < |w.threads| && Creates(w.threads[t], imsi) ==> Returned(w.threads[t], id)
  }

  lemma UndeletedStep(w: World, schedule: seq<Choice>, imsi: Imsi, start: nat)
    requires schedule != [] && Undeleted(w, schedule, imsi, start) && Valid(w)
    ensures Undeleted(Next(w, schedule[0]), schedule[1..], imsi, start) && Valid(Next(w, schedule[0]))
    ensures w.mints <= Next(w, schedule[0]).mints
  {
    CallsStay(w, schedule[0]);
    NextKeepsStore(w, schedule[0]);
    NextKeepsThreads(w, schedule[0]);
  }

  lemma {:induction false} FinishedForGood(w: World, schedule: seq<Choice>, t: nat)
    requires t < |w.threads| && w.threads[t].pc.Finished?
    ensures Run(w, schedule).threads[t] == w.threads[t]
    decreases schedule
  {
    if schedule == [] {
    } else {
      CallsStay(w, schedule[0]);
      FinishedForGood(Next(w, schedule[0]), schedule[1..], t);
    }
  }

  /** A create whose lookup found nothing returns the session it mints itself. */
  lemma {:induction false} MissReturnsOwnSession(w: World, schedule: seq<Choice>, imsi: Imsi, start: nat, t: nat)
    requires Valid(w) && Undeleted(w, schedule, imsi, start) && t < |w.threads|
    requires Creates(w.threads[t], imsi) && UnderWay(w.threads[t])
    requires Run(w, schedule).threads[t].pc.Finished?
    ensures var w' := Run(w, schedule);
            exists id: nat :: Returned(w'.threads[t], id) && id < |w'.mints| && w'.mints[id].thread == t
    decreases schedule
  {
    if schedule == [] {
    } else {
      var c, w1 := schedule[0], Next(w, schedule[0]);
      UndeletedStep(w, schedule, imsi, start);
      CallsStay(w, c);
      assert ThreadValid(w, t);
      if w1.threads[t].pc.Finished? {
        var id := w.threads[t].pc.record.identity.sessionID;
        FinishedForGood(w1, schedule[1..], t);
        RunKeepsValid(w1, schedule[1..]);
        assert Returned(w1.threads[t], id);
      } else {
        MissReturnsOwnSession(w1, schedule[1..], imsi, start, t);
      }
    }
  }

  /** Creates that overlap do not all return one session, whatever else goes on. */
  lemma {:induction false} OverlapSplits(w: World, schedule: seq<Choice>, imsi: Imsi, start: nat, id: SessionID)
    requires Valid(w) && Undeleted(w, schedule, imsi, start) && AllFinished(Run(w, schedule), imsi)
    requires Overlap(w, schedule, imsi)
    ensures !AllReturned(Run(w, schedule), imsi, id)
    decreases schedule
  {
    if Together(w, imsi) {
      var a, b :| 0 <= a < b < |w.threads| && Creates(w.threads[a], imsi) && UnderWay(w.threads[a])
                  && Creates(w.threads[b], imsi) && UnderWay(w.threads[b]);
      RunKeepsCalls(w, schedule);
      MissReturnsOwnSession(w, schedule, imsi, start, a);
      MissReturnsOwnSession(w, schedule, imsi, start, b);
    } else {
      UndeletedStep(w, schedule, imsi, start);
      OverlapSplits(Next(w, schedule[0]), schedule[1..], imsi, start, id);
    }
  }

  lemma OthersLeaveTheKey(w: World, c: Choice, imsi: Imsi)
    requires Valid(w) && c.thread < |w.threads| && w.threads[c.thread].call.imsi != imsi
    ensures Key(imsi) in Next(w, c).store <==> Key(imsi) in w.store
    ensures Key(imsi) in w.store ==> Next(w, c).store[Key(imsi)] == w.store[Key(imsi)]
  {
    assert ThreadValid(w, c.thread);
    KeyInjective(w.threads[c.thread].call.imsi, imsi);
  }

  /** Nothing on record yet, and no create has finished. */
  ghost predicate Fresh(w: World, imsi: Imsi, start: nat) {
    && Lookup(w.store, imsi, start, true).None? && !PendingModify(w, imsi)
    && forall t :: 0 <= t < |w.threads| && Creates(w.threads[t], imsi) ==> !w.threads[t].pc.Finished?
  }

  /** One session is on record until after start + 24 h, and it is the only one anybody has in hand. */
  ghost predicate Settled(w: World, imsi: Imsi, start: nat, id: SessionID) {
    && Key(imsi) in w.store && w.store[Key(imsi)].record.identity.sessionID == id
    && w.store[Key(imsi)].expiresAt >= start + TTL && !StaleModify(w, imsi, id)
    && forall t :: 0 <= t < |w.threads| && Creates(w.threads[t], imsi) ==>
         w.threads[t].pc.Reading? || Returned(w.threads[t], id)
  }

  lemma SettledStep(w: World, schedule: seq<Choice>, imsi: Imsi, start: nat, id: SessionID)
    requires schedule != [] && Valid(w) && Undeleted(w, schedule, imsi, start) && Settled(w, imsi, start, id)
    ensures Settled(Next(w, schedule[0]), imsi, start, id)
  {
    var c, w' := schedule[0], Next(w, schedule[0]);
    CallsStay(w, c);
    if c.thread < |w.threads| {
      assert ThreadValid(w, c.thread);
      if w.threads[c.thread].call.imsi != imsi { OthersLeaveTheKey(w, c, imsi); }
      forall t | 0 <= t < |w'.threads| && w'.threads[t].call == ModifyCall(imsi) && w'.threads[t].pc.Writing?
        ensures w'.threads[t].pc.record.identity.sessionID == id
      {
        if t != c.thread { assert w'.threads[t] == w.threads[t]; }
      }
    }
  }

  lemma {:induction false} SettledForGood(w: World, schedule: seq<Choice>, imsi: Imsi, start: nat, id: SessionID)
    requires Valid(w) && Undeleted(w, schedule, imsi, start) && Settled(w, imsi, start, id)
    ensures Settled(Run(w, schedule), imsi, start, id)
    decreases schedule
  {
    if schedule == [] {
    } else {
      SettledStep(w, schedule, imsi, start, id);
      UndeletedStep(w, schedule, imsi, start);
      SettledForGood(Next(w, schedule[0]), schedule[1..], imsi, start, id);
    }
  }

  /** The first write settles it, unless another create is under way at that moment. */
  lemma FreshStep(w: World, schedule: seq<Choice>, imsi: Imsi, start: nat)
    requires schedule != [] && Valid(w) && Undeleted(w, schedule, imsi, start) && Fresh(w, imsi, start) && !Together(w, imsi)
    ensures var w' := Next(w, schedule[0]); Fresh(w', imsi, start) || exists id: nat :: Settled(w', imsi, start, id)
  {
    var c, w' := schedule[0], Next(w, schedule[0]);
    CallsStay(w, c);
    if c.thread < |w.threads| {
      var th := w.threads[c.thread];
      assert ThreadValid(w, c.thread);
      if th.call.imsi != imsi {
        OthersLeaveTheKey(w, c, imsi);
        assert Fresh(w', imsi, start);
      } else if th.call.CreateCall? && th.pc.Writing? {
        assert Settled(w', imsi, start, th.pc.record.identity.sessionID);
      } else {
        assert Fresh(w', imsi, start);
      }
    }
  }

  lemma {:induction false} FreshWithoutOverlap(w: World, schedule: seq<Choice>, imsi: Imsi, start: nat)
    requires Valid(w) && Undeleted(w, schedule, imsi, start) && Fresh(w, imsi, start) && !Overlap(w, schedule, imsi)
    requires AllFinished(Run(w, schedule), imsi)
    ensures exists id: nat :: AllReturned(Run(w, schedule), imsi, id)
    decreases schedule
  {
    if schedule == [] {
      assert AllReturned(w, imsi, 0);
    } else {
      var w' := Next(w, schedule[0]);
      FreshStep(w, schedule, imsi, start);
      UndeletedStep(w, schedule, imsi, start);
      if id: nat :| Settled(w', imsi, start, id) {
        SettledForGood(w', schedule[1..], imsi, start, id);
        assert AllReturned(Run(w, schedule), imsi, id);
      } else {
        FreshWithoutOverlap(w', schedule[1..], imsi, start);
      }
    }
  }

  /**
   Any number of creates for a subscriber without a session, among any modifies for it and any
   requests for others, with no deletion for it, no create that fails and no expiry: they all return
   one session exactly when at no moment two of them are past their lookup and have not written.
   The mutex that is never taken would exclude just that.
   */
  lemma CreatesAgreeUnlessTheyOverlap(w: World, schedule: seq<Choice>, imsi: Imsi, start: nat)
    requires Valid(w) && Fresh(w, imsi, start) && Undeleted(w, schedule, imsi, start)
    requires AllFinished(Run(w, schedule), imsi)
    ensures (exists id: nat :: AllReturned(Run(w, schedule), imsi, id)) <==> !Overlap(w, schedule, imsi)
  {
    if Overlap(w, schedule, imsi) {
      forall id: nat ensures !AllReturned(Run(w, schedule), imsi, id) { OverlapSplits(w, schedule, imsi, start, id); }
    } else {
      FreshWithoutOverlap(w, schedule, imsi, start);
    }
  }

  /** It does happen, with nothing failing: two attach requests in step return two sessions. */
  lemma TwoCreatesTwoSessions(imsi: Imsi) returns (w: World, schedule: seq<Choice>)
    ensures Initial(w) && |w.threads| == 2 && w.threads[0].call == w.threads[1].call == CreateCall(imsi, 1, "amf")
    ensures var w' := Run(w, schedule); Returned(w'.threads[0], 0) && Returned(w'.threads[1], 1)
  {
    var attach := Thread(CreateCall(imsi, 1, "amf"), Reading);
    w := World(map[], [], [attach, attach]);
    var c0, c1 := Choice(0, 0, true, Done), Choice(1, 0, true, Done);
    var w1 := Next(w, c0);
    var w2 := Next(w1, c1);
    var w3 := Next(w2, c0);
    var w4 := Next(w3, c1);
    var w5 := Next(w4, c0);
    var w6 := Next(w5, c1);
    hide Next;
    RunLast(w, [], c0);
    RunLast(w, [] + [c0], c1);
    RunLast(w, [] + [c0] + [c1], c0);
    RunLast(w, [] + [c0] + [c1] + [c0], c1);
    RunLast(w, [] + [c0] + [c1] + [c0] + [c1], c0);
    RunLast(w, [] + [c0] + [c1] + [c0] + [c1] + [c0], c1);
    schedule := [] + [c0] + [c1] + [c0] + [c1] + [c0] + [c1];
  }
}
