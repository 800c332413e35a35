/** How long a session of the Redis-backed manager keeps its SessionID. */
module RedisExpiry {
  import opened RedisSpec

  function After(store: Store, reqs: seq<Request>): Store
    decreases reqs
  {
    if reqs == [] then store else After(Handle(store, reqs[0]).0, reqs[1..])
  }

  /** Every create for the IMSI is answered with the session of this SessionID. */
  predicate AnsweredWith(store: Store, reqs: seq<Request>, imsi: Imsi, id: SessionID)
    decreases reqs
  {
    reqs == [] ||
    (var (store', outcome) := Handle(store, reqs[0]);
     && (reqs[0].Create? && reqs[0].imsi == imsi ==>
           (outcome.Existing? || outcome.Created?) && outcome.record.identity.sessionID == id)
     && AnsweredWith(store', reqs[1..], imsi, id))
  }

  predicate NoCreate(reqs: seq<Request>, imsi: Imsi) {
    forall i :: 0 <= i < |reqs| ==> !(reqs[i].Create? && reqs[i].imsi == imsi)
  }

  /**
   Read off the requests alone: each create for the IMSI gets an answer from the store before the
   deadline. Only a modify that found the record in time and got its write through moves the
   deadline; creates and lookups leave it where it is. A delete that found the record in time and
   took effect closes the window: no create may follow it.
   */
  predicate Timely(deadline: nat, reqs: seq<Request>, imsi: Imsi)
    decreases reqs
  {
    reqs == [] ||
    var r := reqs[0];
    if r.imsi != imsi then Timely(deadline, reqs[1..], imsi)
    else if r.Create? then r.readOk && r.at < deadline && Timely(deadline, reqs[1..], imsi)
    else if r.Modify? && r.readOk && r.at < deadline && !r.write.Failed? then Timely(r.at + TTL, reqs[1..], imsi)
    else if r.Delete? && r.readOk && r.at < deadline && !r.write.Failed? then NoCreate(reqs[1..], imsi)
    else Timely(deadline, reqs[1..], imsi)
  }

  predicate FreshIDs(reqs: seq<Request>, id: SessionID) {
    forall i :: 0 <= i < |reqs| && reqs[i].Create? ==> reqs[i].id != id
  }

  predicate Holds(store: Store, imsi: Imsi, id: SessionID, deadline: nat) {
    && Key(imsi) in store && store[Key(imsi)].expiresAt == deadline
    && store[Key(imsi)].record.identity.imsi == imsi && store[Key(imsi)].record.identity.sessionID == id
  }

  /** Requests for other subscribers do not reach this subscriber's record. */
  lemma OthersLeaveItAlone(store: Store, r: Request, imsi: Imsi, id: SessionID, deadline: nat)
    requires Holds(store, imsi, id, deadline) && Keyed(store) && r.imsi != imsi
    ensures Holds(Handle(store, r).0, imsi, id, deadline)
  {
    KeyInjective(r.imsi, imsi);
  }

  lemma StaysKeyed(store: Store, r: Request)
    requires Keyed(store)
    ensures Keyed(Handle(store, r).0)
  {
  }

  /** With no record, the first create for the IMSI is not answered with a session made before. */
  lemma {:induction false} GoneForGood(store: Store, reqs: seq<Request>, imsi: Imsi, id: SessionID)
    requires Keyed(store) && Key(imsi) !in store && FreshIDs(reqs, id)
    ensures AnsweredWith(store, reqs, imsi, id) <==> NoCreate(reqs, imsi)
    decreases reqs
  {
    if reqs == [] {
    } else {
      var r, rest := reqs[0], reqs[1..];
      assert NoCreate(reqs, imsi) <==> !(r.Create? && r.imsi == imsi) && NoCreate(rest, imsi);
      assert FreshIDs(rest, id);
      KeyInjective(r.imsi, imsi);
      StaysKeyed(store, r);
      if !(r.Create? && r.imsi == imsi) {
        GoneForGood(Handle(store, r).0, rest, imsi, id);
      }
    }
  }

  /**
   All creates of a run return the recorded session exactly when each of them reaches the store less
   than 24 h after the latest write of the record, and before any deletion that takes effect.
   */
  lemma {:induction false} SameSessionWhileTimely(store: Store, reqs: seq<Request>, imsi: Imsi, id: SessionID, deadline: nat)
    requires Holds(store, imsi, id, deadline) && Keyed(store) && FreshIDs(reqs, id)
    ensures AnsweredWith(store, reqs, imsi, id) <==> Timely(deadline, reqs, imsi)
    decreases reqs
  {
    if reqs == [] {
    } else {
      var r, rest := reqs[0], reqs[1..];
      var store' := Handle(store, r).0;
      assert FreshIDs(rest, id);
      StaysKeyed(store, r);
      if r.imsi != imsi {
        OthersLeaveItAlone(store, r, imsi, id, deadline);
        SameSessionWhileTimely(store', rest, imsi, id, deadline);
      } else if r.Modify? && r.readOk && r.at < deadline && !r.write.Failed? {
        SameSessionWhileTimely(store', rest, imsi, id, r.at + TTL);
      } else if r.Delete? && r.readOk && r.at < deadline && !r.write.Failed? {
        GoneForGood(store', rest, imsi, id);
      } else if !r.Create? || (r.readOk && r.at < deadline) {
        SameSessionWhileTimely(store', rest, imsi, id, deadline);
      }
    }
  }

  /** From the create that made the record on. */
  lemma SameSessionFromTheStart(store: Store, first: Request, reqs: seq<Request>)
    requires Keyed(store) && first.Create? && Handle(store, first).1.Created? && FreshIDs(reqs, first.id)
    ensures AnsweredWith(store, [first] + reqs, first.imsi, first.id) <==> Timely(first.at + TTL, reqs, first.imsi)
  {
    StaysKeyed(store, first);
    SameSessionWhileTimely(Handle(store, first).0, reqs, first.imsi, first.id, first.at + TTL);
    assert ([first] + reqs)[1..] == reqs;
  }

  const HOUR: nat := 3_600_000_000_000

  /**
   A lookup does not restart the window: with creates at 0, 23 and 30 hours, each less than 24 h
   after the one before, the third makes a new session; with a modify at 23 hours it does not.
   */
  lemma LookupsDoNotRestartTheWindow(imsi: Imsi)
    ensures var first := Create(imsi, 1, "amf", 100, 0, true, Done);
            var second := Create(imsi, 1, "amf", 101, 23 * HOUR, true, Done);
            var third := Create(imsi, 1, "amf", 102, 30 * HOUR, true, Done);
            var bearer := Modify(imsi, 23 * HOUR, true, Done);
            && Handle(After(map[], [first, second]), third).1.Created?
            && AnsweredWith(map[], [first, second], imsi, 100)
            && !AnsweredWith(map[], [first, second, third], imsi, 100)
            && AnsweredWith(map[], [first, bearer, third], imsi, 100)
  {
    var first := Create(imsi, 1, "amf", 100, 0, true, Done);
    var second := Create(imsi, 1, "amf", 101, 23 * HOUR, true, Done);
    var third := Create(imsi, 1, "amf", 102, 30 * HOUR, true, Done);
    var bearer := Modify(imsi, 23 * HOUR, true, Done);
    SameSessionFromTheStart(map[], first, [second]);
    SameSessionFromTheStart(map[], first, [second, third]);
    SameSessionFromTheStart(map[], first, [bearer, third]);
    assert [first] + [second] == [first, second] && [first] + [second, third] == [first, second, third];
    assert [first] + [bearer, third] == [first, bearer, third];
    assert [second, third][1..] == [third] && [bearer, third][1..] == [third];
    assert Timely(TTL, [second], imsi) by { assert [second][1..] == []; }
    assert !Timely(TTL, [third], imsi);
    assert Timely(23 * HOUR + TTL, [third], imsi) by { assert [third][1..] == []; }
    assert [first, second][1..] == [second] && [second][1..] == [];
    var s1 := Handle(map[], first).0;
    assert After(map[], [first, second]) == After(s1, [second]) == After(Handle(s1, second).0, []);
  }

  /** A create handler that gets no answer from the store replaces a live session. */
  lemma FailedReadReplacesTheSession(store: Store, r: Request, id: SessionID, deadline: nat)
    requires r.Create? && Holds(store, r.imsi, id, deadline) && r.at < deadline && r.id != id
    ensures Holds(Handle(store, r).0, r.imsi, id, deadline) <==> r.readOk || r.write.Failed?
    ensures !r.readOk && !r.write.Failed? ==> Holds(Handle(store, r).0, r.imsi, r.id, r.at + TTL)
  {
  }
}
