/** The methods of pkg/smf/session.go over session objects and the store. */
module RedisManager {
  import opened Wrappers
  import opened RedisSpec

  class Session {
    const identity: Identity
    var lastUpdated: nat
    var state: State

    constructor (r: Record)
      ensures Value() == r
    {
      identity, lastUpdated, state := r.identity, r.lastUpdated, r.state;
    }

    /** What json.Marshal writes for the object. */
    function Value(): Record
      reads this
    {
      Record(identity, lastUpdated, state)
    }
  }

  class SessionManager {
    var redis: Store

    constructor ()
      ensures redis == map[]
    {
      redis := map[];
    }

    /** From a write that took effect on, the session is what its IMSI reads, for 24 h; other IMSIs read what they did. */
    method StoreSession(session: Session, now: nat, write: Write) returns (ok: bool)
      modifies this
      ensures ok ==> !write.Failed?
      ensures forall imsi, at: nat :: Lookup(redis, imsi, at, true) ==
                if write.Failed? || imsi != session.identity.imsi then Lookup(old(redis), imsi, at, true)
                else if at < now + 86_400_000_000_000 then Some(session.Value()) else None
      ensures Keyed(old(redis)) ==> Keyed(redis)
      ensures redis == Put(old(redis), session.Value(), now, write) && ok == write.Done?
    {
      forall imsi, at: nat { StoredIsReadBack(redis, session.Value(), now, write, imsi, at); }
      if !write.Failed? {
        redis := redis[Key(session.identity.imsi) := Entry(session.Value(), now + TTL)];
      }
      ok := write.Done?;
    }

    method CreateSession(imsi: Imsi, teid: nat, amfAddr: string, id: SessionID, now: nat, write: Write)
      returns (session: Option<Session>)
      modifies this
      ensures redis == Put(old(redis), Minted(imsi, teid, id, now, amfAddr), now, write)
      ensures session.Some? <==> write.Done?
      ensures session.Some? ==>
                fresh(session.value) && session.value.Value() == Record(Identity(imsi, teid, id, now, amfAddr), now, INITIALIZING)
    {
      var s := new Session(Minted(imsi, teid, id, now, amfAddr));
      var ok := StoreSession(s, now, write);
      session := if ok then Some(s) else None;
    }

    method GetSession(imsi: Imsi, now: nat, readOk: bool) returns (session: Option<Session>)
      ensures match Lookup(redis, imsi, now, readOk)
              case Some(r) => session.Some? && fresh(session.value) && session.value.Value() == r
              case None => session.None?
    {
      session := None;
      if readOk && Key(imsi) in redis && now < redis[Key(imsi)].expiresAt {
        var s := new Session(redis[Key(imsi)].record);
        session := Some(s);
      }
    }

    method UpdateSession(session: Session, now: nat, write: Write) returns (ok: bool)
      modifies this, session
      ensures session.Value() == old(session.Value()).(lastUpdated := now)
      ensures redis == Put(old(redis), session.Value(), now, write) && ok == write.Done?
    {
      session.lastUpdated := now;
      ok := StoreSession(session, now, write);
    }

    /** After a deletion that took effect the IMSI reads nothing at any time; other IMSIs read what they did. */
    method DeleteSession(imsi: Imsi, write: Write) returns (ok: bool)
      modifies this
      ensures ok ==> !write.Failed?
      ensures forall other, at: nat :: Lookup(redis, other, at, true) ==
                if write.Failed? || other != imsi then Lookup(old(redis), other, at, true) else None
      ensures Keyed(old(redis)) ==> Keyed(redis)
      ensures redis == Remove(old(redis), imsi, write) && ok == write.Done?
    {
      forall other, at: nat { RemovedIsGone(redis, imsi, write, other, at); }
      if !write.Failed? {
        redis := redis - {Key(imsi)};
      }
      ok := write.Done?;
    }

    method HandleCreateSessionRequest(imsi: Option<Imsi>, teid: nat, amfAddr: string, id: SessionID,
                                      now: nat, readOk: bool, write: Write)
      returns (session: Option<Session>)
      modifies this
      ensures imsi.None? ==> session.None? && redis == old(redis)
      ensures imsi.Some? ==>
                var (store, outcome) := Handle(old(redis), Create(imsi.value, teid, amfAddr, id, now, readOk, write));
                && redis == store
                && (session.Some? <==> outcome.Existing? || outcome.Created?)
                && (session.Some? ==> session.value.Value() == outcome.record)
      ensures imsi.Some? ==>
                match Lookup(old(redis), imsi.value, now, readOk)
                case Some(r) => redis == old(redis) && session.Some? && session.value.Value() == r
                case None =>
                  && (session.Some? <==> write.Done?)
                  && (session.Some? ==>
                        session.value.Value() == Record(Identity(imsi.value, teid, id, now, amfAddr), now, INITIALIZING))
    {
      if imsi.None? {
        return None;
      }
      session := GetSession(imsi.value, now, readOk);
      if session.Some? {
        return;
      }
      session := CreateSession(imsi.value, teid, amfAddr, id, now, write);
    }

    /** The record is marked DELETING only in the handler's own copy. */
    method HandleDeleteSessionRequest(imsi: Option<Imsi>, now: nat, readOk: bool, write: Write) returns (ok: bool)
      modifies this
      ensures imsi.None? ==> !ok && redis == old(redis)
      ensures imsi.Some? ==>
                var (store, outcome) := Handle(old(redis), Delete(imsi.value, now, readOk, write));
                redis == store && (ok <==> outcome.Deleted?)
      ensures ok <==> imsi.Some? && Lookup(old(redis), imsi.value, now, readOk).Some? && write.Done?
      ensures ok ==> Unreadable(redis, imsi.value)
    {
      if imsi.None? {
        return false;
      }
      var session := GetSession(imsi.value, now, readOk);
      if session.None? {
        return false;
      }
      session.value.state := DELETING;
      session.value.lastUpdated := now;
      ok := DeleteSession(imsi.value, write);
    }

    method HandleModifyBearerRequest(imsi: Option<Imsi>, now: nat, readOk: bool, write: Write) returns (ok: bool)
      modifies this
      ensures imsi.None? ==> !ok && redis == old(redis)
      ensures imsi.Some? ==>
                var (store, outcome) := Handle(old(redis), Modify(imsi.value, now, readOk, write));
                redis == store && (ok <==> outcome.Modified?)
      ensures ok <==> imsi.Some? && Lookup(old(redis), imsi.value, now, readOk).Some? && write.Done?
      ensures ok && Keyed(old(redis)) ==>
                forall at: nat :: Lookup(redis, imsi.value, at, true) ==
                  if at < now + 86_400_000_000_000 then
                    Some(Lookup(old(redis), imsi.value, now, readOk).value.(state := MODIFYING, lastUpdated := now))
                  else None
    {
      if imsi.None? {
        return false;
      }
      var session := GetSession(imsi.value, now, readOk);
      if session.None? {
        return false;
      }
      session.value.state := MODIFYING;
      session.value.lastUpdated := now;
      ok := UpdateSession(session.value, now, write);
    }
  }
}
