/**
 The Redis-backed session manager of pkg/smf/session.go as operations on a keyed store whose
 records expire. A record is read whole, changed, and written back whole under its IMSI's key.
 */
module RedisSpec {
  import opened Wrappers

  type Imsi = string
  type SessionID = nat

  datatype State = INITIALIZING | ACTIVE | MODIFYING | DELETING | DELETED

  /** What CreateSession fixes for good. */
  datatype Identity = Identity(imsi: Imsi, teid: nat, sessionID: SessionID, createdAt: nat, amfAddr: string)

  datatype Record = Record(identity: Identity, lastUpdated: nat, state: State)

  datatype Entry = Entry(record: Record, expiresAt: nat)

  type Store = map<string, Entry>

  /** 24 hours in nanoseconds. */
  const TTL: nat := 24 * 60 * 60 * 1_000_000_000

  /** A write may go through, fail without effect, or take effect although its reply is lost. */
  datatype Write = Done | Failed | ReplyLost

  function Key(imsi: Imsi): string {
    "session:" + imsi
  }

  lemma KeyInjective(a: Imsi, b: Imsi)
    ensures Key(a) == Key(b) <==> a == b
    ensures |Key(a)| == |a| + 8 && Key(a)[..8] == "session:"
  {
    assert Key(a)[8..] == a && Key(b)[8..] == b;
  }

  /** None stands for both errors of a lookup: no record, and no answer from the store. */
  function Lookup(store: Store, imsi: Imsi, now: nat, readOk: bool): Option<Record> {
    if readOk && Key(imsi) in store && now < store[Key(imsi)].expiresAt then Some(store[Key(imsi)].record) else None
  }

  /** No read finds anything for the IMSI, at any time. */
  ghost predicate Unreadable(store: Store, imsi: Imsi) {
    forall at: nat :: Lookup(store, imsi, at, true).None?
  }

  function Put(store: Store, r: Record, now: nat, write: Write): Store {
    if write.Failed? then store else store[Key(r.identity.imsi) := Entry(r, now + TTL)]
  }

  function Remove(store: Store, imsi: Imsi, write: Write): Store {
    if write.Failed? then store else store - {Key(imsi)}
  }

  function Minted(imsi: Imsi, teid: nat, id: SessionID, now: nat, amfAddr: string): Record {
    Record(Identity(imsi, teid, id, now, amfAddr), now, INITIALIZING)
  }

  /** One request, the time it is handled at, and how the store answers it. */
  datatype Request =
    | Create(imsi: Imsi, teid: nat, amfAddr: string, id: SessionID, at: nat, readOk: bool, write: Write)
    | Modify(imsi: Imsi, at: nat, readOk: bool, write: Write)
    | Delete(imsi: Imsi, at: nat, readOk: bool, write: Write)
    | Get(imsi: Imsi, at: nat, readOk: bool)

  datatype Outcome =
    | Existing(record: Record)
    | Created(record: Record)
    | Found(record: Record)
    | Modified
    | Deleted
    | NoSession
    | NotWritten

  /** A request handled from start to finish with nothing else in between. */
  function Handle(store: Store, req: Request): (Store, Outcome) {
    var found := Lookup(store, req.imsi, req.at, req.readOk);
    match req
    case Create(imsi, teid, amfAddr, id, at, _, write) =>
      if found.Some? then (store, Existing(found.value))
      else
        var r := Minted(imsi, teid, id, at, amfAddr);
        (Put(store, r, at, write), if write.Done? then Created(r) else NotWritten)
    case Modify(_, at, _, write) =>
      if found.None? then (store, NoSession)
      else (Put(store, found.value.(state := MODIFYING, lastUpdated := at), at, write),
            if write.Done? then Modified else NotWritten)
    case Delete(imsi, _, _, write) =>
      if found.None? then (store, NoSession)
      else (Remove(store, imsi, write), if write.Done? then Deleted else NotWritten)
    case Get(_, _, _) =>
      (store, if found.Some? then Found(found.value) else NoSession)
  }

  /** Every record lies under the key of its own IMSI. */
  predicate Keyed(store: Store) {
    forall key :: key in store ==> key == Key(store[key].record.identity.imsi)
  }

  /** What a read of the IMSI finds at a time, after a store of r at now if there was one. */
  function Seen(store: Store, stored: Option<Record>, now: nat, imsi: Imsi, at: nat): Option<Record> {
    if stored.Some? && imsi == stored.value.identity.imsi then
      if at < now + 86_400_000_000_000 then stored else None
    else
      Lookup(store, imsi, at, true)
  }

  /** Until when a record stored now is read back: strictly less than 24 h, and only under its own IMSI. */
  lemma StoredIsReadBack(store: Store, r: Record, now: nat, write: Write, imsi: Imsi, at: nat)
    ensures Lookup(Put(store, r, now, write), imsi, at, true) ==
            if write.Failed? || imsi != r.identity.imsi then Lookup(store, imsi, at, true)
            else if at < now + 86_400_000_000_000 then Some(r) else None
    ensures Keyed(store) ==> Keyed(Put(store, r, now, write))
  {
    KeyInjective(imsi, r.identity.imsi);
  }

  /** A removal that took effect leaves nothing to read for its IMSI at any time, and everything else as it was. */
  lemma RemovedIsGone(store: Store, gone: Imsi, write: Write, imsi: Imsi, at: nat)
    ensures Lookup(Remove(store, gone, write), imsi, at, true) ==
            if write.Failed? || imsi != gone then Lookup(store, imsi, at, true) else None
    ensures Keyed(store) ==> Keyed(Remove(store, gone, write))
  {
    KeyInjective(imsi, gone);
  }

  /** What each request returns, and what any read at any time finds after it. */
  lemma WhatARequestDoes(store: Store, req: Request, other: Imsi, at: nat)
    requires Keyed(store)
    ensures var found := Lookup(store, req.imsi, req.at, req.readOk);
            var (store', outcome) := Handle(store, req);
            && (!req.readOk ==> found.None?)
            && match req
               case Create(imsi, teid, amfAddr, id, now, _, write) =>
                 var r := Record(Identity(imsi, teid, id, now, amfAddr), now, INITIALIZING);
                 var stored := if found.None? && !write.Failed? then Some(r) else None;
                 && outcome == (if found.Some? then Existing(found.value) else if write.Done? then Created(r) else NotWritten)
                 && Lookup(store', other, at, true) == Seen(store, stored, now, other, at)
               case Modify(imsi, now, _, write) =>
                 var stored := if found.Some? && !write.Failed? then Some(found.value.(state := MODIFYING, lastUpdated := now)) else None;
                 && outcome == (if found.None? then NoSession else if write.Done? then Modified else NotWritten)
                 && Lookup(store', other, at, true) == Seen(store, stored, now, other, at)
               case Delete(imsi, now, _, write) =>
                 && outcome == (if found.None? then NoSession else if write.Done? then Deleted else NotWritten)
                 && Lookup(store', other, at, true) ==
                    if found.Some? && !write.Failed? && other == imsi then None else Lookup(store, other, at, true)
               case Get(_, _, _) =>
                 store' == store && outcome == (if found.Some? then Found(found.value) else NoSession)
  {
    KeyInjective(other, req.imsi);
    if Key(req.imsi) in store { KeyInjective(store[Key(req.imsi)].record.identity.imsi, req.imsi); }
  }
}
