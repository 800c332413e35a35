/** The in-memory and the Redis-backed session manager side by side on one sequence of requests. */
module ManagersAgree {
  import Memory = SmfSpec
  import Redis = RedisSpec

  type Imsi = string

  datatype Request =
    | Create(imsi: Imsi, teid: nat, peer: string, id: Redis.SessionID, at: nat)
    | Get(imsi: Imsi, at: nat)
    | Delete(imsi: Imsi, at: nat)

  /** What a caller can tell apart. */
  datatype Answer = ExistingSession | NewSession | Refused | SessionFound | NoSession | SessionDeleted

  /** The delete handler looks the session up before it deletes. */
  function InMemory(t: Memory.Table, r: Request): (Memory.Table, Answer) {
    match r
    case Create(imsi, teid, peer, _, at) =>
      var (t', reply) := Memory.Apply(t, Memory.Create(imsi, teid, peer, at));
      (t', if reply.Existing? then ExistingSession else if reply.New? then NewSession else Refused)
    case Get(imsi, _) =>
      (t, if Memory.Apply(t, Memory.Get(imsi)).1.Found? then SessionFound else NoSession)
    case Delete(imsi, _) =>
      if Memory.Apply(t, Memory.Get(imsi)).1.Found? then (Memory.Apply(t, Memory.Delete(imsi)).0, SessionDeleted)
      else (t, NoSession)
  }

  /** With a store that answers every read and takes every write. */
  function InRedis(store: Redis.Store, r: Request): (Redis.Store, Answer) {
    match r
    case Create(imsi, teid, peer, id, at) =>
      var (store', outcome) := Redis.Handle(store, Redis.Create(imsi, teid, peer, id, at, true, Redis.Done));
      (store', if outcome.Existing? then ExistingSession else if outcome.Created? then NewSession else Refused)
    case Get(imsi, at) =>
      (store, if Redis.Handle(store, Redis.Get(imsi, at, true)).1.Found? then SessionFound else NoSession)
    case Delete(imsi, at) =>
      var (store', outcome) := Redis.Handle(store, Redis.Delete(imsi, at, true, Redis.Done));
      (store', if outcome.Deleted? then SessionDeleted else NoSession)
  }

  /** What the answers mean: whether there was a session to find, and if not, whether one was made. */
  lemma WhatTheManagersAnswer(t: Memory.Table, store: Redis.Store, r: Request)
    ensures InMemory(t, r).1 ==
            match r
            case Create(imsi, _, _, _, _) =>
              if imsi in t.live then ExistingSession else if t.unused == [] then Refused else NewSession
            case Get(imsi, _) => if imsi in t.live then SessionFound else NoSession
            case Delete(imsi, _) => if imsi in t.live then SessionDeleted else NoSession
    ensures InRedis(store, r).1 ==
            match r
            case Create(imsi, _, _, _, at) => if Redis.Lookup(store, imsi, at, true).Some? then ExistingSession else NewSession
            case Get(imsi, at) => if Redis.Lookup(store, imsi, at, true).Some? then SessionFound else NoSession
            case Delete(imsi, at) => if Redis.Lookup(store, imsi, at, true).Some? then SessionDeleted else NoSession
  {
  }

  predicate Agree(t: Memory.Table, store: Redis.Store, reqs: seq<Request>)
    decreases reqs
  {
    reqs == [] ||
    (var (t', a) := InMemory(t, reqs[0]);
     var (store', b) := InRedis(store, reqs[0]);
     a == b && Agree(t', store', reqs[1..]))
  }

  /** When each subscriber's session was made, if it has one. */
  function NextBorn(born: map<Imsi, nat>, r: Request): map<Imsi, nat> {
    if r.Create? && r.imsi !in born then born[r.imsi := r.at]
    else if r.Delete? && r.imsi in born then born - {r.imsi}
    else born
  }

  predicate FitsNow(born: map<Imsi, nat>, room: nat, r: Request) {
    if r.imsi in born then r.at < born[r.imsi] + Redis.TTL else r.Create? ==> room > 0
  }

  function Used(born: map<Imsi, nat>, r: Request): nat {
    if r.Create? && r.imsi !in born then 1 else 0
  }

  /**
   Read off the requests alone: nobody is asked about 24 h after their session was made, and no new
   session lacks an address.
   */
  predicate Fits(born: map<Imsi, nat>, room: nat, reqs: seq<Request>)
    decreases reqs
  {
    reqs == [] ||
    (FitsNow(born, room, reqs[0]) && Fits(NextBorn(born, reqs[0]), room - Used(born, reqs[0]), reqs[1..]))
  }

  function Finally(t: Memory.Table, store: Redis.Store, reqs: seq<Request>): (Memory.Table, Redis.Store)
    decreases reqs
  {
    if reqs == [] then (t, store) else Finally(InMemory(t, reqs[0]).0, InRedis(store, reqs[0]).0, reqs[1..])
  }

  /** When the sessions that are left at the end were made. */
  function BornFinally(born: map<Imsi, nat>, reqs: seq<Request>): map<Imsi, nat>
    decreases reqs
  {
    if reqs == [] then born else BornFinally(NextBorn(born, reqs[0]), reqs[1..])
  }

  /** At this time both managers have a session for the same subscribers. */
  ghost predicate SameSubscribersAt(t: Memory.Table, store: Redis.Store, now: nat) {
    forall imsi :: imsi in t.live <==> Redis.Lookup(store, imsi, now, true).Some?
  }

  /** Same keys, expired records included, and each record expires 24 h after its session was made. */
  ghost predicate Related(t: Memory.Table, store: Redis.Store, born: map<Imsi, nat>) {
    && (forall imsi :: imsi in t.live <==> Redis.Key(imsi) in store)
    && t.live.Keys == born.Keys
    && forall imsi :: imsi in born ==> store[Redis.Key(imsi)].expiresAt == born[imsi] + Redis.TTL
  }

  lemma KeyApart(imsi: Imsi)
    ensures forall other :: Redis.Key(other) == Redis.Key(imsi) ==> other == imsi
  {
    forall other | Redis.Key(other) == Redis.Key(imsi) ensures other == imsi { Redis.KeyInjective(other, imsi); }
  }

  /** One request: the answers agree exactly when the session has not expired and an address is left. */
  lemma SameAnswer(t: Memory.Table, store: Redis.Store, born: map<Imsi, nat>, r: Request)
    requires Related(t, store, born)
    ensures InMemory(t, r).1 == InRedis(store, r).1 <==> FitsNow(born, |t.unused|, r)
  {
  }

  lemma RelatedAfterInsert(t: Memory.Table, t': Memory.Table, store: Redis.Store, born: map<Imsi, nat>, imsi: Imsi, e: Redis.Entry, at: nat)
    requires Related(t, store, born) && t'.live.Keys == t.live.Keys + {imsi} && e.expiresAt == at + Redis.TTL
    ensures Related(t', store[Redis.Key(imsi) := e], born[imsi := at])
  {
    KeyApart(imsi);
    hide Redis.Key;
    var store', born' := store[Redis.Key(imsi) := e], born[imsi := at];
    forall other ensures other in t'.live <==> Redis.Key(other) in store' {
      assert other in t'.live.Keys <==> other in t.live.Keys || other == imsi;
    }
    forall other | other in born' ensures store'[Redis.Key(other)].expiresAt == born'[other] + Redis.TTL {
      assert other != imsi ==> Redis.Key(other) != Redis.Key(imsi) && other in born;
    }
    assert t'.live.Keys == born'.Keys;
  }

  lemma RelatedAfterRemove(t: Memory.Table, t': Memory.Table, store: Redis.Store, born: map<Imsi, nat>, imsi: Imsi)
    requires Related(t, store, born) && t'.live.Keys == t.live.Keys - {imsi}
    ensures Related(t', store - {Redis.Key(imsi)}, born - {imsi})
  {
    KeyApart(imsi);
    hide Redis.Key;
  }

  lemma StaysRelated(t: Memory.Table, store: Redis.Store, born: map<Imsi, nat>, r: Request)
    requires Related(t, store, born) && FitsNow(born, |t.unused|, r)
    ensures Related(InMemory(t, r).0, InRedis(store, r).0, NextBorn(born, r))
    ensures |InMemory(t, r).0.unused| == |t.unused| - Used(born, r)
  {
    hide Redis.Key;
    assert r.imsi in t.live <==> Redis.Key(r.imsi) in store;
    hide Related;
    if r.Create? && r.imsi !in born {
      RelatedAfterInsert(t, InMemory(t, r).0, store, born, r.imsi, InRedis(store, r).0[Redis.Key(r.imsi)], r.at);
    } else if r.Delete? && r.imsi in born {
      RelatedAfterRemove(t, InMemory(t, r).0, store, born, r.imsi);
    }
  }

  /** The managers give the same answers all along exactly when the run fits. */
  lemma {:induction false} AgreeExactlyWhenItFits(t: Memory.Table, store: Redis.Store, born: map<Imsi, nat>, reqs: seq<Request>)
    requires Related(t, store, born)
    ensures Agree(t, store, reqs) <==> Fits(born, |t.unused|, reqs)
    decreases reqs
  {
    if reqs == [] {
    } else {
      hide InMemory, InRedis, Related, FitsNow, NextBorn;
      SameAnswer(t, store, born, reqs[0]);
      if FitsNow(born, |t.unused|, reqs[0]) {
        StaysRelated(t, store, born, reqs[0]);
        AgreeExactlyWhenItFits(InMemory(t, reqs[0]).0, InRedis(store, reqs[0]).0, NextBorn(born, reqs[0]), reqs[1..]);
      }
    }
  }

  lemma {:induction false} FinallyRelated(t: Memory.Table, store: Redis.Store, born: map<Imsi, nat>, reqs: seq<Request>)
    requires Related(t, store, born) && Fits(born, |t.unused|, reqs)
    ensures var (t', store') := Finally(t, store, reqs); Related(t', store', BornFinally(born, reqs))
    decreases reqs
  {
    if reqs == [] {
    } else {
      StaysRelated(t, store, born, reqs[0]);
      hide InMemory, InRedis, Related, FitsNow, NextBorn;
      FinallyRelated(InMemory(t, reqs[0]).0, InRedis(store, reqs[0]).0, NextBorn(born, reqs[0]), reqs[1..]);
    }
  }

  lemma RelatedAt(t: Memory.Table, store: Redis.Store, born: map<Imsi, nat>, now: nat)
    requires Related(t, store, born)
    ensures SameSubscribersAt(t, store, now) <==> forall imsi :: imsi in born ==> now < born[imsi] + Redis.TTL
  {
    hide Redis.Key;
    forall imsi ensures Redis.Lookup(store, imsi, now, true).Some? <==> imsi in born && now < born[imsi] + Redis.TTL {
      assert imsi in t.live <==> Redis.Key(imsi) in store;
    }
  }

  /**
   From empty managers: the answers agree exactly when the run fits. At any time after a run that
   fits, both have the same subscribers exactly when no session that is left is 24 h old by then.
   */
  lemma ManagersAgreeFromTheStart(pool: seq<Memory.AddressPool.Address>, reqs: seq<Request>, now: nat)
    ensures Agree(Memory.Table(map[], pool), map[], reqs) <==> Fits(map[], |pool|, reqs)
    ensures Fits(map[], |pool|, reqs) ==>
              var (t, store) := Finally(Memory.Table(map[], pool), map[], reqs);
              && t.live.Keys == BornFinally(map[], reqs).Keys
              && (SameSubscribersAt(t, store, now) <==>
                    forall imsi :: imsi in BornFinally(map[], reqs) ==> now < BornFinally(map[], reqs)[imsi] + Redis.TTL)
  {
    var start := Memory.Table(map[], pool);
    AgreeExactlyWhenItFits(start, map[], map[], reqs);
    if Fits(map[], |pool|, reqs) {
      FinallyRelated(start, map[], map[], reqs);
      var (t, store) := Finally(start, map[], reqs);
      RelatedAt(t, store, BornFinally(map[], reqs), now);
    }
  }

  /** A run answered alike throughout, after which only the in-memory manager still has the first subscriber. */
  lemma ForgottenSubscriber(pool: seq<Memory.AddressPool.Address>, a: Imsi, b: Imsi)
    requires |pool| >= 2 && a != b
    ensures var later := Redis.TTL + 1;
            var reqs := [Create(a, 1, "peer", 100, 0), Create(b, 1, "peer", 101, later)];
            var (t, store) := Finally(Memory.Table(map[], pool), map[], reqs);
            && Agree(Memory.Table(map[], pool), map[], reqs)
            && a in t.live && b in t.live && !SameSubscribersAt(t, store, later)
  {
    var later := Redis.TTL + 1;
    var first, second := Create(a, 1, "peer", 100, 0), Create(b, 1, "peer", 101, later);
    var reqs := [first, second];
    assert reqs[1..] == [second] && [second][1..] == [];
    assert BornFinally(map[], reqs) == BornFinally(map[a := 0], [second]) == BornFinally(map[a := 0, b := later], []);
    assert Fits(map[a := 0], |pool| - 1, [second]) && Fits(map[], |pool|, reqs);
    ManagersAgreeFromTheStart(pool, reqs, later);
    assert a in BornFinally(map[], reqs) && b in BornFinally(map[], reqs);
  }
}
