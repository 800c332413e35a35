/** The handlers of bss/main.go over the subscriber objects of simDB. */
module Billing {
  import opened Ledger

  class Subscriber {
    const imsi: Imsi
    const created: nat
    var balance: int64
    var updated: nat

    constructor (imsi: Imsi, balance: int64, now: nat)
      ensures this.imsi == imsi && this.balance == balance && created == updated == now
    {
      this.imsi, this.balance, created, updated := imsi, balance, now, now;
    }
  }

  /** The subscriber objects hold these balances; no two IMSIs share an object. */
  ghost predicate Holds(simDB: map<Imsi, Subscriber>, db: Balances)
    reads simDB.Values
  {
    && simDB.Keys == db.Keys
    && (forall a, b :: a in simDB && b in simDB && a != b ==> simDB[a] != simDB[b])
    && (forall imsi :: imsi in simDB ==> simDB[imsi].imsi == imsi && simDB[imsi].balance == db[imsi])
  }

  class BSS {
    var simDB: map<Imsi, Subscriber>
    ghost var requests: seq<Request>  // every request that reached its critical section or was refused before

    ghost predicate Valid()
      reads this, simDB.Values
    {
      Holds(simDB, After(requests))
    }

    constructor ()
      ensures Valid() && requests == []
    {
      simDB, requests := map[], [];
    }

    method RegisterHandler(imsi: Imsi, balance: int64, now: nat) returns (status: Status)
      modifies this`simDB
      ensures status == if |imsi| < 10 then BadRequest else if imsi in old(simDB) then Conflict else Registered
      ensures if status.Registered? then
                imsi in simDB && fresh(simDB[imsi]) && simDB == old(simDB)[imsi := simDB[imsi]]
                && simDB[imsi].imsi == imsi && simDB[imsi].balance == balance && simDB[imsi].updated == now && simDB[imsi].created == now
              else simDB == old(simDB)
    {
      if |imsi| < 10 {
        return BadRequest;
      }
      if imsi in simDB {
        return Conflict;
      }
      var sub := new Subscriber(imsi, balance, now);
      simDB := simDB[imsi := sub];
      status := Registered;
    }

    method TopUpHandler(imsi: Imsi, amount: int64, now: nat) returns (status: Status)
      modifies simDB.Values
      ensures amount <= 0 ==> status == BadRequest
      ensures amount > 0 && imsi !in simDB ==> status == NotFound
      ensures amount > 0 && imsi in simDB ==>
                status == ToppedUp(Wrap(old(simDB[imsi].balance) + amount))
                && simDB[imsi].balance == status.balance && simDB[imsi].updated == now
      ensures forall s :: s in simDB.Values && (status.ToppedUp? ==> s != simDB[imsi]) ==> unchanged(s)
    {
      if amount <= 0 {
        return BadRequest;
      }
      if imsi !in simDB {
        return NotFound;
      }
      var sub := simDB[imsi];
      sub.balance := Wrap(sub.balance + amount);
      sub.updated := now;
      status := ToppedUp(sub.balance);
    }

    method Dispatch(r: Request, now: nat, ghost db: Balances) returns (status: Status)
      requires Holds(simDB, db)
      modifies this`simDB, simDB.Values
      ensures r.Malformed? ==> status == BadRequest && simDB == old(simDB)
      ensures Holds(simDB, Apply(db, r).0) && status == Apply(db, r).1
      ensures forall s :: s in old(simDB.Values) && (status.ToppedUp? ==> s != old(simDB)[r.imsi]) ==> unchanged(s)
      ensures status.ToppedUp? ==> r.TopUp? && r.imsi in simDB && r.imsi in old(simDB)
      ensures status.ToppedUp? ==> simDB[r.imsi].balance == status.balance && simDB[r.imsi].updated == now
    {
      hide Wrap;
      match r {
        case Malformed => status := BadRequest;
        case Register(imsi, balance) => status := RegisterHandler(imsi, balance, now);
        case TopUp(imsi, amount) => status := TopUpHandler(imsi, amount, now);
      }
    }

    method Handle(r: Request, now: nat) returns (status: Status)
      requires Valid()
      modifies this, simDB.Values
      ensures Valid() && requests == old(requests) + [r]
      ensures status == StatusOf(requests, |requests| - 1)
      ensures r.Malformed? ==> status == BadRequest && simDB == old(simDB)
      ensures forall s :: s in old(simDB.Values) && (status.ToppedUp? ==> s != old(simDB)[r.imsi]) ==> unchanged(s)
      ensures status.ToppedUp? ==> simDB[r.imsi].balance == status.balance && simDB[r.imsi].updated == now
    {
      hide Holds, After, StatusOf, Apply;
      AfterStep(requests, r);
      status := Dispatch(r, now, After(requests));
      requests := requests + [r];
    }
  }
}
