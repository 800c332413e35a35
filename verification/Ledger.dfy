/**
 The prepaid balances of bss/main.go. Every request does its work in one critical section, so a run
 is a sequence of requests. Balances are 64-bit integers that wrap; the ledger beside them does not.
 */
module Ledger {

  type Imsi = string

  const TWO_63: int := 0x8000_0000_0000_0000
  const TWO_64: int := 0x1_0000_0000_0000_0000

  type int64 = x: int | -0x8000_0000_0000_0000 <= x < 0x8000_0000_0000_0000

  function Wrap(x: int): int64 {
    (x + TWO_63) % TWO_64 - TWO_63
  }

  datatype Request =
    | Malformed
    | Register(imsi: Imsi, balance: int64)
    | TopUp(imsi: Imsi, amount: int64)

  datatype Status = BadRequest | Conflict | NotFound | Registered | ToppedUp(balance: int64)

  type Balances = map<Imsi, int64>

  function Apply(db: Balances, r: Request): (Balances, Status) {
    match r
    case Malformed => (db, BadRequest)
    case Register(imsi, balance) =>
      if |imsi| < 10 then (db, BadRequest)
      else if imsi in db then (db, Conflict)
      else (db[imsi := balance], Registered)
    case TopUp(imsi, amount) =>
      if amount <= 0 then (db, BadRequest)
      else if imsi !in db then (db, NotFound)
      else (db[imsi := Wrap(db[imsi] + amount)], ToppedUp(Wrap(db[imsi] + amount)))
  }

  function After(reqs: seq<Request>): Balances {
    if reqs == [] then map[] else Apply(After(reqs[..|reqs| - 1]), reqs[|reqs| - 1]).0
  }

  function StatusOf(reqs: seq<Request>, i: nat): Status
    requires i < |reqs|
  {
    Apply(After(reqs[..i]), reqs[i]).1
  }

  lemma AfterStep(reqs: seq<Request>, r: Request)
    ensures (After(reqs + [r]), StatusOf(reqs + [r], |reqs|)) == Apply(After(reqs), r)
  {
    assert (reqs + [r])[..|reqs|] == reqs;
  }

  /** What an accepted request puts on the books, and for whom. */
  function Entry(r: Request, s: Status): int {
    if s.Registered? && r.Register? then r.balance else if s.ToppedUp? && r.TopUp? then r.amount else 0
  }

  /** Opening balances of accepted registrations plus amounts of accepted top-ups. */
  function Booked(reqs: seq<Request>): int {
    if reqs == [] then 0
    else Booked(reqs[..|reqs| - 1]) + Entry(reqs[|reqs| - 1], StatusOf(reqs, |reqs| - 1))
  }

  /** The same for one subscriber. */
  function BookedFor(reqs: seq<Request>, imsi: Imsi): int {
    if reqs == [] then 0
    else
      var r := reqs[|reqs| - 1];
      BookedFor(reqs[..|reqs| - 1], imsi)
      + if !r.Malformed? && r.imsi == imsi then Entry(r, StatusOf(reqs, |reqs| - 1)) else 0
  }

  ghost function Total(m: map<Imsi, int>): int {
    if m == map[] then 0 else var k :| k in m; m[k] + Total(m - {k})
  }

  lemma {:induction false} TotalRemove(m: map<Imsi, int>, k: Imsi)
    requires k in m
    ensures Total(m) == m[k] + Total(m - {k})
  {
    var j :| j in m && Total(m) == m[j] + Total(m - {j});
    if j != k {
      TotalRemove(m - {j}, k);
      TotalRemove(m - {k}, j);
      assert m - {j} - {k} == m - {k} - {j};
    }
  }

  lemma TotalSet(m: map<Imsi, int>, k: Imsi, v: int)
    ensures Total(m[k := v]) == Total(m) + v - if k in m then m[k] else 0
  {
    var m' := m[k := v];
    TotalRemove(m', k);
    if k in m {
      TotalRemove(m, k);
      assert m' - {k} == m - {k};
    } else {
      assert m' - {k} == m;
    }
  }

  lemma WrapFacts(x: int, y: int)
    ensures Wrap(Wrap(x) + y) == Wrap(x + y)
    ensures (x - Wrap(x)) % TWO_64 == 0
    ensures Wrap(x) == x <==> -TWO_63 <= x < TWO_63
    ensures x >= -TWO_63 ==> Wrap(x) <= x
  {
  }

  lemma AddMultiples(x: int, y: int)
    requires x % TWO_64 == 0 && y % TWO_64 == 0
    ensures (x + y) % TWO_64 == 0
  {
  }

  /** The exact ledger, one line per subscriber. */
  function Owed(reqs: seq<Request>): map<Imsi, int> {
    map imsi | imsi in After(reqs) :: BookedFor(reqs, imsi)
  }

  /** A balance is the subscriber's own bookings, wrapped to 64 bits; nobody else's requests enter it. */
  lemma {:induction false} BalanceIsOwnBookings(reqs: seq<Request>, imsi: Imsi)
    ensures imsi !in After(reqs) ==> BookedFor(reqs, imsi) == 0
    ensures imsi in After(reqs) ==> After(reqs)[imsi] == Wrap(BookedFor(reqs, imsi)) && BookedFor(reqs, imsi) >= -TWO_63
    ensures imsi in After(reqs) ==> (After(reqs)[imsi] == BookedFor(reqs, imsi) <==> BookedFor(reqs, imsi) < TWO_63)
  {
    if reqs == [] {
    } else {
      var p, r := reqs[..|reqs| - 1], reqs[|reqs| - 1];
      BalanceIsOwnBookings(p, imsi);
      WrapFacts(BookedFor(p, imsi), if r.TopUp? then r.amount else 0);
    }
    WrapFacts(BookedFor(reqs, imsi), 0);
  }

  lemma OwedLines(reqs: seq<Request>)
    ensures Owed(reqs).Keys == After(reqs).Keys
    ensures forall imsi :: imsi in After(reqs) ==> Owed(reqs)[imsi] == BookedFor(reqs, imsi)
  {
  }

  /** A request moves its own subscriber's line of the ledger by what it books, and no other line. */
  lemma OwedStep(reqs: seq<Request>)
    requires reqs != []
    ensures var p, r := reqs[..|reqs| - 1], reqs[|reqs| - 1];
            Owed(reqs) == if !r.Malformed? && r.imsi in After(reqs) then Owed(p)[r.imsi := BookedFor(reqs, r.imsi)] else Owed(p)
  {
    hide Wrap;
  }

  lemma {:induction false} BookedIsTotalOwed(reqs: seq<Request>)
    ensures Total(Owed(reqs)) == Booked(reqs)
  {
    if reqs == [] {
    } else {
      hide Wrap, Total, Owed;
      var p, r := reqs[..|reqs| - 1], reqs[|reqs| - 1];
      BookedIsTotalOwed(p);
      OwedStep(reqs);
      if !r.Malformed? && r.imsi in After(reqs) {
        BalanceIsOwnBookings(p, r.imsi);
        OwedLines(p);
        TotalSet(Owed(p), r.imsi, BookedFor(reqs, r.imsi));
      }
    }
  }

  /** Wrapping each line of a ledger drops a multiple of 2^64 from the total, none only if no line wraps. */
  lemma {:induction false} TotalOfWrapped(exact: map<Imsi, int>, wrapped: map<Imsi, int>)
    requires exact.Keys == wrapped.Keys
    requires forall k :: k in exact ==> exact[k] >= -TWO_63 && wrapped[k] == Wrap(exact[k])
    ensures (Total(exact) - Total(wrapped)) % TWO_64 == 0 && Total(wrapped) <= Total(exact)
    ensures Total(wrapped) == Total(exact) <==> forall k :: k in exact ==> exact[k] < TWO_63
    decreases exact
  {
    if exact == map[] {
      assert wrapped == map[];
    } else {
      hide Wrap, Total;
      var k :| k in exact;
      var rest := exact - {k};
      TotalRemove(exact, k);
      TotalRemove(wrapped, k);
      TotalOfWrapped(rest, wrapped - {k});
      WrapFacts(exact[k], 0);
      AddMultiples(exact[k] - wrapped[k], Total(rest) - Total(wrapped - {k}));
      assert forall j :: j in exact ==> j == k || (j in rest && rest[j] == exact[j]);
      assert forall j :: j in rest ==> j in exact && rest[j] == exact[j];
    }
  }

  /**
   Conservation: the balances add up to what was booked, modulo 2^64 always, and exactly if and only
   if no subscriber's bookings pass the largest 64-bit integer.
   */
  lemma Conservation(reqs: seq<Request>)
    ensures (Booked(reqs) - Total(After(reqs))) % TWO_64 == 0
    ensures Total(After(reqs)) == Booked(reqs) <==> forall imsi :: imsi in After(reqs) ==> BookedFor(reqs, imsi) < TWO_63
  {
    hide Wrap, Total, Booked, After, BookedFor;
    forall imsi | imsi in After(reqs) ensures After(reqs)[imsi] == Wrap(Owed(reqs)[imsi]) && Owed(reqs)[imsi] >= -TWO_63 {
      BalanceIsOwnBookings(reqs, imsi);
    }
    BookedIsTotalOwed(reqs);
    TotalOfWrapped(Owed(reqs), After(reqs));
    assert forall imsi :: imsi in Owed(reqs) ==> Owed(reqs)[imsi] == BookedFor(reqs, imsi);
  }
}
