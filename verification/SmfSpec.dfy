/**
 The session table of the SMF as one atomic object: the live sessions by IMSI, and the
 addresses not handed out yet. It has no cursor, no slice, no lock and no object identity.
 A history lists operations with the replies they got; it is legal when the atomic object
 gives those replies in that order.
 */
module SmfSpec {
  import opened AddressPool

  type Imsi = string

  /** What a session is created with and keeps for life. */
  datatype Identity = Identity(imsi: Imsi, address: Address, teid: nat, peer: string, createdAt: nat)

  datatype Table = Table(live: map<Imsi, Identity>, unused: seq<Address>)

  datatype Op =
    | Create(imsi: Imsi, teid: nat, peer: string, now: nat)
    | Get(imsi: Imsi)
    | Delete(imsi: Imsi)

  datatype Reply =
    | Existing(session: Identity)
    | New(session: Identity)
    | NoAddress
    | Found(session: Identity)
    | NotFound
    | Deleted

  datatype Event = Event(op: Op, reply: Reply)

  function Apply(t: Table, op: Op): (Table, Reply) {
    match op
    case Create(imsi, teid, peer, now) =>
      if imsi in t.live then (t, Existing(t.live[imsi]))
      else if t.unused == [] then (t, NoAddress)
      else
        var s := Identity(imsi, t.unused[0], teid, peer, now);
        (Table(t.live[imsi := s], t.unused[1..]), New(s))
    case Get(imsi) => (t, if imsi in t.live then Found(t.live[imsi]) else NotFound)
    case Delete(imsi) => (t.(live := t.live - {imsi}), Deleted)
  }

  function After(t: Table, h: seq<Event>): Table {
    if h == [] then t else Apply(After(t, h[..|h| - 1]), h[|h| - 1].op).0
  }

  predicate Legal(t: Table, h: seq<Event>) {
    h == [] ||
    (Legal(t, h[..|h| - 1]) && Apply(After(t, h[..|h| - 1]), h[|h| - 1].op).1 == h[|h| - 1].reply)
  }

  /** A table nobody has used yet. */
  ghost predicate Unused(t: Table) {
    t.live == map[] && forall i, j :: 0 <= i < j < |t.unused| ==> t.unused[i] != t.unused[j]
  }

  ghost predicate WellFormed(t: Table) {
    && (forall i, j :: 0 <= i < j < |t.unused| ==> t.unused[i] != t.unused[j])
    && (forall imsi :: imsi in t.live ==> t.live[imsi].imsi == imsi && t.live[imsi].address !in t.unused)
    && (forall a, b :: a in t.live && b in t.live && a != b ==> t.live[a].address != t.live[b].address)
  }

  lemma {:induction false} LegalAt(t: Table, h: seq<Event>, i: nat)
    requires Legal(t, h) && i < |h|
    ensures Legal(t, h[..i])
    ensures Apply(After(t, h[..i]), h[i].op) == (After(t, h[..i + 1]), h[i].reply)
  {
    var n := |h| - 1;
    if i == n {
      assert h[..i + 1] == h;
    } else {
      LegalAt(t, h[..n], i);
      assert h[..n][..i] == h[..i] && h[..n][..i + 1] == h[..i + 1];
    }
  }

  lemma {:induction false} StaysWellFormed(t: Table, h: seq<Event>)
    requires WellFormed(t)
    ensures WellFormed(After(t, h))
  {
    if h == [] {
    } else {
      StaysWellFormed(t, h[..|h| - 1]);
    }
  }

  // Conservation of addresses.

  /** The sessions built along a history, in order. */
  function Issued(h: seq<Event>): seq<Identity> {
    if h == [] then []
    else Issued(h[..|h| - 1]) + (if h[|h| - 1].reply.New? then [h[|h| - 1].reply.session] else [])
  }

  predicate CarriesSession(r: Reply) {
    r.Existing? || r.New? || r.Found?
  }

  /** A new session takes the head of what is left of the pool; nothing else touches that. */
  lemma HeadIsIssued(pool: seq<Address>, k: nat, t: Table, op: Op)
    requires k <= |pool| && t.unused == pool[k..]
    ensures var (t', reply) := Apply(t, op);
            if reply.New? then k < |pool| && reply.session.address == pool[k] && t'.unused == pool[k + 1..]
            else t'.unused == t.unused
  {
  }

  /** The pool splits into what was issued, in order, and what is left. */
  lemma {:induction false} Conservation(t: Table, h: seq<Event>)
    requires Unused(t) && Legal(t, h)
    ensures |Issued(h)| + |After(t, h).unused| == |t.unused|
    ensures forall k :: 0 <= k < |Issued(h)| ==> Issued(h)[k].address == t.unused[k]
    ensures After(t, h).unused == t.unused[|Issued(h)|..]
  {
    hide Apply;
    if h == [] {
    } else {
      var n := |h| - 1;
      Conservation(t, h[..n]);
      HeadIsIssued(t.unused, |Issued(h[..n])|, After(t, h[..n]), h[n].op);
    }
  }

  /** What one operation puts on record or returns was on record before, unless it is new. */
  lemma SessionsCarriedOver(t: Table, op: Op)
    ensures var (t', reply) := Apply(t, op);
            && (forall imsi :: imsi in t'.live ==>
                  || (reply == New(t'.live[imsi]) && t'.live[imsi].imsi == imsi)
                  || (imsi in t.live && t'.live[imsi] == t.live[imsi]))
            && (CarriesSession(reply) && !reply.New? ==> op.imsi in t.live && reply.session == t.live[op.imsi])
  {
  }

  lemma IssuedGrows(h: seq<Event>)
    requires h != []
    ensures forall s :: s in Issued(h) <==> s in Issued(h[..|h| - 1]) || h[|h| - 1].reply == New(s)
  {
  }

  /** Every session a reply carries, and every session on record, was issued. */
  lemma {:induction false} OnlyIssuedSessions(t: Table, h: seq<Event>)
    requires Unused(t) && Legal(t, h)
    ensures forall imsi :: imsi in After(t, h).live ==>
              After(t, h).live[imsi].imsi == imsi && After(t, h).live[imsi] in Issued(h)
    ensures forall i :: 0 <= i < |h| && CarriesSession(h[i].reply) ==> h[i].reply.session in Issued(h)
  {
    hide Issued;
    if h == [] {
    } else {
      var n := |h| - 1;
      var p := h[..n];
      OnlyIssuedSessions(t, p);
      assert Apply(After(t, p), h[n].op) == (After(t, h), h[n].reply);
      hide After, Legal, Apply;
      SessionsCarriedOver(After(t, p), h[n].op);
      IssuedGrows(h);
      forall i | 0 <= i < |h| && CarriesSession(h[i].reply) ensures h[i].reply.session in Issued(h) {
        if i < n { assert p[i] == h[i]; }
      }
    }
  }

  /** The k-th session built takes the k-th address of the pool and everything else from its request. */
  lemma BuiltAsRequested(t: Table, h: seq<Event>, i: nat)
    requires Unused(t) && Legal(t, h) && i < |h| && h[i].reply.New?
    ensures h[i].op.Create? && |Issued(h[..i])| < |t.unused|
    ensures var Create(imsi, teid, peer, now) := h[i].op;
            h[i].reply.session == Identity(imsi, t.unused[|Issued(h[..i])|], teid, peer, now)
  {
    hide After, Legal;
    LegalAt(t, h, i);
    Conservation(t, h[..i]);
  }

  /** No address is ever given to two sessions, whatever is deleted in between. */
  lemma OneAddressOneSession(t: Table, h: seq<Event>, i: nat, j: nat)
    requires Unused(t) && Legal(t, h) && i < |h| && j < |h|
    requires CarriesSession(h[i].reply) && CarriesSession(h[j].reply)
    ensures h[i].reply.session.address == h[j].reply.session.address <==> h[i].reply.session == h[j].reply.session
  {
    Conservation(t, h);
    OnlyIssuedSessions(t, h);
    var a :| 0 <= a < |Issued(h)| && Issued(h)[a] == h[i].reply.session;
    var b :| 0 <= b < |Issued(h)| && Issued(h)[b] == h[j].reply.session;
  }

  // Exhaustion.

  /** Creates that arrived for an IMSI without a live session. */
  function Misses(t: Table, h: seq<Event>): nat {
    if h == [] then 0
    else
      var p, op := h[..|h| - 1], h[|h| - 1].op;
      Misses(t, p) + if op.Create? && op.imsi !in After(t, p).live then 1 else 0
  }

  lemma {:induction false} ExhaustionLaw(t: Table, h: seq<Event>)
    requires Legal(t, h)
    ensures |Issued(h)| == if Misses(t, h) <= |t.unused| then Misses(t, h) else |t.unused|
    ensures |After(t, h).unused| == |t.unused| - |Issued(h)|
  {
    if h == [] {
    } else {
      ExhaustionLaw(t, h[..|h| - 1]);
    }
  }

  /** Once a create found the pool empty, no later create builds a session, even after deletions. */
  lemma {:induction false} ExhaustionIsPermanent(t: Table, h: seq<Event>, i: nat, j: nat)
    requires Legal(t, h) && i <= j < |h| && h[i].reply.NoAddress?
    ensures After(t, h[..i + 1]) == After(t, h[..i])
    ensures After(t, h[..j]).unused == [] && !h[j].reply.New?
    ensures h[j].op.Create? ==> (h[j].reply.NoAddress? <==> h[j].op.imsi !in After(t, h[..j]).live)
  {
    hide After, Legal;
    LegalAt(t, h, i);
    LegalAt(t, h, j);
    if i == j {
    } else {
      ExhaustionIsPermanent(t, h, i, j - 1);
      LegalAt(t, h, j - 1);
    }
  }

  // What deletions do to a session that was live at some point.

  ghost predicate DeletedWithin(h: seq<Event>, i: nat, j: nat, imsi: Imsi)
    requires i <= j <= |h|
  {
    exists k :: i <= k < j && h[k].op == Delete(imsi)
  }

  ghost predicate Gone(t: Table, imsi: Imsi, s: Identity) {
    s.address !in t.unused && (imsi in t.live ==> t.live[imsi].address != s.address)
  }

  lemma {:induction false} StaysGone(t: Table, h: seq<Event>, i: nat, j: nat, imsi: Imsi, s: Identity)
    requires Legal(t, h) && i <= j <= |h| && Gone(After(t, h[..i]), imsi, s)
    ensures Gone(After(t, h[..j]), imsi, s)
  {
    hide After, Legal;
    if i == j {
    } else {
      StaysGone(t, h, i, j - 1, imsi, s);
      LegalAt(t, h, j - 1);
    }
  }

  lemma {:induction false} StaysLive(t: Table, h: seq<Event>, i: nat, j: nat, imsi: Imsi)
    requires Legal(t, h) && i <= j <= |h| && imsi in After(t, h[..i]).live && !DeletedWithin(h, i, j, imsi)
    ensures imsi in After(t, h[..j]).live && After(t, h[..j]).live[imsi] == After(t, h[..i]).live[imsi]
  {
    hide After, Legal;
    if i == j {
    } else {
      assert !DeletedWithin(h, i, j - 1, imsi) && h[j - 1].op != Delete(imsi);
      StaysLive(t, h, i, j - 1, imsi);
      LegalAt(t, h, j - 1);
    }
  }

  lemma {:induction false} FirstDeletion(t: Table, h: seq<Event>, i: nat, j: nat, imsi: Imsi)
    requires Unused(t) && Legal(t, h) && i <= j <= |h| && imsi in After(t, h[..i]).live
    requires DeletedWithin(h, i, j, imsi)
    ensures Gone(After(t, h[..j]), imsi, After(t, h[..i]).live[imsi])
    decreases j - i
  {
    hide After, Legal;
    if DeletedWithin(h, i, j - 1, imsi) {
      FirstDeletion(t, h, i, j - 1, imsi);
      StaysGone(t, h, j - 1, j, imsi, After(t, h[..i]).live[imsi]);
    } else {
      assert h[j - 1].op == Delete(imsi);
      StaysLive(t, h, i, j - 1, imsi);
      StaysWellFormed(t, h[..j - 1]);
      LegalAt(t, h, j - 1);
    }
  }

  /** A session is still the one on record exactly when its IMSI was not deleted in between. */
  lemma StillTheSameSession(t: Table, h: seq<Event>, i: nat, j: nat, imsi: Imsi)
    requires Unused(t) && Legal(t, h) && i <= j <= |h| && imsi in After(t, h[..i]).live
    ensures imsi in After(t, h[..j]).live && After(t, h[..j]).live[imsi] == After(t, h[..i]).live[imsi]
            <==> !DeletedWithin(h, i, j, imsi)
  {
    hide After, Legal;
    if DeletedWithin(h, i, j, imsi) {
      FirstDeletion(t, h, i, j, imsi);
    } else {
      StaysLive(t, h, i, j, imsi);
    }
  }

  /**
   Retransmission: whatever other traffic comes in between, a repeated create returns the session
   of the first one and consumes no address exactly when the IMSI was not deleted in between.
   */
  lemma Retransmission(t: Table, h: seq<Event>, i: nat, j: nat)
    requires Unused(t) && Legal(t, h) && i < j < |h|
    requires h[i].op.Create? && CarriesSession(h[i].reply)
    requires h[j].op.Create? && h[j].op.imsi == h[i].op.imsi
    ensures !DeletedWithin(h, i + 1, j, h[i].op.imsi) <==> h[j].reply == Existing(h[i].reply.session)
    ensures !DeletedWithin(h, i + 1, j, h[i].op.imsi) ==> After(t, h[..j + 1]) == After(t, h[..j])
  {
    LegalAt(t, h, i);
    LegalAt(t, h, j);
    StillTheSameSession(t, h, i + 1, j, h[i].op.imsi);
  }

  /** A session built later than a reply is not the session of that reply. */
  lemma NewIsNotOld(t: Table, h: seq<Event>, i: nat, j: nat)
    requires Unused(t) && Legal(t, h) && i < j < |h| && CarriesSession(h[i].reply) && h[j].reply.New?
    ensures h[i].reply.session.address != h[j].reply.session.address
  {
    LegalAt(t, h, j);
    Conservation(t, h[..j]);
    OnlyIssuedSessions(t, h[..j]);
    assert h[..j][i] == h[i];
  }

  lemma SameSessionOnRepeat(t: Table, h: seq<Event>, i: nat, j: nat)
    requires Unused(t) && Legal(t, h) && i < j < |h|
    requires h[i].op.Create? && CarriesSession(h[i].reply)
    requires h[j].op.Create? && h[j].op.imsi == h[i].op.imsi && CarriesSession(h[j].reply)
    ensures h[j].reply.session == h[i].reply.session <==> !DeletedWithin(h, i + 1, j, h[i].op.imsi)
  {
    Retransmission(t, h, i, j);
    LegalAt(t, h, j);
    if h[j].reply.New? { NewIsNotOld(t, h, i, j); }
  }
}
