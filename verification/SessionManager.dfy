/** The in-memory session manager of cmd/smf/main.go, with its slice of addresses and its cursor. */
module InMemorySmf {
  import opened Wrappers
  import opened ByteOrder
  import opened AddressPool
  import opened SmfSpec

  const DEFAULT_BEARER := 5
  const DEFAULT_QCI := 9
  const DEFAULT_ARP := 1

  datatype SessionState = INITIALIZING | ACTIVE | DELETING | DELETED

  class Session {
    const imsi: Imsi
    const ueIP: array<byte>
    const teid: nat
    const peerAddr: string
    const createdAt: nat
    const bearerID: nat
    const qci: nat
    const arp: nat
    var lastUpdated: nat
    var state: SessionState

    constructor (imsi: Imsi, ueIP: array<byte>, teid: nat, peerAddr: string, createdAt: nat, lastUpdated: nat)
      ensures this.ueIP == ueIP && Identity() == SmfSpec.Identity(imsi, ueIP[..], teid, peerAddr, createdAt)
      ensures state == INITIALIZING && this.lastUpdated == lastUpdated && HasDefaultBearer()
    {
      this.imsi, this.ueIP, this.teid, this.peerAddr := imsi, ueIP, teid, peerAddr;
      this.createdAt, this.lastUpdated, this.state := createdAt, lastUpdated, INITIALIZING;
      this.bearerID, this.qci, this.arp := DEFAULT_BEARER, DEFAULT_QCI, DEFAULT_ARP;
    }

    ghost function Identity(): Identity
      reads ueIP
    {
      SmfSpec.Identity(imsi, ueIP[..], teid, peerAddr, createdAt)
    }

    ghost predicate HasDefaultBearer() {
      bearerID == 5 && qci == 9 && arp == 1
    }
  }

  /** What goes out on the wire; the address is the byte string at the time of sending. */
  datatype Response =
    | CreateAccepted(headerTEID: nat, sequence: nat, imsi: Imsi, fTEID: nat, ueIP: Address, ebi: nat, qci: nat, arp: nat)
    | DeleteAccepted(headerTEID: nat, sequence: nat, imsi: Imsi)

  datatype Outcome = Accepted | MissingIMSI | NoIPsAvailable | SessionNotFound | SendFailed

  ghost predicate NoRepeats<T>(s: seq<T>) {
    forall i, j :: 0 <= i < j < |s| ==> s[i] != s[j]
  }

  class SessionManager {
    var sessions: map<Imsi, Session>
    var ipPool: seq<array<byte>>
    var nextIPIndex: nat
    ghost const addresses: seq<Address>  // the bytes of the pool, fixed at start-up
    ghost var live: map<Imsi, Identity>  // what the sessions on record stand for
    ghost var created: seq<Session>      // every session ever built, live or deleted
    ghost var sent: seq<Response>        // every response ever sent

    ghost predicate PoolValid()
      reads this, ipPool
    {
      && |ipPool| == |addresses|
      && (forall k :: 0 <= k < |ipPool| ==> ipPool[k][..] == addresses[k])
      && NoRepeats(addresses) && NoRepeats(ipPool)
      && nextIPIndex <= |ipPool|
    }

    /** Sessions ever built and addresses ever issued correspond one to one, in order. */
    ghost predicate Valid()
      reads this, ipPool, created
    {
      PoolValid() && SessionsValid() && nextIPIndex == |created|
    }

    ghost predicate SessionsValid()
      reads this, ipPool, created
    {
      && |created| <= |ipPool|
      && (forall k :: 0 <= k < |created| ==> created[k].ueIP == ipPool[k] && created[k].HasDefaultBearer())
      && (forall k :: 0 <= k < |created| ==> created[k].state in {INITIALIZING, ACTIVE})
      && sessions.Keys == live.Keys
      && (forall imsi :: imsi in sessions ==>
            sessions[imsi] in created && sessions[imsi].imsi == imsi && sessions[imsi].Identity() == live[imsi])
    }

    /** The atomic table that the maps, the slice and the cursor stand for. */
    ghost function Abstract(): Table
      reads this
      requires nextIPIndex <= |addresses|
    {
      Table(live, addresses[nextIPIndex..])
    }

    constructor (start: array<byte>, end: array<byte>)
      requires start.Length == end.Length
      ensures Valid() && Abstract() == Table(map[], Range(start[..], end[..]))
      ensures created == [] && sent == [] && forall k :: 0 <= k < |ipPool| ==> fresh(ipPool[k])
    {
      var pool := InitIPPool(start, end);
      RangeProperties(start[..], end[..]);
      sessions, ipPool, nextIPIndex := map[], pool, 0;
      addresses, live, created, sent := Range(start[..], end[..]), map[], [], [];
    }

    method AllocateIP() returns (ip: Option<array<byte>>)
      requires PoolValid()
      modifies this`nextIPIndex
      ensures PoolValid()
      ensures ip.None? <==> old(nextIPIndex) == |ipPool|
      ensures nextIPIndex == old(nextIPIndex) + if ip.Some? then 1 else 0
      ensures ip.Some? ==> addresses[old(nextIPIndex)..] == [ip.value[..]] + addresses[nextIPIndex..]
      ensures ip.Some? ==> ip.value == ipPool[old(nextIPIndex)]
    {
      if nextIPIndex >= |ipPool| {
        return None;
      }
      ip := Some(ipPool[nextIPIndex]);
      nextIPIndex := nextIPIndex + 1;
    }

    method Register(session: Session)
      requires PoolValid() && SessionsValid() && nextIPIndex == |created| + 1
      requires session.ueIP == ipPool[|created|] && session.state == INITIALIZING && session.HasDefaultBearer()
      modifies this`sessions, this`created, this`live
      ensures Valid() && created == old(created) + [session]
      ensures sessions == old(sessions)[session.imsi := session]
      ensures live == old(live)[session.imsi := session.Identity()]
    {
      hide NoRepeats;
      sessions := sessions[session.imsi := session];
      live, created := live[session.imsi := session.Identity()], created + [session];
    }

    method CreateSession(imsi: Imsi, teid: nat, peerAddr: string, now: nat) returns (s: Option<Session>)
      requires Valid()
      modifies this`sessions, this`nextIPIndex, this`created, this`live
      ensures Valid()
      ensures Abstract() == Apply(old(Abstract()), Create(imsi, teid, peerAddr, now)).0
      ensures var reply := Apply(old(Abstract()), Create(imsi, teid, peerAddr, now)).1;
              && (s.None? <==> reply.NoAddress?)
              && (s.Some? ==> s.value in created && s.value.Identity() == reply.session)
              && (reply.Existing? ==> s == Some(old(sessions)[imsi]))
              && (reply.New? ==> fresh(s.value))
      ensures s.Some? && imsi !in old(sessions) ==> fresh(s.value) && s.value.state == INITIALIZING && s.value.lastUpdated == now
      ensures created == old(created) + if s.Some? && imsi !in old(sessions) then [s.value] else []
      ensures s.Some? ==> s.value in old(created) || fresh(s.value)
      ensures sessions == if s.Some? then old(sessions)[imsi := s.value] else old(sessions)
    {
      hide NoRepeats;
      if imsi in sessions {
        return Some(sessions[imsi]);
      }
      var ueIP := AllocateIP();
      if ueIP.None? {
        return None;
      }
      var session := new Session(imsi, ueIP.value, teid, peerAddr, now, now);
      Register(session);
      s := Some(session);
    }

    method GetSession(imsi: Imsi) returns (s: Option<Session>)
      requires Valid()
      ensures s == if imsi in sessions then Some(sessions[imsi]) else None
      ensures match Apply(Abstract(), Get(imsi)).1
              case Found(id) => s.Some? && s.value.Identity() == id
              case _ => s.None?
    {
      if imsi in sessions {
        return Some(sessions[imsi]);
      }
      return None;
    }

    method DeleteSession(imsi: Imsi)
      requires Valid()
      modifies this`sessions, this`live
      ensures Valid() && sessions == old(sessions) - {imsi}
      ensures Abstract() == Apply(old(Abstract()), Delete(imsi)).0
    {
      hide NoRepeats;
      sessions, live := sessions - {imsi}, live - {imsi};
    }

    ghost method Send(response: Response)
      requires Valid()
      modifies this`sent
      ensures Valid() && sent == old(sent) + [response]
    {
      sent := sent + [response];
    }

    /** The second half of the create handler: the response goes out, then the session turns ACTIVE. */
    method RespondAndActivate(s: Session, imsi: Imsi, teid: nat, sequence: nat, later: nat)
      requires Valid() && s in created
      modifies this`sent, s
      ensures Valid() && s.state == ACTIVE && s.lastUpdated == later
      ensures sent == old(sent) + [CreateAccepted(teid, sequence, imsi, s.Identity().teid, s.Identity().address,
                                                  5, 9, 1)]
    {
      var response := CreateAccepted(teid, sequence, imsi, s.teid, s.ueIP[..], s.bearerID, s.qci, s.arp);
      Send(response);
      s.state := ACTIVE;
      s.lastUpdated := later;
    }

    /**
     One Create Session Request start to finish, with nothing running beside it. The session turns
     ACTIVE only once its response is out; a failed send leaves it INITIALIZING and on record.
     */
    method HandleCreateSessionRequest(imsi: Option<Imsi>, teid: nat, sequence: nat, peerAddr: string,
                                      now: nat, later: nat, sendOk: bool)
      returns (outcome: Outcome, ghost s: Option<Session>)
      requires Valid()
      modifies this`sessions, this`nextIPIndex, this`created, this`live, this`sent, created
      ensures Valid() && old(created) <= created
      ensures imsi.None? ==> outcome == MissingIMSI && Abstract() == old(Abstract())
      ensures imsi.Some? ==>
        var (t, reply) := Apply(old(Abstract()), Create(imsi.value, teid, peerAddr, now));
        && Abstract() == t
        && outcome == (if reply.NoAddress? then NoIPsAvailable else if sendOk then Accepted else SendFailed)
        && (s.Some? <==> !reply.NoAddress?)
        && (s.Some? ==> sessions == old(sessions)[imsi.value := s.value] && s.value.Identity() == reply.session)
      ensures outcome == Accepted ==>
              imsi.Some? && s.Some?
              && s.value.state == ACTIVE && s.value.lastUpdated == later
              && sent == old(sent) + [CreateAccepted(teid, sequence, imsi.value, s.value.teid, s.value.ueIP[..],
                                                     5, 9, 1)]
      ensures outcome != Accepted ==> sent == old(sent)
      ensures outcome == SendFailed && imsi.value !in old(sessions) ==>
                fresh(s.value) && s.value.state == INITIALIZING && s.value.lastUpdated == now
      ensures forall o :: o in old(created) && (outcome != Accepted || s != Some(o)) ==> unchanged(o)
    {
      hide Valid;
      s := None;
      if imsi.None? {
        outcome := MissingIMSI;
        return;
      }
      var session := CreateSession(imsi.value, teid, peerAddr, now);
      s := session;
      if session.None? {
        outcome := NoIPsAvailable;
        return;
      }
      if !sendOk {
        outcome := SendFailed;
        return;
      }
      RespondAndActivate(session.value, imsi.value, teid, sequence, later);
      outcome := Accepted;
    }

    method HandleDeleteSessionRequest(imsi: Option<Imsi>, teid: nat, sequence: nat, sendOk: bool)
      returns (outcome: Outcome)
      requires Valid()
      modifies this`sessions, this`live, this`sent
      ensures Valid()
      ensures outcome == if imsi.None? then MissingIMSI
                         else if imsi.value !in old(Abstract()).live then SessionNotFound
                         else if sendOk then Accepted else SendFailed
      ensures outcome == Accepted ==>
                && Abstract() == Apply(old(Abstract()), Delete(imsi.value)).0
                && sent == old(sent) + [DeleteAccepted(teid, sequence, imsi.value)]
      ensures outcome != Accepted ==> Abstract() == old(Abstract()) && sent == old(sent)
    {
      hide Valid;
      if imsi.None? {
        return MissingIMSI;
      }
      var session := GetSession(imsi.value);
      if session.None? {
        return SessionNotFound;
      }
      if !sendOk {
        return SendFailed;
      }
      Send(DeleteAccepted(teid, sequence, imsi.value));
      DeleteSession(imsi.value);
      outcome := Accepted;
    }
  }

  /** No two sessions ever built, live or deleted, share an address or an address array. */
  lemma CreatedSessionsAreSeparate(sm: SessionManager, i: nat, j: nat)
    requires sm.Valid() && i < j < |sm.created|
    ensures sm.created[i] != sm.created[j] && sm.created[i].ueIP != sm.created[j].ueIP
    ensures sm.created[i].Identity().address != sm.created[j].Identity().address
    ensures sm.created[i].Identity().address == sm.addresses[i]
  {
  }
}
