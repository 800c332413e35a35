/** The UPF of upf/pkg/upf/upf.go: the handlers behind handlePFCP and the session objects they update. */
module UserPlane {
  import opened PfcpTable

  class Session {
    const seid: SEID
    const createdAt: nat
    var updatedAt: nat

    constructor (seid: SEID, now: nat)
      ensures Value() == Record(seid, now, now)
    {
      this.seid, createdAt, updatedAt := seid, now, now;
    }

    function Value(): Record
      reads this
    {
      Record(seid, createdAt, updatedAt)
    }
  }

  /** The objects hold the table's records; no two SEIDs share an object. */
  ghost predicate Consistent(sessions: map<SEID, Session>, table: Table)
    reads sessions.Values
  {
    && sessions.Keys == table.Keys
    && (forall a, b :: a in sessions && b in sessions && a != b ==> sessions[a] != sessions[b])
    && (forall seid :: seid in sessions ==> sessions[seid].Value() == table[seid])
  }

  class UPF {
    var sessions: map<SEID, Session>
    ghost var table: Table             // what the session objects hold
    ghost var trace: seq<Event>        // every message handled
    ghost var sent: seq<Response>      // every response that got out

    /** The objects hold what replaying the trace gives. */
    ghost predicate Valid()
      reads this, sessions.Values
    {
      Consistent(sessions, table) && table == Replay(trace)
    }

    constructor ()
      ensures Valid() && trace == [] && sent == []
    {
      sessions, table, trace, sent := map[], map[], [], [];
    }

    method GetSessionCount() returns (n: nat)
      requires Valid()
      ensures n == |set seid | seid in Mentioned(trace) && LastEstablished(trace, seid)|
    {
      CountLaw(trace);
      n := |sessions|;
      assert |sessions| == |sessions.Keys|;
    }

    ghost method SendPFCP(response: Response, sendOk: bool)
      modifies this`sent
      ensures sent == old(sent) + if sendOk then [response] else []
    {
      if sendOk {
        sent := sent + [response];
      }
    }

    method HandleSessionEstablishmentRequest(seid: SEID, sequence: nat, now: nat, sendOk: bool)
      requires Consistent(sessions, table)
      modifies this`sessions, this`table, this`sent
      ensures Consistent(sessions, table) && table == Apply(old(table), Event(Establishment(seid, sequence), now))
      ensures sent == old(sent) + if sendOk then [EstablishmentAccepted(seid, sequence)] else []
      ensures seid in sessions && fresh(sessions[seid]) && sessions == old(sessions)[seid := sessions[seid]]
      ensures sessions[seid].Value() == Record(seid, now, now)
    {
      var session := new Session(seid, now);
      sessions := sessions[seid := session];
      table := table[seid := session.Value()];
      SendPFCP(EstablishmentAccepted(seid, sequence), sendOk);
    }

    method HandleSessionModificationRequest(seid: SEID, sequence: nat, now: nat, sendOk: bool)
      requires Consistent(sessions, table)
      modifies this`table, this`sent, sessions.Values
      ensures Consistent(sessions, table) && table == Apply(old(table), Event(Modification(seid, sequence), now))
      ensures sent == old(sent) + if sendOk && seid in sessions then [ModificationAccepted(seid, sequence)] else []
      ensures seid in sessions ==> sessions[seid].updatedAt == now
      ensures forall s :: s in sessions.Values && !(seid in sessions && s == sessions[seid]) ==> unchanged(s)
    {
      var known := seid in sessions;
      if known {
        sessions[seid].updatedAt := now;
        table := table[seid := table[seid].(updatedAt := now)];
      }
      if !known {
        return;
      }
      SendPFCP(ModificationAccepted(seid, sequence), sendOk);
    }

    method HandleSessionDeletionRequest(seid: SEID, sequence: nat, now: nat, sendOk: bool)
      requires Consistent(sessions, table)
      modifies this`sessions, this`table, this`sent
      ensures Consistent(sessions, table) && table == Apply(old(table), Event(Deletion(seid, sequence), now))
      ensures sent == old(sent) + if sendOk then [DeletionAccepted(seid, sequence)] else []
      ensures sessions == old(sessions) - {seid}
    {
      sessions := sessions - {seid};
      table := table - {seid};
      SendPFCP(DeletionAccepted(seid, sequence), sendOk);
    }

    /** The type switch, then the handler; messages that carry no SEID leave the table alone. */
    method HandlePFCP(m: Message, now: nat, sendOk: bool)
      requires Valid()
      modifies this, sessions.Values
      ensures Valid() && trace == old(trace) + [Event(m, now)]
      ensures table == Apply(old(table), Event(m, now))
      ensures sent == old(sent) + if sendOk then Answer(old(table), m) else []
      ensures sendOk ==>
                match m
                case Heartbeat(sequence) => sent == old(sent) + [HeartbeatResponse(sequence)]
                case AssociationSetup(sequence) => sent == old(sent) + [AssociationAccepted(sequence)]
                case Establishment(seid, sequence) => sent == old(sent) + [EstablishmentAccepted(seid, sequence)]
                case Modification(seid, sequence) =>
                  sent == old(sent) + if seid in old(sessions) then [ModificationAccepted(seid, sequence)] else []
                case Deletion(seid, sequence) => sent == old(sent) + [DeletionAccepted(seid, sequence)]
                case Unhandled => sent == old(sent)
      ensures forall s :: s in old(sessions.Values) && !(m.Modification? && m.seid in old(sessions) && s == old(sessions)[m.seid]) ==>
                unchanged(s)
    {
      hide Consistent, Replay;
      ReplayStep(trace, Event(m, now));
      match m {
        case Heartbeat(sequence) => SendPFCP(HeartbeatResponse(sequence), sendOk);
        case AssociationSetup(sequence) => SendPFCP(AssociationAccepted(sequence), sendOk);
        case Establishment(seid, sequence) => HandleSessionEstablishmentRequest(seid, sequence, now, sendOk);
        case Modification(seid, sequence) => HandleSessionModificationRequest(seid, sequence, now, sendOk);
        case Deletion(seid, sequence) => HandleSessionDeletionRequest(seid, sequence, now, sendOk);
        case Unhandled =>
      }
      trace := trace + [Event(m, now)];
    }
  }
}
