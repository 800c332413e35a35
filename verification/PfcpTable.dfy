/**
 The UPF's table of PFCP sessions. Each datagram is handled by a goroutine of its own, but the only
 thing a handler does to the table happens in one critical section, so a run of the UPF is the
 sequence of those sections: a trace of messages with the times they were applied at.
 */
module PfcpTable {

  type SEID = nat

  datatype Message =
    | Heartbeat(sequence: nat)
    | AssociationSetup(sequence: nat)
    | Establishment(seid: SEID, sequence: nat)
    | Modification(seid: SEID, sequence: nat)
    | Deletion(seid: SEID, sequence: nat)
    | Unhandled

  datatype Event = Event(msg: Message, at: nat)

  datatype Record = Record(seid: SEID, createdAt: nat, updatedAt: nat)

  type Table = map<SEID, Record>

  function Apply(t: Table, e: Event): Table {
    match e.msg
    case Establishment(seid, _) => t[seid := Record(seid, e.at, e.at)]
    case Modification(seid, _) => if seid in t then t[seid := t[seid].(updatedAt := e.at)] else t
    case Deletion(seid, _) => t - {seid}
    case _ => t
  }

  datatype Response =
    | HeartbeatResponse(sequence: nat)
    | AssociationAccepted(sequence: nat)
    | EstablishmentAccepted(seid: SEID, sequence: nat)
    | ModificationAccepted(seid: SEID, sequence: nat)
    | DeletionAccepted(seid: SEID, sequence: nat)

  /** A deletion is accepted whether or not the SEID is known; a modification only if it is. */
  function Answer(t: Table, m: Message): seq<Response> {
    match m
    case Heartbeat(sequence) => [HeartbeatResponse(sequence)]
    case AssociationSetup(sequence) => [AssociationAccepted(sequence)]
    case Establishment(seid, sequence) => [EstablishmentAccepted(seid, sequence)]
    case Modification(seid, sequence) => if seid in t then [ModificationAccepted(seid, sequence)] else []
    case Deletion(seid, sequence) => [DeletionAccepted(seid, sequence)]
    case Unhandled => []
  }

  function Replay(trace: seq<Event>): Table {
    if trace == [] then map[] else Apply(Replay(trace[..|trace| - 1]), trace[|trace| - 1])
  }

  lemma ReplayStep(trace: seq<Event>, e: Event)
    ensures Replay(trace + [e]) == Apply(Replay(trace), e)
  {
    assert (trace + [e])[..|trace|] == trace;
  }

  // Which SEIDs are in the table.

  predicate Concerns(m: Message, seid: SEID) {
    (m.Establishment? || m.Modification? || m.Deletion?) && m.seid == seid
  }

  predicate Establishes(m: Message, seid: SEID) {
    m.Establishment? && m.seid == seid
  }

  predicate Deletes(m: Message, seid: SEID) {
    m.Deletion? && m.seid == seid
  }

  /** The last establishment or deletion for the SEID is an establishment. */
  predicate LastEstablished(trace: seq<Event>, seid: SEID) {
    exists i :: 0 <= i < |trace| && Establishes(trace[i].msg, seid)
                && forall j :: i < j < |trace| ==> !Deletes(trace[j].msg, seid)
  }

  lemma LastUnaffected(trace: seq<Event>, seid: SEID)
    requires trace != []
    requires var m := trace[|trace| - 1].msg; !Establishes(m, seid) && !Deletes(m, seid)
    ensures LastEstablished(trace, seid) <==> LastEstablished(trace[..|trace| - 1], seid)
  {
  }

  lemma {:induction false} ReplayLaw(trace: seq<Event>, seid: SEID)
    ensures seid in Replay(trace) <==> LastEstablished(trace, seid)
  {
    if trace == [] {
    } else {
      var n := |trace| - 1;
      ReplayLaw(trace[..n], seid);
      if Establishes(trace[n].msg, seid) {
        assert LastEstablished(trace, seid);
      } else if !Deletes(trace[n].msg, seid) {
        LastUnaffected(trace, seid);
      }
    }
  }

  function Mentioned(trace: seq<Event>): set<SEID> {
    set i | 0 <= i < |trace| && trace[i].msg.Establishment? :: trace[i].msg.seid
  }

  /** The session count is the number of SEIDs whose last establishment or deletion was an establishment. */
  lemma CountLaw(trace: seq<Event>)
    ensures Replay(trace).Keys == set seid | seid in Mentioned(trace) && LastEstablished(trace, seid)
    ensures |Replay(trace)| == |set seid | seid in Mentioned(trace) && LastEstablished(trace, seid)|
  {
    forall seid ensures seid in Replay(trace) <==> seid in Mentioned(trace) && LastEstablished(trace, seid) {
      ReplayLaw(trace, seid);
    }
    assert Replay(trace).Keys == set seid | seid in Mentioned(trace) && LastEstablished(trace, seid);
    assert |Replay(trace)| == |Replay(trace).Keys|;
  }

  lemma {:induction false} SameKeysOnward(a: seq<Event>, b: seq<Event>, rest: seq<Event>)
    requires Replay(a).Keys == Replay(b).Keys
    ensures Replay(a + rest).Keys == Replay(b + rest).Keys
  {
    if rest == [] {
      assert a + rest == a && b + rest == b;
    } else {
      var n := |rest| - 1;
      SameKeysOnward(a, b, rest[..n]);
      assert (a + rest)[..|a + rest| - 1] == a + rest[..n] && (b + rest)[..|b + rest| - 1] == b + rest[..n];
    }
  }

  /** A message delivered twice in a row leaves the same SEIDs as once, then and ever after. */
  lemma DuplicatesAreHarmless(trace: seq<Event>, m: Message, at: nat, again: nat, rest: seq<Event>)
    ensures Replay(trace + [Event(m, at), Event(m, again)] + rest).Keys == Replay(trace + [Event(m, at)] + rest).Keys
  {
    var once, twice := trace + [Event(m, at)], trace + [Event(m, at), Event(m, again)];
    assert once[..|once| - 1] == trace && twice[..|twice| - 1] == once;
    SameKeysOnward(twice, once, rest);
  }

  // Confluence.

  function Project(trace: seq<Event>, seid: SEID): seq<Event> {
    if trace == [] then []
    else Project(trace[..|trace| - 1], seid) + if Concerns(trace[|trace| - 1].msg, seid) then [trace[|trace| - 1]] else []
  }

  function Messages(trace: seq<Event>): seq<Message> {
    seq(|trace|, i requires 0 <= i < |trace| => trace[i].msg)
  }

  /** What the table holds for a SEID depends only on the messages for that SEID. */
  lemma {:induction false} ProjectionDecides(trace: seq<Event>, seid: SEID)
    ensures seid in Replay(trace) <==> seid in Replay(Project(trace, seid))
    ensures seid in Replay(trace) ==> Replay(trace)[seid] == Replay(Project(trace, seid))[seid]
  {
    if trace == [] {
    } else {
      var n := |trace| - 1;
      var p := Project(trace[..n], seid);
      ProjectionDecides(trace[..n], seid);
      if Concerns(trace[n].msg, seid) {
        assert (p + [trace[n]])[..|p|] == p;
      } else {
        assert Project(trace, seid) == p;
      }
    }
  }

  /** A record dates from the last establishment of its SEID and was touched by the last message for it. */
  lemma {:induction false} RecordLaw(trace: seq<Event>, seid: SEID)
    requires seid in Replay(trace)
    ensures Project(trace, seid) != []
    ensures Replay(trace)[seid].seid == seid
    ensures Replay(trace)[seid].updatedAt == Project(trace, seid)[|Project(trace, seid)| - 1].at
    ensures exists i :: 0 <= i < |trace| && Establishes(trace[i].msg, seid) && trace[i].at == Replay(trace)[seid].createdAt
                        && forall j :: i < j < |trace| ==> !Establishes(trace[j].msg, seid)
  {
    var n := |trace| - 1;
    var p := trace[..n];
    if Establishes(trace[n].msg, seid) {
      assert trace[n].at == Replay(trace)[seid].createdAt;
    } else {
      RecordLaw(p, seid);
      var i :| 0 <= i < n && Establishes(p[i].msg, seid) && p[i].at == Replay(p)[seid].createdAt
               && forall j :: i < j < n ==> !Establishes(p[j].msg, seid);
      forall j | i < j < |trace| ensures !Establishes(trace[j].msg, seid) {
        if j < n { assert trace[j] == p[j]; }
      }
      assert Establishes(trace[i].msg, seid) && trace[i].at == Replay(trace)[seid].createdAt;
    }
  }

  /** Traces that treat every SEID alike, at the same times, leave the same table. */
  lemma SameProjectionsSameTable(a: seq<Event>, b: seq<Event>)
    requires forall seid :: Project(a, seid) == Project(b, seid)
    ensures Replay(a) == Replay(b)
  {
    forall seid: SEID
      ensures seid in Replay(a) <==> seid in Replay(b)
      ensures seid in Replay(a) ==> Replay(a)[seid] == Replay(b)[seid]
    {
      ProjectionDecides(a, seid);
      ProjectionDecides(b, seid);
      assert Project(a, seid) == Project(b, seid);
    }
  }

  lemma {:induction false} TimesDoNotMatter(a: seq<Event>, b: seq<Event>)
    requires Messages(a) == Messages(b)
    ensures Replay(a).Keys == Replay(b).Keys
  {
    assert |Messages(a)| == |a| && |Messages(b)| == |b|;
    if a == [] {
    } else {
      var n := |a| - 1;
      assert Messages(a)[n] == a[n].msg && Messages(b)[n] == b[n].msg;
      assert Messages(a[..n]) == Messages(a)[..n] && Messages(b[..n]) == Messages(b)[..n];
      TimesDoNotMatter(a[..n], b[..n]);
    }
  }

  /**
   Confluence: two traces with the same messages per SEID, in whatever order across SEIDs and at
   whatever times, leave the same established SEIDs and the same count.
   */
  lemma Confluence(a: seq<Event>, b: seq<Event>)
    requires forall seid :: Messages(Project(a, seid)) == Messages(Project(b, seid))
    ensures Replay(a).Keys == Replay(b).Keys && |Replay(a)| == |Replay(b)|
  {
    forall seid: SEID ensures seid in Replay(a) <==> seid in Replay(b) {
      ProjectionDecides(a, seid);
      ProjectionDecides(b, seid);
      assert Messages(Project(a, seid)) == Messages(Project(b, seid));
      TimesDoNotMatter(Project(a, seid), Project(b, seid));
      assert seid in Replay(Project(a, seid)).Keys <==> seid in Replay(Project(b, seid)).Keys;
    }
    assert Replay(a).Keys == Replay(b).Keys;
    assert |Replay(a)| == |Replay(a).Keys| && |Replay(b)| == |Replay(b).Keys|;
  }
}
