/**
 Each datagram has a goroutine of its own, so messages of one SEID may be handled in any order. Which
 SEIDs are left, and which responses are sent, whatever the order.
 */
module PfcpOrder {
  import opened PfcpTable

  // Which SEIDs are left.

  ghost predicate EveryOrderLeavesTheSame(trace: seq<Event>) {
    forall p: seq<Event> :: multiset(p) == multiset(trace) ==> Replay(p).Keys == Replay(trace).Keys
  }

  predicate Established(trace: seq<Event>, seid: SEID) {
    exists i :: 0 <= i < |trace| && Establishes(trace[i].msg, seid)
  }

  predicate Deleted(trace: seq<Event>, seid: SEID) {
    exists j :: 0 <= j < |trace| && Deletes(trace[j].msg, seid)
  }

  predicate Modifies(m: Message, seid: SEID) {
    m.Modification? && m.seid == seid
  }

  predicate Modified(trace: seq<Event>, seid: SEID) {
    exists j :: 0 <= j < |trace| && Modifies(trace[j].msg, seid)
  }

  lemma SameMessages(a: seq<Event>, b: seq<Event>)
    requires multiset(a) == multiset(b)
    ensures forall seid :: Established(a, seid) ==> Established(b, seid)
    ensures forall seid :: Deleted(a, seid) ==> Deleted(b, seid)
    ensures forall seid :: Modified(a, seid) ==> Modified(b, seid)
  {
    forall i | 0 <= i < |a| ensures exists j :: 0 <= j < |b| && b[j] == a[i] {
      assert a[i] in multiset(b);
    }
  }

  lemma PeacefulOrdersAgree(a: seq<Event>, b: seq<Event>, seid: SEID)
    requires multiset(a) == multiset(b) && !(Established(a, seid) && Deleted(a, seid))
    ensures seid in Replay(a) <==> seid in Replay(b)
  {
    ReplayLaw(a, seid);
    ReplayLaw(b, seid);
    SameMessages(a, b);
    SameMessages(b, a);
    if Established(a, seid) {
      var i :| 0 <= i < |a| && Establishes(a[i].msg, seid);
      var j :| 0 <= j < |b| && Establishes(b[j].msg, seid);
      assert LastEstablished(a, seid) && LastEstablished(b, seid);
    }
  }

  function Without(trace: seq<Event>, i: nat): seq<Event>
    requires i < |trace|
  {
    trace[..i] + trace[i + 1..]
  }

  lemma WithoutOne(trace: seq<Event>, i: nat)
    requires i < |trace|
    ensures multiset(trace) == multiset(Without(trace, i)) + multiset{trace[i]}
  {
    assert trace == trace[..i] + [trace[i]] + trace[i + 1..];
  }

  /** Two events of a trace, and the rest of it. */
  lemma TakeTwo(trace: seq<Event>, i: nat, j: nat) returns (rest: seq<Event>)
    requires i < |trace| && j < |trace| && i != j
    ensures multiset(trace) == multiset(rest) + multiset{trace[i]} + multiset{trace[j]}
  {
    var part, k := Without(trace, i), if j < i then j else j - 1;
    assert part[k] == trace[j];
    rest := Without(part, k);
    hide Without;
    WithoutOne(trace, i);
    WithoutOne(part, k);
  }

  lemma EitherLast(rest: seq<Event>, est: Event, del: Event, seid: SEID)
    requires Establishes(est.msg, seid) && Deletes(del.msg, seid)
    ensures seid in Replay(rest + [del] + [est]) && seid !in Replay(rest + [est] + [del])
  {
  }

  lemma DeletionDecidedByOrder(trace: seq<Event>, seid: SEID) returns (a: seq<Event>, b: seq<Event>)
    requires Established(trace, seid) && Deleted(trace, seid)
    ensures multiset(a) == multiset(trace) == multiset(b)
    ensures seid in Replay(a) && seid !in Replay(b)
  {
    var i :| 0 <= i < |trace| && Establishes(trace[i].msg, seid);
    var j :| 0 <= j < |trace| && Deletes(trace[j].msg, seid);
    var rest := TakeTwo(trace, i, j);
    a, b := rest + [trace[j]] + [trace[i]], rest + [trace[i]] + [trace[j]];
    EitherLast(rest, trace[i], trace[j], seid);
  }

  /** Every order of handling leaves the same SEIDs exactly when no SEID is both established and deleted. */
  lemma OrderDecidesSEIDsOnlyInConflict(trace: seq<Event>)
    ensures EveryOrderLeavesTheSame(trace) <==> forall seid :: !(Established(trace, seid) && Deleted(trace, seid))
  {
    if seid :| Established(trace, seid) && Deleted(trace, seid) {
      var a, b := DeletionDecidedByOrder(trace, seid);
      assert seid in Replay(a).Keys && seid !in Replay(b).Keys;
    } else {
      forall p: seq<Event> | multiset(p) == multiset(trace) ensures Replay(p).Keys == Replay(trace).Keys {
        forall seid: SEID ensures seid in Replay(p) <==> seid in Replay(trace) {
          PeacefulOrdersAgree(trace, p, seid);
        }
      }
    }
  }

  // Which responses are sent.

  /** How many times the response is sent when the trace is handled and every send goes through. */
  function TimesSent(trace: seq<Event>, r: Response): nat {
    if trace == [] then 0
    else
      var n := |trace| - 1;
      TimesSent(trace[..n], r) + if r in Answer(Replay(trace[..n]), trace[n].msg) then 1 else 0
  }

  /** The i-th message is the one that this response answers. */
  predicate Asks(trace: seq<Event>, i: nat, r: Response)
    requires i < |trace|
  {
    match r
    case HeartbeatResponse(sequence) => trace[i].msg == Heartbeat(sequence)
    case AssociationAccepted(sequence) => trace[i].msg == AssociationSetup(sequence)
    case EstablishmentAccepted(seid, sequence) => trace[i].msg == Establishment(seid, sequence)
    case ModificationAccepted(seid, sequence) =>
      trace[i].msg == Modification(seid, sequence) && LastEstablished(trace[..i], seid)
    case DeletionAccepted(seid, sequence) => trace[i].msg == Deletion(seid, sequence)
  }

  lemma AnswerLaw(trace: seq<Event>, i: nat, r: Response)
    requires i < |trace|
    ensures r in Answer(Replay(trace[..i]), trace[i].msg) <==> Asks(trace, i, r)
  {
    if r.ModificationAccepted? { ReplayLaw(trace[..i], r.seid); }
  }

  /** Where the response is asked for. */
  function AskedAt(trace: seq<Event>, r: Response): set<nat> {
    set i: nat | 0 <= i < |trace| && Asks(trace, i, r)
  }

  lemma AskedNext(trace: seq<Event>, r: Response)
    requires trace != []
    ensures var n := |trace| - 1;
            && n !in AskedAt(trace[..n], r)
            && AskedAt(trace, r) == AskedAt(trace[..n], r) + if Asks(trace, n, r) then {n} else {}
  {
    var n := |trace| - 1;
    forall i | 0 <= i < n ensures Asks(trace[..n], i, r) <==> Asks(trace, i, r) {
      assert trace[..n][..i] == trace[..i];
    }
  }

  /**
   Each response is sent as often as a message asks for it: its own message with its own SEID and
   sequence number, and for a modification only while the SEID is established.
   */
  lemma {:induction false} EveryMessageIsAnswered(trace: seq<Event>, r: Response)
    ensures TimesSent(trace, r) == |AskedAt(trace, r)|
  {
    hide Asks, Answer, Replay;
    if trace == [] {
      assert AskedAt(trace, r) == {};
    } else {
      hide AskedAt;
      var n := |trace| - 1;
      EveryMessageIsAnswered(trace[..n], r);
      AnswerLaw(trace, n, r);
      AskedNext(trace, r);
    }
  }

  ghost predicate EveryOrderAnswersTheSame(trace: seq<Event>) {
    forall p: seq<Event>, r :: multiset(p) == multiset(trace) ==> TimesSent(p, r) == TimesSent(trace, r)
  }

  /** The same for a UPF whose table stays empty. */
  function TimesUnconditional(trace: seq<Event>, r: Response): nat {
    if trace == [] then 0
    else TimesUnconditional(trace[..|trace| - 1], r) + if r in Answer(map[], trace[|trace| - 1].msg) then 1 else 0
  }

  /** A SEID that is modified and never established is never answered. */
  lemma {:induction false} AnswersAreUnconditional(trace: seq<Event>, r: Response)
    requires forall seid :: !(Established(trace, seid) && Modified(trace, seid))
    ensures TimesSent(trace, r) == TimesUnconditional(trace, r)
  {
    if trace == [] {
    } else {
      var n := |trace| - 1;
      var p, m := trace[..n], trace[n].msg;
      forall seid ensures Established(p, seid) ==> Established(trace, seid) ensures Modified(p, seid) ==> Modified(trace, seid) {
      }
      AnswersAreUnconditional(p, r);
      if m.Modification? {
        assert Modified(trace, m.seid);
        ReplayLaw(p, m.seid);
      }
    }
  }

  lemma WithoutInFront(trace: seq<Event>, i: nat)
    requires i < |trace| - 1
    ensures Without(trace, i) == Without(trace[..|trace| - 1], i) + [trace[|trace| - 1]]
  {
  }

  lemma {:induction false} UnconditionalWithout(trace: seq<Event>, i: nat, r: Response)
    requires i < |trace|
    ensures TimesUnconditional(trace, r) ==
            TimesUnconditional(Without(trace, i), r) + if r in Answer(map[], trace[i].msg) then 1 else 0
  {
    hide Answer;
    var n := |trace| - 1;
    if i == n {
      assert Without(trace, i) == trace[..n];
    } else {
      UnconditionalWithout(trace[..n], i, r);
      WithoutInFront(trace, i);
      hide Without;
    }
  }

  lemma LastElsewhere(a: seq<Event>, b: seq<Event>) returns (j: nat)
    requires multiset(a) == multiset(b) && a != []
    ensures j < |b| && b[j] == a[|a| - 1] && multiset(a[..|a| - 1]) == multiset(Without(b, j))
  {
    var n := |a| - 1;
    assert a[n] in multiset(b);
    j :| 0 <= j < |b| && b[j] == a[n];
    assert Without(a, n) == a[..n];
    WithoutOne(a, n);
    WithoutOne(b, j);
    hide Without;
    assert multiset(Without(a, n)) == multiset(a) - multiset{a[n]} && multiset(Without(b, j)) == multiset(b) - multiset{b[j]};
  }

  lemma {:induction false} UnconditionalInAnyOrder(a: seq<Event>, b: seq<Event>, r: Response)
    requires multiset(a) == multiset(b)
    ensures TimesUnconditional(a, r) == TimesUnconditional(b, r)
  {
    if a == [] {
      assert |multiset(b)| == |b|;
    } else {
      hide Without, Answer;
      var j := LastElsewhere(a, b);
      UnconditionalWithout(b, j, r);
      UnconditionalInAnyOrder(a[..|a| - 1], Without(b, j), r);
    }
  }

  lemma SameKeysSameAnswer(t: Table, u: Table, m: Message)
    requires t.Keys == u.Keys
    ensures Answer(t, m) == Answer(u, m)
  {
    if m.Modification? { assert m.seid in t.Keys <==> m.seid in u.Keys; }
  }

  lemma TimesSentStep(trace: seq<Event>, e: Event, r: Response)
    ensures TimesSent(trace + [e], r) == TimesSent(trace, r) + if r in Answer(Replay(trace), e.msg) then 1 else 0
  {
    assert (trace + [e])[..|trace|] == trace;
  }

  /** From tables with the same SEIDs on, the same messages get the same answers. */
  lemma {:induction false} SameAnswersOnward(a: seq<Event>, b: seq<Event>, rest: seq<Event>, r: Response)
    requires Replay(a).Keys == Replay(b).Keys
    ensures TimesSent(a + rest, r) - TimesSent(a, r) == TimesSent(b + rest, r) - TimesSent(b, r)
  {
    hide TimesSent, Replay, Answer;
    if rest == [] {
      assert a + rest == a && b + rest == b;
    } else {
      var front, e := rest[..|rest| - 1], rest[|rest| - 1];
      SameAnswersOnward(a, b, front, r);
      SameKeysOnward(a, b, front);
      assert a + rest == a + front + [e] && b + rest == b + front + [e];
      TimesSentStep(a + front, e, r);
      TimesSentStep(b + front, e, r);
      SameKeysSameAnswer(Replay(a + front), Replay(b + front), e.msg);
    }
  }

  /** Modification first is not answered, establishment first is. */
  lemma EitherFirst(est: Event, mod: Event, seid: SEID)
    requires Establishes(est.msg, seid) && Modifies(mod.msg, seid)
    ensures Replay([est, mod]).Keys == Replay([mod, est]).Keys
    ensures var r := ModificationAccepted(seid, mod.msg.sequence);
            TimesSent([est, mod], r) == 1 && TimesSent([mod, est], r) == 0
  {
    var r := ModificationAccepted(seid, mod.msg.sequence);
    assert [] + [est] == [est] && [] + [mod] == [mod] && [est] + [mod] == [est, mod] && [mod] + [est] == [mod, est];
    ReplayStep([], est);
    ReplayStep([], mod);
    ReplayStep([est], mod);
    ReplayStep([mod], est);
    TimesSentStep([], est, r);
    TimesSentStep([], mod, r);
    TimesSentStep([est], mod, r);
    TimesSentStep([mod], est, r);
  }

  lemma ModificationDecidedByOrder(trace: seq<Event>, seid: SEID) returns (a: seq<Event>, b: seq<Event>, r: Response)
    requires Established(trace, seid) && Modified(trace, seid)
    ensures multiset(a) == multiset(trace) == multiset(b) && TimesSent(a, r) != TimesSent(b, r)
  {
    var i :| 0 <= i < |trace| && Establishes(trace[i].msg, seid);
    var j :| 0 <= j < |trace| && Modifies(trace[j].msg, seid);
    var rest := TakeTwo(trace, i, j);
    var first, second := [trace[i], trace[j]], [trace[j], trace[i]];
    r := ModificationAccepted(seid, trace[j].msg.sequence);
    EitherFirst(trace[i], trace[j], seid);
    SameAnswersOnward(first, second, rest, r);
    a, b := first + rest, second + rest;
  }

  /** Every order of handling sends the same responses exactly when no SEID is both established and modified. */
  lemma OrderDecidesAnswersOnlyForModified(trace: seq<Event>)
    ensures EveryOrderAnswersTheSame(trace) <==> forall seid :: !(Established(trace, seid) && Modified(trace, seid))
  {
    if seid :| Established(trace, seid) && Modified(trace, seid) {
      var a, b, r := ModificationDecidedByOrder(trace, seid);
    } else {
      forall p: seq<Event>, r | multiset(p) == multiset(trace) ensures TimesSent(p, r) == TimesSent(trace, r) {
        SameMessages(p, trace);
        AnswersAreUnconditional(trace, r);
        AnswersAreUnconditional(p, r);
        UnconditionalInAnyOrder(p, trace, r);
      }
    }
  }

  /**
   The order of handling cannot be told, from the responses or from the SEIDs left, exactly when no
   SEID that is established is also modified or deleted.
   */
  lemma OrderMattersOnlyInConflict(trace: seq<Event>)
    ensures EveryOrderAnswersTheSame(trace) && EveryOrderLeavesTheSame(trace) <==>
            forall seid :: Established(trace, seid) ==> !Modified(trace, seid) && !Deleted(trace, seid)
  {
    OrderDecidesSEIDsOnlyInConflict(trace);
    OrderDecidesAnswersOnlyForModified(trace);
  }
}
