/** What each unlocked Redis handler does to the store and reports, on every schedule of any number of them. */
module RedisResults {
  import opened Wrappers
  import opened RedisSpec
  import opened RedisHandlers

  /** A step of a handler that is about to write changes what its IMSI reads, and no other step changes any read. */
  lemma WritesAreSeen(w: World, c: Choice, imsi: Imsi, at: nat)
    requires Valid(w)
    ensures Lookup(Next(w, c).store, imsi, at, true) ==
            if c.thread < |w.threads| && w.threads[c.thread].pc.Writing? && w.threads[c.thread].call.imsi == imsi && !c.write.Failed?
            then
              var r := w.threads[c.thread].pc.record;
              var expired := at >= c.now + 86_400_000_000_000;
              match w.threads[c.thread].call
              case CreateCall(_, _, _) => if expired then None else Some(r)
              case ModifyCall(_) => if expired then None else Some(r.(lastUpdated := c.now))
              case DeleteCall(_) => None
            else Lookup(w.store, imsi, at, true)
  {
    if c.thread < |w.threads| {
      assert ThreadValid(w, c.thread);
      KeyInjective(w.threads[c.thread].call.imsi, imsi);
    }
  }

  /** The i-th choice moves thread t, which is then at this point. */
  predicate MovesAt(w: World, schedule: seq<Choice>, i: nat, t: nat, pc: PC)
    requires t < |w.threads|
  {
    i < |schedule| && schedule[i].thread == t && Run(w, schedule[..i]).threads[t].pc == pc
  }

  lemma MovesLater(w: World, schedule: seq<Choice>, i: nat, t: nat, pc: PC)
    requires t < |w.threads| && schedule != [] && MovesAt(Next(w, schedule[0]), schedule[1..], i, t, pc)
    ensures MovesAt(w, schedule, i + 1, t, pc)
  {
    Later(w, schedule, i);
  }

  /** What a handler returns once it has written record r. */
  function AfterWrite(call: Call, r: Record, c: Choice): Option<Record> {
    if !c.write.Done? then None
    else if call.ModifyCall? then Some(r.(lastUpdated := c.now))
    else Some(r)
  }

  lemma {:induction false} WriteEnds(w: World, schedule: seq<Choice>, t: nat) returns (j: nat)
    requires t < |w.threads| && w.threads[t].pc.Writing? && Run(w, schedule).threads[t].pc.Finished?
    ensures MovesAt(w, schedule, j, t, w.threads[t].pc)
    ensures Run(w, schedule).threads[t].pc.result == AfterWrite(w.threads[t].call, w.threads[t].pc.record, schedule[j])
    decreases schedule
  {
    var c, w1 := schedule[0], Next(w, schedule[0]);
    CallsStay(w, c);
    if c.thread == t {
      FinishedForGood(w1, schedule[1..], t);
      assert schedule[..0] == [] && Run(w, schedule[..0]) == w;
      j := 0;
    } else {
      j := WriteEnds(w1, schedule[1..], t);
      MovesLater(w, schedule, j, t, w.threads[t].pc);
      j := j + 1;
    }
  }

  /** The record a create mints in world w. */
  function Made(w: World, call: Call, c: Choice): Record
    requires call.CreateCall?
  {
    Record(Identity(call.imsi, call.teid, |w.mints|, c.now, call.amfAddr), c.now, INITIALIZING)
  }

  lemma {:induction false} MintEnds(w: World, schedule: seq<Choice>, t: nat) returns (m: nat, j: nat)
    requires t < |w.threads| && w.threads[t].pc.Minting? && w.threads[t].call.CreateCall? && Run(w, schedule).threads[t].pc.Finished?
    ensures m < j && MovesAt(w, schedule, m, t, Minting)
    ensures var r := Made(Run(w, schedule[..m]), w.threads[t].call, schedule[m]);
            && MovesAt(w, schedule, j, t, Writing(r))
            && Run(w, schedule).threads[t].pc.result == AfterWrite(w.threads[t].call, r, schedule[j])
    decreases schedule
  {
    var c, w1 := schedule[0], Next(w, schedule[0]);
    CallsStay(w, c);
    if c.thread == t {
      j := WriteEnds(w1, schedule[1..], t);
      MovesLater(w, schedule, j, t, w1.threads[t].pc);
      assert schedule[..0] == [] && Run(w, schedule[..0]) == w;
      m, j := 0, j + 1;
    } else {
      m, j := MintEnds(w1, schedule[1..], t);
      Later(w, schedule, m);
      MovesLater(w, schedule, m, t, Minting);
      MovesLater(w, schedule, j, t, Writing(Made(Run(w1, schedule[1..][..m]), w.threads[t].call, schedule[1..][m])));
      m, j := m + 1, j + 1;
    }
  }

  lemma {:induction false} RunAppend(w: World, first: seq<Choice>, second: seq<Choice>)
    ensures Run(w, first + second) == Run(Run(w, first), second)
    decreases first
  {
    hide Next;
    if first == [] {
      assert first + second == second;
    } else {
      assert (first + second)[1..] == first[1..] + second;
      RunAppend(Next(w, first[0]), first[1..], second);
    }
  }

  lemma RunSplit(w: World, schedule: seq<Choice>, k: nat, i: nat)
    requires k <= k + i <= |schedule|
    ensures Run(w, schedule[..k + i]) == Run(Run(w, schedule[..k]), schedule[k..][..i])
  {
    hide Next, Run;
    assert schedule[..k + i] == schedule[..k] + schedule[k..][..i];
    RunAppend(w, schedule[..k], schedule[k..][..i]);
  }

  lemma {:induction false} ReadEnds(w: World, schedule: seq<Choice>, t: nat) returns (i: nat)
    requires t < |w.threads| && w.threads[t].pc.Reading? && Run(w, schedule).threads[t].pc.Finished?
    ensures MovesAt(w, schedule, i, t, Reading)
    decreases schedule
  {
    var c, w1 := schedule[0], Next(w, schedule[0]);
    CallsStay(w, c);
    if c.thread == t {
      assert schedule[..0] == [] && Run(w, schedule[..0]) == w;
      i := 0;
    } else {
      i := ReadEnds(w1, schedule[1..], t);
      MovesLater(w, schedule, i, t, Reading);
      i := i + 1;
    }
  }

  lemma AfterTheRead(w: World, schedule: seq<Choice>, t: nat) returns (i: nat)
    requires t < |w.threads| && w.threads[t].pc.Reading? && Run(w, schedule).threads[t].pc.Finished?
    ensures MovesAt(w, schedule, i, t, Reading)
    ensures var m := Run(w, schedule[..i]);
            && m.threads[t].call == w.threads[t].call
            && Run(w, schedule[..i + 1]) == Next(m, schedule[i])
            && Run(w, schedule) == Run(Next(m, schedule[i]), schedule[i + 1..])
  {
    hide Next, Run;
    i := ReadEnds(w, schedule, t);
    RunKeepsCalls(w, schedule[..i]);
    assert schedule[..i + 1] == schedule[..i] + [schedule[i]];
    RunLast(w, schedule[..i], schedule[i]);
    assert schedule == schedule[..i + 1] + schedule[i + 1..];
    RunAppend(w, schedule[..i + 1], schedule[i + 1..]);
  }

  lemma MovesAfter(w: World, schedule: seq<Choice>, k: nat, i: nat, t: nat, pc: PC)
    requires t < |w.threads| && k <= |schedule| && MovesAt(Run(w, schedule[..k]), schedule[k..], i, t, pc)
    ensures MovesAt(w, schedule, k + i, t, pc)
  {
    RunSplit(w, schedule, k, i);
  }

  /**
   Create: the record its lookup found, untouched; otherwise the session it minted, if its write was
   confirmed, and an error if not. The choices are those of its lookup, its minting and its write.
   */
  lemma WhatACreateReports(w: World, schedule: seq<Choice>, t: nat) returns (i: nat, m: nat, j: nat)
    requires t < |w.threads| && w.threads[t].pc.Reading? && w.threads[t].call.CreateCall? && Run(w, schedule).threads[t].pc.Finished?
    ensures MovesAt(w, schedule, i, t, Reading)
    ensures var call, result := w.threads[t].call, Run(w, schedule).threads[t].pc.result;
            match Lookup(Run(w, schedule[..i]).store, call.imsi, schedule[i].now, schedule[i].readOk)
            case Some(r) => result == Some(r)
            case None =>
              && i < m < j && MovesAt(w, schedule, m, t, Minting)
              && var r := Record(Identity(call.imsi, call.teid, |Run(w, schedule[..m]).mints|, schedule[m].now, call.amfAddr),
                                 schedule[m].now, INITIALIZING);
              && MovesAt(w, schedule, j, t, Writing(r)) && result == if schedule[j].write.Done? then Some(r) else None
  {
    i := AfterTheRead(w, schedule, t);
    m, j := 0, 0;
    var w0, c := Run(w, schedule[..i]), schedule[i];
    var w1 := Next(w0, c);
    if Lookup(w0.store, w.threads[t].call.imsi, c.now, c.readOk).Some? {
      FinishedForGood(w1, schedule[i + 1..], t);
    } else {
      m, j := MintEnds(w1, schedule[i + 1..], t);
      hide Next;
      RunSplit(w, schedule, i + 1, m);
      MovesAfter(w, schedule, i + 1, m, t, Minting);
      MovesAfter(w, schedule, i + 1, j, t, Writing(Made(Run(w1, schedule[i + 1..][..m]), w.threads[t].call, schedule[i + 1..][m])));
      m, j := i + 1 + m, i + 1 + j;
    }
  }

  /** Modify: the record its lookup found, MODIFYING and touched, exactly when its write was confirmed. */
  lemma WhatAModifyReports(w: World, schedule: seq<Choice>, t: nat) returns (i: nat, j: nat)
    requires t < |w.threads| && w.threads[t].pc.Reading? && w.threads[t].call.ModifyCall? && Run(w, schedule).threads[t].pc.Finished?
    ensures MovesAt(w, schedule, i, t, Reading)
    ensures var call, result := w.threads[t].call, Run(w, schedule).threads[t].pc.result;
            match Lookup(Run(w, schedule[..i]).store, call.imsi, schedule[i].now, schedule[i].readOk)
            case None => result == None
            case Some(r) =>
              && i < j && MovesAt(w, schedule, j, t, Writing(r.(state := MODIFYING, lastUpdated := schedule[i].now)))
              && result == if schedule[j].write.Done? then Some(r.(state := MODIFYING, lastUpdated := schedule[j].now)) else None
  {
    i := AfterTheRead(w, schedule, t);
    j := 0;
    var w0, c := Run(w, schedule[..i]), schedule[i];
    var w1 := Next(w0, c);
    if Lookup(w0.store, w.threads[t].call.imsi, c.now, c.readOk).None? {
      FinishedForGood(w1, schedule[i + 1..], t);
    } else {
      j := WriteEnds(w1, schedule[i + 1..], t);
      hide Run;
      MovesAfter(w, schedule, i + 1, j, t, w1.threads[t].pc);
      j := i + 1 + j;
    }
  }

  lemma NothingAfterDeletion(w: World, schedule: seq<Choice>, j: nat, t: nat)
    requires Valid(w) && t < |w.threads| && w.threads[t].call.DeleteCall? && j < |schedule| && schedule[j].thread == t
    requires Run(w, schedule[..j]).threads[t].pc.Writing? && schedule[j].write.Done?
    ensures Unreadable(Run(w, schedule[..j + 1]).store, w.threads[t].call.imsi)
  {
    hide Next, Run, Valid;
    RunKeepsValid(w, schedule[..j]);
    RunKeepsCalls(w, schedule[..j]);
    assert schedule[..j + 1] == schedule[..j] + [schedule[j]];
    RunLast(w, schedule[..j], schedule[j]);
    forall at: nat { WritesAreSeen(Run(w, schedule[..j]), schedule[j], w.threads[t].call.imsi, at); }
  }

  /**
   Delete: success exactly when its lookup found a record and its deletion was confirmed; nothing can
   be read for the IMSI, at any time, right after that step.
   */
  lemma WhatADeleteReports(w: World, schedule: seq<Choice>, t: nat) returns (i: nat, j: nat)
    requires Valid(w) && t < |w.threads| && w.threads[t].pc.Reading? && w.threads[t].call.DeleteCall?
    requires Run(w, schedule).threads[t].pc.Finished?
    ensures MovesAt(w, schedule, i, t, Reading)
    ensures var call, result := w.threads[t].call, Run(w, schedule).threads[t].pc.result;
            match Lookup(Run(w, schedule[..i]).store, call.imsi, schedule[i].now, schedule[i].readOk)
            case None => result == None
            case Some(r) =>
              && i < j && MovesAt(w, schedule, j, t, Writing(r.(state := DELETING, lastUpdated := schedule[i].now)))
              && (result.Some? <==> schedule[j].write.Done?)
              && (result.Some? ==> Unreadable(Run(w, schedule[..j + 1]).store, call.imsi))
  {
    i := AfterTheRead(w, schedule, t);
    j := 0;
    var w0, c := Run(w, schedule[..i]), schedule[i];
    var w1 := Next(w0, c);
    if Lookup(w0.store, w.threads[t].call.imsi, c.now, c.readOk).None? {
      FinishedForGood(w1, schedule[i + 1..], t);
    } else {
      j := WriteEnds(w1, schedule[i + 1..], t);
      MovesAfter(w, schedule, i + 1, j, t, w1.threads[t].pc);
      j := i + 1 + j;
      if schedule[j].write.Done? { NothingAfterDeletion(w, schedule, j, t); }
    }
  }
}
