/** The pinger's registered targets, their workers and the channels that carry
    replies to them (internal/pinger/targets.go; Start in pinger.go; dispatch in
    receiver.go). */
module Pingers {
  import opened Arith
  import opened Options
  import opened Sets
  import opened Echo
  import opened EchoIds
  import opened Lifecycles
  import opened Sequences
  import opened Targets

  const WIRE_IDS := 0x1_0000
  const REPLY_BUFFER := 100

  datatype AddResult = Added | PingerStopped | AlreadyRegistered | IdsExhausted

  /** Identifiers of a pinger without a session allocator. */
  function PrivateId(base: nat, k: nat): int
  {
    (base + k) % WIRE_IDS
  }

  class Pinger {
    const no: nat
    const ids: IDAllocator?
    const baseID: nat
    const targets: seq<Target>
    var nextWorkerID: nat
    var workerStates: map<Target, int>
    var targetChans: map<int, seq<Reply>>
    var activeWorkers: nat
    var started: bool
    var stopped: bool

    /** Workers whose goroutine has not ended; the source only counts them. */
    var running: set<int>

    /** For whom each identifier was allocated.  `since` counts the session's echo identifiers before this pinger. */
    ghost var owner: map<int, Target>
    ghost const since: nat

    ghost predicate Valid()
      reads `nextWorkerID, `workerStates, `targetChans, `activeWorkers, `running, `owner, ids
    {
      && Allocated()
      && (forall t :: t in workerStates ==> workerStates[t] in owner && owner[workerStates[t]] == t)
      && (forall id :: id in targetChans ==> id in owner && |targetChans[id]| <= REPLY_BUFFER)
      && running <= owner.Keys && activeWorkers == |running|
    }

    /** The identifiers allocated so far are this pinger's own. */
    ghost predicate Allocated()
      reads `nextWorkerID, `owner, ids
    {
      if ids != null then
        ids.Valid() && since <= ids.echo && forall id :: id in owner ==> since <= id < ids.echo
      else
        nextWorkerID <= WIRE_IDS
        && forall id :: id in owner ==> exists k :: 0 <= k < nextWorkerID && id == PrivateId(baseID, k)
    }

    /** Each channel is that of the worker registered for its owner. */
    ghost predicate OneChannelEach()
      reads `workerStates, `targetChans, `owner
    {
      && (forall id :: id in targetChans ==> id in owner && owner[id] in workerStates && workerStates[owner[id]] == id)
      && (forall t :: t in workerStates ==> workerStates[t] in targetChans)
    }

    predicate Live()
      reads `started, `stopped
    {
      started && !stopped
    }

    function LiveNo(): Option<nat>
      reads `started, `stopped
    {
      if Live() then Some(no) else None
    }

    /** Identifiers left to allocate. */
    function Spare(): int
      reads `nextWorkerID, ids
    {
      if ids != null then PARTITION - ids.echo else WIRE_IDS - nextWorkerID
    }

    constructor (no: nat, ids: IDAllocator?, baseID: nat, targets: seq<Target>)
      requires ids != null ==> ids.Valid()
      ensures Valid() && OneChannelEach() && !started && !stopped && owner == map[] && workerStates == map[]
      ensures this.no == no && this.ids == ids && this.targets == targets && this.baseID == baseID
              && targetChans == map[]
      ensures ids != null ==> since == ids.echo
    {
      this.no, this.ids, this.baseID, this.targets := no, ids, baseID, targets;
      this.since := if ids != null then ids.echo else 0;
      nextWorkerID, workerStates, targetChans, activeWorkers := 0, map[], map[], 0;
      started, stopped, owner, running := false, false, map[], {};
    }

    /** allocateWorkerID: an identifier this pinger has not used, nor anyone in the
        session when the allocator is shared. */
    method AllocateWorkerID(ghost whom: Target) returns (id: Option<int>)
      requires Valid()
      modifies this`nextWorkerID, this`owner, ids
      ensures Valid() && Spare() == old(Spare()) - (if id.Some? then 1 else 0) && (ids != null ==> ids.Valid())
      ensures id.None? <==> old(Spare()) <= 0
      ensures id.None? ==> owner == old(owner)
      ensures old(OneChannelEach()) ==> OneChannelEach()
      ensures id.Some? ==> 0 <= id.value < WIRE_IDS && id.value !in old(owner) && owner == old(owner)[id.value := whom]
      ensures id.Some? && ids != null ==> !old(ids.Issued(id.value)) && ids.Issued(id.value)
    {
      if ids != null {
        id := ids.EchoID();
        if id.None? {
          assert old(ids.Issued(PARTITION - 1));
        } else {
          assert ids.Issued(id.value);
        }
      } else {
        if nextWorkerID >= WIRE_IDS {
          return None;
        }
        id := Some((baseID + nextWorkerID) % WIRE_IDS);
        PrivateIdNew();
        nextWorkerID := nextWorkerID + 1;
      }
      if id.Some? {
        owner := owner[id.value := whom];
      }
    }

    lemma PrivateIdNew()
      requires Allocated() && ids == null && nextWorkerID < WIRE_IDS
      ensures PrivateId(baseID, nextWorkerID) !in owner
    {
      forall k | 0 <= k < nextWorkerID ensures PrivateId(baseID, k) != PrivateId(baseID, nextWorkerID) {
        RemaindersDiffer(baseID + k, baseID + nextWorkerID, WIRE_IDS);
      }
    }

    /** launchTarget: the worker is registered before its goroutine runs. */
    method LaunchTarget(t: Target, id: int)
      requires Valid() && id in owner && owner[id] == t && id !in targetChans && id !in running
      modifies `workerStates, `targetChans, `activeWorkers, `running
      ensures Valid() && workerStates == old(workerStates)[t := id] && targetChans == old(targetChans)[id := []]
      ensures running == old(running) + {id}
      ensures old(OneChannelEach()) && t !in old(workerStates) ==> OneChannelEach()
    {
      workerStates := workerStates[t := id];
      targetChans := targetChans[id := []];
      activeWorkers := activeWorkers + 1;
      running := running + {id};
    }

    /** Start: the whole initial set of identifiers is allocated before any worker
        runs, so a failure launches none. */
    method Start(openOk: bool, life: Lifecycle) returns (ok: bool)
      requires Valid() && !started && !stopped && owner == map[] && workerStates == map[] && targetChans == map[]
      modifies this, ids, life
      ensures Valid() && !stopped && started == ok && (ids != null ==> ids.Valid())
      ensures life.trace == if ok then old(life.trace) + [Started(Ping, no)] else old(life.trace)
      ensures ok ==> life.Now() == After(old(life.Now()), Started(Ping, no))
      ensures ok <==> openOk && |targets| <= old(Spare())
      ensures ok ==> workerStates.Keys == Members(targets)
      ensures ok && Distinct(targets) ==> OneChannelEach()
      ensures !ok ==> workerStates == map[] && targetChans == map[] && running == {}
    {
      hide Valid, OneChannelEach, Handed;
      IdsValid();
      if !openOk {
        NoneRunning();
        return false;
      }
      var handed: seq<int>;
      ok, handed := AllocateAll();
      if ok {
        LaunchAll(handed);
        started := true;
        life.Note(Started(Ping, no));
      }
    }

    lemma NoneRunning()
      requires Valid() && owner == map[]
      ensures running == {}
    {
      assert owner.Keys == {};
    }

    /** An identifier for each target, or none when they run out. */
    method AllocateAll() returns (ok: bool, handed: seq<int>)
      requires Valid() && owner == map[] && workerStates == map[] && targetChans == map[]
      modifies `nextWorkerID, `owner, ids
      ensures Valid() && (ids != null ==> ids.Valid()) && running == {}
      ensures ok <==> |targets| <= old(Spare())
      ensures ok ==> Handed(handed) && |handed| == |targets|
    {
      hide Valid;
      IdsValid();
      NoneRunning();
      handed := [];
      for i := 0 to |targets|
        invariant Valid() && Spare() == old(Spare()) - i && |handed| == i && (i > 0 ==> i <= old(Spare()))
        invariant ids != null ==> ids.Valid()
        invariant Handed(handed)
      {
        var id := AllocateWorkerID(targets[i]);
        if id.None? {
          return false, handed;
        }
        handed := handed + [id.value];
      }
      SpareLeft();
      ok := true;
    }

    lemma SpareLeft()
      requires Valid()
      ensures Spare() >= 0
    {
    }

    method LaunchAll(handed: seq<int>)
      requires Valid() && Handed(handed) && |handed| == |targets| && workerStates == map[] && targetChans == map[]
               && running == {}
      modifies `workerStates, `targetChans, `activeWorkers, `running
      ensures Valid() && workerStates.Keys == Members(targets)
      ensures Distinct(targets) ==> OneChannelEach()
    {
      EmptyChannels();
      hide Valid, OneChannelEach;
      for i := 0 to |targets|
        invariant Valid() && Handed(handed)
        invariant forall j :: i <= j < |targets| ==> handed[j] !in targetChans && handed[j] !in running
        invariant forall t :: t in workerStates <==> t in targets[..i]
        invariant Distinct(targets) ==> OneChannelEach()
      {
        LaunchTarget(targets[i], handed[i]);
      }
      assert targets[..|targets|] == targets;
    }

    lemma EmptyChannels()
      requires workerStates == map[] && targetChans == map[]
      ensures OneChannelEach()
    {
    }

    /** The identifiers are distinct, each allocated for the target in its place. */
    ghost predicate Handed(handed: seq<int>)
      reads `owner
    {
      && |handed| <= |targets| && Distinct(handed)
      && forall j :: 0 <= j < |handed| ==> handed[j] in owner && owner[handed[j]] == targets[j]
    }

    /** AddTarget. */
    method AddTarget(t: Target) returns (r: AddResult)
      requires Valid()
      modifies this, ids
      ensures Valid() && started == old(started) && stopped == old(stopped) && (ids != null ==> ids.Valid())
      ensures r == if stopped then PingerStopped else if t in old(workerStates) then AlreadyRegistered
                   else if old(Spare()) <= 0 then IdsExhausted else Added
      ensures workerStates.Keys == old(workerStates.Keys) + if r.Added? then {t} else {}
      ensures forall x :: x in old(workerStates) ==> workerStates[x] == old(workerStates)[x]
      ensures Spare() == old(Spare()) - if r.Added? then 1 else 0
      ensures r.Added? ==> workerStates[t] !in old(owner) && targetChans == old(targetChans)[workerStates[t] := []]
      ensures !r.Added? ==> targetChans == old(targetChans)
      ensures old(OneChannelEach()) ==> OneChannelEach()
    {
      hide Allocated, Valid, OneChannelEach;
      IdsValid();
      OwnersKnown();
      if stopped {
        return PingerStopped;
      }
      if t in workerStates {
        return AlreadyRegistered;
      }
      var id := AllocateWorkerID(t);
      if id.None? {
        return IdsExhausted;
      }
      LaunchTarget(t, id.value);
      r := Added;
    }

    /** RemoveTarget: the channel goes first, then the worker is joined. */
    method RemoveTarget(t: Target)
      requires Valid()
      modifies `workerStates, `targetChans, `activeWorkers, `running
      ensures Valid() && workerStates == old(workerStates) - {t}
      ensures targetChans == old(targetChans) - if t in old(workerStates) then {old(workerStates)[t]} else {}
      ensures t in old(workerStates) ==> old(workerStates)[t] !in running
      ensures old(OneChannelEach()) ==> OneChannelEach()
    {
      if t !in workerStates {
        return;
      }
      var id := workerStates[t];
      targetChans := targetChans - {id};
      var finished := WorkerReturns(id);
      workerStates := workerStates - {t};
    }

    /** A worker's goroutine ends, if it has not yet; the last one to end signals
        completion. */
    method WorkerReturns(id: int) returns (finished: bool)
      requires Valid()
      modifies `activeWorkers, `running
      ensures Valid() && running == old(running) - {id}
      ensures finished <==> id in old(running) && running == {}
    {
      finished := false;
      if id in running {
        running := running - {id};
        activeWorkers := activeWorkers - 1;
        finished := activeWorkers == 0;
      }
      FinishedMeansNone();
    }

    predicate WorkersFinished()
      reads this
    {
      activeWorkers == 0
    }

    lemma OwnersKnown()
      requires Valid()
      ensures forall id :: id in targetChans || id in running ==> id in owner
    {
    }

    lemma IdsValid()
      requires Valid()
      ensures ids != null ==> ids.Valid()
    {
    }

    /** No worker is left exactly when none of their goroutines runs. */
    lemma FinishedMeansNone()
      requires Valid()
      ensures WorkersFinished() <==> running == {}
    {
      if running != {} {
        var id := Pick(running);
      }
    }

    /** handleEchoReply and handleICMPError: a reply goes to the channel of its
        identifier, if there is one with room, and nowhere else.  When each channel
        belongs to its owner's worker, that is the worker the identifier was
        allocated for. */
    method Dispatch(id: int, reply: Reply) returns (delivered: bool)
      requires Valid()
      modifies `targetChans
      ensures Valid() && targetChans.Keys == old(targetChans.Keys)
      ensures delivered <==> id in old(targetChans) && |old(targetChans)[id]| < REPLY_BUFFER
      ensures forall x :: x in targetChans ==>
                targetChans[x] == if delivered && x == id then old(targetChans)[x] + [reply] else old(targetChans)[x]
      ensures old(OneChannelEach()) ==>
                OneChannelEach() && (delivered ==> owner[id] in workerStates && workerStates[owner[id]] == id)
    {
      delivered := id in targetChans && |targetChans[id]| < REPLY_BUFFER;
      if delivered {
        targetChans := targetChans[id := targetChans[id] + [reply]];
      }
    }

    /** Stop, then Wait: every worker is joined.  Registrations stay. */
    method StopAndWait(life: Lifecycle)
      requires Valid()
      modifies `stopped, `running, `activeWorkers, life
      ensures Valid() && stopped && running == {} && WorkersFinished()
      ensures life.trace == if old(Live()) then old(life.trace) + [Stopped(Ping, no)] else old(life.trace)
      ensures old(Live()) ==> life.Now() == After(old(life.Now()), Stopped(Ping, no))
    {
      if Live() {
        life.Note(Stopped(Ping, no));
      }
      stopped := true;
      running, activeWorkers := {}, 0;
    }
  }

  /** registerTargets: all of them in order, or, after a failure, none. */
  method RegisterTargets(p: Pinger, ts: seq<Target>) returns (r: AddResult)
    requires p.Valid()
    modifies p, p.ids
    ensures p.Valid() && p.started == old(p.started) && p.stopped == old(p.stopped)
    ensures old(p.OneChannelEach()) ==> p.OneChannelEach()
    ensures !r.Added? ==> p.workerStates == old(p.workerStates)
    ensures r.Added? ==> p.workerStates.Keys == old(p.workerStates.Keys) + Members(ts)
                         && forall t :: t in old(p.workerStates) ==> p.workerStates[t] == old(p.workerStates)[t]
    ensures p.ids != null ==> p.ids.Valid()
    ensures !p.stopped && Distinct(ts) && Members(ts) !! old(p.workerStates.Keys) ==>
              r == if |ts| <= old(p.Spare()) || ts == [] then Added else IdsExhausted
  {
    hide Pinger.Valid, Pinger.OneChannelEach;
    p.IdsValid();
    ghost var before := p.workerStates;
    for i := 0 to |ts|
      invariant p.Valid() && p.started == old(p.started) && p.stopped == old(p.stopped)
      invariant p.ids != null ==> p.ids.Valid()
      invariant old(p.OneChannelEach()) ==> p.OneChannelEach()
      invariant Extended(before, p.workerStates, ts[..i])
      invariant i > 0 ==> p.Spare() == old(p.Spare()) - i && i <= old(p.Spare())
      invariant i == 0 ==> p.Spare() == old(p.Spare())
    {
      assert ts[..i+1] == ts[..i] + [ts[i]];
      r := p.AddTarget(ts[i]);
      if !r.Added? {
        Unregister(p, before, ts[..i]);
        return;
      }
    }
    assert ts[..|ts|] == ts;
    r := Added;
  }

  /** Registrations after some new targets were added. */
  ghost predicate Extended(before: map<Target, int>, now: map<Target, int>, ts: seq<Target>)
  {
    && Distinct(ts) && Members(ts) !! before.Keys && now.Keys == before.Keys + Members(ts)
    && forall t :: t in before ==> now[t] == before[t]
  }

  /** The rollback. */
  method Unregister(p: Pinger, ghost before: map<Target, int>, ts: seq<Target>)
    requires p.Valid() && Extended(before, p.workerStates, ts)
    modifies p
    ensures p.Valid() && p.started == old(p.started) && p.stopped == old(p.stopped) && p.workerStates == before
    ensures old(p.OneChannelEach()) ==> p.OneChannelEach()
  {
    hide Pinger.Valid, Pinger.OneChannelEach;
    assert ts[0..] == ts;
    for k := 0 to |ts|
      invariant p.Valid() && p.started == old(p.started) && p.stopped == old(p.stopped)
      invariant old(p.OneChannelEach()) ==> p.OneChannelEach()
      invariant Extended(before, p.workerStates, ts[k..])
    {
      ExtendedFewer(before, p.workerStates, ts, k);
      hide Extended;
      p.RemoveTarget(ts[k]);
    }
    ExtendedNone(before, p.workerStates);
  }

  lemma ExtendedFewer(before: map<Target, int>, now: map<Target, int>, ts: seq<Target>, k: nat)
    requires k < |ts| && Extended(before, now, ts[k..])
    ensures Extended(before, now - {ts[k]}, ts[k+1..])
  {
    var rest := ts[k..];
    assert rest[1..] == ts[k+1..] && rest[0] == ts[k];
    forall i | 1 <= i < |rest| ensures rest[i] != ts[k] {
    }
    assert Members(rest) == {ts[k]} + Members(rest[1..]);
  }

  lemma ExtendedNone(before: map<Target, int>, now: map<Target, int>)
    requires Extended(before, now, [])
    ensures now == before
  {
  }
}
