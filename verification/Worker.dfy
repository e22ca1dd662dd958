/** The worker of one target (internal/pinger/worker.go, runTargetWorker).

    The select loop runs a schedule: one event per iteration, carrying what the
    outside world answered.  Statistics resets come from another goroutine and may
    fall between any two sections that hold the target's lock; each event says how
    many fell where. */
module Workers {
  import opened Arith
  import opened Echo
  import opened Options
  import opened Sets
  import opened TargetStatistics
  import opened RecentSequences
  import opened Ledgers
  import opened Pacing

  // ----- The worker's state as a value -----

  /** paced: the attempts so far were at least an interval apart.  timely: at each
      attempt, every probe then outstanding was fewer than 65,536 attempts old. */
  datatype State = State(books: Book, attempt: int, doneSending: bool, initialSeq: int, count: int,
                         interval: nat, lastAt: int, paced: bool, timely: bool)

  ghost predicate Timely(unacked: map<int, Pending>, attempt: int)
  {
    forall w :: w in unacked ==> attempt - unacked[w].attempt < WIRE_RANGE
  }

  /** Where the send loop stands: with a Count, sending goes on until the attempt
      number reaches it, and at least once. */
  ghost predicate Progress(s: State)
  {
    && s.initialSeq <= s.attempt
    && (forall a :: a in s.books.sent ==> s.initialSeq < a <= s.attempt)
    && (if s.doneSending then s.count > 0 && s.attempt == Max(s.count, s.initialSeq + 1)
        else s.count <= 0 || s.attempt < s.count || s.attempt == s.initialSeq)
    && (s.attempt == s.initialSeq ==> s.books.unacked == map[])
    && (s.paced ==> Paced(s.books.unacked, s.interval, s.attempt, s.lastAt))
    && (s.timely ==> s.books.overwritten == map[])
    && (0 < s.count <= s.initialSeq + WIRE_RANGE ==> s.timely)
  }

  /** The books are sound and balance with what the target has counted; inHand as
      in Balanced. */
  ghost predicate Ok(s: State, log: seq<Callback>, epoch: nat, inHand: int)
  {
    Sound(s.books, epoch) && Balanced(log, s.books, epoch, inHand) && Progress(s)
  }

  lemma OkInitially(owner: TargetStats, initialSeq: int, count: int, interval: nat, lastAt: int,
                    log: seq<Callback>, epoch: nat)
    ensures var b := Empty(owner, epoch, Deficit(log));
            Ok(State(b, initialSeq, false, initialSeq, count, interval, lastAt, true, true), log, epoch, 0)
  {
    EmptyBalance(owner, log, epoch);
  }

  lemma OkReset(s: State, log: seq<Callback>, epoch: nat, inHand: int)
    requires Ok(s, log, epoch, inHand)
    ensures Ok(s, [], epoch + 1, 0)
  {
    LaterSound(s.books, epoch, epoch + 1);
    ResetBalance(s.books, epoch, epoch + 1);
  }

  lemma OkCallback(s: State, log: seq<Callback>, epoch: nat, inHand: int, c: Callback)
    requires Ok(s, log, epoch, inHand)
    ensures Ok(s, log + [c], epoch, inHand + Change(c))
  {
    CallbackBalance(log, s.books, epoch, inHand, c);
  }

  /** The state after the next attempt began at time `at`. */
  ghost function Began(s: State, at: int): State
  {
    s.(attempt := s.attempt + 1, lastAt := at,
       paced := s.paced && (s.attempt == s.initialSeq || at >= s.lastAt + s.interval),
       timely := s.timely && Timely(s.books.unacked, s.attempt + 1))
  }

  /** Sending ends once the attempt number has reached the count. */
  function Finished(s: State): State
  {
    s.(doneSending := s.count > 0 && s.attempt >= s.count)
  }

  /** While an attempt is under way its number is used but not among those sent. */
  ghost predicate Attempting(s: State, log: seq<Callback>, epoch: nat, inHand: int)
  {
    && Sound(s.books, epoch) && Balanced(log, s.books, epoch, inHand)
    && s.initialSeq < s.attempt && (forall a :: a in s.books.sent ==> s.initialSeq < a < s.attempt)
    && (0 < s.count <= s.initialSeq + WIRE_RANGE ==> s.timely)
    && !s.doneSending && (s.count <= 0 || s.attempt <= s.count || s.attempt == s.initialSeq + 1)
    && (s.paced ==> Paced(s.books.unacked, s.interval, s.attempt, s.lastAt))
    && (s.timely ==> s.books.overwritten == map[] && Timely(s.books.unacked, s.attempt))
  }

  lemma OkBegan(s: State, log: seq<Callback>, epoch: nat, at: int)
    requires Ok(s, log, epoch, 0) && !s.doneSending
    ensures Attempting(Began(s, at), log, epoch, 0)
  {
    if Began(s, at).paced && s.attempt != s.initialSeq {
      NextAttemptPaced(s.books.unacked, s.interval, s.attempt, s.lastAt, at);
    }
    forall w | w in s.books.unacked ensures s.books.unacked[w].attempt in s.books.sent {
      assert PendingSound(s.books, epoch, w);
    }
  }

  lemma AttemptingReset(s: State, log: seq<Callback>, epoch: nat, inHand: int)
    requires Attempting(s, log, epoch, inHand)
    ensures Attempting(s, [], epoch + 1, 0)
  {
    LaterSound(s.books, epoch, epoch + 1);
    ResetBalance(s.books, epoch, epoch + 1);
  }

  lemma AttemptingCallback(s: State, log: seq<Callback>, epoch: nat, inHand: int, c: Callback)
    requires Attempting(s, log, epoch, inHand)
    ensures Attempting(s, log + [c], epoch, inHand + Change(c))
  {
    CallbackBalance(log, s.books, epoch, inHand, c);
  }

  lemma OkUnsent(s: State, log: seq<Callback>, epoch: nat)
    requires Attempting(s, log, epoch, 0)
    ensures Ok(Finished(s), log, epoch, 0)
  {
  }

  lemma OkEntered(s: State, log: seq<Callback>, epoch: nat, p: Pending)
    requires p.probe.Probe? && p.probe.target == s.books.owner && p.probe.epoch <= epoch
    requires p.attempt == s.attempt && p.start == s.lastAt
    requires Attempting(s, log, epoch, InHand(p.probe, epoch))
    ensures Ok(Finished(s.(books := Insert(s.books, s.attempt, p))), log, epoch, 0)
  {
    InsertSound(s.books, epoch, s.attempt, p);
    InsertBalance(log, s.books, epoch, s.attempt, p);
    forall w | w in s.books.unacked ensures s.books.unacked[w].attempt < s.attempt {
      assert PendingSound(s.books, epoch, w);
    }
    if s.paced {
      EntryPaced(s.books.unacked, s.interval, s.attempt, s.lastAt, Wire(s.attempt), p);
    }
    if s.timely && Wire(s.attempt) in s.books.unacked {
      OverwriteGap(s.books, epoch, s.attempt);
    }
  }

  lemma OkSound(s: State, log: seq<Callback>, epoch: nat, inHand: int)
    requires Ok(s, log, epoch, inHand)
    ensures Sound(s.books, epoch)
    ensures forall w :: w in s.books.unacked ==>
              s.books.unacked[w].probe.Probe? && s.books.unacked[w].probe.epoch <= epoch
  {
    forall w | w in s.books.unacked ensures s.books.unacked[w].probe.Probe? && s.books.unacked[w].probe.epoch <= epoch {
      assert PendingSound(s.books, epoch, w);
    }
  }

  /** A history entry found for a number that is not outstanding. */
  lemma EntryFacts(s: State, log: seq<Callback>, epoch: nat, es: seq<RecentEntry>, e: RecentEntry)
    requires Ok(s, log, epoch, 0) && Remembered(s.books, es)
    requires e in es && e.wireSeq !in s.books.unacked
    ensures e.probe.Probe? && e.probe.target == s.books.owner && e.probe.epoch <= epoch
    ensures var c := if e.kind.Acked? then Duplicate else LateReply;
            Classified(s.books, e, epoch, log, if e.probe.epoch == epoch then log + [c] else log)
  {
    var i :| 0 <= i < |es| && es[i] == e;
    assert EntrySound(s.books, es[i]);
  }

  lemma OkProgress(s: State, log: seq<Callback>, epoch: nat)
    requires Ok(s, log, epoch, 0) && s.doneSending
    ensures s.count > 0 && s.attempt == Max(s.count, s.initialSeq + 1)
  {
  }

  /** The callback that goes with each way of settling. */
  predicate Settles(how: How, c: Callback)
  {
    match how
    case Answered => c.Success?
    case Errored => c.Failure? && c.cause.IcmpError?
    case Expired => c.Failure? && c.cause.Timeout?
    case Dropped => c.Cancelled?
  }

  /** Settling one outstanding probe and counting it in its own window. */
  lemma OkSettled(s: State, log: seq<Callback>, epoch: nat, w: int, how: How, c: Callback)
    requires Ok(s, log, epoch, 0) && w in s.books.unacked
    requires Settles(how, c)
    ensures s.books.unacked[w].probe.Probe? && s.books.unacked[w].probe.target == s.books.owner
    ensures var accepted := s.books.unacked[w].probe.epoch == epoch;
            Ok(s.(books := Settle(s.books, w, how, accepted)), if accepted then log + [c] else log, epoch, 0)
  {
    assert PendingSound(s.books, epoch, w);
    var accepted := s.books.unacked[w].probe.epoch == epoch;
    SettleSound(s.books, epoch, w, how, accepted);
    SettleBalance(log, s.books, epoch, w, how, accepted);
    var b := Settle(s.books, w, how, accepted);
    CallbackBalance(log, b, epoch, if accepted then 1 else 0, c);
    if s.paced {
      FewerPaced(s.books.unacked, s.interval, s.attempt, s.lastAt, w);
    }
  }

  // ----- Settling several probes -----

  /** From s to s', some of the outstanding probes were settled, all in that way;
      nothing else changed, and what was settled before stays as it was. */
  ghost predicate SetAside(s: State, s': State, how: How)
  {
    && s' == s.(books := s.books.(unacked := s'.books.unacked, settled := s'.books.settled))
    && (forall w :: w in s'.books.unacked ==> w in s.books.unacked && s'.books.unacked[w] == s.books.unacked[w])
    && (forall a :: a in s.books.settled ==> a in s'.books.settled && s'.books.settled[a] == s.books.settled[a])
    && (forall w :: w in s.books.unacked && w !in s'.books.unacked ==>
          var a := s.books.unacked[w].attempt;
          a !in s.books.settled && a in s'.books.settled && s'.books.settled[a].how == how)
  }

  lemma SetAsideNothing(s: State, how: How)
    ensures SetAside(s, s, how)
  {
  }

  lemma SetAsideStep(s: State, s': State, w: int, how: How, accepted: bool)
    requires SetAside(s, s', how)
    requires w in s'.books.unacked && s'.books.unacked[w].probe.Probe?
             && s'.books.unacked[w].attempt !in s'.books.settled
    ensures SetAside(s, s'.(books := Settle(s'.books, w, how, accepted)), how)
  {
  }

  /** Progress of a sweep that began in state s: the probes in `due` are still to
      be settled, the others that have reached the timeout have been. */
  ghost predicate Swept(s: State, s': State, timeout: int, now: int, due: set<int>)
  {
    && SetAside(s, s', Expired)
    && (forall w :: w in s'.books.unacked
                    <==> w in s.books.unacked && (now - s.books.unacked[w].start < timeout || w in due))
    && due <= s'.books.unacked.Keys
    && (forall w :: w in due ==> now - s'.books.unacked[w].start >= timeout)
  }

  lemma SweptStart(s: State, timeout: int, now: int, due: set<int>)
    requires due == set w | w in s.books.unacked && now - s.books.unacked[w].start >= timeout
    ensures Swept(s, s, timeout, now, due)
  {
  }

  lemma SweptDue(s: State, s': State, timeout: int, now: int, due: set<int>, w: int)
    requires Swept(s, s', timeout, now, due) && w in due
    ensures w in s'.books.unacked
  {
  }

  lemma SweptStep(s: State, s': State, timeout: int, now: int, due: set<int>, w: int, accepted: bool)
    requires Swept(s, s', timeout, now, due) && w in due
    requires s'.books.unacked[w].probe.Probe? && s'.books.unacked[w].attempt !in s'.books.settled
    ensures Swept(s, s'.(books := Settle(s'.books, w, Expired, accepted)), timeout, now, due - {w})
  {
    SetAsideStep(s, s', w, Expired, accepted);
  }

  lemma SweptEnd(s: State, s': State, timeout: int, now: int)
    requires Swept(s, s', timeout, now, {})
    ensures SetAside(s, s', Expired)
    ensures forall w :: w in s'.books.unacked <==> w in s.books.unacked && now - s.books.unacked[w].start < timeout
    ensures forall w :: w in s'.books.unacked ==> now - s'.books.unacked[w].start < timeout
    ensures forall w :: w in s'.books.unacked ==> s'.books.unacked[w] == s.books.unacked[w]
    ensures s' == s.(books := s.books.(unacked := s'.books.unacked, settled := s'.books.settled))
  {
  }

  /** At most ceil(timeout / interval) probes are outstanding, and within the limits
      the configuration check enforces at most 300, with the next wire number free. */
  ghost predicate Few(s: State, timeout: nat)
  {
    s.interval > 0 ==>
      && |s.books.unacked| <= CeilDiv(timeout, s.interval)
      && (100 <= s.interval <= 60000 && 10 <= timeout <= 30000 ==>
            && |s.books.unacked| <= 300 && Wire(s.attempt + 1) !in s.books.unacked
            && forall w :: w in s.books.unacked ==> 0 <= s.attempt - s.books.unacked[w].attempt < 300)
  }

  /** So many does a sweep leave, after paced attempts none of which is to come. */
  ghost predicate FewLeft(s: State, timeout: nat, now: int)
  {
    s.paced && s.lastAt <= now ==> Few(s, timeout)
  }

  lemma OkKeyed(s: State, log: seq<Callback>, epoch: nat)
    requires Ok(s, log, epoch, 0)
    ensures Keyed(s.books.unacked)
    ensures s.paced ==> Paced(s.books.unacked, s.interval, s.attempt, s.lastAt)
  {
    hide Balanced, Paced;
    forall w | w in s.books.unacked ensures Wire(s.books.unacked[w].attempt) == w {
      assert PendingSound(s.books, epoch, w);
    }
  }

  lemma OkAfterSweep(s: State, log: seq<Callback>, epoch: nat, timeout: nat, now: int)
    requires Ok(s, log, epoch, 0)
    requires forall w :: w in s.books.unacked ==> now - s.books.unacked[w].start < timeout
    ensures FewLeft(s, timeout, now)
  {
    hide Ok, Paced, CeilDiv, Keyed;
    OkKeyed(s, log, epoch);
    var u := s.books.unacked;
    if s.paced && s.interval > 0 && s.lastAt <= now {
      OutstandingBound(u, s.interval, s.attempt, s.lastAt, timeout, now);
      if 100 <= s.interval <= 60000 && 10 <= timeout <= 30000 {
        ValidatedBound(u, s.interval, s.attempt, s.lastAt, timeout, now);
      }
    }
  }

  // ----- When the sweep timer fires (nextExpiry) -----

  ghost predicate Earliest(unacked: map<int, Pending>, timeout: nat, keys: set<int>, d: Option<int>)
    requires keys <= unacked.Keys
  {
    match d
    case None => keys == {}
    case Some(at) =>
      && (exists w :: w in keys && unacked[w].start + timeout == at)
      && (forall w :: w in keys ==> at <= unacked[w].start + timeout)
  }

  lemma EarliestNext(unacked: map<int, Pending>, timeout: nat, keys: set<int>, d: Option<int>, w: int)
    requires keys <= unacked.Keys && w in unacked && Earliest(unacked, timeout, keys, d)
    ensures var at := unacked[w].start + timeout;
            Earliest(unacked, timeout, keys + {w}, if d.None? || at < d.value then Some(at) else d)
  {
    assert w in keys + {w};
    if d.Some? {
      var v :| v in keys && unacked[v].start + timeout == d.value;
      assert v in keys + {w};
    }
  }

  /** nextExpiry: the earliest deadline of the outstanding probes. */
  method NextExpiry(unacked: map<int, Pending>, timeout: nat) returns (d: Option<int>)
    ensures Earliest(unacked, timeout, unacked.Keys, d)
  {
    d := None;
    var left := unacked.Keys;
    ghost var seen: set<int> := {};
    assert Earliest(unacked, timeout, seen, d);
    hide Earliest;
    while left != {}
      invariant seen + left == unacked.Keys
      invariant Earliest(unacked, timeout, seen, d)
      decreases |left|
    {
      ghost var first := Pick(left);
      var w :| w in left;
      EarliestNext(unacked, timeout, seen, d, w);
      var at := unacked[w].start + timeout;
      if d.None? || at < d.value {
        d := Some(at);
      }
      left, seen := left - {w}, seen + {w};
    }
    assert seen == unacked.Keys;
  }

  /** The timer set to the earliest deadline fires in time and not in vain: a sweep
      settles something exactly from that moment on. */
  lemma SweepSettlesFrom(unacked: map<int, Pending>, timeout: nat, d: Option<int>, now: int)
    requires Earliest(unacked, timeout, unacked.Keys, d)
    ensures (exists w :: w in unacked && now - unacked[w].start >= timeout) <==> d.Some? && now >= d.value
  {
    if d.Some? {
      var w :| w in unacked.Keys && unacked[w].start + timeout == d.value;
      assert now >= d.value ==> w in unacked && now - unacked[w].start >= timeout;
    }
  }

  // ----- Schedules -----

  /** How many send events there are from position `from` up to `to`. */
  function Sends(schedule: seq<Event>, from: nat, to: nat): nat
    requires from <= to <= |schedule|
  {
    if from == to then 0 else Sends(schedule, from, to - 1) + if schedule[to-1].SendTimer? then 1 else 0
  }

  /** A sweep comes, late enough to time out what event i sent, before 65,535 more
      send events have passed. */
  ghost predicate SweptInTime(schedule: seq<Event>, timeout: nat)
  {
    forall i, n :: 0 <= i < n < |schedule| && schedule[i].SendTimer? && schedule[n].SendTimer?
                   && Sends(schedule, i + 1, n) >= WIRE_RANGE - 1 ==>
                     SweptBetween(schedule, i, n, timeout)
  }

  ghost predicate SweptBetween(schedule: seq<Event>, i: nat, n: nat, timeout: nat)
    requires i < n < |schedule| && schedule[i].SendTimer?
  {
    exists k :: i < k < n && schedule[k].SweepTimer? && schedule[k].now - schedule[i].start >= timeout
  }

  /** Outstanding probe p was sent by event i, and no sweep up to event n was late
      enough for it. */
  ghost predicate SentBy(schedule: seq<Event>, i: nat, n: nat, timeout: nat, p: Pending, attempt: int)
    requires n <= |schedule|
  {
    && i < n && schedule[i].SendTimer? && schedule[i].start == p.start
    && attempt - p.attempt <= Sends(schedule, i + 1, n)
    && (forall k :: i < k < n && schedule[k].SweepTimer? ==> schedule[k].now - p.start < timeout)
  }

  ghost predicate SentEarlier(schedule: seq<Event>, n: nat, timeout: nat, p: Pending, attempt: int)
    requires n <= |schedule|
  {
    exists i: nat :: SentBy(schedule, i, n, timeout, p, attempt)
  }

  ghost predicate AllTraced(schedule: seq<Event>, n: nat, timeout: nat, unacked: map<int, Pending>, attempt: int)
    requires n <= |schedule|
  {
    forall w :: w in unacked ==> SentEarlier(schedule, n, timeout, unacked[w], attempt)
  }

  /** The number of the last send event of a stretch that has one. */
  lemma {:induction false} LastSend(schedule: seq<Event>, from: nat, to: nat) returns (j: nat)
    requires from <= to <= |schedule| && Sends(schedule, from, to) >= 1
    ensures from <= j < to && schedule[j].SendTimer? && Sends(schedule, from, j) == Sends(schedule, from, to) - 1
  {
    if schedule[to-1].SendTimer? {
      j := to - 1;
    } else {
      j := LastSend(schedule, from, to - 1);
    }
  }

  /** Send events are at least an interval apart, and no sweep is dated before a
      send event that precedes it. */
  ghost predicate PacedSchedule(schedule: seq<Event>, interval: nat)
  {
    && (forall i, n :: 0 <= i < n < |schedule| && schedule[i].SendTimer? && schedule[n].SendTimer? ==>
          schedule[n].start - schedule[i].start >= interval * (Sends(schedule, i + 1, n) + 1))
    && (forall i, k :: 0 <= i < k < |schedule| && schedule[i].SendTimer? && schedule[k].SweepTimer? ==>
          schedule[i].start <= schedule[k].now)
  }

  /** Some sweep runs after the 300th and before the 65,536th send event from any
      one on. */
  ghost predicate SweptOften(schedule: seq<Event>)
  {
    forall i, n :: 0 <= i < n < |schedule| && schedule[i].SendTimer? && Sends(schedule, i + 1, n) >= WIRE_RANGE - 1 ==>
      LateSweep(schedule, i, n)
  }

  ghost predicate LateSweep(schedule: seq<Event>, i: nat, n: nat)
    requires i < n < |schedule|
  {
    exists k :: i < k < n && schedule[k].SweepTimer? && Sends(schedule, i + 1, k) >= 300
  }

  /** Within the limits the configuration check enforces, that is often enough. */
  lemma PacedSweepsSuffice(schedule: seq<Event>, interval: nat, timeout: nat)
    requires 100 <= interval && timeout <= 30000 && PacedSchedule(schedule, interval) && SweptOften(schedule)
    ensures SweptInTime(schedule, timeout)
  {
    hide Sends, PacedSchedule;
    forall i, n | 0 <= i < n < |schedule| && schedule[i].SendTimer? && schedule[n].SendTimer?
                  && Sends(schedule, i + 1, n) >= WIRE_RANGE - 1
      ensures SweptBetween(schedule, i, n, timeout)
    {
      assert LateSweep(schedule, i, n);
      var k :| i < k < n && schedule[k].SweepTimer? && Sends(schedule, i + 1, k) >= 300;
      LateEnough(schedule, interval, timeout, i, k);
    }
  }

  /** After 300 send events the timeout has passed. */
  lemma LateEnough(schedule: seq<Event>, interval: nat, timeout: nat, i: nat, k: nat)
    requires 100 <= interval && timeout <= 30000 && PacedSchedule(schedule, interval)
    requires i < k < |schedule| && schedule[i].SendTimer? && schedule[k].SweepTimer?
    requires Sends(schedule, i + 1, k) >= 300
    ensures schedule[k].now - schedule[i].start >= timeout
  {
    hide Sends;
    var j := LastSend(schedule, i + 1, k);
    var sends := Sends(schedule, i + 1, j) + 1;
    assert schedule[j].start - schedule[i].start >= interval * sends && schedule[j].start <= schedule[k].now;
    hide PacedSchedule;
    MulOrdered(300, sends, interval);
  }

  /** The same by the clock: an entry is overwritten only where no sweep timed it out
      for 65,536 intervals. */
  lemma SweptWithinTime(schedule: seq<Event>, interval: nat, timeout: nat)
    requires PacedSchedule(schedule, interval)
    requires forall i, n :: 0 <= i < n < |schedule| && schedule[i].SendTimer? && schedule[n].SendTimer?
                            && schedule[n].start - schedule[i].start >= WIRE_RANGE * interval ==>
                              SweptBetween(schedule, i, n, timeout)
    ensures SweptInTime(schedule, timeout)
  {
    hide Sends, SweptBetween, PacedSchedule;
    forall i, n | 0 <= i < n < |schedule| && schedule[i].SendTimer? && schedule[n].SendTimer?
                  && Sends(schedule, i + 1, n) >= WIRE_RANGE - 1
      ensures SweptBetween(schedule, i, n, timeout)
    {
      FarApart(schedule, interval, i, n);
    }
  }

  lemma FarApart(schedule: seq<Event>, interval: nat, i: nat, n: nat)
    requires PacedSchedule(schedule, interval) && i < n < |schedule|
    requires schedule[i].SendTimer? && schedule[n].SendTimer? && Sends(schedule, i + 1, n) >= WIRE_RANGE - 1
    ensures schedule[n].start - schedule[i].start >= WIRE_RANGE * interval
  {
    hide Sends;
    var sends := Sends(schedule, i + 1, n) + 1;
    assert schedule[n].start - schedule[i].start >= interval * sends;
    hide PacedSchedule;
    MulOrdered(WIRE_RANGE, sends, interval);
  }

  /** What one event of the select loop does to the worker's state. */
  ghost predicate Selected(s: State, s': State, e: Event, listening: bool, hadAddress: bool, epoch: nat, timeout: nat)
  {
    match e
    case SendTimer(_, _, _, _, _, _, _) => s' == AfterSend(s, e, hadAddress, epoch)
    case ReplyArrived(reply, _, _) =>
      if listening then
        s' == s.(books := s.books.(unacked := s.books.unacked - {reply.wireSeq}, settled := s'.books.settled))
      else s' == s
    case SweepTimer(now, _) =>
      && SetAside(s, s', Expired) && FewLeft(s', timeout, now)
      && (forall w :: w in s'.books.unacked <==> w in s.books.unacked && now - s.books.unacked[w].start < timeout)
    case _ => s' == s
  }

  /** Every event keeps the trace, and a timely schedule keeps the worker timely. */
  lemma TracedNext(schedule: seq<Event>, n: nat, timeout: nat, s: State, s': State, listening: bool,
                   hadAddress: bool, epoch: nat)
    requires n < |schedule| && AllTraced(schedule, n, timeout, s.books.unacked, s.attempt)
    requires Selected(s, s', schedule[n], listening, hadAddress, epoch, timeout)
    ensures AllTraced(schedule, n + 1, timeout, s'.books.unacked, s'.attempt)
    ensures s.timely && SweptInTime(schedule, timeout) ==> s'.timely
  {
    if schedule[n].SendTimer? {
      if s.timely && SweptInTime(schedule, timeout) {
        TracedTimely(schedule, n, timeout, s.books.unacked, s.attempt);
      }
      SendTraced(schedule, n, timeout, s, hadAddress, epoch);
    } else {
      hide AfterSend, FewLeft;
      forall w | w in s'.books.unacked ensures SentEarlier(schedule, n + 1, timeout, s'.books.unacked[w], s'.attempt) {
        var i: nat :| SentBy(schedule, i, n, timeout, s.books.unacked[w], s.attempt);
        assert SentBy(schedule, i, n + 1, timeout, s.books.unacked[w], s.attempt);
      }
    }
  }

  // ----- The states of a run -----

  ghost predicate Stepped(s: State, s': State, e: Event, timeout: nat)
  {
    exists listening, hadAddress, epoch :: Selected(s, s', e, listening, hadAddress, epoch, timeout)
  }

  ghost predicate StepAt(schedule: seq<Event>, states: seq<State>, k: nat, timeout: nat)
    requires k + 1 < |states| <= |schedule| + 1
  {
    Stepped(states[k], states[k+1], schedule[k], timeout)
  }

  /** states[k] is the state after the first k events. */
  ghost predicate StatesOf(schedule: seq<Event>, states: seq<State>, timeout: nat)
  {
    && 1 <= |states| <= |schedule| + 1
    && forall k: nat :: k < |states| - 1 ==> StepAt(schedule, states, k, timeout)
  }

  ghost predicate FewAt(schedule: seq<Event>, states: seq<State>, k: nat, timeout: nat)
    requires k + 1 < |states| <= |schedule| + 1
  {
    schedule[k].SweepTimer? ==> Few(states[k+1], timeout)
  }

  /** Few probes are outstanding after every sweep. */
  ghost predicate FewAfterSweeps(schedule: seq<Event>, states: seq<State>, timeout: nat)
    requires |states| <= |schedule| + 1
  {
    forall k: nat :: k < |states| - 1 ==> FewAt(schedule, states, k, timeout)
  }

  lemma StatesNext(schedule: seq<Event>, states: seq<State>, s': State, timeout: nat)
    requires StatesOf(schedule, states, timeout) && |states| <= |schedule|
    requires Stepped(states[|states|-1], s', schedule[|states|-1], timeout)
    ensures StatesOf(schedule, states + [s'], timeout)
    ensures FewAfterSweeps(schedule, states, timeout) && (schedule[|states|-1].SweepTimer? ==> Few(s', timeout)) ==>
              FewAfterSweeps(schedule, states + [s'], timeout)
  {
    hide Stepped, Few;
    var longer := states + [s'];
    assert forall k :: 0 <= k < |states| ==> longer[k] == states[k];
    forall k: nat | k < |states| - 1
      ensures StepAt(schedule, longer, k, timeout)
      ensures FewAt(schedule, states, k, timeout) ==> FewAt(schedule, longer, k, timeout)
    {
      assert StepAt(schedule, states, k, timeout);
    }
  }

  /** Attempts so far were paced, and the last was made at the time of a send event. */
  ghost predicate PaceTraced(schedule: seq<Event>, n: nat, s: State)
    requires n <= |schedule|
  {
    && s.paced
    && ((s.attempt == s.initialSeq && s.books.unacked == map[]) || exists i: nat :: LastSentBy(schedule, i, n, s))
  }

  ghost predicate LastSentBy(schedule: seq<Event>, i: nat, n: nat, s: State)
    requires n <= |schedule|
  {
    i < n && schedule[i].SendTimer? && schedule[i].start == s.lastAt
  }

  /** A paced schedule makes paced attempts, and each sweep leaves few probes. */
  lemma PaceTracedNext(schedule: seq<Event>, n: nat, timeout: nat, s: State, s': State, listening: bool,
                       hadAddress: bool, epoch: nat)
    requires n < |schedule| && PaceTraced(schedule, n, s) && PacedSchedule(schedule, s.interval)
    requires Selected(s, s', schedule[n], listening, hadAddress, epoch, timeout)
    ensures PaceTraced(schedule, n + 1, s')
    ensures schedule[n].SweepTimer? ==> Few(s', timeout)
  {
    hide Few, Sends, Insert, Settle, Wire, Timely;
    if s.attempt == s.initialSeq && s.books.unacked == map[] {
      if schedule[n].SendTimer? {
        assert s'.attempt == s.initialSeq || LastSentBy(schedule, n, n + 1, s');
      } else {
        assert forall w :: w in s'.books.unacked ==> w in s.books.unacked;
        assert s'.books.unacked == map[];
        NoneIsFew(s', timeout);
      }
    } else {
      var i: nat :| LastSentBy(schedule, i, n, s);
      if schedule[n].SendTimer? {
        MulOrdered(1, Sends(schedule, i + 1, n) + 1, s.interval);
        assert LastSentBy(schedule, i, n + 1, s') || LastSentBy(schedule, n, n + 1, s');
      } else {
        assert LastSentBy(schedule, i, n + 1, s');
      }
    }
  }

  /** Everything a run keeps from event to event. */
  ghost predicate OnCourse(schedule: seq<Event>, states: seq<State>, timeout: nat)
  {
    && StatesOf(schedule, states, timeout)
    && var n, s0, s := |states| - 1, states[0], states[|states|-1];
    && s.interval == s0.interval
    && AllTraced(schedule, n, timeout, s.books.unacked, s.attempt)
    && (s0.timely && SweptInTime(schedule, timeout) ==> s.timely)
    && (s0.paced && PacedSchedule(schedule, s0.interval) ==>
          PaceTraced(schedule, n, s) && FewAfterSweeps(schedule, states, timeout))
  }

  lemma CourseBegins(schedule: seq<Event>, s: State, timeout: nat)
    requires s.attempt == s.initialSeq && s.books.unacked == map[]
    ensures OnCourse(schedule, [s], timeout)
  {
  }

  lemma CourseNext(schedule: seq<Event>, states: seq<State>, s': State, timeout: nat, listening: bool,
                   hadAddress: bool, epoch: nat)
    requires OnCourse(schedule, states, timeout) && |states| <= |schedule|
    requires Selected(states[|states|-1], s', schedule[|states|-1], listening, hadAddress, epoch, timeout)
    ensures OnCourse(schedule, states + [s'], timeout)
  {
    var n, s := |states| - 1, states[|states|-1];
    IntervalKept(s, s', schedule[n], timeout, listening, hadAddress, epoch);
    hide Selected, StatesOf, AllTraced, SweptInTime, PacedSchedule, PaceTraced, FewAfterSweeps, Few;
    TracedNext(schedule, n, timeout, s, s', listening, hadAddress, epoch);
    if states[0].paced && PacedSchedule(schedule, s.interval) {
      PaceTracedNext(schedule, n, timeout, s, s', listening, hadAddress, epoch);
    }
    assert Stepped(s, s', schedule[n], timeout);
    StatesNext(schedule, states, s', timeout);
  }

  lemma IntervalKept(s: State, s': State, e: Event, timeout: nat, listening: bool, hadAddress: bool, epoch: nat)
    requires Selected(s, s', e, listening, hadAddress, epoch, timeout)
    ensures s'.interval == s.interval
  {
  }

  lemma CourseMeans(schedule: seq<Event>, states: seq<State>, timeout: nat)
    requires OnCourse(schedule, states, timeout)
    ensures StatesOf(schedule, states, timeout) && 1 <= |states| <= |schedule| + 1
    ensures states[0].timely && SweptInTime(schedule, timeout) ==> states[|states|-1].timely
    ensures states[0].paced && PacedSchedule(schedule, states[0].interval) ==> FewAfterSweeps(schedule, states, timeout)
  {
  }

  lemma NoneIsFew(s: State, timeout: nat)
    requires s.books.unacked == map[]
    ensures Few(s, timeout)
  {
    assert s.interval > 0 ==> CeilDiv(timeout, s.interval) >= 0;
  }

  lemma TracedTimely(schedule: seq<Event>, n: nat, timeout: nat, unacked: map<int, Pending>, attempt: int)
    requires n < |schedule| && schedule[n].SendTimer? && SweptInTime(schedule, timeout)
    requires AllTraced(schedule, n, timeout, unacked, attempt)
    ensures Timely(unacked, attempt + 1)
  {
    forall w | w in unacked ensures attempt + 1 - unacked[w].attempt < WIRE_RANGE {
      var i: nat :| SentBy(schedule, i, n, timeout, unacked[w], attempt);
      NotSwept(schedule, i, n, timeout, unacked[w], attempt);
    }
  }

  lemma NotSwept(schedule: seq<Event>, i: nat, n: nat, timeout: nat, p: Pending, attempt: int)
    requires n < |schedule| && SentBy(schedule, i, n, timeout, p, attempt)
    ensures !SweptBetween(schedule, i, n, timeout)
  {
  }

  lemma SendTraced(schedule: seq<Event>, n: nat, timeout: nat, s: State, hadAddress: bool, epoch: nat)
    requires n < |schedule| && schedule[n].SendTimer? && AllTraced(schedule, n, timeout, s.books.unacked, s.attempt)
    ensures var s' := AfterSend(s, schedule[n], hadAddress, epoch);
            AllTraced(schedule, n + 1, timeout, s'.books.unacked, s'.attempt)
  {
    var s' := AfterSend(s, schedule[n], hadAddress, epoch);
    var u, u' := s.books.unacked, s'.books.unacked;
    forall w | w in u' ensures SentEarlier(schedule, n + 1, timeout, u'[w], s'.attempt) {
      if w in u && u'[w] == u[w] {
        var i: nat :| SentBy(schedule, i, n, timeout, u[w], s.attempt);
        assert SentBy(schedule, i, n + 1, timeout, u[w], s'.attempt);
      } else {
        assert SentBy(schedule, n, n + 1, timeout, u'[w], s'.attempt);
      }
    }
  }

  // ----- What the books say about every sent probe -----

  /** When nothing is outstanding, every probe sent was settled, once and in one
      way, or had its entry overwritten. */
  lemma AllSettled(s: State, log: seq<Callback>, epoch: nat)
    requires Ok(s, log, epoch, 0) && s.books.unacked == map[]
    ensures s.books.sent == s.books.settled.Keys + s.books.overwritten.Keys
    ensures s.books.settled.Keys !! s.books.overwritten.Keys
    ensures s.books.overwritten == map[] ==> Deficit(log) == Carried(s.books, epoch)
  {
    forall a | a in s.books.sent ensures a in s.books.settled.Keys + s.books.overwritten.Keys {
      assert Accounted(s.books, a);
    }
    if s.books.overwritten == map[] {
      ConservationExactly(log, s.books, epoch);
      assert forall w :: w !in Outstanding(s.books, epoch);
      assert Outstanding(s.books, epoch) == {};
    }
  }

  // ----- The history -----

  /** The entries are about settled probes (EntrySound), none of them dropped. */
  ghost predicate Remembered(b: Book, es: seq<RecentEntry>)
  {
    EntriesSound(b, es) && forall a :: a in b.settled ==> !b.settled[a].how.Dropped?
  }

  lemma RememberedInsert(b: Book, es: seq<RecentEntry>, a: int, p: Pending)
    requires Remembered(b, es)
    ensures Remembered(Insert(b, a, p), es)
  {
    InsertEntries(b, es, a, p);
  }

  lemma RememberedSettle(s: State, log: seq<Callback>, epoch: nat, es: seq<RecentEntry>, w: int, how: How,
                         accepted: bool, kind: Resolution)
    requires Ok(s, log, epoch, 0) && Remembered(s.books, es) && UniqueKeys(es) && w in s.books.unacked
    requires if kind.Acked? then how.Answered? || how.Errored? else how.Expired?
    ensures s.books.unacked[w].probe.Probe?
    ensures Remembered(Settle(s.books, w, how, accepted),
                       Recorded(es, RecentEntry(w, kind, s.books.unacked[w].probe, s.books.unacked[w].attempt)))
  {
    hide Recorded, UniqueKeys;
    OkSound(s, log, epoch, 0);
    SettleEntries(s.books, epoch, es, w, how, accepted, kind);
  }

  // ----- The worker -----

  /** What a lookup of the target's address came to (resolveTargetContext). */
  datatype Lookup = Resolved | DnsFailed | Stopping

  /** What sending came to (sendProbeWithStats). */
  datatype Write = Written | NoConnection | MarshalFailed | WriteFailed

  /** One event of the select loop.  Resets by other goroutines come with it. */
  datatype Event = DnsTick(lookup: Lookup, resets: nat, at: nat)
                 | SendTimer(lookup: Lookup, write: Write, start: int, at: nat,
                             resets0: nat, resets1: nat, resets2: nat)
                 | ReplyArrived(reply: Reply, now: nat, resets: nat)
                 | SweepTimer(now: nat, each: nat -> nat)
                 | Elsewhere(resets: nat)
                 | Stop

  /** The worker's state after a send event, from a state s that had an address or
      not, in window `epoch`. */
  ghost function AfterSend(s: State, e: Event, hadAddress: bool, epoch: nat): State
    requires e.SendTimer?
  {
    if s.doneSending || !(hadAddress || e.lookup.Resolved?) then s
    else Attempted(s, e.write, e.start, epoch + if hadAddress then 0 else e.resets0)
  }

  /** The state after one attempt, begun in window `epoch`. */
  ghost function Attempted(s: State, write: Write, start: int, epoch: nat): State
  {
    var b := Began(s, start);
    var p := Pending(start, Probe(s.books.owner, epoch), b.attempt);
    Finished(if write.Written? then b.(books := Insert(b.books, b.attempt, p)) else b)
  }

  datatype Exit = StillRunning | CountReached | Stopped

  /** How far a run got: through the schedule, to its first Stop, or to the first
      state in which sending is done and nothing outstanding. */
  ghost predicate Ends(exit: Exit, schedule: seq<Event>, states: seq<State>)
    requires 1 <= |states| <= |schedule| + 1
  {
    var n, last := |states| - 1, states[|states|-1];
    match exit
    case StillRunning => n == |schedule| && NoStop(schedule, n)
    case CountReached => NoStop(schedule, n) && last.doneSending && last.books.unacked == map[]
    case Stopped => n > 0 && schedule[n-1].Stop? && NoStop(schedule, n - 1)
  }

  ghost predicate NoStop(schedule: seq<Event>, n: nat)
    requires n <= |schedule|
  {
    forall k :: 0 <= k < n ==> !schedule[k].Stop?
  }

  lemma NoStopYet(schedule: seq<Event>)
    ensures NoStop(schedule, 0)
  {
  }

  /** What pass i of the loop leads to. */
  lemma PassEnds(schedule: seq<Event>, states: seq<State>, i: nat)
    requires |states| == i + 2 <= |schedule| + 1 && NoStop(schedule, i)
    ensures schedule[i].Stop? ==> Ends(Stopped, schedule, states)
    ensures !schedule[i].Stop? ==> NoStop(schedule, i + 1)
    ensures !schedule[i].Stop? && states[i+1].doneSending && states[i+1].books.unacked == map[] ==>
              Ends(CountReached, schedule, states)
  {
  }

  lemma ScheduleEnds(schedule: seq<Event>, states: seq<State>)
    requires |states| == |schedule| + 1 && NoStop(schedule, |schedule|)
    ensures Ends(StillRunning, schedule, states)
  {
  }

  class Worker {
    const t: TargetStats
    const hist: RecentSeqHistory
    const count: int
    const initialSeq: int
    const timeout: nat
    var unacked: map<int, Pending>
    var attempt: int
    var doneSending: bool
    var listening: bool
    var hasAddress: bool

    /** The history of the run; see Book and State. */
    ghost var sent: set<int>
    ghost var latest: map<int, int>
    ghost var settled: map<int, Settlement>
    ghost var overwritten: map<int, nat>
    ghost const interval: nat
    ghost const since: nat
    ghost const carried: int
    ghost var lastAt: int
    ghost var paced: bool
    ghost var timely: bool

    ghost function Books(): Book
      reads `unacked, `sent, `latest, `settled, `overwritten
    {
      Book(t, unacked, sent, latest, settled, overwritten, since, carried)
    }

    ghost function Now(): State
      reads `unacked, `attempt, `doneSending, `sent, `latest, `settled, `overwritten, `lastAt, `paced, `timely
    {
      State(Books(), attempt, doneSending, initialSeq, count, interval, lastAt, paced, timely)
    }

    /** The target is in order, and apart from the worker. */
    ghost predicate TargetOk()
      reads t, t.rtt, t.health, t.Repr()
    {
      && this !in t.Repr() && hist !in t.Repr()
      && t.Valid()
    }

    ghost predicate Core(inHand: int)
      reads `unacked, `attempt, `doneSending, `sent, `latest, `settled, `overwritten, `lastAt, `paced, `timely
      reads t, t.rtt, t.health, t.Repr()
    {
      TargetOk() && Ok(Now(), t.log, t.epoch, inHand)
    }

    ghost predicate InAttempt(inHand: int)
      reads `unacked, `attempt, `doneSending, `sent, `latest, `settled, `overwritten, `lastAt, `paced, `timely
      reads t, t.rtt, t.health, t.Repr()
    {
      TargetOk() && Attempting(Now(), t.log, t.epoch, inHand)
    }

    /** The history is about the latest settled probes; none has been dropped while
        the worker runs. */
    ghost predicate HistoryOk()
      reads `unacked, `sent, `latest, `settled, `overwritten
      reads hist
    {
      hist.Valid() && Remembered(Books(), hist.Entries())
    }

    ghost predicate Valid()
      reads `unacked, `attempt, `doneSending, `sent, `latest, `settled, `overwritten, `lastAt, `paced, `timely
      reads hist, t, t.rtt, t.health, t.Repr()
    {
      Core(0) && HistoryOk()
    }

    constructor (target: TargetStats, count: int, initialSeq: int, timeout: nat, ghost interval: nat)
      requires target.Valid()
      ensures t == target && Valid() && fresh(hist) && attempt == initialSeq
      ensures Now().books == Empty(target, t.epoch, Deficit(t.log))
      ensures this.count == count && this.initialSeq == initialSeq && this.timeout == timeout
      ensures this.interval == interval && paced && timely && !doneSending && !listening && !hasAddress
    {
      hide TargetStats.Valid, Ok;
      t := target;
      hist := new RecentSeqHistory();
      this.count, this.initialSeq, this.timeout, this.interval := count, initialSeq, timeout, interval;
      unacked, attempt, doneSending, listening, hasAddress := map[], initialSeq, false, false, false;
      sent, latest, settled, overwritten, lastAt, paced, timely := {}, map[], map[], map[], 0, true, true;
      since, carried := target.epoch, Deficit(target.log);
      new;
      OkInitially(target, initialSeq, count, interval, lastAt, t.log, t.epoch);
      assert this !in t.Repr() && hist !in t.Repr();
    }

    // ----- Other goroutines -----

    /** n resets of the target's statistics by someone else. */
    method OtherResets(n: nat)
      requires Core(0)
      modifies t.Repr()
      ensures Core(0) && t.epoch == old(t.epoch) + n && fresh(t.Repr() - old(t.Repr()))
      ensures t.log == if n == 0 then old(t.log) else []
    {
      hide TargetStats.Valid, Ok;
      for i := 0 to n
        invariant Core(0) && t.epoch == old(t.epoch) + i && fresh(t.Repr() - old(t.Repr()))
        invariant t.log == if i == 0 then old(t.log) else []
      {
        OkReset(Now(), t.log, t.epoch, 0);
        t.Reset();
      }
    }

    /** The same during an attempt: after NewProbe, or after IncSent. */
    method ResetsInAttempt(n: nat, ghost probe: Probe, ghost counted: bool)
      requires probe.Probe? && probe.epoch <= t.epoch
      requires InAttempt(if counted then InHand(probe, t.epoch) else 0)
      modifies t.Repr()
      ensures t.epoch == old(t.epoch) + n && fresh(t.Repr() - old(t.Repr()))
      ensures InAttempt(if counted then InHand(probe, t.epoch) else 0)
      ensures t.log == if n == 0 then old(t.log) else []
    {
      hide TargetStats.Valid, Attempting;
      for i := 0 to n
        invariant t.epoch == old(t.epoch) + i && fresh(t.Repr() - old(t.Repr()))
        invariant InAttempt(if counted then InHand(probe, t.epoch) else 0)
        invariant t.log == if i == 0 then old(t.log) else []
      {
        AttemptingReset(Now(), t.log, t.epoch, if counted then InHand(probe, t.epoch) else 0);
        t.Reset();
      }
    }

    /** A callback that neither sends nor settles a probe. */
    method CountPlain(probe: Probe, c: Callback)
      requires Core(0) && probe.Probe? && probe.target == t && Change(c) == 0
      modifies t.Repr()
      ensures Core(0) && t.epoch == old(t.epoch) && fresh(t.Repr() - old(t.Repr()))
      ensures t.log == if probe.epoch == t.epoch then old(t.log) + [c] else old(t.log)
    {
      hide TargetStats.Valid, Ok;
      OkCallback(Now(), t.log, t.epoch, 0, c);
      var accepted := probe.Update(c);
    }

    // ----- Sending -----

    /** resolveTargetContext: a failed lookup is a loss of its own, unless the
        pinger is stopping.  The resets fall while the lookup is under way. */
    method Resolve(lookup: Lookup, resets: nat, at: nat) returns (ok: bool)
      requires Core(0)
      modifies t.Repr()
      ensures Core(0) && ok == lookup.Resolved? && t.epoch == old(t.epoch) + resets
      ensures t.log == if resets > 0 then []
                       else if lookup.DnsFailed? then old(t.log) + [Failure(DnsError, at)] else old(t.log)
      ensures fresh(t.Repr() - old(t.Repr()))
    {
      hide TargetStats.Valid, Ok;
      var probe := Probe(t, t.epoch);
      OtherResets(resets);
      if lookup.DnsFailed? {
        CountPlain(probe, Failure(DnsError, at));
      }
      ok := lookup.Resolved?;
    }

    /** sendProbeWithStats, from the write on. */
    method SendProbe(probe: Probe, write: Write, at: nat) returns (ok: bool)
      requires InAttempt(0) && probe.Probe? && probe.target == t && probe.epoch <= t.epoch
      modifies t.Repr()
      ensures ok == write.Written? && t.epoch == old(t.epoch)
      ensures InAttempt(if ok then InHand(probe, t.epoch) else 0)
      ensures t.log == if probe.epoch != t.epoch || write.MarshalFailed? then old(t.log)
                       else old(t.log) + [if ok then Sent else Failure(SendError, at)]
      ensures fresh(t.Repr() - old(t.Repr()))
    {
      hide TargetStats.Valid, Attempting;
      ok := false;
      if write.MarshalFailed? {
        return;
      }
      var c := if write.Written? then Sent else Failure(SendError, at);
      AttemptingCallback(Now(), t.log, t.epoch, 0, c);
      var accepted := probe.Update(c);
      ok := write.Written?;
    }

    /** One attempt (worker.go:304-318), which uses up a number whether or not anything
        is written.  resets1 fall between NewProbe and the send's callback, resets2
        between that callback and the entry in unacked. */
    method AttemptSend(write: Write, start: int, at: nat, resets1: nat, resets2: nat)
      requires Valid() && !doneSending
      modifies this, t.Repr()
      ensures Valid() && fresh(t.Repr() - old(t.Repr()))
      ensures Now() == Attempted(old(Now()), write, start, old(t.epoch))
      ensures listening == (old(listening) || write.Written?) && hasAddress == old(hasAddress)
      ensures t.epoch == old(t.epoch) + resets1 + resets2
    {
      hide TargetStats.Valid, Ok, Attempting, Insert, HistoryOk, Paced;
      Begin(start);
      var probe := Probe(t, t.epoch);
      var ok := Transmit(probe, write, at, resets1, resets2);
      Conclude(ok, Pending(start, probe, attempt));
    }

    /** The write, with the resets that fall before and after it. */
    method Transmit(probe: Probe, write: Write, at: nat, resets1: nat, resets2: nat) returns (ok: bool)
      requires InAttempt(0) && probe.Probe? && probe.target == t && probe.epoch <= t.epoch
      modifies t.Repr()
      ensures ok == write.Written? && t.epoch == old(t.epoch) + resets1 + resets2
      ensures InAttempt(if ok then InHand(probe, t.epoch) else 0)
      ensures fresh(t.Repr() - old(t.Repr()))
      ensures t.log == if resets2 > 0 then []
                       else if probe.epoch != t.epoch || write.MarshalFailed?
                       then (if resets1 > 0 then [] else old(t.log))
                       else old(t.log) + [if ok then Sent else Failure(SendError, at)]
    {
      hide TargetStats.Valid, Attempting;
      ResetsInAttempt(resets1, probe, false);
      ok := SendProbe(probe, write, at);
      ResetsInAttempt(resets2, probe, ok);
    }

    method Begin(start: int)
      requires Core(0) && !doneSending
      modifies `paced, `timely, `attempt, `lastAt
      ensures InAttempt(0) && Now() == Began(old(Now()), start)
    {
      hide TargetStats.Valid, Ok, Attempting;
      OkBegan(Now(), t.log, t.epoch, start);
      paced := paced && (attempt == initialSeq || start >= lastAt + interval);
      timely := timely && Timely(unacked, attempt + 1);
      attempt, lastAt := attempt + 1, start;
    }

    /** Enter the probe if it was sent; stop once Count is reached. */
    method Conclude(ok: bool, p: Pending)
      requires p.probe.Probe? && p.probe.target == t && p.probe.epoch <= t.epoch
      requires p.attempt == attempt && p.start == lastAt && !doneSending
      requires InAttempt(if ok then InHand(p.probe, t.epoch) else 0) && HistoryOk()
      modifies this
      ensures Valid() && hasAddress == old(hasAddress) && listening == (old(listening) || ok)
      ensures var s := old(Now());
              Now() == Finished(if ok then s.(books := Insert(s.books, s.attempt, p)) else s)
    {
      hide TargetStats.Valid, Ok, Remembered, Attempting, Insert, Finished, RecentSeqHistory.Valid;
      if ok {
        OkEntered(Now(), t.log, t.epoch, p);
        RememberedInsert(Books(), hist.Entries(), attempt, p);
        Put(p);
        listening := true;
      } else {
        OkUnsent(Now(), t.log, t.epoch);
      }
      Finish();
    }

    /** Lines 314-318: stop sending once Count is reached. */
    method Finish()
      requires TargetOk() && Ok(Finished(Now()), t.log, t.epoch, 0) && HistoryOk() && !doneSending
      modifies `doneSending
      ensures Valid() && Now() == Finished(old(Now()))
    {
      hide TargetStats.Valid, Ok, HistoryOk;
      if count > 0 && attempt >= count {
        doneSending := true;
      }
    }

    /** The entry (worker.go:309), and the books' account of it. */
    method Put(p: Pending)
      modifies `unacked, `sent, `latest, `overwritten
      ensures Now() == old(Now()).(books := Insert(old(Now()).books, attempt, p))
      ensures unacked == old(unacked)[Wire(attempt) := p]
    {
      var w := Wire(attempt);
      if w in unacked && unacked[w].probe.Probe? {
        overwritten := overwritten[unacked[w].attempt := unacked[w].probe.epoch];
      }
      unacked := unacked[w := p];
      sent, latest := sent + {attempt}, latest[w := attempt];
    }

    /** A lookup that provides the address, if it succeeds. */
    method LookUp(lookup: Lookup, resets: nat, at: nat) returns (ok: bool)
      requires Valid()
      modifies `hasAddress, t.Repr()
      ensures Valid() && fresh(t.Repr() - old(t.Repr())) && t.epoch == old(t.epoch) + resets
      ensures ok == lookup.Resolved? && hasAddress == (old(hasAddress) || ok)
      ensures Now() == old(Now()) && listening == old(listening)
    {
      hide TargetStats.Valid, Ok, HistoryOk;
      ok := Resolve(lookup, resets, at);
      if ok {
        hasAddress := true;
      }
    }

    /** The sendTimer case. */
    method SendTimerFired(e: Event)
      requires Valid() && e.SendTimer?
      modifies this, t.Repr()
      ensures Valid() && fresh(t.Repr() - old(t.Repr())) && t.epoch >= old(t.epoch)
      ensures Now() == AfterSend(old(Now()), e, old(hasAddress), old(t.epoch))
      ensures e.resets0 == e.resets1 == e.resets2 == 0 ==> t.epoch == old(t.epoch)
      ensures hasAddress == (old(hasAddress) || (!old(doneSending) && e.lookup.Resolved?))
      ensures listening == (old(listening) || (!old(doneSending) && hasAddress && e.write.Written?))
    {
      hide Valid, Attempted, Books;
      if doneSending {
        return;
      }
      if !hasAddress {
        var ok := LookUp(e.lookup, e.resets0, e.at);
        if !ok {
          return;
        }
      }
      AttemptSend(e.write, e.start, e.at, e.resets1, e.resets2);
    }

    // ----- Settling -----

    /** Take one outstanding probe out and count it in its own window. */
    method CountSettled(w: int, how: How, c: Callback)
      requires Core(0) && w in unacked && Settles(how, c)
      modifies `unacked, `settled, t.Repr()
      ensures Core(0) && fresh(t.Repr() - old(t.Repr())) && t.epoch == old(t.epoch)
      ensures old(unacked[w]).probe.Probe? && unacked == old(unacked) - {w} && attempt == old(attempt)
      ensures var accepted := old(unacked[w]).probe.epoch == t.epoch;
              && Now() == old(Now()).(books := Settle(old(Now()).books, w, how, accepted))
              && t.log == (if accepted then old(t.log) + [c] else old(t.log))
              && var p := old(unacked[w]);
                 settled == old(settled)[p.attempt := Settlement(how, p.probe.epoch, accepted)]
    {
      hide TargetStats.Valid, Ok, Settles, Settle;
      OkSettled(Now(), t.log, t.epoch, w, how, c);
      var p := unacked[w];
      TakeOut(w, how);
      var accepted := p.probe.Update(c);
    }

    /** The probe leaves unacked, and the books note how. */
    method TakeOut(w: int, ghost how: How)
      requires w in unacked && unacked[w].probe.Probe?
      modifies `unacked, `settled
      ensures unacked == old(unacked) - {w}
      ensures var accepted := old(unacked[w]).probe.epoch == t.epoch;
              && Now() == old(Now()).(books := Settle(old(Now()).books, w, how, accepted))
              && var p := old(unacked[w]);
                 settled == old(settled)[p.attempt := Settlement(how, p.probe.epoch, accepted)]
    {
      var p := unacked[w];
      unacked := unacked - {w};
      settled := settled[p.attempt := Settlement(how, p.probe.epoch, p.probe.epoch == t.epoch)];
    }

    /** Settle one outstanding probe, and remember how it went. */
    method SettleOne(w: int, how: How, kind: Resolution, c: Callback)
      requires Valid() && w in unacked && Settles(how, c)
      requires if kind.Acked? then how.Answered? || how.Errored? else how.Expired?
      modifies `unacked, `settled, hist, t.Repr()
      ensures Valid() && fresh(t.Repr() - old(t.Repr())) && t.epoch == old(t.epoch)
      ensures old(unacked[w]).probe.Probe? && unacked == old(unacked) - {w} && attempt == old(attempt)
      ensures var accepted := old(unacked[w]).probe.epoch == t.epoch;
              && Now() == old(Now()).(books := Settle(old(Now()).books, w, how, accepted))
              && t.log == if accepted then old(t.log) + [c] else old(t.log)
      ensures var p := old(unacked[w]);
              hist.Entries() == Recorded(old(hist.Entries()), RecentEntry(w, kind, p.probe, p.attempt))
    {
      hide TargetStats.Valid, Ok, Remembered, Recorded, Settle, Settles, RecentSeqHistory.Linked, UniqueKeys;
      var p := unacked[w];
      hist.KeysUnique();
      OkSound(Now(), t.log, t.epoch, 0);
      RememberedSettle(Now(), t.log, t.epoch, hist.Entries(), w, how, p.probe.epoch == t.epoch, kind);
      CountSettled(w, how, c);
      Remember(w, kind, p);
    }

    /** The history entry of the probe just settled. */
    method Remember(w: int, kind: Resolution, p: Pending)
      requires Core(0) && hist.Valid() && p.probe.Probe?
      requires Remembered(Books(), Recorded(hist.Entries(), RecentEntry(w, kind, p.probe, p.attempt)))
      modifies hist
      ensures Valid() && hist.Entries() == Recorded(old(hist.Entries()), RecentEntry(w, kind, p.probe, p.attempt))
    {
      hide TargetStats.Valid, Ok, Remembered, Recorded, RecentSeqHistory.Valid;
      hist.Record(w, kind, p.probe, p.attempt);
    }

    lemma OnlyEntry(es: seq<RecentEntry>, e: RecentEntry)
      requires UniqueKeys(es) && e in es
      ensures forall i :: 0 <= i < |es| && es[i].wireSeq == e.wireSeq ==> es[i] == e
    {
    }

    /** A reply for a number no longer outstanding. */
    method Classify(w: int)
      requires Valid() && w !in unacked
      modifies t.Repr()
      ensures Valid() && fresh(t.Repr() - old(t.Repr())) && t.epoch == old(t.epoch)
      ensures forall i :: 0 <= i < |hist.Entries()| && hist.Entries()[i].wireSeq == w ==>
                Classified(Now().books, hist.Entries()[i], t.epoch, old(t.log), t.log)
      ensures (forall i :: 0 <= i < |hist.Entries()| ==> hist.Entries()[i].wireSeq != w) ==> t.log == old(t.log)
    {
      hide TargetStats.Valid, Ok, HistoryOk, Classified;
      var entry := FindEntry(w);
      if entry.Some? {
        var c := if entry.value.kind.Acked? then Duplicate else LateReply;
        CountPlain(entry.value.probe, c);
      }
    }

    /** The history entry for a number no longer outstanding, and what it says. */
    method FindEntry(w: int) returns (entry: Option<RecentEntry>)
      requires Valid() && w !in unacked
      ensures entry.None? <==> forall i :: 0 <= i < |hist.Entries()| ==> hist.Entries()[i].wireSeq != w
      ensures entry.Some? ==> entry.value.probe.Probe? && entry.value.probe.target == t
      ensures entry.Some? ==>
                forall i :: 0 <= i < |hist.Entries()| && hist.Entries()[i].wireSeq == w ==>
                              hist.Entries()[i] == entry.value
      ensures entry.Some? ==>
                var c := if entry.value.kind.Acked? then Duplicate else LateReply;
                Classified(Now().books, entry.value, t.epoch, t.log,
                           if entry.value.probe.epoch == t.epoch then t.log + [c] else t.log)
    {
      hide TargetStats.Valid, Ok, Remembered, RecentSeqHistory.Linked, Classified, UniqueKeys;
      entry := hist.Lookup(w);
      if entry.Some? {
        hist.KeysUnique();
        ghost var i :| 0 <= i < |hist.Entries()| && hist.Entries()[i] == entry.value;
        OnlyEntry(hist.Entries(), entry.value);
        EntryFacts(Now(), t.log, t.epoch, hist.Entries(), entry.value);
      } else {
        assert forall e :: e in hist.Entries() ==> e.wireSeq != w;
      }
    }

    /** settleReply.  An outstanding probe is settled by a reply or an ICMP error.
        Otherwise a recently settled number makes the reply a duplicate or a late
        one (Classified), and anything else is dropped. */
    method SettleReply(reply: Reply, now: nat) returns (matched: bool)
      requires Valid()
      modifies `unacked, `settled, hist, t.Repr()
      ensures Valid() && fresh(t.Repr() - old(t.Repr())) && t.epoch == old(t.epoch)
      ensures matched == (reply.wireSeq in old(unacked))
      ensures matched ==>
                && old(unacked[reply.wireSeq].probe.Probe?)
                && Matched(old(Now()), reply, now, old(t.log), old(hist.Entries()))
      ensures unacked == old(unacked) - {reply.wireSeq} && attempt == old(attempt)
      ensures !matched ==> Now() == old(Now()) && hist.Entries() == old(hist.Entries())
      ensures !matched ==> forall i :: 0 <= i < |hist.Entries()| && hist.Entries()[i].wireSeq == reply.wireSeq ==>
                Classified(Now().books, hist.Entries()[i], t.epoch, old(t.log), t.log)
      ensures !matched && (forall i :: 0 <= i < |hist.Entries()| ==> hist.Entries()[i].wireSeq != reply.wireSeq) ==>
                t.log == old(t.log)
    {
      hide TargetStats.Valid, Ok, Remembered, Recorded, Settle, Classified;
      matched := reply.wireSeq in unacked;
      if matched {
        var p := unacked[reply.wireSeq];
        if reply.error {
          SettleOne(reply.wireSeq, Errored, Acked, Failure(IcmpError, now));
        } else {
          var rtt := reply.rtt;
          if rtt <= 0 {
            rtt := now - p.start;
          }
          SettleOne(reply.wireSeq, Answered, Acked, Success(rtt, reply.ttl, now));
        }
      } else {
        Classify(reply.wireSeq);
      }
    }

    /** What a matching reply has done since the state s with that log and history. */
    ghost predicate Matched(s: State, reply: Reply, now: nat, log: seq<Callback>, es: seq<RecentEntry>)
      requires reply.wireSeq in s.books.unacked && s.books.unacked[reply.wireSeq].probe.Probe?
      reads this, hist, t
    {
      var p := s.books.unacked[reply.wireSeq];
      var accepted := p.probe.epoch == t.epoch;
      var c := if reply.error then Failure(IcmpError, now)
               else Success(if reply.rtt > 0 then reply.rtt else now - p.start, reply.ttl, now);
      && Now() == s.(books := Settle(s.books, reply.wireSeq, if reply.error then Errored else Answered, accepted))
      && t.log == (if accepted then log + [c] else log)
      && hist.Entries() == Recorded(es, RecentEntry(reply.wireSeq, Acked, p.probe, p.attempt))
    }

    predicate Due(w: int, now: int)
      requires w in unacked
      reads this
    {
      now - unacked[w].start >= timeout
    }

    /** sweepTimeouts: exactly the outstanding probes that have reached the timeout
        are settled as losses, in some order; resets(i) fall before the i-th.  If
        the attempts were paced, few probes are left. */
    method SweepTimeouts(now: nat, resets: nat -> nat)
      requires Valid()
      modifies `unacked, `settled, hist, t.Repr()
      ensures Valid() && fresh(t.Repr() - old(t.Repr())) && t.epoch >= old(t.epoch)
      ensures SetAside(old(Now()), Now(), Expired)
      ensures forall w :: w in unacked <==> w in old(unacked) && now - old(unacked)[w].start < timeout
      ensures forall w :: w in unacked ==> unacked[w] == old(unacked)[w]
      ensures FewLeft(Now(), timeout, now) && timely == old(timely) && attempt == old(attempt)
    {
      hide TargetStats.Valid, Ok, HistoryOk, Swept, SetAside, FewLeft;
      ghost var before := Now();
      var i := 0;
      var due := set w | w in unacked && Due(w, now);
      SweptStart(before, timeout, now, due);
      while due != {}
        invariant Valid() && fresh(t.Repr() - old(t.Repr())) && t.epoch >= old(t.epoch)
        invariant Swept(before, Now(), timeout, now, due)
        decreases |due|
      {
        ghost var first := Pick(due);
        var w :| w in due;
        SweepOne(before, now, due, w, resets(i));
        due := due - {w};
        i := i + 1;
      }
      SweptEnd(before, Now(), timeout, now);
      OkAfterSweep(Now(), t.log, t.epoch, timeout, now);
    }

    method SweepOne(ghost s: State, now: nat, ghost due: set<int>, w: int, resets: nat)
      requires Valid() && Swept(s, Now(), timeout, now, due) && w in due
      modifies `unacked, `settled, hist, t.Repr()
      ensures Valid() && fresh(t.Repr() - old(t.Repr())) && t.epoch == old(t.epoch) + resets
      ensures Swept(s, Now(), timeout, now, due - {w})
    {
      hide TargetStats.Valid, Ok, HistoryOk, Recorded, Swept, Settle;
      SweptDue(s, Now(), timeout, now, due, w);
      OtherResets(resets);
      Unsettled(w);
      SweptStep(s, Now(), timeout, now, due, w, unacked[w].probe.epoch == t.epoch);
      SettleOne(w, Expired, TimedOut, Failure(Timeout, now));
    }

    /** An outstanding probe has not been settled yet, so settling it overwrites
        nothing; and no other outstanding probe has its number. */
    lemma Unsettled(w: int)
      requires Core(0) && w in unacked
      ensures unacked[w].attempt !in settled && unacked[w].probe.Probe?
    {
      hide TargetStats.Valid;
      assert PendingSound(Now().books, t.epoch, w);
    }

    /** The deferred cancellation: what is still outstanding when the worker
        returns counts as cancelled. */
    method CancelOutstanding(resets: nat -> nat)
      requires Core(0)
      modifies `unacked, `settled, t.Repr()
      ensures Core(0) && unacked == map[] && fresh(t.Repr() - old(t.Repr())) && t.epoch >= old(t.epoch)
      ensures SetAside(old(Now()), Now(), Dropped)
      ensures old(unacked) == map[] ==> settled == old(settled)
    {
      hide Core, SetAside;
      ghost var before := Now();
      SetAsideNothing(before, Dropped);
      var i := 0;
      while unacked != map[]
        invariant Core(0) && fresh(t.Repr() - old(t.Repr())) && t.epoch >= old(t.epoch)
        invariant SetAside(before, Now(), Dropped)
        invariant old(unacked) == map[] ==> unacked == map[] && settled == old(settled)
        decreases |unacked|
      {
        CancelNext(before, resets(i));
        i := i + 1;
      }
    }

    /** One probe, after resets by others. */
    method CancelNext(ghost s: State, resets: nat)
      requires Core(0) && SetAside(s, Now(), Dropped) && unacked != map[]
      modifies `unacked, `settled, t.Repr()
      ensures Core(0) && SetAside(s, Now(), Dropped) && fresh(t.Repr() - old(t.Repr())) && t.epoch >= old(t.epoch)
      ensures |unacked| < |old(unacked)|
    {
      hide TargetStats.Valid, Ok, SetAside;
      OtherResets(resets);
      CancelOne(s);
    }

    method CancelOne(ghost s: State)
      requires Core(0) && SetAside(s, Now(), Dropped) && unacked != map[]
      modifies `unacked, `settled, t.Repr()
      ensures Core(0) && SetAside(s, Now(), Dropped) && fresh(t.Repr() - old(t.Repr())) && t.epoch == old(t.epoch)
      ensures |unacked| < |old(unacked)|
    {
      hide TargetStats.Valid, Ok, SetAside;
      ghost var first := Pick(unacked.Keys);
      var w :| w in unacked;
      Unsettled(w);
      SetAsideStep(s, Now(), w, Dropped, unacked[w].probe.epoch == t.epoch);
      CountSettled(w, Dropped, Cancelled);
    }

    // ----- The loop -----

    /** One pass of the select loop; true when the worker is told to stop. */
    method Select(e: Event) returns (stop: bool)
      requires Valid()
      modifies this, hist, t.Repr()
      ensures Valid() && fresh(t.Repr() - old(t.Repr())) && t.epoch >= old(t.epoch) && stop == e.Stop?
      ensures Selected(old(Now()), Now(), e, old(listening), old(hasAddress), old(t.epoch), timeout)
      ensures e.SendTimer? && e.resets0 == e.resets1 == e.resets2 == 0 ==> t.epoch == old(t.epoch)
      ensures e.SendTimer? ==> hasAddress == (old(hasAddress) || (!old(doneSending) && e.lookup.Resolved?))
      ensures !e.SendTimer? ==> hasAddress == (old(hasAddress) || (e.DnsTick? && e.lookup.Resolved?))
    {
      hide TargetStats.Valid, Ok, HistoryOk, Matched, Classified, AfterSend, FewLeft;
      match e {
        case Stop =>
        case DnsTick(lookup, resets, at) =>
          var ok := LookUp(lookup, resets, at);
        case SendTimer(_, _, _, _, _, _, _) =>
          SendTimerFired(e);
        case ReplyArrived(reply, now, resets) =>
          OtherResets(resets);
          if listening {
            var matched := SettleReply(reply, now);
          }
        case SweepTimer(now, each) =>
          SweepTimeouts(now, each);
        case Elsewhere(resets) =>
          OtherResets(resets);
      }
      stop := e.Stop?;
    }

    /** Select, with the history of the run. */
    method SelectNext(schedule: seq<Event>, i: nat, ghost states: seq<State>) returns (stop: bool)
      requires Valid() && i < |schedule|
      requires |states| == i + 1 && states[i] == Now() && OnCourse(schedule, states, timeout)
      modifies this, hist, t.Repr()
      ensures Valid() && fresh(t.Repr() - old(t.Repr())) && t.epoch >= old(t.epoch) && stop == schedule[i].Stop?
      ensures OnCourse(schedule, states + [Now()], timeout)
    {
      hide TargetStats.Valid, Ok, HistoryOk, Selected, OnCourse;
      ghost var wasListening, hadAddress, epoch := listening, hasAddress, t.epoch;
      stop := Select(schedule[i]);
      CourseNext(schedule, states, Now(), timeout, wasListening, hadAddress, epoch);
    }

    /** runTargetWorker over a schedule.  When it returns, every probe it sent has
        been settled exactly once, in one way, or had its entry overwritten; if none
        was overwritten, it leaves nothing unaccounted for that was not so before.
        None is overwritten when the schedule sweeps in time, or when no more than
        65,536 attempts are to be made.  When it returns of itself, exactly Count
        attempts were made (one, if it started at or above Count) and no probe was
        dropped.  The states it went through are those of the events, and when the
        send events are an interval apart, few probes are left by every sweep. */
    method Run(first: Lookup, firstResets: nat, at: nat, schedule: seq<Event>, lastResets: nat -> nat)
      returns (exit: Exit, ghost states: seq<State>)
      requires Valid() && attempt == initialSeq && !doneSending && timely
      modifies this, hist, t.Repr()
      ensures Core(0) && fresh(t.Repr() - old(t.Repr())) && t.epoch >= old(t.epoch)
      ensures exit.StillRunning? ==> Valid()
      ensures !exit.StillRunning? ==> unacked == map[]
      ensures !exit.StillRunning? ==> sent == settled.Keys + overwritten.Keys && settled.Keys !! overwritten.Keys
      ensures !exit.StillRunning? && overwritten == map[] ==> Deficit(t.log) == Carried(Now().books, t.epoch)
      ensures SweptInTime(schedule, timeout) || 0 < count <= initialSeq + WIRE_RANGE ==> overwritten == map[]
      ensures exit.CountReached? ==> count > 0 && attempt == Max(count, initialSeq + 1)
      ensures exit.CountReached? ==> forall a :: a in settled ==> !settled[a].how.Dropped?
      ensures StatesOf(schedule, states, timeout) && states[0] == old(Now()) && Ends(exit, schedule, states)
      ensures if exit.StillRunning? then states[|states|-1] == Now() else SetAside(states[|states|-1], Now(), Dropped)
      ensures old(paced) && PacedSchedule(schedule, interval) ==> FewAfterSweeps(schedule, states, timeout)
    {
      hide TargetStats.Valid, Ok, Remembered, SweptInTime, SetAside;
      hide OnCourse, StatesOf, FewAfterSweeps, PacedSchedule, Ends;
      exit, states := Loop(first, firstResets, at, schedule);
      CourseMeans(schedule, states, timeout);
      NoneDropped();
      NoneOverwritten();
      if !exit.StillRunning? {
        CancelOutstanding(lastResets);
        NoneOverwritten();
        Returned();
      }
    }

    lemma NoneDropped()
      requires HistoryOk()
      ensures forall a :: a in settled ==> !settled[a].how.Dropped?
    {
    }

    lemma NoneOverwritten()
      requires Core(0)
      ensures timely || 0 < count <= initialSeq + WIRE_RANGE ==> overwritten == map[]
    {
      hide TargetStats.Valid;
    }

    lemma Returned()
      requires Core(0) && unacked == map[]
      ensures sent == settled.Keys + overwritten.Keys && settled.Keys !! overwritten.Keys
      ensures overwritten == map[] ==> Deficit(t.log) == Carried(Now().books, t.epoch)
    {
      AllSettled(Now(), t.log, t.epoch);
    }

    method Loop(first: Lookup, firstResets: nat, at: nat, schedule: seq<Event>)
      returns (exit: Exit, ghost states: seq<State>)
      requires Valid() && attempt == initialSeq && !doneSending && timely
      modifies this, hist, t.Repr()
      ensures Valid() && fresh(t.Repr() - old(t.Repr())) && t.epoch >= old(t.epoch)
      ensures exit.CountReached? ==> doneSending && unacked == map[]
      ensures exit.CountReached? ==> count > 0 && attempt == Max(count, initialSeq + 1)
      ensures 1 <= |states| <= |schedule| + 1 && OnCourse(schedule, states, timeout)
      ensures states[0] == old(Now()) && states[|states|-1] == Now() && Ends(exit, schedule, states)
    {
      hide Valid, OnCourse, Ends, NoStop;
      LookUpFirst(first, firstResets, at);
      CourseBegins(schedule, Now(), timeout);
      exit, states := Passes(schedule);
    }

    /** The passes of the loop. */
    method Passes(schedule: seq<Event>) returns (exit: Exit, ghost states: seq<State>)
      requires Valid() && OnCourse(schedule, [Now()], timeout)
      modifies this, hist, t.Repr()
      ensures Valid() && fresh(t.Repr() - old(t.Repr())) && t.epoch >= old(t.epoch)
      ensures exit.CountReached? ==> doneSending && unacked == map[]
      ensures exit.CountReached? ==> count > 0 && attempt == Max(count, initialSeq + 1)
      ensures 1 <= |states| <= |schedule| + 1 && OnCourse(schedule, states, timeout)
      ensures states[0] == old(Now()) && states[|states|-1] == Now() && Ends(exit, schedule, states)
    {
      hide Valid, OnCourse, Ends, NoStop;
      states := [Now()];
      NoStopYet(schedule);
      for i := 0 to |schedule|
        invariant Valid() && fresh(t.Repr() - old(t.Repr())) && t.epoch >= old(t.epoch)
        invariant |states| == i + 1 && states[0] == old(Now()) && states[i] == Now()
        invariant OnCourse(schedule, states, timeout) && NoStop(schedule, i)
      {
        var stop := SelectNext(schedule, i, states);
        states := states + [Now()];
        PassEnds(schedule, states, i);
        if stop {
          return Stopped, states;
        }
        if doneSending && unacked == map[] {
          CountReachedAt();
          return CountReached, states;
        }
      }
      ScheduleEnds(schedule, states);
      exit := StillRunning;
    }

    /** The lookup made before the loop. */
    method LookUpFirst(first: Lookup, resets: nat, at: nat)
      requires Valid() && attempt == initialSeq
      modifies `hasAddress, t.Repr()
      ensures Valid() && fresh(t.Repr() - old(t.Repr())) && t.epoch >= old(t.epoch) && unacked == map[]
    {
      hide TargetStats.Valid, HistoryOk;
      assert unacked == map[];
      hide Ok;
      hasAddress := Resolve(first, resets, at);
    }

    lemma CountReachedAt()
      requires Valid() && doneSending
      ensures count > 0 && attempt == Max(count, initialSeq + 1)
    {
      hide TargetStats.Valid, HistoryOk;
      OkProgress(Now(), t.log, t.epoch);
    }
  }
}
