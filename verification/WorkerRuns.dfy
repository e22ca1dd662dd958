/** Whole runs of workers: one after another on the same target, whose statistics are
    kept over stop, start and restart (cmd/main/supervisor.go:60-61), and a run in
    which a probe is lost from the accounts. */
module WorkerRuns {
  import opened Ledgers
  import opened TargetStatistics
  import opened Workers

  // ----- One worker after another -----

  /** What one worker of a target is given. */
  datatype Stint = Stint(count: int, initialSeq: int, timeout: nat, interval: nat, first: Lookup, firstResets: nat,
                         at: nat, schedule: seq<Event>, lastResets: nat -> nat)

  /** Its schedule sweeps in time, or it is to make at most 65,536 attempts. */
  ghost predicate Timed(s: Stint)
  {
    SweptInTime(s.schedule, s.timeout) || 0 < s.count <= s.initialSeq + WIRE_RANGE
  }

  /** A stint ends in a stop, unless the Count ends it before. */
  method RunStint(t: TargetStats, s: Stint)
    requires t.Valid()
    modifies t.Repr()
    ensures t.Valid() && fresh(t.Repr() - old(t.Repr())) && t.epoch >= old(t.epoch)
    ensures Timed(s) ==> Deficit(t.log) == if t.epoch == old(t.epoch) then old(Deficit(t.log)) else 0
  {
    hide TargetStats.Valid, Ok, Worker.HistoryOk, Deficit, SweptInTime;
    hide StatesOf, FewAfterSweeps, PacedSchedule, SetAside;
    var w := new Worker(t, s.count, s.initialSeq, s.timeout, s.interval);
    var schedule := s.schedule + [Stop];
    if SweptInTime(s.schedule, s.timeout) {
      StopIsNoSend(s.schedule, s.timeout);
    }
    var exit, states := w.Run(s.first, s.firstResets, s.at, schedule, s.lastResets);
    assert schedule[|s.schedule|].Stop?;
  }

  lemma StopIsNoSend(schedule: seq<Event>, timeout: nat)
    requires SweptInTime(schedule, timeout)
    ensures SweptInTime(schedule + [Stop], timeout)
  {
    var longer := schedule + [Stop];
    forall i, n | 0 <= i < n < |longer| && longer[i].SendTimer? && longer[n].SendTimer?
                  && Sends(longer, i + 1, n) >= WIRE_RANGE - 1
      ensures SweptBetween(longer, i, n, timeout)
    {
      SendsInPrefix(schedule, Stop, i + 1, n);
      assert SweptBetween(schedule, i, n, timeout);
      var k :| i < k < n && schedule[k].SweepTimer? && schedule[k].now - schedule[i].start >= timeout;
      assert longer[k] == schedule[k];
    }
  }

  lemma {:induction false} SendsInPrefix(schedule: seq<Event>, e: Event, from: nat, to: nat)
    requires from <= to <= |schedule|
    ensures Sends(schedule + [e], from, to) == Sends(schedule, from, to)
  {
    if from < to {
      SendsInPrefix(schedule, e, from, to - 1);
    }
  }

  /** Statistics are kept over stop, start and restart: any number of workers, one
      after the other, leave nothing of the window unaccounted for. */
  method RunStints(t: TargetStats, stints: seq<Stint>)
    requires t.Valid() && forall k :: 0 <= k < |stints| ==> Timed(stints[k])
    modifies t.Repr()
    ensures t.Valid() && fresh(t.Repr() - old(t.Repr()))
    ensures Deficit(t.log) == if t.epoch == old(t.epoch) then old(Deficit(t.log)) else 0
    ensures old(t.log) == [] ==> t.sent == t.recv + t.cancelled + WireLosses(t.log)
  {
    hide TargetStats.Valid, Deficit;
    for k := 0 to |stints|
      invariant t.Valid() && fresh(t.Repr() - old(t.Repr())) && t.epoch >= old(t.epoch)
      invariant Deficit(t.log) == if t.epoch == old(t.epoch) then old(Deficit(t.log)) else 0
    {
      RunStint(t, stints[k]);
    }
    CountersBalance(t);
    DeficitOfNone();
  }

  lemma CountersBalance(t: TargetStats)
    requires t.Valid()
    ensures t.sent - t.recv - t.cancelled - WireLosses(t.log) == Deficit(t.log)
  {
  }

  lemma DeficitOfNone()
    ensures Deficit([]) == 0
  {
  }

  // ----- When sweeping is too seldom -----

  function SendAt(write: Write, start: nat): Event
  {
    SendTimer(Resolved, write, start, start, 0, 0, 0)
  }

  /** The worker has sent attempt 1, then made n attempts that sent nothing. */
  ghost predicate OneSent(s: State, t: TargetStats, n: nat)
  {
    && s.books.owner == t && s.books.unacked == map[1 := Pending(0, Probe(t, 0), 1)] && s.books.sent == {1}
    && s.books.settled == map[] && s.books.overwritten == map[] && s.books.since == 0 && s.books.carried == 0
    && s.attempt == n + 1 && s.lastAt == 100 * n && s.interval == 100 && s.paced && !s.doneSending
    && s.count == 0 == s.initialSeq
  }

  ghost predicate OneOverwritten(s: State, t: TargetStats)
  {
    && s.books.unacked.Keys == {1} && s.books.unacked[1].probe == Probe(t, 0) && s.books.overwritten == map[1 := 0]
    && s.books.sent == {1, 65537} && s.books.settled == map[] && s.books.since == 0 && s.books.carried == 0
    && s.attempt == 65537 && s.paced
  }

  lemma FirstSent(t: TargetStats, lastAt: int, timely: bool)
    ensures var s := State(Empty(t, 0, 0), 0, false, 0, 0, 100, lastAt, true, timely);
            OneSent(AfterSend(s, SendAt(Written, 0), false, 0), t, 0)
  {
  }

  lemma NothingSent(s: State, t: TargetStats, n: nat)
    requires OneSent(s, t, n)
    ensures OneSent(AfterSend(s, SendAt(MarshalFailed, 100 * (n + 1)), true, 0), t, n + 1)
  {
  }

  lemma LastSent(s: State, t: TargetStats)
    requires OneSent(s, t, 65535)
    ensures OneOverwritten(AfterSend(s, SendAt(Written, 6553600), true, 0), t)
  {
  }

  /** A worker of its own target, which nobody resets. */
  ghost predicate Alone(w: Worker)
    reads w, w.hist, w.t, w.t.rtt, w.t.health, w.t.Repr()
  {
    w.Valid() && w.t.epoch == 0
  }

  method NewWorker() returns (w: Worker)
    ensures fresh(w) && fresh(w.hist) && fresh(w.t.Repr()) && Alone(w) && !w.hasAddress
    ensures w.Now() == State(Empty(w.t, 0, 0), 0, false, 0, 0, 100, w.lastAt, true, true)
  {
    hide TargetStats.Valid, Ok, Worker.HistoryOk, Deficit;
    var t := new TargetStats();
    w := new Worker(t, 0, 0, 1000, 100);
    DeficitOfNone();
  }

  method Send(w: Worker, write: Write, start: nat)
    requires Alone(w)
    modifies w, w.hist, w.t.Repr()
    ensures Alone(w) && fresh(w.t.Repr() - old(w.t.Repr()))
    ensures w.hasAddress == (old(w.hasAddress) || !old(w.doneSending))
    ensures w.Now() == AfterSend(old(w.Now()), SendAt(write, start), old(w.hasAddress), 0)
  {
    hide Worker.Valid, AfterSend;
    var stop := w.Select(SendAt(write, start));
  }

  method SendFirst() returns (w: Worker)
    ensures fresh(w) && fresh(w.hist) && fresh(w.t.Repr()) && Alone(w) && w.hasAddress && OneSent(w.Now(), w.t, 0)
  {
    hide Alone, AfterSend, OneSent;
    w := NewWorker();
    FirstSent(w.t, w.lastAt, true);
    Send(w, Written, 0);
  }

  method SendLast(w: Worker)
    requires Alone(w) && w.hasAddress && OneSent(w.Now(), w.t, 65535)
    modifies w, w.hist, w.t.Repr()
    ensures Alone(w) && OneOverwritten(w.Now(), w.t)
  {
    hide Alone, AfterSend, OneSent, OneOverwritten, Worker.Now, SendAt;
    LastSent(w.Now(), w.t);
    Send(w, Written, 6553600);
  }

  method SendNothing(w: Worker, n: nat)
    requires Alone(w) && w.hasAddress && OneSent(w.Now(), w.t, n)
    modifies w, w.hist, w.t.Repr()
    ensures Alone(w) && w.hasAddress && OneSent(w.Now(), w.t, n + 1) && fresh(w.t.Repr() - old(w.t.Repr()))
  {
    hide Alone, AfterSend, OneSent, Worker.Now, SendAt;
    NothingSent(w.Now(), w.t, n);
    Send(w, MarshalFailed, 100 * (n + 1));
  }

  /** A run that loses a probe: one send, 65,535 that do not marshal, one more send,
      all 100 ms apart and no sweep among them.  The last takes over the entry of the
      first, and one of the two probes counted as sent can never be settled. */
  method OverwritingRun() returns (w: Worker)
    ensures fresh(w) && w.Core(0) && OneOverwritten(w.Now(), w.t)
    ensures Deficit(w.t.log) == |w.unacked| + 1
  {
    hide Alone, AfterSend, OneSent, OneOverwritten, Deficit, Worker.Now, SendAt;
    w := SendFirst();
    for n: nat := 0 to 65535
      invariant Alone(w) && fresh(w) && fresh(w.hist) && fresh(w.t.Repr()) && w.hasAddress
      invariant OneSent(w.Now(), w.t, n)
    {
      SendNothing(w, n);
    }
    SendLast(w);
    Unaccounted(w);
  }

  lemma Unaccounted(w: Worker)
    requires Alone(w) && OneOverwritten(w.Now(), w.t)
    ensures w.Core(0) && Deficit(w.t.log) == |w.unacked| + 1
  {
    hide TargetStats.Valid, Worker.HistoryOk;
    TwoUnsettled(w.Now(), w.t.log, w.t);
  }

  lemma TwoUnsettled(s: State, log: seq<Callback>, t: TargetStats)
    requires Ok(s, log, 0, 0) && s.books.since == 0 && s.books.carried == 0
    requires s.books.unacked.Keys == {1} && s.books.unacked[1].probe == Probe(t, 0)
    requires s.books.overwritten == map[1 := 0]
    ensures Deficit(log) == |s.books.unacked| + 1
  {
    hide Deficit, Sound;
    assert Outstanding(s.books, 0) == {1} && Lost(s.books, 0) == {1};
    assert |s.books.unacked| == |s.books.unacked.Keys|;
  }
}
