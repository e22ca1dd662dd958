/** Statistics of one target (internal/stats/stats.go, history.go) and the probes
    that update them (internal/stats/probe.go).

    Everything a target shows is a function of one list: the callbacks accepted
    since the last reset. */
module TargetStatistics {
  import opened Arith
  import opened RttAccumulators
  import opened Healths
  import opened Options

  const HISTORY_SIZE := 3000

  /** Why a probe failed; the source passes the reason as text. */
  datatype Cause = Timeout | IcmpError | SendError | DnsError

  /** A lost probe that had been sent, as opposed to one that never left. */
  predicate OnWire(c: Cause) { c.Timeout? || c.IcmpError? }

  datatype Callback = Sent
                    | Success(rtt: int, ttl: int, at: nat)
                    | Failure(cause: Cause, at: nat)
                    | Duplicate
                    | LateReply
                    | Cancelled

  datatype Counters = Counters(sent: nat, recv: nat, loss: nat, duplicates: nat, lateReplies: nat, cancelled: nat)

  const ZERO := Counters(0, 0, 0, 0, 0, 0)

  // ----- What a list of callbacks amounts to -----

  function Tally(log: seq<Callback>): Counters
  {
    if log == [] then ZERO else Bumped(Tally(log[..|log|-1]), log[|log|-1])
  }

  /** Losses of probes that had been sent. */
  function WireLosses(log: seq<Callback>): nat
  {
    if log == [] then 0
    else WireLosses(log[..|log|-1]) + if log[|log|-1].Failure? && OnWire(log[|log|-1].cause) then 1 else 0
  }

  /** RTTs of the replies. */
  function Replies(log: seq<Callback>): seq<int>
  {
    if log == [] then []
    else Replies(log[..|log|-1]) + if log[|log|-1].Success? then [log[|log|-1].rtt] else []
  }

  function Positive(rtts: seq<int>): seq<int>
  {
    if rtts == [] then []
    else Positive(rtts[..|rtts|-1]) + if rtts[|rtts|-1] > 0 then [rtts[|rtts|-1]] else []
  }

  /** History values: the RTT of a reply, 0 for a loss. */
  function Values(log: seq<Callback>): seq<int>
  {
    if log == [] then []
    else
      var c := log[|log|-1];
      Values(log[..|log|-1]) + if c.Success? then [c.rtt] else if c.Failure? then [0] else []
  }

  /** When each history value was recorded. */
  function Times(log: seq<Callback>): seq<int>
  {
    if log == [] then []
    else
      var c := log[|log|-1];
      Times(log[..|log|-1]) + if c.Success? || c.Failure? then [c.at] else []
  }

  function Outcomes(log: seq<Callback>): seq<Outcome>
  {
    if log == [] then []
    else
      var c := log[|log|-1];
      Outcomes(log[..|log|-1])
      + if c.Success? then [Outcome(c.at, true)] else if c.Failure? then [Outcome(c.at, false)] else []
  }

  /** RTT of the last reply; 0 before the first. */
  function LastRtt(log: seq<Callback>): int
  {
    if log == [] then 0
    else if log[|log|-1].Success? then log[|log|-1].rtt
    else LastRtt(log[..|log|-1])
  }

  function LastTtl(log: seq<Callback>): int
  {
    if log == [] then 0
    else if log[|log|-1].Success? then log[|log|-1].ttl
    else LastTtl(log[..|log|-1])
  }

  /** Why the last probe failed, unless a reply came since (lastError). */
  function LastCause(log: seq<Callback>): Option<Cause>
  {
    if log == [] then None
    else if log[|log|-1].Success? then None
    else if log[|log|-1].Failure? then Some(log[|log|-1].cause)
    else LastCause(log[..|log|-1])
  }

  /** When the last probe failed; 0 before the first failure. */
  function LastLoss(log: seq<Callback>): int
  {
    if log == [] then 0
    else if log[|log|-1].Failure? then log[|log|-1].at
    else LastLoss(log[..|log|-1])
  }

  lemma {:induction false} SameLength(log: seq<Callback>)
    ensures |Values(log)| == |Times(log)| == |Outcomes(log)|
    ensures |Replies(log)| == Tally(log).recv
  {
    if log != [] {
      SameLength(log[..|log|-1]);
    }
  }

  lemma EmptyReadings()
    ensures Tally([]) == ZERO && Replies([]) == [] && Positive([]) == [] && Values([]) == [] == Times([])
    ensures Outcomes([]) == [] && LastTtl([]) == 0 == JitterOf([]) && LastRtt([]) == 0
    ensures LastCause([]) == None && LastLoss([]) == 0
  {
  }

  lemma {:induction false} LastRttIs(log: seq<Callback>)
    ensures LastRtt(log) == if Replies(log) == [] then 0 else Replies(log)[|Replies(log)|-1]
  {
    if log != [] {
      LastRttIs(log[..|log|-1]);
    }
  }

  /** What one more callback adds to every reading of the list. */
  lemma Snoc(log: seq<Callback>, c: Callback)
    ensures var l := log + [c];
            && (l[..|log|] == log && l[|log|] == c)
            && Replies(l) == (if c.Success? then Replies(log) + [c.rtt] else Replies(log))
            && Values(l) == (if c.Success? then Values(log) + [c.rtt]
                             else if c.Failure? then Values(log) + [0] else Values(log))
            && Times(l) == (if c.Success? || c.Failure? then Times(log) + [c.at] else Times(log))
            && Outcomes(l) == (if c.Success? then Outcomes(log) + [Outcome(c.at, true)]
                               else if c.Failure? then Outcomes(log) + [Outcome(c.at, false)] else Outcomes(log))
            && LastRtt(l) == (if c.Success? then c.rtt else LastRtt(log))
            && LastTtl(l) == (if c.Success? then c.ttl else LastTtl(log))
            && LastCause(l) == (if c.Success? then None else if c.Failure? then Some(c.cause) else LastCause(log))
            && LastLoss(l) == (if c.Failure? then c.at else LastLoss(log))
  {
  }

  lemma OutcomesSnoc(log: seq<Callback>, c: Callback)
    ensures Outcomes(log + [c]) == (if c.Success? then Outcomes(log) + [Outcome(c.at, true)]
                                    else if c.Failure? then Outcomes(log) + [Outcome(c.at, false)] else Outcomes(log))
  {
    Snoc(log, c);
  }

  /** What a sample adds to the history and to the RTTs. */
  lemma SampleSnoc(log: seq<Callback>, c: Callback)
    requires c.Success? || c.Failure?
    ensures Values(log + [c]) == Values(log) + [if c.Success? then c.rtt else 0]
    ensures Times(log + [c]) == Times(log) + [c.at]
    ensures Positive(Replies(log + [c]))
         == if c.Success? && c.rtt > 0 then Positive(Replies(log)) + [c.rtt] else Positive(Replies(log))
  {
    Snoc(log, c);
    if c.Success? {
      ReplySnoc(Replies(log), c.rtt);
    }
  }

  /** The counters after one more callback. */
  function Bumped(n: Counters, c: Callback): Counters
  {
    match c
    case Sent => n.(sent := n.sent + 1)
    case Success(_, _, _) => n.(recv := n.recv + 1)
    case Failure(_, _) => n.(loss := n.loss + 1)
    case Duplicate => n.(duplicates := n.duplicates + 1)
    case LateReply => n.(lateReplies := n.lateReplies + 1)
    case Cancelled => n.(cancelled := n.cancelled + 1)
  }

  lemma CountSnoc(log: seq<Callback>, c: Callback)
    ensures Tally(log + [c]) == Bumped(Tally(log), c)
  {
    assert (log + [c])[..|log|] == log;
  }

  lemma ReplySnoc(rtts: seq<int>, x: int)
    ensures Positive(rtts + [x]) == if x > 0 then Positive(rtts) + [x] else Positive(rtts)
    ensures JitterOf(rtts + [x]) == if rtts == [] then 0 else UpdateJitter(JitterOf(rtts), x, rtts[|rtts|-1])
  {
    var s := rtts + [x];
    assert s[..|s|-1] == rtts;
  }

  /** A ping sample with its wall time; no RTT marks a loss. */
  datatype HistorySample = Missed(at: int) | Replied(at: int, rtt: int)

  /** Values paired with their times; samples without a recorded time are left out. */
  function Paired(values: seq<int>, times: seq<int>): seq<HistorySample>
    requires |values| == |times|
  {
    if values == [] then []
    else
      var v, at := values[|values|-1], times[|times|-1];
      Paired(values[..|values|-1], times[..|times|-1])
      + if at == 0 then [] else if v > 0 then [Replied(at, v)] else [Missed(at)]
  }

  /** The single readings after one more reply. */
  lemma ReplyReadings(log: seq<Callback>, c: Callback)
    requires c.Success?
    ensures var l := log + [c];
            && Tally(l) == Tally(log).(recv := Tally(log).recv + 1)
            && JitterOf(Replies(l)) == (if Tally(log).recv > 0
                                        then UpdateJitter(JitterOf(Replies(log)), c.rtt, LastRtt(log))
                                        else JitterOf(Replies(log)))
            && LastRtt(l) == c.rtt && LastTtl(l) == c.ttl && LastCause(l) == None && LastLoss(l) == LastLoss(log)
  {
    Snoc(log, c);
    CountSnoc(log, c);
    SameLength(log);
    hide Tally, Replies, UpdateJitter;
    ReplySnoc(Replies(log), c.rtt);
    LastRttIs(log);
  }

  class TargetStats {
    const rtt: RttAccumulator
    const health: Health
    var sent: nat
    var recv: nat
    var loss: nat
    var duplicates: nat
    var lateReplies: nat
    var cancelled: nat
    var lastRTT: int
    var lastTTL: int
    var lastError: Option<Cause>
    var lastLossTime: int
    var jitter: int
    var epoch: nat
    var historyTimes: array?<int>

    /** The callbacks accepted since the last reset. */
    ghost var log: seq<Callback>

    ghost function Repr(): set<object>
      reads this, rtt, health
    {
      {this, rtt, health}
      + (if rtt.history == null then {} else {rtt.history})
      + (if health.buckets == null then {} else {health.buckets})
      + (if historyTimes == null then {} else {historyTimes})
    }

    /** The history rings, value and time in the same slot, are those of l. */
    ghost predicate HistoryIs(l: seq<Callback>)
      reads `historyTimes, rtt, rtt.history, historyTimes
    {
      RingsAre(Values(l), Times(l)) && rtt.recorded == Positive(Replies(l))
    }

    ghost predicate RingsAre(values: seq<int>, times: seq<int>)
      reads `historyTimes, rtt, rtt.history, historyTimes
    {
      && rtt.Valid() && rtt.pushed == values
      && (historyTimes == null <==> rtt.history == null) && (rtt.history == null <==> values == [])
      && (rtt.history != null ==> rtt.history.Length == HISTORY_SIZE)
      && (historyTimes != null ==> historyTimes != rtt.history && historyTimes.Length == HISTORY_SIZE
                                   && historyTimes[..] == RingOf(times, HISTORY_SIZE))
    }

    ghost predicate CountersAre(l: seq<Callback>)
      reads `sent, `recv, `loss, `duplicates, `lateReplies, `cancelled
      reads `jitter, `lastRTT, `lastTTL, `lastError, `lastLossTime
    {
      && Counters(sent, recv, loss, duplicates, lateReplies, cancelled) == Tally(l)
      && jitter == JitterOf(Replies(l))
      && lastRTT == LastRtt(l)
      && lastTTL == LastTtl(l)
      && lastError == LastCause(l) && lastLossTime == LastLoss(l)
    }

    /** What callback c does to the health rules and clock of evaluation. */
    twostate predicate Judged(c: Callback)
      reads health
    {
      && health.Settings() == old(health.Settings())
      && health.evaluatedAt == if c.Success? || c.Failure? then c.at else old(health.evaluatedAt)
    }

    /** Every statistic shown is the reading of the accepted callbacks. */
    ghost predicate Valid()
      reads Repr()
    {
      && CountersAre(log) && HistoryIs(log)
      && health.Valid() && health.log == Outcomes(log)
    }

    constructor ()
      ensures Valid() && fresh(Repr()) && log == [] && epoch == 0
      ensures health.Settings() == (Policy(0, 0, 0), false, 0, true)
    {
      hide Valid, CountersAre, HistoryIs, RttAccumulator.Valid, Health.Valid;
      rtt := new RttAccumulator();
      health := new Health();
      sent, recv, loss, duplicates, lateReplies, cancelled := 0, 0, 0, 0, 0, 0;
      lastRTT, lastTTL, lastError, lastLossTime := 0, 0, None, 0;
      jitter, epoch, historyTimes := 0, 0, null;
      log := [];
      new;
      NoneCounted();
      NothingRead();
    }

    lemma NoneCounted()
      requires Counters(sent, recv, loss, duplicates, lateReplies, cancelled) == ZERO
      requires lastRTT == lastTTL == lastLossTime == jitter == 0 && lastError == None
      ensures CountersAre([])
    {
    }

    lemma NothingRead()
      requires CountersAre([]) && log == [] && historyTimes == null
      requires rtt.Valid() && rtt.recorded == [] && rtt.pushed == [] && rtt.history == null
      requires health.Valid() && health.log == []
      ensures Valid()
    {
      hide CountersAre, RttAccumulator.Valid, Health.Valid;
    }

    /** Reset: a new window; probes of the old one no longer count. */
    method Reset()
      requires Valid()
      modifies this, rtt, health
      ensures Valid() && log == [] && epoch == old(epoch) + 1
      ensures Repr() == {this, rtt, health}
      ensures health.policy == old(health.policy) && health.configured == old(health.configured)
      ensures health.ringStart == 0 && health.steady
    {
      EmptyReadings();
      hide MomentsExact, BucketsOf, RingOf, Least, Greatest, Latched, Trailing;
      hide Tally, Replies, Positive, Values, Times, Outcomes, LastRtt, LastTtl, LastCause, LastLoss, JitterOf;
      ClearFields();
      rtt.Clear();
      health.Clear();
    }

    method ClearFields()
      modifies this
      ensures CountersAre([]) && log == [] && epoch == old(epoch) + 1 && historyTimes == null
    {
      ClearLast();
      epoch := epoch + 1;
      sent, cancelled, recv, loss, duplicates, lateReplies := 0, 0, 0, 0, 0, 0;
      historyTimes := null;
      log := [];
    }

    method ClearLast()
      modifies `lastRTT, `lastTTL, `lastError, `lastLossTime, `jitter
      ensures lastRTT == lastTTL == lastLossTime == jitter == 0 && lastError == None
    {
      lastRTT, lastTTL, lastError, lastLossTime, jitter := 0, 0, None, 0, 0;
    }

    /** appendHistoryLocked: the value and its time, in step. */
    method AppendHistory(value: int, at: nat, ghost values: seq<int>, ghost times: seq<int>)
      requires RingsAre(values, times) && |values| == |times|
      modifies rtt`history, rtt`historyIdx, rtt`historyLen, rtt`pushed, rtt.history, `historyTimes, historyTimes
      ensures RingsAre(values + [value], times + [at])
      ensures rtt.history != null && historyTimes != null
      ensures if old(rtt.history) == null then fresh(rtt.history) else rtt.history == old(rtt.history)
      ensures if old(historyTimes) == null then fresh(historyTimes) else historyTimes == old(historyTimes)
    {
      hide MomentsExact, Least, Greatest, RingOf;
      rtt.AppendHistory(value, HISTORY_SIZE);
      if historyTimes == null {
        RingEmpty(HISTORY_SIZE);
        historyTimes := new int[HISTORY_SIZE](_ => 0);
        assert historyTimes[..] == RingOf([], HISTORY_SIZE);
      }
      RingSnoc(times, at, HISTORY_SIZE);
      historyTimes[(rtt.historyIdx - 1) % HISTORY_SIZE] := at;
    }

    /** Of onSuccessLocked: jitter, count, last RTT and TTL. */
    method CountSuccess(rttNs: int, ttl: int, at: nat)
      requires CountersAre(log)
      modifies `jitter, `recv, `lastRTT, `lastTTL, `lastError
      ensures CountersAre(log + [Success(rttNs, ttl, at)])
    {
      hide Tally, Replies, JitterOf, LastRtt, LastTtl, LastCause, LastLoss, UpdateJitter;
      ReplyReadings(log, Success(rttNs, ttl, at));
      if recv > 0 {
        jitter := UpdateJitter(jitter, rttNs, lastRTT);
      }
      recv := recv + 1;
      lastRTT := rttNs;
      lastTTL := ttl;
      lastError := None;
    }

    /** Of onSuccessLocked: the RTT statistics and the history sample. */
    method RecordReply(c: Callback)
      requires HistoryIs(log) && c.Success?
      modifies rtt, rtt.history, `historyTimes, historyTimes
      ensures HistoryIs(log + [c]) && rtt.history != null && historyTimes != null
      ensures if old(rtt.history) == null then fresh(rtt.history) else rtt.history == old(rtt.history)
      ensures if old(historyTimes) == null then fresh(historyTimes) else historyTimes == old(historyTimes)
    {
      SampleSnoc(log, c);
      SameLength(log);
      hide RingsAre, Replies, Positive, Values, Times;
      RecordRtt(c.rtt, Values(log), Times(log));
      AppendHistory(c.rtt, c.at, Values(log), Times(log));
    }

    method RecordRtt(x: int, ghost values: seq<int>, ghost times: seq<int>)
      requires RingsAre(values, times)
      modifies rtt`min, rtt`max, rtt`sum, rtt`samples, rtt`mean, rtt`m2, rtt`recorded
      ensures RingsAre(values, times) && rtt.recorded == if x <= 0 then old(rtt.recorded) else old(rtt.recorded) + [x]
    {
      hide RttAccumulator.Valid, RingOf;
      rtt.Record(x);
    }

    method JudgeHealth(at: nat, success: bool)
      requires health.Valid()
      modifies health, health.buckets
      ensures health.Valid() && health.log == old(health.log) + [Outcome(at, success)]
              && health.Settings() == old(health.Settings()) && health.evaluatedAt == at
      ensures health.buckets != null
      ensures if old(health.buckets) == null then fresh(health.buckets) else health.buckets == old(health.buckets)
    {
      hide *;
      health.RecordOutcome(at, success);
    }

    /** onSuccessLocked. */
    method OnSuccessLocked(rttNs: int, ttl: int, at: nat)
      requires Valid()
      modifies Repr()
      ensures Valid() && log == old(log) + [Success(rttNs, ttl, at)]
      ensures epoch == old(epoch) && Judged(Success(rttNs, ttl, at))
      ensures fresh(Repr() - old(Repr()))
    {
      var c := Success(rttNs, ttl, at);
      OutcomesSnoc(log, c);
      hide CountersAre, HistoryIs, Health.Valid;
      hide Tally, Replies, Positive, Values, Times, Outcomes, LastRtt, LastTtl, LastCause, LastLoss, JitterOf;
      CountSuccess(rttNs, ttl, at);
      RecordReply(c);
      JudgeHealth(at, true);
      log := log + [c];
    }

    /** onFailureLocked. */
    method OnFailureLocked(cause: Cause, at: nat)
      requires Valid()
      modifies Repr()
      ensures Valid() && log == old(log) + [Failure(cause, at)]
      ensures epoch == old(epoch) && Judged(Failure(cause, at))
      ensures fresh(Repr() - old(Repr()))
    {
      var c := Failure(cause, at);
      OutcomesSnoc(log, c);
      hide CountersAre, HistoryIs, Health.Valid;
      hide Tally, Replies, Positive, Values, Times, Outcomes, LastRtt, LastTtl, LastCause, LastLoss, JitterOf;
      CountLoss(c);
      RecordLoss(c);
      JudgeHealth(at, false);
      log := log + [c];
    }

    /** The history sample of a loss. */
    method RecordLoss(c: Callback)
      requires HistoryIs(log) && c.Failure?
      modifies rtt, rtt.history, `historyTimes, historyTimes
      ensures HistoryIs(log + [c]) && rtt.history != null && historyTimes != null
      ensures if old(rtt.history) == null then fresh(rtt.history) else rtt.history == old(rtt.history)
      ensures if old(historyTimes) == null then fresh(historyTimes) else historyTimes == old(historyTimes)
    {
      SampleSnoc(log, c);
      SameLength(log);
      hide RingsAre, Replies, Positive, Values, Times;
      AppendHistory(0, c.at, Values(log), Times(log));
    }

    method CountLoss(c: Callback)
      requires CountersAre(log) && c.Failure?
      modifies `loss, `lastLossTime, `lastError
      ensures CountersAre(log + [c])
    {
      Snoc(log, c);
      CountSnoc(log, c);
      hide Tally, Replies, JitterOf, LastRtt, LastTtl, LastCause, LastLoss;
      loss := loss + 1;
      lastLossTime, lastError := c.at, Some(c.cause);
    }

    /** The counters that have no reading but their number. */
    method CountOnly(c: Callback)
      requires Valid() && !c.Success? && !c.Failure?
      modifies `sent, `duplicates, `lateReplies, `cancelled, `log
      ensures Valid() && log == old(log) + [c] && Repr() == old(Repr()) && Judged(c)
    {
      hide CountersAre, RingsAre, Health.Valid, Health.Settings;
      hide Tally, Replies, Positive, Values, Times, Outcomes, LastRtt, LastTtl, LastCause, LastLoss, JitterOf;
      Snoc(log, c);
      Increment(c);
      log := log + [c];
    }

    method Increment(c: Callback)
      requires CountersAre(log) && !c.Success? && !c.Failure?
      modifies `sent, `duplicates, `lateReplies, `cancelled
      ensures CountersAre(log + [c])
    {
      hide Tally, Replies, JitterOf, LastRtt, LastTtl, LastCause, LastLoss;
      Snoc(log, c);
      CountSnoc(log, c);
      match c {
        case Sent => sent := sent + 1;
        case Duplicate => duplicates := duplicates + 1;
        case LateReply => lateReplies := lateReplies + 1;
        case Cancelled => cancelled := cancelled + 1;
      }
    }

    /** Run one callback under the target's lock. */
    method Apply(c: Callback)
      requires Valid()
      modifies Repr()
      ensures Valid() && log == old(log) + [c]
      ensures epoch == old(epoch) && Judged(c)
      ensures fresh(Repr() - old(Repr()))
    {
      assert this in Repr();
      hide *;
      if c.Success? {
        OnSuccessLocked(c.rtt, c.ttl, c.at);
      } else if c.Failure? {
        OnFailureLocked(c.cause, c.at);
      } else {
        CountOnly(c);
      }
    }

    /** HistorySamples: the trailing samples with their times. */
    method HistorySamples(n: int) returns (out: seq<HistorySample>)
      requires Valid()
      ensures var k := if n < 0 then 0 else Min(n, Min(|Values(log)|, HISTORY_SIZE));
              k <= |Values(log)| == |Times(log)| && out == Paired(Last(Values(log), k), Last(Times(log), k))
    {
      SameLength(log);
      hide MomentsExact, RingOf, Least, Greatest, Values, Times, Tally, Outcomes, JitterOf, Replies, Positive;
      hide BucketsOf, Latched, Trailing, Paired, LastRtt, LastTtl;
      var count := n;
      if count > rtt.historyLen {
        count := rtt.historyLen;
      }
      if count < 0 {
        count := 0;
      }
      out := SamplesFrom(count, Values(log), Times(log));
    }

    /** The loop of HistorySamples. */
    method SamplesFrom(count: nat, ghost values: seq<int>, ghost times: seq<int>) returns (out: seq<HistorySample>)
      requires RingsAre(values, times) && |values| == |times| && count <= rtt.historyLen
      ensures count <= |values| && out == Paired(Last(values, count), Last(times, count))
    {
      hide MomentsExact, Least, Greatest, RingOf, Paired;
      var start := rtt.historyIdx - rtt.historyLen;
      ghost var first := |values| - count;
      out := [];
      EmptyPair(values, times, first);
      for i := rtt.historyLen - count to rtt.historyLen
        invariant out == PairedFrom(values, times, first, i - (rtt.historyLen - count))
      {
        ghost var k := i - (rtt.historyLen - count);
        RingAt(values, HISTORY_SIZE, first + k);
        RingAt(times, HISTORY_SIZE, first + k);
        PairedSnoc(values, times, first, k);
        var idx := (start + i) % HISTORY_SIZE;
        assert start + i == first + k;
        if historyTimes == null || historyTimes[idx] == 0 {
          continue;
        }
        if rtt.history[idx] > 0 {
          out := out + [Replied(historyTimes[idx], rtt.history[idx])];
        } else {
          out := out + [Missed(historyTimes[idx])];
        }
      }
      WholePair(values, times, first);
    }
  }

  lemma RingAt(log: seq<int>, n: nat, p: nat)
    requires n > 0 && |log| - Min(|log|, n) <= p < |log|
    ensures RingOf(log, n)[p % n] == log[p]
  {
    RingHoldsLast(log, n);
  }

  /** The pairing of k elements from position first on. */
  function PairedFrom(values: seq<int>, times: seq<int>, first: nat, k: nat): seq<HistorySample>
    requires |values| == |times| && first + k <= |values|
  {
    Paired(values[first..first+k], times[first..first+k])
  }

  lemma EmptyPair(values: seq<int>, times: seq<int>, first: nat)
    requires |values| == |times| && first <= |values|
    ensures PairedFrom(values, times, first, 0) == []
  {
  }

  lemma WholePair(values: seq<int>, times: seq<int>, first: nat)
    requires |values| == |times| && first <= |values|
    ensures PairedFrom(values, times, first, |values| - first) == Paired(values[first..], times[first..])
  {
    assert values[first..first+(|values|-first)] == values[first..];
    assert times[first..first+(|times|-first)] == times[first..];
  }

  lemma PairedSnoc(values: seq<int>, times: seq<int>, first: nat, k: nat)
    requires |values| == |times| && first + k < |values|
    ensures var v, at := values[first+k], times[first+k];
            PairedFrom(values, times, first, k + 1)
            == if at == 0 then PairedFrom(values, times, first, k)
               else PairedFrom(values, times, first, k) + if v > 0 then [Replied(at, v)] else [Missed(at)]
  {
    var vs, ts := values[first..first+k+1], times[first..first+k+1];
    assert vs[..k] == values[first..first+k] && ts[..k] == times[first..first+k];
  }

  /** Probe: one operation, tied to the window it began in.  The zero value
      belongs to no target and ignores every update. */
  datatype Probe = NoProbe | Probe(target: TargetStats, epoch: nat) {

    /** update: the callback counts only in the probe's own window. */
    method Update(c: Callback) returns (accepted: bool)
      requires Probe? ==> target.Valid()
      modifies if Probe? then target.Repr() else {}
      ensures accepted <==> Probe? && epoch == old(target.epoch)
      ensures Probe? ==> target.Valid() && target.epoch == old(target.epoch)
                         && target.log == (if accepted then old(target.log) + [c] else old(target.log))
                         && fresh(target.Repr() - old(target.Repr()))
      ensures Probe? ==> if accepted then target.Judged(c)
                         else target.health.Settings() == old(target.health.Settings())
                              && target.health.evaluatedAt == old(target.health.evaluatedAt)
    {
      hide *;
      if NoProbe? || epoch != target.epoch {
        return false;
      }
      target.Apply(c);
      accepted := true;
    }
  }
}
