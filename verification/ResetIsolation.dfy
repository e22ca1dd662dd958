/** Reset isolation: whatever the interleaving of probes, callbacks and resets, a
    target shows what a new target shows after only the callbacks of probes begun
    since the last reset. */
module ResetIsolation {
  import opened Options
  import opened RttAccumulators
  import opened Healths
  import opened TargetStatistics

  /** What can happen to a target: a probe begins, the statistics are reset, or a
      callback arrives from the probe that began at position `probe`. */
  datatype Event = Begin | Reset | Call(probe: nat, c: Callback)

  predicate NoReset(trace: seq<Event>, from: nat, to: nat)
    requires from <= to <= |trace|
  {
    forall j :: from <= j < to ==> !trace[j].Reset?
  }

  /** Event i is a callback of a probe begun after the last reset of the trace. */
  predicate Current(trace: seq<Event>, i: nat)
    requires i < |trace|
  {
    && trace[i].Call?
    && trace[i].probe < i && trace[trace[i].probe].Begin?
    && NoReset(trace, trace[i].probe, |trace|)
  }

  /** Those callbacks, among the first n events, in order.  Nothing here knows of
      epochs. */
  function Visible(trace: seq<Event>, n: nat): seq<Callback>
    requires n <= |trace|
  {
    if n == 0 then []
    else if Current(trace, n - 1) then Visible(trace, n - 1) + [trace[n-1].c]
    else Visible(trace, n - 1)
  }

  lemma {:induction false} VisibleExtends(trace: seq<Event>, e: Event, n: nat)
    requires n <= |trace|
    ensures Visible(trace + [e], n) == if e.Reset? then [] else Visible(trace, n)
  {
    if n > 0 {
      VisibleExtends(trace, e, n - 1);
      CurrentExtends(trace, e, n - 1);
    }
  }

  lemma CurrentExtends(trace: seq<Event>, e: Event, i: nat)
    requires i < |trace|
    ensures Current(trace + [e], i) <==> Current(trace, i) && !e.Reset?
  {
    var t := trace + [e];
    assert t[|trace|] == e;
    assert forall j :: 0 <= j < |trace| ==> t[j] == trace[j];
    if trace[i].Call? && trace[i].probe < i {
      if NoReset(t, trace[i].probe, |t|) {
        forall j | trace[i].probe <= j < |trace| ensures !trace[j].Reset? {
          assert !t[j].Reset?;
        }
      }
    }
  }

  /** The source's bookkeeping of a probe agrees with the trace: its epoch is the
      target's exactly when no reset came between. */
  ghost predicate ProbeAgrees(t: TargetStats, trace: seq<Event>, at: nat, p: Probe)
    reads t
  {
    && at < |trace| && trace[at].Begin?
    && p.Probe? && p.target == t && p.epoch <= t.epoch
    && (p.epoch == t.epoch <==> NoReset(trace, at, |trace|))
  }

  ghost predicate ProbesAgree(t: TargetStats, trace: seq<Event>, probes: map<nat, Probe>)
    reads t
  {
    && (forall at :: at in probes ==> ProbeAgrees(t, trace, at, probes[at]))
    && (forall at: nat :: at < |trace| && trace[at].Begin? ==> at in probes)
  }

  lemma CallCurrent(trace: seq<Event>, e: Event)
    requires e.Call?
    ensures Current(trace + [e], |trace|)
            <==> e.probe < |trace| && trace[e.probe].Begin? && NoReset(trace, e.probe, |trace|)
  {
    if e.probe < |trace| {
      NoResetExtends(trace, e, e.probe);
    }
  }

  lemma AgreementExtends(t: TargetStats, trace: seq<Event>, probes: map<nat, Probe>, e: Event,
                         probes': map<nat, Probe>, epoch: nat)
    requires forall at :: at in probes ==> AgreedAt(epoch, trace, at, probes[at], t)
    requires forall at: nat :: at < |trace| && trace[at].Begin? ==> at in probes
    requires t.epoch == if e.Reset? then epoch + 1 else epoch
    requires probes' == if e.Begin? then probes[|trace| := Probe(t, t.epoch)] else probes
    ensures ProbesAgree(t, trace + [e], probes')
  {
    forall at | at in probes' ensures ProbeAgrees(t, trace + [e], at, probes'[at]) {
      if at in probes && !(e.Begin? && at == |trace|) {
        assert AgreedAt(epoch, trace, at, probes[at], t);
        NoResetExtends(trace, e, at);
      }
    }
  }

  ghost predicate AgreedAt(epoch: nat, trace: seq<Event>, at: nat, p: Probe, t: TargetStats)
  {
    && at < |trace| && trace[at].Begin?
    && p.Probe? && p.target == t && p.epoch <= epoch
    && (p.epoch == epoch <==> NoReset(trace, at, |trace|))
  }

  lemma NoResetExtends(trace: seq<Event>, e: Event, from: nat)
    requires from <= |trace|
    ensures NoReset(trace + [e], from, |trace| + 1) <==> NoReset(trace, from, |trace|) && !e.Reset?
  {
    var t := trace + [e];
    assert t[|trace|] == e;
    assert forall j :: 0 <= j < |trace| ==> t[j] == trace[j];
    if NoReset(t, from, |t|) {
      forall j | from <= j < |trace| ensures !trace[j].Reset? {
        assert !t[j].Reset?;
      }
    }
  }

  // ----- The health rules -----

  /** The health settings of a target configured once, before its first outcome. */
  function Rules(rules: Option<Policy>): (Policy, bool, nat, bool)
  {
    match rules
    case None => (Policy(0, 0, 0), false, 0, true)
    case Some(p) => (if ValidPolicy(p) then p else DEFAULT_POLICY, true, 0, true)
  }

  /** The last judgment was made at the last outcome. */
  ghost predicate JudgedLast(log: seq<Outcome>, at: int)
  {
    log != [] ==> at == log[|log|-1].at
  }

  lemma JudgedNext(log: seq<Callback>, c: Callback, at: int)
    requires JudgedLast(Outcomes(log), at)
    ensures JudgedLast(Outcomes(log + [c]), if c.Success? || c.Failure? then c.at else at)
  {
    OutcomesSnoc(log, c);
    hide Outcomes;
  }

  /** The rules are still those given at the start, and no judgment was made since
      the last outcome. */
  ghost predicate Ruled(t: TargetStats, rules: Option<Policy>)
    reads t`log, t.health
  {
    t.health.Settings() == Rules(rules) && JudgedLast(Outcomes(t.log), t.health.evaluatedAt)
  }

  /** NewTargetStats, then ConfigureHealth where rules are given. */
  method NewTarget(rules: Option<Policy>, now: nat) returns (t: TargetStats)
    ensures t.Valid() && fresh(t.Repr()) && t.log == [] && t.epoch == 0 && Ruled(t, rules)
  {
    hide Health.Valid, TargetStats.CountersAre, TargetStats.HistoryIs, ValidPolicy, Outcomes, Health.Effective;
    EmptyReadings();
    t := new TargetStats();
    if rules.Some? {
      t.health.Configure(rules.value, now);
    }
  }

  // ----- One event, and whole traces -----

  /** The target, and the probes begun on it, are in step with the trace. */
  ghost predicate InStep(t: TargetStats, trace: seq<Event>, probes: map<nat, Probe>, rules: Option<Policy>)
    reads t, t.rtt, t.health, t.Repr()
  {
    t.Valid() && t.log == Visible(trace, |trace|) && ProbesAgree(t, trace, probes) && Ruled(t, rules)
  }

  /** One event. */
  method Step(t: TargetStats, probes: map<nat, Probe>, ghost trace: seq<Event>, e: Event, i: nat,
              ghost rules: Option<Policy>)
    returns (probes': map<nat, Probe>)
    requires i == |trace| && InStep(t, trace, probes, rules)
    modifies t.Repr()
    ensures InStep(t, trace + [e], probes', rules) && fresh(t.Repr() - old(t.Repr()))
  {
    hide TargetStats.Valid, TargetStats.CountersAre, TargetStats.HistoryIs;
    ghost var epoch := t.epoch;
    VisibleExtends(trace, e, |trace|);
    probes' := probes;
    assert t in t.Repr();
    match e {
      case Begin =>
        probes' := probes[i := Probe(t, t.epoch)];
      case Reset =>
        t.Reset();
      case Call(at, c) =>
        if at in probes {
          JudgedNext(t.log, c, t.health.evaluatedAt);
          var accepted := probes[at].Update(c);
        }
        CallCurrent(trace, e);
    }
    AgreementExtends(t, trace, probes, e, probes', epoch);
  }

  /** Run a whole trace through Probe and Reset. */
  method Run(rules: Option<Policy>, now: nat, trace: seq<Event>) returns (t: TargetStats)
    ensures t.Valid() && t.log == Visible(trace, |trace|) && Ruled(t, rules)
    ensures fresh(t.Repr())
  {
    hide TargetStats.Valid, Ruled, Visible, ProbesAgree, InStep;
    t := NewTarget(rules, now);
    var probes: map<nat, Probe> := map[];
    NothingYet(t, rules);
    assert trace[..0] == [];
    for i := 0 to |trace|
      invariant InStep(t, trace[..i], probes, rules) && fresh(t.Repr())
    {
      assert trace[..i+1] == trace[..i] + [trace[i]];
      probes := Step(t, probes, trace[..i], trace[i], i, rules);
    }
    assert trace[..|trace|] == trace;
    InStepMeans(t, trace, probes, rules);
  }

  lemma NothingYet(t: TargetStats, rules: Option<Policy>)
    requires t.Valid() && t.log == [] && Ruled(t, rules)
    ensures InStep(t, [], map[], rules)
  {
    hide TargetStats.Valid, Ruled;
  }

  lemma InStepMeans(t: TargetStats, trace: seq<Event>, probes: map<nat, Probe>, rules: Option<Policy>)
    requires InStep(t, trace, probes, rules)
    ensures t.Valid() && t.log == Visible(trace, |trace|) && Ruled(t, rules)
  {
    hide TargetStats.Valid, Ruled, Visible, ProbesAgree;
  }

  /** Give a new target these callbacks and nothing else. */
  method Replay(rules: Option<Policy>, now: nat, calls: seq<Callback>) returns (t: TargetStats)
    ensures t.Valid() && t.log == calls && t.epoch == 0 && Ruled(t, rules)
    ensures fresh(t.Repr())
  {
    hide TargetStats.Valid, Health.Settings, JudgedLast, Outcomes, Rules;
    t := NewTarget(rules, now);
    for i := 0 to |calls|
      invariant t.Valid() && fresh(t.Repr()) && t.epoch == 0
      invariant t.log == calls[..i] && Ruled(t, rules)
    {
      JudgedNext(t.log, calls[i], t.health.evaluatedAt);
      assert calls[..i+1] == calls[..i] + [calls[i]];
      var accepted := Probe(t, t.epoch).Update(calls[i]);
    }
    assert calls[..|calls|] == calls;
  }

  // ----- What a target shows -----

  datatype Display = Display(counters: Counters, lastRtt: int, lastTtl: int, lastError: Option<Cause>, lastLoss: int,
                             jitter: int, rtt: RttDisplay, times: Option<seq<int>>, health: HealthDisplay)

  datatype RttDisplay = RttDisplay(min: int, max: int, sum: int, samples: nat, mean: real, m2: real,
                                   history: Option<seq<int>>, idx: nat, len: nat)

  datatype HealthDisplay = HealthDisplay(policy: Policy, configured: bool, down: bool, failures: nat, successes: nat,
                                         lastProbe: int, lastReply: int, evaluatedAt: Option<int>,
                                         buckets: Option<seq<Bucket>>, received: nat, lost: nat)

  function Elements<T>(a: array?<T>): Option<seq<T>>
    reads a
  {
    if a == null then None else Some(a[..])
  }

  function ShownRtt(r: RttAccumulator): RttDisplay
    reads r, r.history
  {
    RttDisplay(r.min, r.max, r.sum, r.samples, r.mean, r.m2, Elements(r.history), r.historyIdx, r.historyLen)
  }

  /** Before the first outcome the time of the judgment is left out: a reset
      clears it and a configuration sets it. */
  function ShownHealth(h: Health): HealthDisplay
    reads h, h.buckets
  {
    HealthDisplay(h.policy, h.configured, h.down, h.failures, h.successes, h.lastProbe, h.lastReply,
                  if h.probed then Some(h.evaluatedAt) else None,
                  Elements(h.buckets), h.recentReceived, h.recentLost)
  }

  /** Everything a target keeps but its epoch. */
  function Shown(t: TargetStats): Display
    reads t, t.rtt, t.rtt.history, t.health, t.health.buckets, t.historyTimes
  {
    Display(Counters(t.sent, t.recv, t.loss, t.duplicates, t.lateReplies, t.cancelled),
            t.lastRTT, t.lastTTL, t.lastError, t.lastLossTime, t.jitter,
            ShownRtt(t.rtt), Elements(t.historyTimes), ShownHealth(t.health))
  }

  /** Sums determine means. */
  lemma MeanUnique(n: nat, x: real, y: real)
    requires n > 0 && n as real * x == n as real * y
    ensures x == y
  {
    assert n as real * (x - y) == 0.0;
  }

  lemma MomentUnique(s: seq<int>, mean: real, m2: real, m2': real)
    requires MomentsExact(s, mean, m2) && MomentsExact(s, mean, m2')
    ensures m2 == m2'
  {
    assert Deviation(s, mean) == m2 + |s| as real * (mean - mean) * (mean - mean);
    assert Deviation(s, mean) == m2' + |s| as real * (mean - mean) * (mean - mean);
  }

  lemma SameRtt(a: RttAccumulator, b: RttAccumulator)
    requires a.Valid() && b.Valid() && a.recorded == b.recorded && a.pushed == b.pushed
    requires (a.history == null <==> a.pushed == []) && (b.history == null <==> b.pushed == [])
    requires a.history != null && b.history != null ==> a.history.Length == b.history.Length
    ensures ShownRtt(a) == ShownRtt(b)
  {
    hide MomentsExact, RingOf, Least, Greatest, Deviation;
    MomentsMeaning(a.recorded, a.mean, a.m2);
    MomentsMeaning(b.recorded, b.mean, b.m2);
    if a.recorded != [] {
      MeanUnique(|a.recorded|, a.mean, b.mean);
    }
    MomentUnique(a.recorded, a.mean, a.m2, b.m2);
  }

  lemma SameHealth(a: Health, b: Health)
    requires a.Valid() && b.Valid() && a.log == b.log
    requires a.Settings() == b.Settings() && a.steady
    requires JudgedLast(a.log, a.evaluatedAt) && JudgedLast(b.log, b.evaluatedAt)
    ensures ShownHealth(a) == ShownHealth(b)
  {
    hide BucketsOf, Latched, Trailing, LastSuccess, RecentKept;
    if a.log == [] {
      var w := a.Effective().window;
      RecentBelowEnds([], BucketCount(w), a.evaluatedAt, w, true);
      RecentBelowEnds([], BucketCount(w), b.evaluatedAt, w, true);
      RecentBelowEnds([], BucketCount(w), a.evaluatedAt, w, false);
      RecentBelowEnds([], BucketCount(w), b.evaluatedAt, w, false);
    }
  }

  /** Targets with the same accepted callbacks under the same rules show the same:
      every counter and last reading, jitter, the RTT statistics with their Welford
      state, both history rings slot by slot, and the whole health judgment with
      its buckets and recent counts. */
  lemma SameLogSameStatistics(a: TargetStats, b: TargetStats, rules: Option<Policy>)
    requires a.Valid() && b.Valid() && a.log == b.log
    requires Ruled(a, rules) && Ruled(b, rules)
    ensures Shown(a) == Shown(b)
  {
    hide RttAccumulator.Valid, Health.Valid, ShownRtt, ShownHealth, RingOf, JudgedLast;
    hide Tally, Replies, Positive, Values, Times, Outcomes, LastRtt, LastTtl, LastCause, LastLoss, JitterOf;
    SameRtt(a.rtt, b.rtt);
    SameHealth(a.health, b.health);
  }

  /** A target that went through any trace of probes, callbacks and resets shows
      what a new target shows after only the visible callbacks. */
  method RunAndReplay(rules: Option<Policy>, started: nat, trace: seq<Event>, restarted: nat)
    returns (t: TargetStats, cleared: TargetStats)
    ensures t.Valid() && cleared.Valid()
    ensures t.log == cleared.log == Visible(trace, |trace|) && cleared.epoch == 0
    ensures Shown(t) == Shown(cleared)
  {
    hide TargetStats.Valid, Ruled, Shown, Visible;
    t := Run(rules, started, trace);
    var calls := Visible(trace, |trace|);
    cleared := Replay(rules, restarted, calls);
    SameLogSameStatistics(t, cleared, rules);
  }
}
