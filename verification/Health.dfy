/** Recent loss and the down/up judgment of a target (internal/stats/health.go).

    Times are nanoseconds since 1970 and the clock is not before 1970.  A target
    records outcomes in a ring of one-second buckets; the specification keeps the
    whole log of outcomes instead. */
module Healths {
  import opened Arith
  import opened Options

  const SECOND := 1_000_000_000
  const MINUTE := 60 * SECOND
  const HOUR := 3600 * SECOND

  datatype Outcome = Outcome(at: nat, success: bool)

  /** The health rules; the metric thresholds are not part of this model. */
  datatype Policy = Policy(failures: int, recoveries: int, window: int)

  const DEFAULT_POLICY := Policy(3, 2, MINUTE)

  predicate ValidPolicy(p: Policy)
  {
    && 1 <= p.failures <= 10000 && 1 <= p.recoveries <= 10000
    && SECOND <= p.window <= HOUR
  }

  /** time.Time.Unix: seconds, rounded down. */
  function Unix(t: int): int { t / SECOND }

  // ----- What the ring holds -----

  /** Number of buckets for a window. */
  function BucketCount(window: int): int { GoSeconds(window) + 2 }

  function GoSeconds(window: int): int { window / SECOND }

  function Slot(o: Outcome, n: nat): nat
    requires n > 0
  {
    Unix(o.at) % n
  }

  /** Outcome i is still in the ring: no later outcome of another second used
      its bucket. */
  ghost predicate Kept(log: seq<Outcome>, n: nat, i: nat)
    requires n > 0 && i < |log|
  {
    forall j :: i < j < |log| && Slot(log[j], n) == Slot(log[i], n) ==> Unix(log[j].at) == Unix(log[i].at)
  }

  /** Outcomes of one kind that bucket k still counts. */
  ghost function KeptIn(log: seq<Outcome>, n: nat, k: nat, success: bool): set<nat>
    requires n > 0
  {
    set i: nat | i < |log| && Slot(log[i], n) == k && log[i].success == success && Kept(log, n, i)
  }

  predicate Recent(o: Outcome, now: int, window: int)
  {
    Unix(now - window) < Unix(o.at) <= Unix(now)
  }

  /** The plain definition: outcomes of one kind in the recent window. */
  ghost function RecentOutcomes(log: seq<Outcome>, now: int, window: int, success: bool): set<nat>
  {
    set i: nat | i < |log| && log[i].success == success && Recent(log[i], now, window)
  }

  /** Those of them the ring still counts. */
  ghost function RecentKept(log: seq<Outcome>, n: nat, now: int, window: int, success: bool): set<nat>
    requires n > 0
  {
    set i: nat | i < |log| && log[i].success == success && Recent(log[i], now, window) && Kept(log, n, i)
  }

  /** The clock never went back, and `now` is not before the last outcome. */
  ghost predicate Monotone(log: seq<Outcome>, now: int)
  {
    && (forall i, j :: 0 <= i < j < |log| ==> log[i].at <= log[j].at)
    && (forall i :: 0 <= i < |log| ==> log[i].at <= now)
  }

  /** On such a clock the ring loses nothing that is still recent. */
  lemma MonotoneKeepsRecent(log: seq<Outcome>, now: int, window: int, i: nat)
    requires window >= SECOND && Monotone(log, now)
    requires i < |log| && Recent(log[i], now, window)
    ensures Kept(log, BucketCount(window), i)
  {
    var n := BucketCount(window);
    forall j | i < j < |log| && Slot(log[j], n) == Slot(log[i], n)
      ensures Unix(log[j].at) == Unix(log[i].at)
    {
      var a, b := Unix(log[i].at), Unix(log[j].at);
      WindowSpan(now, window);
      assert a <= b <= Unix(now) && b < a + n;
      if a < b {
        RemaindersDiffer(a, b, n);
      }
    }
  }

  /** A window covers fewer seconds than there are buckets. */
  lemma WindowSpan(now: int, window: int)
    requires window >= SECOND
    ensures Unix(now) - Unix(now - window) <= GoSeconds(window) + 1
  {
  }

  /** The ring reads off exactly the recent outcomes of the log, for every window
      of a second or more, when the clock does not go back. */
  lemma RingRefinesLog(log: seq<Outcome>, now: int, window: int, success: bool)
    requires window >= SECOND && Monotone(log, now)
    ensures RecentKept(log, BucketCount(window), now, window, success) == RecentOutcomes(log, now, window, success)
  {
    forall i: nat | i < |log| && Recent(log[i], now, window) ensures Kept(log, BucketCount(window), i) {
      MonotoneKeepsRecent(log, now, window, i);
    }
  }

  /** With any clock, the counts agree exactly when no recent outcome's bucket has
      been taken over by another second. */
  lemma RingExactWhenKept(log: seq<Outcome>, now: int, window: int, success: bool)
    requires window >= SECOND
    ensures var n := BucketCount(window);
            |RecentKept(log, n, now, window, success)| == |RecentOutcomes(log, now, window, success)|
            <==> forall i :: 0 <= i < |log| && log[i].success == success && Recent(log[i], now, window) ==>
                               Kept(log, n, i)
  {
    var n := BucketCount(window);
    var kept, all := RecentKept(log, n, now, window, success), RecentOutcomes(log, now, window, success);
    assert kept <= all;
    if kept < all {
      assert all == kept + (all - kept) && |all - kept| > 0;
    } else {
      forall i | 0 <= i < |log| && log[i].success == success && Recent(log[i], now, window) ensures Kept(log, n, i) {
        assert i in all;
      }
    }
    if forall i :: 0 <= i < |log| && log[i].success == success && Recent(log[i], now, window) ==> Kept(log, n, i) {
      assert kept == all;
    }
  }

  /** A clock that steps back can lose a recent outcome: with the smallest window
      (3 buckets), losses at 3s, then 0s, then 3s again. */
  lemma BackwardClockLoses()
    ensures var log := [Outcome(3 * SECOND, false), Outcome(0, false), Outcome(3 * SECOND, false)];
            RecentKept(log, BucketCount(SECOND), 3 * SECOND, SECOND, false)
            != RecentOutcomes(log, 3 * SECOND, SECOND, false)
  {
    var log := [Outcome(3 * SECOND, false), Outcome(0, false), Outcome(3 * SECOND, false)];
    assert Recent(log[0], 3 * SECOND, SECOND);
    assert Slot(log[1], 3) == Slot(log[0], 3);
    assert !Kept(log, 3, 0);
    assert 0 in RecentOutcomes(log, 3 * SECOND, SECOND, false);
  }

  // ----- Down and up -----

  /** Length of the run of outcomes of one kind that ends the log. */
  function Trailing(log: seq<Outcome>, success: bool): (n: nat)
    ensures n <= |log|
  {
    if log == [] || log[|log|-1].success != success then 0
    else Trailing(log[..|log|-1], success) + 1
  }

  /** n consecutive outcomes of one kind begin at s. */
  predicate RunAt(log: seq<Outcome>, s: nat, n: nat, success: bool)
  {
    s + n <= |log| && forall i :: s <= i < s + n ==> log[i].success == success
  }

  /** f consecutive failures begin at s, and no r consecutive successes come
      wholly after them. */
  ghost predicate DownSince(log: seq<Outcome>, f: nat, r: nat, s: nat)
  {
    && RunAt(log, s, f, false)
    && forall u: nat :: s + f <= u ==> !RunAt(log, u, r, true)
  }

  ghost predicate Down(log: seq<Outcome>, f: nat, r: nat)
  {
    exists s: nat :: DownSince(log, f, r, s)
  }

  /** The source's latch, evaluated after each outcome. */
  function Latch(down: bool, failures: nat, successes: nat, f: int, r: int): bool
  {
    var d := down || failures >= f;
    d && !(successes >= r)
  }

  function Latched(log: seq<Outcome>, f: int, r: int): bool
  {
    if log == [] then false
    else Latch(Latched(log[..|log|-1], f, r), Trailing(log, false), Trailing(log, true), f, r)
  }

  lemma LatchedStep(log: seq<Outcome>, o: Outcome, f: int, r: int)
    ensures Latched(log + [o], f, r)
         == Latch(Latched(log, f, r), Trailing(log + [o], false), Trailing(log + [o], true), f, r)
  {
    assert (log + [o])[..|log|] == log;
  }

  /** The latch, evaluated twice after one outcome, is as after one evaluation. */
  lemma JudgedAgain(log: seq<Outcome>, f: int, r: int)
    ensures log == [] ==> !Latched(log, f, r)
    ensures log != [] ==>
              Latch(Latched(log, f, r), Trailing(log, false), Trailing(log, true), f, r) == Latched(log, f, r)
  {
  }

  lemma {:induction false} TrailingIs(log: seq<Outcome>, success: bool)
    ensures var n := Trailing(log, success);
            && RunAt(log, |log| - n, n, success)
            && (n < |log| ==> log[|log|-n-1].success != success)
  {
    if log != [] && log[|log|-1].success == success {
      var p := log[..|log|-1];
      TrailingIs(p, success);
      assert forall i :: 0 <= i < |p| ==> p[i] == log[i];
    }
  }

  /** When the last success was. */
  function LastSuccess(log: seq<Outcome>): Option<nat>
  {
    if log == [] then None
    else if log[|log|-1].success then Some(log[|log|-1].at)
    else LastSuccess(log[..|log|-1])
  }

  lemma LastSuccessSnoc(log: seq<Outcome>, o: Outcome)
    ensures LastSuccess(log + [o]) == if o.success then Some(o.at) else LastSuccess(log)
  {
    assert (log + [o])[..|log|] == log;
  }

  lemma TrailingSnoc(log: seq<Outcome>, o: Outcome, success: bool)
    ensures Trailing(log + [o], success) == if o.success == success then Trailing(log, success) + 1 else 0
  {
    assert (log + [o])[..|log|] == log;
  }

  /** The two run lengths are never both positive. */
  lemma RunsExclusive(log: seq<Outcome>)
    ensures Trailing(log, true) == 0 || Trailing(log, false) == 0
    ensures log != [] ==> Trailing(log, true) > 0 || Trailing(log, false) > 0
  {
  }

  lemma TrailingCovers(log: seq<Outcome>, success: bool, n: nat)
    requires n <= |log|
    ensures Trailing(log, success) >= n <==> RunAt(log, |log| - n, n, success)
  {
    TrailingIs(log, success);
  }

  /** The latch means what it should: the target is down exactly when some f
      consecutive failures have not been followed by r consecutive successes. */
  lemma {:induction false} LatchMeansDown(log: seq<Outcome>, f: nat, r: nat)
    requires f >= 1 && r >= 1
    ensures Latched(log, f, r) <==> Down(log, f, r)
  {
    if log == [] {
      assert forall s: nat :: !RunAt(log, s, f, false);
    } else {
      var p := log[..|log|-1];
      LatchMeansDown(p, f, r);
      RunsExclusive(log);
      if Down(log, f, r) {
        var s: nat :| DownSince(log, f, r, s);
        DownBefore(log, f, r, s);
      }
      if Latched(log, f, r) {
        if Trailing(log, false) >= f {
          TrailingCovers(log, false, f);
          assert DownSince(log, f, r, |log| - f);
        } else {
          var s: nat :| DownSince(p, f, r, s);
          DownAfter(log, f, r, s);
        }
      }
    }
  }

  /** A run in the log without its last outcome is a run in the log, and back. */
  lemma RunInPrefix(log: seq<Outcome>, s: nat, n: nat, success: bool)
    requires log != []
    ensures s + n < |log| ==> RunAt(log, s, n, success) == RunAt(log[..|log|-1], s, n, success)
  {
    var p := log[..|log|-1];
    assert forall i :: 0 <= i < |p| ==> p[i] == log[i];
    if RunAt(p, s, n, success) {
      forall i | s <= i < s + n ensures log[i].success == success {
        assert p[i] == log[i];
      }
    }
  }

  lemma DownBefore(log: seq<Outcome>, f: nat, r: nat, s: nat)
    requires log != [] && f >= 1 && r >= 1 && DownSince(log, f, r, s)
    ensures Trailing(log, true) < r
    ensures Trailing(log, false) >= f || DownSince(log[..|log|-1], f, r, s)
  {
    var p := log[..|log|-1];
    assert !log[s+f-1].success;
    if Trailing(log, true) >= r {
      TrailingCovers(log, true, r);
    }
    RunInPrefix(log, s, f, false);
    if s + f == |log| {
      TrailingCovers(log, false, f);
    } else {
      forall u: nat | s + f <= u ensures !RunAt(p, u, r, true) {
        RunInPrefix(log, u, r, true);
      }
    }
  }

  lemma DownAfter(log: seq<Outcome>, f: nat, r: nat, s: nat)
    requires log != [] && f >= 1 && r >= 1 && DownSince(log[..|log|-1], f, r, s)
    requires Trailing(log, true) < r
    ensures DownSince(log, f, r, s)
  {
    RunInPrefix(log, s, f, false);
    forall u: nat | s + f <= u ensures !RunAt(log, u, r, true) {
      RunInPrefix(log, u, r, true);
      if u + r == |log| && RunAt(log, u, r, true) {
        TrailingCovers(log, true, r);
      }
    }
  }

  // ----- The ring of buckets -----

  datatype Bucket = Bucket(second: int, replies: nat, losses: nat)

  /** recordOutcomeLocked on the bucket of o: start it anew for a new second. */
  function Bump(b: Bucket, o: Outcome): Bucket
  {
    var c := if b.second != Unix(o.at) then Bucket(Unix(o.at), 0, 0) else b;
    if o.success then c.(replies := c.replies + 1) else c.(losses := c.losses + 1)
  }

  /** The buckets after a whole log of outcomes. */
  function BucketsOf(log: seq<Outcome>, n: nat): (b: seq<Bucket>)
    requires n > 0
    ensures |b| == n
  {
    if log == [] then seq(n, _ => Bucket(0, 0, 0))
    else
      var o := log[|log|-1];
      var b := BucketsOf(log[..|log|-1], n);
      b[Slot(o, n) := Bump(b[Slot(o, n)], o)]
  }

  /** Each bucket counts exactly the outcomes it still keeps, all of one second. */
  ghost predicate RingHolds(b: seq<Bucket>, log: seq<Outcome>)
  {
    && |b| > 0
    && (forall k :: 0 <= k < |b| ==> b[k].replies == |KeptIn(log, |b|, k, true)|)
    && (forall k :: 0 <= k < |b| ==> b[k].losses == |KeptIn(log, |b|, k, false)|)
    && (forall i :: 0 <= i < |log| && Kept(log, |b|, i) ==> b[Slot(log[i], |b|)].second == Unix(log[i].at))
  }

  lemma {:induction false} BucketsHold(log: seq<Outcome>, n: nat)
    requires n > 0
    ensures RingHolds(BucketsOf(log, n), log)
  {
    if log == [] {
      forall k, success ensures KeptIn([], n, k, success) == {} {
      }
    } else {
      BucketsHold(log[..|log|-1], n);
      RingStep(BucketsOf(log[..|log|-1], n), log[..|log|-1], log[|log|-1]);
      assert log == log[..|log|-1] + [log[|log|-1]];
    }
  }

  lemma RingStep(b: seq<Bucket>, log: seq<Outcome>, o: Outcome)
    requires RingHolds(b, log)
    ensures var k := Slot(o, |b|); RingHolds(b[k := Bump(b[k], o)], log + [o])
  {
    var n := |b|;
    var slot := Slot(o, n);
    var log' := log + [o];
    var b' := b[slot := Bump(b[slot], o)];
    forall i: nat | i < |log|
      ensures Kept(log', n, i) == (Kept(log, n, i) && (Slot(log[i], n) == slot ==> Unix(log[i].at) == Unix(o.at)))
    {
      KeptStep(log, o, n, i);
    }
    assert Kept(log', n, |log|);
    forall k: nat, success: bool | k < n
      ensures |KeptIn(log', n, k, success)| == if success then b'[k].replies else b'[k].losses
    {
      KeptInStep(b, log, o, k, success);
    }
  }

  lemma KeptStep(log: seq<Outcome>, o: Outcome, n: nat, i: nat)
    requires n > 0 && i < |log|
    ensures Kept(log + [o], n, i)
        <==> Kept(log, n, i) && (Slot(log[i], n) == Slot(o, n) ==> Unix(log[i].at) == Unix(o.at))
  {
    var log' := log + [o];
    assert log'[|log|] == o && log'[i] == log[i];
    assert forall j :: 0 <= j < |log| ==> log'[j] == log[j];
    if Kept(log', n, i) {
      forall j | i < j < |log| && Slot(log[j], n) == Slot(log[i], n) ensures Unix(log[j].at) == Unix(log[i].at) {
        assert Slot(log'[j], n) == Slot(log'[i], n);
      }
    }
  }

  lemma KeptInStep(b: seq<Bucket>, log: seq<Outcome>, o: Outcome, k: nat, success: bool)
    requires RingHolds(b, log) && k < |b|
    ensures var b' := if k == Slot(o, |b|) then Bump(b[k], o) else b[k];
            |KeptIn(log + [o], |b|, k, success)| == if success then b'.replies else b'.losses
  {
    var before := KeptIn(log, |b|, k, success);
    if k != Slot(o, |b|) {
      KeptInOther(log, o, |b|, k, success);
    } else {
      forall i | i in before ensures Unix(log[i].at) == b[k].second {
        assert Kept(log, |b|, i);
      }
      KeptInSame(log, o, |b|, k, success, b[k].second);
    }
  }

  lemma KeptInOther(log: seq<Outcome>, o: Outcome, n: nat, k: nat, success: bool)
    requires n > 0 && k != Slot(o, n)
    ensures KeptIn(log + [o], n, k, success) == KeptIn(log, n, k, success)
  {
    forall i: nat | i < |log| ensures i in KeptIn(log + [o], n, k, success) <==> i in KeptIn(log, n, k, success) {
      KeptStep(log, o, n, i);
    }
  }

  lemma KeptInSame(log: seq<Outcome>, o: Outcome, n: nat, k: nat, success: bool, second: int)
    requires n > 0 && k == Slot(o, n)
    requires forall i :: i in KeptIn(log, n, k, success) ==> Unix(log[i].at) == second
    ensures var carried := if second == Unix(o.at) then KeptIn(log, n, k, success) else {};
            && KeptIn(log + [o], n, k, success) == carried + (if o.success == success then {|log|} else {})
            && |log| !in carried
  {
    var after := KeptIn(log + [o], n, k, success);
    forall i: nat | i < |log|
      ensures i in after <==> i in KeptIn(log, n, k, success) && Unix(log[i].at) == Unix(o.at)
    {
      KeptStep(log, o, n, i);
    }
    assert Kept(log + [o], n, |log|);
  }

  /** Recent kept outcomes in the first m buckets. */
  ghost function RecentBelow(log: seq<Outcome>, n: nat, now: int, window: int, success: bool, m: nat): set<nat>
    requires n > 0
  {
    set i: nat | i < |log| && log[i].success == success && Recent(log[i], now, window) && Kept(log, n, i)
                 && Slot(log[i], n) < m
  }

  /** Adding bucket m when, and only when, its second is recent. */
  lemma RecentBelowStep(b: seq<Bucket>, log: seq<Outcome>, now: int, window: int, success: bool, m: nat)
    requires RingHolds(b, log) && m < |b|
    ensures |RecentBelow(log, |b|, now, window, success, m + 1)|
         == |RecentBelow(log, |b|, now, window, success, m)|
            + if Unix(now - window) < b[m].second <= Unix(now)
              then (if success then b[m].replies else b[m].losses) else 0
  {
    assert (if success then b[m].replies else b[m].losses) == |KeptIn(log, |b|, m, success)|;
    assert forall i :: i in KeptIn(log, |b|, m, success) ==> Unix(log[i].at) == b[m].second;
    hide RingHolds;
    RecentBelowNext(log, |b|, now, window, success, m, b[m].second);
  }

  lemma RecentBelowNext(log: seq<Outcome>, n: nat, now: int, window: int, success: bool, m: nat, second: int)
    requires m < n && forall i :: i in KeptIn(log, n, m, success) ==> Unix(log[i].at) == second
    ensures |RecentBelow(log, n, now, window, success, m + 1)|
         == |RecentBelow(log, n, now, window, success, m)|
            + if Unix(now - window) < second <= Unix(now) then |KeptIn(log, n, m, success)| else 0
  {
    RecentBelowSplit(log, n, now, window, success, m);
    RecentInWhole(log, n, now, window, success, m, second);
  }

  /** The recent outcomes kept in one bucket. */
  ghost function RecentIn(log: seq<Outcome>, n: nat, now: int, window: int, success: bool, k: nat): set<nat>
    requires n > 0
  {
    set i | i in KeptIn(log, n, k, success) && Recent(log[i], now, window)
  }

  lemma RecentBelowSplit(log: seq<Outcome>, n: nat, now: int, window: int, success: bool, m: nat)
    requires n > 0
    ensures RecentBelow(log, n, now, window, success, m) !! RecentIn(log, n, now, window, success, m)
    ensures RecentBelow(log, n, now, window, success, m + 1)
         == RecentBelow(log, n, now, window, success, m) + RecentIn(log, n, now, window, success, m)
  {
    hide Kept, Slot, Recent;
  }

  /** A bucket holds one second, so all of it is recent or none. */
  lemma RecentInWhole(log: seq<Outcome>, n: nat, now: int, window: int, success: bool, k: nat, second: int)
    requires n > 0 && forall i :: i in KeptIn(log, n, k, success) ==> Unix(log[i].at) == second
    ensures RecentIn(log, n, now, window, success, k)
         == if Unix(now - window) < second <= Unix(now) then KeptIn(log, n, k, success) else {}
  {
    hide Kept, Slot, Unix;
  }

  /** No bucket, and all of them. */
  lemma RecentBelowEnds(log: seq<Outcome>, n: nat, now: int, window: int, success: bool)
    requires n > 0
    ensures RecentBelow(log, n, now, window, success, 0) == {}
    ensures RecentBelow(log, n, now, window, success, n) == RecentKept(log, n, now, window, success)
    ensures RecentKept([], n, now, window, success) == {}
  {
    hide Kept;
  }

  class Health {
    var policy: Policy
    var configured: bool
    var failures: nat
    var successes: nat
    var down: bool
    var buckets: array?<Bucket>
    var recentReceived: nat
    var recentLost: nat
    var lastProbe: int
    var lastReply: int
    var probed: bool
    var replied: bool
    var evaluatedAt: int

    /** Every outcome since the last reset; those from ringStart on are in the
        ring; steady: failure and recovery counts have not changed since the
        first outcome. */
    ghost var log: seq<Outcome>
    ghost var ringStart: nat
    ghost var steady: bool

    function Effective(): Policy
      reads `policy
    {
      if policy.failures == 0 then DEFAULT_POLICY else policy
    }

    /** The rules are valid, or not configured yet. */
    ghost predicate RulesValid()
      reads `policy
    {
      if policy.failures == 0 then policy.window == 0 else ValidPolicy(policy)
    }

    /** Everything but the judgment is in step with the log. */
    ghost predicate Measured()
      reads `policy, `log, `ringStart, `buckets, buckets, `failures, `successes
      reads `probed, `lastProbe, `replied, `lastReply
    {
      && RulesValid()
      && ringStart <= |log|
      && (buckets == null <==> ringStart == |log|)
      && (buckets != null ==>
            && buckets.Length == BucketCount(Effective().window)
            && buckets[..] == BucketsOf(log[ringStart..], buckets.Length))
      && failures == Trailing(log, false) && successes == Trailing(log, true)
      && TimesNoted()
    }

    /** When the last probe and the last reply were; 0 for none. */
    ghost predicate TimesNoted()
      reads `log, `probed, `lastProbe, `replied, `lastReply
    {
      && (probed <==> log != []) && lastProbe == (if log == [] then 0 else log[|log|-1].at)
      && (replied <==> LastSuccess(log).Some?) && lastReply == if replied then LastSuccess(log).value else 0
    }

    ghost predicate Valid()
      reads this, buckets
    {
      && Measured()
      && (log == [] ==> !down)
      && (steady ==> down == Latched(log, Effective().failures, Effective().recoveries))
      && RecentRead(evaluatedAt)
    }

    /** What outcomes leave alone. */
    ghost function Settings(): (Policy, bool, nat, bool)
      reads `policy, `configured, `ringStart, `steady
    {
      (policy, configured, ringStart, steady)
    }

    /** The stored recent counts are those of the ring at time now. */
    ghost predicate RecentRead(now: int)
      requires ringStart <= |log| && RulesValid()
      reads `recentReceived, `recentLost, `log, `ringStart, `policy
    {
      var w := Effective().window;
      && recentReceived == |RecentKept(Ring(), BucketCount(w), now, w, true)|
      && recentLost == |RecentKept(Ring(), BucketCount(w), now, w, false)|
    }

    /** The outcomes the ring has seen. */
    ghost function Ring(): seq<Outcome>
      requires ringStart <= |log|
      reads `log, `ringStart
    {
      log[ringStart..]
    }

    constructor ()
      ensures Valid() && log == [] && buckets == null && Settings() == (Policy(0, 0, 0), false, 0, true)
    {
      policy, configured := Policy(0, 0, 0), false;
      failures, successes, down, buckets := 0, 0, false, null;
      recentReceived, recentLost := 0, 0;
      lastProbe, lastReply, probed, replied, evaluatedAt := 0, 0, false, false, 0;
      log, ringStart, steady := [], 0, true;
      new;
      NoOutcomesRead();
    }

    lemma NoOutcomesRead()
      requires log == [] && ringStart == 0 && RulesValid() && recentReceived == recentLost == 0
      ensures RecentRead(evaluatedAt)
    {
      var w := Effective().window;
      RecentBelowEnds([], BucketCount(w), evaluatedAt, w, true);
      RecentBelowEnds([], BucketCount(w), evaluatedAt, w, false);
      assert Ring() == [];
    }

    /** TargetStats.Reset keeps the policy and clears the rest. */
    method Clear()
      requires RulesValid()
      modifies this
      ensures Valid() && log == [] && ringStart == 0 && steady && buckets == null
      ensures policy == old(policy) && configured == old(configured)
      ensures !down && recentReceived == recentLost == 0
    {
      hide BucketsOf, ValidPolicy, BucketCount, RecentRead;
      ForgetRecent();
      failures, successes, down, buckets := 0, 0, false, null;
      log, ringStart, steady := [], 0, true;
      NoOutcomesRead();
    }

    method ForgetRecent()
      modifies `recentReceived, `recentLost, `lastProbe, `lastReply, `probed, `replied, `evaluatedAt
      ensures recentReceived == recentLost == 0 && !probed && !replied && lastProbe == lastReply == 0
    {
      recentReceived, recentLost := 0, 0;
      lastProbe, lastReply, probed, replied, evaluatedAt := 0, 0, false, false, 0;
    }

    /** recentHealthLocked, for any clock. */
    method RecentHealth(now: int) returns (received: nat, lost: nat)
      requires Measured()
      ensures var w := Effective().window;
              && received == |RecentKept(Ring(), BucketCount(w), now, w, true)|
              && lost == |RecentKept(Ring(), BucketCount(w), now, w, false)|
    {
      hide Trailing, BucketsOf, RingHolds, RecentBelow, RecentKept;
      received, lost := 0, 0;
      var w := Effective().window;
      ghost var ring, n := Ring(), BucketCount(w);
      RecentBelowEnds(ring, n, now, w, true);
      RecentBelowEnds(ring, n, now, w, false);
      if buckets == null {
        assert ring == [];
        return;
      }
      BucketsHold(ring, n);
      for k := 0 to buckets.Length
        invariant received == |RecentBelow(ring, n, now, w, true, k)|
        invariant lost == |RecentBelow(ring, n, now, w, false, k)|
      {
        var b := buckets[k];
        RecentBelowStep(buckets[..], ring, now, w, true, k);
        RecentBelowStep(buckets[..], ring, now, w, false, k);
        if b.second > Unix(now - w) && b.second <= Unix(now) {
          received := received + b.replies;
          lost := lost + b.losses;
        }
      }
    }

    /** evaluateHealthLocked: refresh the recent counts, then the latch. */
    method Evaluate(now: int)
      requires Measured()
      modifies `recentReceived, `recentLost, `down, `evaluatedAt
      ensures Measured() && RulesValid() && ringStart <= |log|
      ensures down == if !probed then old(down)
                      else Latch(old(down), failures, successes, Effective().failures, Effective().recoveries)
      ensures RecentRead(now) && evaluatedAt == now
    {
      hide Measured, RulesValid, RecentRead;
      MeasuredMeans();
      Refresh(now);
      var p := Effective();
      if probed {
        if failures >= p.failures {
          down := true;
        }
        if down && successes >= p.recoveries {
          down := false;
        }
      }
    }

    /** The recent counts, read off the ring. */
    method Refresh(now: int)
      requires Measured() && RulesValid() && ringStart <= |log|
      modifies `recentReceived, `recentLost, `evaluatedAt
      ensures RecentRead(now) && evaluatedAt == now
    {
      hide Measured, RulesValid, RecentKept;
      recentReceived, recentLost := RecentHealth(now);
      evaluatedAt := now;
    }

    lemma MeasuredMeans()
      requires Measured()
      ensures RulesValid() && ringStart <= |log|
    {
    }

    /** recordOutcomeLocked. */
    method RecordOutcome(now: nat, success: bool)
      requires Valid()
      modifies this, buckets
      ensures Valid() && log == old(log) + [Outcome(now, success)]
      ensures policy == old(policy) && configured == old(configured)
      ensures ringStart == old(ringStart) && steady == old(steady)
      ensures down == Latch(old(down), failures, successes, Effective().failures, Effective().recoveries)
      ensures lastReply == (if success then now else old(lastReply)) && (replied <==> success || old(replied))
      ensures evaluatedAt == now && Settings() == old(Settings())
      ensures buckets != null
      ensures if old(buckets) == null then fresh(buckets) else buckets == old(buckets)
    {
      hide Measured, BucketsOf, Trailing, Latched, Latch, RecentKept, RecentRead, Effective, RulesValid;
      Observe(now, success);
      Evaluate(now);
      LatchedStep(old(log), Outcome(now, success), Effective().failures, Effective().recoveries);
    }

    /** recordOutcomeLocked up to the judgment. */
    method Observe(now: nat, success: bool)
      requires Measured()
      modifies `buckets, buckets, `lastProbe, `probed, `lastReply, `replied, `failures, `successes, `log
      ensures Measured() && log == old(log) + [Outcome(now, success)] && probed && RulesValid() && ringStart <= |log|
      ensures failures == Trailing(log, false) && successes == Trailing(log, true)
      ensures lastReply == (if success then now else old(lastReply)) && (replied <==> success || old(replied))
      ensures buckets != null
      ensures if old(buckets) == null then fresh(buckets) else buckets == old(buckets)
    {
      hide BucketsOf, Trailing;
      CountInBucket(now, success);
      NoteOutcome(now, success);
    }

    /** The times and the run lengths. */
    method NoteOutcome(now: nat, success: bool)
      requires RulesValid()
      requires ringStart <= |log| && buckets != null && buckets.Length == BucketCount(Effective().window)
      requires buckets[..] == BucketsOf(Ring() + [Outcome(now, success)], buckets.Length)
      requires failures == Trailing(log, false) && successes == Trailing(log, true) && TimesNoted()
      modifies `lastProbe, `probed, `lastReply, `replied, `failures, `successes, `log
      ensures Measured() && log == old(log) + [Outcome(now, success)]
      ensures lastReply == (if success then now else old(lastReply)) && (replied <==> success || old(replied))
    {
      hide BucketsOf, Trailing, LastSuccess;
      ghost var ring := Ring();
      LastSuccessSnoc(log, Outcome(now, success));
      TrailingSnoc(log, Outcome(now, success), true);
      TrailingSnoc(log, Outcome(now, success), false);
      lastProbe, probed := now, true;
      if success {
        lastReply, replied := now, true;
        successes := successes + 1;
        failures := 0;
      } else {
        failures := failures + 1;
        successes := 0;
      }
      log := log + [Outcome(now, success)];
      assert Ring() == ring + [Outcome(now, success)];
    }

    /** Find or renew the bucket and count there. */
    method CountInBucket(now: nat, success: bool)
      requires Measured()
      modifies `buckets, buckets
      ensures buckets != null && buckets.Length == BucketCount(Effective().window)
      ensures buckets[..] == BucketsOf(Ring() + [Outcome(now, success)], buckets.Length)
      ensures if old(buckets) == null then fresh(buckets) else buckets == old(buckets)
    {
      var n := BucketCount(Effective().window);
      if buckets == null || buckets.Length != n {
        buckets := new Bucket[n](i => Bucket(0, 0, 0));
        assert Ring() == [] && buckets[..] == BucketsOf([], n);
      }
      ghost var o, before := Outcome(now, success), buckets[..];
      var slot := Unix(now) % n;
      if buckets[slot].second != Unix(now) {
        buckets[slot] := Bucket(Unix(now), 0, 0);
      }
      if success {
        buckets[slot] := buckets[slot].(replies := buckets[slot].replies + 1);
      } else {
        buckets[slot] := buckets[slot].(losses := buckets[slot].losses + 1);
      }
      assert buckets[..] == before[slot := Bump(before[slot], o)];
      assert (Ring() + [o])[..|Ring()|] == Ring();
    }

    /** ConfigureHealth: new rules, measurements kept; a new window length starts
        the ring afresh. */
    method Configure(rules: Policy, now: int)
      requires Valid()
      modifies `policy, `configured, `buckets, `ringStart, `steady, `recentReceived, `recentLost, `down, `evaluatedAt
      ensures Valid()
      ensures policy == (if ValidPolicy(rules) then rules else DEFAULT_POLICY) && configured
      ensures log == old(log) && failures == old(failures) && successes == old(successes)
      ensures if policy.window == old(policy.window) then ringStart == old(ringStart) && buckets == old(buckets)
              else ringStart == |log| && buckets == null
      ensures down == if log == [] then old(down)
                      else Latch(old(down), failures, successes, policy.failures, policy.recoveries)
      ensures steady <==> log == [] || (old(steady) && policy.failures == old(Effective().failures)
                                        && policy.recoveries == old(Effective().recoveries))
      ensures evaluatedAt == now
    {
      hide Measured, BucketsOf, Trailing, Latched, Latch, RecentKept, RecentRead, Effective, LastSuccess;
      AdoptRules(if ValidPolicy(rules) then rules else DEFAULT_POLICY);
      Evaluate(now);
      JudgedAgain(log, policy.failures, policy.recoveries);
    }

    /** Of ConfigureHealth: the rules, and the ring dropped for a new window. */
    method AdoptRules(p: Policy)
      requires Measured() && ValidPolicy(p)
      modifies `policy, `configured, `buckets, `ringStart, `steady
      ensures Measured() && policy == p && configured && Effective() == p
      ensures probed <==> log != []
      ensures failures == Trailing(log, false) && successes == Trailing(log, true)
      ensures if p.window == old(policy.window) then ringStart == old(ringStart) && buckets == old(buckets)
              else ringStart == |log| && buckets == null
      ensures steady <==> log == [] || (old(steady) && p.failures == old(Effective().failures)
                                        && p.recoveries == old(Effective().recoveries))
    {
      hide BucketsOf, Trailing, LastSuccess;
      ghost var f, r := Effective().failures, Effective().recoveries;
      if policy.window != p.window {
        buckets := null;
        ringStart := |log|;
      }
      policy := p;
      configured := true;
      steady := log == [] || (steady && p.failures == f && p.recoveries == r);
    }

    /** Under unchanged rules, judging again without a new outcome leaves the
        judgment and the run lengths alone. */
    method Reevaluate(now: int)
      requires Valid() && steady
      modifies `recentReceived, `recentLost, `down, `evaluatedAt
      ensures Valid() && down == old(down) && evaluatedAt == now
    {
      Evaluate(now);
    }

    /** With a clock that does not go back, the recent counts are those of the
        plain log since the window length last changed. */
    lemma RecentMeaning()
      requires Valid() && Monotone(Ring(), evaluatedAt)
      ensures recentReceived == |RecentOutcomes(Ring(), evaluatedAt, Effective().window, true)|
      ensures recentLost == |RecentOutcomes(Ring(), evaluatedAt, Effective().window, false)|
    {
      RingRefinesLog(Ring(), evaluatedAt, Effective().window, true);
      RingRefinesLog(Ring(), evaluatedAt, Effective().window, false);
    }

    /** While the rules stay as they were, `down` is the meaning of the outcomes
        seen since the reset, and the counters are the trailing run lengths. */
    lemma Meaning()
      requires Valid() && steady
      ensures down <==> Down(log, Effective().failures, Effective().recoveries)
      ensures failures == 0 || successes == 0
    {
      LatchMeansDown(log, Effective().failures, Effective().recoveries);
      RunsExclusive(log);
    }
  }
}
