/** Running RTT statistics and the history ring (internal/stats/rtt_accumulator.go).

    Durations are integers (nanoseconds).  The Welford state, float64 in the
    source, is kept in exact reals: rounding is not modelled. */
module RttAccumulators {
  import opened Arith
  import opened Sequences

  // ----- The slow definitions -----

  function SumSquares(s: seq<int>): real
  {
    if s == [] then 0.0 else SumSquares(s[..|s|-1]) + s[|s|-1] as real * s[|s|-1] as real
  }

  /** Sum of squared deviations of s from c. */
  function Deviation(s: seq<int>, c: real): real
  {
    if s == [] then 0.0
    else Deviation(s[..|s|-1], c) + (s[|s|-1] as real - c) * (s[|s|-1] as real - c)
  }

  lemma {:induction false} DeviationNonNegative(s: seq<int>, c: real)
    ensures Deviation(s, c) >= 0.0
  {
    if s != [] {
      DeviationNonNegative(s[..|s|-1], c);
      SquareNonNegative(s[|s|-1] as real - c);
    }
  }

  lemma SquareNonNegative(x: real)
    ensures x * x >= 0.0
  {
  }

  lemma {:induction false} DeviationExpands(s: seq<int>, c: real)
    ensures Deviation(s, c) == SumSquares(s) - 2.0 * c * Sum(s) as real + |s| as real * c * c
  {
    if s != [] {
      var p, x := s[..|s|-1], s[|s|-1] as real;
      DeviationExpands(p, c);
      ExpandStep(Deviation(p, c), SumSquares(p), Sum(p) as real, |p| as real, x, c,
                 Deviation(s, c), SumSquares(s), Sum(s) as real, |s| as real);
    }
  }

  lemma ExpandStep(d: real, q: real, t: real, n: real, x: real, c: real, d': real, q': real, t': real, n': real)
    requires d == q - 2.0 * c * t + n * c * c
    requires d' == d + (x - c) * (x - c) && q' == q + x * x && t' == t + x && n' == n + 1.0
    ensures d' == q' - 2.0 * c * t' + n' * c * c
  {
    assert (q - 2.0 * c * t + n * c * c) + (x - c) * (x - c) == (q + x * x) - 2.0 * c * (t + x) + (n + 1.0) * c * c;
  }

  /** The last n elements. */
  function Last<T>(s: seq<T>, n: nat): seq<T>
    requires n <= |s|
  {
    s[|s|-n..]
  }

  // ----- Welford's recurrence -----

  /** What the Welford state says of its n samples: their squared deviations from
      any point c are m2 plus n times the squared distance of the mean from c. */
  ghost predicate MomentsExact(s: seq<int>, mean: real, m2: real)
  {
    forall c: real :: Deviation(s, c) == m2 + |s| as real * (mean - c) * (mean - c)
  }

  /** One update of the recurrence keeps that, whatever the point c. */
  lemma WelfordStep(n: real, mean: real, m2: real, x: real, mean': real, m2': real, c: real)
    requires n >= 0.0
    requires mean' == mean + (x - mean) / (n + 1.0)
    requires m2' == m2 + (x - mean) * (x - mean')
    ensures (m2 + n * (mean - c) * (mean - c)) + (x - c) * (x - c) == m2' + (n + 1.0) * (mean' - c) * (mean' - c)
  {
    var d := (x - mean) / (n + 1.0);
    assert d * (n + 1.0) == x - mean;
    assert x == mean + d * (n + 1.0) && mean' == mean + d;
    WelfordIdentity(mean, d, n, c);
  }

  lemma WelfordIdentity(mean: real, d: real, n: real, c: real)
    ensures var x := mean + d * (n + 1.0);
            n * (mean - c) * (mean - c) + (x - c) * (x - c)
            == (x - mean) * (x - (mean + d)) + (n + 1.0) * (mean + d - c) * (mean + d - c)
  {
  }

  lemma MomentsStep(s: seq<int>, mean: real, m2: real, x: int, mean': real, m2': real)
    requires MomentsExact(s, mean, m2)
    requires mean' == mean + (x as real - mean) / (|s| + 1) as real
    requires m2' == m2 + (x as real - mean) * (x as real - mean')
    ensures MomentsExact(s + [x], mean', m2')
  {
    forall c: real ensures Deviation(s + [x], c) == m2' + |s + [x]| as real * (mean' - c) * (mean' - c) {
      MomentsStepAt(s, mean, m2, x, mean', m2', c);
    }
  }

  lemma MomentsStepAt(s: seq<int>, mean: real, m2: real, x: int, mean': real, m2': real, c: real)
    requires Deviation(s, c) == m2 + |s| as real * (mean - c) * (mean - c)
    requires mean' == mean + (x as real - mean) / (|s| + 1) as real
    requires m2' == m2 + (x as real - mean) * (x as real - mean')
    ensures Deviation(s + [x], c) == m2' + |s + [x]| as real * (mean' - c) * (mean' - c)
  {
    DeviationSnoc(s, x, c);
    assert (|s| + 1) as real == |s| as real + 1.0;
    hide Deviation;
    WelfordStep(|s| as real, mean, m2, x as real, mean', m2', c);
  }

  lemma DeviationSnoc(s: seq<int>, x: int, c: real)
    ensures Deviation(s + [x], c) == Deviation(s, c) + (x as real - c) * (x as real - c)
  {
    assert (s + [x])[..|s|] == s;
  }

  /** Hence the mean is exact and m2 is the sum of squared deviations from it; a
      variance computed from m2 is never negative. */
  lemma MomentsMeaning(s: seq<int>, mean: real, m2: real)
    requires MomentsExact(s, mean, m2)
    ensures |s| as real * mean == Sum(s) as real
    ensures m2 == Deviation(s, mean) >= 0.0
  {
    hide *;
    MomentsAt(s, mean, m2, 0.0);
    MomentsAt(s, mean, m2, 1.0);
    DeviationExpands(s, 0.0);
    DeviationExpands(s, 1.0);
    MeanFromDeviations(|s| as real, mean, Sum(s) as real, m2, SumSquares(s), Deviation(s, 0.0), Deviation(s, 1.0));
    MomentsAt(s, mean, m2, mean);
    ZeroDistance(|s| as real, mean);
    DeviationNonNegative(s, mean);
  }

  lemma MomentsAt(s: seq<int>, mean: real, m2: real, c: real)
    requires MomentsExact(s, mean, m2)
    ensures Deviation(s, c) == m2 + |s| as real * (mean - c) * (mean - c)
  {
  }

  lemma ZeroDistance(n: real, mean: real)
    ensures n * (mean - mean) * (mean - mean) == 0.0
  {
  }

  lemma MeanFromDeviations(n: real, mean: real, sum: real, m2: real, squares: real, d0: real, d1: real)
    requires d0 == m2 + n * (mean - 0.0) * (mean - 0.0)
    requires d1 == m2 + n * (mean - 1.0) * (mean - 1.0)
    requires d0 == squares - 2.0 * 0.0 * sum + n * 0.0 * 0.0
    requires d1 == squares - 2.0 * 1.0 * sum + n * 1.0 * 1.0
    ensures n * mean == sum
  {
    assert n * (mean - 1.0) * (mean - 1.0) == n * mean * mean - 2.0 * n * mean + n;
  }

  /** Smallest and largest element; 0 for none. */
  function Least(s: seq<int>): int
  {
    if |s| == 0 then 0 else if |s| == 1 then s[0] else Min(Least(s[..|s|-1]), s[|s|-1])
  }

  function Greatest(s: seq<int>): int
  {
    if |s| == 0 then 0 else if |s| == 1 then s[0] else Max(Greatest(s[..|s|-1]), s[|s|-1])
  }

  lemma {:induction false} ExtremesBound(s: seq<int>)
    ensures s != [] ==> Least(s) in s && Greatest(s) in s
    ensures forall i :: 0 <= i < |s| ==> Least(s) <= s[i] <= Greatest(s)
  {
    if |s| > 1 {
      ExtremesBound(s[..|s|-1]);
    }
  }

  /** The average of a non-empty series lies between its extremes. */
  lemma AverageBetween(s: seq<int>)
    requires s != []
    ensures Least(s) <= Sum(s) / |s| <= Greatest(s)
  {
    ExtremesBound(s);
    SumBetween(s, Least(s), Greatest(s));
    QuotientBetween(Sum(s), |s|, Least(s), Greatest(s));
  }

  lemma {:induction false} SumBetween(s: seq<int>, lo: int, hi: int)
    requires forall i :: 0 <= i < |s| ==> lo <= s[i] <= hi
    ensures |s| * lo <= Sum(s) <= |s| * hi
  {
    if s != [] {
      SumBetween(s[..|s|-1], lo, hi);
      assert |s| * lo == (|s| - 1) * lo + lo && |s| * hi == (|s| - 1) * hi + hi;
    }
  }

  // ----- Jitter -----

  const JITTER_DIVISOR := 16

  /** Go's integer division truncates toward zero. */
  function GoDiv(a: int, b: int): int
    requires b > 0
  {
    if a >= 0 then a / b else -((-a) / b)
  }

  function GoRem(a: int, b: int): int
    requires b > 0
  {
    a - b * GoDiv(a, b)
  }

  function Abs(x: int): nat { if x < 0 then -x else x }

  /** updateJitter: one step of the filter of RFC 1889 appendix A.8. */
  function UpdateJitter(jitter: int, rtt: int, lastRTT: int): int
  {
    jitter + GoDiv(Abs(rtt - lastRTT) - jitter, JITTER_DIVISOR)
  }

  /** The new value lies between the old one and |D|.  The gap shrinks by its
      sixteenth, rounded down, so a gap below 16 stays as it is. */
  lemma JitterStep(jitter: int, rtt: int, lastRTT: int)
    ensures var d := Abs(rtt - lastRTT);
            var j := UpdateJitter(jitter, rtt, lastRTT);
            && (jitter <= d ==> jitter <= j <= d)
            && (d <= jitter ==> d <= j <= jitter)
            && Abs(d - j) == Abs(d - jitter) - Abs(d - jitter) / 16
            && (Abs(d - jitter) >= 16 <==> Abs(d - j) < Abs(d - jitter))
  {
  }

  /** Jitter after a series of RTTs, the first of which has no predecessor. */
  function JitterOf(rtts: seq<int>): int
  {
    if |rtts| < 2 then 0
    else UpdateJitter(JitterOf(rtts[..|rtts|-1]), rtts[|rtts|-1], rtts[|rtts|-2])
  }

  /** Jitter is never negative, nor above the largest step between neighbours. */
  lemma {:induction false} JitterBounded(rtts: seq<int>, bound: nat)
    requires forall i :: 0 < i < |rtts| ==> Abs(rtts[i] - rtts[i-1]) <= bound
    ensures 0 <= JitterOf(rtts) <= bound
  {
    if |rtts| >= 2 {
      JitterBounded(rtts[..|rtts|-1], bound);
      JitterStep(JitterOf(rtts[..|rtts|-1]), rtts[|rtts|-1], rtts[|rtts|-2]);
    }
  }

  function Steady(jitter: int, d: nat, steps: nat): int
  {
    if steps == 0 then jitter else UpdateJitter(Steady(jitter, d, steps - 1), d, 0)
  }

  /** Under a constant |D| the filter comes within 16 of it, in at most as many
      steps as the gap was wide, and then stays put. */
  lemma {:induction false} JitterSettles(jitter: int, d: nat) returns (steps: nat)
    ensures steps <= Abs(d - jitter)
    ensures forall k: nat :: k >= steps ==>
              Steady(jitter, d, k) == Steady(jitter, d, steps) && Abs(d - Steady(jitter, d, k)) < 16
    decreases Abs(d - jitter)
  {
    JitterStep(jitter, d, 0);
    if Abs(d - jitter) < 16 {
      steps := 0;
      forall k: nat ensures Steady(jitter, d, k) == jitter {
        SteadyStays(jitter, d, k);
      }
    } else {
      var next := UpdateJitter(jitter, d, 0);
      var rest := JitterSettles(next, d);
      steps := rest + 1;
      forall k: nat | k >= steps
        ensures Steady(jitter, d, k) == Steady(jitter, d, steps) && Abs(d - Steady(jitter, d, k)) < 16
      {
        SteadyShift(jitter, d, k - 1);
        SteadyShift(jitter, d, rest);
      }
    }
  }

  lemma {:induction false} SteadyStays(jitter: int, d: nat, k: nat)
    requires Abs(d - jitter) < 16
    ensures Steady(jitter, d, k) == jitter
  {
    if k > 0 {
      SteadyStays(jitter, d, k - 1);
    }
  }

  lemma {:induction false} SteadyShift(jitter: int, d: nat, k: nat)
    ensures Steady(jitter, d, k + 1) == Steady(UpdateJitter(jitter, d, 0), d, k)
  {
    if k > 0 {
      SteadyShift(jitter, d, k - 1);
    }
  }

  // ----- The ring -----

  /** buf holds the last `length` elements of log, element i in slot i % |buf|. */
  ghost predicate HoldsLast<T>(buf: seq<T>, length: nat, log: seq<T>)
  {
    && |buf| > 0
    && length == Min(|log|, |buf|)
    && forall i :: |log| - length <= i < |log| ==> buf[i % |buf|] == log[i]
  }

  /** The buffer after appending a whole log, each element in the next slot. */
  function RingOf(log: seq<int>, n: nat): (buf: seq<int>)
    requires n > 0
    ensures |buf| == n
  {
    if log == [] then seq(n, _ => 0)
    else RingOf(log[..|log|-1], n)[(|log| - 1) % n := log[|log|-1]]
  }

  lemma RingEmpty(n: nat)
    requires n > 0
    ensures |RingOf([], n)| == n && forall i :: 0 <= i < n ==> RingOf([], n)[i] == 0
  {
  }

  /** One more element overwrites the next slot. */
  lemma RingSnoc(log: seq<int>, x: int, n: nat)
    requires n > 0
    ensures RingOf(log + [x], n) == RingOf(log, n)[|log| % n := x]
  {
    assert (log + [x])[..|log|] == log;
  }

  lemma {:induction false} RingHoldsLast(log: seq<int>, n: nat)
    requires n > 0
    ensures HoldsLast(RingOf(log, n), Min(|log|, n), log)
  {
    if log != [] {
      hide HoldsLast, RingOf;
      var p, x := log[..|log|-1], log[|log|-1];
      RingHoldsLast(p, n);
      RingAppend(RingOf(p, n), Min(|p|, n), p, x);
      RingSnoc(p, x, n);
      assert p + [x] == log;
    }
  }

  lemma RingAppend<T>(buf: seq<T>, length: nat, log: seq<T>, x: T)
    requires HoldsLast(buf, length, log)
    ensures HoldsLast(buf[|log| % |buf| := x], Min(length + 1, |buf|), log + [x])
  {
    var n := |buf|;
    var log' := log + [x];
    var length' := Min(length + 1, n);
    forall i | |log'| - length' <= i < |log'| ensures buf[|log| % n := x][i % n] == log'[i] {
      if i < |log| {
        RemaindersDiffer(i, |log|, n);
      }
    }
  }

  /** reconstructHistory. */
  function ReconstructHistory<T>(buf: seq<T>, idx: nat, length: nat): seq<T>
    requires |buf| > 0 && length <= |buf|
  {
    if length == 0 then []
    else if length < |buf| then buf[..length]
    else buf[idx % |buf|..] + buf[..idx % |buf|]
  }

  /** reconstructHistoryWindow. */
  function ReconstructHistoryWindow<T>(buf: seq<T>, idx: nat, length: nat, n: int): seq<T>
    requires |buf| > 0 && length <= |buf| && length <= idx
  {
    if length == 0 || n <= 0 then []
    else
      var size := |buf|;
      var effLen := Min(n, length);
      if length < size then buf[length-effLen..length]
      else
        var windowStart := GoRem(GoRem(idx - effLen, size) + size, size);
        if windowStart + effLen <= size then buf[windowStart..windowStart+effLen]
        else
          var first := size - windowStart;
          buf[windowStart..size] + buf[..effLen-first]
  }

  /** Rotating a full ring to start at slot `start` puts element k of the ring,
      counted from there, at position k. */
  lemma RotatedAt<T>(buf: seq<T>, start: nat, k: nat)
    requires start < |buf| && k < |buf|
    ensures (buf[start..] + buf[..start])[k]
         == buf[if start + k < |buf| then start + k else start + k - |buf|]
  {
  }

  /** Both readers agree with the log: the snapshot is its last `length`
      elements and the window its last min(n, length). */
  lemma SnapshotIsLast<T>(buf: seq<T>, length: nat, log: seq<T>)
    requires HoldsLast(buf, length, log)
    ensures ReconstructHistory(buf, |log|, length) == Last(log, length)
  {
    var out := ReconstructHistory(buf, |log|, length);
    assert |out| == length;
    forall k | 0 <= k < length ensures out[k] == log[|log| - length + k] {
      SnapshotAt(buf, length, log, k);
    }
  }

  lemma SnapshotAt<T>(buf: seq<T>, length: nat, log: seq<T>, k: nat)
    requires HoldsLast(buf, length, log) && k < length
    ensures ReconstructHistory(buf, |log|, length)[k] == log[|log| - length + k]
  {
    var n := |buf|;
    var first := |log| - length;
    ghost var slot := (first + k) % n;
    assert buf[slot] == log[first + k];
    if length < n {
      DivModIs(k, 0, n, k);
    } else {
      FullStart(|log|, n);
      RingOffset(first, n, k);
      RotatedAt(buf, |log| % n, k);
    }
  }

  lemma FullStart(len: nat, n: nat)
    requires 0 < n <= len
    ensures (len - n) % n == len % n
  {
    DivModIs(len - n, len / n - 1, n, len % n);
  }

  lemma WindowIsLast<T>(buf: seq<T>, length: nat, log: seq<T>, n: int)
    requires HoldsLast(buf, length, log)
    ensures ReconstructHistoryWindow(buf, |log|, length, n) == Last(log, if n <= 0 then 0 else Min(n, length))
  {
    if length > 0 && n > 0 {
      var e := Min(n, length);
      StartSlot(|log| - e, |buf|);
      var out := ReconstructHistoryWindow(buf, |log|, length, n);
      assert |out| == e;
      forall k | 0 <= k < e ensures out[k] == log[|log| - e + k] {
        WindowAt(buf, length, log, n, k);
      }
    }
  }

  /** The e elements from slot `start` on, round the end of the ring. */
  function Turned<T>(buf: seq<T>, start: nat, e: nat): seq<T>
    requires start < |buf| && e <= |buf|
  {
    if start + e <= |buf| then buf[start..start+e] else buf[start..] + buf[..start+e-|buf|]
  }

  lemma TurnedAt<T>(buf: seq<T>, start: nat, e: nat, k: nat, slot: nat)
    requires start < |buf| && k < e <= |buf|
    requires slot == if start + k < |buf| then start + k else start + k - |buf|
    ensures |Turned(buf, start, e)| == e && Turned(buf, start, e)[k] == buf[slot]
  {
  }

  /** A full ring is read from the slot of the oldest element asked for. */
  lemma FullWindow<T>(buf: seq<T>, idx: nat, n: int)
    requires 0 < |buf| <= idx && n > 0
    ensures ReconstructHistoryWindow(buf, idx, |buf|, n)
         == Turned(buf, (idx - Min(n, |buf|)) % |buf|, Min(n, |buf|))
  {
    StartSlot(idx - Min(n, |buf|), |buf|);
    hide GoRem;
  }

  lemma HeldAt<T>(buf: seq<T>, length: nat, log: seq<T>, i: nat)
    requires HoldsLast(buf, length, log) && |log| - length <= i < |log|
    ensures buf[i % |buf|] == log[i]
  {
  }

  lemma FullWindowAt<T>(buf: seq<T>, log: seq<T>, n: int, k: nat)
    requires HoldsLast(buf, |buf|, log) && k < Min(n, |buf|)
    ensures var w, e := ReconstructHistoryWindow(buf, |log|, |buf|, n), Min(n, |buf|);
            |w| == e && w[k] == log[|log| - e + k]
  {
    var size, e := |buf|, Min(n, |buf|);
    var s := |log| - e;
    HeldAt(buf, size, log, s + k);
    hide HoldsLast, ReconstructHistoryWindow, Turned;
    FullWindow(buf, |log|, n);
    RingOffset(s, size, k);
    TurnedAt(buf, s % size, e, k, (s + k) % size);
  }

  lemma WindowAt<T>(buf: seq<T>, length: nat, log: seq<T>, n: int, k: nat)
    requires HoldsLast(buf, length, log) && length > 0 && k < Min(n, length)
    ensures |ReconstructHistoryWindow(buf, |log|, length, n)| == Min(n, length)
    ensures ReconstructHistoryWindow(buf, |log|, length, n)[k] == log[|log| - Min(n, length) + k]
  {
    if length < |buf| {
      var i := |log| - Min(n, length) + k;
      HeldAt(buf, length, log, i);
      DivModIs(i, 0, |buf|, i);
    } else {
      FullWindowAt(buf, log, n, k);
    }
  }

  lemma StartSlot(s: nat, size: nat)
    requires size > 0
    ensures GoRem(GoRem(s, size) + size, size) == s % size
  {
    GoRemIs(s, size);
    GoRemIs(s % size + size, size);
    hide GoRem;
    DivModIs(s % size + size, 1, size, s % size);
  }

  /** For operands that are not negative Go's remainder is the plain one. */
  lemma GoRemIs(a: nat, b: nat)
    requires b > 0
    ensures GoRem(a, b) == a % b
  {
  }

  // ----- rttAccumulator -----

  class RttAccumulator {
    var min: int
    var max: int
    var sum: int
    var samples: nat
    var mean: real
    var m2: real
    var history: array?<int>
    var historyIdx: nat
    var historyLen: nat

    /** The positive RTTs recorded, and everything pushed on the history. */
    ghost var recorded: seq<int>
    ghost var pushed: seq<int>

    /** Every field is the reading of the two logs. */
    ghost predicate Valid()
      reads this, history
    {
      && (forall i :: 0 <= i < |recorded| ==> recorded[i] > 0)
      && samples == |recorded| && sum == Sum(recorded)
      && min == Least(recorded) && max == Greatest(recorded)
      && MomentsExact(recorded, mean, m2) && (recorded == [] ==> mean == 0.0)
      && historyIdx == |pushed|
      && (history == null ==> pushed == [] && historyLen == 0)
      && (history != null ==> history.Length > 0 && historyLen == Min(|pushed|, history.Length)
                              && history[..] == RingOf(pushed, history.Length))
    }

    constructor ()
      ensures Valid() && recorded == [] && pushed == [] && history == null
    {
      min, max, sum, samples, mean, m2 := 0, 0, 0, 0, 0.0, 0.0;
      history, historyIdx, historyLen := null, 0, 0;
      recorded, pushed := [], [];
    }

    /** Assignment of the zero value (TargetStats.Reset). */
    method Clear()
      modifies this
      ensures Valid() && recorded == [] && pushed == [] && history == null
    {
      min, max, sum, samples, mean, m2 := 0, 0, 0, 0, 0.0, 0.0;
      history, historyIdx, historyLen := null, 0, 0;
      recorded, pushed := [], [];
    }

    method Record(rtt: int)
      requires Valid()
      modifies `min, `max, `sum, `samples, `mean, `m2, `recorded
      ensures Valid()
      ensures recorded == if rtt <= 0 then old(recorded) else old(recorded) + [rtt]
    {
      hide MomentsExact, Least, Greatest, RingOf;
      if rtt <= 0 {
        return;
      }
      samples := samples + 1;
      sum := sum + rtt;
      RecordExtremes(rtt);
      RecordMoments(rtt);
      recorded := recorded + [rtt];
      assert recorded[..|recorded|-1] == old(recorded);
    }

    /** 0 stands for no minimum yet, which no sample can be. */
    method RecordExtremes(rtt: int)
      requires rtt > 0 && forall i :: 0 <= i < |recorded| ==> recorded[i] > 0
      requires min == Least(recorded) && max == Greatest(recorded)
      modifies `min, `max
      ensures min == Least(recorded + [rtt]) && max == Greatest(recorded + [rtt])
    {
      ExtremesBound(recorded);
      assert (recorded + [rtt])[..|recorded|] == recorded;
      if min == 0 || rtt < min {
        min := rtt;
      }
      if rtt > max {
        max := rtt;
      }
    }

    /** The Welford update. */
    method RecordMoments(rtt: int)
      requires samples == |recorded| + 1 && MomentsExact(recorded, mean, m2)
      modifies `mean, `m2
      ensures MomentsExact(recorded + [rtt], mean, m2)
    {
      var x := rtt as real;
      var delta := x - mean;
      mean := mean + delta / samples as real;
      var delta2 := x - mean;
      m2 := m2 + delta * delta2;
      MomentsStep(recorded, old(mean), old(m2), rtt, mean, m2);
    }

    method Avg() returns (r: int)
      requires Valid()
      ensures recorded == [] ==> r == 0
      ensures recorded != [] ==> r == Sum(recorded) / |recorded| && min <= r <= max
    {
      if samples == 0 {
        return 0;
      }
      AverageBetween(recorded);
      r := sum / samples;
    }

    method AppendHistory(rtt: int, capacity: nat)
      requires Valid() && capacity > 0
      requires history != null ==> history.Length == capacity
      modifies `history, `historyIdx, `historyLen, `pushed, history
      ensures Valid() && pushed == old(pushed) + [rtt]
      ensures history != null && history.Length == capacity
      ensures if old(history) == null then fresh(history) else history == old(history)
    {
      hide MomentsExact, Least, Greatest, RingOf;
      if history == null {
        RingEmpty(capacity);
        history := new int[capacity](_ => 0);
        assert history[..] == RingOf([], capacity);
      }
      RingSnoc(pushed, rtt, capacity);
      history[historyIdx % capacity] := rtt;
      historyIdx := historyIdx + 1;
      if historyLen < capacity {
        historyLen := historyLen + 1;
      }
      pushed := pushed + [rtt];
    }

    method HistorySnapshot() returns (out: seq<int>)
      requires Valid()
      ensures historyLen <= |pushed| && out == Last(pushed, historyLen)
    {
      if history == null {
        return [];
      }
      RingHoldsLast(pushed, history.Length);
      SnapshotIsLast(history[..], historyLen, pushed);
      out := ReconstructHistory(history[..], historyIdx, historyLen);
    }

    method HistorySnapshotWindow(n: int) returns (out: seq<int>)
      requires Valid()
      ensures historyLen <= |pushed|
      ensures out == Last(pushed, if n <= 0 then 0 else Min(n, historyLen))
    {
      if history == null {
        return [];
      }
      RingHoldsLast(pushed, history.Length);
      WindowIsLast(history[..], historyLen, pushed, n);
      out := ReconstructHistoryWindow(history[..], historyIdx, historyLen, n);
    }
  }
}
