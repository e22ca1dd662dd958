/** Attempts are at least one interval apart, because the send timer is set again
    only after each attempt (internal/pinger/worker.go:291-318).  From this follow
    how many probes can be outstanding and when a wire number can be reused. */
module Pacing {
  import opened Arith
  import opened Sets
  import opened Ledgers

  /** Times of the outstanding attempts, and of the last attempt made. */
  ghost predicate Paced(unacked: map<int, Pending>, interval: nat, attempt: int, lastAt: int)
  {
    && (forall w :: w in unacked ==> Apart(unacked[w].attempt, unacked[w].start, attempt, lastAt, interval))
    && (forall v, w :: v in unacked && w in unacked && unacked[v].attempt <= unacked[w].attempt ==>
          Apart(unacked[v].attempt, unacked[v].start, unacked[w].attempt, unacked[w].start, interval))
  }

  ghost predicate Apart(a: int, s: int, b: int, t: int, interval: nat)
  {
    a <= b && t - s >= interval * (b - a)
  }

  lemma ApartNext(a: int, s: int, b: int, t: int, t': int, interval: nat)
    requires Apart(a, s, b, t, interval) && t' >= t + interval
    ensures Apart(a, s, b + 1, t', interval)
  {
    assert interval * (b + 1 - a) == interval * (b - a) + interval;
  }

  /** The next attempt, sent or not, keeps the pace. */
  lemma NextAttemptPaced(unacked: map<int, Pending>, interval: nat, attempt: int, lastAt: int, at: int)
    requires Paced(unacked, interval, attempt, lastAt) && at >= lastAt + interval
    ensures Paced(unacked, interval, attempt + 1, at)
  {
    forall w | w in unacked ensures Apart(unacked[w].attempt, unacked[w].start, attempt + 1, at, interval) {
      ApartNext(unacked[w].attempt, unacked[w].start, attempt, lastAt, at, interval);
    }
  }

  lemma EntryPaced(unacked: map<int, Pending>, interval: nat, attempt: int, at: int, w: int, p: Pending)
    requires Paced(unacked, interval, attempt, at)
    requires p.start == at && p.attempt == attempt
    requires forall v :: v in unacked ==> unacked[v].attempt < attempt
    ensures Paced(unacked[w := p], interval, attempt, at)
  {
    assert Apart(attempt, at, attempt, at, interval) by {
      assert interval * (attempt - attempt) == 0;
    }
    var u := unacked[w := p];
    forall x, y | x in u && y in u && u[x].attempt <= u[y].attempt
      ensures Apart(u[x].attempt, u[x].start, u[y].attempt, u[y].start, interval)
    {
      if y == w && x != w {
        assert Apart(unacked[x].attempt, unacked[x].start, attempt, at, interval);
      }
    }
  }

  lemma FewerPaced(unacked: map<int, Pending>, interval: nat, attempt: int, lastAt: int, w: int)
    requires Paced(unacked, interval, attempt, lastAt)
    ensures Paced(unacked - {w}, interval, attempt, lastAt)
  {
  }

  /** Each wire number is the number of its own attempt. */
  predicate Keyed(unacked: map<int, Pending>)
  {
    forall w :: w in unacked ==> Wire(unacked[w].attempt) == w
  }

  /** Smallest whole number of intervals that covers the timeout. */
  function CeilDiv(timeout: nat, interval: nat): nat
    requires interval > 0
  {
    (timeout + interval - 1) / interval
  }

  /** When every outstanding probe is younger than the timeout, as after a sweep,
      there are at most timeout / interval of them, rounded up, and the last
      attempt is that close to each. */
  lemma OutstandingBound(unacked: map<int, Pending>, interval: nat, attempt: int, lastAt: int, timeout: nat, now: int)
    requires interval > 0 && Paced(unacked, interval, attempt, lastAt) && Keyed(unacked) && lastAt <= now
    requires forall w :: w in unacked ==> now - unacked[w].start < timeout
    ensures |unacked| <= CeilDiv(timeout, interval)
    ensures forall w :: w in unacked ==> 0 <= attempt - unacked[w].attempt < CeilDiv(timeout, interval)
  {
    var n := CeilDiv(timeout, interval);
    forall w | w in unacked ensures 0 <= attempt - unacked[w].attempt < n {
      assert Apart(unacked[w].attempt, unacked[w].start, attempt, lastAt, interval);
      StepsWithin(attempt - unacked[w].attempt, interval, timeout);
    }
    hide CeilDiv, Paced;
    var attempts := Attempts(unacked, unacked.Keys);
    AttemptsCounted(unacked, unacked.Keys);
    IntervalSize(attempts, attempt - n + 1, n);
  }

  lemma StepsWithin(k: nat, interval: nat, timeout: nat)
    requires interval > 0 && interval * k < timeout
    ensures k < CeilDiv(timeout, interval)
  {
    QuotientAtLeast(timeout + interval - 1, interval, k + 1);
  }

  ghost function Attempts(unacked: map<int, Pending>, keys: set<int>): set<int>
    requires keys <= unacked.Keys
  {
    set w | w in keys :: unacked[w].attempt
  }

  lemma {:induction false} AttemptsCounted(unacked: map<int, Pending>, keys: set<int>)
    requires Keyed(unacked) && keys <= unacked.Keys
    ensures |Attempts(unacked, keys)| == |keys|
    decreases |keys|
  {
    if keys != {} {
      var w := Pick(keys);
      var rest := keys - {w};
      AttemptsCounted(unacked, rest);
      forall x | x in rest ensures unacked[x].attempt != unacked[w].attempt {
        assert Wire(unacked[x].attempt) == x && Wire(unacked[w].attempt) == w;
      }
      assert Attempts(unacked, keys) == Attempts(unacked, rest) + {unacked[w].attempt};
    }
  }

  /** A number whose last use is fewer than 65,536 attempts back is not reused. */
  lemma NextWireFree(unacked: map<int, Pending>, attempt: int)
    requires Keyed(unacked)
    requires forall w :: w in unacked ==> 0 <= attempt - unacked[w].attempt < WIRE_RANGE - 1
    ensures Wire(attempt + 1) !in unacked
  {
    var w := Wire(attempt + 1);
    if w in unacked {
      RemaindersDiffer(unacked[w].attempt, attempt + 1, WIRE_RANGE);
    }
  }

  lemma CeilBounded(timeout: nat, interval: nat)
    requires 100 <= interval && timeout <= 30000
    ensures CeilDiv(timeout, interval) <= 300
  {
    var q := CeilDiv(timeout, interval);
    if q > 300 {
      MulOrdered(301, q, interval);
      MulOrdered(100, interval, 300);
    }
  }

  /** Within the limits the configuration check enforces (at least 100 ms between
      probes, at most 30 s timeout; config_validation.go:20-23, 140-145), at most
      300 probes are outstanding after a sweep, the last attempt is fewer than 300
      from each, and the next one takes a free number. */
  lemma ValidatedBound(unacked: map<int, Pending>, interval: nat, attempt: int, lastAt: int, timeout: nat, now: int)
    requires 100 <= interval <= 60000 && 10 <= timeout <= 30000
    requires Paced(unacked, interval, attempt, lastAt) && Keyed(unacked) && lastAt <= now
    requires forall w :: w in unacked ==> now - unacked[w].start < timeout
    ensures |unacked| <= 300
    ensures forall w :: w in unacked ==> 0 <= attempt - unacked[w].attempt < 300
    ensures Wire(attempt + 1) !in unacked
  {
    hide Paced, CeilDiv;
    OutstandingBound(unacked, interval, attempt, lastAt, timeout, now);
    CeilBounded(timeout, interval);
    NextWireFree(unacked, attempt);
  }
}
