/** The books of one target worker (internal/pinger/worker.go): which sent probes
    are outstanding, which are settled and how, and the balance between them and
    the target's counters. */
module Ledgers {
  import opened TargetStatistics
  import opened RecentSequences

  const WIRE_RANGE := 0x1_0000

  /** seq & seqMask: the 16 bits of the ICMP echo sequence number. */
  function Wire(attempt: int): int { attempt % WIRE_RANGE }

  /** pendingProbe, with the unbounded number of its attempt. */
  datatype Pending = Pending(start: int, probe: Probe, attempt: int)

  datatype How = Answered | Errored | Expired | Dropped

  /** How a sent probe was settled, in which window it belonged, and whether its
      callback counted. */
  datatype Settlement = Settlement(how: How, epoch: nat, accepted: bool)

  /** unacked is the worker's map.  The rest is its history: the attempts that
      were sent, the last one sent per wire number, those settled, and those whose
      entry in unacked a later attempt with the same wire number replaced.  The
      worker began in window `since`, which already had `carried` probes sent by
      earlier workers and never accounted for. */
  datatype Book = Book(owner: TargetStats, unacked: map<int, Pending>, sent: set<int>, latest: map<int, int>,
                       settled: map<int, Settlement>, overwritten: map<int, nat>, since: nat, carried: int)

  function Empty(owner: TargetStats, since: nat, carried: int): Book
  {
    Book(owner, map[], {}, map[], map[], map[], since, carried)
  }

  /** Probes counted as sent but neither as received, cancelled nor lost. */
  function Deficit(log: seq<Callback>): int
  {
    Tally(log).sent - Tally(log).recv - Tally(log).cancelled - WireLosses(log)
  }

  // ----- Soundness -----

  ghost predicate PendingSound(b: Book, epoch: nat, w: int)
    requires w in b.unacked
  {
    var p := b.unacked[w];
    && p.probe.Probe? && p.probe.target == b.owner && p.probe.epoch <= epoch
    && Wire(p.attempt) == w && p.attempt in b.sent
    && p.attempt !in b.settled && p.attempt !in b.overwritten
    && w in b.latest && b.latest[w] == p.attempt
  }

  /** An attempt that was sent is outstanding, settled or overwritten. */
  ghost predicate Accounted(b: Book, a: int)
  {
    a in b.settled || a in b.overwritten || (Wire(a) in b.unacked && b.unacked[Wire(a)].attempt == a)
  }

  ghost predicate Sound(b: Book, epoch: nat)
  {
    && (forall w :: w in b.unacked ==> PendingSound(b, epoch, w))
    && (forall a :: a in b.sent ==> Accounted(b, a))
    && b.settled.Keys <= b.sent && b.overwritten.Keys <= b.sent && b.settled.Keys !! b.overwritten.Keys
    && (forall a :: a in b.settled ==>
          b.settled[a].epoch <= epoch && (b.settled[a].epoch == epoch ==> b.settled[a].accepted))
    && (forall a :: a in b.overwritten ==> b.overwritten[a] <= epoch)
    && (forall a :: a in b.sent ==> Wire(a) in b.latest && a <= b.latest[Wire(a)])
    && b.since <= epoch
  }

  /** A history entry is about a settled probe, says how it was settled, and is
      about the latest probe sent with its number unless one is outstanding. */
  ghost predicate EntrySound(b: Book, e: RecentEntry)
  {
    && e.attempt in b.settled && e.wireSeq == Wire(e.attempt)
    && e.probe.Probe? && e.probe.target == b.owner && e.probe.epoch == b.settled[e.attempt].epoch
    && (match e.kind
        case Acked => b.settled[e.attempt].how.Answered? || b.settled[e.attempt].how.Errored?
        case TimedOut => b.settled[e.attempt].how.Expired?)
    && (e.wireSeq !in b.unacked ==> e.wireSeq in b.latest && b.latest[e.wireSeq] == e.attempt)
  }

  ghost predicate EntriesSound(b: Book, es: seq<RecentEntry>)
  {
    forall i :: 0 <= i < |es| ==> EntrySound(b, es[i])
  }

  // ----- The two operations -----

  /** A probe goes out: unacked[seq & seqMask] = ... (line 309). */
  function Insert(b: Book, a: int, p: Pending): Book
  {
    var w := Wire(a);
    b.(unacked := b.unacked[w := p], sent := b.sent + {a}, latest := b.latest[w := a],
       overwritten := if w in b.unacked && b.unacked[w].probe.Probe?
                      then b.overwritten[b.unacked[w].attempt := b.unacked[w].probe.epoch] else b.overwritten)
  }

  /** An outstanding probe is settled and leaves unacked. */
  function Settle(b: Book, w: int, how: How, accepted: bool): Book
    requires w in b.unacked && b.unacked[w].probe.Probe?
  {
    var p := b.unacked[w];
    b.(unacked := b.unacked - {w}, settled := b.settled[p.attempt := Settlement(how, p.probe.epoch, accepted)])
  }

  lemma InsertSound(b: Book, epoch: nat, a: int, p: Pending)
    requires Sound(b, epoch) && forall x :: x in b.sent ==> x < a
    requires p.probe.Probe? && p.probe.target == b.owner && p.probe.epoch <= epoch && p.attempt == a
    ensures Sound(Insert(b, a, p), epoch)
  {
    var b' := Insert(b, a, p);
    forall w | w in b'.unacked ensures PendingSound(b', epoch, w) {
      if w != Wire(a) {
        assert PendingSound(b, epoch, w);
      } else {
        assert a !in b.sent;
      }
    }
    forall x | x in b'.sent ensures Accounted(b', x) {
      if x != a {
        assert Accounted(b, x);
      }
    }
    if Wire(a) in b.unacked {
      assert PendingSound(b, epoch, Wire(a));
    }
  }

  lemma SettleSound(b: Book, epoch: nat, w: int, how: How, accepted: bool)
    requires Sound(b, epoch) && w in b.unacked
    requires b.unacked[w].probe.Probe? && (b.unacked[w].probe.epoch == epoch ==> accepted)
    ensures Sound(Settle(b, w, how, accepted), epoch)
  {
    var b' := Settle(b, w, how, accepted);
    assert PendingSound(b, epoch, w);
    forall x | x in b'.unacked ensures PendingSound(b', epoch, x) {
      assert PendingSound(b, epoch, x);
    }
    forall x | x in b'.sent ensures Accounted(b', x) {
      assert Accounted(b, x);
    }
  }

  /** A reset: a later epoch. */
  lemma LaterSound(b: Book, epoch: nat, later: nat)
    requires Sound(b, epoch) && epoch < later
    ensures Sound(b, later)
    ensures Outstanding(b, later) == {} && Lost(b, later) == {}
  {
    forall w | w in b.unacked ensures PendingSound(b, later, w) && b.unacked[w].probe.epoch < later {
      assert PendingSound(b, epoch, w);
    }
    assert forall w :: w !in Outstanding(b, later);
    assert forall a :: a !in Lost(b, later);
  }

  lemma InsertEntries(b: Book, es: seq<RecentEntry>, a: int, p: Pending)
    requires EntriesSound(b, es)
    ensures EntriesSound(Insert(b, a, p), es)
  {
    forall i | 0 <= i < |es| ensures EntrySound(Insert(b, a, p), es[i]) {
      assert EntrySound(b, es[i]);
    }
  }

  /** Settling and recording together keep the history about the latest probes. */
  lemma SettleEntries(b: Book, epoch: nat, es: seq<RecentEntry>, w: int, how: How, accepted: bool, kind: Resolution)
    requires Sound(b, epoch) && EntriesSound(b, es) && UniqueKeys(es)
    requires w in b.unacked && b.unacked[w].probe.Probe?
    requires if kind.Acked? then how.Answered? || how.Errored? else how.Expired?
    ensures EntriesSound(Settle(b, w, how, accepted),
                         Recorded(es, RecentEntry(w, kind, b.unacked[w].probe, b.unacked[w].attempt)))
  {
    var b' := Settle(b, w, how, accepted);
    var e := RecentEntry(w, kind, b.unacked[w].probe, b.unacked[w].attempt);
    assert PendingSound(b, epoch, w);
    RecordedMembers(es, e);
    var r := Recorded(es, e);
    hide Recorded;
    forall i | 0 <= i < |r| ensures EntrySound(b', r[i]) {
      assert FromRecording(es, e, r[i]);
      if r[i] != e {
        var k :| 0 <= k < |es| && es[k] == r[i];
        assert EntrySound(b, es[k]);
      }
    }
  }

  // ----- The balance -----

  /** Outstanding probes of the current window. */
  ghost function Outstanding(b: Book, epoch: nat): set<int>
  {
    set w | w in b.unacked && b.unacked[w].probe.Probe? && b.unacked[w].probe.epoch == epoch
  }

  /** Probes of the current window whose entry was overwritten. */
  ghost function Lost(b: Book, epoch: nat): set<int>
  {
    Epochs(b.overwritten, epoch)
  }

  /** What earlier workers left unaccounted for in this window. */
  function Carried(b: Book, epoch: nat): int
  {
    if b.since == epoch then b.carried else 0
  }

  /** sent = received + cancelled + lost on the wire + outstanding + overwritten
      + carried.  inHand is 1 while a probe has been counted as sent but not yet entered in
      unacked, or taken out and not yet counted as settled. */
  ghost predicate Balanced(log: seq<Callback>, b: Book, epoch: nat, inHand: int)
  {
    Deficit(log) == |Outstanding(b, epoch)| + |Lost(b, epoch)| + Carried(b, epoch) + inHand
  }

  function InHand(probe: Probe, epoch: nat): int
  {
    if probe.Probe? && probe.epoch == epoch then 1 else 0
  }

  lemma InsertBalance(log: seq<Callback>, b: Book, epoch: nat, a: int, p: Pending)
    requires Sound(b, epoch) && p.probe.Probe?
    requires Balanced(log, b, epoch, InHand(p.probe, epoch))
    ensures Balanced(log, Insert(b, a, p), epoch, 0)
  {
    hide Deficit;
    InsertCounts(b, epoch, a, p);
  }

  /** 1 when number w stands for an outstanding probe of the current window. */
  function Here(b: Book, epoch: nat, w: int): int
  {
    if w in b.unacked then InHand(b.unacked[w].probe, epoch) else 0
  }

  lemma InsertCounts(b: Book, epoch: nat, a: int, p: Pending)
    requires Sound(b, epoch) && p.probe.Probe?
    ensures var b' := Insert(b, a, p);
            |Outstanding(b', epoch)| + |Lost(b', epoch)|
            == |Outstanding(b, epoch)| + |Lost(b, epoch)| + InHand(p.probe, epoch)
  {
    OutstandingInsert(b, epoch, a, p);
    LostInsert(b, epoch, a, p);
  }

  lemma OutstandingInsert(b: Book, epoch: nat, a: int, p: Pending)
    requires p.probe.Probe?
    ensures |Outstanding(Insert(b, a, p), epoch)|
         == |Outstanding(b, epoch)| - Here(b, epoch, Wire(a)) + InHand(p.probe, epoch)
  {
    var w := Wire(a);
    hide Wire;
    var before, after := Outstanding(b, epoch), Outstanding(Insert(b, a, p), epoch);
    var others := before - {w};
    if p.probe.epoch == epoch {
      assert after == others + {w};
    } else {
      assert after == others;
    }
    if Here(b, epoch, w) == 1 {
      assert before == others + {w};
    } else {
      assert before == others;
    }
  }

  lemma LostInsert(b: Book, epoch: nat, a: int, p: Pending)
    requires Sound(b, epoch)
    ensures |Lost(Insert(b, a, p), epoch)| == |Lost(b, epoch)| + Here(b, epoch, Wire(a))
  {
    var w := Wire(a);
    if w in b.unacked {
      assert PendingSound(b, epoch, w);
      hide Sound, Wire;
      EpochsAdd(b.overwritten, b.unacked[w].attempt, b.unacked[w].probe.epoch, epoch);
    }
  }

  ghost function Epochs(m: map<int, nat>, epoch: nat): set<int>
  {
    set a | a in m && m[a] == epoch
  }

  lemma EpochsAdd(m: map<int, nat>, a: int, v: nat, epoch: nat)
    requires a !in m
    ensures |Epochs(m[a := v], epoch)| == |Epochs(m, epoch)| + if v == epoch then 1 else 0
  {
    assert Epochs(m[a := v], epoch) == if v == epoch then Epochs(m, epoch) + {a} else Epochs(m, epoch);
  }

  lemma SettleBalance(log: seq<Callback>, b: Book, epoch: nat, w: int, how: How, accepted: bool)
    requires w in b.unacked && b.unacked[w].probe.Probe?
    requires Balanced(log, b, epoch, 0)
    ensures Balanced(log, Settle(b, w, how, accepted), epoch, InHand(b.unacked[w].probe, epoch))
  {
    hide Deficit;
    SettleCounts(b, epoch, w, how, accepted);
  }

  lemma SettleCounts(b: Book, epoch: nat, w: int, how: How, accepted: bool)
    requires w in b.unacked && b.unacked[w].probe.Probe?
    ensures var b' := Settle(b, w, how, accepted);
            && |Outstanding(b, epoch)| == |Outstanding(b', epoch)| + InHand(b.unacked[w].probe, epoch)
            && Lost(b', epoch) == Lost(b, epoch)
  {
    OutstandingWithout(b, Settle(b, w, how, accepted), epoch, w);
  }

  lemma OutstandingWithout(b: Book, b': Book, epoch: nat, w: int)
    requires w in b.unacked && b.unacked[w].probe.Probe? && b'.unacked == b.unacked - {w}
    ensures |Outstanding(b, epoch)| == |Outstanding(b', epoch)| + InHand(b.unacked[w].probe, epoch)
  {
    var before, after := Outstanding(b, epoch), Outstanding(b', epoch);
    if b.unacked[w].probe.epoch == epoch {
      assert before == after + {w};
    } else {
      assert before == after;
    }
  }

  /** A new worker's books balance, whatever the window has seen before. */
  lemma EmptyBalance(owner: TargetStats, log: seq<Callback>, epoch: nat)
    ensures var b := Empty(owner, epoch, Deficit(log));
            Sound(b, epoch) && Balanced(log, b, epoch, 0)
  {
    var b := Empty(owner, epoch, Deficit(log));
    assert forall w :: w !in Outstanding(b, epoch);
    assert forall a :: a !in Lost(b, epoch);
    assert Outstanding(b, epoch) == {} && Lost(b, epoch) == {};
  }

  /** What becomes of a reply that matches no outstanding probe but a history
      entry: the entry is about the latest probe sent with that number; a
      duplicate is counted only for an answered probe, a late reply only for one
      already counted as lost in this window. */
  ghost predicate Classified(b: Book, e: RecentEntry, epoch: nat, before: seq<Callback>, after: seq<Callback>)
  {
    && e.wireSeq in b.latest && b.latest[e.wireSeq] == e.attempt && e.attempt in b.settled
    && var s := b.settled[e.attempt];
       && !s.how.Dropped?
       && (s.epoch == epoch ==> s.accepted)
       && after == if s.epoch != epoch then before
                   else if s.how.Expired? then before + [LateReply] else before + [Duplicate]
  }

  /** What a callback does to what is in hand: a send puts one there, a settlement
      takes it away, and failures that never left do neither. */
  function Change(c: Callback): int
  {
    match c
    case Sent => 1
    case Success(_, _, _) => -1
    case Cancelled => -1
    case Failure(cause, _) => if OnWire(cause) then -1 else 0
    case _ => 0
  }

  lemma CallbackBalance(log: seq<Callback>, b: Book, epoch: nat, inHand: int, c: Callback)
    requires Balanced(log, b, epoch, inHand)
    ensures Balanced(log + [c], b, epoch, inHand + Change(c))
  {
    CountSnoc(log, c);
    assert (log + [c])[..|log|] == log;
  }

  lemma ResetBalance(b: Book, epoch: nat, later: nat)
    requires Sound(b, epoch) && epoch < later
    ensures Balanced([], b, later, 0)
  {
    LaterSound(b, epoch, later);
  }

  // ----- When nothing is overwritten -----

  /** Exactly with nothing overwritten the balance is the conservation law of the
      window: every probe counted as sent is received, cancelled, lost or
      outstanding, but for what earlier workers left. */
  lemma ConservationExactly(log: seq<Callback>, b: Book, epoch: nat)
    requires Balanced(log, b, epoch, 0)
    ensures Deficit(log) == |Outstanding(b, epoch)| + Carried(b, epoch)
            <==> forall a :: a in b.overwritten ==> b.overwritten[a] != epoch
  {
    var lost := Lost(b, epoch);
    if a :| a in b.overwritten && b.overwritten[a] == epoch {
      assert a in lost && |lost| > 0;
    } else {
      forall a ensures a !in lost {
      }
      assert lost == {};
    }
  }

  /** An entry is overwritten only by an attempt a whole number of 65,536 later. */
  lemma OverwriteGap(b: Book, epoch: nat, a: int)
    requires Sound(b, epoch) && (forall x :: x in b.sent ==> x < a)
    requires Wire(a) in b.unacked
    ensures a - b.unacked[Wire(a)].attempt >= WIRE_RANGE
  {
    var prior := b.unacked[Wire(a)].attempt;
    assert PendingSound(b, epoch, Wire(a)) && prior < a && prior % WIRE_RANGE == a % WIRE_RANGE;
    assert a - prior == (a / WIRE_RANGE - prior / WIRE_RANGE) * WIRE_RANGE;
  }
}
