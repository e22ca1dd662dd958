/** Which targets keep their measurements when the hosts file is reloaded
    (reconcileTargets in cmd/main/live_reload.go). */
module Reconciliation {
  import opened Arith
  import opened Sequences
  import opened Targets
  import opened TargetSpecs

  datatype Identity = Identity(host: string, ip: string)

  function IdentityOf(spec: TargetSpec): Identity
  {
    Identity(spec.host, spec.pinnedIP)
  }

  /** How many specs have that identity. */
  function Count(specs: seq<TargetSpec>, id: Identity): nat
  {
    if specs == [] then 0
    else Count(specs[..|specs|-1], id) + if IdentityOf(specs[|specs|-1]) == id then 1 else 0
  }

  /** How many specs before place i have the identity of the one there. */
  function Rank(specs: seq<TargetSpec>, i: nat): nat
    requires i < |specs|
  {
    Count(specs[..i], IdentityOf(specs[i]))
  }

  /** The old targets with that identity, in order. */
  function Queue(specs: seq<TargetSpec>, targets: seq<Target>, id: Identity): (q: seq<Target>)
    requires |specs| == |targets|
    ensures |q| == Count(specs, id)
  {
    if specs == [] then []
    else
      var n := |specs| - 1;
      Queue(specs[..n], targets[..n], id) + if IdentityOf(specs[n]) == id then [targets[n]] else []
  }

  lemma {:induction false} CountMonotone(specs: seq<TargetSpec>, n: nat, id: Identity)
    requires n <= |specs|
    ensures Count(specs[..n], id) <= Count(specs, id)
    decreases |specs|
  {
    if n == |specs| {
      assert specs[..n] == specs;
    } else {
      var p := specs[..|specs|-1];
      assert p[..n] == specs[..n];
      CountMonotone(p, n, id);
    }
  }

  lemma CountNext(specs: seq<TargetSpec>, i: nat, id: Identity)
    requires i < |specs|
    ensures Count(specs[..i+1], id) == Count(specs[..i], id) + if IdentityOf(specs[i]) == id then 1 else 0
  {
    assert specs[..i+1][..i] == specs[..i];
  }

  lemma QueueNext(specs: seq<TargetSpec>, targets: seq<Target>, i: nat, id: Identity)
    requires i < |specs| == |targets|
    ensures Queue(specs[..i+1], targets[..i+1], id)
         == Queue(specs[..i], targets[..i], id) + if IdentityOf(specs[i]) == id then [targets[i]] else []
  {
    assert specs[..i+1][..i] == specs[..i] && targets[..i+1][..i] == targets[..i];
  }

  lemma RankBelowCount(specs: seq<TargetSpec>, i: nat)
    requires i < |specs|
    ensures Rank(specs, i) < Count(specs, IdentityOf(specs[i]))
  {
    CountNext(specs, i, IdentityOf(specs[i]));
    CountMonotone(specs, i + 1, IdentityOf(specs[i]));
  }

  /** The place of the r-th spec with that identity. */
  lemma {:induction false} RankPlace(specs: seq<TargetSpec>, id: Identity, r: nat) returns (p: nat)
    requires r < Count(specs, id)
    ensures p < |specs| && IdentityOf(specs[p]) == id && Rank(specs, p) == r
  {
    var n := |specs| - 1;
    var front := specs[..n];
    if r < Count(front, id) {
      p := RankPlace(front, id, r);
      assert front[..p] == specs[..p];
    } else {
      p := n;
    }
  }

  /** Queues hold the targets at the places of their identity, by rank. */
  lemma {:induction false} QueueByRank(specs: seq<TargetSpec>, targets: seq<Target>, p: nat)
    requires p < |specs| == |targets|
    ensures var q := Queue(specs, targets, IdentityOf(specs[p]));
            Rank(specs, p) < |q| && q[Rank(specs, p)] == targets[p]
    decreases |specs|
  {
    var n := |specs| - 1;
    if p < n {
      QueueByRank(specs[..n], targets[..n], p);
      assert specs[..n][..p] == specs[..p];
    }
  }

  /** Two places of one identity: the earlier has the smaller rank. */
  lemma RanksIncrease(specs: seq<TargetSpec>, i: nat, j: nat)
    requires i < j < |specs| && IdentityOf(specs[i]) == IdentityOf(specs[j])
    ensures Rank(specs, i) < Rank(specs, j)
  {
    CountNext(specs, i, IdentityOf(specs[i]));
    assert specs[..j][..i+1] == specs[..i+1];
    CountMonotone(specs[..j], i + 1, IdentityOf(specs[i]));
  }

  // ----- The matching -----

  /** What place i of the new list gets: the old target of the same identity and
      rank, or, when there is none, a target not seen before. */
  ghost predicate Placed(oldSpecs: seq<TargetSpec>, oldTargets: seq<Target>, specs: seq<TargetSpec>, i: nat,
                         t: Target, next: Target)
    requires |oldSpecs| == |oldTargets| && i < |specs|
  {
    var q := Queue(oldSpecs, oldTargets, IdentityOf(specs[i]));
    if Rank(specs, i) < |q| then t == q[Rank(specs, i)] else t >= next
  }

  predicate Known(oldTargets: seq<Target>, next: Target)
  {
    Distinct(oldTargets) && forall t :: t in oldTargets ==> t < next
  }

  /** Where a reused target comes from. */
  lemma PlacedOrigin(oldSpecs: seq<TargetSpec>, oldTargets: seq<Target>, specs: seq<TargetSpec>, i: nat, t: Target,
                     next: Target)
    returns (p: nat)
    requires |oldSpecs| == |oldTargets| && i < |specs| && Known(oldTargets, next)
    requires Placed(oldSpecs, oldTargets, specs, i, t, next) && t < next
    ensures p < |oldSpecs| && oldTargets[p] == t && IdentityOf(oldSpecs[p]) == IdentityOf(specs[i])
            && Rank(oldSpecs, p) == Rank(specs, i)
  {
    p := RankPlace(oldSpecs, IdentityOf(specs[i]), Rank(specs, i));
    QueueByRank(oldSpecs, oldTargets, p);
  }

  /** No old target is used at two places, and within one identity the old order
      is kept. */
  lemma PlacedOnce(oldSpecs: seq<TargetSpec>, oldTargets: seq<Target>, specs: seq<TargetSpec>, i: nat, t: Target,
                   j: nat, u: Target, next: Target)
    returns (p: nat, q: nat)
    requires |oldSpecs| == |oldTargets| && i < j < |specs| && Known(oldTargets, next) && t < next && u < next
    requires Placed(oldSpecs, oldTargets, specs, i, t, next) && Placed(oldSpecs, oldTargets, specs, j, u, next)
    ensures p < |oldSpecs| && q < |oldSpecs| && oldTargets[p] == t && oldTargets[q] == u && t != u
    ensures IdentityOf(specs[i]) == IdentityOf(specs[j]) ==> p < q
  {
    p := PlacedOrigin(oldSpecs, oldTargets, specs, i, t, next);
    q := PlacedOrigin(oldSpecs, oldTargets, specs, j, u, next);
    if IdentityOf(specs[i]) == IdentityOf(specs[j]) {
      RanksIncrease(specs, i, j);
      if q < p {
        RanksIncrease(oldSpecs, q, p);
      }
    }
  }

  /** The outcome of a reload: which target each place gets, which places are new,
      which targets are reused. */
  ghost predicate Reconciled(oldSpecs: seq<TargetSpec>, oldTargets: seq<Target>, specs: seq<TargetSpec>, next: Target,
                             targets: seq<Target>, added: seq<int>, reused: set<Target>, next': Target)
    requires |oldSpecs| == |oldTargets|
  {
    && |targets| == |specs| && Distinct(targets) && next <= next'
    && (forall i :: 0 <= i < |specs| ==> Placed(oldSpecs, oldTargets, specs, i, targets[i], next) && targets[i] < next')
    && (forall t :: t in reused <==> t in targets && t < next)
    && (forall k :: 0 <= k < |added| ==> 0 <= added[k] < |targets| && targets[added[k]] >= next)
    && (forall k, l :: 0 <= k < l < |added| ==> added[k] < added[l])
    && (forall i :: 0 <= i < |targets| && targets[i] >= next ==> i in added)
    && |reused| + |added| == |specs| && reused <= Members(oldTargets)
  }

  /** An old target is reused exactly when fewer old ones of its identity come
      before it than the new list asks for. */
  lemma ReusedExactly(oldSpecs: seq<TargetSpec>, oldTargets: seq<Target>, specs: seq<TargetSpec>, next: Target,
                      targets: seq<Target>, added: seq<int>, reused: set<Target>, next': Target, p: nat)
    requires |oldSpecs| == |oldTargets| && p < |oldSpecs| && Known(oldTargets, next)
    requires Reconciled(oldSpecs, oldTargets, specs, next, targets, added, reused, next')
    ensures oldTargets[p] in reused <==> Rank(oldSpecs, p) < Count(specs, IdentityOf(oldSpecs[p]))
  {
    var t := oldTargets[p];
    if t in reused {
      var i :| 0 <= i < |targets| && targets[i] == t;
      var q := PlacedOrigin(oldSpecs, oldTargets, specs, i, t, next);
      assert q == p;
      RankBelowCount(specs, i);
    }
    if Rank(oldSpecs, p) < Count(specs, IdentityOf(oldSpecs[p])) {
      var i := RankPlace(specs, IdentityOf(oldSpecs[p]), Rank(oldSpecs, p));
      QueueByRank(oldSpecs, oldTargets, p);
      assert Placed(oldSpecs, oldTargets, specs, i, targets[i], next);
      assert targets[i] == t && t in oldTargets;
    }
  }

  /** A place of the new list gets an old target exactly when there is one left. */
  lemma PlaceReusesExactly(oldSpecs: seq<TargetSpec>, oldTargets: seq<Target>, specs: seq<TargetSpec>, next: Target,
                           targets: seq<Target>, added: seq<int>, reused: set<Target>, next': Target, i: nat)
    requires |oldSpecs| == |oldTargets| && i < |specs| && Known(oldTargets, next)
    requires Reconciled(oldSpecs, oldTargets, specs, next, targets, added, reused, next')
    ensures targets[i] in reused <==> Rank(specs, i) < Count(oldSpecs, IdentityOf(specs[i]))
  {
    var id := IdentityOf(specs[i]);
    assert Placed(oldSpecs, oldTargets, specs, i, targets[i], next);
    if Rank(specs, i) < Count(oldSpecs, id) {
      var p := RankPlace(oldSpecs, id, Rank(specs, i));
      QueueByRank(oldSpecs, oldTargets, p);
      assert targets[i] == oldTargets[p] && targets[i] in oldTargets;
    }
  }

  /** Places of that identity whose target is in the set. */
  function CountIn(specs: seq<TargetSpec>, targets: seq<Target>, id: Identity, keep: set<Target>): nat
    requires |specs| == |targets|
  {
    if specs == [] then 0
    else
      var n := |specs| - 1;
      CountIn(specs[..n], targets[..n], id, keep) + if IdentityOf(specs[n]) == id && targets[n] in keep then 1 else 0
  }

  /** For each identity as many targets are reused as both lists have. */
  lemma ReusedCount(oldSpecs: seq<TargetSpec>, oldTargets: seq<Target>, specs: seq<TargetSpec>, next: Target,
                    targets: seq<Target>, added: seq<int>, reused: set<Target>, next': Target, id: Identity)
    requires |oldSpecs| == |oldTargets| && Known(oldTargets, next)
    requires Reconciled(oldSpecs, oldTargets, specs, next, targets, added, reused, next')
    ensures CountIn(oldSpecs, oldTargets, id, reused) == Min(Count(oldSpecs, id), Count(specs, id))
    ensures CountIn(specs, targets, id, reused) == Min(Count(oldSpecs, id), Count(specs, id))
  {
    assert |targets| == |specs|;
    hide *;
    forall p | 0 <= p < |oldSpecs| && IdentityOf(oldSpecs[p]) == id
      ensures oldTargets[p] in reused <==> Rank(oldSpecs, p) < Count(specs, id)
    {
      ReusedExactly(oldSpecs, oldTargets, specs, next, targets, added, reused, next', p);
    }
    CountByRank(oldSpecs, oldTargets, id, reused, Count(specs, id));
    forall i | 0 <= i < |specs| && IdentityOf(specs[i]) == id
      ensures targets[i] in reused <==> Rank(specs, i) < Count(oldSpecs, id)
    {
      PlaceReusesExactly(oldSpecs, oldTargets, specs, next, targets, added, reused, next', i);
    }
    CountByRank(specs, targets, id, reused, Count(oldSpecs, id));
    MinSymmetric(Count(oldSpecs, id), Count(specs, id));
  }

  lemma MinSymmetric(a: int, b: int)
    ensures Min(a, b) == Min(b, a)
  {
  }

  /** Keeping just the ranks below n keeps n of them, or all if there are fewer. */
  lemma {:induction false} CountByRank(specs: seq<TargetSpec>, targets: seq<Target>, id: Identity, keep: set<Target>,
                                       n: nat)
    requires |specs| == |targets|
    requires forall p :: 0 <= p < |specs| && IdentityOf(specs[p]) == id ==> (targets[p] in keep <==> Rank(specs, p) < n)
    ensures CountIn(specs, targets, id, keep) == Min(Count(specs, id), n)
  {
    if specs != [] {
      var k := |specs| - 1;
      forall p | 0 <= p < k && IdentityOf(specs[p]) == id ensures Rank(specs[..k], p) == Rank(specs, p) {
        assert specs[..k][..p] == specs[..p];
      }
      CountByRank(specs[..k], targets[..k], id, keep, n);
    }
  }

  lemma {:induction false} MembersCounted(s: seq<Target>)
    requires Distinct(s)
    ensures |Members(s)| == |s|
  {
    if s != [] {
      var n := |s| - 1;
      MembersCounted(s[..n]);
      assert Members(s) == Members(s[..n]) + {s[n]};
    }
  }

  /** Every old target is either reused or removed, every new place reused or new. */
  lemma Conserved(oldSpecs: seq<TargetSpec>, oldTargets: seq<Target>, specs: seq<TargetSpec>, next: Target,
                  targets: seq<Target>, added: seq<int>, reused: set<Target>, next': Target)
    requires |oldSpecs| == |oldTargets| && Known(oldTargets, next)
    requires Reconciled(oldSpecs, oldTargets, specs, next, targets, added, reused, next')
    ensures |reused| + |added| == |specs| && |reused| + |Members(oldTargets) - reused| == |oldTargets|
  {
    MembersCounted(oldTargets);
    assert Members(oldTargets) == reused + (Members(oldTargets) - reused);
  }

  // ----- The method -----

  /** The queues: the first loop of reconcileTargets. */
  method Queues(specs: seq<TargetSpec>, targets: seq<Target>) returns (queues: map<Identity, seq<Target>>)
    requires |specs| == |targets|
    ensures forall id :: Waiting(queues, id) == Queue(specs, targets, id)
  {
    hide IdentityOf;
    queues := map[];
    for i := 0 to |specs|
      invariant forall id :: Waiting(queues, id) == Queue(specs[..i], targets[..i], id)
    {
      var id := IdentityOf(specs[i]);
      hide Waiting;
      ghost var before := queues;
      queues := queues[id := Waiting(queues, id) + [targets[i]]];
      forall x ensures Waiting(queues, x) == Queue(specs[..i+1], targets[..i+1], x) {
        WaitingNext(before, specs, targets, i, x);
      }
    }
    assert specs[..|specs|] == specs && targets[..|targets|] == targets;
  }

  /** Appending target i to the queue of its identity. */
  lemma WaitingNext(queues: map<Identity, seq<Target>>, specs: seq<TargetSpec>, targets: seq<Target>, i: nat,
                    x: Identity)
    requires i < |specs| == |targets|
    requires forall id :: Waiting(queues, id) == Queue(specs[..i], targets[..i], id)
    ensures var id := IdentityOf(specs[i]);
            Waiting(queues[id := Waiting(queues, id) + [targets[i]]], x) == Queue(specs[..i+1], targets[..i+1], x)
  {
    QueueNext(specs, targets, i, x);
    hide Queue;
    assert Waiting(queues, x) == Queue(specs[..i], targets[..i], x);
  }

  /** old[key], empty for a missing key. */
  function Waiting(queues: map<Identity, seq<Target>>, id: Identity): seq<Target>
  {
    if id in queues then queues[id] else []
  }

  /** After i places, each queue has given its first targets away. */
  ghost predicate Consumed(queues: map<Identity, seq<Target>>, oldSpecs: seq<TargetSpec>, oldTargets: seq<Target>,
                           done: seq<TargetSpec>)
    requires |oldSpecs| == |oldTargets|
  {
    forall id :: Waiting(queues, id) == Rest(Queue(oldSpecs, oldTargets, id), Count(done, id))
  }

  function Rest(q: seq<Target>, n: nat): seq<Target>
  {
    if n <= |q| then q[n..] else []
  }

  /** Progress of the second loop after i places. */
  ghost predicate Partial(oldSpecs: seq<TargetSpec>, oldTargets: seq<Target>, specs: seq<TargetSpec>, i: nat,
                          next: Target,
                          targets: seq<Target>, added: seq<int>, reused: set<Target>, next': Target)
    requires |oldSpecs| == |oldTargets| && i <= |specs|
  {
    && |targets| == i && next <= next' && |reused| + |added| == i && Distinct(targets)
    && (forall j :: 0 <= j < i ==> Placed(oldSpecs, oldTargets, specs, j, targets[j], next) && targets[j] < next')
    && (forall t :: t in reused <==> t in targets && t < next)
    && (forall k :: 0 <= k < |added| ==> 0 <= added[k] < i && targets[added[k]] >= next)
    && (forall k, l :: 0 <= k < l < |added| ==> added[k] < added[l])
    && (forall j :: 0 <= j < i && targets[j] >= next ==> j in added)
  }

  lemma PartialReuses(oldSpecs: seq<TargetSpec>, oldTargets: seq<Target>, specs: seq<TargetSpec>, i: nat, next: Target,
                      targets: seq<Target>, added: seq<int>, reused: set<Target>, next': Target, t: Target)
    requires |oldSpecs| == |oldTargets| && i < |specs| && Known(oldTargets, next)
    requires Partial(oldSpecs, oldTargets, specs, i, next, targets, added, reused, next')
    requires t < next && Placed(oldSpecs, oldTargets, specs, i, t, next)
    ensures Partial(oldSpecs, oldTargets, specs, i + 1, next, targets + [t], added, reused + {t}, next')
  {
    hide Placed, Known;
    NotYetUsed(oldSpecs, oldTargets, specs, i, next, targets, added, reused, next', t);
    assert t !in reused;
  }

  lemma NotYetUsed(oldSpecs: seq<TargetSpec>, oldTargets: seq<Target>, specs: seq<TargetSpec>, i: nat, next: Target,
                   targets: seq<Target>, added: seq<int>, reused: set<Target>, next': Target, t: Target)
    requires |oldSpecs| == |oldTargets| && i < |specs| && Known(oldTargets, next)
    requires Partial(oldSpecs, oldTargets, specs, i, next, targets, added, reused, next')
    requires t < next && Placed(oldSpecs, oldTargets, specs, i, t, next)
    ensures t !in targets
  {
    forall j | 0 <= j < i ensures targets[j] != t {
      assert Placed(oldSpecs, oldTargets, specs, j, targets[j], next);
      hide Placed;
      if targets[j] < next {
        var p, q := PlacedOnce(oldSpecs, oldTargets, specs, j, targets[j], i, t, next);
      }
    }
  }

  lemma PartialAdds(oldSpecs: seq<TargetSpec>, oldTargets: seq<Target>, specs: seq<TargetSpec>, i: nat, next: Target,
                    targets: seq<Target>, added: seq<int>, reused: set<Target>, next': Target)
    requires |oldSpecs| == |oldTargets| && i < |specs|
    requires Partial(oldSpecs, oldTargets, specs, i, next, targets, added, reused, next')
    requires Placed(oldSpecs, oldTargets, specs, i, next', next)
    ensures Partial(oldSpecs, oldTargets, specs, i + 1, next, targets + [next'], added + [i], reused, next' + 1)
  {
    hide Placed;
    var ts, places := targets + [next'], added + [i];
    forall j | 0 <= j < i + 1 && ts[j] >= next ensures j in places {
      if j == i {
        assert places[|added|] == i;
      }
    }
  }

  /** The queue at place i starts with the old target of that rank. */
  lemma ConsumedHead(queues: map<Identity, seq<Target>>, oldSpecs: seq<TargetSpec>, oldTargets: seq<Target>,
                     specs: seq<TargetSpec>, i: nat, next: Target)
    requires |oldSpecs| == |oldTargets| && i < |specs| && Known(oldTargets, next)
    requires Consumed(queues, oldSpecs, oldTargets, specs[..i])
    ensures var w := Waiting(queues, IdentityOf(specs[i]));
            if w == [] then forall t :: t >= next ==> Placed(oldSpecs, oldTargets, specs, i, t, next)
            else w[0] < next && Placed(oldSpecs, oldTargets, specs, i, w[0], next)
  {
    var id := IdentityOf(specs[i]);
    var q := Queue(oldSpecs, oldTargets, id);
    if Rank(specs, i) < |q| {
      var p := RankPlace(oldSpecs, id, Rank(specs, i));
      QueueByRank(oldSpecs, oldTargets, p);
      assert oldTargets[p] in oldTargets;
    }
  }

  lemma ConsumedNext(queues: map<Identity, seq<Target>>, oldSpecs: seq<TargetSpec>, oldTargets: seq<Target>,
                     specs: seq<TargetSpec>, i: nat)
    requires |oldSpecs| == |oldTargets| && i < |specs| && Consumed(queues, oldSpecs, oldTargets, specs[..i])
    ensures var id := IdentityOf(specs[i]);
            var w := Waiting(queues, id);
            Consumed(if w == [] then queues else queues[id := w[1..]], oldSpecs, oldTargets, specs[..i+1])
  {
    var id := IdentityOf(specs[i]);
    var w := Waiting(queues, id);
    var queues' := if w == [] then queues else queues[id := w[1..]];
    forall x ensures Waiting(queues', x) == Rest(Queue(oldSpecs, oldTargets, x), Count(specs[..i+1], x)) {
      CountNext(specs, i, x);
      assert Waiting(queues, x) == Rest(Queue(oldSpecs, oldTargets, x), Count(specs[..i], x));
    }
  }

  method Reconcile(oldSpecs: seq<TargetSpec>, oldTargets: seq<Target>, specs: seq<TargetSpec>, next: Target)
    returns (targets: seq<Target>, added: seq<int>, reused: set<Target>, next': Target)
    requires |oldSpecs| == |oldTargets| && Known(oldTargets, next)
    ensures Reconciled(oldSpecs, oldTargets, specs, next, targets, added, reused, next')
  {
    hide Queue, Count, Placed, Partial, Consumed, Known;
    var queues := Queues(oldSpecs, oldTargets);
    targets, added, reused, next' := [], [], {}, next;
    Started(queues, oldSpecs, oldTargets, specs, next);
    for i := 0 to |specs|
      invariant Partial(oldSpecs, oldTargets, specs, i, next, targets, added, reused, next')
      invariant Consumed(queues, oldSpecs, oldTargets, specs[..i])
    {
      var id := IdentityOf(specs[i]);
      ConsumedHead(queues, oldSpecs, oldTargets, specs, i, next);
      ConsumedNext(queues, oldSpecs, oldTargets, specs, i);
      PartialNext(oldSpecs, oldTargets, specs, i, next, targets, added, reused, next');
      if |Waiting(queues, id)| > 0 {
        var entries := queues[id];
        PartialReuses(oldSpecs, oldTargets, specs, i, next, targets, added, reused, next', entries[0]);
        targets := targets + [entries[0]];
        queues := queues[id := entries[1..]];
        reused := reused + {entries[0]};
      } else {
        PartialAdds(oldSpecs, oldTargets, specs, i, next, targets, added, reused, next');
        targets, added, next' := targets + [next'], added + [i], next' + 1;
      }
    }
    Finished(oldSpecs, oldTargets, specs, next, targets, added, reused, next');
  }

  lemma PartialNext(oldSpecs: seq<TargetSpec>, oldTargets: seq<Target>, specs: seq<TargetSpec>, i: nat, next: Target,
                    targets: seq<Target>, added: seq<int>, reused: set<Target>, next': Target)
    requires |oldSpecs| == |oldTargets| && i < |specs|
    requires Partial(oldSpecs, oldTargets, specs, i, next, targets, added, reused, next')
    ensures next <= next'
  {
  }

  lemma Started(queues: map<Identity, seq<Target>>, oldSpecs: seq<TargetSpec>, oldTargets: seq<Target>,
                specs: seq<TargetSpec>, next: Target)
    requires |oldSpecs| == |oldTargets| && forall id :: Waiting(queues, id) == Queue(oldSpecs, oldTargets, id)
    ensures Partial(oldSpecs, oldTargets, specs, 0, next, [], [], {}, next)
    ensures Consumed(queues, oldSpecs, oldTargets, specs[..0])
  {
  }

  lemma Finished(oldSpecs: seq<TargetSpec>, oldTargets: seq<Target>, specs: seq<TargetSpec>, next: Target,
                 targets: seq<Target>, added: seq<int>, reused: set<Target>, next': Target)
    requires |oldSpecs| == |oldTargets| && Known(oldTargets, next)
    requires Partial(oldSpecs, oldTargets, specs, |specs|, next, targets, added, reused, next')
    ensures Reconciled(oldSpecs, oldTargets, specs, next, targets, added, reused, next')
  {
    forall t | t in reused ensures t in oldTargets {
      var i :| 0 <= i < |targets| && targets[i] == t;
      var p := PlacedOrigin(oldSpecs, oldTargets, specs, i, t, next);
    }
  }
}
