/** recentSeqHistory (internal/pinger/worker.go): how the last settled sequence
    numbers were settled, in a list of bounded length with an index into it. */
module RecentSequences {
  import opened Options
  import opened Sets
  import opened TargetStatistics

  const RECENT_CAP := 512

  datatype Resolution = Acked | TimedOut

  /** attempt is the unbounded number of the probe; the source keeps only its 16
      wire bits, here it says which probe an entry is about. */
  datatype RecentEntry = RecentEntry(wireSeq: int, kind: Resolution, probe: Probe, attempt: int)

  /** The entries without those for w. */
  function Without(es: seq<RecentEntry>, w: int): (r: seq<RecentEntry>)
    ensures |r| <= |es|
  {
    if es == [] then []
    else Without(es[..|es|-1], w) + if es[|es|-1].wireSeq == w then [] else [es[|es|-1]]
  }

  function Newest(es: seq<RecentEntry>, n: nat): seq<RecentEntry>
  {
    if |es| <= n then es else es[|es|-n..]
  }

  /** The list after recording e: one entry per number, newest last, bounded. */
  function Recorded(es: seq<RecentEntry>, e: RecentEntry): seq<RecentEntry>
  {
    Newest(Without(es, e.wireSeq) + [e], RECENT_CAP)
  }

  predicate UniqueKeys(es: seq<RecentEntry>)
  {
    forall i, j :: 0 <= i < j < |es| ==> es[i].wireSeq != es[j].wireSeq
  }

  /** Where an entry that stays came from. */
  lemma {:induction false} WithoutAt(es: seq<RecentEntry>, w: int, i: nat) returns (k: nat)
    requires i < |Without(es, w)|
    ensures i <= k < |es| && es[k] == Without(es, w)[i] && es[k].wireSeq != w
  {
    var p := es[..|es|-1];
    if i < |Without(p, w)| {
      k := WithoutAt(p, w, i);
    } else {
      k := |es| - 1;
    }
  }

  lemma {:induction false} WithoutUnique(es: seq<RecentEntry>, w: int)
    requires UniqueKeys(es)
    ensures UniqueKeys(Without(es, w))
  {
    if es != [] {
      var p, r := es[..|es|-1], Without(es[..|es|-1], w);
      WithoutUnique(p, w);
      forall i | 0 <= i < |r| ensures r[i].wireSeq != es[|es|-1].wireSeq {
        var k := WithoutAt(p, w, i);
      }
    }
  }

  lemma {:induction false} WithoutAbsent(es: seq<RecentEntry>, w: int)
    requires forall i :: 0 <= i < |es| ==> es[i].wireSeq != w
    ensures Without(es, w) == es
  {
    if es != [] {
      WithoutAbsent(es[..|es|-1], w);
      assert es == es[..|es|-1] + [es[|es|-1]];
    }
  }

  /** Removing the one entry for w leaves the rest in order. */
  lemma {:induction false} WithoutOne(es: seq<RecentEntry>, i: nat)
    requires UniqueKeys(es) && i < |es|
    ensures Without(es, es[i].wireSeq) == es[..i] + es[i+1..]
  {
    var w, n := es[i].wireSeq, |es| - 1;
    var p := es[..n];
    if i == n {
      WithoutAbsent(p, w);
      assert es[i+1..] == [];
    } else {
      WithoutOne(p, i);
      assert p[..i] == es[..i] && p[i+1..] + [es[n]] == es[i+1..];
      assert es[n].wireSeq != w;
    }
  }

  /** Recording keeps one entry per number, puts the new one last, and keeps only
      entries that were there. */
  lemma RecordedMembers(es: seq<RecentEntry>, e: RecentEntry)
    requires UniqueKeys(es)
    ensures UniqueKeys(Recorded(es, e)) && |Recorded(es, e)| <= RECENT_CAP
    ensures var r := Recorded(es, e); r[|r|-1] == e
    ensures forall i :: 0 <= i < |Recorded(es, e)| ==> FromRecording(es, e, Recorded(es, e)[i])
  {
    var kept := Without(es, e.wireSeq);
    WithoutUnique(es, e.wireSeq);
    forall i | 0 <= i < |kept| ensures kept[i].wireSeq != e.wireSeq && FromRecording(es, e, kept[i]) {
      var k := WithoutAt(es, e.wireSeq, i);
    }
    hide Without;
    NewestOfUnique(kept, e);
    var r := Recorded(es, e);
    forall i | 0 <= i < |r| ensures FromRecording(es, e, r[i]) {
      var at := |kept| + 1 - |r| + i;
      assert r[i] == (kept + [e])[at];
    }
  }

  ghost predicate FromRecording(es: seq<RecentEntry>, e: RecentEntry, x: RecentEntry)
  {
    x == e || (x in es && x.wireSeq != e.wireSeq)
  }

  lemma NewestOfUnique(kept: seq<RecentEntry>, e: RecentEntry)
    requires UniqueKeys(kept) && forall i :: 0 <= i < |kept| ==> kept[i].wireSeq != e.wireSeq
    ensures UniqueKeys(Newest(kept + [e], RECENT_CAP))
  {
  }

  // ----- Eviction -----

  function RecordAll(es: seq<RecentEntry>, rs: seq<RecentEntry>): seq<RecentEntry>
  {
    if rs == [] then es else Recorded(RecordAll(es, rs[..|rs|-1]), rs[|rs|-1])
  }

  function Keys(rs: seq<RecentEntry>): set<int>
  {
    set i | 0 <= i < |rs| :: rs[i].wireSeq
  }

  /** The numbers that stand behind w, which is to say were recorded after it. */
  function Behind(es: seq<RecentEntry>, w: int): set<int>
  {
    if es == [] || es[|es|-1].wireSeq == w then {}
    else Behind(es[..|es|-1], w) + {es[|es|-1].wireSeq}
  }

  predicate Holds(es: seq<RecentEntry>, w: int)
  {
    exists i :: 0 <= i < |es| && es[i].wireSeq == w
  }

  /** Once RECENT_CAP other numbers have been recorded, a number recorded before
      them and not since is gone: nothing of it is left to misjudge a reply. */
  lemma EvictedByNewer(es: seq<RecentEntry>, e: RecentEntry, rs: seq<RecentEntry>)
    requires !Holds(rs, e.wireSeq)
    ensures Holds(RecordAll(Recorded(es, e), rs), e.wireSeq) ==> |Keys(rs)| < RECENT_CAP
  {
    var out := RecordAll(Recorded(es, e), rs);
    if Holds(out, e.wireSeq) {
      NewerBehind(es, e, rs);
      BehindBound(out, e.wireSeq);
      SubsetSize(Keys(rs), Behind(out, e.wireSeq));
    }
  }

  lemma {:induction false} NewerBehind(es: seq<RecentEntry>, e: RecentEntry, rs: seq<RecentEntry>)
    requires !Holds(rs, e.wireSeq)
    ensures var out := RecordAll(Recorded(es, e), rs);
            |out| <= RECENT_CAP && (Holds(out, e.wireSeq) ==> Keys(rs) <= Behind(out, e.wireSeq))
  {
    if rs != [] {
      var p, r := rs[..|rs|-1], rs[|rs|-1];
      assert forall k :: 0 <= k < |p| ==> p[k] == rs[k];
      NewerBehind(es, e, p);
      var before := RecordAll(Recorded(es, e), p);
      if Holds(Recorded(before, r), e.wireSeq) {
        RecordedBehind(before, r, e.wireSeq);
        assert Keys(rs) <= Keys(p) + {r.wireSeq};
      }
    }
  }

  /** What stood behind w before still does, and the new number does too. */
  lemma RecordedBehind(es: seq<RecentEntry>, r: RecentEntry, w: int)
    requires r.wireSeq != w && Holds(Recorded(es, r), w)
    ensures Holds(es, w) && Behind(es, w) + {r.wireSeq} <= Behind(Recorded(es, r), w)
  {
    hide Behind, Holds, Without;
    var kept := Without(es, r.wireSeq);
    var all, out := kept + [r], Recorded(es, r);
    var drop := |all| - |out|;
    assert out == all[drop..];
    HoldsDrop(all, drop, w);
    BehindDrop(all, drop, w);
    BehindSnoc(kept, r, w);
    BehindWithout(es, r.wireSeq, w);
  }

  lemma HoldsDrop(es: seq<RecentEntry>, k: nat, w: int)
    requires k <= |es| && Holds(es[k..], w)
    ensures Holds(es, w)
  {
    var i :| 0 <= i < |es[k..]| && es[k..][i].wireSeq == w;
    assert es[k + i].wireSeq == w;
  }

  /** One more entry at the end of the list. */
  lemma BehindSnoc(es: seq<RecentEntry>, e: RecentEntry, w: int)
    ensures Behind(es + [e], w) == if e.wireSeq == w then {} else Behind(es, w) + {e.wireSeq}
    ensures Holds(es + [e], w) <==> Holds(es, w) || e.wireSeq == w
  {
    var all := es + [e];
    assert all[..|es|] == es && all[|es|] == e;
    assert forall k :: 0 <= k < |es| ==> all[k] == es[k];
  }

  lemma {:induction false} BehindWithout(es: seq<RecentEntry>, v: int, w: int)
    requires v != w
    ensures Behind(Without(es, v), w) == Behind(es, w) - {v}
    ensures Holds(Without(es, v), w) ==> Holds(es, w)
  {
    hide Holds;
    if es != [] {
      hide Behind;
      var p, last := es[..|es|-1], es[|es|-1];
      assert es == p + [last];
      BehindWithout(p, v, w);
      BehindSnoc(p, last, w);
      if last.wireSeq == v {
        assert Without(es, v) == Without(p, v);
      } else {
        assert Without(es, v) == Without(p, v) + [last];
        BehindSnoc(Without(p, v), last, w);
      }
    }
  }

  lemma {:induction false} BehindDrop(es: seq<RecentEntry>, k: nat, w: int)
    requires k <= |es| && Holds(es[k..], w)
    ensures Behind(es[k..], w) == Behind(es, w)
  {
    var t := es[k..];
    if t[|t|-1].wireSeq != w {
      var p := es[..|es|-1];
      assert t[..|t|-1] == p[k..];
      var i :| 0 <= i < |t| && t[i].wireSeq == w;
      assert p[k..][i].wireSeq == w;
      BehindDrop(p, k, w);
    }
  }

  lemma {:induction false} BehindBound(es: seq<RecentEntry>, w: int)
    ensures |Behind(es, w)| <= |es|
    ensures Holds(es, w) ==> |Behind(es, w)| < |es|
  {
    if es != [] && es[|es|-1].wireSeq != w {
      var p := es[..|es|-1];
      BehindBound(p, w);
      if Holds(es, w) {
        var i :| 0 <= i < |es| && es[i].wireSeq == w;
        assert p[i].wireSeq == w;
      }
    }
  }

  // ----- The list and its index -----

  /** A node of the source's linked list; the index points at nodes. */
  class Element {
    const value: RecentEntry

    constructor (value: RecentEntry)
      ensures this.value == value
    {
      this.value := value;
    }
  }

  /** List and index are in bijection, one node per number. */
  ghost predicate InBijection(order: seq<Element>, index: map<int, Element>)
  {
    && (forall i, j :: 0 <= i < j < |order| ==> order[i] != order[j])
    && (forall i :: 0 <= i < |order| ==> order[i].value.wireSeq in index && index[order[i].value.wireSeq] == order[i])
    && (forall w :: w in index ==> index[w] in order && index[w].value.wireSeq == w)
  }

  /** Without the front node and its index entry they still are. */
  lemma FrontRemoved(order: seq<Element>, index: map<int, Element>)
    requires InBijection(order, index) && |order| > 0
    ensures order[0].value.wireSeq in index && index[order[0].value.wireSeq] == order[0]
    ensures InBijection(order[1..], index - {order[0].value.wireSeq})
  {
    var index' := index - {order[0].value.wireSeq};
    forall w | w in index' ensures index'[w] in order[1..] {
      var i :| 0 <= i < |order| && order[i] == index[w];
      assert order[1..][i-1] == index[w];
    }
  }

  class RecentSeqHistory {
    var order: seq<Element>
    var index: map<int, Element>

    ghost predicate Valid()
      reads this
    {
      && |order| <= RECENT_CAP
      && Linked()
    }

    ghost predicate Linked()
      reads this
    {
      InBijection(order, index)
    }

    function Entries(): (es: seq<RecentEntry>)
      reads this
      ensures |es| == |order| && forall i :: 0 <= i < |es| ==> es[i] == order[i].value
    {
      seq(|order|, i requires 0 <= i < |order| reads this => order[i].value)
    }

    constructor ()
      ensures Valid() && Entries() == []
    {
      order, index := [], map[];
    }

    lemma KeysUnique()
      requires Linked()
      ensures UniqueKeys(Entries())
    {
    }

    /** list.Remove. */
    method Remove(el: Element) returns (ghost at: nat)
      requires el in order && forall i, j :: 0 <= i < j < |order| ==> order[i] != order[j]
      modifies `order
      ensures at < |old(order)| && old(order)[at] == el
      ensures order == old(order)[..at] + old(order)[at+1..]
    {
      var i := 0;
      while order[i] != el
        invariant i < |order| && forall k :: 0 <= k < i ==> order[k] != el
        decreases |order| - i
      {
        i := i + 1;
      }
      at := i;
      order := order[..i] + order[i+1..];
    }

    method Record(wireSeq: int, kind: Resolution, probe: Probe, attempt: int)
      requires Valid()
      modifies this
      ensures Valid()
      ensures Entries() == Recorded(old(Entries()), RecentEntry(wireSeq, kind, probe, attempt))
    {
      hide Without, Newest;
      MoveToBack(RecentEntry(wireSeq, kind, probe, attempt));
      EvictOverCap();
    }

    /** An entry already there makes way for the new one. */
    method MoveToBack(e: RecentEntry)
      requires Valid()
      modifies this
      ensures Linked() && |order| <= RECENT_CAP + 1
      ensures Entries() == Without(old(Entries()), e.wireSeq) + [e]
    {
      hide Without;
      ghost var before := Entries();
      KeysUnique();
      var el := new Element(e);
      if e.wireSeq in index {
        ghost var at := Remove(index[e.wireSeq]);
        WithoutOne(before, at);
      } else {
        WithoutAbsent(before, e.wireSeq);
      }
      PushBack(el, Without(before, e.wireSeq));
    }

    /** The oldest nodes go while the list is over its cap. */
    method EvictOverCap()
      requires Linked() && |order| <= RECENT_CAP + 1
      modifies this
      ensures Valid() && Entries() == Newest(old(Entries()), RECENT_CAP)
    {
      ghost var all := Entries();
      while |order| > RECENT_CAP
        invariant Linked() && |order| <= RECENT_CAP + 1
        invariant Entries() == if |order| > RECENT_CAP then all else Newest(all, RECENT_CAP)
      {
        EvictOldest();
      }
    }

    /** The new node, last in the list and indexed. */
    method PushBack(el: Element, ghost kept: seq<RecentEntry>)
      requires Entries() == kept && el !in order
      requires forall i, j :: 0 <= i < j < |order| ==> order[i].value.wireSeq != order[j].value.wireSeq
      requires forall i :: 0 <= i < |order| ==> order[i].value.wireSeq != el.value.wireSeq
      requires forall i :: 0 <= i < |order| ==>
                 order[i].value.wireSeq in index && index[order[i].value.wireSeq] == order[i]
      requires forall w :: w in index && w != el.value.wireSeq ==> index[w] in order && index[w].value.wireSeq == w
      modifies this
      ensures Linked() && |order| == |old(order)| + 1 && Entries() == kept + [el.value]
    {
      ghost var before := order;
      order := order + [el];
      index := index[el.value.wireSeq := el];
      assert order[|before|] == el;
      forall w | w in index ensures index[w] in order {
        if w != el.value.wireSeq {
          assert index[w] in before;
        }
      }
    }

    /** The front node, and its index entry if that is still it. */
    method EvictOldest()
      requires Linked() && |order| > 0
      modifies this
      ensures Linked() && |order| == |old(order)| - 1 && Entries() == old(Entries())[1..]
    {
      FrontRemoved(order, index);
      hide InBijection;
      var oldest := order[0];
      order := order[1..];
      var key := oldest.value.wireSeq;
      if key in index && index[key] == oldest {
        index := index - {key};
      }
    }

    method Lookup(wireSeq: int) returns (r: Option<RecentEntry>)
      requires Valid()
      ensures r.Some? ==> r.value in Entries() && r.value.wireSeq == wireSeq
      ensures r.None? ==> forall e :: e in Entries() ==> e.wireSeq != wireSeq
    {
      if wireSeq !in index {
        return None;
      }
      assert index[wireSeq] in order;
      ghost var i :| 0 <= i < |order| && order[i] == index[wireSeq];
      assert Entries()[i] == index[wireSeq].value;
      r := Some(index[wireSeq].value);
    }
  }
}
