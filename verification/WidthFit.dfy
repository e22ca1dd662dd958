/** Column fitting for the terminal table (internal/ui/width_fit.go).

    The source hands out single columns of width round-robin.  The specification
    does not mention rounds: it says that the result is a "water level".  Every
    column has moved the same number of steps, except that the columns first in
    priority order may have moved one more, and that a column whose bound is
    nearer than the level stops there. */
module WidthFit {
  import opened Arith
  import opened Sequences

  lemma {:induction false} SumUpdate(s: seq<int>, i: nat, v: int)
    requires i < |s|
    ensures Sum(s[i := v]) == Sum(s) - s[i] + v
  {
    var t := s[i := v];
    if i == |s| - 1 {
      assert t[..|t|-1] == s[..|s|-1];
    } else {
      assert t[..|t|-1] == s[..|s|-1][i := v];
      SumUpdate(s[..|s|-1], i, v);
    }
  }

  lemma {:induction false} SumMonotone(s: seq<int>, t: seq<int>)
    requires |s| == |t|
    requires forall i :: 0 <= i < |s| ==> s[i] <= t[i]
    ensures Sum(s) <= Sum(t)
    ensures Sum(s) == Sum(t) ==> s == t
  {
    if |s| > 0 {
      SumMonotone(s[..|s|-1], t[..|t|-1]);
      if Sum(s) == Sum(t) {
        assert s == s[..|s|-1] + [s[|s|-1]];
        assert t == t[..|t|-1] + [t[|t|-1]];
      }
    }
  }

  /** Column i is visited before column j. */
  predicate Before(priority: seq<int>, i: nat, j: nat)
    requires i < |priority| && j < |priority|
  {
    priority[i] < priority[j] || (priority[i] == priority[j] && i < j)
  }

  /** order lists every index once, by ascending priority, ties by index. */
  ghost predicate StableOrder(order: seq<nat>, priority: seq<int>)
  {
    && |order| == |priority|
    && (forall k :: 0 <= k < |order| ==> order[k] < |priority|)
    && (forall a, b :: 0 <= a < b < |order| ==> Before(priority, order[a], order[b]))
    && (forall i :: 0 <= i < |priority| ==> i in order)
  }

  /** The visiting order of fitWidthsToAvailable is a function of the priorities:
      two sequences that are both stable orders are the same sequence. */
  lemma {:induction false} StableOrderUnique(p: seq<nat>, q: seq<nat>, priority: seq<int>)
    requires StableOrder(p, priority) && StableOrder(q, priority)
    ensures p == q
  {
    StableOrderPrefix(p, q, priority, |p|);
    assert p == p[..|p|] == q[..|p|] == q;
  }

  lemma {:induction false} StableOrderPrefix(p: seq<nat>, q: seq<nat>, priority: seq<int>, n: nat)
    requires StableOrder(p, priority) && StableOrder(q, priority)
    requires n <= |p|
    ensures p[..n] == q[..n]
  {
    if n > 0 {
      StableOrderPrefix(p, q, priority, n - 1);
      var k := n - 1;
      if p[k] != q[k] {
        FirstUnseenIsNext(p, q, priority, k);
        FirstUnseenIsNext(q, p, priority, k);
      }
      assert p[..n] == p[..k] + [p[k]];
      assert q[..n] == q[..k] + [q[k]];
    }
  }

  lemma FirstUnseenIsNext(p: seq<nat>, q: seq<nat>, priority: seq<int>, k: nat)
    requires StableOrder(p, priority) && StableOrder(q, priority)
    requires k < |p| && p[..k] == q[..k] && p[k] != q[k]
    ensures Before(priority, q[k], p[k])
  {
    assert p[k] in q;
    var j :| 0 <= j < |q| && q[j] == p[k];
    assert forall a :: 0 <= a < k ==> p[a] == p[..k][a] == q[..k][a] == q[a];
    assert forall a :: 0 <= a < k ==> Before(priority, p[a], p[k]);
  }

  /** indicesByPriority.  sort.SliceStable itself is library code; any stable
      sort yields this sequence (StableOrderUnique), here by insertion. */
  method IndicesByPriority(priority: seq<int>) returns (order: seq<nat>)
    ensures StableOrder(order, priority)
  {
    order := [];
    for i := 0 to |priority|
      invariant Ordered(priority, order, i)
    {
      var k := i;
      while k > 0 && priority[i] < priority[order[k-1]]
        invariant 0 <= k <= i
        invariant forall a :: k <= a < i ==> priority[i] < priority[order[a]]
      {
        k := k - 1;
      }
      InsertOrdered(priority, order, i, k);
      order := order[..k] + [i] + order[k..];
    }
  }

  /** The first i places, in order of priority. */
  ghost predicate Ordered(priority: seq<int>, order: seq<nat>, i: nat)
  {
    && |order| == i <= |priority|
    && (forall k :: 0 <= k < i ==> order[k] < i)
    && (forall a, b :: 0 <= a < b < i ==> Before(priority, order[a], order[b]))
    && (forall j :: 0 <= j < i ==> j in order)
  }

  lemma InsertOrdered(priority: seq<int>, order: seq<nat>, i: nat, k: nat)
    requires Ordered(priority, order, i) && i < |priority| && k <= i
    requires forall a :: k <= a < i ==> priority[i] < priority[order[a]]
    requires k > 0 ==> priority[order[k-1]] <= priority[i]
    ensures Ordered(priority, order[..k] + [i] + order[k..], i + 1)
  {
    var after := order[..k] + [i] + order[k..];
    assert forall a :: 0 <= a < k ==> k > 0 && (a == k - 1 || Before(priority, order[a], order[k-1]));
    assert after[k] == i;
    forall j | 0 <= j < i + 1 ensures j in after {
      if j < i {
        assert j in order;
        var a :| 0 <= a < i && order[a] == j;
        assert after[if a < k then a else a + 1] == j;
      }
    }
    forall a, b | 0 <= a < b < i + 1 ensures Before(priority, after[a], after[b]) {
      InsertedBefore(priority, order, i, k, a, b);
    }
  }

  lemma InsertedBefore(priority: seq<int>, order: seq<nat>, i: nat, k: nat, a: nat, b: nat)
    requires Ordered(priority, order, i) && i < |priority| && k <= i && a < b < i + 1
    requires forall x :: k <= x < i ==> priority[i] < priority[order[x]]
    requires forall x :: 0 <= x < k ==> x == k - 1 || Before(priority, order[x], order[k-1])
    requires k > 0 ==> priority[order[k-1]] <= priority[i]
    ensures var after := order[..k] + [i] + order[k..];
            after[a] < |priority| && after[b] < |priority| && Before(priority, after[a], after[b])
  {
    var after := order[..k] + [i] + order[k..];
    var x, y := if a < k then a else a - 1, if b < k then b else b - 1;
    assert a != k ==> after[a] == order[x];
    assert b != k ==> after[b] == order[y];
  }

  /** Distance from a to b in the direction of travel: up when growing, down
      when shrinking. */
  function Gap(grow: bool, a: int, b: int): int
  {
    if grow then b - a else a - b
  }

  /** How far a column with the given room has moved when the level is `level`;
      a served column already had its turn in the unfinished round. */
  function Steps(room: int, level: nat, served: bool): int
  {
    Min(room, if served then level + 1 else level)
  }

  /** Every column moved from `from` towards `bound` to the common level; the
      first `served` columns of order are one step ahead. */
  ghost predicate Levelled(order: seq<nat>, from: seq<int>, bound: seq<int>, grow: bool,
                           widths: seq<int>, level: nat, served: nat)
  {
    && |widths| == |from| == |bound| == |order|
    && (forall k :: 0 <= k < |order| ==> order[k] < |order|)
    && (forall k :: 0 <= k < |order| ==>
          ColumnAt(from, bound, grow, widths, order[k], level, k < served))
  }

  predicate ColumnAt(from: seq<int>, bound: seq<int>, grow: bool, widths: seq<int>,
                     c: nat, level: nat, served: bool)
    requires |widths| == |from| == |bound| && c < |from|
  {
    Gap(grow, from[c], widths[c]) == Steps(Gap(grow, from[c], bound[c]), level, served)
  }

  /** Fairness of a level: two columns differ by at most one step unless the one
      that moved less is at its bound, and the earlier column moves at least as
      far as the later one unless it is at its bound. */
  lemma LevelIsFair(order: seq<nat>, from: seq<int>, bound: seq<int>, grow: bool,
                    widths: seq<int>, level: nat, served: nat, a: nat, b: nat)
    requires Levelled(order, from, bound, grow, widths, level, served)
    requires a < |order| && b < |order|
    ensures var i, j := order[a], order[b];
            var si, sj := Gap(grow, from[i], widths[i]), Gap(grow, from[j], widths[j]);
            && (si < sj - 1 ==> widths[i] == bound[i])
            && (a < b && si < sj ==> widths[i] == bound[i])
  {
    assert ColumnAt(from, bound, grow, widths, order[a], level, a < served);
    assert ColumnAt(from, bound, grow, widths, order[b], level, b < served);
  }

  /** A level is determined by the total it reaches: the same order, start and
      bounds admit only one result with a given sum. */
  lemma LevelUnique(order: seq<nat>, from: seq<int>, bound: seq<int>, grow: bool,
                    w1: seq<int>, l1: nat, s1: nat, w2: seq<int>, l2: nat, s2: nat)
    requires forall i :: 0 <= i < |order| ==> i in order
    requires Levelled(order, from, bound, grow, w1, l1, s1) && s1 <= |order|
    requires Levelled(order, from, bound, grow, w2, l2, s2) && s2 <= |order|
    requires Sum(w1) == Sum(w2)
    ensures w1 == w2
  {
    // One of the two is nowhere behind the other, so equal sums make them equal.
    if l1 < l2 || (l1 == l2 && s1 <= s2) {
      LevelOrdered(order, from, bound, grow, w1, l1, s1, w2, l2, s2);
    } else {
      LevelOrdered(order, from, bound, grow, w2, l2, s2, w1, l1, s1);
    }
    if forall i :: 0 <= i < |w1| ==> w1[i] <= w2[i] {
      SumMonotone(w1, w2);
    } else {
      SumMonotone(w2, w1);
    }
  }

  lemma LevelOrdered(order: seq<nat>, from: seq<int>, bound: seq<int>, grow: bool,
                     w1: seq<int>, l1: nat, s1: nat, w2: seq<int>, l2: nat, s2: nat)
    requires forall i :: 0 <= i < |order| ==> i in order
    requires Levelled(order, from, bound, grow, w1, l1, s1) && s1 <= |order|
    requires Levelled(order, from, bound, grow, w2, l2, s2) && s2 <= |order|
    requires l1 < l2 || (l1 == l2 && s1 <= s2)
    ensures |w1| == |w2|
    ensures forall i :: 0 <= i < |w1| ==> if grow then w1[i] <= w2[i] else w2[i] <= w1[i]
  {
    forall i | 0 <= i < |order| ensures Gap(grow, w1[i], w2[i]) >= 0 {
      assert i in order;
      var k :| 0 <= k < |order| && order[k] == i;
      assert ColumnAt(from, bound, grow, w1, order[k], l1, k < s1);
      assert ColumnAt(from, bound, grow, w2, order[k], l2, k < s2);
    }
  }

  function Raised(minWidths: seq<int>, maxWidths: seq<int>): (r: seq<int>)
    requires |minWidths| == |maxWidths|
    ensures |r| == |maxWidths|
    ensures forall i :: 0 <= i < |r| ==> r[i] == Max(minWidths[i], maxWidths[i])
  {
    seq(|maxWidths|, i requires 0 <= i < |maxWidths| => Max(minWidths[i], maxWidths[i]))
  }

  function Clamped(desired: seq<int>, lo: seq<int>, hi: seq<int>): (r: seq<int>)
    requires |desired| == |lo| == |hi|
    ensures |r| == |desired|
    ensures forall i :: 0 <= i < |r| ==> r[i] == Min(Max(desired[i], lo[i]), hi[i])
  {
    seq(|desired|, i requires 0 <= i < |desired| => Min(Max(desired[i], lo[i]), hi[i]))
  }

  /** One direction of the distribution loop (shrinking and growing have the
      same shape): visit the columns in order, one step each, until the sum
      reaches the target or no column can move. */
  method Distribute(order: seq<nat>, from: seq<int>, bound: seq<int>, grow: bool, target: int)
    returns (widths: seq<int>, ghost level: nat, ghost served: nat)
    requires |from| == |bound| == |order|
    requires Lists(order)
    requires forall i :: 0 <= i < |from| ==> 0 <= Gap(grow, from[i], bound[i])
    ensures Levelled(order, from, bound, grow, widths, level, served) && served <= |order|
    ensures forall i :: 0 <= i < |from| ==>
              0 <= Gap(grow, from[i], widths[i]) && 0 <= Gap(grow, widths[i], bound[i])
    ensures Gap(grow, Sum(from), target) <= 0 ==> widths == from
    ensures Gap(grow, Sum(from), target) >= 0 ==>
              Sum(widths) == if Gap(grow, target, Sum(bound)) >= 0 then target else Sum(bound)
  {
    var n := |order|;
    widths := from;
    level, served := 0, 0;
    StartIsLevel(order, from, bound, grow);
    var sum := Sum(from);
    while Gap(grow, sum, target) > 0
      invariant sum == Sum(widths) && served <= n
      invariant Levelled(order, from, bound, grow, widths, level, served)
      invariant Gap(grow, Sum(from), target) <= 0 ==> widths == from
      invariant Gap(grow, Sum(from), target) > 0 ==> Gap(grow, sum, target) >= 0
      invariant Gap(grow, sum, target) > 0 ==> served == 0
      decreases Gap(grow, sum, target)
    {
      var changed := false;
      ghost var sum0 := sum;
      for k := 0 to n
        invariant sum == Sum(widths) && Gap(grow, sum, target) > 0
        invariant Levelled(order, from, bound, grow, widths, level, k)
        invariant Gap(grow, sum0, sum) >= if changed then 1 else 0
        invariant !changed ==> sum == sum0 && forall j :: 0 <= j < k ==> widths[order[j]] == bound[order[j]]
        invariant served == k
      {
        var idx := order[k];
        ghost var before := widths;
        if Gap(grow, widths[idx], bound[idx]) > 0 {
          var step := if grow then 1 else -1;
          SumUpdate(widths, idx, widths[idx] + step);
          widths := widths[idx := widths[idx] + step];
          sum := sum + step;
          changed := true;
        }
        LevelAdvances(order, from, bound, grow, before, widths, level, k);
        served := k + 1;
        if changed && Gap(grow, sum, target) <= 0 {
          break;
        }
      }
      if !changed {
        AllAtBound(order, widths, bound);
        break;
      }
      if Gap(grow, sum, target) > 0 {
        RoundEnds(order, from, bound, grow, widths, level);
        level, served := level + 1, 0;
      }
    }
    LevelBounded(order, from, bound, grow, widths, level, served);
    BoundedSums(widths, bound, grow);
  }

  /** order lists every column index exactly once. */
  ghost predicate Lists(order: seq<nat>)
  {
    && (forall k :: 0 <= k < |order| ==> order[k] < |order|)
    && (forall i :: 0 <= i < |order| ==> i in order)
    && (forall a, b :: 0 <= a < b < |order| ==> order[a] != order[b])
  }

  lemma StartIsLevel(order: seq<nat>, from: seq<int>, bound: seq<int>, grow: bool)
    requires |from| == |bound| == |order| && Lists(order)
    requires forall i :: 0 <= i < |from| ==> 0 <= Gap(grow, from[i], bound[i])
    ensures Levelled(order, from, bound, grow, from, 0, 0)
  {
  }

  lemma RoundEnds(order: seq<nat>, from: seq<int>, bound: seq<int>, grow: bool, widths: seq<int>, level: nat)
    requires Levelled(order, from, bound, grow, widths, level, |order|)
    ensures Levelled(order, from, bound, grow, widths, level + 1, 0)
  {
    forall k | 0 <= k < |order|
      ensures ColumnAt(from, bound, grow, widths, order[k], level + 1, false)
    {
      assert ColumnAt(from, bound, grow, widths, order[k], level, k < |order|);
    }
  }

  lemma LevelAdvances(order: seq<nat>, from: seq<int>, bound: seq<int>, grow: bool,
                      before: seq<int>, after: seq<int>, level: nat, k: nat)
    requires Lists(order) && k < |order|
    requires Levelled(order, from, bound, grow, before, level, k)
    requires forall i :: 0 <= i < |from| ==> 0 <= Gap(grow, from[i], bound[i])
    requires var c := order[k];
             after == if Gap(grow, before[c], bound[c]) > 0
                      then before[c := before[c] + if grow then 1 else -1] else before
    ensures Levelled(order, from, bound, grow, after, level, k + 1)
  {
    forall j | 0 <= j < |order|
      ensures ColumnAt(from, bound, grow, after, order[j], level, j < k + 1)
    {
      assert ColumnAt(from, bound, grow, before, order[j], level, j < k);
      assert j != k ==> order[j] != order[k];
    }
  }

  lemma LevelBounded(order: seq<nat>, from: seq<int>, bound: seq<int>, grow: bool,
                     widths: seq<int>, level: nat, served: nat)
    requires Lists(order) && Levelled(order, from, bound, grow, widths, level, served)
    requires forall i :: 0 <= i < |from| ==> 0 <= Gap(grow, from[i], bound[i])
    ensures forall i :: 0 <= i < |from| ==>
              0 <= Gap(grow, from[i], widths[i]) && 0 <= Gap(grow, widths[i], bound[i])
  {
    forall i | 0 <= i < |from|
      ensures 0 <= Gap(grow, from[i], widths[i]) && 0 <= Gap(grow, widths[i], bound[i])
    {
      assert i in order;
      var k :| 0 <= k < |order| && order[k] == i;
      assert ColumnAt(from, bound, grow, widths, order[k], level, k < served);
    }
  }

  lemma AllAtBound(order: seq<nat>, widths: seq<int>, bound: seq<int>)
    requires |widths| == |bound| == |order| && Lists(order)
    requires forall k :: 0 <= k < |order| ==> widths[order[k]] == bound[order[k]]
    ensures widths == bound
  {
    forall i | 0 <= i < |order| ensures widths[i] == bound[i] {
      assert i in order;
    }
  }

  lemma BoundedSums(s: seq<int>, t: seq<int>, grow: bool)
    requires |s| == |t|
    requires forall i :: 0 <= i < |s| ==> 0 <= Gap(grow, s[i], t[i])
    ensures 0 <= Gap(grow, Sum(s), Sum(t))
  {
    if grow {
      SumMonotone(s, t);
    } else {
      SumMonotone(t, s);
    }
  }

  lemma StableOrderLists(order: seq<nat>, priority: seq<int>)
    requires StableOrder(order, priority)
    ensures Lists(order)
  {
    assert forall a, b :: 0 <= a < b < |order| ==> Before(priority, order[a], order[b]);
  }

  /** What a successful distribution means: within bounds, an exact sum, and a
      fair level reached in stable priority order. */
  ghost predicate Balanced(start: seq<int>, lo: seq<int>, hi: seq<int>,
                           shrinkPriority: seq<int>, growPriority: seq<int>, available: int, widths: seq<int>)
    requires |start| == |lo| == |hi| == |shrinkPriority| == |growPriority|
  {
    var grow := Sum(start) < available;
    var priority := if grow then growPriority else shrinkPriority;
    var bound := if grow then hi else lo;
    && |widths| == |start|
    && (forall i :: 0 <= i < |widths| ==> lo[i] <= widths[i] <= hi[i])
    && Sum(widths) == Min(available, Sum(hi))
    && (exists order: seq<nat>, level: nat, served: nat ::
          served <= |order| && StableOrder(order, priority) &&
          Levelled(order, start, bound, grow, widths, level, served))
  }

  ghost predicate Fitted(desired: seq<int>, lo: seq<int>, hi: seq<int>,
                         shrinkPriority: seq<int>, growPriority: seq<int>, available: int, widths: seq<int>)
    requires |desired| == |lo| == |hi| == |shrinkPriority| == |growPriority|
  {
    Balanced(Clamped(desired, lo, hi), lo, hi, shrinkPriority, growPriority, available, widths)
  }

  lemma BalancedBy(start: seq<int>, lo: seq<int>, hi: seq<int>, shrinkPriority: seq<int>,
                   growPriority: seq<int>, available: int, widths: seq<int>,
                   order: seq<nat>, level: nat, served: nat)
    requires |start| == |lo| == |hi| == |shrinkPriority| == |growPriority| == |widths|
    requires forall i :: 0 <= i < |widths| ==> lo[i] <= widths[i] <= hi[i]
    requires Sum(widths) == Min(available, Sum(hi))
    requires served <= |order|
    requires var grow := Sum(start) < available;
             && StableOrder(order, if grow then growPriority else shrinkPriority)
             && Levelled(order, start, if grow then hi else lo, grow, widths, level, served)
    ensures Balanced(start, lo, hi, shrinkPriority, growPriority, available, widths)
  {
  }

  /** The first loop: raise each maximum to its minimum in the caller's slice and
      clamp the desired widths. */
  method ClampWidths(desired: seq<int>, minWidths: seq<int>, maxWidths: array<int>)
    returns (widths: seq<int>, sumMin: int)
    requires |desired| == |minWidths| == maxWidths.Length
    modifies maxWidths
    ensures maxWidths[..] == Raised(minWidths, old(maxWidths[..]))
    ensures widths == Clamped(desired, minWidths, maxWidths[..])
    ensures sumMin == Sum(minWidths)
  {
    var n := |desired|;
    widths := [];
    sumMin := 0;
    for i := 0 to n
      invariant |widths| == i
      invariant forall j :: 0 <= j < i ==> maxWidths[j] == Max(minWidths[j], old(maxWidths[j]))
      invariant forall j :: i <= j < n ==> maxWidths[j] == old(maxWidths[j])
      invariant forall j :: 0 <= j < i ==> widths[j] == Min(Max(desired[j], minWidths[j]), maxWidths[j])
      invariant sumMin == Sum(minWidths[..i])
    {
      if minWidths[i] > maxWidths[i] {
        maxWidths[i] := minWidths[i];
      }
      var w := Max(desired[i], minWidths[i]);
      if w > maxWidths[i] {
        w := maxWidths[i];
      }
      widths := widths + [w];
      assert minWidths[..i+1][..i] == minWidths[..i];
      sumMin := sumMin + minWidths[i];
    }
    assert minWidths[..n] == minWidths;
  }

  /** The two distribution loops, in source order. */
  method ShrinkThenGrow(start: seq<int>, lo: seq<int>, hi: seq<int>,
                        shrinkPriority: seq<int>, growPriority: seq<int>, available: int)
    returns (widths: seq<int>)
    requires |start| == |lo| == |hi| == |shrinkPriority| == |growPriority|
    requires forall i :: 0 <= i < |start| ==> lo[i] <= start[i] <= hi[i]
    requires Sum(lo) <= available
    ensures Balanced(start, lo, hi, shrinkPriority, growPriority, available, widths)
  {
    BoundedSums(start, hi, true);
    BoundedSums(lo, start, true);
    var shrinkOrder := IndicesByPriority(shrinkPriority);
    StableOrderLists(shrinkOrder, shrinkPriority);
    ghost var l1, s1, l2, s2;
    widths, l1, s1 := Distribute(shrinkOrder, start, lo, false, available);
    ghost var shrunk := widths;
    var growOrder := IndicesByPriority(growPriority);
    StableOrderLists(growOrder, growPriority);
    widths, l2, s2 := Distribute(growOrder, widths, hi, true, available);
    if Sum(start) >= available {
      assert Sum(shrunk) == available && widths == shrunk;
      BalancedBy(start, lo, hi, shrinkPriority, growPriority, available, widths, shrinkOrder, l1, s1);
    } else {
      assert shrunk == start;
      BalancedBy(start, lo, hi, shrinkPriority, growPriority, available, widths, growOrder, l2, s2);
    }
  }

  /** fitWidthsToAvailable.  A maximum below its minimum is raised in the
      caller's slice, even when the minimums turn out not to fit. */
  method FitWidthsToAvailable(desired: seq<int>, minWidths: seq<int>, maxWidths: array<int>,
                              shrinkPriority: seq<int>, growPriority: seq<int>, availableColumnsWidth: int)
    returns (widths: seq<int>, ok: bool)
    modifies maxWidths
    ensures var n := |desired|;
            var sameLength := n == |minWidths| == maxWidths.Length == |shrinkPriority| == |growPriority|;
            && ok == (sameLength && Sum(minWidths) <= availableColumnsWidth)
            && maxWidths[..] == (if sameLength then Raised(minWidths, old(maxWidths[..])) else old(maxWidths[..]))
            && (ok ==> Fitted(desired, minWidths, maxWidths[..], shrinkPriority, growPriority,
                              availableColumnsWidth, widths))
            && (!ok ==> widths == [])
  {
    var n := |desired|;
    if n != |minWidths| || n != maxWidths.Length || n != |shrinkPriority| || n != |growPriority| {
      return [], false;
    }
    var start, sumMin := ClampWidths(desired, minWidths, maxWidths);
    if availableColumnsWidth < sumMin {
      return [], false;
    }
    widths := ShrinkThenGrow(start, minWidths, maxWidths[..], shrinkPriority, growPriority, availableColumnsWidth);
    ok := true;
  }

  /** Between two columns of a fitted table: the one that gave (or got) fewer steps
      is at its bound, unless they differ by just one step and it comes later in
      priority. */
  lemma FittedIsFair(desired: seq<int>, lo: seq<int>, hi: seq<int>, shrinkPriority: seq<int>,
                     growPriority: seq<int>, available: int, widths: seq<int>, i: nat, j: nat)
    requires |desired| == |lo| == |hi| == |shrinkPriority| == |growPriority|
    requires Fitted(desired, lo, hi, shrinkPriority, growPriority, available, widths)
    requires i < |widths| && j < |widths|
    ensures var start := Clamped(desired, lo, hi);
            var grow := Sum(start) < available;
            var si, sj := Gap(grow, start[i], widths[i]), Gap(grow, start[j], widths[j]);
            si < sj && widths[i] != (if grow then hi[i] else lo[i]) ==>
              si == sj - 1 && Before(if grow then growPriority else shrinkPriority, j, i)
  {
    var start := Clamped(desired, lo, hi);
    var grow := Sum(start) < available;
    var priority := if grow then growPriority else shrinkPriority;
    var bound := if grow then hi else lo;
    var order: seq<nat>, level: nat, served: nat :|
      served <= |order| && StableOrder(order, priority) && Levelled(order, start, bound, grow, widths, level, served);
    FairInOrder(order, priority, start, bound, grow, widths, level, served, i, j);
  }

  lemma FairInOrder(order: seq<nat>, priority: seq<int>, from: seq<int>, bound: seq<int>, grow: bool,
                    widths: seq<int>, level: nat, served: nat, i: nat, j: nat)
    requires StableOrder(order, priority) && Levelled(order, from, bound, grow, widths, level, served)
    requires i < |widths| && j < |widths|
    ensures var si, sj := Gap(grow, from[i], widths[i]), Gap(grow, from[j], widths[j]);
            si < sj && widths[i] != bound[i] ==> si == sj - 1 && Before(priority, j, i)
  {
    var a, b := PlaceOf(order, priority, i), PlaceOf(order, priority, j);
    LevelIsFair(order, from, bound, grow, widths, level, served, a, b);
    hide Levelled;
    if b < a {
      assert Before(priority, order[b], order[a]);
    }
  }

  ghost function PlaceOf(order: seq<nat>, priority: seq<int>, i: nat): (k: nat)
    requires StableOrder(order, priority) && i < |priority|
    ensures k < |order| && order[k] == i
  {
    assert i in order;
    var k :| 0 <= k < |order| && order[k] == i;
    k
  }

  /** Fitted has one solution: it says everything about the result. */
  lemma FittedUnique(desired: seq<int>, lo: seq<int>, hi: seq<int>, shrinkPriority: seq<int>,
                     growPriority: seq<int>, available: int, w1: seq<int>, w2: seq<int>)
    requires |desired| == |lo| == |hi| == |shrinkPriority| == |growPriority|
    requires Fitted(desired, lo, hi, shrinkPriority, growPriority, available, w1)
    requires Fitted(desired, lo, hi, shrinkPriority, growPriority, available, w2)
    ensures w1 == w2
  {
    var start := Clamped(desired, lo, hi);
    var grow := Sum(start) < available;
    var priority := if grow then growPriority else shrinkPriority;
    var bound := if grow then hi else lo;
    var o1: seq<nat>, l1: nat, s1: nat :|
      s1 <= |o1| && StableOrder(o1, priority) && Levelled(o1, start, bound, grow, w1, l1, s1);
    var o2: seq<nat>, l2: nat, s2: nat :|
      s2 <= |o2| && StableOrder(o2, priority) && Levelled(o2, start, bound, grow, w2, l2, s2);
    StableOrderUnique(o1, o2, priority);
    LevelUnique(o1, start, bound, grow, w1, l1, s1, w2, l2, s2);
  }
}
