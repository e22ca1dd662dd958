/** Facts about finite sets. */
module Sets {

  lemma Pick<T>(s: set<T>) returns (x: T)
    requires s != {}
    ensures x in s
  {
    x :| x in s;
  }

  lemma SubsetSize<T>(a: set<T>, b: set<T>)
    requires a <= b
    ensures |a| <= |b|
  {
    assert b == a + (b - a);
  }

  lemma {:induction false} Smallest(s: set<int>) returns (m: int)
    requires s != {}
    ensures m in s && forall x :: x in s ==> m <= x
    decreases |s|
  {
    var first := Pick(s);
    var rest := s - {first};
    m := first;
    if rest != {} {
      var r := Smallest(rest);
      if r < first {
        m := r;
      }
    }
    assert forall x :: x in s ==> x == first || x in rest;
  }

  /** A set of numbers that fits in n consecutive places has at most n. */
  lemma {:induction false} IntervalSize(s: set<int>, lo: int, n: nat)
    requires forall x :: x in s ==> lo <= x < lo + n
    ensures |s| <= n
    decreases n
  {
    if n == 0 {
      if s != {} {
        var x := Pick(s);
      }
    } else {
      var top := lo + n - 1;
      IntervalSize(s - {top}, lo, n - 1);
      SubsetSize(s, (s - {top}) + {top});
    }
  }
}
