/** Identifiers of echo workers and route probes (IDAllocator in
    internal/pinger/targets.go).  Echo identifiers are used once per session;
    route identifiers are reserved, released and reused. */
module EchoIds {
  import opened Arith
  import opened Options

  const PARTITION := 0x8000

  /** The route identifier a scan looks at when its cursor stands at c. */
  function Slot(c: nat): int
  {
    PARTITION + c % PARTITION
  }

  predicate RouteId(id: int)
  {
    PARTITION <= id < 2 * PARTITION
  }

  /** PARTITION steps of the cursor visit every route identifier. */
  lemma EverySlotVisited(c: nat, id: int) returns (k: nat)
    requires RouteId(id)
    ensures k < PARTITION && Slot(c + k) == id
  {
    var r, start := id - PARTITION, c % PARTITION;
    k := if r >= start then r - start else r - start + PARTITION;
    DivModIs(c + k, if r >= start then c / PARTITION else c / PARTITION + 1, PARTITION, r);
  }

  class IDAllocator {
    var echo: nat
    var trace: nat
    var traces: set<int>

    predicate Valid()
      reads this
    {
      echo <= PARTITION && forall id :: id in traces ==> RouteId(id)
    }

    /** The echo identifiers given out so far in the session. */
    predicate Issued(id: int)
      reads this
    {
      0 <= id < echo
    }

    constructor ()
      ensures Valid() && traces == {} && forall id :: !Issued(id)
    {
      echo, trace, traces := 0, 0, {};
    }

    /** echoID: an identifier never given out before, unless all have been. */
    method EchoID() returns (id: Option<int>)
      requires Valid()
      modifies `echo
      ensures Valid()
      ensures id.None? <==> forall x :: 0 <= x < PARTITION ==> old(Issued(x))
      ensures id.Some? ==> 0 <= id.value < PARTITION && !old(Issued(id.value))
      ensures forall x :: Issued(x) <==> old(Issued(x)) || (id.Some? && id.value == x)
      ensures echo == old(echo) + if id.Some? then 1 else 0
    {
      if echo >= PARTITION {
        return None;
      }
      assert !Issued(echo);
      id := Some(echo);
      echo := echo + 1;
    }

    /** traceID: the first identifier not reserved, in cyclic order from the
        cursor; -1 exactly when all are reserved. */
    method TraceID() returns (id: int)
      requires Valid()
      modifies `trace, `traces
      ensures Valid()
      ensures id == -1 <==> forall x :: RouteId(x) ==> x in old(traces)
      ensures id == -1 ==> traces == old(traces)
      ensures id != -1 ==> RouteId(id) && id !in old(traces) && traces == old(traces) + {id}
      ensures id != -1 ==> old(trace) < trace <= old(trace) + PARTITION && id == Slot(trace - 1)
      ensures id != -1 ==> forall c :: old(trace) <= c < trace - 1 ==> Slot(c) in old(traces)
    {
      for k := 0 to PARTITION
        invariant trace == old(trace) + k && traces == old(traces)
        invariant forall c :: old(trace) <= c < trace ==> Slot(c) in traces
      {
        var slot := PARTITION + trace % PARTITION;
        assert slot == Slot(trace);
        trace := trace + 1;
        if slot !in traces {
          traces := traces + {slot};
          return slot;
        }
      }
      forall x | RouteId(x) ensures x in traces {
        var k := EverySlotVisited(old(trace), x);
      }
      id := -1;
    }

    method ReleaseTrace(id: int)
      requires Valid()
      modifies `traces
      ensures Valid() && traces == old(traces) - {id}
    {
      traces := traces - {id};
    }
  }

  datatype IdRequest = EchoRequest | RouteRequest | Release(id: int)

  /** What was answered; no identifier when there is none left. */
  datatype IdAnswer = EchoAnswer(id: Option<int>) | RouteAnswer(id: Option<int>) | Released

  /** Route identifier id was answered before request n and not released since. */
  ghost predicate Held(requests: seq<IdRequest>, answers: seq<IdAnswer>, n: nat, id: int)
    requires n <= |answers| && n <= |requests|
  {
    exists i: nat :: i < n && answers[i] == RouteAnswer(Some(id)) && NotReleased(requests, i, n, id)
  }

  ghost predicate NotReleased(requests: seq<IdRequest>, i: nat, n: nat, id: int)
    requires n <= |requests|
  {
    forall k :: i < k < n ==> requests[k] != Release(id)
  }

  /** Echo identifier id was answered before request n. */
  ghost predicate EchoGiven(answers: seq<IdAnswer>, n: nat, id: int)
    requires n <= |answers|
  {
    exists i: nat :: i < n && answers[i] == EchoAnswer(Some(id))
  }

  /** Request n got an echo identifier never given before, or a route identifier
      not held by anyone, or nothing because none is left. */
  ghost predicate WellAnswered(requests: seq<IdRequest>, answers: seq<IdAnswer>, n: nat)
    requires n < |answers| && n < |requests|
  {
    var a := answers[n];
    match requests[n]
    case EchoRequest =>
      && a.EchoAnswer?
      && (a.id.None? <==> forall x :: 0 <= x < PARTITION ==> EchoGiven(answers, n, x))
      && (a.id.Some? ==> 0 <= a.id.value < PARTITION && !EchoGiven(answers, n, a.id.value))
    case RouteRequest =>
      && a.RouteAnswer?
      && (a.id.None? <==> forall x :: RouteId(x) ==> Held(requests, answers, n, x))
      && (a.id.Some? ==> RouteId(a.id.value) && !Held(requests, answers, n, a.id.value))
    case Release(_) => a.Released?
  }

  lemma HeldNext(requests: seq<IdRequest>, answers: seq<IdAnswer>, a: IdAnswer, id: int)
    requires |answers| < |requests|
    ensures var n := |answers|;
            Held(requests, answers + [a], n + 1, id)
            <==> a == RouteAnswer(Some(id)) || (Held(requests, answers, n, id) && requests[n] != Release(id))
  {
    var n, after := |answers|, answers + [a];
    if a == RouteAnswer(Some(id)) {
      assert after[n] == a && NotReleased(requests, n, n + 1, id);
    }
    if Held(requests, answers, n, id) && requests[n] != Release(id) {
      var i: nat :| i < n && answers[i] == RouteAnswer(Some(id)) && NotReleased(requests, i, n, id);
      assert after[i] == answers[i] && NotReleased(requests, i, n + 1, id);
    }
    if Held(requests, after, n + 1, id) && a != RouteAnswer(Some(id)) {
      var i: nat :| i < n + 1 && after[i] == RouteAnswer(Some(id)) && NotReleased(requests, i, n + 1, id);
      assert answers[i] == after[i] && NotReleased(requests, i, n, id);
    }
  }

  /** Later answers change nothing about earlier requests. */
  lemma AnsweredBefore(requests: seq<IdRequest>, answers: seq<IdAnswer>, a: IdAnswer, n: nat)
    requires n <= |answers| < |requests|
    ensures forall id :: Held(requests, answers + [a], n, id) <==> Held(requests, answers, n, id)
    ensures forall id :: EchoGiven(answers + [a], n, id) <==> EchoGiven(answers, n, id)
    ensures n < |answers| ==> (WellAnswered(requests, answers + [a], n) <==> WellAnswered(requests, answers, n))
  {
    assert forall i :: 0 <= i < n ==> (answers + [a])[i] == answers[i];
  }

  lemma EchoNext(answers: seq<IdAnswer>, a: IdAnswer, id: int)
    ensures EchoGiven(answers + [a], |answers| + 1, id)
            <==> a == EchoAnswer(Some(id)) || EchoGiven(answers, |answers|, id)
  {
    var after := answers + [a];
    assert after[|answers|] == a && forall i :: 0 <= i < |answers| ==> after[i] == answers[i];
  }

  /** Over any session: no echo identifier is issued twice, none is a route
      identifier, a route identifier is issued only while nobody holds it, and a
      request goes without only when every identifier of its kind is taken. */
  method Session(requests: seq<IdRequest>) returns (answers: seq<IdAnswer>, held: set<int>)
    ensures |answers| == |requests|
    ensures forall n :: 0 <= n < |requests| ==> WellAnswered(requests, answers, n)
    ensures forall id :: id in held <==> Held(requests, answers, |requests|, id)
  {
    var a := new IDAllocator();
    answers := [];
    for n := 0 to |requests|
      invariant a.Valid() && fresh(a) && |answers| == n
      invariant forall k :: 0 <= k < n ==> WellAnswered(requests, answers, k)
      invariant forall id :: id in a.traces <==> Held(requests, answers, n, id)
      invariant forall id :: a.Issued(id) <==> EchoGiven(answers, n, id)
    {
      var answer := Answer(a, requests, answers, n);
      forall k | 0 <= k <= n ensures WellAnswered(requests, answers + [answer], k) {
        AnsweredBefore(requests, answers, answer, k);
      }
      forall id { HeldNext(requests, answers, answer, id); }
      forall id { EchoNext(answers, answer, id); }
      answers := answers + [answer];
    }
    held := a.traces;
  }

  method Answer(a: IDAllocator, requests: seq<IdRequest>, ghost answers: seq<IdAnswer>, n: nat)
    returns (answer: IdAnswer)
    requires a.Valid() && n == |answers| < |requests|
    requires forall id :: id in a.traces <==> Held(requests, answers, n, id)
    requires forall id :: a.Issued(id) <==> EchoGiven(answers, n, id)
    modifies a
    ensures a.Valid() && WellAnswered(requests, answers + [answer], n)
    ensures forall id :: id in a.traces
                         <==> answer == RouteAnswer(Some(id)) || (id in old(a.traces) && requests[n] != Release(id))
    ensures forall id :: a.Issued(id) <==> answer == EchoAnswer(Some(id)) || old(a.Issued(id))
  {
    match requests[n] {
      case EchoRequest =>
        var id := a.EchoID();
        answer := EchoAnswer(id);
      case RouteRequest =>
        var id := a.TraceID();
        answer := RouteAnswer(if id == -1 then None else Some(id));
      case Release(id) =>
        a.ReleaseTrace(id);
        answer := Released;
    }
    AnsweredBefore(requests, answers, answer, n);
  }
}
