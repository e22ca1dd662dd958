/** What is started and stopped, and in which order (the lifecycle rules stated at
    cmd/main/supervisor.go:53-68).  A Lifecycle object is told of each start and stop
    by the components themselves. */
module Lifecycles {
  import opened Options

  datatype Kind = Ping | Route | Port | Http

  datatype Event = Started(kind: Kind, no: nat) | Stopped(kind: Kind, no: nat) | Terminated

  /** Which component of each kind is live, and whether the session has ended.
      Broken: a component was started beside a live one, or after the end, or one
      was stopped that was not live. */
  datatype Status = Broken
                  | Status(ping: Option<nat>, route: Option<nat>, port: Option<nat>, http: Option<nat>, ended: bool)

  const NOTHING := Status(None, None, None, None, false)

  function LiveOf(s: Status, k: Kind): Option<nat>
    requires s.Status?
  {
    match k
    case Ping => s.ping
    case Route => s.route
    case Port => s.port
    case Http => s.http
  }

  function With(s: Status, k: Kind, no: Option<nat>): Status
    requires s.Status?
  {
    match k
    case Ping => s.(ping := no)
    case Route => s.(route := no)
    case Port => s.(port := no)
    case Http => s.(http := no)
  }

  function After(s: Status, e: Event): Status
  {
    if s.Broken? then Broken else
    match e
    case Started(k, no) => if LiveOf(s, k) == None && !s.ended then With(s, k, Some(no)) else Broken
    case Stopped(k, no) => if LiveOf(s, k) == Some(no) then With(s, k, None) else Broken
    case Terminated => if s.ended then Broken else s.(ended := true)
  }

  function Replay(trace: seq<Event>): Status
  {
    if trace == [] then NOTHING else After(Replay(trace[..|trace|-1]), trace[|trace|-1])
  }

  lemma ReplaySnoc(trace: seq<Event>, e: Event)
    ensures Replay(trace + [e]) == After(Replay(trace), e)
  {
    assert (trace + [e])[..|trace|] == trace;
  }

  // ----- What an unbroken trace means -----

  lemma {:induction false} PrefixUnbroken(trace: seq<Event>, n: nat)
    requires n <= |trace| && Replay(trace).Status?
    ensures Replay(trace[..n]).Status?
    decreases |trace|
  {
    if n < |trace| {
      var p := trace[..|trace|-1];
      assert p[..n] == trace[..n];
      PrefixUnbroken(p, n);
    } else {
      assert trace[..n] == trace;
    }
  }

  /** A component that was started is live until it is stopped. */
  lemma {:induction false} LiveUntilStopped(trace: seq<Event>, i: nat, n: nat)
    requires i < n <= |trace| && trace[i].Started? && Replay(trace).Status?
    requires forall k :: i < k < n ==> trace[k] != Stopped(trace[i].kind, trace[i].no)
    ensures Replay(trace[..n]).Status? && LiveOf(Replay(trace[..n]), trace[i].kind) == Some(trace[i].no)
    decreases n
  {
    PrefixUnbroken(trace, n);
    assert trace[..n][..n-1] == trace[..n-1];
    if n > i + 1 {
      LiveUntilStopped(trace, i, n - 1);
    }
  }

  /** Between two starts of one kind the first component is stopped. */
  lemma StoppedBeforeReplaced(trace: seq<Event>, i: nat, j: nat) returns (k: nat)
    requires i < j < |trace| && Replay(trace).Status?
    requires trace[i].Started? && trace[j].Started? && trace[i].kind == trace[j].kind
    ensures i < k < j && trace[k] == Stopped(trace[i].kind, trace[i].no)
  {
    PrefixUnbroken(trace, j + 1);
    assert trace[..j+1][..j] == trace[..j];
    if forall k :: i < k < j ==> trace[k] != Stopped(trace[i].kind, trace[i].no) {
      LiveUntilStopped(trace, i, j);
      assert false;
    }
    k :| i < k < j && trace[k] == Stopped(trace[i].kind, trace[i].no);
  }

  lemma {:induction false} EndedStays(trace: seq<Event>, i: nat, n: nat)
    requires i < n <= |trace| && trace[i].Terminated? && Replay(trace).Status?
    ensures Replay(trace[..n]).Status? && Replay(trace[..n]).ended
    decreases n
  {
    PrefixUnbroken(trace, n);
    assert trace[..n][..n-1] == trace[..n-1];
    if n > i + 1 {
      EndedStays(trace, i, n - 1);
    }
  }

  /** Nothing is started once the session has been terminated. */
  lemma NoStartAfterEnd(trace: seq<Event>, i: nat, j: nat)
    requires i < j < |trace| && trace[i].Terminated? && Replay(trace).Status?
    ensures !trace[j].Started?
  {
    EndedStays(trace, i, j);
    PrefixUnbroken(trace, j + 1);
    assert trace[..j+1][..j] == trace[..j];
  }

  /** Every component is stopped before the next of its kind starts, and nothing
      starts after the end. */
  ghost predicate Orderly(trace: seq<Event>)
  {
    && (forall i, j :: 0 <= i < j < |trace| && trace[i].Started? && trace[j].Started?
                       && trace[i].kind == trace[j].kind ==>
          exists k :: i < k < j && trace[k] == Stopped(trace[i].kind, trace[i].no))
    && (forall i, j :: 0 <= i < j < |trace| && trace[i].Terminated? ==> !trace[j].Started?)
  }

  lemma UnbrokenOrderly(trace: seq<Event>)
    requires Replay(trace).Status?
    ensures Orderly(trace)
  {
    forall i, j | 0 <= i < j < |trace| && trace[i].Started? && trace[j].Started? && trace[i].kind == trace[j].kind
      ensures exists k :: i < k < j && trace[k] == Stopped(trace[i].kind, trace[i].no)
    {
      var k := StoppedBeforeReplaced(trace, i, j);
    }
    forall i, j | 0 <= i < j < |trace| && trace[i].Terminated? ensures !trace[j].Started? {
      NoStartAfterEnd(trace, i, j);
    }
  }

  class Lifecycle {
    ghost var trace: seq<Event>

    constructor ()
      ensures trace == []
    {
      trace := [];
    }

    ghost function Now(): Status
      reads this
    {
      Replay(trace)
    }

    ghost method Note(e: Event)
      modifies this
      ensures trace == old(trace) + [e] && Now() == After(old(Now()), e)
    {
      ReplaySnoc(trace, e);
      trace := trace + [e];
    }
  }
}
