/** The monitors beside the pinger, as far as which targets they run for: the
    route engine (internal/mtr/engine.go), the port checker
    (internal/pinger/portchecker.go), and, with no targets of its own, the HTTP
    checker.  Each keeps a set of running targets and guards it in the same way. */
module Monitors {
  import opened Options
  import opened Targets
  import opened Lifecycles

  class Monitor {
    const kind: Kind
    const no: nat
    const targets: seq<Target>
    var targetRuns: set<Target>
    var started: bool
    var stopped: bool

    predicate Live()
      reads this
    {
      started && !stopped
    }

    function LiveNo(): Option<nat>
      reads this
    {
      if Live() then Some(no) else None
    }

    constructor (kind: Kind, no: nat, targets: seq<Target>)
      ensures this.kind == kind && this.no == no && this.targets == targets
      ensures targetRuns == {} && !started && !stopped
    {
      this.kind, this.no, this.targets := kind, no, targets;
      targetRuns, started, stopped := {}, false, false;
    }

    /** Start: one run per target, also when a target is listed twice. */
    method Start(life: Lifecycle)
      requires !started && !stopped && targetRuns == {}
      modifies this, life
      ensures Live() && targetRuns == Members(targets)
      ensures life.trace == old(life.trace) + [Started(kind, no)]
              && life.Now() == After(old(life.Now()), Started(kind, no))
    {
      for i := 0 to |targets|
        invariant targetRuns == Members(targets[..i]) && !started && !stopped
        invariant life.trace == old(life.trace)
      {
        AddTarget(targets[i]);
      }
      assert targets[..|targets|] == targets;
      started := true;
      life.Note(Started(kind, no));
    }

    method AddTarget(t: Target)
      modifies `targetRuns
      ensures targetRuns == old(targetRuns) + {t}
    {
      if t in targetRuns {
        return;
      }
      targetRuns := targetRuns + {t};
    }

    method RemoveTarget(t: Target)
      modifies `targetRuns
      ensures targetRuns == old(targetRuns) - {t}
    {
      targetRuns := targetRuns - {t};
    }

    /** Stop and join.  Stopping twice is allowed. */
    method Stop(life: Lifecycle)
      modifies `stopped, life
      ensures !Live() && stopped
      ensures life.trace == if old(Live()) then old(life.trace) + [Stopped(kind, no)] else old(life.trace)
      ensures old(Live()) ==> life.Now() == After(old(life.Now()), Stopped(kind, no))
    {
      if Live() {
        life.Note(Stopped(kind, no));
      }
      stopped := true;
    }
  }
}
