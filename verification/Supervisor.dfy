/** The supervisor of one measuring session (cmd/main/supervisor.go,
    live_targets.go, live_reload.go): a command machine that owns the pinger and the
    monitors and keeps their membership in step with its target list. */
module Supervisors {
  import opened Options
  import opened EchoIds
  import opened Lifecycles
  import opened Monitors
  import opened Pingers
  import opened Reconciliation
  import opened TargetSpecs
  import opened Sequences
  import opened Targets

  /** probe stands for the settings that only a full rebuild can change. */
  datatype Config = Config(probe: int, trace: bool, mtr: bool, resolveAll: bool) {
    predicate RouteEnabled() { trace || mtr }
  }

  /** probeConfig: what must be equal for a reload to be applied live. */
  function ProbeConfig(c: Config): Config
  {
    c.(trace := c.RouteEnabled(), mtr := false)
  }

  /** n new targets: their identities have not been used before. */
  function Fresh(next: Target, n: nat): (ts: seq<Target>)
    ensures |ts| == n && forall i :: 0 <= i < n ==> ts[i] == next + i
  {
    seq(n, i => next + i)
  }

  function Zeros(n: nat): (zs: seq<nat>)
    ensures |zs| == n && forall i :: 0 <= i < n ==> zs[i] == 0
  {
    seq(n, i => 0)
  }

  predicate InList(specs: seq<TargetSpec>, host: string)
  {
    exists i :: 0 <= i < |specs| && (specs[i].Display() == host || specs[i].host == host)
  }

  /** What an added host becomes. */
  function NewSpecs(host: string, resolveAll: bool, dns: Resolver): seq<TargetSpec>
  {
    if resolveAll then Concat(Expansions(dns, [TargetSpec(host, "", "")])) else [TargetSpec(host, "", "")]
  }

  /** New targets are unlike each other and the known ones. */
  lemma FreshApart(targets: seq<Target>, next: Target, n: nat)
    requires Known(targets, next)
    ensures Distinct(Fresh(next, n)) && Members(Fresh(next, n)) !! Members(targets)
    ensures Known(targets, next + n) && Known(targets + Fresh(next, n), next + n)
    ensures Members(targets + Fresh(next, n)) == Members(targets) + Members(Fresh(next, n))
  {
    var all := targets + Fresh(next, n);
    forall i, j | 0 <= i < j < |all| ensures all[i] != all[j] {
      if i < |targets| {
        assert targets[i] in targets;
      }
    }
  }

  /** The list without target i has the other members, and no repetition either. */
  lemma WithoutMember(targets: seq<Target>, next: Target, i: nat)
    requires Known(targets, next) && i < |targets|
    ensures Known(Without(targets, i), next) && Members(Without(targets, i)) == Members(targets) - {targets[i]}
  {
    var rest := Without(targets, i);
    forall t | t in rest ensures t in targets && t != targets[i] {
      var k :| 0 <= k < |rest| && rest[k] == t;
      assert t == targets[if k < i then k else k + 1];
    }
    forall t | t in targets && t != targets[i] ensures t in rest {
      var k :| 0 <= k < |targets| && targets[k] == t;
      assert rest[if k < i then k else k - 1] == t;
    }
  }

  /** Spec i, and no other, is shown under that name. */
  predicate Only(specs: seq<TargetSpec>, host: string, i: nat)
  {
    i < |specs| && forall j :: 0 <= j < |specs| ==> (specs[j].Display() == host <==> j == i)
  }

  lemma SameRoute(a: Config, b: Config)
    requires ProbeConfig(a) == ProbeConfig(b)
    ensures a.RouteEnabled() == b.RouteEnabled()
  {
  }

  lemma AllReused(targets: seq<Target>, reused: set<Target>)
    requires Distinct(targets) && reused <= Members(targets) && |reused| == |targets|
    ensures reused == Members(targets)
  {
    MembersCounted(targets);
    assert Members(targets) == reused + (Members(targets) - reused);
  }

  /** The targets after a reload are the reused ones and the added ones. */
  lemma ReconciledSets(oldSpecs: seq<TargetSpec>, oldTargets: seq<Target>, specs: seq<TargetSpec>, next: Target,
                       targets: seq<Target>, added: seq<int>, reused: set<Target>, next': Target)
    requires |oldSpecs| == |oldTargets| && Known(oldTargets, next)
    requires Reconciled(oldSpecs, oldTargets, specs, next, targets, added, reused, next')
    ensures InRange(added, |targets|) && |targets| == |specs| && Distinct(oldTargets) && next <= next'
    ensures var extra := Read(targets, added);
            && Distinct(extra) && Members(extra) !! Members(oldTargets) && reused <= Members(oldTargets)
            && Members(targets) == reused + Members(extra) && Known(targets, next')
  {
    hide Placed;
    var extra := Read(targets, added);
    forall t | t in targets ensures t in reused || t in extra {
      var i :| 0 <= i < |targets| && targets[i] == t;
      if t >= next {
        var k :| 0 <= k < |added| && added[k] == i;
        assert extra[k] == t;
      }
    }
  }

  lemma RemovalKeepsSound(targets: seq<Target>, groups: seq<Group>, i: nat)
    requires i < |targets| && GroupsSound(groups, |targets|)
    ensures GroupsSound(Removed(groups, i), |targets| - 1)
  {
    hide Removed, Disjoint;
    RemovalKeepsGroups(targets, groups, i);
  }

  lemma OnlyMatch(specs: seq<TargetSpec>, host: string, matches: seq<nat>, i: nat)
    requires forall k :: 0 <= k < |matches| ==> matches[k] < |specs| && specs[matches[k]].Display() == host
    requires forall k, l :: 0 <= k < l < |matches| ==> matches[k] < matches[l]
    requires forall j :: 0 <= j < |specs| && specs[j].Display() == host ==> j in matches
    ensures Only(specs, host, i) <==> matches == [i]
  {
    assert |matches| > 1 ==> matches[0] < matches[1];
    if Only(specs, host, i) {
      assert specs[i].Display() == host;
      forall k | 0 <= k < |matches| ensures matches[k] == i {
      }
    }
    if matches == [i] {
      assert matches[0] == i;
      forall j | 0 <= j < |specs| ensures specs[j].Display() == host <==> j == i {
      }
    }
  }

  datatype SessionState = StateStopped | StateRunning | StateTerminated

  datatype Reason = SupervisorTerminated | StartFailed | EmptyHost | AlreadyListed | NotAdded(why: AddResult)
                  | LastHost | NotFound | Ambiguous | NoLongerActive

  datatype Outcome = Done | Failed(reason: Reason)

  /** What the command loop is sent.  openOk: whether the sockets open; dns: what the
      resolver answers. */
  datatype Command = Start(openOk: bool) | Stop | Restart(openOk: bool) | Terminate
                   | ResetStats | ResetRoute | ResetPort | ResetHTTP
                   | AddHost(host: string, dns: Resolver) | DeleteHost(host: string) | DeleteTargetID(id: Target)
                   | Reload(cfg: Config, specs: seq<TargetSpec>, groups: seq<Group>)

  /** A reload has passed validateHostsDoc, which refuses an empty host list, and its
      groups come from BuildHostsAndGroups and ExpandTargets. */
  predicate Loadable(c: Command)
  {
    c.Reload? ==> |c.specs| > 0 && GroupsSound(c.groups, |c.specs|)
  }

  class Supervisor {
    const ids: IDAllocator
    const life: Lifecycle
    const portSpecs: nat
    const httpURLs: nat
    var config: Config
    var targets: seq<Target>
    var specs: seq<TargetSpec>
    var groups: seq<Group>
    var state: SessionState
    var p: Pinger?
    var routeEngine: Monitor?
    var portChecker: Monitor?
    var httpChecker: Monitor?

    /** How many components were made, and the statistics window of each target
        made, by identity. */
    var made: nat
    var epochs: seq<nat>

    // ----- Invariants -----

    /** Components, while the pinger is on or off: their memberships, and that they
        are the live ones of the trace. */
    ghost predicate Inv(on: bool, members: set<Target>, monitored: set<Target>)
      reads this, ids, life, p, routeEngine, portChecker, httpChecker
    {
      && ids.Valid()
      && (on <==> p != null && p.Live())
      && (on ==> p.ids == ids && p.Valid() && p.OneChannelEach() && p.workerStates.Keys == members)
      && (routeEngine != null ==>
            on && routeEngine.kind == Route && routeEngine.Live() && routeEngine.targetRuns == monitored)
      && (portChecker != null ==>
            portChecker.kind == Port && (portChecker.Live() ==> on && portChecker.targetRuns == monitored))
      && (httpChecker != null ==> httpChecker.kind == Http && (httpChecker.Live() ==> on))
      && life.Now() == Status(if p == null then None else p.LiveNo(), Alive(routeEngine), Alive(portChecker),
                              Alive(httpChecker), state.StateTerminated?)
    }

    static function Alive(m: Monitor?): Option<nat>
      reads m
    {
      if m == null then None else m.LiveNo()
    }

    /** While running, every configured monitor is there. */
    ghost predicate Complete()
      reads this, portChecker, httpChecker
    {
      state.StateRunning? ==>
        && (config.RouteEnabled() ==> routeEngine != null)
        && (if portSpecs > 0 then portChecker != null && portChecker.Live() else portChecker == null)
        && (if httpURLs > 0 then httpChecker != null && httpChecker.Live() else httpChecker == null)
    }

    /** The lists: parallel, without repetition, never empty; the groups disjoint and
        in range. */
    ghost predicate Lists()
      reads `targets, `specs, `groups, `epochs
    {
      && |targets| == |specs| > 0 && Known(targets, |epochs|)
      && GroupsSound(groups, |targets|)
    }

    /** Between commands: while running, the pinger and the monitors run for exactly
        the listed targets; otherwise nothing is live. */
    ghost predicate Valid()
      reads this, ids, life, p, routeEngine, portChecker, httpChecker
    {
      Lists() && Complete() && Inv(state.StateRunning?, Members(targets), Members(targets))
    }

    /** newSupervisor, with one new target per spec. */
    constructor (ids: IDAllocator, specs: seq<TargetSpec>, groups: seq<Group>, config: Config, portSpecs: nat,
                 httpURLs: nat)
      requires ids.Valid() && |specs| > 0 && GroupsSound(groups, |specs|)
      ensures Valid() && fresh(life) && life.trace == [] && state.StateStopped?
      ensures p == null && routeEngine == null && portChecker == null && httpChecker == null
      ensures this.ids == ids && this.specs == specs && this.groups == groups && this.config == config
      ensures this.portSpecs == portSpecs && this.httpURLs == httpURLs
    {
      this.ids, this.specs, this.groups, this.config := ids, specs, groups, config;
      this.portSpecs, this.httpURLs := portSpecs, httpURLs;
      life := new Lifecycle();
      targets := Fresh(0, |specs|);
      state, p, routeEngine, portChecker, httpChecker := StateStopped, null, null, null, null;
      made, epochs := 0, Zeros(|specs|);
    }

    /** A component is the one there was before, or a new one. */
    twostate predicate Renewed()
      reads this
    {
      && (p == null || p == old(p) || fresh(p))
      && (routeEngine == null || routeEngine == old(routeEngine) || fresh(routeEngine))
      && (portChecker == null || portChecker == old(portChecker) || fresh(portChecker))
      && (httpChecker == null || httpChecker == old(httpChecker) || fresh(httpChecker))
    }

    /** Every configured monitor is a new one. */
    twostate predicate AllNew()
      reads this
    {
      && (config.RouteEnabled() ==> routeEngine != null && fresh(routeEngine))
      && (portSpecs > 0 ==> portChecker != null && fresh(portChecker))
      && (httpURLs > 0 ==> httpChecker != null && fresh(httpChecker))
    }

    /** Those targets have the very worker they had before. */
    twostate predicate SameWorkers(ts: set<Target>)
      reads this, p
    {
      && p != null && p == old(p)
      && forall t :: t in ts ==>
           t in old(p.workerStates) && t in p.workerStates && p.workerStates[t] == old(p.workerStates)[t]
    }

    // ----- Single components -----

    method StopRoute(ghost on: bool, ghost members: set<Target>, ghost monitored: set<Target>)
      requires Inv(on, members, monitored)
      modifies `routeEngine, routeEngine, life
      ensures old(life.trace) <= life.trace && Renewed()
      ensures Inv(on, members, monitored) && routeEngine == null
    {
      hide Pinger.Valid, Pinger.OneChannelEach;
      if routeEngine != null {
        routeEngine.Stop(life);
        routeEngine := null;
      }
    }

    method RestartRoute(ghost members: set<Target>)
      requires Inv(true, members, Members(targets)) && !state.StateTerminated?
      modifies `routeEngine, `made, routeEngine, life
      ensures old(life.trace) <= life.trace && Renewed()
      ensures Inv(true, members, Members(targets)) && routeEngine != null
      ensures routeEngine != old(routeEngine) && fresh(routeEngine) && (old(Complete()) ==> Complete())
    {
      hide Pinger.Valid, Pinger.OneChannelEach;
      StopRoute(true, members, Members(targets));
      if p == null {
        return;
      }
      var e := new Monitor(Route, made, targets);
      made := made + 1;
      e.Start(life);
      routeEngine := e;
    }

    /** setupPortChecker and setupHTTPChecker: none when nothing is configured. */
    method Setup(kind: Kind, configured: nat, ts: seq<Target>) returns (m: Monitor?)
      requires life.Now().Status? && LiveOf(life.Now(), kind) == None && !life.Now().ended
      modifies `made, life
      ensures old(life.trace) <= life.trace && Renewed()
      ensures m == null <==> configured == 0
      ensures m == null ==> life.trace == old(life.trace)
      ensures m != null ==> fresh(m) && m.kind == kind && m.Live() && m.targetRuns == Members(ts)
                            && life.Now() == With(old(life.Now()), kind, Some(m.no))
    {
      if configured == 0 {
        return null;
      }
      m := new Monitor(kind, made, ts);
      made := made + 1;
      m.Start(life);
    }

    method RestartPortChecker(ghost members: set<Target>)
      requires Inv(true, members, Members(targets)) && !state.StateTerminated?
      modifies `portChecker, `made, portChecker, life
      ensures old(life.trace) <= life.trace && Renewed()
      ensures Inv(true, members, Members(targets))
      ensures if portSpecs > 0 then portChecker != null && portChecker.Live() && fresh(portChecker)
              else portChecker == null
    {
      hide Pinger.Valid, Pinger.OneChannelEach;
      if portChecker != null {
        portChecker.Stop(life);
      }
      portChecker := Setup(Port, portSpecs, targets);
    }

    method RestartHTTPChecker(ghost members: set<Target>)
      requires Inv(true, members, Members(targets)) && !state.StateTerminated?
      modifies `httpChecker, `made, httpChecker, life
      ensures old(life.trace) <= life.trace && Renewed()
      ensures Inv(true, members, Members(targets))
      ensures if httpURLs > 0 then httpChecker != null && httpChecker.Live() && fresh(httpChecker)
              else httpChecker == null
    {
      hide Pinger.Valid, Pinger.OneChannelEach;
      if httpChecker != null {
        httpChecker.Stop(life);
      }
      httpChecker := Setup(Http, httpURLs, []);
    }

    /** Everything is stopped, in dependency order.  Only the route engine is
        forgotten; the others stay for the panes that show them. */
    method TearDownAll(ghost members: set<Target>, ghost monitored: set<Target>)
      requires Inv(true, members, monitored)
      modifies `routeEngine, routeEngine, p, portChecker, httpChecker, life
      ensures old(life.trace) <= life.trace && Renewed()
      ensures Inv(false, members, monitored) && routeEngine == null
    {
      hide Pinger.Valid, Pinger.OneChannelEach;
      StopRoute(true, members, monitored);
      if p != null {
        p.StopAndWait(life);
      }
      if portChecker != null {
        portChecker.Stop(life);
      }
      if httpChecker != null {
        httpChecker.Stop(life);
      }
    }

    /** A new pinger for the listed targets, or null when it could not start. */
    method StartPinger(openOk: bool) returns (next: Pinger?)
      requires ids.Valid() && life.Now() == NOTHING && Distinct(targets)
      modifies `made, ids, life
      ensures old(life.trace) <= life.trace && Renewed()
      ensures ids.Valid() && (next != null <==> openOk && |targets| <= PARTITION - old(ids.echo))
      ensures next == null ==> life.trace == old(life.trace)
      ensures next != null ==> fresh(next) && next.ids == ids && next.since == old(ids.echo)
      ensures next != null ==> next.Valid() && next.OneChannelEach()
      ensures next != null ==> next.Live() && next.workerStates.Keys == Members(targets)
                               && life.Now() == With(NOTHING, Ping, Some(next.no))
    {
      hide Pinger.Valid, Pinger.OneChannelEach;
      var q := new Pinger(made, ids, 0, targets);
      made := made + 1;
      var ok := q.Start(openOk, life);
      if !ok {
        q.StopAndWait(life);
        return null;
      }
      next := q;
    }

    /** The monitors of a pinger just started. */
    method StartMonitors(ghost members: set<Target>)
      requires Inv(true, members, Members(targets)) && !state.StateTerminated? && routeEngine == null
      requires Alive(portChecker) == None && Alive(httpChecker) == None
      modifies `routeEngine, `portChecker, `httpChecker, `made, life
      ensures old(life.trace) <= life.trace && Renewed()
      ensures Inv(true, members, Members(targets))
      ensures config.RouteEnabled() ==> routeEngine != null
      ensures if portSpecs > 0 then portChecker != null && portChecker.Live() else portChecker == null
      ensures if httpURLs > 0 then httpChecker != null && httpChecker.Live() else httpChecker == null
    {
      hide Pinger.Valid, Pinger.OneChannelEach;
      if config.RouteEnabled() {
        RestartRoute(members);
      }
      StartCheckers(members);
    }

    method StartCheckers(ghost members: set<Target>)
      requires Inv(true, members, Members(targets)) && !state.StateTerminated?
      requires Alive(portChecker) == None && Alive(httpChecker) == None
      modifies `portChecker, `httpChecker, `made, life
      ensures old(life.trace) <= life.trace && Renewed()
      ensures Inv(true, members, Members(targets))
      ensures if portSpecs > 0 then portChecker != null && portChecker.Live() else portChecker == null
      ensures if httpURLs > 0 then httpChecker != null && httpChecker.Live() else httpChecker == null
    {
      hide Pinger.Valid, Pinger.OneChannelEach;
      portChecker := Setup(Port, portSpecs, targets);
      httpChecker := Setup(Http, httpURLs, []);
    }

    /** startAll: a pinger that fails to start is released and nothing else starts. */
    method StartAll(openOk: bool) returns (r: Outcome)
      requires Valid() && state.StateStopped?
      modifies `p, `routeEngine, `portChecker, `httpChecker, `state, `made, ids, life
      ensures old(life.trace) <= life.trace && Renewed()
      ensures Valid()
      ensures r == if openOk && |targets| <= PARTITION - old(ids.echo) then Done else Failed(StartFailed)
      ensures r.Done? ==> state.StateRunning? && fresh(p) && p.since == old(ids.echo)
      ensures r.Failed? ==> state.StateStopped? && p == old(p) && life.trace == old(life.trace)
    {
      hide Inv, Lists, Complete;
      var ok := LaunchPinger(openOk);
      if !ok {
        return Failed(StartFailed);
      }
      StartMonitors(Members(targets));
      NowRunning();
      r := Done;
    }

    /** A stopped session gets its new pinger, or stays as it was. */
    method LaunchPinger(openOk: bool) returns (ok: bool)
      requires Valid() && state.StateStopped?
      modifies `p, `made, ids, life
      ensures old(life.trace) <= life.trace && Renewed()
      ensures ok <==> openOk && |targets| <= PARTITION - old(ids.echo)
      ensures ok ==> fresh(p) && p.since == old(ids.echo) && Lists() && Inv(true, Members(targets), Members(targets))
      ensures ok ==> routeEngine == null && Alive(portChecker) == None && Alive(httpChecker) == None
      ensures !ok ==> Valid() && p == old(p) && life.trace == old(life.trace)
    {
      hide Pinger.Valid, Pinger.OneChannelEach;
      var next := StartPinger(openOk);
      ok := next != null;
      if ok {
        p := next;
      }
    }

    /** Pinger and monitors are up. */
    method NowRunning()
      requires Lists() && Inv(true, Members(targets), Members(targets)) && !state.StateTerminated?
      requires config.RouteEnabled() ==> routeEngine != null
      requires if portSpecs > 0 then portChecker != null && portChecker.Live() else portChecker == null
      requires if httpURLs > 0 then httpChecker != null && httpChecker.Live() else httpChecker == null
      modifies `state
      ensures Valid() && state.StateRunning?
    {
      hide Pinger.Valid, Pinger.OneChannelEach, Known, GroupsSound;
      state := StateRunning;
    }

    method StopRunning()
      requires Valid() && state.StateRunning?
      modifies `routeEngine, `state, routeEngine, p, portChecker, httpChecker, life
      ensures old(life.trace) <= life.trace && Renewed()
      ensures Valid() && state.StateStopped?
    {
      hide Pinger.Valid, Pinger.OneChannelEach, Known;
      TearDownAll(Members(targets), Members(targets));
      state := StateStopped;
    }

    /** New monitors for the pinger that is kept, the route engine already joined. */
    method RenewMonitors(ghost members: set<Target>)
      requires Inv(true, members, Members(targets)) && !state.StateTerminated?
      modifies `routeEngine, `portChecker, `httpChecker, `made, routeEngine, portChecker, httpChecker, life
      ensures old(life.trace) <= life.trace && Renewed()
      ensures Inv(true, members, Members(targets)) && Complete() && AllNew()
    {
      hide Pinger.Valid, Pinger.OneChannelEach;
      if config.RouteEnabled() {
        RestartRoute(members);
      }
      RestartPortChecker(members);
      RestartHTTPChecker(members);
    }

    /** resetAll: a new statistics window for every listed target, and while running
        new monitors; the pinger is kept. */
    method ResetAll()
      requires Valid() && !state.StateTerminated?
      modifies `routeEngine, `portChecker, `httpChecker, `made, `epochs, routeEngine, portChecker, httpChecker, life
      ensures old(life.trace) <= life.trace && Renewed()
      ensures Valid() && |epochs| == |old(epochs)|
      ensures forall t :: 0 <= t < |epochs| ==> epochs[t] == old(epochs[t]) + if t in targets then 1 else 0
      ensures state.StateRunning? ==> AllNew()
    {
      hide Pinger.Valid, Pinger.OneChannelEach, GroupsSound;
      StopRoute(state.StateRunning?, Members(targets), Members(targets));
      ResetTargets();
      if state.StateRunning? {
        RenewMonitors(Members(targets));
      }
    }

    /** Each listed target's Reset. */
    method ResetTargets()
      requires Known(targets, |epochs|)
      modifies `epochs
      ensures |epochs| == |old(epochs)|
      ensures forall t :: 0 <= t < |epochs| ==> epochs[t] == old(epochs[t]) + if t in targets then 1 else 0
    {
      for i := 0 to |targets|
        invariant |epochs| == |old(epochs)|
        invariant forall t :: 0 <= t < |epochs| ==> epochs[t] == old(epochs[t]) + if t in targets[..i] then 1 else 0
      {
        assert targets[i] in targets;
        epochs := epochs[targets[i] := epochs[targets[i]] + 1];
      }
      assert targets[..|targets|] == targets;
    }

    /** terminate: the state that is never left. */
    method Terminate()
      requires Valid() && !state.StateTerminated?
      modifies `routeEngine, `state, routeEngine, p, portChecker, httpChecker, life
      ensures old(life.trace) <= life.trace && Renewed()
      ensures Valid() && state.StateTerminated?
    {
      hide Pinger.Valid, Pinger.OneChannelEach, Known, Inv, GroupsSound;
      if state.StateRunning? {
        TearDownAll(Members(targets), Members(targets));
      }
      End();
    }

    method End()
      requires Lists() && Inv(false, Members(targets), Members(targets)) && !state.StateTerminated?
      modifies `state, life
      ensures old(life.trace) <= life.trace
      ensures Valid() && state.StateTerminated?
    {
      hide Pinger.Valid, Pinger.OneChannelEach, Lists, Members;
      state := StateTerminated;
      life.Note(Lifecycles.Event.Terminated);
    }

    // ----- Membership -----

    /** registerTargets on the running pinger. */
    method Register(ts: seq<Target>, ghost members: set<Target>, ghost monitored: set<Target>) returns (r: AddResult)
      requires Inv(true, members, monitored) && Distinct(ts) && Members(ts) !! members
      modifies p, ids
      ensures old(Complete()) ==> Complete()
      ensures r == if |ts| <= PARTITION - old(ids.echo) || ts == [] then Added else IdsExhausted
      ensures Inv(true, if r.Added? then members + Members(ts) else members, monitored)
      ensures SameWorkers(members)
      ensures !r.Added? ==> p.workerStates == old(p.workerStates)
    {
      hide Pinger.Valid, Pinger.OneChannelEach;
      r := RegisterTargets(p, ts);
    }

    /** attachTargetMonitors. */
    method Attach(t: Target, ghost members: set<Target>, ghost monitored: set<Target>)
      requires Inv(state.StateRunning?, members, monitored)
      modifies routeEngine, portChecker
      ensures Inv(state.StateRunning?, members, monitored + {t})
      ensures old(Complete()) ==> Complete()
    {
      hide Pinger.Valid, Pinger.OneChannelEach;
      if !state.StateRunning? {
        return;
      }
      if routeEngine != null {
        routeEngine.AddTarget(t);
      }
      if portChecker != null {
        portChecker.AddTarget(t);
      }
    }

    method AttachAll(ts: seq<Target>, ghost members: set<Target>, ghost monitored: set<Target>)
      requires Inv(state.StateRunning?, members, monitored) && Complete()
      modifies routeEngine, portChecker
      ensures Inv(state.StateRunning?, members, monitored + Members(ts)) && Complete()
    {
      hide Inv;
      assert monitored + Members(ts[..0]) == monitored;
      for i := 0 to |ts|
        invariant Inv(state.StateRunning?, members, monitored + Members(ts[..i])) && Complete()
      {
        Attach(ts[i], members, monitored + Members(ts[..i]));
        assert monitored + Members(ts[..i+1]) == monitored + Members(ts[..i]) + {ts[i]};
      }
      assert ts[..|ts|] == ts;
    }

    /** detachTargetMonitors with a pinger to detach from. */
    method Detach(t: Target, ghost members: set<Target>, ghost monitored: set<Target>)
      requires Inv(true, members, monitored)
      modifies p, routeEngine, portChecker
      ensures Inv(true, members - {t}, monitored - {t}) && SameWorkers(members - {t})
      ensures old(Complete()) ==> Complete()
    {
      hide Pinger.Valid, Pinger.OneChannelEach;
      if routeEngine != null {
        routeEngine.RemoveTarget(t);
      }
      if portChecker != null {
        portChecker.RemoveTarget(t);
      }
      p.RemoveTarget(t);
    }

    /** With the pinger off, memberships do not matter. */
    lemma WhileOff(members: set<Target>, monitored: set<Target>, members': set<Target>, monitored': set<Target>)
      requires Inv(false, members, monitored)
      ensures Inv(false, members', monitored')
    {
    }

    lemma Registered(members: set<Target>, monitored: set<Target>)
      requires Inv(true, members, monitored)
      ensures p != null && p.workerStates.Keys == members
    {
    }

    lemma IdsLeft(on: bool, members: set<Target>, monitored: set<Target>)
      requires Inv(on, members, monitored)
      ensures ids.echo <= PARTITION
    {
    }

    /** newLiveTargets: a new statistics window for each of n new targets. */
    method NewTargets(n: nat, ghost members: set<Target>, ghost monitored: set<Target>) returns (ts: seq<Target>)
      requires Inv(state.StateRunning?, members, monitored) && Complete() && Known(targets, |epochs|)
      modifies `epochs
      ensures Inv(state.StateRunning?, members, monitored) && Complete()
      ensures ts == Fresh(|old(epochs)|, n) && epochs == old(epochs) + Zeros(n)
      ensures Distinct(ts) && Members(ts) !! Members(targets) && Known(targets, |epochs|)
              && Known(targets + ts, |epochs|)
    {
      hide Pinger.Valid, Pinger.OneChannelEach, Known;
      ts := Fresh(|epochs|, n);
      FreshApart(targets, |epochs|, n);
      epochs := epochs + Zeros(n);
    }

    method FindInList(host: string) returns (found: bool)
      ensures found <==> InList(specs, host)
    {
      for i := 0 to |specs|
        invariant !InList(specs[..i], host)
      {
        if specs[i].Display() == host || specs[i].host == host {
          return true;
        }
      }
      assert specs[..|specs|] == specs;
      found := false;
    }

    /** addHost, from the duplicate check on: the host (or with resolveAll every
        address of it) joins at the end of the lists, or nothing changes. */
    method AddHost(host: string, dns: Resolver) returns (r: Outcome)
      requires Valid() && !state.StateTerminated?
      modifies `targets, `specs, `epochs, p, ids, routeEngine, portChecker
      ensures Valid()
      ensures var extra := NewSpecs(host, config.resolveAll, dns);
              && r == (if InList(old(specs), host) then Failed(AlreadyListed)
                       else if state.StateRunning? && |extra| > PARTITION - old(ids.echo)
                       then Failed(NotAdded(IdsExhausted))
                       else Done)
              && (r.Done? && state.StateRunning? ==> SameWorkers(Members(old(targets))))
              && (r.Done? ==> targets == old(targets) + Fresh(|old(epochs)|, |extra|) && specs == old(specs) + extra)
      ensures r.Failed? ==> targets == old(targets) && specs == old(specs)
      ensures r.Failed? && p != null ==> p.workerStates == old(p.workerStates)
      ensures |epochs| >= |old(epochs)| && epochs[..|old(epochs)|] == old(epochs)
    {
      hide Pinger.Valid, Pinger.OneChannelEach, Known, Inv, Expansions, Concat, GroupsSound, Zeros, Members, Distinct;
      var listed := FindInList(host);
      if listed {
        return Failed(AlreadyListed);
      }
      IdsLeft(state.StateRunning?, Members(targets), Members(targets));
      var added, gs := ExpandTargets([TargetSpec(host, "", "")], [], config.resolveAll, dns);
      var ts := NewTargets(|added|, Members(targets), Members(targets));
      if state.StateRunning? {
        var a := Register(ts, Members(targets), Members(targets));
        if !a.Added? {
          return Failed(NotAdded(a));
        }
      } else {
        WhileOff(Members(targets), Members(targets), Members(targets) + Members(ts), Members(targets));
      }
      AttachAll(ts, Members(targets) + Members(ts), Members(targets));
      Append(ts, added);
      r := Done;
    }

    /** New targets enter the lists, the components already run for them. */
    method Append(ts: seq<Target>, extra: seq<TargetSpec>)
      requires |targets| == |specs| > 0 && |ts| == |extra| && GroupsSound(groups, |targets|)
      requires Known(targets + ts, |epochs|) && Complete()
      requires Inv(state.StateRunning?, Members(targets) + Members(ts), Members(targets) + Members(ts))
      modifies `targets, `specs
      ensures Valid() && targets == old(targets) + ts && specs == old(specs) + extra
    {
      hide Pinger.Valid, Pinger.OneChannelEach, Known;
      assert Members(targets + ts) == Members(targets) + Members(ts);
      targets, specs := targets + ts, specs + extra;
    }

    /** removeTarget: target i leaves the lists, the groups and every component;
        the last one stays. */
    method RemoveAt(i: nat) returns (r: Outcome)
      requires Valid() && !state.StateTerminated? && i < |targets|
      modifies `targets, `specs, `groups, p, routeEngine, portChecker
      ensures Valid()
      ensures r == if |old(targets)| <= 1 then Failed(LastHost) else Done
      ensures r.Done? ==> targets == Without(old(targets), i) && specs == Without(old(specs), i)
      ensures r.Done? ==> groups == Removed(old(groups), i)
      ensures r.Done? && state.StateRunning? ==> SameWorkers(Members(old(targets)) - {old(targets)[i]})
      ensures r.Failed? ==> targets == old(targets) && specs == old(specs) && groups == old(groups)
    {
      hide Pinger.Valid, Pinger.OneChannelEach, Known, Inv, Removed, Without;
      if |targets| <= 1 {
        return Failed(LastHost);
      }
      var t := targets[i];
      if state.StateRunning? {
        Detach(t, Members(targets), Members(targets));
      } else {
        WhileOff(Members(targets), Members(targets), Members(targets) - {t}, Members(targets) - {t});
      }
      var kept := RemoveFromGroups(groups, i);
      Drop(i, kept);
      r := Done;
    }

    /** The lists without target i. */
    method Drop(i: nat, kept: seq<Group>)
      requires |targets| == |specs| > 1 && i < |targets| && Known(targets, |epochs|) && Complete()
      requires GroupsSound(groups, |targets|) && kept == Removed(groups, i)
      requires Inv(state.StateRunning?, Members(targets) - {targets[i]}, Members(targets) - {targets[i]})
      modifies `targets, `specs, `groups
      ensures Valid() && groups == kept
      ensures targets == Without(old(targets), i) && specs == Without(old(specs), i)
    {
      hide Pinger.Valid, Pinger.OneChannelEach, Removed, Known, GroupsSound, Members;
      RemovalKeepsSound(targets, groups, i);
      WithoutMember(targets, |epochs|, i);
      specs := specs[..i] + specs[i+1..];
      targets := targets[..i] + targets[i+1..];
      groups := kept;
    }

    /** deleteHost: the one target shown under that name. */
    method DeleteHost(host: string) returns (r: Outcome)
      requires Valid() && !state.StateTerminated?
      modifies `targets, `specs, `groups, p, routeEngine, portChecker
      ensures Valid()
      ensures r.Done? <==> |old(targets)| > 1 && exists i: nat :: Only(old(specs), host, i)
      ensures r.Done? ==> forall i: nat :: Only(old(specs), host, i) ==>
                && targets == Without(old(targets), i) && specs == Without(old(specs), i)
                && groups == Removed(old(groups), i)
      ensures r.Failed? ==> targets == old(targets) && specs == old(specs) && groups == old(groups)
    {
      hide Pinger.Valid, Pinger.OneChannelEach, Known, Inv, Removed, Without, Complete, Only;
      var matches := ShownAs(host);
      if |matches| == 0 {
        return Failed(NotFound);
      }
      if |matches| > 1 {
        return Failed(Ambiguous);
      }
      assert matches == [matches[0]] && Only(specs, host, matches[0]);
      r := RemoveAt(matches[0]);
    }

    /** The targets shown under that name; Only(i) holds when i is the one. */
    method ShownAs(host: string) returns (matches: seq<nat>)
      ensures forall k :: 0 <= k < |matches| ==> matches[k] < |specs| && specs[matches[k]].Display() == host
      ensures forall i: nat :: Only(specs, host, i) <==> matches == [i]
    {
      matches := [];
      for i := 0 to |specs|
        invariant forall k :: 0 <= k < |matches| ==> matches[k] < i && specs[matches[k]].Display() == host
        invariant forall k, l :: 0 <= k < l < |matches| ==> matches[k] < matches[l]
        invariant forall j :: 0 <= j < i && specs[j].Display() == host ==> j in matches
      {
        if specs[i].Display() == host {
          matches := matches + [i];
        }
      }
      forall i: nat ensures Only(specs, host, i) <==> matches == [i] {
        OnlyMatch(specs, host, matches, i);
      }
    }

    /** deleteTargetID. */
    method DeleteTargetID(id: Target) returns (r: Outcome)
      requires Valid() && !state.StateTerminated?
      modifies `targets, `specs, `groups, p, routeEngine, portChecker
      ensures Valid()
      ensures r == if id !in old(targets) then Failed(NoLongerActive)
                   else if |old(targets)| <= 1 then Failed(LastHost)
                   else Done
      ensures r.Done? ==> forall i :: 0 <= i < |old(targets)| && old(targets)[i] == id ==>
                && targets == Without(old(targets), i) && specs == Without(old(specs), i)
                && groups == Removed(old(groups), i)
      ensures r.Failed? ==> targets == old(targets) && specs == old(specs) && groups == old(groups)
    {
      hide Pinger.Valid, Pinger.OneChannelEach, Inv, Removed, Without, Complete;
      for i := 0 to |targets|
        invariant id !in targets[..i]
      {
        if targets[i] == id {
          r := RemoveAt(i);
          return;
        }
      }
      assert targets[..|targets|] == targets;
      r := Failed(NoLongerActive);
    }

    // ----- Live reload -----

    /** The old targets that are not reused are detached. */
    method DetachOthers(reused: set<Target>, ghost members: set<Target>, ghost monitored: set<Target>)
      requires Inv(true, members, monitored) && Complete()
      modifies p, routeEngine, portChecker
      ensures Inv(true, members - (Members(targets) - reused), monitored - (Members(targets) - reused)) && Complete()
      ensures SameWorkers(members - (Members(targets) - reused))
    {
      hide Inv, Complete;
      Registered(members, monitored);
      ghost var gone: set<Target> := {};
      assert members - gone == members && monitored - gone == monitored;
      for i := 0 to |targets|
        invariant gone == Members(targets[..i]) - reused
        invariant Inv(true, members - gone, monitored - gone) && Complete() && SameWorkers(members - gone)
      {
        assert Members(targets[..i+1]) == Members(targets[..i]) + {targets[i]};
        if targets[i] !in reused {
          Detach(targets[i], members - gone, monitored - gone);
          assert members - (gone + {targets[i]}) == members - gone - {targets[i]};
          assert monitored - (gone + {targets[i]}) == monitored - gone - {targets[i]};
          gone := gone + {targets[i]};
        }
      }
      assert targets[..|targets|] == targets;
    }

    /** The membership of the pinger after a reload: the added targets are
        registered before any other is detached. */
    method ChangeMembers(ts: seq<Target>, added: seq<int>, reused: set<Target>) returns (r: AddResult)
      requires Inv(state.StateRunning?, Members(targets), Members(targets)) && Complete()
      requires InRange(added, |ts|) && Distinct(Read(ts, added)) && Distinct(targets)
      requires Members(Read(ts, added)) !! Members(targets) && reused <= Members(targets)
      modifies p, ids, routeEngine, portChecker
      ensures r == if state.StateRunning? && |added| > PARTITION - old(ids.echo) then IdsExhausted else Added
      ensures r.Added? ==> Inv(state.StateRunning?, reused + Members(Read(ts, added)), reused) && Complete()
      ensures r.Added? && state.StateRunning? ==> SameWorkers(reused)
      ensures !r.Added? ==> Inv(true, Members(targets), Members(targets)) && Complete()
      ensures !r.Added? ==> p.workerStates == old(p.workerStates)
    {
      hide Pinger.Valid, Pinger.OneChannelEach, Inv;
      ghost var all, extra := Members(targets), Members(Read(ts, added));
      if state.StateRunning? {
        r := Exchange(ts, added, reused);
      } else {
        WhileOff(all, all, reused + extra, reused);
        r := Added;
      }
    }

    /** The same on the running pinger. */
    method Exchange(ts: seq<Target>, added: seq<int>, reused: set<Target>) returns (r: AddResult)
      requires Inv(true, Members(targets), Members(targets)) && Complete()
      requires InRange(added, |ts|) && Distinct(Read(ts, added)) && Distinct(targets)
      requires Members(Read(ts, added)) !! Members(targets) && reused <= Members(targets)
      modifies p, ids, routeEngine, portChecker
      ensures r == if |added| > PARTITION - old(ids.echo) then IdsExhausted else Added
      ensures r.Added? ==> Inv(true, reused + Members(Read(ts, added)), reused) && Complete() && SameWorkers(reused)
      ensures !r.Added? ==> Inv(true, Members(targets), Members(targets)) && Complete()
      ensures !r.Added? ==> p.workerStates == old(p.workerStates)
    {
      hide Pinger.Valid, Pinger.OneChannelEach, Inv, Complete;
      ghost var all, extra := Members(targets), Members(Read(ts, added));
      r := Added;
      IdsLeft(true, all, all);
      Registered(all, all);
      if |added| > 0 || |reused| != |targets| {
        r := Register(Read(ts, added), all, all);
        if !r.Added? {
          return;
        }
        DetachOthers(reused, all + extra, all);
        assert all + extra - (all - reused) == reused + extra && all - (all - reused) == reused;
      } else {
        AllReused(targets, reused);
        assert extra == {} && reused + extra == all;
      }
    }

    method Install(cfg: Config, ts: seq<Target>, newSpecs: seq<TargetSpec>, newGroups: seq<Group>,
                   ghost monitored: set<Target>)
      requires Inv(state.StateRunning?, Members(ts), monitored) && Complete()
               && cfg.RouteEnabled() == config.RouteEnabled()
      modifies `config, `targets, `specs, `groups
      ensures Inv(state.StateRunning?, Members(ts), monitored) && Complete()
      ensures config == cfg && targets == ts && specs == newSpecs && groups == newGroups
    {
      hide Pinger.Valid, Pinger.OneChannelEach;
      config, targets, specs, groups := cfg, ts, newSpecs, newGroups;
    }

    /** The rest of an applied reload: the new lists, then the monitors of the added
        targets, then the route engine when its mode changed. */
    method Apply(cfg: Config, ts: seq<Target>, newSpecs: seq<TargetSpec>, newGroups: seq<Group>, added: seq<int>,
                 ghost reused: set<Target>)
      requires InRange(added, |ts|) && Members(ts) == reused + Members(Read(ts, added))
               && cfg.RouteEnabled() == config.RouteEnabled()
      requires Inv(state.StateRunning?, Members(ts), reused) && Complete() && !state.StateTerminated?
      requires |ts| == |newSpecs| > 0 && Known(ts, |epochs|) && GroupsSound(newGroups, |newSpecs|)
      modifies `config, `targets, `specs, `groups, `routeEngine, `made, routeEngine, portChecker, life
      ensures old(life.trace) <= life.trace && Renewed()
      ensures Valid() && config == cfg && targets == ts && specs == newSpecs && groups == newGroups
      ensures if state.StateRunning? && cfg.mtr != old(config).mtr then fresh(routeEngine)
              else routeEngine == old(routeEngine)
    {
      hide Inv, Complete, Known, GroupsSound;
      var previous := config;
      Install(cfg, ts, newSpecs, newGroups, reused);
      AttachAll(Read(ts, added), Members(ts), reused);
      if cfg.mtr != previous.mtr && state.StateRunning? {
        RestartRoute(Members(targets));
      }
    }

    /** reloadLive.  A configuration that differs in more than the route mode and
        the display settings is not applied.  Otherwise targets of the same host and
        pinned address keep their measurements (Reconciled), the others are replaced,
        and when the added ones cannot be registered nothing changes. */
    method ReloadLive(cfg: Config, newSpecs: seq<TargetSpec>, newGroups: seq<Group>)
      returns (applied: bool, r: Outcome, ghost added: seq<int>, ghost reused: set<Target>)
      requires Valid() && !state.StateTerminated? && |newSpecs| > 0 && GroupsSound(newGroups, |newSpecs|)
      modifies `config, `targets, `specs, `groups, `epochs, `routeEngine, `made, p, ids, routeEngine, portChecker, life
      ensures old(life.trace) <= life.trace && Renewed()
      ensures Valid()
      ensures applied <==> r.Done? && ProbeConfig(cfg) == ProbeConfig(old(config))
      ensures applied ==> config == cfg && specs == newSpecs && groups == newGroups
      ensures applied && state.StateRunning? ==> SameWorkers(reused)
      ensures applied && state.StateRunning? ==>
                if cfg.mtr == old(config).mtr then routeEngine == old(routeEngine) else fresh(routeEngine)
      ensures applied ==>
                Reconciled(old(specs), old(targets), newSpecs, |old(epochs)|, targets, added, reused, |epochs|)
      ensures !applied ==> config == old(config) && targets == old(targets)
      ensures !applied ==> specs == old(specs) && groups == old(groups)
      ensures !applied && p != null ==> p.workerStates == old(p.workerStates)
      ensures r.Failed? <==> && ProbeConfig(cfg) == ProbeConfig(old(config)) && state.StateRunning?
                             && |added| > PARTITION - old(ids.echo)
      ensures |epochs| >= |old(epochs)| && epochs[..|old(epochs)|] == old(epochs)
    {
      hide Pinger.Valid, Pinger.OneChannelEach, Inv, Reconciled, ProbeConfig, Complete, GroupsSound;
      hide Distinct, Members, Config.RouteEnabled, Zeros, Fresh, Read, InRange;
      if ProbeConfig(config) != ProbeConfig(cfg) {
        return false, Done, [], {};
      }
      var ts, places, kept, next := Reconcile(specs, targets, newSpecs, |epochs|);
      added, reused := places, kept;
      var a := Adopt(cfg, newSpecs, newGroups, ts, places, kept, next);
      applied, r := a.Added?, if a.Added? then Done else Failed(NotAdded(a));
    }

    /** The reconciled targets take over, unless the added ones cannot be registered. */
    method Adopt(cfg: Config, newSpecs: seq<TargetSpec>, newGroups: seq<Group>, ts: seq<Target>, places: seq<int>,
                 kept: set<Target>, next: Target) returns (a: AddResult)
      requires Valid() && !state.StateTerminated? && |newSpecs| > 0 && GroupsSound(newGroups, |newSpecs|)
      requires ProbeConfig(cfg) == ProbeConfig(config)
      requires Reconciled(specs, targets, newSpecs, |epochs|, ts, places, kept, next)
      modifies `config, `targets, `specs, `groups, `epochs, `routeEngine, `made, p, ids, routeEngine, portChecker, life
      ensures old(life.trace) <= life.trace && Renewed()
      ensures Valid() && |epochs| == next >= |old(epochs)| && epochs[..|old(epochs)|] == old(epochs)
      ensures a == if state.StateRunning? && |places| > PARTITION - old(ids.echo) then IdsExhausted else Added
      ensures a.Added? ==> config == cfg && targets == ts && specs == newSpecs && groups == newGroups
      ensures a.Added? && state.StateRunning? ==> SameWorkers(kept)
      ensures a.Added? && state.StateRunning? ==>
                if cfg.mtr == old(config).mtr then routeEngine == old(routeEngine) else fresh(routeEngine)
      ensures !a.Added? ==> config == old(config) && targets == old(targets)
      ensures !a.Added? ==> specs == old(specs) && groups == old(groups)
      ensures !a.Added? && p != null ==> p.workerStates == old(p.workerStates)
    {
      hide Pinger.Valid, Pinger.OneChannelEach, Inv, Reconciled, Known, ProbeConfig, Complete, GroupsSound;
      hide Distinct, Members, Config.RouteEnabled, Zeros, Fresh, Read, InRange;
      ReconciledSets(specs, targets, newSpecs, |epochs|, ts, places, kept, next);
      var unused := NewTargets(next - |epochs|, Members(targets), Members(targets));
      a := ChangeMembers(ts, places, kept);
      if a.Added? {
        SameRoute(config, cfg);
        Apply(cfg, ts, newSpecs, newGroups, places, kept);
      }
    }

    // ----- The command machine -----

    method HandleStart(openOk: bool) returns (r: Outcome)
      requires Valid()
      modifies `p, `routeEngine, `portChecker, `httpChecker, `state, `made, ids, life
      ensures old(life.trace) <= life.trace && Renewed()
      ensures Valid()
      ensures r == if old(state).StateTerminated? then Failed(SupervisorTerminated)
                   else if old(state).StateRunning? || (openOk && |targets| <= PARTITION - old(ids.echo)) then Done
                   else Failed(StartFailed)
      ensures state == if r.Done? then StateRunning else old(state)
      ensures !old(state).StateStopped? || r.Failed? ==> p == old(p) && life.trace == old(life.trace)
    {
      hide Valid;
      match state {
        case StateTerminated =>
          r := Failed(SupervisorTerminated);
        case StateRunning =>
          r := Done;
        case StateStopped =>
          r := StartAll(openOk);
      }
    }

    /** A restart stops everything first, also when nothing can be started then. */
    method HandleRestart(openOk: bool) returns (r: Outcome)
      requires Valid()
      modifies `p, `routeEngine, `portChecker, `httpChecker, `state, `made, ids, life
      modifies p, routeEngine, portChecker, httpChecker
      ensures old(life.trace) <= life.trace && Renewed()
      ensures Valid()
      ensures r == if old(state).StateTerminated? then Failed(SupervisorTerminated)
                   else if openOk && |targets| <= PARTITION - old(ids.echo) then Done else Failed(StartFailed)
      ensures state == if r.Done? then StateRunning
                       else if old(state).StateTerminated? then StateTerminated
                       else StateStopped
      ensures r.Done? ==> fresh(p) && p.since == old(ids.echo)
      ensures old(state).StateTerminated? ==> life.trace == old(life.trace)
    {
      hide Valid;
      if state.StateTerminated? {
        return Failed(SupervisorTerminated);
      }
      if state.StateRunning? {
        StopRunning();
      }
      r := StartAll(openOk);
    }

    /** One monitor is replaced, only while running. */
    method ResetOne(kind: Kind)
      requires Valid() && !kind.Ping?
      modifies `routeEngine, `portChecker, `httpChecker, `made, life, routeEngine, portChecker, httpChecker
      ensures old(life.trace) <= life.trace && Renewed()
      ensures Valid()
      ensures !state.StateRunning? ==> life.trace == old(life.trace)
      ensures state.StateRunning? ==>
                match kind
                case Route => routeEngine != null && fresh(routeEngine)
                case Port => portSpecs > 0 ==> portChecker != null && fresh(portChecker)
                case Http => httpURLs > 0 ==> httpChecker != null && fresh(httpChecker)
                case Ping => true
    {
      hide Pinger.Valid, Pinger.OneChannelEach, Known;
      if !state.StateRunning? {
        return;
      }
      match kind {
        case Route =>
          RestartRoute(Members(targets));
        case Port =>
          RestartPortChecker(Members(targets));
        case Http =>
          RestartHTTPChecker(Members(targets));
        case Ping =>
      }
    }

    lemma Parallel()
      requires Valid()
      ensures |targets| == |specs|
    {
    }

    /** What a successful edit did. */
    twostate predicate Edited(c: Command)
      reads this
    {
      match c
      case AddHost(host, dns) =>
        && specs == old(specs) + NewSpecs(host, old(config).resolveAll, dns)
        && groups == old(groups) && config == old(config)
      case DeleteHost(host) =>
        exists i: nat :: Only(old(specs), host, i) && i < |old(targets)| && LeftOut(i)
      case DeleteTargetID(id) =>
        exists i: nat :: i < |old(targets)| && old(targets)[i] == id && LeftOut(i)
      case Reload(cfg, newSpecs, newGroups) =>
        if ProbeConfig(cfg) == ProbeConfig(old(config)) then config == cfg && specs == newSpecs && groups == newGroups
        else config == old(config) && targets == old(targets) && specs == old(specs) && groups == old(groups)
      case _ => true
    }

    twostate predicate LeftOut(i: nat)
      requires i < |old(targets)|
      reads this
    {
      && targets == Without(old(targets), i) && i < |old(specs)| && specs == Without(old(specs), i)
      && groups == Removed(old(groups), i) && config == old(config)
    }

    /** cmdEditTargets: one edit of the membership. */
    method HandleEdit(c: Command) returns (r: Outcome)
      requires Valid() && Loadable(c) && (c.AddHost? || c.DeleteHost? || c.DeleteTargetID? || c.Reload?)
      modifies `config, `targets, `specs, `groups, `epochs, `routeEngine, `made, p, ids, routeEngine, portChecker, life
      ensures old(life.trace) <= life.trace && Renewed()
      ensures Valid()
      ensures r.Failed? || state.StateTerminated? ==>
                targets == old(targets) && specs == old(specs) && groups == old(groups) && config == old(config)
      ensures state.StateTerminated? ==> r.Failed? && life.trace == old(life.trace) && epochs == old(epochs)
      ensures state.StateTerminated? && c.Reload? ==> r == Failed(SupervisorTerminated)
      ensures r.Done? ==> Edited(c)
      ensures |epochs| >= |old(epochs)| && epochs[..|old(epochs)|] == old(epochs)
    {
      hide Valid, Removed, Without, NewSpecs, Fresh, InList, ProbeConfig, Reconciled, GroupsSound;
      if c.AddHost? && c.host == "" {
        return Failed(EmptyHost);
      }
      if state.StateTerminated? {
        return Failed(SupervisorTerminated);
      }
      match c {
        case AddHost(host, dns) =>
          r := AddHost(host, dns);
        case DeleteHost(host) =>
          Parallel();
          r := DeleteHost(host);
          if r.Done? {
            ghost var i: nat :| Only(old(specs), host, i);
            assert LeftOut(i);
          }
        case DeleteTargetID(id) =>
          Parallel();
          r := DeleteTargetID(id);
          if r.Done? {
            ghost var i: nat :| i < |old(targets)| && old(targets)[i] == id;
            assert LeftOut(i);
          }
        case Reload(cfg, newSpecs, newGroups) =>
          var applied: bool;
          ghost var added, reused;
          applied, r, added, reused := ReloadLive(cfg, newSpecs, newGroups);
      }
    }

    /** handle: one command. */
    method Handle(c: Command) returns (r: Outcome)
      requires Valid() && Loadable(c)
      modifies this, ids, life, p, routeEngine, portChecker, httpChecker
      ensures Valid() && old(life.trace) <= life.trace && Renewed()
      ensures old(state.StateTerminated?) ==> state.StateTerminated?
      ensures old(state.StateTerminated?) ==> life.trace == old(life.trace) && targets == old(targets)
      ensures old(state.StateTerminated?) && (c.Start? || c.Restart? || c.Reload?) ==> r == Failed(SupervisorTerminated)
      ensures c.Terminate? ==> state.StateTerminated?
      ensures c.Stop? && !old(state.StateTerminated?) ==> state.StateStopped?
      ensures (c.Start? || c.Restart?) && r.Done? ==> state.StateRunning?
      ensures c.Restart? && r.Failed? ==> !state.StateRunning?
      ensures !c.Terminate? && !c.Stop? && !c.Start? && !c.Restart? ==> state == old(state)
      ensures (c.AddHost? || c.DeleteHost? || c.DeleteTargetID? || c.Reload?) && r.Done? ==> Edited(c)
      ensures old(state.StateRunning?) && c.ResetRoute? ==> routeEngine != null && fresh(routeEngine)
      ensures old(state.StateRunning?) && c.ResetPort? && portSpecs > 0 ==> portChecker != null && fresh(portChecker)
      ensures old(state.StateRunning?) && c.ResetHTTP? && httpURLs > 0 ==> httpChecker != null && fresh(httpChecker)
      ensures old(state.StateRunning?) && c.ResetStats? ==> AllNew()
      ensures !c.ResetStats? ==> |epochs| >= |old(epochs)| && epochs[..|old(epochs)|] == old(epochs)
      ensures c.ResetStats? && !old(state.StateTerminated?) ==> |epochs| == |old(epochs)|
      ensures c.ResetStats? && !old(state.StateTerminated?) ==>
                forall t :: 0 <= t < |epochs| ==> epochs[t] == old(epochs[t]) + if t in targets then 1 else 0
      ensures r.Failed? ==> targets == old(targets) && specs == old(specs)
      ensures r.Failed? ==> groups == old(groups) && config == old(config)
    {
      hide Valid, Inv, Complete, Lists;
      r := Done;
      match c {
        case Start(openOk) =>
          r := HandleStart(openOk);
        case Restart(openOk) =>
          r := HandleRestart(openOk);
        case Stop =>
          if state.StateRunning? {
            StopRunning();
          }
        case Terminate =>
          if !state.StateTerminated? {
            Terminate();
          }
        case ResetStats =>
          if !state.StateTerminated? {
            ResetAll();
          }
        case ResetRoute =>
          ResetOne(Route);
        case ResetPort =>
          ResetOne(Port);
        case ResetHTTP =>
          ResetOne(Http);
        case AddHost(_, _) =>
          r := HandleEdit(c);
        case DeleteHost(_) =>
          r := HandleEdit(c);
        case DeleteTargetID(_) =>
          r := HandleEdit(c);
        case Reload(_, _, _) =>
          r := HandleEdit(c);
      }
    }
  }

  /** Any run of a session: between commands the memberships agree and nothing is live
      but the current components; groups stay disjoint and in range; every component is
      stopped before the next of its kind starts; after termination nothing starts. */
  method Session(ids: IDAllocator, specs: seq<TargetSpec>, groups: seq<Group>, config: Config, portSpecs: nat,
                 httpURLs: nat,
                 commands: seq<Command>)
    returns (s: Supervisor)
    requires ids.Valid() && |specs| > 0 && GroupsSound(groups, |specs|) && forall c :: c in commands ==> Loadable(c)
    modifies ids
    ensures s.Valid() && Orderly(s.life.trace)
    ensures (exists i :: 0 <= i < |commands| && commands[i].Terminate?) ==> s.state.StateTerminated?
  {
    s := new Supervisor(ids, specs, groups, config, portSpecs, httpURLs);
    for i := 0 to |commands|
      invariant s.Valid() && fresh(s) && fresh(s.life) && s.ids == ids
      invariant (s.p == null || fresh(s.p)) && (s.routeEngine == null || fresh(s.routeEngine))
      invariant (s.portChecker == null || fresh(s.portChecker)) && (s.httpChecker == null || fresh(s.httpChecker))
      invariant (exists j :: 0 <= j < i && commands[j].Terminate?) ==> s.state.StateTerminated?
    {
      var r := s.Handle(commands[i]);
    }
    UnbrokenOrderly(s.life.trace);
  }
}
