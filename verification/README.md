# mping: verified model of its measuring core

mping pings many targets at once and shows exact accounts of what happened to every probe. This project models the
five parts of it that carry those accounts, in the form the Go code has them (classes whose methods change their
fields, loops over arrays and maps), and proves what they promise for all inputs, all runs and all interleavings.

1. **Probe lifecycle** (`Worker`, `WorkerRuns`, `Ledger`, `Pacing`, `RecentSeq`, `EchoIds`, `Pinger`, `Echo`). One worker per target
   sends probes, keeps the outstanding ones under 16-bit sequence numbers, sweeps timeouts, and tells duplicates from
   late replies. `Worker` keeps a ghost history of its run, a `Book`: which attempts were sent, how each was settled,
   and which entries were overwritten. Its invariant balances the book with the target's counters at every step, while
   other goroutines reset the statistics at any point between two sections that hold the target's lock. A worker may
   start in the middle of a statistics window; `WorkerRuns` runs any number of them, one after the other, on one target.
2. **Sliding statistics** (`RttAccumulator`, `Health`, `TargetStats`, `ResetIsolation`). Everything a target shows is a
   function of one ghost list: the callbacks accepted since the last reset. Rings, running moments, the jitter filter
   and the down/up latch are proved to be readings of that list.
3. **Names and patterns** (`NetBox`, `HostDocument`, `Expand`, `ExpandAddress`, `Decimals`). Names generated for NetBox
   imports, the check of a whole document, and the expansion of host patterns.
4. **Supervisor** (`Supervisor`, `Monitors`, `Lifecycle`, `Reconcile`, `TargetSpecs`, `Targets`). The command machine
   that keeps target list, groups, pinger and monitors in step through add, delete, live reload, reset, stop and
   restart. Components report their starts and stops to a ghost trace, about which order is proved.
5. **Column fitting** (`WidthFit`).

`Arith`, `Sequences`, `Sets` and `Options` are small helpers. A target (`*stats.TargetStats`) is a `TargetStats` object
in parts 1 and 2 and a number, its identity, in part 4. What comes from outside is a parameter: clock readings, DNS
answers, whether a write or a socket succeeds, which reply arrives and when, how many resets fall where.

What the proofs found about the code, each with an exact condition:

- A probe is lost from the accounts exactly when a send finds its wire number still occupied, which needs an entry
  65,536 attempts old (`Ledgers.ConservationExactly`, `Ledgers.OverwriteGap`); `WorkerRuns.OverwritingRun` is a run in
  which that happens. It cannot happen when a sweep late enough to time out what a send event sent always comes before
  65,535 more send events, nor when the worker is to make at most 65,536 attempts (`Workers.Worker.Run`). Within
  the accepted interval and timeout one sweep between the 300th and the 65,536th send event from any one on is enough
  (`Workers.PacedSweepsSuffice`), and right after a sweep the next number is free (`Pacing.ValidatedBound`).
- The recent-loss ring can lose an outcome only when the clock steps back (`Healths.RingExactWhenKept`,
  `Healths.BackwardClockLoses`). The code reads wall-clock seconds; a clock that does not go back is a hypothesis of
  `Healths.RingRefinesLog`.
- A brace range that ends at the largest 64-bit integer does not expand to its hosts: the capacity computation or the
  loop counter wraps (`Expand.LargestIntAborts`, `Expand.LargestIntParses`). `Expand.AbortsExactly` says which patterns
  abort. All other ranges expand exactly when they ascend and the product is within the cap
  (`Expand.BracesSucceedExactly`).
- Zero padding is kept up to a width of 1,000,000; beyond it Go's formatter writes an error text instead of a numeral
  (`Expand.PaddedDenotes`).
- Generated names never cause a document to be refused: it is accepted exactly when the names the user wrote are sound
  (`HostDocument.ResolvedDocumentAccepted`).

## Model

| member | source | states |
|---|---|---|
| Workers.Worker.Run | internal/pinger/worker.go:223-334 | for every schedule of events: when the worker returns, nothing is outstanding and every sent probe was settled once or had its entry overwritten; if the schedule sweeps in time, or at most 65,536 attempts are to be made, none was overwritten and sent = received + cancelled + lost on the wire is kept; a natural exit means exactly Count attempts (one if it began at the Count) and no probe dropped; the states it went through are those of the events, and with sends an interval apart every sweep leaves at most ceil(timeout / interval) probes, at most 300 within the accepted limits |
| WorkerRuns.RunStints | cmd/main/supervisor.go:53-68 | any number of workers one after the other on the same target, whose statistics are kept over stop, start and restart, each sweeping in time or making at most 65,536 attempts: from an empty window on, sent = received + cancelled + lost on the wire |
| WorkerRuns.RunStint | internal/pinger/worker.go:223-334 | one such worker, begun in the middle of a window, leaves the balance as it found it, or a clean one after a reset |
| WorkerRuns.OverwritingRun | internal/pinger/worker.go:304-309 | a run of the worker that loses a probe: one send, 65,535 that do not marshal, one more send, no sweep |
| Workers.PacedSweepsSuffice | internal/pinger/worker.go:291-329 | sends an interval apart and one sweep between the 300th and the 65,536th send from any one on sweep in time |
| Workers.SweptWithinTime | internal/pinger/worker.go:291-329 | the same by the clock: with sends an interval apart, a sweep in time for every send that another follows 65,536 intervals later is enough |
| Workers.PaceTracedNext | internal/pinger/worker.go:291-329 | a schedule of sends an interval apart makes paced attempts, and each sweep leaves at most ceil(timeout / interval) probes |
| Workers.TracedNext | internal/pinger/worker.go:279-329 | after every event each outstanding probe is traced to the send event that made it, with no late sweep since; under a timely schedule the next number is free |
| Workers.Worker.Loop | internal/pinger/worker.go:279-333 | the invariants hold after every event, and the loop ends of itself only with sending done and nothing outstanding |
| Workers.Worker.Select | internal/pinger/worker.go:279-329 | what each kind of event does to the worker's state; for a send, the probe entered, its number and the end at the Count; every branch keeps the invariants |
| Workers.Worker.constructor | internal/pinger/worker.go:223-277 | a new worker satisfies the invariants on any target, whatever its window has seen before, and notes what that window leaves unaccounted for |
| Workers.Worker.SendTimerFired | internal/pinger/worker.go:291-318 | the whole new state: none without an address or once sending is done; otherwise one number is used, a written probe is entered in the window it began in, and sending ends when the number reaches the Count |
| Workers.Worker.AttemptSend | internal/pinger/worker.go:304-318 | the whole new state of an attempt, with resets before and after the send is counted; the balance survives them |
| Workers.Worker.SendProbe | internal/pinger/worker.go:34-72 | what each outcome of a send counts: nothing for a marshalling failure, a loss for a failed write, one sent probe otherwise, and only in the probe's own window |
| Workers.Worker.Transmit | internal/pinger/worker.go:34-72 | the same with resets on either side of the callback: the probe in hand is counted in the current window or not at all |
| Workers.Worker.Conclude | internal/pinger/worker.go:307-318 | a sent probe is entered under its 16-bit number and the balance closes; sending ends at the Count |
| Workers.Worker.Resolve | internal/pinger/worker.go:286-302 | a failed lookup is a loss of its own, in the window it began in, and none when stopping |
| Workers.Worker.SettleOne | internal/pinger/worker.go:342-366 | one outstanding probe leaves, is counted once in its own window and is remembered with how it went |
| Workers.Worker.SettleReply | internal/pinger/worker.go:341-391 | a reply settles exactly the outstanding probe of its number; otherwise it is classified by history or changes nothing |
| Workers.Worker.Classify | internal/pinger/worker.go:368-390 | a reply that matches only history is about the latest probe sent with that number: duplicate only if it was answered, late only if it was counted as lost |
| Workers.Worker.SweepTimeouts | internal/pinger/worker.go:395-408 | exactly the probes that reached the timeout are settled as losses, with resets anywhere between; after paced attempts at most ceil(timeout / interval) remain |
| Workers.Worker.CancelOutstanding | internal/pinger/worker.go:253-258 | every probe still outstanding counts as cancelled, and nothing already settled changes |
| Workers.Worker.OtherResets | internal/stats/stats.go:268-293 | any number of resets by others keeps the invariants and starts the balance afresh |
| Workers.NextExpiry | internal/pinger/worker.go:167-177 | the result is the earliest deadline, none when nothing is outstanding |
| Workers.SweepSettlesFrom | internal/pinger/worker.go:185-191 | a sweep settles something exactly from that deadline on |
| Workers.AllSettled | internal/pinger/worker.go:253-258 | with nothing outstanding, every sent probe is settled or overwritten, never both |
| Workers.OkEntered | internal/pinger/worker.go:304-318 | entering a probe keeps the books sound, balanced and paced, and overwrites nothing if no entry is 65,536 attempts old |
| Workers.OkSettled | internal/pinger/worker.go:342-366 | settling a probe with the callback that goes with it keeps the books sound and balanced in every window |
| Workers.OkReset | internal/stats/stats.go:268-293 | a reset at any moment keeps the books sound and empties the balance of the new window |
| Workers.OkAfterSweep | internal/pinger/worker.go:395-408 | the outstanding bound for the state a sweep leaves |
| Ledgers.InsertBalance | internal/pinger/worker.go:306-309 | entering a probe turns the one in hand into an outstanding one, and moves an occupant to the overwritten ones |
| Ledgers.SettleBalance | internal/pinger/worker.go:342-366 | taking a probe out puts one in hand and loses none |
| Ledgers.SettleEntries | internal/pinger/worker.go:341-408 | recording a settled probe keeps every history entry about the latest settled probe of its number |
| Ledgers.ConservationExactly | internal/stats/stats.go:30-75 | sent = received + cancelled + lost on the wire + outstanding + what was unaccounted for at the start, exactly when no entry of this window was overwritten |
| Ledgers.OverwriteGap | internal/pinger/worker.go:304-309 | an entry can be overwritten only by an attempt at least 65,536 later |
| Ledgers.LaterSound | internal/stats/probe.go:15-34 | after a reset no outstanding probe belongs to the new window |
| Pacing.OutstandingBound | internal/pinger/worker.go:291-318 | attempts an interval apart and none older than the timeout: at most ceil(timeout / interval) outstanding, each fewer than that from the last attempt |
| Pacing.ValidatedBound | cmd/main/config_validation.go:140-145 | within the accepted interval and timeout and after a sweep: at most 300 outstanding, each fewer than 300 attempts back, and the next wire number is free |
| RecentSequences.RecentSeqHistory.Record | internal/pinger/worker.go:131-150 | list and index stay in bijection, one entry per number, at most 512, newest last, oldest evicted |
| RecentSequences.RecentSeqHistory.Lookup | internal/pinger/worker.go:153-159 | finds the entry of a number exactly when there is one |
| RecentSequences.RecordedMembers | internal/pinger/worker.go:131-150 | recording keeps numbers distinct and invents no entry |
| RecentSequences.EvictedByNewer | internal/pinger/pinger.go:46-61 | a number is gone once 512 other numbers were recorded after it |
| EchoIds.IDAllocator.EchoID | internal/pinger/targets.go:26-35 | an identifier in [0, 32768) never issued before, or none exactly when all were |
| EchoIds.IDAllocator.TraceID | internal/pinger/targets.go:37-52 | the first free route identifier in cyclic order, in [32768, 65536); -1 exactly when all are reserved |
| EchoIds.IDAllocator.ReleaseTrace | internal/pinger/targets.go:54-58 | frees that identifier and no other |
| EchoIds.EverySlotVisited | internal/pinger/targets.go:43-50 | the cyclic scan reaches every route identifier |
| EchoIds.Session | internal/pinger/targets.go:9-24 | over any sequence of requests: no echo identifier is issued twice and none is a route identifier; a route identifier is issued only when no earlier request got it without its release since; a request goes without exactly when all identifiers of its kind are taken |
| Pingers.Pinger.AllocateWorkerID | internal/pinger/targets.go:66-76 | an identifier new to the pinger, and to the session when the allocator is shared; none exactly when they are used up |
| Pingers.Pinger.Start | internal/pinger/pinger.go:405-469 | succeeds exactly when sockets open and identifiers suffice, then one worker per target; a failure launches none |
| Pingers.Pinger.AddTarget | internal/pinger/targets.go:107-128 | which of the four outcomes, and the exact new registrations; other workers are untouched |
| Pingers.Pinger.RemoveTarget | internal/pinger/targets.go:132-150 | the target's worker and channel are gone, and only they |
| Pingers.Pinger.WorkerReturns | internal/pinger/targets.go:86-101 | completion is signalled exactly when a running worker ends and none is left running |
| Pingers.Pinger.Dispatch | internal/pinger/receiver.go:197-238 | a reply reaches at most the channel of its identifier, when there is room, which is the channel of the worker that identifier was allocated for |
| Pingers.Pinger.StopAndWait | internal/pinger/pinger.go:357-367 | every worker is joined |
| Pingers.RegisterTargets | cmd/main/live_targets.go:93-103 | all targets are registered, or the registrations are exactly as before |
| RttAccumulators.WelfordStep | internal/stats/rtt_accumulator.go:40-58 | one update keeps the second moment about every point exact |
| RttAccumulators.MomentsMeaning | internal/stats/rtt_accumulator.go:40-58 | the mean is the exact mean and m2 the exact, non-negative sum of squared deviations |
| RttAccumulators.RttAccumulator.Record | internal/stats/rtt_accumulator.go:40-58 | non-positive samples are ignored; all fields stay the readings of the samples recorded |
| RttAccumulators.RttAccumulator.Avg | internal/stats/rtt_accumulator.go:61-66 | 0 without samples, else the truncated mean, between minimum and maximum |
| RttAccumulators.JitterStep | internal/stats/rtt_accumulator.go:113-119 | the new value lies between the old one and the step size; the gap shrinks by its sixteenth, strictly while it is 16 or more |
| RttAccumulators.JitterBounded | internal/stats/rtt_accumulator.go:113-119 | jitter is never negative nor above the largest step seen |
| RttAccumulators.JitterSettles | internal/stats/rtt_accumulator.go:113-119 | under a constant step it comes within 16 and stays |
| RttAccumulators.RingHoldsLast | internal/stats/rtt_accumulator.go:83-92 | the ring holds the last elements appended, each in its slot |
| RttAccumulators.SnapshotIsLast | internal/stats/rtt_accumulator.go:123-138 | the snapshot is the last min(capacity, k) values in order |
| RttAccumulators.WindowIsLast | internal/stats/rtt_accumulator.go:146-171 | the windowed read is the last min(n, length) values |
| RttAccumulators.RttAccumulator.AppendHistory | internal/stats/rtt_accumulator.go:83-92 | one value joins the history |
| RttAccumulators.RttAccumulator.HistorySnapshot | internal/stats/rtt_accumulator.go:95-97 | the suffix of everything appended |
| RttAccumulators.RttAccumulator.HistorySnapshotWindow | internal/stats/rtt_accumulator.go:104-106 | the shorter suffix asked for |
| Healths.RingRefinesLog | internal/stats/health.go:95-104 | with a clock that does not go back, the bucket ring counts exactly the outcomes of the log in (now - window, now], for every window of a second or more |
| Healths.RingExactWhenKept | internal/stats/health.go:95-130 | with any clock, the counts agree exactly when no recent outcome's bucket was taken over |
| Healths.BackwardClockLoses | internal/stats/health.go:106-130 | a concrete clock step that loses an outcome |
| Healths.BucketsHold | internal/stats/health.go:106-130 | each bucket counts exactly the outcomes it still keeps, all of one second |
| Healths.LatchMeansDown | internal/stats/health.go:141-155 | the latch is down exactly when some F consecutive failures have no R consecutive successes wholly after them |
| Healths.RunsExclusive | internal/stats/health.go:117-127 | the two run lengths are never both positive |
| Healths.Health.RecordOutcome | internal/stats/health.go:106-130 | the outcome joins the log; ring, run lengths, times and judgment stay readings of it, and the rules stay |
| Healths.Health.RecentHealth | internal/stats/health.go:95-104 | the sums read are the numbers of kept recent outcomes |
| Healths.Health.Evaluate | internal/stats/health.go:141-155 | the recent counts and one step of the latch |
| Healths.Health.Configure | internal/stats/health.go:73-86 | invalid rules become the defaults, measurements stay, a new window length empties the ring |
| Healths.Health.Reevaluate | internal/stats/health.go:141-155 | judging again without a new outcome changes nothing |
| Healths.Health.RecentMeaning | internal/stats/health.go:95-104 | the stored counts are those of the plain log at the time of the last judgment |
| Healths.Health.Meaning | internal/stats/health.go:141-155 | under unchanged rules `down` and the counters mean what the log says |
| TargetStatistics.TargetStats.OnSuccessLocked | internal/stats/stats.go:210-228 | the reply joins the log and every statistic stays the reading of it, the last error cleared |
| TargetStatistics.TargetStats.OnFailureLocked | internal/stats/stats.go:257-264 | the same for a loss, with its cause and time as the last ones |
| TargetStatistics.TargetStats.Apply | internal/stats/probe.go:37-65 | the same for any callback |
| TargetStatistics.TargetStats.Reset | internal/stats/stats.go:268-293 | a cleared target of the next epoch, its rules kept |
| TargetStatistics.TargetStats.AppendHistory | internal/stats/history.go:32-38 | value and time enter their rings in step |
| TargetStatistics.TargetStats.HistorySamples | internal/stats/history.go:42-65 | the last samples paired with the times they were recorded at |
| TargetStatistics.Probe.Update | internal/stats/probe.go:21-34 | a callback counts exactly in its own epoch |
| ResetIsolation.RunAndReplay | internal/stats/probe.go:5-34 | for any interleaving of probes, resets and callbacks, the target shows exactly what a new target of the same rules shows after only the callbacks of probes begun since the last reset |
| ResetIsolation.Run | internal/stats/probe.go:15-34 | for any such interleaving, the log is those callbacks, stated without epochs |
| ResetIsolation.Step | internal/stats/probe.go:15-34 | one event of such an interleaving |
| ResetIsolation.SameLogSameStatistics | internal/stats/stats.go:210-293 | targets with the same such callbacks under the same rules show the same: counters, last readings, jitter, RTT statistics with their Welford state, both history rings slot by slot, and health with its buckets and recent counts |
| HostNames.ResolveNetBoxNames | internal/hostsfile/netbox.go:228-306 | each row gets its bare name, its detailed name or that name with the least free number, hosts unchanged |
| HostNames.Candidates | internal/hostsfile/netbox.go:254-269 | first choices, by the two counting maps |
| HostNames.Refine | internal/hostsfile/netbox.go:271-288 | full detail exactly for contested candidates |
| HostNames.NameRow | internal/hostsfile/netbox.go:289-302 | the chosen name and the names used up |
| HostNames.FirstFreeNumber | internal/hostsfile/netbox.go:293-300 | the unbounded search stops within as many steps as there are taken names, at the first free number |
| HostNames.GeneratedNamesUnique | internal/hostsfile/netbox.go:225-227 | a generated name is no other generated name, no other host and no reserved name |
| HostNames.UnnamedExactlyWhenAsked | internal/hostsfile/netbox.go:255-258 | only rows without a base name stay unnamed |
| HostNames.ResolvedUnique | internal/hostsfile/netbox.go:228-306 | the specification determines every name |
| HostDocument.ValidateHostNames | cmd/main/config_validation.go:84-111 | accepts exactly the documents whose names tell targets apart, else reports the first problem |
| HostDocument.ResolveDocNames | internal/hostsfile/netbox.go:310-333 | every import in the document is named through its pointer, nothing else changes |
| HostDocument.WriteBack | internal/hostsfile/netbox.go:329-332 | names reach exactly the collected entries |
| HostDocument.ImportedNameSound | internal/hostsfile/netbox.go:308-333 | a generated name clashes with nothing in the whole document |
| HostDocument.ResolvedDocumentAccepted | cmd/main/config_validation.go:84-111 | a resolved document is accepted if and only if the user's own names are sound |
| Expand.FindRangeLeftmost | internal/hostsfile/expand.go:67-72 | the match used is the leftmost one, and a match is found whenever there is one |
| Expand.PaddedDenotes | internal/hostsfile/expand.go:88-98 | padding keeps the number and the width up to the largest width the formatter takes, and yields no numeral beyond it |
| Expand.ExpandBraces | internal/hostsfile/expand.go:67-104 | the recursion computes the expansion of the parsed pattern, with the checks in source order |
| Expand.BracesSucceedExactly | internal/hostsfile/expand.go:67-104 | success exactly when all ranges ascend below the largest int and the product is within 1024, and then exactly that many hosts |
| Expand.BracesAreProduct | internal/hostsfile/expand.go:92-103 | the result holds each choice, rendered, at its left-to-right place |
| Expand.RankOnto | internal/hostsfile/expand.go:92-103 | every place of the result is some choice |
| Expand.RankInjective | internal/hostsfile/expand.go:92-103 | and only one |
| Expand.LargestIntAborts | internal/hostsfile/expand.go:83-103 | the counterexample at the largest int |
| Expand.LargestIntParses | internal/hostsfile/expand.go:67-82 | the text of that counterexample |
| Expand.AbortsExactly | internal/hostsfile/expand.go:67-104 | a pattern aborts exactly when a range ends at the largest int, the rest behind it fits, its wrapped span and product pass both cap tests, and the ranges before it pass their own |
| ExpandAddress.ExpandCIDR | internal/hostsfile/expand.go:123-147 | the enumeration, with its cap and its excluded ends |
| ExpandAddress.CidrRunIsBlock | internal/hostsfile/expand.go:123-147 | the addresses enumerated are exactly those that agree with the prefix, minus network and broadcast for IPv4 /30 and wider |
| ExpandAddress.CountCapped | internal/hostsfile/expand.go:129-140 | a CIDR that passes the host-bits test is within the cap |
| ExpandAddress.ExpandIPv4Range | internal/hostsfile/expand.go:149-179 | each address from start to end once, in order, or the first failed check |
| ExpandAddress.ExpandAddressPattern | internal/hostsfile/expand.go:106-121 | a plain text (no slash, no address before its last dash) stands for itself; any other yields the 1 to 1024 addresses it denotes, each once and in order, is too large when it denotes more, and is refused when it denotes none |
| ExpandAddress.AddressMeans | internal/hostsfile/expand.go:106-179 | every outcome is what the text means, for blocks and ranges alike |
| ExpandAddress.MeaningUnique | internal/hostsfile/expand.go:106-179 | the meaning fixes the outcome, up to the wording of a refusal |
| ExpandAddress.ExpandHostPattern | internal/hostsfile/expand.go:37-63 | the brace results expanded in turn, the first problem standing; a success lists what each choice means, in order |
| ExpandAddress.HostsWithinCap | internal/hostsfile/expand.go:37-63 | success exactly when all parts expand and the total is within the cap |
| ExpandAddress.PatternSucceedsExactly | internal/hostsfile/expand.go:37-63 | the same for a whole pattern; a success has at most 1024 hosts |
| ExpandAddress.PatternMeans | internal/hostsfile/expand.go:28-63 | success exactly when the ranges fit, no other brace is left, every choice means some hosts and together they are within the cap; the result is then the hosts of all choices in left-to-right order |
| ExpandAddress.YieldsUnique | internal/hostsfile/expand.go:28-63 | the meaning of a pattern fixes its hosts |
| TargetSpecs.BuildHostsAndGroups | cmd/main/hosts.go:38-59 | ungrouped hosts first, each group reads exactly its listed hosts, groups disjoint and in range |
| TargetSpecs.ExpandTargets | cmd/main/targetspec.go:57-137 | each target is replaced by its expansion and group indices are remapped |
| TargetSpecs.ResolveAll | cmd/main/targetspec.go:68-93 | the answer that counts for a name is the last one given for it |
| TargetSpecs.ExpansionReaches | cmd/main/targetspec.go:98-119 | a target becomes at least one target of the same host and name, reaching exactly its addresses |
| TargetSpecs.ExpansionKeepsGroups | cmd/main/targetspec.go:121-134 | a group reads the expansions of its members in order; ranges and disjointness are kept |
| TargetSpecs.RemoveFromGroups | cmd/main/live_targets.go:215-231 | the loop over groups and indices |
| TargetSpecs.RemovalKeepsGroups | cmd/main/live_targets.go:215-235 | surviving groups read what they read before minus the deleted target; empty ones are gone; disjointness is kept |
| Reconciliation.Reconcile | cmd/main/live_reload.go:36-58 | each place of the new list gets the old target of its identity and rank, or a new one |
| Reconciliation.ReusedExactly | cmd/main/live_reload.go:36-58 | an old target is reused if and only if its rank within its identity is below the new count |
| Reconciliation.PlaceReusesExactly | cmd/main/live_reload.go:47-56 | a new place reuses if and only if an old target is left for it |
| Reconciliation.ReusedCount | cmd/main/live_reload.go:36-58 | per identity exactly min(old, new) targets are reused |
| Reconciliation.PlacedOnce | cmd/main/live_reload.go:47-56 | no target is used twice, and within an identity the old order is kept |
| Reconciliation.Conserved | cmd/main/live_reload.go:36-58 | reused + added = new and reused + removed = old |
| Lifecycles.UnbrokenOrderly | cmd/main/supervisor.go:53-68 | every component is stopped before the next of its kind starts, and nothing starts after the end |
| Lifecycles.StoppedBeforeReplaced | cmd/main/supervisor.go:463-502 | between two starts of a kind the first component is stopped |
| Lifecycles.NoStartAfterEnd | cmd/main/supervisor.go:53-68 | nothing starts after termination |
| Monitors.Monitor.Start | internal/mtr/engine.go:121-131 | one run per target, whatever the repetitions |
| Monitors.Monitor.AddTarget | internal/pinger/portchecker.go:219-247 | exactly that target joins |
| Monitors.Monitor.RemoveTarget | internal/mtr/engine.go:372-381 | exactly that target leaves |
| Monitors.Monitor.Stop | internal/pinger/portchecker.go:102-109 | stopping a live monitor is noted once; stopping again changes nothing |
| Supervisors.Session | cmd/main/supervisor.go:202-263 | for every command sequence and every failure of a start: memberships agree, groups stay disjoint and in range, at most one component of a kind is live and only while running, replacements follow stops, termination is final |
| Supervisors.Supervisor.constructor | cmd/main/supervisor.go:175-190 | a stopped session with one new target per spec |
| Supervisors.Supervisor.Handle | cmd/main/supervisor.go:202-263 | one command keeps the invariants; which commands change state, statistics windows or membership |
| Supervisors.Supervisor.HandleStart | cmd/main/supervisor.go:214-221 | the outcome and state of a start in each state |
| Supervisors.Supervisor.HandleRestart | cmd/main/supervisor.go:227-235 | everything is stopped first; a failed start leaves the session stopped |
| Supervisors.Supervisor.HandleEdit | cmd/main/supervisor.go:204-208 | edits are refused after termination and change nothing when they fail |
| Supervisors.Supervisor.StartAll | cmd/main/supervisor.go:334-363 | success exactly when the pinger can start; a failure starts nothing and keeps the old pinger |
| Supervisors.Supervisor.StopRunning | cmd/main/supervisor.go:281-288 | everything is stopped |
| Supervisors.Supervisor.TearDownAll | cmd/main/supervisor.go:436-451 | nothing is live afterwards; only the route engine is forgotten |
| Supervisors.Supervisor.RestartRoute | cmd/main/supervisor.go:463-482 | the old engine is stopped and a new one runs for the listed targets |
| Supervisors.Supervisor.RestartPortChecker | cmd/main/supervisor.go:486-492 | the same for the port checker, none when nothing is configured |
| Supervisors.Supervisor.RestartHTTPChecker | cmd/main/supervisor.go:496-502 | the same for the HTTP checker |
| Supervisors.Supervisor.ResetAll | cmd/main/supervisor.go:293-308 | every listed target and no other gets a new statistics window; while running every monitor is a new one |
| Supervisors.Supervisor.ResetOne | cmd/main/supervisor.go:241-255 | one monitor is replaced, only while running |
| Supervisors.Supervisor.Terminate | cmd/main/supervisor.go:311-321 | everything is stopped and the state is terminated |
| Supervisors.Supervisor.Attach | cmd/main/live_targets.go:105-116 | the monitors present gain the target |
| Supervisors.Supervisor.Detach | cmd/main/live_targets.go:118-130 | pinger and monitors lose the target, other workers stay |
| Supervisors.Supervisor.AddHost | cmd/main/live_targets.go:146-180 | the exact outcome; the new targets join at the end everywhere, existing workers stay, or nothing changes |
| Supervisors.Supervisor.RemoveAt | cmd/main/live_targets.go:200-237 | the target leaves lists, groups and components; the last one stays |
| Supervisors.Supervisor.DeleteHost | cmd/main/live_targets.go:182-198 | deletes exactly when one target and not the last is shown under the name |
| Supervisors.Supervisor.DeleteTargetID | cmd/main/live_targets.go:239-248 | deletes the target of that identity, if listed and not the last |
| Supervisors.Supervisor.ReloadLive | cmd/main/live_reload.go:60-128 | applied exactly when only live settings differ and the added targets can be registered; reused targets keep worker and statistics; a new route mode renews the engine; a failure changes nothing |
| Supervisors.Supervisor.ChangeMembers | cmd/main/live_reload.go:67-94 | added targets are registered before the others are detached |
| Supervisors.ReconciledSets | cmd/main/live_reload.go:47-57 | the targets after a reload are the reused ones and the added ones, disjoint from each other |
| WidthFit.FitWidthsToAvailable | internal/ui/width_fit.go:12-76 | success exactly when lengths agree and minimums fit; widths within bounds, total min(available, sum of maximums), at one fair level; maximums raised in place |
| WidthFit.IndicesByPriority | internal/ui/width_fit.go:80-87 | the stable order by priority |
| WidthFit.Distribute | internal/ui/width_fit.go:39-73 | one round-robin loop reaches the target sum or all bounds, at a common level |
| WidthFit.ClampWidths | internal/ui/width_fit.go:17-29 | each maximum raised to its minimum, each width clamped |
| WidthFit.FittedIsFair | internal/ui/width_fit.go:12-16 | of two columns the one that moved less is at its bound, unless it is one step behind and later in priority |
| WidthFit.FittedUnique | internal/ui/width_fit.go:12-76 | the specification has one solution |
| WidthFit.LevelUnique | internal/ui/width_fit.go:39-73 | a level is determined by its sum |
| WidthFit.StableOrderUnique | internal/ui/width_fit.go:80-87 | the stable order is a function of the priorities |

## Left out

- Workers.Worker.Run: covers a finite schedule of events of any length; timers, goroutine scheduling and the choice `select` makes between ready cases are the schedule itself.
- Workers.Worker.SettleReply: the texts of ICMP errors and the trust placed in embedded timestamps are not modelled; a reply carries its RTT or none.
- Workers.Worker.SweepTimeouts: the order in which Go visits the map is left open, so the order of the losses is too.
- Healths.RingRefinesLog: assumes a clock that does not go back and is not before 1970; a negative second would index outside the ring.
- Healths.Health.Evaluate: status levels, thresholds, reason text, the `since` time and the health view are not modelled, only the down/up latch and the recent counts.
- TargetStatistics.TargetStats.OnSuccessLocked: the `recovery` event in the bounded event log is not modelled.
- TargetStatistics.TargetStats.OnFailureLocked: the `ping` event in the bounded event log is not modelled; the reason text is one of four causes.
- ResetIsolation.RunAndReplay: the rules are configured once, before the first outcome; the time of the last judgment is compared only once there was an outcome, since a configuration sets it and a reset clears it.
- TargetStatistics.TargetStats.Apply: the bounded event log, the generation counter and per-target metadata are not modelled.
- RttAccumulators.MomentsMeaning: floating-point rounding; the state is kept in exact reals, and the standard deviation's square root is left out.
- ExpandAddress.ExpandCIDR: parsing and printing of addresses (`net/netip`) are functions about which only ranges are known; Go's integer width is modelled in the brace expansion only.
- HostNames.ResolveNetBoxNames: CSV reading that produces the rows.
- Pingers.Pinger.Start: opening and binding sockets is one yes-or-no input; the addresses registered beside the targets are not modelled.
- Supervisors.Supervisor.AddHost: receives the host already trimmed of white space.
- Supervisors.Supervisor.ReloadLive: takes a non-empty host list, as the document check guarantees, with groups disjoint and in range, as `TargetSpecs.BuildHostsAndGroups` and `TargetSpecs.ExpansionKeepsGroups` yield them; all settings that need a rebuild are one number, and display names, thresholds and health rules are not modelled.
- Supervisors.Supervisor.Handle: the completion notification (probes finished) and the measurement state shown per target.
- Supervisors.Supervisor.ResetAll: statistics windows are counted per target here and modelled in full in `TargetStats`; per-hop route counters are not modelled.
- Supervisors.Supervisor.ResetOne: clearing the per-hop route counters, which a route reset does between the two engines, is not modelled.
- WidthFit.IndicesByPriority: the library sort is replaced by an insertion; any stable sort gives the same order.
- WidthFit.FitWidthsToAvailable: aliasing between the argument slices; the widths slice is built as a sequence, and the two distribution loops share one method.
- Sockets, ICMP and DNS messages, route tracing, path MTU discovery, HTTP, TCP and UDP checks: I/O and unseen libraries.
- The terminal and web interfaces, reports, the split web process and privilege switching.
