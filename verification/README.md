# Verified model of the SCION testbed control plane

A Dafny 4.11 model of the parts of the repository that hold algorithms and state machines:
the dashboard backend's routing overlay, trace inspector, telemetry and join services, the ID-INT
probe daemon's hop mapping, the link daemon's metadata publication, and the generated BGP policy.
`dafny verify dfyconfig.toml` checks everything.

## How the model is organised

| module | component | main result |
|---|---|---|
| `Pairing` | loading the topology | reciprocal interface records become links that share no end |
| `Routing`, `BgpPath` | mock BGP tables, path walker | twelve separate searches compose to one shortest live route; ties go by link order |
| `TracePaths`, `Trace` | mock trace prober, view model | the enumeration is the first simple paths in one fixed order; flattening and pairing are inverse |
| `TraceSession` | trace session manager | what the view model shows after every interleaving |
| `HopFields` | hop field to interface mapping | every hop field names its owner, in both directions |
| `BgpPolicy` | generated BIRD filters | exactly which paths the filters let through |
| `Store`, `Derive`, `MockLoss` | ring store, deriver, mock links | exact running minimum, exact debouncer history, exact loss recovery for all links over one store |
| `Coalesce`, `Publication` | static info publication | quiet means published if runs publish in order, and exactly what is stale if not |
| `WgPool`, `RateLimit`, `ScitraMap` | join services, address mapping | no slot twice, no window overfull, two encoders agree |

`Prelude`, `Decimal`, `Topology` and `PathOrder` hold what they share. Code that updates state is modelled by methods and
classes proved against specification functions; the results are lemmas about those functions. Where the
original is concurrent, every section under a lock is one event, and a statement about all interleavings is a
lemma over all event sequences.

Reading aids: `float64` is `real`; `int` is unbounded except where wrap-around matters (`HopFields`,
`ScitraMap`, `Store.Int64`, the strconv functions in `Decimal`); map keys that Go formats as text
("as/ifid", "as:ifid") are pairs, which `Topology.KeyTextInjective` justifies. Random walks, clocks, file and
signal outcomes, and probe answers are inputs.

## Where the code does less than its documentation

Each of these comes with the exact condition for all inputs and, where the condition is not an input by itself, with a
witness.

- The topmost comment of topology/gen_bird.py calls the filters "Gao-Rexford-lite". The customer marker is never
  removed, so a path that starts upwards may go anywhere: `BgpPolicy.ValleyIsPropagated` gives one. A network stays
  valley-free in every run exactly if no originator's chain goes up first and later has a step that is not up followed
  at once by one that is not down: `BgpPolicy.ValleyFreeNetworks`.
- `Status` of the static info writer reports a good reload after an identical rewrite even if the last signal
  failed: `Publication.FailedSignalForgotten`. Over any sequence of writes a clear flag misleads exactly if the signal
  after the last replacement failed and the latest write was identical; without a unit, whenever the file was ever
  replaced: `Publication.SignalledExactly`.
- Write's comment says the base document passes through untouched but for `Inter`. A section or entry that is not an
  object is replaced whole: `Publication.TextSectionIsReplaced`, with the exact condition in
  `Publication.UntouchedExactly`.
- Overlapping runs of `regen`, which Coalesce's comment allows, can publish stale state:
  `Publication.OverlapCanPublishStale`. Publishing in the order runs started is enough
  (`Publication.QuietMeansPublished`). Over any schedule the document is current, whatever the values set, exactly if no
  interface was set again after the run that published last had read it: `Publication.CurrentExactly`, with every
  setting numbered apart and the position of each read recorded.
- A hop index past the end is not always refused: `HopFields.AcceptedPastTheEnd` gives the accepted ones.
- An interface id with a leading zero does not survive the trip through a number, so its link is not found:
  `Trace.LeadingZeroIsLost`. A path pairs up again exactly if every departure id on it is canonical:
  `Trace.PairingIffCanonical`.
- One put too many between frames evicts a minimum unseen, at any store capacity: `Derive.EvictionNeedsPacing`. A
  pattern of puts, frames, seeds and restarts keeps the minimum whatever the values exactly if it is paced:
  `Derive.ExactIffPaced`.
- The ticker checks for a session before it claims a tick, so a tick can start without one: `TraceSession.LateClear`.
  It does nothing: `TraceSession.TickWithoutSession`.
- Interface records that are not reciprocal can put one interface on two links, by a shared counterpart
  (`Pairing.SharedCounterpartIsLinkedTwice`) or in a chain (`Pairing.ChainIsLinkedTwice`); exactly which records do is
  `Pairing.EndsDistinctExactly`.

## Model

| member | source | states |
|---|---|---|
| Topology.KeyTextInjective | dashboard/backend/internal/bgppath/bgppath.go:45 | the text key of an interface determines the AS and the interface id |
| Decimal.IfidRoundTrip | dashboard/backend/internal/mock/trace.go:136-137 | an interface id survives parsing and printing exactly if it is canonical decimal below 2^64 |
| Pairing.PairInterfaces | dashboard/backend/internal/topo/topo.go:104-182 | the loops compute the paired links in record order, or the first subnet error |
| Pairing.LinksDescribe | dashboard/backend/internal/topo/topo.go:159-201 | what every link says: id, kind by core flags and peer marks, subnet, and both ends field by field |
| Pairing.SubnetExactly | dashboard/backend/internal/topo/topo.go:253-266 | the subnet is named by what stands between the prefix and the first double colon |
| Pairing.SubnetRefused | dashboard/backend/internal/topo/topo.go:256-265 | hosts without the prefix or without a double colon after it are refused |
| Pairing.MutualPairsAreLinked | dashboard/backend/internal/topo/topo.go:153-181 | every mutual pair of different ASes gets a link, lower AS first |
| Pairing.LinksAreMutualPairs | dashboard/backend/internal/topo/topo.go:153-181 | every link joins a mutual pair, lower AS first |
| Pairing.LoadedEndsDistinct | dashboard/backend/internal/topo/topo.go:147-181 | with unique addresses, ids unique per AS and reciprocity no interface is an end of two links |
| Pairing.LoadedEndsKnown | dashboard/backend/internal/topo/topo.go:129-181 | both ends of every link are loaded ASes and they differ |
| Pairing.EndsDistinctExactly | dashboard/backend/internal/topo/topo.go:147-181 | with unique addresses and ids, no interface is an end of two links iff no record is pointed at by two records of lower ASes, or by one while itself pointing at a higher AS |
| Pairing.SharedCounterpartIsLinkedTwice | dashboard/backend/internal/topo/topo.go:153-163 | an interface two lower ASes point at is an end of two links |
| Pairing.ChainIsLinkedTwice | dashboard/backend/internal/topo/topo.go:153-163 | so is the middle of a chain, with no counterpart shared |
| Routing.BuildAdjacency | dashboard/backend/internal/mock/controller.go:96-104 | the edge lists hold both directions of the links below 100% loss and no others, in graph order |
| MockLoss.LiveIffArrives | dashboard/backend/internal/mock/controller.go:96-101 | a link drops out of the mock BGP exactly when nothing sent over it arrives |
| Routing.DoneIsLeading | dashboard/backend/internal/mock/controller.go:111-126 | a finished search reached everything reachable, and no path comes before the one it found |
| Routing.NextHops | dashboard/backend/internal/mock/controller.go:107-126 | one search: an entry for exactly the reachable ASes, the first interface of the shortest path that comes first in link order |
| Routing.BgpRoutes | dashboard/backend/internal/mock/controller.go:91-130 | such a table for every AS of the graph |
| Routing.PollsAgree | dashboard/backend/internal/mock/controller.go:87-90 | the tables are determined, ties included: polls with the same graph and shaping return the same ones |
| BgpPath.NewIndex | dashboard/backend/internal/bgppath/bgppath.go:36-43 | the index is the links entered in order, later entries winning |
| BgpPath.IndexFinds | dashboard/backend/internal/bgppath/bgppath.go:36-43 | with distinct ends every link end keeps its own entry |
| BgpPath.IndexSize | dashboard/backend/internal/bgppath/bgppath.go:36-43 | with distinct ends the index has exactly two entries per link |
| BgpPath.LoadedLinksIndexed | dashboard/backend/internal/topo/topo.go:147-191 | reciprocal records give exactly one link per mutual pair, in whatever order, and an index with two entries per link |
| BgpPath.Walk | dashboard/backend/internal/bgppath/bgppath.go:51-78 | terminates; path starts at src without repeats, links join neighbours, and where and why it stops |
| BgpPath.CompleteIffIterationArrives | dashboard/backend/internal/bgppath/bgppath.go:51-78 | for arbitrary tables the walk is complete iff unguarded iteration ever reaches dst |
| BgpPath.WalkUnique | dashboard/backend/internal/bgppath/bgppath.go:51-78 | the tables determine the reported walk |
| BgpPath.TablesAgree | dashboard/backend/internal/mock/controller.go:87-130 | an entry of one table leads over a live link to an AS exactly one hop nearer in its own table |
| BgpPath.OverlayIsShortestRoute | dashboard/backend/internal/mock/controller.go:87-130 | walking the mock tables is complete iff a live route exists, is then a shortest live route, and never trips the guard |
| BgpPath.PollAndWalk | dashboard/backend/internal/bgppath/bgppath.go:36-78 | the same for tables, index and walk computed together |
| TracePaths.BuildAdjacency | dashboard/backend/internal/mock/trace.go:72-86 | the prober's edge lists hold each traversal of each link once, in link order |
| TracePaths.OnlyEndsAtTip | dashboard/backend/internal/mock/trace.go:104-107 | a simple path meets its destination only at its end, so accepting early loses nothing |
| TracePaths.AcceptHead | dashboard/backend/internal/mock/trace.go:100-107 | taking a complete path off the queue keeps order, distinctness and coverage |
| TracePaths.GrowHead | dashboard/backend/internal/mock/trace.go:112-122 | replacing a partial path by its extensions keeps order, distinctness and coverage |
| TracePaths.Candidates | dashboard/backend/internal/mock/trace.go:92-125 | the first three simple paths of at most six links, shortest first and then in link order, or all there are |
| TracePaths.EnumerationUnique | dashboard/backend/internal/mock/trace.go:88-125 | that determines the list: every call offers the same candidates under the same names |
| Trace.NamesAgree | dashboard/backend/internal/idint/idint.go:417-423 | names the loader accepts denote the same AS number to the inspector |
| Trace.NameOfNumber | dashboard/backend/internal/topo/topo.go:244-251 | a name written from an AS number is read back to it |
| Trace.BuildPath | dashboard/backend/internal/mock/trace.go:132-157 | the flattened path equals its specification |
| Trace.LatenciesAre | dashboard/backend/internal/mock/trace.go:138-146 | link base latencies alternate with the forwarding delay, one entry per gap |
| Trace.PairLinks | dashboard/backend/internal/idint/idint.go:322-347 | the links of the interface pairs in order, or the first error |
| Trace.HopsOf | dashboard/backend/internal/idint/idint.go:384-398 | the first AS and each pair's arrival AS, unreadable names skipped |
| Trace.PairingUndoesFlattening | dashboard/backend/internal/idint/idint.go:322-347 | pairing a flattened path returns its links in order |
| Trace.HopsUndoFlattening | dashboard/backend/internal/idint/idint.go:384-398 | the recovered hops are the ASes the path visits |
| Trace.DepartureFoundIffCanonical | dashboard/backend/internal/mock/trace.go:135-141 | an interface finds its link again exactly if its id is canonical, when no other link has the same id (parallel links between two ASes do, topo.go:176) |
| Trace.PairingIffCanonical | dashboard/backend/internal/idint/idint.go:322-347 | pairing a flattened path returns its links exactly if every departure id is canonical, when no two links have the same id |
| Trace.LeadingZeroIsLost | dashboard/backend/internal/mock/trace.go:135-141 | a concrete link whose interface id starts with a zero is lost |
| Trace.EgressRecords | dashboard/backend/internal/idint/idint.go:308-316 | the egress records in order |
| Trace.EgressPicks | dashboard/backend/internal/idint/idint.go:308-316 | they are exactly the records marked egress, in order |
| Trace.BuildVm | dashboard/backend/internal/idint/idint.go:251-304 | the view model of a probe result, or the error |
| Trace.VmShows | dashboard/backend/internal/idint/idint.go:251-304 | for any records: when there is a view model, and every field of it, the forward stack before the reverse one |
| Trace.ReverseStackSuffices | dashboard/backend/internal/idint/idint.go:257-278 | with a mirrored reverse stack, losing the forward telemetry gives the same view model |
| Trace.Probe | dashboard/backend/internal/mock/trace.go:175-231 | probes the candidate the fingerprint selects from the enumeration, or fails if it selects none |
| Trace.MockNamesDiffer | dashboard/backend/internal/mock/trace.go:150 | different candidates have different names |
| Trace.AddedDelay | dashboard/backend/internal/mock/trace.go:199-202 | a shaped delay adds its microseconds, rounded towards zero, to the base latency |
| Trace.ProbeShows | dashboard/backend/internal/mock/trace.go:194-223 | the records of a mock probe one by one, and the same ones backwards |
| Trace.ProbeRttAdds | dashboard/backend/internal/mock/trace.go:196-227 | the round trip is one millisecond and each link's own |
| Trace.ProbesAgree | dashboard/backend/internal/mock/trace.go:175-187 | the same request is answered over the same path every time, whatever is shaped in between |
| Trace.MockTraceReadsBack | dashboard/backend/internal/mock/trace.go:194-230 | a mock probe always yields a view model, hop k on edge k with base plus shaped delay |
| TraceSession.Manager.Set | dashboard/backend/internal/idint/idint.go:111-128 | an acceptable session replaces the old one and resets the view model and the result |
| TraceSession.Manager.Clear | dashboard/backend/internal/idint/idint.go:132-138 | nothing is left of the session |
| TraceSession.Manager.TryTick | dashboard/backend/internal/idint/idint.go:177-192 | the ticker's look and its claim with nothing in between: a tick starts only with a session and none of its own outstanding |
| TraceSession.Manager.TickOnce | dashboard/backend/internal/idint/idint.go:205-245 | a whole tick with nothing in between: nothing without a session, else what the specification says |
| TraceSession.Manager.TickFinish | dashboard/backend/internal/idint/idint.go:215-244 | a probe that came back changes the state exactly as the specification says |
| TraceSession.AlwaysConsistent | dashboard/backend/internal/idint/idint.go:111-138 | after every interleaving the view model is pending or derived from the stored result; one ticker probe at most |
| TraceSession.LastDeliveryShown | dashboard/backend/internal/idint/idint.go:215-244 | in every run, until the next delivery or reset the view model shows the last one: its content, or its error and time over what was shown before |
| TraceSession.PendingShown | dashboard/backend/internal/idint/idint.go:111-128 | until the first delivery the view model is blank and healthy |
| TraceSession.UnhealthyExactly | dashboard/backend/internal/idint/idint.go:225-240 | the view model is unhealthy exactly if the last delivery since the session was set failed or does not fit |
| TraceSession.LatestShown | dashboard/backend/internal/idint/idint.go:242-243 | the view model shows the fields of the result kept as latest, whatever happened to health since |
| TraceSession.NamesCurrentSession | dashboard/backend/internal/idint/idint.go:205-245 | a view model exists iff a session does, and names it |
| TraceSession.FinishedConsistent | dashboard/backend/internal/idint/idint.go:225-237 | the branch for a missing view model is never taken |
| TraceSession.StaleFinishIsIgnored | dashboard/backend/internal/idint/idint.go:217-219 | a probe finishing after a clear or a different session changes nothing |
| TraceSession.ProbeBegan | dashboard/backend/internal/idint/idint.go:206-213 | an outstanding probe is for the session that was current when it began |
| TraceSession.LatestProvenance | dashboard/backend/internal/idint/idint.go:215-244 | a stored result came from a probe for an equal session that has stayed current since |
| TraceSession.LateClear | dashboard/backend/internal/idint/idint.go:177-190 | a clear between look and claim starts a tick without a session |
| TraceSession.TickWithoutSession | dashboard/backend/internal/idint/idint.go:206-211 | in every run such a tick returns at once, takes the guard down and changes nothing else |
| HopFields.SegmentChanges | idint-probed/prober/convert.go:33-57 | the in-place swaps and sums compute the segment change indices |
| HopFields.NoUnderflow | idint-probed/prober/convert.go:59-70 | inside the path the unsigned subtraction never wraps |
| HopFields.ForwardNamesOwner | idint-probed/prober/convert.go:74-83 | each forward hop field is mapped inside the list to the AS that owns it |
| HopFields.ReverseNamesSameOwner | idint-probed/prober/convert.go:86-96 | reverse hop i names the AS of forward hop N-1-i |
| HopFields.AcceptedPastTheEnd | idint-probed/prober/convert.go:59-96 | exactly which unsigned indices past the end are accepted, forward and reverse |
| BgpPolicy.DeliveredIffPermitted | topology/gen_bird.py:30-35 | an announcement passes both filters iff the longer path is permitted |
| BgpPolicy.HeldIsPermitted | topology/gen_bird.py:108-120 | in every run every held route came over a permitted path and carries the marker iff a step went up |
| BgpPolicy.PreferenceOrders | topology/gen_bird.py:108-113 | preference orders held routes by neighbour: customer, peer, core, provider |
| BgpPolicy.PermittedIsHeld | topology/gen_bird.py:108-120 | every permitted path is propagated by some run |
| BgpPolicy.PropagatedIffPermitted | topology/gen_bird.py:30-35 | the filters permit exactly: first step up, or one step then only down |
| BgpPolicy.ValleyFreeExactly | topology/gen_bird.py:30-35 | valley-free by recursion is the same as pairwise: after a step that is not up every step is down |
| BgpPolicy.ValleyFreeNetworks | topology/gen_bird.py:108-120 | all runs of a network are valley-free iff no originator's chain goes up first and later has a step not up and then one not down |
| BgpPolicy.ValleyIsPropagated | topology/gen_bird.py:111-113 | a concrete valley that is propagated |
| Store.Ring.Put | dashboard/backend/internal/store/store.go:36-42 | a put appends to the log the ring represents |
| Store.Ring.LastN | dashboard/backend/internal/store/store.go:51-64 | the most recent samples of the log, oldest first |
| Store.Store.Put | dashboard/backend/internal/store/store.go:83-94 | appends to one key's log and leaves every other log alone |
| Store.Store.Series | dashboard/backend/internal/store/store.go:109-124 | the retained part of the log from a time on |
| Store.SinceKeeps | dashboard/backend/internal/store/store.go:117-123 | a series is exactly the retained samples not older than the time, in order |
| Store.Store.Rate | dashboard/backend/internal/store/store.go:131-164 | total rise over total time of the rising intervals in the window |
| Store.RateBetween | dashboard/backend/internal/store/store.go:147-159 | per second: between the least and the greatest slope of the rising intervals |
| Store.RateIsSlope | dashboard/backend/internal/store/store.go:147-159 | a counter that rises by r per second whenever it rises has rate r |
| Store.RateZeroIff | dashboard/backend/internal/store/store.go:156-158 | zero exactly if nothing rose |
| Derive.Deriver.Commit | dashboard/backend/internal/derive/derive.go:408-428 | one step of the debouncer for one link |
| Derive.BandIsLastTriple | dashboard/backend/internal/derive/derive.go:408-428 | the committed band is that of the most recent three equal raw bands, or nominal |
| Derive.FewChanges | dashboard/backend/internal/derive/derive.go:187-190 | n frames change the band at most n/3 times |
| Derive.Deriver.Baseline | dashboard/backend/internal/derive/derive.go:511-536 | the running minimum after a frame, and the floored reference |
| Derive.Deriver.SeedBaselines | dashboard/backend/internal/derive/derive.go:556-570 | every key keeps the smaller positive value, in whatever order keys are walked |
| Derive.Deriver.Restarted | dashboard/backend/internal/derive/derive.go:538-570 | saving the minimums and seeding a new deriver brings back exactly the positive ones |
| Derive.BaselineIsLeast | dashboard/backend/internal/derive/derive.go:502-536 | after each frame the running minimum is the least positive value ever put or seeded |
| Derive.ReferenceIsFlooredLeast | dashboard/backend/internal/derive/derive.go:511-536 | the reference is the larger of half a millisecond and the least positive value |
| Derive.LateSeedAndRestart | dashboard/backend/internal/derive/derive.go:538-570 | seeding late, or saving and reseeding over a restart, gives the same minimum |
| Derive.ExactIffPaced | dashboard/backend/internal/derive/derive.go:502-536 | a pattern of events leaves the least positive value after its final frame, for all values, iff it is paced |
| Derive.AllExactIffPaced | dashboard/backend/internal/derive/derive.go:502-536 | the same for all frames of the pattern at once |
| Derive.EvictionNeedsPacing | dashboard/backend/internal/store/store.go:36-42 | at any capacity, a low put followed by as many high ones as the ring holds is lost |
| MockLoss.LinkGen.StepLink | dashboard/backend/internal/mock/mock.go:251-332 | one step: counters and store logs stay the sums of what was sent and what arrived, round trips and health are put as they are, no other series changes |
| MockLoss.Generator.Step | dashboard/backend/internal/mock/mock.go:181-193 | one step of all links over one store keeps every link's counters and logs exact |
| MockLoss.Generator.SetShaping | dashboard/backend/internal/mock/mock.go:145-157 | applies or clears one link's shaping from the next step on |
| MockLoss.TickSends | dashboard/backend/internal/mock/mock.go:271-294 | a step sends ambient traffic and burst up to the cap; a down link nothing |
| MockLoss.SteadyMeasures | dashboard/backend/internal/mock/mock.go:311-316 | steps a second apart that send x Mbit/s are measured as x |
| MockLoss.CappedMeasures | dashboard/backend/internal/mock/mock.go:276-283 | a direction that never sends above a cap never measures above it |
| MockLoss.SilentMeasures | dashboard/backend/internal/mock/mock.go:285-294 | a direction that sends nothing measures zero |
| MockLoss.ScaledRates | dashboard/backend/internal/store/store.go:147-163 | counters that rise in proportion have rates in that proportion |
| MockLoss.EstimateRecovers | dashboard/backend/internal/derive/derive.go:469-478 | the estimate recovers the lost share |
| MockLoss.DirectionRecovers | dashboard/backend/internal/derive/derive.go:360-366 | a direction with measurable egress shows exactly the shaped loss, clamped to 0..100 |
| MockLoss.StepHoldsLoss | dashboard/backend/internal/mock/mock.go:295-305 | a step under the same loss keeps the window at that loss, whatever else is shaped |
| MockLoss.HoldsLossAfter | dashboard/backend/internal/mock/mock.go:295-305 | after any history, as many steps at one loss as the window has intervals make it hold that loss |
| MockLoss.LossRoundTrip | dashboard/backend/internal/mock/mock.go:295-311 | from traffic steps of all links through the one store to the derived loss of any link |
| Coalesce.Coalescer.Call | linkd/internal/staticinfo/coalesce.go:37-49 | a call runs at once in quiet, else marks the window |
| Coalesce.Coalescer.Fire | linkd/internal/staticinfo/coalesce.go:51-60 | closing a window runs iff calls arrived in it |
| Coalesce.AlwaysSound | linkd/internal/staticinfo/coalesce.go:29-60 | in every interleaving dirty implies an open window and decisions are spaced |
| Coalesce.AtMostTwoPerWindow | linkd/internal/staticinfo/coalesce.go:8-14 | a half-open interval of the window's length holds at most two decisions |
| Coalesce.RunsAreCalls | linkd/internal/staticinfo/coalesce.go:37-60 | runs never outnumber calls |
| Coalesce.EveryCallIsServed | linkd/internal/staticinfo/coalesce.go:8-18 | each call is followed by a run that starts after it before all is quiet |
| Publication.Merged | linkd/internal/staticinfo/staticinfo.go:115-151 | the merge loop computes the overlay in whatever order interfaces are walked |
| Publication.DelayShown | linkd/internal/staticinfo/staticinfo.go:124-131 | a shaped delay shows as decimal text of the nearest whole microseconds, halves away from zero, which reads back |
| Publication.RateShownExactly | linkd/internal/staticinfo/staticinfo.go:132-134 | a positive rate shows as whole kbit/s rounded down; otherwise the base's entry stays |
| Publication.OverlayTouchesOnlyInter | linkd/internal/staticinfo/staticinfo.go:115-151 | value by value what the overlay is: no other section or entry changes or appears, contributing entries get their Inter field |
| Publication.UntouchedExactly | linkd/internal/staticinfo/staticinfo.go:59-61 | only Inter fields differ from the base iff no contribution meets a section or entry that is not an object |
| Publication.TextSectionIsReplaced | linkd/internal/staticinfo/staticinfo.go:139-151 | a section that is text is lost as soon as one delay is shaped |
| Publication.Writer.Write | linkd/internal/staticinfo/staticinfo.go:62-105 | flags, file, replacements and signals after a write, for every outcome |
| Publication.MetaFlagExactly | linkd/internal/staticinfo/staticinfo.go:67-90 | over any writes the write flag is clear iff the latest write found or put its document, and then the file holds it |
| Publication.ReportedExactly | linkd/internal/staticinfo/staticinfo.go:62-105 | a write reports success iff it leaves both flags clear |
| Publication.RewriteIsFree | linkd/internal/staticinfo/staticinfo.go:73-82 | an identical rewrite neither writes nor signals if the file can be read |
| Publication.SignalledIffLastWas | linkd/internal/staticinfo/staticinfo.go:84-104 | over any writes, the unit was signalled since the last replacement iff that replacement itself signalled it |
| Publication.SignalledExactly | linkd/internal/staticinfo/staticinfo.go:62-113 | over any writes ending with a clear flag, exactly when the unit was not signalled since the last replacement |
| Publication.FailedSignalForgotten | linkd/internal/staticinfo/staticinfo.go:77-82 | a failed signal is forgotten by an identical write |
| Publication.StepCurrent | linkd/cmd/scion-linkd/main.go:111-150 | one event keeps the newest run's reading current unless a run is still to come |
| Publication.QuietMeansCurrent | linkd/cmd/scion-linkd/main.go:111-150 | however runs overlap, in quiet what shows is current unless an older run published after the newest |
| Publication.FileShows | linkd/cmd/scion-linkd/main.go:114-131 | in any run with a writable file it holds the overlay of what the last publisher read, whatever reads of it and signals do |
| Publication.QuietMeansPublished | linkd/cmd/scion-linkd/main.go:111-150 | if runs publish in the order they started, or do not overlap, quiet means the writer's file holds the base overlaid by current shaping |
| Publication.CurrentExactly | linkd/cmd/scion-linkd/main.go:111-131 | over any schedule the document is current for all values iff no interface was set again after the last publisher read it |
| Publication.OverlapCanPublishStale | linkd/cmd/scion-linkd/main.go:114-131 | overlapping runs can end on a stale document |
| WgPool.Store.Open | dashboard/backend/internal/wgpool/wgpool.go:52-75 | what a start reads from the state file |
| WgPool.Store.Claim | dashboard/backend/internal/wgpool/wgpool.go:77-92 | the first free slot, stored before it is handed out; exhausted iff every slot is taken |
| WgPool.FirstFreeIsFirst | dashboard/backend/internal/wgpool/wgpool.go:80-83 | the slot claimed is the first free one in pool order |
| WgPool.NeverHandedTwice | dashboard/backend/internal/wgpool/wgpool.go:1-5 | over failures, crashes and restarts no slot is handed out twice and each is on disk |
| WgPool.BurnedIsNeverHanded | dashboard/backend/internal/wgpool/wgpool.go:4-5 | a slot burned first is never handed out |
| WgPool.HandsOutFreshOrExhausted | dashboard/backend/internal/wgpool/wgpool.go:80-91 | a stored claim hands out a new unburned slot unless all are taken |
| RateLimit.Limiter.Prune | dashboard/backend/internal/ratelimit/ratelimit.go:34-39 | filtering over the same backing array |
| RateLimit.RecentKeeps | dashboard/backend/internal/ratelimit/ratelimit.go:34-39 | the filter keeps exactly the times after the cutoff, in order |
| RateLimit.Limiter.Allow | dashboard/backend/internal/ratelimit/ratelimit.go:30-47 | true iff fewer than max allowed events lie in the trailing window; the pruned slice agrees with the history |
| RateLimit.SinceSince | dashboard/backend/internal/ratelimit/ratelimit.go:34-39 | pruning earlier loses nothing a later window would keep |
| RateLimit.AtMostMaxPerWindow | dashboard/backend/internal/ratelimit/ratelimit.go:28-47 | no interval of the window's length holds more than max allowed events |
| ScitraMap.MappedIPv6 | dashboard/backend/internal/scitramap/scitramap.go:13-34 | succeeds iff all parts fit, and decodes back to them |
| ScitraMap.Scion2Ip | tools/coredns-scion.patch:257-300 | encodable AS numbers and the decoding of the result |
| ScitraMap.HostBytes | tools/coredns-scion.patch:279-296 | which eight bytes a host becomes: embedded IPv4, plain or mapped, or the interface part |
| ScitraMap.MappedUnique | tools/coredns-scion.patch:264-278 | the identity bytes are equal iff ISD and AS number are |
| ScitraMap.HostsApart | dashboard/backend/internal/scitramap/scitramap.go:13-34 | one host's addresses in different ASes never collide |
| ScitraMap.EncodersAgree | dashboard/backend/internal/scitramap/scitramap.go:23-34 | both encoders give the same sixteen bytes |

## Left out

- HTTP, WebSocket, proxy and bundle handlers, the web frontend, scraping, netlink, the birdc and topology parsers, probe sending: adapters over the modelled parts.
- The topology writer of linkd: the same state machine as the static info writer.
- Pairing.PairInterfaces: gives the links in record order; the library sort that follows only reorders, and `BgpPath.LoadedLinksIndexed` holds for every reordering.
- `rttBand`, `lossBand`, `worse`, the BGP badge and the health overrides of `deriveLink`: pure case tables that feed the debouncer.
- The list of path options for the user interface and its latency totals: a map and a sum over the modelled paths.
- The FNV hash behind a link's base latency: an arbitrary function of the link id here.
- Slots of a telemetry record that no modelled operation reads (aggregation, encryption, ports, timestamp).
- Overflow of 64-bit sums (counters, latencies, the conversion of a shaped delay): values stay far below it.
- Rounding of `float64`: rates, losses and delays are computed over reals.
- BgpPolicy.PropagatedIffPermitted: ignores best-route selection and convergence; any importable route may be announced again.
- Publication.QuietMeansPublished: assumes device reads succeed, the base can be read and the file written; outcomes of failing writes are in `Publication.Writer.Write`.
- Publication.Merged: documents are nested maps, equal documents render to equal bytes, and the numeric precision of JSON is not modelled.
- HopFields.ForwardNamesOwner: covers paths with one to three spliced segments or two peering segments, of fewer than 2^62 hop fields.
- MockLoss.LossRoundTrip: the random walks are inputs, so nothing is said about their ranges.
