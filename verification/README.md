# Topology and MD5 of the Omni-Path fabric manager: a verified model

The project models the analysis core of `opa-fm-master/Topology` and the two MD5
implementations of `opa-fm-master/Md5`, and proves what they are for.

- **Credit loops** (`Digraph`, `CreditGraph`, `CreditLoops`, `RouteTables`, `RouteGraph`,
  `RouteVerdict`, `RouteWitness`): the channel-dependency graph with its two arc maps, tombstoned arc lists
  and counters, updated in place; building it by worker threads; pruning, splitting, and the
  verdict. The main result is that the verdict is right: "deadlock free" exactly if the graph
  had no directed cycle; and, when no path was refused, every hop has connections for the SCs
  its packets are on and every path goes to the LID that stands for its FI, exactly if packets
  on the collected paths use no connections in a cycle.
- **Routes** (`Fabric`, `RouteWalk`, `RouteCounters`, `SwitchTiers`, `ScClosure`,
  `MulticastWalk`): the bounded walk over forwarding tables against unbounded forwarding,
  what the path counters count and their conservation, breadth-first switch tiers, the closure of the
  used service channels, and the recursive multicast walk.
- **MD5** (`Bits`, `Md5Spec`, `Md5Lemmas`, `Md5Deutsch`, `Md5Rivest`): both streaming
  implementations refine "pad, then fold over the blocks" of RFC 1321 for every way of
  cutting up the message, and therefore agree.
- **Indexes and normal forms** (`LidIndex`, `ScscList`, `ExpectedLinks`, `Points`): each
  against the simple thing it stands for.

Code that updates objects in place is modelled by classes and methods with loops; each
such method is proved against a specification, and the properties are proved of the
specification. `cl_qmap` is a map, `QUICK_LIST` and `DLIST` are sequences, pointers are
ids, allocation succeeds. The fabric is taken to be well formed: neighbour pointers are
symmetric, no port is its own neighbour, the lists of ports, nodes and IOCs are exact.

Where the code differs from what one would expect, the model follows the code and says when
it still does what it should:

- `NodeData.analysis` has 5 bits (`topology.h:314`): switches farther than 30 hops from the
  FI-attached ones end up unlabelled (`SwitchTiers.ZeroMeansUnreachable`,
  `SwitchTiers.DeepSwitchUnlabelled`).
- `getSLSCInfo` visits egress ports 0 to NumPorts - 1, so the tables towards the last port are
  ignored (`ScClosure.LastEgressIgnored`, `ScClosure.FindsAllIff`); its early stop at 0xff7f
  cannot happen, because that mask has the bit of SC 15.
- `StlNumPortsSetInPortMask` counts ports 0 to NumPorts only, so an SC2SC entry that serves
  higher ports is dropped as empty (`ScscList.AddAll`,
  `ScscList.AboveCountLost`).
- `ResolvePorts` frees one end only when both ends of a better link resolve to the same port
  (`ExpectedLinks.ResolveAll`, `ExpectedLinks.SamePortBreaks`).
- `ResolvePortSelector` takes a node name before a port GUID, although its comment gives the
  order as node GUID, port GUID, name (`ExpectedLinks.ResolvesIff`).
- `PointFabricCompress` compares counts, so duplicates make a list look complete
  (`Points.CompressExact`, `Points.DuplicateWidens`).
- The two forms of the LID index check only the first LID of a range for duplicates, so they
  part where ranges overlap without being the same (`LidIndex.AgreeIffCompatible`).
- The route graph is walked for one LID per FI, the one of its first mention, although routes
  to all LIDs are collected; dependencies of packets to the others are missed
  (`RouteVerdict.OtherLidUnwalked`, `RouteWitness.OtherLidMissed`).
- A walk of the route graph stops at a hop without a connection for its SC, and then misses
  the dependencies beyond (`RouteVerdict.WalksAreFlows`, `RouteWitness.UnlinkedMissed`).
- FERROR leaves visited flags set, after which multicast loops are recorded that are none
  (`MulticastWalk.ValidateAll`, `MulticastWalk.StaleFlagLoop`).

Check everything with `dafny verify dfyconfig.toml`.

## Model

| member | source | states |
|---|---|---|
| `CreditLoops.Verdict` | opa-fm-master/Topology/route.c:1687-1742 | Prune, then split until nothing is left: "deadlock free" exactly if the dependency relation before pruning has no directed cycle; otherwise the pieces are non-empty, connected, pairwise disjoint, each contains a cycle, together they are exactly the pruned relation, and `count` is their number. |
| `Digraph.CoreEmptyIffAcyclic` | opa-fm-master/Topology/fabricdata.c:3235-3294 | The greatest balanced part of a finite relation is empty if and only if the relation has no directed cycle. |
| `Digraph.CoreIsUnique` | opa-fm-master/Topology/fabricdata.c:3235-3294 | The greatest balanced part is unique, so the outcome of pruning does not depend on the order of vertices or rounds. |
| `Digraph.CycleInCore` | opa-fm-master/Topology/fabricdata.c:3253-3287 | No arc of a cycle is ever outside the part that survives pruning. |
| `Digraph.WalkClosesCycle` | opa-fm-master/Topology/fabricdata.c:3235-3294 | In a finite relation where every vertex with an in-arc has an out-arc, any path can be prolonged until it closes a cycle. |
| `Digraph.BalancedHasCycle` | opa-fm-master/Topology/fabricdata.c:3200-3233 | What survives pruning, if anything, contains a directed cycle. |
| `Digraph.PruneCovers` | opa-fm-master/Topology/fabricdata.c:3253-3287 | Deleting the arcs of a pure source or sink loses no arc of any balanced sub-relation of the original graph. |
| `CreditLoops.Graph.Prune` | opa-fm-master/Topology/fabricdata.c:3235-3294 | Ends (every round but the last deletes an arc) with the greatest subset of the old arcs in which every vertex has an in-arc exactly if it has an out-arc; keeps the representation invariant. |
| `CreditLoops.Graph.PruneRound` | opa-fm-master/Topology/fabricdata.c:3249-3293 | One sweep deletes exactly as many arcs as it reports, keeps every balanced sub-relation, and has reached balance when it deletes none. |
| `CreditLoops.Graph.PruneVertex` | opa-fm-master/Topology/fabricdata.c:3249-3287 | Deletes the in-arcs of a pure sink and the out-arcs of a pure source, and nothing of any balanced sub-relation. |
| `CreditLoops.Graph.DelInbound` | opa-fm-master/Topology/fabricdata.c:3257-3269 | Deleting through the tombstoned list removes exactly the arcs that enter the vertex. |
| `CreditLoops.Graph.DelOutbound` | opa-fm-master/Topology/fabricdata.c:3273-3285 | Deleting through the tombstoned list removes exactly the arcs that leave the vertex. |
| `CreditLoops.Split` | opa-fm-master/Topology/fabricdata.c:3200-3233 | Null exactly if no arc is left; otherwise moves exactly the arcs of the weakly connected component of the first live vertex into the new graph, each once (the arc counters add up), and leaves every other arc alone. |
| `CreditLoops.SplitOutVertex` | opa-fm-master/Topology/fabricdata.c:2585-2681 | The recursion ends (the old graph loses an arc before every recursive call) and has moved the arcs reachable from the vertex, ignoring direction, and no others. |
| `CreditLoops.MoveArcs` | opa-fm-master/Topology/fabricdata.c:2595-2669 | Moves all arcs at one vertex to the new graph and returns exactly the vertices at their other ends. |
| `CreditLoops.CopyOutbound` | opa-fm-master/Topology/fabricdata.c:2604-2628 | The copy loop over the tombstoned outbound list adds each outbound arc to the new graph and collects its sinks. |
| `CreditLoops.CopyInbound` | opa-fm-master/Topology/fabricdata.c:2638-2661 | The copy loop over the tombstoned inbound list adds each inbound arc to the new graph and collects its sources. |
| `CreditLoops.FirstLive` | opa-fm-master/Topology/fabricdata.c:3207-3220 | The first vertex with a non-zero reference count is the first with an arc; there is none exactly if no arc is left. |
| `CreditLoops.NumArcsCountsDeps` | opa-fm-master/Topology/fabricdata.c:2255-2259 | The arc counter equals the number of dependencies, so moves between graphs conserve arcs. |
| `Digraph.SplitIsComponent` | opa-fm-master/Topology/fabricdata.c:2585-2681 | What a split removed is the weakly connected component of its vertex. |
| `Digraph.ComponentHangsTogether` | opa-fm-master/Topology/fabricdata.c:2585-2681 | The component is connected within itself. |
| `Digraph.SplitGivesLoop` | opa-fm-master/Topology/fabricdata.c:3200-3233 | Splitting a balanced relation leaves a balanced rest, shares no vertex with it, and the piece is a connected loop. |
| `Digraph.PiecesStep` | opa-fm-master/Topology/route.c:1711-1738 | Repeated splits partition the pruned relation. |
| `Digraph.PiecesUnique` | opa-fm-master/Topology/route.c:1711-1738 | A relation falls into connected loops without common vertices in one way only, up to order. |
| `Digraph.LoopCountUnique` | opa-fm-master/Topology/route.c:1711-1742 | So the number of loops that is printed depends on the dependencies alone, not on the order of the splits. |
| `CreditLoops.Graph.AddVertex` | opa-fm-master/Topology/fabricdata.c:2124-2176 | One vertex per connection; keeps the representation invariant and all arcs. |
| `CreditLoops.Graph.AddArc` | opa-fm-master/Topology/fabricdata.c:2268-2360 | -1 exactly for a self-loop or an unknown end; an existing arc is returned unchanged; a new one is entered in both maps and both lists with an id that is unique because additions precede deletions. |
| `CreditLoops.Graph.DelArc` | opa-fm-master/Topology/fabricdata.c:2198-2265 | Removes exactly that arc from both maps and both lists and corrects all counters; fails exactly for an id that is not there. |
| `CreditLoops.BuryLoop` | opa-fm-master/Topology/fabricdata.c:2235-2243 | The loop replaces every entry with the id by -1 and counts the hits. |
| `CreditGraph.WithArcKeeps` | opa-fm-master/Topology/fabricdata.c:2268-2360 | Adding an arc keeps the invariant: both maps and the live list entries describe one arc set, and every reference count is in-use in plus in-use out. |
| `CreditGraph.WithoutArcKeeps` | opa-fm-master/Topology/fabricdata.c:2198-2265 | Deleting an arc keeps the same invariant and removes exactly one dependency. |
| `CreditGraph.WithVertexKeeps` | opa-fm-master/Topology/fabricdata.c:2124-2176 | Adding a vertex keeps the invariant and every dependency. |
| `CreditGraph.CountersDecide` | opa-fm-master/Topology/fabricdata.c:3249-3273 | An in-use counter is zero exactly if the vertex has no arc on that side, and the reference count exactly if it has none at all. |
| `CreditGraph.ListedArcExists` | opa-fm-master/Topology/fabricdata.c:2198-2228 | A live list entry always names an existing arc, so the exit for an unknown arc id cannot be reached from the lists. |
| `CreditGraph.ArcIsListed` | opa-fm-master/Topology/fabricdata.c:2307-2337 | Every arc is found in the lists of both its ends. |
| `CreditGraph.BuryCounts` | opa-fm-master/Topology/fabricdata.c:2235-2243 | Burying an id removes all its occurrences, no other, and lowers the live count by as many. |
| `RouteVerdict.ValidateAllCreditLoopRoutes` | opa-fm-master/Topology/route.c:1607-1742 | From forwarding tables, paths and QOS tables to verdict. With no bad path: not done exactly if no path crosses a switch; a reported deadlock is a directed cycle among the pairs of connections that packets on the paths use one after the other by forwarding alone. Where the connections are there, "deadlock free" is reported exactly if the paths to the first-mentioned LIDs of the FIs have no such cycle, and exactly if all paths have none when every path goes to such a LID. The connections are there without SC2SC, and with it where the tables the search for SCs leaves out are harmless. The number reported with a deadlock is the number of connected loops of these dependencies. |
| `RouteVerdict.WalksAreFlows` | opa-fm-master/Topology/fabricdata.c:2376-2512 | With no bad path, the walks over the collected tables add only consecutive pairs of connections of packets to the LIDs that stand for FIs, and all of them if and only if their connections are collected, a condition on the paths and the used SCs. |
| `RouteVerdict.OtherLidUnwalked` | opa-fm-master/Topology/fabricdata.c:2408-2416 | A good path to another LID of its FI than the one that stands for it is walked by no source, destination and SL. |
| `RouteVerdict.LinkIff` | opa-fm-master/Topology/route.c:1436-1465 | With no bad path, a connection is in the tables exactly if some path leaves through its cable on an SC with connections there. |
| `RouteWitness.OtherLidMissed` | opa-fm-master/Topology/fabricdata.c:2408-2416 | A run over a fabric with an LMC of 1 and two good paths: the dependency of packets to the second LID is in no walk. |
| `RouteWitness.UnlinkedMissed` | opa-fm-master/Topology/route.c:1436-1440 | A run with one good path over a switch that moves packets to SC 1: the search finds SC 0 only, the switch gets no connection for SC 1, and the only dependency is in no walk. |
| `RouteVerdict.ItemIsFlow` | opa-fm-master/Topology/fabricdata.c:2412-2509 | The walk of one source, destination and SL adds only consecutive pairs of connections of its packets, and all of them if and only if the tables have the connections; it then reaches the destination unless the packets are dropped on SC 15. |
| `RouteVerdict.WalkIsFlow` | opa-fm-master/Topology/fabricdata.c:2412-2509 | At every device the walk picks the port and the SC that forwarding gives. |
| `RouteVerdict.TraceForwards` | opa-fm-master/Topology/route.c:1408-1434 | A completed trace is, port by port, what unbounded forwarding does. |
| `RouteVerdict.PlainLinked` | opa-fm-master/Topology/fabricdata.c:2441-2475 | Without SLs in use everything runs on SC 0, for which every hop has connections. |
| `RouteVerdict.FoundLinked` | opa-fm-master/Topology/route.c:1607-1612 | If every port has QOS data and the tables towards the last egress ports are harmless, the SCs found by the search give every hop the connections its packets need. |
| `RouteVerdict.FlowReachable` | opa-fm-master/Topology/route.c:749-806 | Packets on used SLs only come to use SCs that chains of SC2SC tables over all egress ports reach. |
| `RouteGraph.Validate` | opa-fm-master/Topology/route.c:1677-1742 | Building by threads, pruning and splitting decide acyclicity of the dependencies of all walks, and the count is the number of connected loops that their core falls into. |
| `RouteGraph.BuildRouteGraph` | opa-fm-master/Topology/fabricdata.c:3083-3197 | Whatever the interleaving of the worker threads, the graph ends with the union of the dependencies of all walks. |
| `RouteGraph.RunThreads` | opa-fm-master/Topology/fabricdata.c:2376-2512 | Any schedule of walks that are atomic under the lock gives the same dependencies. |
| `RouteGraph.Walk` | opa-fm-master/Topology/fabricdata.c:2410-2512 | One walk ends and adds exactly its trail of dependencies. |
| `RouteGraph.TrailConsecutive` | opa-fm-master/Topology/fabricdata.c:2412-2509 | Every dependency of a walk joins two connections that are in the tables, the first leading to the device that the second leaves, both on the way to the destination LID. |
| `RouteGraph.WalkAdvances` | opa-fm-master/Topology/fabricdata.c:2412-2509 | Each hop of a walk leaves fewer switches to cross. |
| `RouteGraph.Record` | opa-fm-master/Topology/fabricdata.c:2481-2493 | Enters a connection and its dependency on the previous one; refuses only a connection that follows itself. |
| `RouteGraph.AssignSlices` | opa-fm-master/Topology/fabricdata.c:3117-3163 | The slices follow one another and cover all sources, so each source is in exactly one. |
| `RouteGraph.ThreadsCover` | opa-fm-master/Topology/fabricdata.c:3117-3163 | The work of all slices, in order, is the work for all sources. |
| `RouteGraph.SliceItemsWanted` | opa-fm-master/Topology/fabricdata.c:2376-2403 | The walks are exactly those between two different FIs on a used SL (SL 0 if none is used). |
| `RouteTables.Collector.GetRoute` | opa-fm-master/Topology/route.c:1387-1529 | A traced path is good exactly if it is delivered to the destination, its ports have connection slots, and the source does not already send to that LID through another port; then all its hops are in the tables. Tables only grow, and only by hops of the completed trace and connections over its cables on used SCs. |
| `RouteTables.CollectRoutes` | opa-fm-master/Topology/route.c:1613-1659 | All hops of every good path are in the tables; every route entry and every connection comes from a path, connections only on the SCs of the hop; the bad paths are exactly those not delivered to their port, without connection slots, or from a source that sends to the LID through another port. |
| `RouteTables.DevicesListed` | opa-fm-master/Topology/fabricdata.c:2871-2943 | Every FI is listed once, and exactly if some path mentions it. |
| `RouteTables.DevicesFirst` | opa-fm-master/Topology/fabricdata.c:2871-2943 | The LID that stands for an FI is the one of its first mention. |
| `RouteTables.Collector.AddConnection` | opa-fm-master/Topology/fabricdata.c:2946-3008 | Refused exactly for a port number without slot or a slot used by another cable; adds this connection or nothing. |
| `RouteTables.Collector.AddRoute` | opa-fm-master/Topology/fabricdata.c:3011-3066 | Refused exactly if the device already sends the LID through another port. |
| `RouteTables.Collector.AddLinks` | opa-fm-master/Topology/route.c:1436-1465 | Connections in both directions for every used SC and no others, refused exactly if a port number has no slot. |
| `RouteTables.RouteExits` | opa-fm-master/Topology/route.c:1408-1465 | Every exit of a completed trace is on the forwarding route of that LID. |
| `RouteTables.NextHopCloser` | opa-fm-master/Topology/fabricdata.c:2412-2509 | Following next-hop tables of completed traces reaches the owner of the LID, runs out of entries or comes closer. |
| `RouteTables.OnRouteUnique` | opa-fm-master/Topology/route.c:1408-1465 | The number of switches left on a route is determined by port and LID. |
| `RouteWalk.WalkRoutePort` | opa-fm-master/Topology/route.c:83-176 | With a callback that always succeeds: success exactly if unbounded forwarding arrives at a port owning the LID within 64 hops with no invalid SC or VL, which is exactly if the tables allow a delivery; the callbacks are, one by one, those of the switches crossed, each entered for the first time and with the exit and the lane that forwarding gives, and of the FIs at the ends; FUNAVAILABLE exactly at a switch without table; stopping at a repeated entry port means unbounded forwarding never arrives. |
| `RouteWalk.DeliveredIff` | opa-fm-master/Topology/route.c:54-176 | Forwarding delivers within 64 hops exactly if there are ports, exits and lanes, read off the tables alone, that lead from the start to a port whose LID range holds the LID. |
| `RouteWalk.FirstLaneIff` | opa-fm-master/Topology/route.c:91-100 | Packets start on SC 0 and VL 0 without QOS data, else on what SL2SC and SC2VL give, and not at all if either is 15. |
| `RouteWalk.NextLaneIff` | opa-fm-master/Topology/route.c:135-148 | A switch changes the lane exactly if the entry port has QOS data with a table towards the exit and neither is port 0; then to what SC2SC and SC2VL give, and not at all if either is 15. |
| `RouteWalk.LoopNeverArrives` | opa-fm-master/Topology/route.c:119-123 | A packet that enters a switch twice through one port never arrives, however far it is followed. |
| `RouteWalk.Periodic` | opa-fm-master/Topology/route.c:119-123 | From a repeated entry port on everything repeats. |
| `RouteWalk.StuckAt` | opa-fm-master/Topology/route.c:112-160 | At a switch without usable exit, valid lane or hops left, nothing is delivered. |
| `RouteWalk.OnlyHere` | opa-fm-master/Topology/route.c:161-176 | Forwarding arrives at one hop count at most. |
| `Fabric.LookupLft` | opa-fm-master/Topology/route.c:54-76 | Port p is found exactly if the LID is in the table and not 0, the entry is not 0xff, p is listed under that number, is initialized, and is cabled unless the number is 0. |
| `RouteCounters.Analysis.TabulateCARoutes` | opa-fm-master/Topology/route.c:527-574 | Each counter ends, modulo 2^32, as the number of pairs of a path tabulated and a hop of it that forwarding takes through the port, Base counters over paths to base LIDs only. On success these are all paths between different FI ports, one per LID offset below the LMC of the source, `total` is their number and `bad` the number of the undelivered; otherwise they are those up to the first that comes to a switch without table. Successful with no bad path exactly if all are delivered, and then both ends of every cable show equal counts. |
| `RouteCounters.Analysis.TabulateRoutes` | opa-fm-master/Topology/route.c:487-523 | One path per LID offset below the LMC of the source, up to the first that comes to a switch without table; every counter grows by the number of hops of these paths through its port; `bad` is the number of undelivered ones. |
| `RouteCounters.Analysis.TabulatePath` | opa-fm-master/Topology/route.c:496-519 | Every counter grows, modulo 2^32, by the number of hops of the path through its port by forwarding; a delivered path keeps the counters of all cables balanced; FUNAVAILABLE exactly if the walk comes to a switch without table. |
| `RouteCounters.Analysis.TabulateHops` | opa-fm-master/Topology/route.c:459-475 | The counters after a walk are those of its hops counted one by one. |
| `RouteCounters.RouteCount` | opa-fm-master/Topology/route.c:83-176 | The hops called back that enter or leave through a port are as many as forwarding takes through it: out of the source, through every switch crossed, into the FI delivered to. |
| `RouteCounters.PairCrossings` | opa-fm-master/Topology/route.c:496-519 | The hops of all paths of one pair of ports, counted once each, add to those of the paths before. |
| `RouteCounters.UnavailableIff` | opa-fm-master/Topology/route.c:115-129 | A walk ends with FUNAVAILABLE exactly if it comes, for the first time and with hops left, to a switch without table. |
| `RouteCounters.RouteConserves` | opa-fm-master/Topology/route.c:83-176 | A complete route crosses each cable as often as it leaves one end and enters the other. |
| `RouteCounters.PathConserves` | opa-fm-master/Topology/route.c:459-475 | A complete route keeps the 32-bit counters at the two ends of a cable equal. |
| `RouteCounters.AfterCounts` | opa-fm-master/Topology/route.c:459-475 | After a walk the counter of a port has been incremented, modulo 2^32, once for every hop that enters or leaves through it. |
| `SwitchTiers.Labels.DetermineSwitchTiers` | opa-fm-master/Topology/route.c:395-434 | Ends, from cleared data, with every switch within 30 switch hops of an FI-attached switch labelled 1 plus its distance and every other switch labelled 0. |
| `SwitchTiers.LabelOfDistance` | opa-fm-master/Topology/route.c:395-434 | A switch at shortest distance k gets label k + 1 if that fits the 5-bit field, else 0. |
| `SwitchTiers.LabelOfUnreachable` | opa-fm-master/Topology/route.c:395-434 | A switch that no FI-attached switch reaches keeps label 0. |
| `SwitchTiers.ZeroMeansUnreachable` | opa-fm-master/Topology/route.c:395-434 | Label 0 means unreachable for all switches if and only if no switch is farther than the field can hold. |
| `SwitchTiers.DeepSwitchUnlabelled` | opa-fm-master/Topology/topology.h:314 | A chain of 32 switches with cables that go both ways: the last is reachable, yet its label is 0. |
| `SwitchTiers.Labels.Round` | opa-fm-master/Topology/route.c:413-432 | One round labels exactly the unlabelled neighbours of the last tier. |
| `SwitchTiers.Labels.LabelAttached` | opa-fm-master/Topology/route.c:402-410 | Label 1 goes to exactly the switches cabled to an FI. |
| `SwitchTiers.NearFixpoint` | opa-fm-master/Topology/route.c:413-432 | A round that finds nothing has found everything. |
| `ScClosure.GetSlScInfo` | opa-fm-master/Topology/route.c:737-809 | The SCs are exactly those that a chain of visited SC2SC tables reaches from an SC that a used SL maps to, which is the least closed set above these; never SC 15; the sweeps end. |
| `ScClosure.Sweep` | opa-fm-master/Topology/route.c:778-806 | A sweep stays below every closed set above its input, and changes nothing only if its input is closed. |
| `ScClosure.ApplyTable` | opa-fm-master/Topology/route.c:794-805 | One table adds only what closure needs; if nothing is added the set respects it. |
| `ScClosure.Seed` | opa-fm-master/Topology/route.c:749-774 | Exactly the valid SCs that used SLs map to at hosts and switch ports 0; the early stop at mask 0xff7f never happens. |
| `ScClosure.LastEgressIgnored` | opa-fm-master/Topology/route.c:791-792 | A run with one virtual fabric, one host and a one-port switch whose table is for egress port NumPorts: the result is SC 0 alone, although packets leave the switch on SC 1. |
| `ScClosure.FindsAllIff` | opa-fm-master/Topology/route.c:791-792 | The SCs found are all that packets can come to use over all egress ports if and only if every table towards the last egress port maps each SC found to 15 or to another SC found. |
| `ScClosure.LeastIsReachable` | opa-fm-master/Topology/route.c:776-806 | The least closed set above the seeds is what finite chains of table steps reach from them. |
| `MulticastWalk.Walker.Walk` | opa-fm-master/Topology/route.c:1040-1229 | Recursion is bounded by the unvisited switches; unless FERROR, visited flags and route list are as at entry; every record is a connected route that ends at what it is recorded as; a problem of the device entered is recorded and answered as FNOT_DONE, FUNAVAILABLE or FDUPLICATE according to the test that fails first; nothing is recorded and no FERROR returned exactly if every route the tables allow from here meets no switch twice, stays below 64 devices, and ends in group members, with an entry for the group at every switch and a usable port at every exit, and then the status is FSUCCESS. |
| `MulticastWalk.FindingIff` | opa-fm-master/Topology/route.c:1067-1186 | The tests on entering a device, told one by one: NO_TRACE for 64 hops or a switch without data, NOGROUP for an FI outside the group, UNAVAILABLE for no table, too wide an entry or no entry, LOOP for a flagged switch, FERROR for a group beyond the table, and none for a member or a switch with an entry met first. |
| `MulticastWalk.ShownIsGenuine` | opa-fm-master/Topology/route.c:1067-1186 | What a device shows is true of the route recorded with it. |
| `MulticastWalk.Walker.WalkExit` | opa-fm-master/Topology/route.c:1192-1219 | An exit that is not there, not initialized or without cable is recorded as NO_TRACE with the route up to it and answered with FNOT_DONE; any other is walked from its far end. |
| `MulticastWalk.Walker.WalkPorts` | opa-fm-master/Topology/route.c:1188-1222 | The same over all exit ports of one switch. |
| `MulticastWalk.AllSoundUnfold` | opa-fm-master/Topology/route.c:1040-1229 | All routes from a port are in order exactly if its device is and all routes beyond each of its exits are. |
| `MulticastWalk.ValidateAll` | opa-fm-master/Topology/route.c:1292-1331 | While no walk failed with FERROR the flags are clear and every record is a genuine problem of the group of one of the starting points: a real cycle, an FI outside the group, a switch without usable entry, a dead exit or 64 devices; no failure and no record exactly if all routes of all starting points are in order; nothing fails if every group is in the multicast range and at most one past every usable table. |
| `MulticastWalk.StaleFlagLoop` | opa-fm-master/Topology/route.c:1168-1216 | A run over two switches, the second with a shorter table: the first group fails there with FERROR, and the second is then recorded as a loop that is none. |
| `MulticastWalk.ValidateRoutes` | opa-fm-master/Topology/route.c:1232-1265 | One starting point; nothing is walked where it is not at a switch. |
| `MulticastWalk.Entered` | opa-fm-master/Topology/route.c:1055-1066 | Entering a flagged switch from a route that covers the flags closes a loop within that route. |
| `Md5Deutsch.Hash` | opa-fm-master/Md5/Md5_Deutsch.c:323-392 | For every list of chunks, init, appends and finish give the MD5 digest of the concatenation as in sections 3.1 to 3.5 of RFC 1321. |
| `Md5Deutsch.State.Append` | opa-fm-master/Md5/Md5_Deutsch.c:333-369 | The two-word bit count is 8 times the length modulo 2^64, the registers are the fold over the complete blocks, and the buffer holds the unprocessed tail, whatever the split. |
| `Md5Deutsch.State.Finish` | opa-fm-master/Md5/Md5_Deutsch.c:371-392 | The digest is that of everything appended. |
| `Md5Deutsch.State.Process` | opa-fm-master/Md5/Md5_Deutsch.c:165-321 | One block is the 64-step compression of RFC 1321. |
| `Md5Deutsch.State.UpdateCount` | opa-fm-master/Md5/Md5_Deutsch.c:339-348 | The carry between the two count words is right. |
| `Md5Deutsch.State.TopUp` | opa-fm-master/Md5/Md5_Deutsch.c:350-361 | A partial block is completed and processed exactly if enough bytes arrive. |
| `Md5Deutsch.State.Blocks` | opa-fm-master/Md5/Md5_Deutsch.c:363-369 | Full blocks are processed straight from the input and the rest is buffered. |
| `Md5Rivest.Hash` | opa-fm-master/Md5/Md5_Rivest.c:82-167 | The byte-at-a-time implementation gives the same specified digest for every list of chunks. |
| `Md5Rivest.HashBoth` | opa-fm-master/Md5/Md5_Rivest.c:82-167 | Both implementations give the specified digest on every message, for any two ways of cutting it up. |
| `Md5Rivest.Context.Update` | opa-fm-master/Md5/Md5_Rivest.c:95-128 | Count, registers and buffer again mean the fold, the length and the tail. |
| `Md5Rivest.Context.Final` | opa-fm-master/Md5/Md5_Rivest.c:130-167 | Padding by 56 - mdi or 120 - mdi bytes and a last block with the saved count give the specified digest. |
| `Md5Rivest.Context.Feed` | opa-fm-master/Md5/Md5_Rivest.c:111-127 | One byte more; a full buffer is transformed at once. |
| `Md5Rivest.Transform` | opa-fm-master/Md5/Md5_Rivest.c:171-267 | The 64 unrolled steps with rotated register names are the compression of RFC 1321. |
| `Md5Rivest.LastBlock` | opa-fm-master/Md5/Md5_Rivest.c:140-156 | The 14 buffered words and the two saved count words make the last padded block. |
| `Md5Lemmas.PadSplits` | opa-fm-master/Md5/Md5_Deutsch.c:384-389 | Padding in two appends is the padding of section 3.1 and 3.2 of RFC 1321. |
| `Md5Lemmas.FBit` | opa-fm-master/Md5/Md5_Rivest.c:51 | F picks, bit by bit, y where x is set and z where it is not. |
| `Md5Lemmas.GBit` | opa-fm-master/Md5/Md5_Rivest.c:52 | G picks x where z is set and y where it is not. |
| `Md5Lemmas.HBit` | opa-fm-master/Md5/Md5_Rivest.c:53 | H is the parity of the three bits. |
| `Md5Lemmas.IBit` | opa-fm-master/Md5/Md5_Rivest.c:54 | I flips y where x is set or z is not. |
| `Md5Lemmas.RotlBit` | opa-fm-master/Md5/Md5_Rivest.c:57 | Rotation by s moves bit k to bit (k + s) mod 32. |
| `Md5Lemmas.AddWraps` | opa-fm-master/Md5/Md5_Rivest.c:60-67 | Addition of words wraps around once. |
| `LidIndex.FormsAgree` | opa-fm-master/Topology/search.c:74-103 | After any run of additions and removals over aligned ranges that are disjoint or the same, array lookup and range-compared descent of a tree of any shape find the same port: the one registered port whose range holds the LID. |
| `LidIndex.AgreeIffCompatible` | opa-fm-master/Topology/fabricdata.c:505-586 | The two forms give the same answers after all runs if and only if the ranges of the ports that can register are pairwise disjoint or the same. |
| `LidIndex.RegisteredIff` | opa-fm-master/Topology/fabricdata.c:505-586 | After a run from the empty index the port registered under a LID is the one that an addition put there, the port having a GUID and a unicast LID and being armed, active or switch port 0 in state Nop, with the LID free or by force, and that no removal or forced addition has ousted since. |
| `LidIndex.StepRegisters` | opa-fm-master/Topology/fabricdata.c:505-586 | What one operation does to the registered ports. |
| `LidIndex.NestedSeparates` | opa-fm-master/Topology/fabricdata.c:557-558 | Where the base LID of one port lies in the range of another with a lower base, adding both and removing the first makes the forms disagree. |
| `LidIndex.SameBaseSeparates` | opa-fm-master/Topology/fabricdata.c:557-576 | Where two ports have one base LID and different LMCs, forcing the smaller in over the larger makes the forms disagree. |
| `LidIndex.SearchFindsOwner` | opa-fm-master/Topology/search.c:74-103 | An ordered tree of any shape finds a port exactly if it is registered and its range holds the LID. |
| `LidIndex.StepAgrees` | opa-fm-master/Topology/fabricdata.c:505-586 | Every single operation keeps the two forms in agreement and reports the same status. |
| `LidIndex.RangesOrdered` | opa-fm-master/Topology/search.c:64-86 | Disjoint ranges are ordered like their base LIDs, so comparing with a range steers the descent correctly. |
| `LidIndex.StaysUnicast` | opa-fm-master/Topology/fabricdata.c:528-530 | An aligned unicast range never reaches past the unicast LIDs, so the bound in the loop never cuts one off. |
| `LidIndex.ArrayForm.Add` | opa-fm-master/Topology/fabricdata.c:536-570 | The array after an addition, with the duplicate test on the first slot only. |
| `LidIndex.ArrayForm.Remove` | opa-fm-master/Topology/fabricdata.c:505-530 | The array after a removal; a port that is neither armed nor active is removed only if found. |
| `LidIndex.ArrayForm.FillRange` | opa-fm-master/Topology/fabricdata.c:566-568 | The loop fills exactly the range, clipped to the unicast LIDs. |
| `ScscList.ScscMaps.Add` | opa-fm-master/Topology/fabricdata.c:608-664 | Tables stay pairwise distinct, masks disjoint and non-empty; the port gets the table, all others keep theirs unless they share an entry misjudged as empty, and these follow the port to a new table or lose theirs. |
| `ScscList.AddAll` | opa-fm-master/Topology/fabricdata.c:588-664 | For any run of additions, lookup returns the last table added for each port at every step if and only if no addition takes a port away from a table that only ports above NumPorts share with it; so always for ports up to NumPorts. |
| `ScscList.AddMeansIff` | opa-fm-master/Topology/fabricdata.c:618-664 | One addition acts on the meaning of the list as it should if and only if it strands no port. |
| `ScscList.MisjudgedIsStrands` | opa-fm-master/Topology/fabricdata.c:625-631 | Whether an entry will be misjudged can be read off the map from ports to tables. |
| `ScscList.LookupServes` | opa-fm-master/Topology/fabricdata.c:588-603 | In a normal list, first match is membership. |
| `ScscList.ScscMaps.Find` | opa-fm-master/Topology/fabricdata.c:588-603 | The scan returns the first match. |
| `ScscList.ScscMaps.Scan` | opa-fm-master/Topology/fabricdata.c:618-633 | The matching table gains the port, all others lose it, and an entry that then counts as empty is remembered. |
| `ScscList.AddMeaning` | opa-fm-master/Topology/fabricdata.c:618-664 | The repair after the scan keeps the list normal and gives every port the table the update says. |
| `ScscList.AboveCountLost` | opa-fm-master/IbAccess/Common/Inc/stl_helper.h:1187-1199 | A run of three additions over two egress ports above NumPorts after which the second is looked up with the table of the first. |
| `ExpectedLinks.Associations.ResolvePorts` | opa-fm-master/Topology/topology.c:335-422 | Keeps the running best match exactly if the link does not break it, that is, unless both its ends resolve to one end of a cable that has a worse match. |
| `ExpectedLinks.ResolveAll` | opa-fm-master/Topology/topology.c:335-422 | For any sequence of links: every prefix is the running best match if and only if no link breaks it. |
| `ExpectedLinks.RunDoneIff` | opa-fm-master/Topology/topology.c:335-422 | The same equivalence, of the states a run goes through. |
| `ExpectedLinks.OwnerIsBest` | opa-fm-master/Topology/topology.c:360-421 | The owner of a cable is the earliest link of greatest level among all that resolve to its two ends, and points back at exactly these; a cable without such link is free. |
| `ExpectedLinks.OwnerRanksFirst` | opa-fm-master/Topology/topology.c:360-421 | No link that leads to a cable has selectors that match better than those of the link that owns the cable, and no earlier one as well. |
| `ExpectedLinks.StepDone` | opa-fm-master/Topology/topology.c:360-421 | One link keeps the best match if and only if it does not break it. |
| `ExpectedLinks.BestIsBest` | opa-fm-master/Topology/topology.c:206-226 | The running maximum is the earliest of the maxima. |
| `ExpectedLinks.SamePortBreaks` | opa-fm-master/Topology/topology.c:377-393 | A link naming one port twice frees that port and leaves its neighbour pointing at a link that points nowhere. |
| `ExpectedLinks.ResolveSelector` | opa-fm-master/Topology/topology.c:138-204 | A resolved port is on the resolved node; the level is none exactly if no node was found and port exactly if the selector names the port by number or GUID. |
| `ExpectedLinks.ResolvesIff` | opa-fm-master/Topology/topology.c:138-204 | The node is the one of the node GUID, else of the name, else of the port GUID; the port is the one with the number on that node, else with the GUID there, else the only port; each next rule counts exactly if the one before finds nothing. |
| `ExpectedLinks.CompleteIff` | opa-fm-master/Topology/topology.c:228-239 | A selector is complete exactly if there is a fabric in which it names its port by number or GUID. |
| `ExpectedLinks.LevelIff` | opa-fm-master/Topology/topology.c:206-226 | One pair of matches outranks another exactly if its worse end is better, or as good and its better end is better. |
| `ExpectedLinks.LevelOrder` | opa-fm-master/Topology/topology.c:206-226 | The level is symmetric, strictly greater if one end matches better and the other no worse, and greater for two matched ends than for one. |
| `ExpectedLinks.TargetIs` | opa-fm-master/Topology/topology.c:343-374 | Where a link leads in every case: an end whose partner need not be a certain port takes its neighbour for it, end 1 before end 2; else both ends stay as resolved and a missing one is the neighbour of the other exactly if that is on its node. |
| `Points.CompressExact` | opa-fm-master/Topology/point.c:989-1158 | Compression changes no answer of the four compare functions if and only if a merged list has no duplicates and, for IOCs, its IOU is the only one on its node. |
| `Points.CompressKeeps` | opa-fm-master/Topology/point.c:989-1158 | For duplicate-free lists and at most one IOU per node, no answer changes. |
| `Points.DuplicateWidens` | opa-fm-master/Topology/point.c:1009-1022 | A port listed twice makes a node of two ports count as complete. |
| `Points.ListIsWhole` | opa-fm-master/Topology/point.c:1009-1022 | A list of as many objects as the parent has is all of them exactly if it has no duplicates. |
| `Points.Point.Compress` | opa-fm-master/Topology/point.c:989-1158 | The loops compute the compressed form and keep validity and the other parts of the point. |
| `Points.Point.ComparePort` | opa-fm-master/Topology/point.c:657-712 | True for every port if the point is invalid, else exactly for the ports the point selects. |
| `Points.Point.CompareNode` | opa-fm-master/Topology/point.c:718-773 | The same for nodes. |
| `Points.Point.CompareIoc` | opa-fm-master/Topology/point.c:793-816 | The same for IOCs. |
| `Points.Point.CompareSystem` | opa-fm-master/Topology/point.c:831-886 | The same for systems. |
| `Points.Point.AppendUniquePort` | opa-fm-master/Topology/point.c:975-983 | Selects one port more, keeps the list free of duplicates, and destroys a point of another kind. |

## Left out

- CLDijkstraFindDistancesAndRoutes, CLDijkstraFindCycles: listing the cycles of a piece; the code pops vertices in id order and copies rows short, so no shortest-distance claim follows from it.
- NumActiveVertices: counts vertices that never get an arc as well; the model uses the reference counts.
- Worker threads outside the lock: present_routes, missing_routes and the hop histogram; thread creation and waiting; a walk is one atomic step because it runs under the lock.
- CLGetRoute workarounds for traces that lack their first or last hop: the traces here come from WalkRoutePort, which has both; rates of connections are not compared, since the stored rate is never set.
- RouteVerdict.ValidateAllCreditLoopRoutes: with bad paths, whose hops may be in the tables in part, the verdict is about the walks over the tables only; the LID that stands for an FI is taken to belong to no other FI; packets are followed until they are dropped on SC 15, VL 15 is not looked at; only FIs are kept as devices, since the list of switches is not used.
- RouteVerdict.FoundLinked: one sufficient condition for the connections being there; the exact one, `RouteVerdict.AllLinked`, is about all collected paths.
- GenPaths: its result is any list of paths whose source port has a neighbour and whose ends are FI ports.
- Allocation failures, freeing, progress printing, timing, report callbacks and XML or text output.
- RouteWalk.WalkRoutePort: the callback is a function of the calls so far, and a start port outside a switch must have a neighbour, since the code dereferences it unchecked.
- RouteCounters.Analysis.TabulateCARoutes: the nested loops over FIs and their ports run over one list of all FI ports; totals and bad-path counts are unbounded, the path counters wrap at 2^32; the fat-tree variant of the callback is not modelled.
- SwitchTiers.Labels.DetermineSwitchTiers: a node lists the devices its ports lead to instead of port objects; labels that the code also gives to FI nodes are in the model, but not in the statement.
- ScClosure.GetSlScInfo: bit masks are sets of numbers, so shifting a signed 1 by 31 raises no question.
- MulticastWalk.Walker.Walk: the hop counter is modelled as it is, also where a dead exit lowers it without having raised it, and is an exact depth only while nothing has been recorded; path counts and MC_NOT_FOUND are not modelled; shifting by a port number of 64 or more clears nothing.
- MulticastWalk.ValidateAll: groups and their edge switches are one list of starting points; skipping groups with fewer than two members is up to that list.
- Md5Deutsch.State.Append: a chunk plus the bytes already in the buffer stays below 2^31, because the code adds them in a signed int; nbytes << 3 is taken to wrap around.
- Md5Rivest.Context.Update: UINT4 is the 32-bit type its comment asks for; builds where unsigned long has 64 bits are not modelled.
- The little-endian aligned-pointer branch of md5_process and the wrapper Md5.c: pointer reinterpretation and pass-through only.
- LidIndex.FormsAgree: base LIDs of ports that can register have their low LMC bits clear; ports keep their LID while registered, and an armed or active port is removed only while registered, as the code's comment says it should be; PortDataSetPortInfo, which can change a registered LID, is not modelled.
- How cl_qmap balances the tree of LIDs: additions and removals act on a map, and the search is proved for an ordered tree of any shape with the entries of that map.
- ExpectedLinks.ResolveSelector: node descriptions and GUIDs are looked up in maps, so which of several equal node descriptions is found first is left open.
- Points: the expected node, SM and link parts are one flag; PointCopy, focus parsing and the searches that fill points are left out.
- IbPrint, mad.c, mad_info.c, getdate.c, focus.c, XML parsing and output, name and pattern searches: formatting and plumbing.
