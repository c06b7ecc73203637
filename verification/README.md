# Composite OS in Dafny

Composite is a component-based operating system. This project models the parts of it whose correctness rests on
arguments that span many functions, and proves what they are for. Imperative code is modelled by classes whose
methods update their fields; protocols between several parties are modelled by their atomic steps, and the results
hold for every interleaving.

- **Protection-domain policy** (`Heap`, `Cuts`, `MinCut`, `PdEdges`, `Policy`, `DomainCuts`, `Trades`, `Customizing`,
  `Tradeoff`, `Alternation`). Components invoke each other; domains group them; an invocation across domains costs. The
  priority heap keeps its order and its back-indices under every operation. `mc_find_min_cut` is the Stoer-Wagner
  algorithm: the cut it records is a minimum cut. The running total of the policy is the cost of the placement; a merge
  saves exactly the weight of the edge between the domains, and a split costs exactly the weight of the cut. The
  recorded cuts of all domains stay minimum cuts, so that isolation is always increased where it costs least.
  Customising the overhead to a limit refines a relation between placements: the merges that save most, the splits that
  cost least, and rounds of both while a trade pays. It never looks into an empty heap, keeps within the limit, and
  leaves no domain that could be split below it. In every run, whatever the order of the heaps among equals, the number
  of rounds is bounded but for rounds that exchange a merge for a split of the same weight; unless two lightest cuts
  that weigh something tie, such a round is the last. With a tie the function need not end: there are seven components
  on which it can make any number of rounds.
- **Mutable protection domains in the kernel** (`MpdState`, `MpdKernel`, `Isolation`). Composite spds are counted by
  reference, merged, split, subordinated and deprecated while threads have frames in them. In every run the spd of a
  frame stays mapped in the page table of the frame's composite, reference counts are exact, page tables are shared
  exactly within a flat subordination, the pool holds exactly the tables out of use, once each, a descriptor is free
  exactly if nothing uses it, and every capability has the isolation level that the composites ask for. An invocation is
  taken exactly if the owner of the capability is mapped where the thread runs. An activation without a free descriptor
  or page table is not noticed by the kernel, which goes on with an index before the array; runs activate only where
  there is one.
- **Kernel and user-level scheduler** (`EventList`, `SchedDecision`, `Upcalls`). Under every interleaving no entry of
  the shared event list that has something to deliver is lost, and no cycles are; a flag that is posted before an
  earlier one has been delivered replaces it. A drain of the list that ends has visited every entry that was on it when
  the drain began. No event is missed by a scheduling decision: a thread only ever commits to a target that it has
  chosen itself after processing every event that had been posted. This rests on one processor, and on the event that
  the kernel posts whenever another thread comes to run. It is assumed that the thread left has an event entry with the
  scheduler, and that a switch between threads takes a number of cycles that is not a multiple of 2 to the 32, since
  the kernel posts nothing for zero elapsed cycles. Activations of brands are neither lost nor invented, and the chains
  of interrupted threads never close.
- **Allocators and indexes** (`CosVect`, `CosMap`, `Bitmap`, `Cbuf`). Maps over one- and two-level vectors refine
  partial maps, but that the id under which a null value is stored is lost; the slab allocator returns disjoint objects
  of the least sufficient size within their page.
- **Loader** (`LoaderDag`). The bounded search accepts exactly the dependency graphs without a cycle.
- **Algorithms in the libraries** (`RedBlack`, `QuickSort`, `LongLong`, `Ezxml`, `XmlText`). Red-black trees, quicksort
  with an explicit stack, two-word arithmetic, and XML escaping: references come out as UTF-8 that a reader gets the
  character back from, and the buffer is large enough for every text that ends neither in a carriage return nor in a
  carriage return and a line feed; for any other the first loop of the decoding steps over the terminator.

`Seqs` and `Arith` hold what the modules share about sequences, orders and arithmetic. `dafny verify dfyconfig.toml`
checks the project.

## Model

| member | source | states |
|---|---|---|
| PriorityHeap.Heap.constructor | src/components/lib/heap.c:145-160 | an empty heap is valid for every order |
| PriorityHeap.Heap.SwapEntries | src/components/lib/heap.c:25-35 | two entries change places and their stored indices with them; nothing else changes |
| PriorityHeap.Heap.SwapDown | src/components/lib/heap.c:42-71 | an entry that may be too low for its children sinks until the heap is ordered; the elements stay, and every stored index is the position |
| PriorityHeap.Heap.SwapUp | src/components/lib/heap.c:73-91 | an entry that may belong above its parent rises to where only its order with its children is open; the elements stay, and every stored index is the position |
| PriorityHeap.Heap.Heapify | src/components/lib/heap.c:94-98 | after a change of the key at one position, the heap is ordered again |
| PriorityHeap.Heap.Add | src/components/lib/heap.c:168-185 | fails exactly when the heap is full; otherwise exactly the new element is added and the heap stays ordered and indexed |
| PriorityHeap.Heap.Highest | src/components/lib/heap.c:187-203 | returns nothing exactly when the heap is empty, else an element that is at least every other, which is removed and gets index 0 |
| PriorityHeap.Heap.PopRoot | src/components/lib/heap.c:187-203 | the root leaves the heap with index 0, and the rest is a valid heap |
| PriorityHeap.Heap.Peek | src/components/lib/heap.c:205-210 | returns a maximum and changes nothing |
| PriorityHeap.Heap.Adjust | src/components/lib/heap.c:212-219 | after an arbitrary change of one key the heap is valid again, with the same elements |
| PriorityHeap.Heap.Remove | src/components/lib/heap.c:221-243 | removes exactly the element at the index, which gets index 0; the rest is a valid heap |
| PriorityHeap.Heap.Size | src/components/lib/heap.c:245-248 | the number of elements |
| PriorityHeap.RootIsHighest | src/components/lib/heap.c:25-98 | in an ordered heap no element is above the root, for any total preorder |
| Cuts.CutOfPhaseIsMinimum | src/components/include/mpd_policy.h:790-861 | every cut that separates the last two groups of a most-connected-first order weighs at least the cut of the phase |
| Cuts.CutBound | src/components/include/mpd_policy.h:806-861 | the inductive bound behind it: at each active group, the cut restricted to the groups so far weighs at least its connection |
| MinCut.Domain.GroupWeight | src/components/include/mpd_policy.h:681-708 | the loops add up exactly the edges between a component and a group |
| MinCut.Domain.GroupToGroupWeight | src/components/include/mpd_policy.h:710-735 | the loops add up exactly the edges between two groups |
| MinCut.Domain.Strengthen | src/components/include/mpd_policy.h:737-743 | the key of a queued group grows and the queue is a valid heap again; the key of any other group stays |
| MinCut.Domain.AdjustForMember | src/components/include/mpd_policy.h:745-775 | every queued group's key grows by exactly its connection to the component |
| MinCut.Domain.AdjustForGroup | src/components/include/mpd_policy.h:777-788 | every queued group's key grows by exactly its connection to the group that joined, and the queue is a valid heap again |
| MinCut.Domain.PlaceMember | src/components/include/mpd_policy.h:822-833 | exactly the masters are queued, with their connection to the first group as key |
| MinCut.Domain.FillHeap | src/components/include/mpd_policy.h:821-834 | every group but the first is queued with its connection to the first as key |
| MinCut.Domain.TakeHighest | src/components/include/mpd_policy.h:849-850 | the group taken is the most connected of the queue |
| MinCut.Domain.Absorb | src/components/include/mpd_policy.h:851-852 | the keys are again the connections to all groups that have joined |
| MinCut.Domain.Grow | src/components/include/mpd_policy.h:848-853 | groups join, most connected first, until one is left |
| MinCut.Domain.Start | src/components/include/mpd_policy.h:812-834 | the order starts with the first member's group, and all others wait with their connection to it |
| MinCut.Domain.Phase | src/components/include/mpd_policy.h:806-861 | the phase orders all groups most connected first |
| MinCut.Domain.CutOfPhase | src/components/include/mpd_policy.h:790-861 | the value returned is the weight of the cut that separates the last group |
| MinCut.Domain.AppendLists | src/components/include/mpd_policy.h:883-906 | two groups become one, with one ring and one master, the components moved are marked as slaves, and one group fewer remains |
| MinCut.Domain.RecordCut | src/components/include/mpd_policy.h:966-979 | the components recorded are exactly those of the last group, each once |
| MinCut.Domain.PrepareData | src/components/include/mpd_policy.h:908-929 | every component is a group of its own, least connected and without weight, and no cut is recorded |
| MinCut.MergedGroups | src/components/include/mpd_policy.h:883-906 | moving the ring of one group into another gives proper groups again |
| MinCut.PhaseSettles | src/components/include/mpd_policy.h:958-983 | after the last two groups are merged, every cut that splits a group weighs at least the best cut recorded |
| MinCut.Domain.Round | src/components/include/mpd_policy.h:958-983 | one phase keeps the recorded cut real and the best so far, and leaves one group fewer |
| MinCut.Domain.FindMinCut | src/components/include/mpd_policy.h:935-997 | terminates; the recorded components are one side of a cut of exactly the recorded weight, and no cut of the domain is lighter |
| PdEdges.EdgeTable.constructor | src/components/include/mpd_policy.h:1082-1103 | no pd-edge, no cost, and an empty heap |
| PdEdges.EdgeTable.SetWeight | src/components/include/mpd_policy.h:268-275 | the weight changes, the total by the difference, and the heap of pd-edges stays valid |
| PdEdges.EdgeTable.Create | src/components/include/mpd_policy.h:333-355 | a new pd-edge of weight 0 is on the heap |
| PdEdges.EdgeTable.Free | src/components/include/mpd_policy.h:299-331 | an empty pd-edge leaves the table and the heap |
| PdEdges.EdgeTable.Find | src/components/include/mpd_policy.h:395-420 | finds a pd-edge between the two domains, in either direction, exactly if there is one |
| PdEdges.EdgeTable.PopHeaviest | src/components/include/mpd_policy.h:1124-1134 | the pd-edge that leaves the heap is at least as heavy as every other on it |
| PdEdges.EdgeTable.PeekHeaviest | src/components/include/mpd_policy.h:1143-1148 | the weight of a pd-edge that none on the heap exceeds |
| PdEdges.EdgeTable.DropEdge | src/components/include/mpd_policy.h:462-483 | the pd-edge loses the weight of an edge, and goes with its last one |
| PdEdges.EdgeTable.TakeEdge | src/components/include/mpd_policy.h:532-543 | the pd-edge between the domains, which is created only if there is none, gains the weight of an edge |
| Policy.PdPolicy.constructor | src/components/include/mpd_policy.h:1082-1103 | the empty policy is consistent |
| Policy.PdPolicy.Detach | src/components/include/mpd_policy.h:462-483 | the edge leaves its pd-edge, which goes with its last edge; weights and total follow |
| Policy.PdPolicy.Attach | src/components/include/mpd_policy.h:532-543 | the edge joins the only pd-edge between the domains of its ends; weights and total follow |
| Policy.PdPolicy.DetachAll | src/components/include/mpd_policy.h:504-513 | the edges of the component are detached, and no others |
| Policy.PdPolicy.RemComponent | src/components/include/mpd_policy.h:489-530 | no edge of the component is attached any more; the domain goes exactly with its last member, and then no pd-edge ends there |
| Policy.PdPolicy.AttachAll | src/components/include/mpd_policy.h:564-575 | exactly the edges of the component that cross domains are attached, each once although two loops run |
| Policy.PdPolicy.CreateDomain | src/components/include/mpd_policy.h:236-259 | a new empty domain, and all others as before |
| Policy.PdPolicy.AddComponent | src/components/include/mpd_policy.h:545-581 | exactly the edges of the component that cross domains are attached; member lists and placement agree |
| Policy.PdPolicy.Move | src/components/include/mpd_policy.h:595-605 | a component that changes domains takes its edges along; weights, members and total are consistent |
| Policy.PdPolicy.Merge | src/components/include/mpd_policy.h:585-610 | all members of one domain are in the other, the emptied domain is gone, and weights, members and total are consistent |
| Policy.PdPolicy.SplitOff | src/components/include/mpd_policy.h:629-667 | the components of any cut go to a new domain, and the other domain keeps the rest |
| Policy.PdPolicy.Split | src/components/include/mpd_policy.h:629-659 | the components of the cut are in a new domain, the other domain is not empty, and the total rises by exactly the weight of the cut |
| Policy.PdPolicy.TotalIsCross | src/components/include/mpd_policy.h:268-275 | in a consistent state the running total is the sum over all edges that cross domains |
| Policy.MergeSaves | src/components/include/mpd_policy.h:585-622 | merging two domains lowers the cost of a placement by exactly the weight of the edges between them |
| Policy.SplitCosts | src/components/include/mpd_policy.h:629-667 | splitting a set off a domain raises the cost of a placement by exactly the weight of the cut |
| Policy.MergeWeight | src/components/include/mpd_policy.h:612-622 | the weight of a pd-edge is what merging its two ends saves |
| Policy.AttachedIsCross | src/components/include/mpd_policy.h:462-581 | when every edge is attached as the placement asks, the attached weight is the cost of the placement |
| Policy.PdPolicy.DecreaseOverhead | src/components/include/mpd_policy.h:1124-1134 | the ends of a heaviest pd-edge are merged, the total falls by exactly its weight, and one domain fewer remains |
| Policy.PdPolicy.SetInv | src/components/include/mpd_policy.h:283-297 | the pd-edge and the total follow the weight of an edge exactly if it crosses domains |
| Policy.PdPolicy.AddEdge | src/components/include/mpd_policy.h:428-460 | the total rises by exactly the weight of the new edge, and all is consistent |
| Policy.PdPolicy.TryCreateComponent | src/components/include/mpd_policy.h:1005-1015 | an unknown component gets a domain of its own; a known one changes nothing |
| DomainCuts.CutTable.constructor | src/components/include/mpd_policy.h:1082-1103 | no cut is recorded, and the heap of domains is empty |
| DomainCuts.CutTable.Record | src/components/include/mpd_policy.h:986-994 | the domain has the cut, and its place on the heap, whether it was there before or not |
| DomainCuts.CutTable.Drop | src/components/include/mpd_policy.h:371-373 | the domain is off the heap, and the others keep their order |
| DomainCuts.CutTable.PopLightest | src/components/include/mpd_policy.h:1112-1120 | the domain that leaves the heap has a cut that none is lighter than |
| DomainCuts.CutTable.PeekLightest | src/components/include/mpd_policy.h:1136-1141 | the weight of a recorded cut that none is lighter than |
| Tradeoff.Balancer.constructor | src/components/include/mpd_policy.h:1082-1103 | the empty policy with its three heaps is valid |
| Tradeoff.Balancer.FindMinCut | src/components/include/mpd_policy.h:935-997 | a minimum cut is recorded for the domain exactly if it has several components, and no other record changes |
| Tradeoff.Balancer.LightestCut | src/components/include/mpd_policy.h:957-985 | the recorded side and weight are a minimum cut of the components, which always exists |
| Tradeoff.Balancer.Recompute | src/components/include/mpd_policy.h:1162-1171 | the recorded cuts of all domains are minimum cuts |
| Tradeoff.Balancer.DecreaseOverhead | src/components/include/mpd_policy.h:1124-1134 | two domains are merged, the total falls by the weight of a heaviest pd-edge, and the records of all domains are minimum cuts if they were |
| Tradeoff.Balancer.PopLightest | src/components/include/mpd_policy.h:1112-1118 | the domain and the side taken are a lightest cut of all domains, and only its record is due |
| Tradeoff.Balancer.SplitAlong | src/components/include/mpd_policy.h:629-660 | the domain is split along the cut, the total rises by exactly its weight, and only the records of the two parts are due |
| Tradeoff.Balancer.RecutBoth | src/components/include/mpd_policy.h:661-664 | the records of both parts are minimum cuts again |
| Tradeoff.Balancer.IncreaseIsolation | src/components/include/mpd_policy.h:1112-1122 | of all cuts of all domains the one that costs least is taken, and the records stay minimum cuts |
| Tradeoff.Balancer.RemoveOverheadToLimit | src/components/include/mpd_policy.h:1241-1246 | terminates with a total of at most any limit that is not negative; each step is a merge that saves most, and is made only above the limit |
| Tradeoff.Balancer.SplitWithin | src/components/include/mpd_policy.h:1216-1219 | terminates; each step is a split that costs least and leaves the total below the limit, and in the end none fits |
| Tradeoff.Balancer.SplitNext | src/components/include/mpd_policy.h:1216-1219 | a split is added to those of before, and the next test is made |
| Tradeoff.Balancer.LightestFits | src/components/include/mpd_policy.h:1216-1217 | no split of any domain fits if the lightest recorded one does not |
| Tradeoff.Balancer.SplitOnce | src/components/include/mpd_policy.h:1216-1219 | a domain is split along a lightest cut of all, and the total stays below the limit |
| Tradeoff.Balancer.EmptyInc | src/components/include/mpd_policy.h:1150-1154 | true exactly if no cut is recorded |
| Tradeoff.Balancer.PeekInc | src/components/include/mpd_policy.h:1136-1141 | the least that a split of any domain costs |
| Tradeoff.Balancer.EmptyDec | src/components/include/mpd_policy.h:1156-1160 | true exactly if there is no pd-edge |
| Tradeoff.Balancer.PeekDec | src/components/include/mpd_policy.h:1143-1148 | the most that a merge of any two domains saves |
| Tradeoff.Balancer.TradePaysNow | src/components/include/mpd_policy.h:1221-1222 | the test looks into a heap only if it is not empty, and holds exactly if some merge saves more than the cheapest split costs |
| Tradeoff.Balancer.MergeHeaviest | src/components/include/mpd_policy.h:1228 | no merge of any two domains saves more; one domain fewer remains, and the total falls by what is saved |
| Tradeoff.Balancer.MergeAndSplit | src/components/include/mpd_policy.h:1228-1234 | the merge that saves most and the splits that fit then are made; afterwards a cut is recorded, no split fits, and the total is below the limit |
| Tradeoff.Balancer.PricesAgain | src/components/include/mpd_policy.h:1236-1237 | the second heap is looked into only if the first comparison holds, and then it is not empty; the test holds exactly if both prices are those of before |
| Tradeoff.Balancer.MergesLeft | src/components/include/mpd_policy.h:1237 | a pd-edge is left if the cheapest split costs less than the limit and does not fit |
| Tradeoff.Balancer.TradeRound | src/components/include/mpd_policy.h:1221-1238 | no round is made exactly if no trade pays; a round is the merge that saves most and the splits that fit then, and it is the last exactly if the prices are the same again |
| Tradeoff.Balancer.TradeOnce | src/components/include/mpd_policy.h:1221-1238 | the round is added to the run so far; if it is not the last there are more domains, or as many at no more cost, unless the limit was met exactly, and it is counted exactly if cost and number of domains are the same |
| Tradeoff.Balancer.StopHere | src/components/include/mpd_policy.h:1221-1222 | whether the loop is at its end where the model stops it; without ties it is |
| Tradeoff.Balancer.Trade | src/components/include/mpd_policy.h:1221-1238 | the placements after each round are a run of rounds, each before its end; the loop has ended exactly if the run is at one of its two ends, and otherwise has made one exchange more than the number given; without ties it ends |
| Tradeoff.Balancer.Customize | src/components/include/mpd_policy.h:1195-1239 | the placements of its three loops are the merges, splits and rounds that the source makes; the total is within any limit that is not negative, and no domain can be split below it; it has ended exactly if no trade pays or the last round left the prices as they were, and otherwise has made one exchange more than the number given; without ties it ends |
| Trades.CostIsCross | src/components/include/mpd_policy.h:268-275 | the cost of a placement is the weight of all edges that cross domains |
| Trades.SplitAdds | src/components/include/mpd_policy.h:629-659 | a split adds exactly the weight of the cut to the cost |
| Trades.MergeCut | src/components/include/mpd_policy.h:585-610 | two domains are a cut of what they are merged to, and its weight is what the merge saves |
| Trades.AllApart | src/components/include/mpd_policy.h:1150-1154 | a placement without a cut costs the weight of all edges |
| Trades.PdEdgeSaves | src/components/include/mpd_policy.h:612-622 | what a merge saves is the weight of the pd-edge between the domains |
| Trades.HeaviestPdEdge | src/components/include/mpd_policy.h:1143-1148 | merging the ends of a heaviest pd-edge saves most, also compared with domains that have none between them |
| Trades.NothingToMerge | src/components/include/mpd_policy.h:1156-1160 | without a pd-edge no trade pays |
| Trades.SamePrices | src/components/include/mpd_policy.h:1236-1237 | the least that a split costs depends on the partition only, not on the names of the domains |
| Trades.SameSavings | src/components/include/mpd_policy.h:1236-1237 | so does the most that a merge saves |
| Trades.SamePartitionSameTrade | src/components/include/mpd_policy.h:1236-1237 | placements with the same partition have the same prices, so that a round that leads back to it is the last |
| Trades.TradePays | src/components/include/mpd_policy.h:1221-1222 | a trade pays exactly if the cheapest split costs less than the best merge saves |
| Trades.OtherTrade | src/components/include/mpd_policy.h:1236-1237 | two placements have the same prices exactly if both prices agree |
| Trades.ExchangeIsTie | src/components/include/mpd_policy.h:1227-1234 | a lightest split after a merge, of the weight that the merge saved, undoes the merge unless there is a second lightest cut, which then weighs something |
| Trades.LimitBound | src/components/include/mpd_policy.h:1216-1217 | if no split fits, the limit is between the cost and the weight of all edges |
| Customizing.MergedCount | src/components/include/mpd_policy.h:585-610 | a merge leaves one domain fewer |
| Customizing.SplitCount | src/components/include/mpd_policy.h:629-659 | a split along a cut makes one domain more |
| Customizing.SplitsCount | src/components/include/mpd_policy.h:1216-1219 | so many splits make so many domains more, and the cost stays below the limit |
| Customizing.PayingSaves | src/components/include/mpd_policy.h:1221-1222 | if a trade pays, the merge that saves most saves something |
| Customizing.NoSplitAfter | src/components/include/mpd_policy.h:1228-1234 | a round without a split is made only if the limit was met exactly |
| Customizing.OneSplitAfter | src/components/include/mpd_policy.h:1228-1234 | a round with one split costs no more than before, and as much only if it leaves the partition as it was or cuts tie |
| Customizing.RoundGetsOn | src/components/include/mpd_policy.h:1221-1238 | every round before which a trade pays leads below the limit, and from below it to more domains, or to as many at no more cost; at the same cost the partition is the same or cuts tie |
| Customizing.WithinLimit | src/components/include/mpd_policy.h:1221-1238 | every placement of a run keeps within the limit, and from the second on below it |
| Customizing.RunBound | src/components/include/mpd_policy.h:1221-1238 | every run, in every order of the heaps, has at most as many rounds as a bound computed from the components and the weights, and its exchanges on top |
| Customizing.ExchangeEnds | src/components/include/mpd_policy.h:1236-1237 | without ties a round that keeps cost and number of domains leaves the prices as they were, so that the test ends the loop |
| Customizing.UntiedExchanges | src/components/include/mpd_policy.h:1221-1238 | without ties no round of a run but its last is an exchange |
| Customizing.UntiedRunBound | src/components/include/mpd_policy.h:1221-1238 | without ties every run is within that bound, so that the loop ends |
| Alternation.Alternates | src/components/include/mpd_policy.h:1221-1238 | seven components, a limit and two placements: the best merge leads from both to one placement, which has two lightest cuts, one leading to each; in both a trade pays, no split fits, and their prices differ |
| Alternation.BackAndForth | src/components/include/mpd_policy.h:1221-1238 | a round leads from either placement to the other, if the domain that was not merged last is split |
| Alternation.LongRun | src/components/include/mpd_policy.h:1221-1238 | there is a run of any length between them that is not at its end |
| Alternation.ToPair | src/components/include/mpd_policy.h:1210-1212 | the first merge of the function, from every component in a domain of its own |
| Alternation.ToTriple | src/components/include/mpd_policy.h:1210-1212 | its second merge |
| Alternation.TripleToFirst | src/components/include/mpd_policy.h:1210-1212 | its third merge, which leads to the first of the two placements |
| Alternation.NeverEnds | src/components/include/mpd_policy.h:1195-1239 | a call with every component in a domain of its own and this limit can make any number of rounds and not be at its end |
| Alternation.LightestInMerged | src/components/include/mpd_policy.h:1112-1118 | the two lightest cuts of the merged placement |
| Alternation.HeaviestInFirst | src/components/include/mpd_policy.h:1124-1134 | the best merge of the first placement |
| Alternation.HeaviestInSecond | src/components/include/mpd_policy.h:1124-1134 | the best merge of the second placement |
| Tradeoff.LightestOfAll | src/components/include/mpd_policy.h:1112-1118 | the lightest recorded cut is a lightest cut of all domains |
| Tradeoff.LightestTooHeavy | src/components/include/mpd_policy.h:1216-1217 | if the lightest recorded cut does not fit, no cut of any domain does |
| Tradeoff.MergeDue | src/components/include/mpd_policy.h:585-610 | a merge leaves at most the record of the merged domain out of date |
| Tradeoff.SplitDue | src/components/include/mpd_policy.h:629-667 | a split leaves at most the records of the two parts out of date |
| MpdState.ReleaseKeeps | src/kernel/spd.c:887-929 | dropping a reference keeps exact counts, free list, page tables and frames; the release recurses at most once |
| MpdState.FreeingKeeps | src/kernel/spd.c:892-926 | freeing a composite with its last reference leaves at most a reference of its master to be released |
| MpdState.PushKeeps | src/kernel/inv.c:183-197 | a frame pushed with a reference keeps the invariant |
| MpdState.DropKeeps | src/kernel/inv.c:209-249 | a frame taken off leaves exactly its reference to be released |
| MpdState.RedirectKeeps | src/kernel/inv.c:2903-2945 | moving the top frame to the present composite of its spd leaves exactly the old reference to be released |
| MpdState.AllocKeeps | src/kernel/spd.c:845-881 | a descriptor and a page table that nothing uses are taken, and the invariant holds with them |
| MpdState.MoveKeeps | src/kernel/spd.c:1274-1360 | a member that changes composites takes its mappings along; frames are served as before except by the table it was unmapped from |
| MpdState.JoinKeeps | src/kernel/spd.c:1274-1318 | a spd without a composite joins one with its mappings, and the invariant holds |
| MpdState.SubordinateKeeps | src/kernel/spd.c:939-996 | when a composite and its subordinates take over the master's table, the counts are exact, the subordination is flat and every frame is served by the new table |
| MpdState.RetireKeeps | src/kernel/spd.c:1016-1044 | a composite that is deprecated or marked subordinate owes exactly its active reference |
| MpdKernel.FrameStaysMapped | src/kernel/inv.c:2556-2785 | in every reachable state the spd of a frame is mapped in the page table of the frame's composite, which is live, and the table is not in the pool |
| MpdKernel.ReferenceCount | src/kernel/spd.c:887-1044 | in every reachable state a reference count is the active reference plus the frames plus the subordinates, and a descriptor is free exactly if it is 0 |
| MpdKernel.TablesAreShared | src/kernel/spd.c:939-1044 | in every reachable state subordination is flat, and live composites share a page table exactly if they have the same provider |
| MpdKernel.PoolIsRest | src/kernel/spd.c:887-1044 | in every reachable state the pool holds, without repetition, exactly the page tables that no live composite runs on |
| MpdKernel.InvIsSound | src/kernel/spd.c:887-1044 | the invariant gives mapped frames, exact counts, shared tables and the exact pool at once |
| MpdKernel.FoundIsMapped | src/kernel/include/thread.h:428-439 | an spd is found in a live composite, by its own record or by the page table, exactly if it is mapped in the page table that the composite runs on |
| MpdKernel.DeprecatedIsOutOfDate | src/kernel/inv.c:2929-2933 | a composite, or its master, is deprecated exactly if no active composite runs on its page table |
| MpdKernel.OneReference | src/kernel/inv.c:2705-2706 | an active composite has one reference exactly if no frame runs in it and none is subordinate to it |
| MpdKernel.MembersAreSpds | src/kernel/inv.c:2708-2709 | the members counted are the spds that are placed in the composite |
| MpdKernel.FreeIsUnused | src/kernel/spd.c:887-929 | no descriptor is lost or given out twice: it is free exactly if no spd is placed in it, no frame runs in it and none is subordinate to it |
| MpdKernel.AllocatesReal | src/kernel/include/spd.h:330-333 | the allocation never yields nothing, and yields a free descriptor of the array if and only if a descriptor and a page table are available |
| MpdKernel.StrayLookup | src/kernel/spd.c:794-799 | before anything is activated and without a page, the lookup yields index -1 |
| MpdKernel.Kernel.constructor | src/kernel/spd.c:767-792 | the kernel without spds and threads, all descriptors free, meets the invariant |
| MpdKernel.Kernel.Release | src/kernel/spd.c:887-929 | the method does what the release of a reference specifies, with at most one recursive call |
| MpdKernel.Kernel.GiveBack | src/kernel/spd.c:887-929 | a reference that is due is released, the invariant holds again, and no composite becomes active |
| MpdKernel.Kernel.Alloc | src/kernel/spd.c:845-881 | succeeds exactly if a descriptor and a table are available |
| MpdKernel.Kernel.AllocComposite | src/kernel/spd.c:845-881 | a descriptor that was free becomes an empty active composite, and no other changes |
| MpdKernel.Kernel.MoveMember | src/kernel/include/spd.h:368-380 | the method does what moving a member specifies; the mappings it asserts to be absent or present are |
| MpdKernel.Kernel.Subordinate | src/kernel/spd.c:939-996 | the loop hands over the slave and all its subordinates, and never drops the slave's last reference on the way |
| MpdKernel.Kernel.HandOver | src/kernel/spd.c:965-984 | one composite goes over to the new master with its reference, and the old master keeps at least one |
| MpdKernel.Kernel.ShareTable | src/kernel/spd.c:1016-1044 | all frames of the slave and its subordinates are served by the master's table, and the slave's own table is back in the pool |
| MpdKernel.Kernel.MakeSubordinate | src/kernel/spd.c:1016-1044 | the slave's frames are served by the master's table; a slave that nothing refers to is freed |
| MpdKernel.Kernel.Merge | src/kernel/inv.c:2700-2785 | the spds of both composites are in one; the first is emptied exactly if it alone of the two has neither a frame nor a subordinate, or has fewer spds, and otherwise the second is |
| MpdKernel.Kernel.Populate | src/kernel/inv.c:2556-2598 | the spd is in the first new composite and its companions in the second; the old composite still maps them for its frames |
| MpdKernel.Kernel.Shrink | src/kernel/inv.c:2641-2653 | a composite that no frame uses just loses the spd |
| MpdKernel.Kernel.Deprecate | src/kernel/inv.c:2671-2673 | an emptied composite lives on exactly for its frames and subordinates |
| MpdKernel.Kernel.Split | src/kernel/inv.c:2556-2685 | succeeds exactly with another spd in the composite and enough descriptors and page tables; then the spd is alone in the first free descriptor, and the others are in the old composite if nothing refers to it and else in the second; a split that fails leaves the placement, and no descriptor is lost |
| MpdKernel.Kernel.Replace | src/kernel/inv.c:2655-2683 | a composite that something refers to is replaced by two and deprecated, or without a second descriptor the first new one is given back |
| MpdKernel.Kernel.Push | src/kernel/inv.c:183-197 | a frame for the present composite of the destination, with a reference |
| MpdKernel.Kernel.Invoke | src/kernel/inv.c:171-196 | the call is taken exactly if the owner of the capability is mapped in the page table that the thread runs on; then a frame for the destination in its present composite is pushed, and otherwise nothing changes |
| MpdKernel.Kernel.DropFrame | src/kernel/inv.c:209-249 | one frame is gone and its reference released |
| MpdKernel.Kernel.Return | src/kernel/inv.c:209-249 | the top frame is popped and released; the base frame is replaced by one of the scheduler |
| MpdKernel.Kernel.RemoveFrame | src/kernel/include/thread.h:204-222 | exactly a frame above the base of the stack can be removed, and it alone is; its reference is released |
| MpdKernel.Kernel.Refresh | src/kernel/inv.c:2935-2942 | the top frame refers to the present composite of its spd, and the old reference is released |
| MpdKernel.Kernel.Update | src/kernel/inv.c:2903-2945 | the call is taken exactly if the spd is mapped in the page table that the thread runs on; the top frame moves to the present composite of its spd exactly if this spd asks and no active composite runs on that page table any more, and otherwise nothing changes |
| MpdKernel.Kernel.CreateThread | src/kernel/inv.c:438-488 | a new thread with one frame in the spd, and no other stack changes |
| MpdKernel.Kernel.Activate | src/kernel/inv.c:3226-3276 | the descriptor is one of the array if and only if a descriptor and a page table are available; then the new spd has a composite that no other spd is in; otherwise the index is -1, and the model ends there |
| MpdKernel.Kernel.Step | src/kernel/inv.c:2792-2961 | every system call keeps the invariant, and does to the placement of the spds and to the stacks exactly what it promises; one that is refused changes nothing |
| MpdKernel.Kernel.Run | src/kernel/inv.c:2792-2961 | every state of every run is sound: frames are mapped, counts are exact, tables are shared exactly within a subordination, the pool is the rest, and a descriptor is free exactly if it is not used; and every step of the run does what its system call promises |
| Isolation.CapTable.constructor | src/kernel/spd.c:675-687 | capabilities that are all SDT are right while no spd is in a composite |
| Isolation.CapTable.ChangeIsolation | src/kernel/spd.c:214-273 | the level is set, kernel and user entries agree with it, and the former level is returned; INV is returned for a number that is no capability and for the level INV, which leaves the entries |
| Isolation.CapTable.SpdToAll | src/kernel/spd.c:1118-1146 | exactly the capabilities of the spd towards other members of the composite change, and none was at the level already |
| Isolation.CapTable.OneToSpd | src/kernel/spd.c:1153-1189 | exactly the capabilities of one spd towards another change |
| Isolation.CapTable.AllToSpd | src/kernel/spd.c:1153-1189 | exactly the capabilities of the members towards the spd change, and none was at the level already |
| Isolation.CapTable.ChangeBoth | src/kernel/spd.c:1224-1238 | exactly the capabilities between the spd and the members of the composite change, in both directions |
| Isolation.CapTable.AddMember | src/kernel/spd.c:1274-1318 | every capability between distinct spds is ST exactly if they are in the same composite, after as before |
| Isolation.CapTable.RemoveMember | src/kernel/spd.c:1320-1360 | the same for a member that leaves |
| Isolation.CapTable.MoveMember | src/kernel/include/spd.h:368-380 | the same for a member that changes composites |
| Isolation.CapTable.MoveAll | src/kernel/inv.c:2760-2773 | the same when all members of a composite move to another |
| Isolation.CapTable.Split | src/kernel/inv.c:2556-2598 | the same when a composite is split, with its other members staying or moving |
| Isolation.CapTable.Step | src/kernel/spd.c:1274-1360 | every operation keeps the levels right and does to the placement exactly what it promises |
| Isolation.CapTable.Run | src/kernel/spd.c:1118-1360 | after every run a capability is at the level ST exactly if its ends share a composite, with the entry points of its level, and every step does what its operation promises |
| Isolation.Relevelled | src/kernel/spd.c:1224-1238 | changing exactly the capabilities between a spd and a composite restores the levels for the new composites |
| EventList.EventPage.constructor | src/components/implementation/sched/cos_scheduler.c:23 | the empty list, with nothing to deliver |
| EventList.EventPage.Enqueue | src/kernel/inv.c:1967-2026 | an entry is appended exactly if it is not in the list, so the list stays a simple path |
| EventList.EventPage.Post | src/kernel/inv.c:2028-2078 | the entry is in the list, at its end if it was not listed; flags that are not nil replace its flags, its cycles are added or the counter saturates, and nothing else changes |
| EventList.EventPage.TakeLinks | src/components/implementation/sched/cos_scheduler.c:54-71 | the exchange moves the consumer to the next entry; a link of 0 means that no other entry has anything to deliver |
| EventList.EventPage.TakeCycles | src/components/implementation/sched/cos_scheduler.c:73-77 | the cycles taken are delivered, and none are left behind |
| EventList.EventPage.Advance | src/components/implementation/sched/cos_scheduler.c:79-90 | the visitor is told the flags and cycles taken, if there are any and the entry is not 0; the consumer goes on at the entry it took, and stops at the end of the list |
| EventList.Follow | src/components/implementation/sched/cos_scheduler.c:54-71 | taking the first link leaves the rest of the list as it was |
| EventList.PostConserves | src/kernel/inv.c:2057-2063 | posting cycles keeps the balance of posted, stored and delivered cycles, or marks the entry as saturated |
| EventList.TakeConserves | src/components/implementation/sched/cos_scheduler.c:73-77 | taking cycles keeps that balance |
| EventList.EventPage.Step | src/components/implementation/sched/cos_scheduler.c:46-90 | every atomic step of the kernel or the consumer keeps the list and the balance, and does to the page exactly what it promises |
| EventList.EventPage.Run | src/kernel/inv.c:1967-2078 | under every interleaving every entry that has flags or cycles to deliver is in a list without a cycle from the consumer to the tail; the cycles posted are those that the visitor has been told, those taken, and those stored, unless a counter saturated; and every step does what it promises |
| EventList.EventPage.Round | src/components/implementation/sched/cos_scheduler.c:46-90 | one round tells the visitor the flags and cycles of the first entry of the list, if there are any, empties it and moves on |
| EventList.EventPage.ProcessEvents | src/components/implementation/sched/cos_scheduler.c:30-93 | the visitor is told once, in order, of every entry visited but 0 that has flags or cycles, with these flags and cycles, and of nothing else; without a bound nothing is left; the cycles told are those delivered |
| EventList.VisitsOnce | src/components/implementation/sched/cos_scheduler.c:79-84 | the visits of a list without repetition are one for each of its entries but 0 that has flags or cycles |
| EventList.NowTold | src/components/implementation/sched/cos_scheduler.c:79-84 | what has been taken from an entry is told, so that told and taken cycles agree |
| EventList.EventPage.DrainRound | src/components/implementation/sched/cos_scheduler.c:46-90 | a round with posts before and between its steps tells the visitor the flags that were posted last before the first exchange and the cycles it delivers; it settles what is owed to the entry visited, and ends the loop only if nothing is owed to any other; without posts the list gets shorter, and the loop ends with its last entry |
| EventList.EventPage.Drain | src/components/implementation/sched/cos_scheduler.c:30-93 | under every interleaving with posts, when the loop ends it has visited every entry that was on the list when it began, and has delivered at least what had been posted to every entry whose counter did not saturate; it ends within as many rounds as there are entries once nothing is posted any more; the cycles told to the visitor are those delivered |
| EventList.Accumulated | src/kernel/inv.c:2057-2063 | the 32-bit sum with its overflow test is a saturating addition |
| EventList.Append | src/kernel/inv.c:2008-2023 | an entry that is not at the tail and has no link is not in the list, so appending it closes no cycle |
| EventList.ShortPath | src/kernel/inv.c:1967-2026 | the list is never longer than the number of entries |
| SchedDecision.StepKeeps | src/components/implementation/sched/cos_sched_base.c:369-474 | what every step of the kernel and of the running thread keeps |
| SchedDecision.FlagKept | src/kernel/inv.c:1977-1996 | events that have not been processed have set the pending flag, unless a thread is about to drain them |
| SchedDecision.TargetKept | src/kernel/inv.c:1977-1996 | a target in the page that the running thread has written is its own, and was chosen with all events known or the flag is set |
| SchedDecision.RunKeeps | src/components/implementation/sched/cos_sched_base.c:369-474 | every state of every run meets the invariant |
| SchedDecision.MutualExclusion | src/components/implementation/sched/cos_scheduler.h:369-417 | in every run at most one thread is between taking and releasing the lock |
| SchedDecision.CommitIsFresh | src/kernel/inv.c:707-732 | in every run a thread commits only to a target that it has chosen itself earlier, when every event had been processed that is posted before the commit; that target runs next if the kernel accepts the switch, and otherwise the thread goes on |
| SchedDecision.SwitchIsJustified | src/kernel/inv.c:820-891 | in every run another thread comes to run only because a brand makes it, because it owns the lock that the running thread has found taken, because it was queued when the running thread released the lock, or because the running thread has chosen it with all events known |
| SchedDecision.RunsNext | src/kernel/inv.c:820-891 | which thread runs after each step, exactly |
| SchedDecision.RunRemembers | src/components/implementation/sched/cos_scheduler.h:369-417 | in every run a thread that waits for the lock has found its owner, and one that yields has released the lock to the thread queued |
| SchedDecision.UndisturbedInquiry | src/components/implementation/sched/cos_sched_base.c:369-474 | in every state that the invariant allows, a thread that finds the lock free and is not disturbed comes to decide with every event processed |
| SchedDecision.UndisturbedDecision | src/components/implementation/sched/cos_sched_base.c:369-474 | and its decision is carried out: the thread it chooses runs next, unless a child has events, and the lock is free again |
| SchedDecision.UndisturbedStay | src/components/implementation/sched/cos_sched_base.c:369-474 | or it goes on without the lock, if it decides to |
| SchedDecision.UndisturbedHandover | src/components/implementation/sched/cos_scheduler.h:369-417 | a thread that finds the lock taken makes its owner run, and runs again when this one has released the lock, which it then finds free |
| SchedDecision.AnyTime | src/kernel/inv.c:1967-1996 | the kernel may post an event or make another thread run at any time |
| SchedDecision.EventVoids | src/kernel/inv.c:1990-1996 | every event voids the target in the page and sets the flag; otherwise only a write or a switch touches the target, and only a clear the flag |
| SchedDecision.ProcessedIsDrained | src/components/implementation/sched/cos_sched_base.c:369-474 | in every run the events counted as processed are those that the last drain finished with |
| SchedDecision.InterruptedDecidesAgain | src/kernel/inv.c:2080-2110 | a thread does not commit to a choice since which another thread has run |
| SchedDecision.NoEventNoSwitch | src/kernel/inv.c:2080-2110 | another thread does not come to run without an event |
| SchedDecision.CommitHappens | src/components/implementation/sched/cos_scheduler.h:431-445 | a run that drains an event and is ready to commit its decision |
| Upcalls.CutInverse | src/kernel/inv.c:688-705 | taking a thread out of the chains keeps the two links inverse to each other |
| Upcalls.LinkInverse | src/kernel/inv.c:2281-2282 | linking two threads that are not linked on that side keeps the links inverse |
| Upcalls.LinkRanked | src/kernel/inv.c:2281-2282 | an upcall thread that nothing interrupted can be ranked above the thread it interrupts, so no cycle closes |
| Upcalls.UpcallKernel.BreakChain | src/kernel/inv.c:688-705 | the thread is in no chain any more, and nothing else changes; the consistency checks of the code hold |
| Upcalls.UpcallKernel.RemovePreempted | src/kernel/inv.c:661-678 | the preempted mark is gone, and the thread leaves its chain exactly if it was preempted in one |
| Upcalls.UpcallKernel.Preempt | src/kernel/inv.c:2261-2285 | the upcall thread is linked to the thread it interrupts exactly if that one is preempted |
| Upcalls.UpcallKernel.Recount | src/kernel/inv.c:2229-2252 | a change of an upcall thread's state that balances the counts keeps all others balanced |
| Upcalls.UpcallKernel.Brand | src/kernel/inv.c:2213-2349 | an activation is counted as pending exactly if the upcall is active; otherwise the upcall becomes active, and runs exactly if it is urgent and the current thread has no preempter; the links, the mark of the preempted thread and everything else are as the source has them |
| Upcalls.UpcallKernel.Complete | src/kernel/inv.c:1213-1275 | the upcall starts again for a pending request, or becomes ready and hands over to the thread it interrupted, which is unmarked, or nothing happens; the whole new state is stated, and a completion is counted in the first two cases |
| Upcalls.UpcallKernel.ClearPreempted | src/kernel/inv.c:857-861 | the thread switched to is not preempted any more |
| Upcalls.UpcallKernel.Switch | src/kernel/inv.c:820-1008 | the switch is made exactly if it is possible; the thread left leaves its chain and the target one that it was preempted in; a finished upcall becomes ready, or starts again for a pending request; the whole new state is stated |
| Upcalls.UpcallKernel.CreateBrand | src/kernel/inv.c:1471-1521 | a new brand has no pending request |
| Upcalls.UpcallKernel.CreateThread | src/kernel/inv.c:438-488 | a new thread is no upcall thread and in no chain |
| Upcalls.UpcallKernel.AddUpcall | src/kernel/inv.c:1522-1542 | the thread leaves its chain and is the active upcall thread of the brand, and nothing else changes |
| Upcalls.UpcallKernel.Step | src/kernel/inv.c:820-2349 | every operation keeps the invariant and does exactly what it promises; one that is not possible does nothing |
| Upcalls.UpcallKernel.Run | src/kernel/inv.c:2213-2349 | in every run every activation is pending, being executed or completed, an upcall thread is active or ready, no chain of interrupted threads closes, and every step does what its operation promises |
| Upcalls.Acyclic | src/kernel/inv.c:2272-2285 | a chain along the interrupted links never comes back to where it started |
| RedBlack.FixInsertionShape | src/components/lib/sglib-1.0.4/sglib.h:1445-1482 | the repair restores the colours without changing the black height |
| RedBlack.FixInsertionOrder | src/components/lib/sglib-1.0.4/sglib.h:1445-1482 | the repair keeps the elements and their order |
| RedBlack.AddShape | src/components/lib/sglib-1.0.4/sglib.h:1626-1643 | the recursion keeps the black height and leaves at most a red root with a red child |
| RedBlack.AddOrder | src/components/lib/sglib-1.0.4/sglib.h:1626-1643 | the recursion adds exactly the element, in order |
| RedBlack.AddKeeps | src/components/lib/sglib-1.0.4/sglib.h:1626-1717 | adding an element to a red-black tree gives a red-black tree with exactly that element more |
| RedBlack.FixDeletionShape | src/components/lib/sglib-1.0.4/sglib.h:1484-1602 | the repair of a tree with one short side is balanced and coloured, and the flag is true exactly if a level of black nodes is lost |
| RedBlack.FixDeletionOrder | src/components/lib/sglib-1.0.4/sglib.h:1484-1602 | the repair keeps the elements and their order |
| RedBlack.DeleteRightmostShape | src/components/lib/sglib-1.0.4/sglib.h:1645-1666 | the tree stays balanced and coloured, and the flag says exactly whether a level is lost |
| RedBlack.DeleteRightmostOrder | src/components/lib/sglib-1.0.4/sglib.h:1645-1666 | the element removed is the greatest, and it alone is removed |
| RedBlack.DeleteShape | src/components/lib/sglib-1.0.4/sglib.h:1668-1711 | the same for the deletion of any element |
| RedBlack.DeleteOrder | src/components/lib/sglib-1.0.4/sglib.h:1668-1711 | the recursion removes exactly the element and keeps the order |
| RedBlack.DeleteKeeps | src/components/lib/sglib-1.0.4/sglib.h:1668-1722 | deleting an element from a red-black tree gives a red-black tree with exactly that element less |
| RedBlack.DepthIsLogarithmic | src/components/lib/sglib-1.0.4/sglib.h:1445-1722 | the depth is at most twice the black height plus one, and 2 to the black height is at most the number of elements plus one |
| QuickSort.SkipUp | src/components/lib/sglib-1.0.4/sglib.h:107 | stops at the first element that is greater than the pivot |
| QuickSort.SkipDown | src/components/lib/sglib-1.0.4/sglib.h:113 | stops at the last element that is less than the pivot |
| QuickSort.PlacePivot | src/components/lib/sglib-1.0.4/sglib.h:108-117 | exchanging the pivot with the last element of the lower part parts the segment |
| QuickSort.Round | src/components/lib/sglib-1.0.4/sglib.h:106-124 | one round shrinks what is left, or leaves it as long once and then not again, or ends with the pivot in place |
| QuickSort.Partition | src/components/lib/sglib-1.0.4/sglib.h:103-124 | terminates with the pivot in place, nothing greater before it and nothing less behind it, and only the segment rearranged |
| QuickSort.Subdivided | src/components/lib/sglib-1.0.4/sglib.h:125-146 | after a partition whatever is out of order lies within one of the two parts |
| QuickSort.Choose | src/components/lib/sglib-1.0.4/sglib.h:125-146 | the larger part is pushed and the smaller goes on, or the only one left does |
| QuickSort.Reduce | src/components/lib/sglib-1.0.4/sglib.h:102-147 | the segment shrinks to two elements; no stack slot above the logarithm of the length is written |
| QuickSort.HalvingStep | src/components/lib/sglib-1.0.4/sglib.h:127-139 | pushing the larger part and going on with the smaller keeps the length of each segment, times 2 to its slot, within the length of the array |
| QuickSort.FewDoublings | src/components/lib/sglib-1.0.4/sglib.h:91-93 | an int exceeds no power of two above the 30th |
| QuickSort.FreeSlot | src/components/lib/sglib-1.0.4/sglib.h:91-93 | when a part is pushed a slot is free, for any array that an int can index |
| QuickSort.FinishPair | src/components/lib/sglib-1.0.4/sglib.h:148-152 | a segment of at most two elements is in order |
| QuickSort.Sort | src/components/lib/sglib-1.0.4/sglib.h:89-154 | the array is a sorted permutation of what it was; for any contents of the stack, no slot above the logarithm of its length is written |
| LongLong.UmulPpmm | src/components/lib/dietlibc-0.29/longlong.h:1206-1230 | the two words are exactly the product |
| LongLong.DivideHalf | src/components/lib/dietlibc-0.29/longlong.h:1247-1258 | one half word of the quotient and the remainder are exact, although sums wrap around |
| LongLong.UdivQrnnd | src/components/lib/dietlibc-0.29/longlong.h:1240-1275 | quotient and remainder of a two-word number are exact for a normalised divisor greater than the upper word |
| LongLong.Correct | src/components/lib/dietlibc-0.29/longlong.h:1251-1258 | an estimated quotient is corrected at most twice, which the wrap-around of the sums does not hide |
| LoaderDag.LongChain | src/platform/linux/link_load/cos_loader.c:1284-1308 | a chain as long as the number of services contains a cycle |
| LoaderDag.Pumped | src/platform/linux/link_load/cos_loader.c:1284-1308 | a cycle gives chains of any length |
| LoaderDag.AcyclicIsShort | src/platform/linux/link_load/cos_loader.c:1284-1341 | dependencies have no cycle exactly if no chain is longer than the number of services |
| LoaderDag.Loader.constructor | src/platform/linux/link_load/cos_loader.c:807 | no depth is known yet |
| LoaderDag.Loader.RecVerifyDag | src/platform/linux/link_load/cos_loader.c:1284-1308 | succeeds exactly if every chain from the service stays within the bound, and then raises depths exactly to the lengths of the chains |
| LoaderDag.Loader.VerifyDependencySoundness | src/platform/linux/link_load/cos_loader.c:1321-1341 | accepts exactly the acyclic dependencies; then each depth is the length of the longest chain that ends at the service |
| CosVect.FindInjective | src/components/include/cos_vect.h:145-175 | different ids have different slots |
| CosVect.StoreAt | src/components/include/cos_vect.h:219-227 | writing to a slot changes that id only |
| CosVect.DeepenedAt | src/components/include/cos_vect.h:193-202 | growing to two levels changes no id |
| CosVect.ExtendedAt | src/components/include/cos_vect.h:208-214 | a new page adds exactly its ids |
| CosVect.Vector.constructor | src/components/include/cos_vect.h:110-134 | an empty vector of one page |
| CosVect.Vector.Lookup | src/components/include/cos_vect.h:145-183 | finds the slot of an id exactly if it has one |
| CosVect.Vector.Set | src/components/include/cos_vect.h:219-227 | changes exactly one id, or fails exactly if it has no slot |
| CosVect.Vector.AllocPage | src/components/include/cos_vect.h:196-197 | fails exactly if memory is short; else the page is a new one |
| CosVect.Vector.Expand | src/components/include/cos_vect.h:185-217 | adds exactly the ids of one page, also across the growth to two levels; refuses exactly if the id is out of reach or memory is short, and then changes no id; stops exactly if a vector of one level is asked for an id whose index modulo two levels is 0 |
| CosVect.Vector.Deepen | src/components/include/cos_vect.h:193-202 | a vector of one level has two, with the same ids |
| CosVect.Vector.AddPage | src/components/include/cos_vect.h:208-214 | the ids of one page are added, unless memory is short or the index is taken |
| CosVect.Vector.AddId | src/components/include/cos_vect.h:233-247 | sets the id, and adds a page of ids exactly if it had no slot; refuses exactly if a new page is needed and the id is out of reach or memory is short; stops exactly at a null value or at an id beyond two levels |
| CosMap.Map.constructor | src/components/include/cos_map.h:61-76 | an empty map whose free list holds all ids of the first page |
| CosMap.Map.FirstList | src/components/include/cos_map.h:69-75 | the links of the first page form the free list |
| CosMap.Map.Lookup | src/components/include/cos_map.h:123-128 | the value of a live id, and nothing for any other |
| CosMap.Map.LinkUp | src/components/include/cos_map.h:144-151 | the links of the new ids lead through all of them to the end |
| CosMap.Map.TakeFirst | src/components/include/cos_map.h:154-162 | the id at the head of the free list holds the value, and the list goes on with the next |
| CosMap.Map.Grow | src/components/include/cos_map.h:139-152 | succeeds exactly if there is memory and the vector reaches further; then the new ids are the free list |
| CosMap.Map.Add | src/components/include/cos_map.h:131-163 | the value is stored under an id that was not in use, and nothing else changes; fails exactly if no id is free and the map cannot grow, and then changes nothing; the id of a null value is lost |
| CosMap.TakeUnused | src/components/include/cos_map.h:154-156 | a value stored at the first free id extends the map by exactly that id; a null value makes the id lost |
| CosMap.TakeChained | src/components/include/cos_map.h:158-160 | the rest of the free list is the list of the rest |
| CosMap.Map.Delete | src/components/include/cos_map.h:224-237 | exactly the live or lost id is removed and becomes free; an id without a slot is refused |
| CosMap.GiveUnused | src/components/include/cos_map.h:224-237 | clearing an id that is not free removes exactly it and makes it free |
| CosMap.GiveChained | src/components/include/cos_map.h:224-237 | an id that is not free can be put at the head of the free list |
| CosMap.GiveBackOnce | src/components/include/cos_map.h:224-237 | giving an id back leaves a proper free list if and only if the id was not free |
| CosMap.NullIsLost | src/components/include/cos_map.h:154-160 | storing a value under the first free id leaves a free list of all ids that are not in use if and only if the value is not null |
| CosMap.OneChain | src/components/include/cos_map.h:154-160 | the links from a head form one list |
| CosMap.Grown | src/components/include/cos_map.h:139-152 | the new ids form the free list, and the map is the same |
| Bitmap.OnesCounts | src/components/include/bitmap.h:9-18 | the additions of neighbouring fields count the bits that are one, byte by byte |
| Bitmap.OnesOfSingle | src/components/include/bitmap.h:9-18 | the count is 1 exactly for a single bit |
| Bitmap.LsOneIsSingle | src/components/include/bitmap.h:33-37 | x & -x is a single bit of x with no bit of x below it |
| Bitmap.LogOfSingle | src/components/include/bitmap.h:39-52 | log32 of a single bit is its place |
| Bitmap.LogOfOthers | src/components/include/bitmap.h:39-52 | on any other word that is not zero log32 is one less than the logarithm rounded down |
| Bitmap.LowestBit | src/components/include/bitmap.h:33-52 | log32 of ls_one is the place of a bit that is set |
| Bitmap.NoneLower | src/components/include/bitmap.h:33-52 | no lower bit is set |
| Bitmap.FloorIsFloor | src/components/include/bitmap.h:54-63 | log32_floor is the logarithm, rounded down |
| Bitmap.SetBit | src/components/include/bitmap.h:66-70 | setting a bit of a word changes that bit only |
| Bitmap.ClearBit | src/components/include/bitmap.h:78-82 | clearing a bit of a word changes that bit only |
| Bitmap.HasAfterSet | src/components/include/bitmap.h:84-91 | setting a bit changes that bit only |
| Bitmap.HasAfterUnset | src/components/include/bitmap.h:102-109 | clearing a bit changes that bit only |
| Bitmap.BitmapOne | src/components/include/bitmap.h:111-124 | the lowest bit that is set, or -1 exactly if there is none |
| Cbuf.AdjustedSize | src/components/include/cbuf.h:352-354 | the size is at least 63, and one less if it is a power of two |
| Cbuf.RoundedUp | src/components/include/cbuf.h:355 | the floor of the logarithm of the adjusted size plus one is the order wanted |
| Cbuf.OrderIsLeast | src/components/include/cbuf.h:347-357 | the order picked stands for the least power of two that is at least the size and 64 |
| Cbuf.ClassFits | src/components/include/cbuf.h:332-341 | up to a page, the class picked for the order has the least object size that holds the request |
| Cbuf.LowestIsObject | src/components/include/cbuf.h:289-294 | the lowest bit set belongs to an object, although the bits behind the last object are set |
| Cbuf.LiveObjectsAreApart | src/components/include/cbuf.h:275-301 | live objects lie within their page and do not overlap |
| Cbuf.AddressLeadsBack | src/components/include/cbuf.h:251-259 | the address of an object leads back to its slab and its index |
| Cbuf.NewSlabOk | src/components/interface/cbuf_c/cbuf_c.c:61-76 | a new slab counts all its objects as free |
| Cbuf.Cbufs.constructor | src/components/include/cbuf.h:218 | no slabs, and empty freelists |
| Cbuf.Cbufs.SlabAlloc | src/components/interface/cbuf_c/cbuf_c.c:61-99 | a new slab is on its freelist with all objects free, and no object becomes live |
| Cbuf.TakenOk | src/components/include/cbuf.h:289-295 | taking an object keeps the count of free objects exact |
| Cbuf.GivenOk | src/components/include/cbuf.h:260-262 | giving an object back keeps the count exact |
| Cbuf.Cbufs.TakeFrom | src/components/include/cbuf.h:286-300 | exactly one free object of the slab becomes live, and the slab leaves its freelist with its last one |
| Cbuf.Cbufs.Alloc | src/components/include/cbuf.h:275-301 | fails exactly if there is neither a free object nor a page; else exactly one object that was free becomes live |
| Cbuf.Cbufs.AllocSize | src/components/include/cbuf.h:347-357 | for a request of up to a page, an object that was free becomes live and is of the least class that holds the request; fails only without a page |
| Cbuf.Cbufs.Free | src/components/include/cbuf.h:248-273 | exactly the object at the address becomes free, and a slab is on its freelist exactly if it has free objects |
| Ezxml.Ampencode | src/components/lib/ezxml/ezxml.c:667-688 | appends the escape of every character up to the first NUL |
| Ezxml.NormaliseLines | src/components/lib/ezxml/ezxml.c:163-168 | the loop, with the text shrinking under its index, computes the text with its line endings normalised; whether it stops at the end of the text is as Ezxml.StopsUnlessReturn says |
| Ezxml.ReplaceReturns | src/components/lib/ezxml/ezxml.c:164-167 | the carriage returns at a position are replaced until another character is found; the index passes the end of the text exactly if the loop does not stop there |
| Ezxml.StopsUnlessReturn | src/components/lib/ezxml/ezxml.c:163-168 | the loop stops at the end of the text exactly if this ends neither in a carriage return nor in a carriage return and a line feed |
| Ezxml.OverrunTexts | src/components/lib/ezxml/ezxml.c:163-168 | the shortest texts whose terminator the loop steps over |
| Ezxml.DecodeLoop | src/components/lib/ezxml/ezxml.c:170-208 | the loop terminates, although entities are expanded and read again, computes the decoding, and has room for it in its buffer throughout |
| Ezxml.Decode | src/components/lib/ezxml/ezxml.c:158-218 | the first loop stops at the end of the text exactly if this ends neither in a carriage return nor in a carriage return and a line feed; then the loops terminate and compute the decoding, within the buffer |
| Ezxml.Unescaped | src/components/lib/ezxml/ezxml.c:170-208 | decoding an escaped character gives the character and goes on behind it |
| Ezxml.DecodeUndoesEncode | src/components/lib/ezxml/ezxml.c:170-208 | decoding an encoded text gives the text up to its first NUL, with blanks for what attribute normalisation loses |
| Ezxml.ComesBackUnchanged | src/components/lib/ezxml/ezxml.c:667-688 | that is the text itself exactly if it has no NUL and, in attributes, no vertical tab and no form feed |
| Ezxml.RoundTrip | src/components/lib/ezxml/ezxml.c:158-218 | decoding inverts encoding exactly for texts without NUL and, in attributes, without vertical tab and form feed; the first loop stops at the end of every encoded text |
| Ezxml.PayloadHoldsCharacter | src/components/lib/ezxml/ezxml.c:180-185 | the bytes of a multi-byte sequence hold the whole character |
| Ezxml.RoomForCharacter | src/components/lib/ezxml/ezxml.c:174-187 | the bytes of a character take less room than its reference |
| Ezxml.RoomForPiece | src/components/lib/ezxml/ezxml.c:194-203 | a round of the loop fits where it finds its input exactly unless an entity outgrows its name; the length computed for that is exactly what the new text needs with its terminator, and holds the old text |
| Ezxml.BitsOfDigits | src/components/lib/ezxml/ezxml.c:175-176 | a digit of a reference stands for at most four bits |
| XmlText.CharacterIsRead | src/components/lib/ezxml/ezxml.c:178-185 | a reader of UTF-8, which takes the length from the leading ones of the first byte, gets back every character that a reference can give, and the sequence is the shortest that holds it |
| XmlText.NegativeReference | src/components/lib/ezxml/ezxml.c:178 | a reference to a negative number gives the byte that is congruent to it |
| XmlText.NumeralIsRead | src/components/lib/ezxml/ezxml.c:175-176 | every numeral of white space, sign, hexadecimal prefix and digits is read as its value, as far as a long holds it, and up to its end |
| XmlText.NoNumeral | src/components/lib/ezxml/ezxml.c:175-176 | where there are no digits nothing is read |
| XmlText.ReferenceIsDecoded | src/components/lib/ezxml/ezxml.c:174-187 | a reference by number, decimal or hexadecimal, is decoded as the bytes of the character, and what follows it stays |
| XmlText.ReferenceIsRead | src/components/lib/ezxml/ezxml.c:174-187 | so that a reader of UTF-8 gets the character back |
| XmlText.NamedCharacters | src/components/lib/ezxml/ezxml.c:189-205 | the five default entities are decoded as their characters |
| XmlText.PlainAmpersand | src/components/lib/ezxml/ezxml.c:206 | an ampersand that starts neither a reference nor a default entity stays |
| XmlText.PlainCharacter | src/components/lib/ezxml/ezxml.c:207-208 | any other character stays, but that every white space is a space in an attribute |
| XmlText.LinesNormalised | src/components/lib/ezxml/ezxml.c:163-168 | every line ending, be it a carriage return, a newline or both in this order, becomes one newline, and nothing else changes |
| XmlText.LinesDecoded | src/components/lib/ezxml/ezxml.c:158-218 | content without references comes out with its lines ended by single newlines |
| XmlText.NothingSpecialLeft | src/components/lib/ezxml/ezxml.c:667-688 | no special character is left in an encoded text but the ampersands that start an escape |
| XmlText.NothingToEncode | src/components/lib/ezxml/ezxml.c:667-688 | a text without special characters is its own encoding |

## Left out

- PriorityHeap.Heap.constructor: does not model the bytes that `heap_alloc` reserves, `max_sz` pointers and one byte. The heap uses slots 1 to `max_sz`, so that a full heap writes past the end of its block; the model's array has all these slots.
- Weights and totals of the policy are unbounded integers: the overflow of a 32-bit long is not modelled. The sum of all weights is assumed to be less than the value that stands for "no cut".
- PdEdges.EdgeTable.Create: asks for room on the heap. The source ignores that the insertion fails without, and stops at the assertion in `heap_adjust` when the pd-edge gets its first weight.
- PdEdges.EdgeTable.TakeEdge: asks for room on the heap, for the same reason.
- Policy.PdPolicy.AddEdge: asks for room on the heap, for the same reason.
- Policy.PdPolicy.Merge: moves the components; the search for a new cut at its end is part of Tradeoff.Balancer.DecreaseOverhead.
- Policy.PdPolicy.Split: moves the components; the search for new cuts at its end is part of Tradeoff.Balancer.IncreaseIsolation.
- Tradeoff.Balancer.Customize: takes the number of exchanges after which the model stops, since the source's loop need not end if cuts tie, as Alternation.NeverEnds shows. The order of the heaps among equals is left open, so that which ties make a given call go on for ever is not decided.
- The intrusive edge lists of components are one sequence of edges, filtered by component; the rings of groups are sequences.
- Page tables are the sets of spds they map; which table is loaded, and page-fault fix-up, are not modelled.
- MpdKernel.Kernel.Invoke: does not model the lookup of the capability and the tests that it is valid; the destination is given.
- MpdKernel.Kernel.CreateThread: does not model the test that the caller is the root scheduler.
- MpdKernel.Kernel.Activate: does not model what follows a lookup that leads outside the array of descriptors.
- Freeing threads, and the creation of brand threads, which copies frames without taking references; fault invocation.
- The address-space and name-space functions of `spd.c`; the error exits of `mpd_split` after a partial failure to add a member.
- The asymmetric-trust level has its entry points in the model, but composites never ask for it, so no run sets it.
- The kernel's and the user's table of an spd's capabilities are one table with an entry for each capability.
- EventList.EventPage.Post: posts to one scheduler; the loop over the schedulers above it is not modelled. The reset of event entry 0 by `sched_cntl`.
- EventList.EventPage.Round: no posts in between; EventList.EventPage.DrainRound and EventList.EventPage.Run cover these.
- EventList.EventPage.ProcessEvents: no posts in between; EventList.EventPage.Drain and EventList.EventPage.Run cover these.
- Scheduling policies: which thread is chosen is an input. The sections of the user-level lock that the kernel makes atomic are atomic. Switches that are made without the lock and the loop, at start and at shutdown, are not modelled.
- Upcalls.UpcallKernel.Brand: the comparison of urgencies is an input.
- Upcalls.UpcallKernel.Switch: does not model the tests of who may schedule the threads, nor the error exits after an upcall was marked ready.
- The overflow of the counter of pending requests.
- Red-black trees are values: the rewriting of node pointers in place is not modelled. The pointer order that breaks ties is an address in the element. `delete` of an element that is not in the tree stops the program.
- Quicksort's two stacks are one stack of segments. sglib's other containers.
- The bitwise or of a word with an empty lower half and a half word is their sum; a base is any even number, of which the powers of two are instances.
- `cos_map_add_id` is disabled in the source.
- CosMap.Map.Add: asks for a value that is not null if no id is free; the source stops at the assertion in `cos_vect_add_id` otherwise.
- CosMap.Map.Delete: asks for an id that is not free. The source takes any id, but giving a free one back corrupts the free list, as CosMap.GiveBackOnce shows.
- Slabs of objects larger than a page, the layout of cbuf identifiers, and the return of empty slabs.
- `ezxml_decode` for parameter entities, cdata sections and non-cdata attributes, and entities other than the default ones. The text that is rewritten in place is a value; of the buffer its length is modelled.
- Ezxml.NormaliseLines: does not model what the source's loop reads and writes behind the terminator of a text that ends in a carriage return, or in one and a line feed.
- Ezxml.Decode: for such a text promises nothing beyond the overrun, for the same reason.
