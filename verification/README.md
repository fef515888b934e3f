# NetFPGA software: a verified model

This project models the parts of the NetFPGA software whose correctness is hard to see by
reading, and proves what they are for. Everything is proved for all inputs, all reachable
states or all runs, unless a row below names a condition; where a condition is exact, the
row says "exactly when".

* **Route computation of the SCONE router** (`LinkState`, `ShortestPaths`, `RouterRecords`,
  `PrevChains`, `RouteWrappers`, `RouteChoice`, `RouteConstruction`, `Forwarding`,
  `Delivery`). The router records are objects whose distance, mark and predecessor pointer
  change in place; the loops are proved against functions on labels, and the functions
  against minimum hop counts in the graph.
  `Forwarding` puts the routes of all routers together: packets reach an advertiser, one hop
  closer each time; `Delivery` does the same for destination addresses and the tables.
* **The routing table** (`RouteOrder`, `NodeList`, `RoutingTable`, `RouteLookup`). Removal,
  append, splice and bubble sort work on real doubly linked nodes; the lookup by longest
  match agrees with the first match in the sorted copy the hardware gets.
* **ARP** (`ArpCache`, `ArpQueue`, `ArpPass`, `ArpRun`, `ArpPaths`, `ArpRouter`). The cache
  and its bounded hardware copy; the queue of packets waiting for replies; the timer, which
  sends ICMP errors that may join the very list it is walking; runs over any events, and
  where the packets go.
* **The driver's transmit path** (`TransmitRing`, `TransmitSteps`, `TransmitCard`,
  `TransmitProgress`). A ring with per-port quotas, a step system that interleaves senders
  and the interrupt handler at each access made without the lock, the same functions on the
  card's fields, and when waiting packets are sent.
* **Checksums and time to live** (`Checksum`, `HeaderUpdates`), the **shadowing daemon**
  (`Shadow`), **bitfile download** (`Download`), **packet matching in the test library**
  (`PacketMatch`) and the **register proxy** (`RegProxy`).

Conventions. `Sequences` has what several modules need of lists. Machine words are integers
with a range (`Words`); arithmetic that can wrap is written with the wrap. Source files of
the router are under `reference-projects/netfpga/projects/scone/sw`. A pure function and the method that computes
it with a loop are two members: the method's contract equates them, and the lemmas are about
the function. Fields marked `ghost`, and the last fields of `TransmitSteps.State`, record
history for the proofs. Time is a clock that never goes back and may move on by any amount
before each reading.

What the properties rest on:

* Router ids are unique and not zero, and our own id is in the list (the source skips id 0
  when it initialises distances). Results about 16-bit wrapper distances are for at most
  65535 routers.
* Predecessor pointers are null at first, or lead back to us; a run keeps that
  (`PrevChains.SolveKeepsGrounded`), so it holds before every later run on the same list.
* A completion or error interrupt of the transmit engine is raised only for a transfer under
  way; `TransmitSteps.StopIsSafe` and `SpuriousStop` say why that is needed. Quotas
  are for runs in which the kernel submits packets on awake queues only, and without release
  or transmit timeout. The kernel serialises the transmit calls of one device, so that a
  queue found awake is still awake when its lock is taken.

Where code and comments differ the code is followed: the comment at `or_ip.c:120` speaks of
a time to live below 1 while the test is for 1, so that a packet with 0 is forwarded with
255; `clear_hw_arptable` clears row 1 each time instead of every row; the test library's
checksum of an odd length takes in the byte behind the datagram, which is harmless exactly
when that byte is 0.

## Model

| member | source | states |
|---|---|---|
| ShortestPaths.SolveCorrect | reference-projects/netfpga/projects/scone/sw/or_dijkstra.c:48-79 | when the selection loop ends, every router's distance is the minimum hop count from us over active links, or 0xFFFFFFFF exactly when no path exists; each reached router's predecessor is adjacent and one hop closer |
| ShortestPaths.SelectedIsMinimal | reference-projects/netfpga/projects/scone/sw/or_dijkstra.c:159-174 | the unfinished router with the smallest label already has its minimum hop count |
| ShortestPaths.RelaxAll | reference-projects/netfpga/projects/scone/sw/or_dijkstra.c:179-199 | one relaxation lowers exactly the unfinished neighbours that are farther than one hop beyond the router, and makes it their predecessor |
| ShortestPaths.LoopKeepsInvariant | reference-projects/netfpga/projects/scone/sw/or_dijkstra.c:70-79 | each round keeps the Dijkstra invariant, the loop ends, and then nothing reachable is unfinished |
| RouterRecords.GetRouterByRid | reference-projects/netfpga/projects/scone/sw/or_dijkstra.c:146-157 | returns the first router with the id, or none exactly when there is none |
| RouterRecords.GetShortest | reference-projects/netfpga/projects/scone/sw/or_dijkstra.c:159-174 | the loop over records selects the label the specification selects, the first among equals |
| RouterRecords.UpdateNeighborDistance | reference-projects/netfpga/projects/scone/sw/or_dijkstra.c:179-199 | the in-place update of distances and pointers is the specified relaxation and changes nothing else |
| RouterRecords.ComputeDistances | reference-projects/netfpga/projects/scone/sw/or_dijkstra.c:48-79 | initialising and looping over the records ends and leaves exactly the labels of the specification |
| PrevChains.SolveKeepsGrounded | reference-projects/netfpga/projects/scone/sw/or_dijkstra.c:48-79 | if all predecessor chains led back to us (or were empty) before a run, they do after it, although a run never clears pointers of unreached routers |
| PrevChains.FirstHopCorrect | reference-projects/netfpga/projects/scone/sw/or_dijkstra.c:231-241 | the predecessor walk of a reached router ends at a neighbour of ours that lies on a shortest path |
| PrevChains.SolveIdempotent | reference-projects/netfpga/projects/scone/sw/or_dijkstra.c:48-79 | a second run on the same database leaves every label as it is |
| RouteWrappers.BuildCorrect | reference-projects/netfpga/projects/scone/sw/or_dijkstra.c:201-300 | one wrapper per advertised masked prefix; for a prefix with a reachable advertiser its 16-bit distance is the minimum over advertisers, it is marked direct exactly when we advertise it, and otherwise its next router is a neighbour one hop closer |
| RouteChoice.BuildChooses | reference-projects/netfpga/projects/scone/sw/or_dijkstra.c:215-285 | each wrapper keeps what the first of the closest routers offers, at its first interface on the prefix in list order: its distance cut to 16 bits, and as next router the neighbour there if the router has no predecessor, else the first hop towards it |
| RouteChoice.OwnPrefix | reference-projects/netfpga/projects/scone/sw/or_dijkstra.c:215-285 | the wrapper of a prefix of our own has distance 0 and names the neighbour on our first interface on it |
| RouteWrappers.SolvedFits | reference-projects/netfpga/projects/scone/sw/or_dijkstra.c:31-36 | with at most 65535 routers every distance survives the 16-bit field |
| RouteConstruction.WalkToSource | reference-projects/netfpga/projects/scone/sw/or_dijkstra.c:231-241 | the pointer walk over records ends at the first hop of the specification |
| RouteConstruction.GetRouteWrapper | reference-projects/netfpga/projects/scone/sw/or_dijkstra.c:287-300 | finds the wrapper of a prefix, or reports that there is none |
| RouteConstruction.AddRouteWrappers | reference-projects/netfpga/projects/scone/sw/or_dijkstra.c:215-285 | merging a router's interfaces into the list is the specified merge |
| RouteConstruction.BuildRouteWrapperList | reference-projects/netfpga/projects/scone/sw/or_dijkstra.c:201-213 | the loops over all routers build exactly the list that BuildCorrect is about |
| Forwarding.HopLowersDistance | reference-projects/netfpga/projects/scone/sw/or_dijkstra.c:215-285 | following the next router of any wrapper lowers the distance to the nearest advertiser by exactly one |
| Forwarding.NetworkLoopFree | reference-projects/netfpga/projects/scone/sw/or_dijkstra.c:70-79 | if every router computes its routes from the same list, forwarding from any router reaches an advertiser of the prefix in exactly the minimum number of hops |
| Forwarding.ReachableHasDistance | reference-projects/netfpga/projects/scone/sw/or_dijkstra.c:215-285 | a prefix with a reachable advertiser has such a distance, so the two results above apply to every such prefix |
| RoutingTable.GetIfaceByRid | reference-projects/netfpga/projects/scone/sw/or_dijkstra.c:313-336 | the first interface that hears the router; none for id 0 |
| RoutingTable.GetNbrByRid | reference-projects/netfpga/projects/scone/sw/or_iface.c:398-409 | the first neighbour with the id on an interface |
| RoutingTable.GetIfaceBySubnetMask | reference-projects/netfpga/projects/scone/sw/or_dijkstra.c:338-349 | the first interface on the subnet |
| RoutingTable.BuildRouteList | reference-projects/netfpga/projects/scone/sw/or_dijkstra.c:85-133 | a well-linked list of fresh nodes with, in order, one dynamic route for each wrapper that leaves by some interface: by the first that hears its next router, or else the first on its subnet; the route names that interface, and its gateway is the address the next router is heard at there, or 0 for a prefix of our own; succeeds exactly when every wrapper is direct, or heard on some interface, or on none of our subnets, or heard on the first interface on its subnet |
| RoutingTable.RoundSucceeds | reference-projects/netfpga/projects/scone/sw/or_dijkstra.c:97-116 | the assertion cannot fail when every advertised prefix on one of our subnets is advertised by us, or has a reachable advertiser while we hear all our neighbours |
| RoutingTable.SucceedsExactly | reference-projects/netfpga/projects/scone/sw/or_dijkstra.c:97-116 | the computation succeeds whatever neighbours are heard on our interfaces, exactly when every advertised prefix on one of our subnets is advertised by us |
| RoutingTable.AssertionFails | reference-projects/netfpga/projects/scone/sw/or_dijkstra.c:97-116 | at a database of two routers, where a silent one has announced our subnet, the assertion fails |
| RoutingTable.ComputeRtable | reference-projects/netfpga/projects/scone/sw/or_dijkstra.c:48-144 | distances, wrappers and route list together, with the database unchanged and the next run's precondition kept |
| RoutingTable.BubblePass | reference-projects/netfpga/projects/scone/sw/or_rtable.c:206-219 | a pass that swaps removes an inversion; one that does not leaves the table as it is, in order |
| RoutingTable.SortTable | reference-projects/netfpga/projects/scone/sw/or_rtable.c:201-220 | the sort ends, the table is sorted, entries of equal rank keep their order, and no entry is lost |
| RouteOrder.SortedMeans | reference-projects/netfpga/projects/scone/sw/or_rtable.c:201-220 | sorted is by falling mask, then falling address, with static entries first among those for one prefix |
| RouteOrder.SwapInversions | reference-projects/netfpga/projects/scone/sw/or_rtable.c:211-217 | every exchange removes exactly one inversion |
| RouteOrder.SortedUnique | reference-projects/netfpga/projects/scone/sw/or_rtable.c:201-220 | two sorted arrangements that keep equal-ranked entries in order are the same table |
| NodeList.Remove | reference-projects/netfpga/projects/scone/sw/or_utils.c:38-73 | unlinking a node, wherever it stands, leaves a well-linked list of the others |
| NodeList.PushBack | reference-projects/netfpga/projects/scone/sw/or_utils.c:29-36 | the list is well linked in both directions with the node at its end |
| NodeList.Splice | reference-projects/netfpga/projects/scone/sw/or_dijkstra.c:416-429 | joining two lists, either of which may be empty, gives one well-linked list |
| RoutingTable.RemoveDynamic | reference-projects/netfpga/projects/scone/sw/or_dijkstra.c:401-411 | the walk that unlinks as it goes leaves exactly the static entries, in order |
| RoutingTable.RouterState.DijkstraRound | reference-projects/netfpga/projects/scone/sw/or_dijkstra.c:401-429 | one round makes the table the static entries and the newly computed dynamic ones, sorted and well linked |
| RoutingTable.RoundKeepsStatics | reference-projects/netfpga/projects/scone/sw/or_dijkstra.c:401-432 | a round keeps every static entry, those of equal rank in order; their sequence is unchanged exactly when it was sorted |
| RoutingTable.RoundRoutes | reference-projects/netfpga/projects/scone/sw/or_dijkstra.c:401-432 | the dynamic entries a round leaves are such routes of the wrappers, each of one, and one for each wrapper that leaves by some interface |
| RoutingTable.SecondRoundChangesNothing | reference-projects/netfpga/projects/scone/sw/or_dijkstra.c:401-432 | with an unchanged database and interface list a second round leaves the table's contents unchanged |
| RouteLookup.DijkstraRoundOnCard | reference-projects/netfpga/projects/scone/sw/or_dijkstra.c:401-432 | with a card, the same round also leaves the hardware rows written from the new table, and leaves them alone when the computation fails |
| RouteLookup.BestIsLongest | reference-projects/netfpga/projects/scone/sw/or_rtable.c:33-61 | the lookup finds nothing exactly when no active entry matches, and otherwise the first of those that match in most mask bits |
| RouteLookup.BestIsLongestFor | reference-projects/netfpga/projects/scone/sw/or_rtable.c:33-61 | the same in terms of the entries: active, with the destination on their prefix, longest and first among equals |
| RouteLookup.CountBits | reference-projects/netfpga/projects/scone/sw/or_rtable.c:45-50 | the loop counts the bits of the mask |
| RouteLookup.GetNextHop | reference-projects/netfpga/projects/scone/sw/or_rtable.c:30-76 | the walk over the list returns that entry's interface and gateway, or the destination itself for a route without gateway |
| RouteLookup.LongestIsFirst | reference-projects/netfpga/projects/scone/sw/or_rtable.c:201-220 | in every sorted table with these active masks the longest match of every destination is the first match, exactly when of two of the masks the larger number never has fewer bits |
| RouteLookup.FirstIsLongest | reference-projects/netfpga/projects/scone/sw/or_rtable.c:201-220 | in particular for masks that are prefixes |
| RouteLookup.OddMasksDiffer | reference-projects/netfpga/projects/scone/sw/or_rtable.c:201-220 | and not for the masks 3 and 4 |
| RouteLookup.WriteRtableToHw | reference-projects/netfpga/projects/scone/sw/or_rtable.c:228-272 | the rows have address, mask, gateway and port of the active entries in table order, cut at the depth, then zeros |
| RouteLookup.TriggerRtableModified | reference-projects/netfpga/projects/scone/sw/or_rtable.c:201-226 | after a change the table is sorted without losing an entry and the rows written from it |
| RouteLookup.HardwareForwardsAlike | reference-projects/netfpga/projects/scone/sw/or_rtable.c:228-272 | under that condition, while the active entries fit, the first row the hardware matches is that of the entry the software looks up, with its gateway and its interface's port; if there is none it is an empty row or none |
| Delivery.RoundTabulates | reference-projects/netfpga/projects/scone/sw/or_dijkstra.c:401-432 | without static routes a round leaves exactly the entries of the router's wrappers |
| Delivery.FindsLongest | reference-projects/netfpga/projects/scone/sw/or_rtable.c:30-76 | the lookup in a table of computed entries, in whatever order, finds the entry of the longest advertised prefix that covers the destination |
| Delivery.AddressDelivered | reference-projects/netfpga/projects/scone/sw/or_rtable.c:30-76 | when every router has made a round that `RoundSucceeds` covers, and looks the destination up in its table, a packet reaches an advertiser of the longest advertised prefix that covers it in exactly the minimum number of hops, each gateway being a router one hop closer that is heard on the interface the table names, although shorter prefixes, unreachable ones included, have entries too |
| ArpCache.EncodeInjective | reference-projects/netfpga/projects/scone/sw/or_arp.c:690-721 | hardware rows are equal exactly when the addresses and hardware addresses are |
| ArpCache.HardwareAnswers | reference-projects/netfpga/projects/scone/sw/or_arp.c:651-722 | while the cache fits the table, a hardware lookup answers exactly as the cache does: the two registers of the row spell the six octets of the hardware address, most significant first |
| ArpCache.MirrorArranged | reference-projects/netfpga/projects/scone/sw/or_arp.c:651-722 | the rows tell each entry once, octet by octet, static ones first and each kind in cache order, then zeros |
| ArpCache.Cache.WriteCacheToHw | reference-projects/netfpga/projects/scone/sw/or_arp.c:651-687 | the rows are the static entries in cache order, then the dynamic ones, cut at the table depth and padded with zero rows; both loops end |
| ArpCache.Cache.InArpCache | reference-projects/netfpga/projects/scone/sw/or_arp.c:222-240 | the position of the entry for an address, or none |
| ArpCache.Cache.UpdateArpCache | reference-projects/netfpga/projects/scone/sw/or_arp.c:247-295 | sets the first entry for the address or appends one and touches no other, keeps addresses unique, and leaves the hardware in step |
| ArpCache.DeletesOne | reference-projects/netfpga/projects/scone/sw/or_arp.c:301-320 | with unique addresses deletion removes one entry at most and keeps the order of the rest |
| ArpCache.Cache.DelArpCache | reference-projects/netfpga/projects/scone/sw/or_arp.c:301-320 | removes exactly the entries for the address and counts them |
| ArpCache.Cache.CliDelete | reference-projects/netfpga/projects/scone/sw/or_arp.c:842-878 | after the command the address is gone, the rest unchanged and the hardware in step |
| ArpCache.Cache.ExpireArpCache | reference-projects/netfpga/projects/scone/sw/or_arp.c:512-544 | keeps, in order, exactly the entries that are static or not older than the limit at their own clock reading, and leaves the hardware in step |
| ArpCache.Cache.Nuke | reference-projects/netfpga/projects/scone/sw/or_arp.c:895-917 | empties cache and hardware |
| ArpCache.Cache.NukeRow | reference-projects/netfpga/projects/scone/sw/or_arp.c:921-949 | clears one row through the registers and touches nothing else |
| ArpCache.NukedRowInSync | reference-projects/netfpga/projects/scone/sw/or_arp.c:921-949 | clearing one hardware row keeps it in step exactly when the row held nothing |
| ArpQueue.ErrorsCauseNone | reference-projects/netfpga/projects/scone/sw/or_arp.c:580-588 | ICMP errors owe no errors (section 3.2.2 of RFC 1122) |
| ArpQueue.SendConserves | reference-projects/netfpga/projects/scone/sw/or_main.c:754-776 | a packet handed over is afterwards transmitted or queued exactly once more, and nothing else moves |
| ArpQueue.SendUnique | reference-projects/netfpga/projects/scone/sw/or_arp.c:416-454 | queueing keeps one entry per next hop |
| ArpQueue.TrimSend | reference-projects/netfpga/projects/scone/sw/or_arp.c:572-613 | taking packets off an entry and queueing errors on it commute, so walking a list that grows is the same as sending first |
| ArpQueue.DrainOwes | reference-projects/netfpga/projects/scone/sw/or_arp.c:572-613 | the errors sent while an entry is drained are exactly those its packets owed at the start, whatever joins it on the way |
| ArpQueue.ProcessedProgress | reference-projects/netfpga/projects/scone/sw/or_arp.c:573-613 | processing a packet lowers the weighted count of packets still to be processed, although its error may join them |
| ArpPass.VisitKeepsSound | reference-projects/netfpga/projects/scone/sw/or_arp.c:556-621 | every visit of the timer keeps one entry per next hop, at most five requests an entry more than a second apart, and every packet accounted for |
| ArpPass.DrainConserves | reference-projects/netfpga/projects/scone/sw/or_arp.c:572-616 | giving up on an entry loses no packet: all it held is counted as discarded, the errors as handed over |
| ArpPass.VisitPasses | reference-projects/netfpga/projects/scone/sw/or_arp.c:556-621 | after its turn each old entry has been asked for again, given up, or is not yet due |
| ArpPass.VisitEnds | reference-projects/netfpga/projects/scone/sw/or_arp.c:556-621 | each visit uses up an entry that can be given up or moves on, so the pass ends although it queues new packets |
| ArpPass.TurnsKeepSound | reference-projects/netfpga/projects/scone/sw/or_arp.c:549-622 | a pass of any turns keeps one entry per next hop, requests recorded and paced, and every packet accounted for |
| ArpPass.TurnsAccount | reference-projects/netfpga/projects/scone/sw/or_arp.c:549-622 | a pass takes back nothing that was sent; for each discarded packet that is no ICMP error, is not ours and has a route back, and for no other, it hands over one host-unreachable error: to that packet's source, from and by the interface the routes give for it, quoting the packet with its time to live put back |
| ArpQueue.ErrorsAreOwed | reference-projects/netfpga/projects/scone/sw/or_arp.c:576-606 | the same of the packets of one entry, in order |
| ArpPass.TurnsDone | reference-projects/netfpga/projects/scone/sw/or_arp.c:549-622 | a whole pass gives every entry present at the start its turn: asked for again, given up, or not yet due |
| ArpRouter.Router.SendIp | reference-projects/netfpga/projects/scone/sw/or_main.c:754-776 | transmits on a cache hit and queues otherwise, and changes nothing else |
| ArpRouter.Router.ArpQueueAdd | reference-projects/netfpga/projects/scone/sw/or_arp.c:416-454 | joins the entry for the next hop at its end, or makes one whose first request goes out at once |
| ArpRouter.Router.SendError | reference-projects/netfpga/projects/scone/sw/or_arp.c:580-606 | sends exactly the error owed, quoting the packet with its time to live put back |
| ArpRouter.Router.DrainExpired | reference-projects/netfpga/projects/scone/sw/or_arp.c:572-616 | the inner loop ends and amounts to sending the errors owed at the start and discarding all the entry then holds |
| ArpRouter.Router.VisitEntry | reference-projects/netfpga/projects/scone/sw/or_arp.c:559-618 | a visit waits, repeats the request, or gives up, by the age at its clock reading and the number of requests |
| ArpRouter.Router.ProcessArpQueue | reference-projects/netfpga/projects/scone/sw/or_arp.c:549-622 | the pass ends, and is exactly a sequence of turns: each visits the entry chosen before the one before it was processed, and the last has no successor |
| ArpRouter.Router.SendQueuedPackets | reference-projects/netfpga/projects/scone/sw/or_arp.c:171-203 | on a hit transmits the waiting packets of the address once each, in queue order, with the cached hardware address, and removes their entry only; on a miss, where the walk ends for at most one packet, drops the entry with it |
| ArpQueue.WalkEnds | reference-projects/netfpga/projects/scone/sw/or_arp.c:185-195 | the walk over an entry's packets, which on a miss re-queues them onto the list it walks, ends exactly on a hit or with at most one packet |
| ArpQueue.DropLoses | reference-projects/netfpga/projects/scone/sw/or_arp.c:185-199 | after a miss the accounts lack exactly the packets that waited for the address, so they balance exactly when there were none |
| ArpQueue.DeliveredConserves | reference-projects/netfpga/projects/scone/sw/or_arp.c:171-203 | a reply moves packets from queue to wire without loss or duplication |
| ArpQueue.DeliveredAnswers | reference-projects/netfpga/projects/scone/sw/or_arp.c:171-203 | after a reply nothing waits for the address, and the other entries are as before; what waited has gone out in order to the address in the reply, by the interface it waited on |
| ArpRouter.Router.ProcessArpReply | reference-projects/netfpga/projects/scone/sw/or_arp.c:143-164 | a reply sets the cache entry, mirrors it, and sends exactly what waited for it |
| ArpRouter.Router.ArpThreadRound | reference-projects/netfpga/projects/scone/sw/or_arp.c:759-783 | a round drops exactly the cache entries found too old at their readings, with the hardware in step, then makes one whole pass; every queue entry gets its turn |
| ArpRouter.Router.Handle | reference-projects/netfpga/projects/scone/sw/or_arp.c:143-164 | each event (packet, reply, command, change of tables, timer) has exactly its own effect on queue, wire, requests, accounts, cache and tables |
| ArpRouter.Router.Run | reference-projects/netfpga/projects/scone/sw/or_arp.c:549-622 | any sequence of events goes through worlds linked event by event, with the hardware in step; nothing sent is taken back, and all that was handed over is what the events submitted and errors |
| ArpRun.RunAccounts | reference-projects/netfpga/projects/scone/sw/or_arp.c:549-622 | over any run every state is sound, nothing sent is taken back, and the packets handed over are those there at first, those submitted, and event by event exactly the errors that `TurnsAccount` describes for the packets it discards |
| ArpPaths.RunRouted | reference-projects/netfpga/projects/scone/sw/or_arp.c:416-454 | over any run whatever is queued or on the wire belongs to a packet handed over: entries and requests name a next hop and interface something was handed over for, queued packets wait for their own next hop, and a frame goes to a hardware address the cache has held for its packet's next hop; what was handed over is what was there, what was submitted, and errors that answer discarded packets |
| ArpPaths.LeavesByItsOwn | reference-projects/netfpga/projects/scone/sw/or_arp.c:416-454 | where next hops have one interface each, every frame leaves by the interface its packet was handed over for |
| ArpRun.RequestsArePaced | reference-projects/netfpga/projects/scone/sw/or_arp.c:564-571 | in every such state the requests an entry has issued are the last ones on the wire for its next hop, at most five, each more than a second after the one before |
| ArpRun.ExactlyOnce | reference-projects/netfpga/projects/scone/sw/or_arp.c:416-454 | a packet submitted once in a run, no ICMP error itself, is in the end in exactly one of wire, queue and discarded |
| TransmitRing.RingRefinesQueue | reference-projects/netfpga/lib/C/kernel/nf2_control.c:302-319 | wr = (rd + pool - free) mod pool with 0 <= free <= pool, and the slots from rd on are the accepted, unfinished packets in order |
| TransmitRing.EnqueueAppends | reference-projects/netfpga/lib/C/kernel/nf2_control.c:308-311 | queueing with a free buffer appends to that queue and disturbs no occupied slot |
| TransmitRing.FinishRemoves | reference-projects/netfpga/lib/C/kernel/nf2_control.c:497-500 | finishing removes the oldest packet, which is the one at rd |
| TransmitRing.InitiallyBalanced | reference-projects/netfpga/lib/C/kernel/nf2_control.c:1229-1231 | the quotas are fit to use exactly when the pool has a buffer for every port |
| TransmitRing.DrainFreesAll | reference-projects/netfpga/lib/C/kernel/nf2_control.c:241-248 | the release drain frees the unfinished packets in order, each once, and leaves the ring empty |
| TransmitRing.DrainBreaksQuotas | reference-projects/netfpga/lib/C/kernel/nf2_control.c:241-248 | after the drain the quotas still balance exactly when the ring was empty |
| TransmitSteps.StepKeeps | reference-projects/netfpga/lib/C/kernel/nf2_control.c:344-415 | every step of a sender, the transmit function, the handler or the card keeps the invariant on counter, ring, what senders have read, and order |
| TransmitSteps.HeadIsOldest | reference-projects/netfpga/lib/C/kernel/nf2_control.c:373-384 | a sender that reads rd without the lock reads the oldest unfinished packet |
| TransmitSteps.NotEmpty | reference-projects/netfpga/lib/C/kernel/nf2_control.c:366-371 | a free count read without the lock never shows a packet that is not there, because the slot is written first |
| TransmitSteps.MutualExclusion | reference-projects/netfpga/lib/C/kernel/nf2_control.c:357-406 | in every reachable state the counter is the callers between add and subtract plus the transfer under way, at most one caller is about to program the card, none during a transfer, and what it holds is the oldest packet of the ring |
| TransmitSteps.RingIsQueue | reference-projects/netfpga/lib/C/kernel/nf2_control.c:838-888 | in every reachable state with the lock free the ring holds the unfinished packets in order, and packets have been transferred and freed in the order of acceptance, each once |
| TransmitSteps.ReleaseFreesRest | reference-projects/netfpga/lib/C/kernel/nf2_control.c:233-248 | from any such state the release drain completes it: every accepted packet has been freed exactly once |
| TransmitSteps.QuotasHold | reference-projects/netfpga/lib/C/kernel/nf2_control.c:302-328 | in every polite run each port's free count plus its packets in the ring is its quota, no count goes below zero, and an awake queue always finds a buffer, so the error branch is not taken |
| TransmitSteps.StopIsSafe | reference-projects/netfpga/lib/C/kernel/nf2_control.c:838-847 | entered for a finished transfer, the handler and whatever runs after it free no packet before its transfer has started, exactly when a transfer is under way: otherwise a caller that comes to the counter is enough to break it |
| TransmitSteps.HarmlessStop | reference-projects/netfpga/lib/C/kernel/nf2_control.c:843-844 | without a transfer under way, the handler entered in error leaves everything as it was exactly when no caller is at the counter at the moment it looks |
| TransmitSteps.SpuriousStop | reference-projects/netfpga/lib/C/kernel/nf2_control.c:838-881 | a run in which the handler, entered without a transfer while a sender is between its two accesses, frees a packet that was never accepted and counts more free buffers than there are |
| TransmitProgress.QuotasExactly | reference-projects/netfpga/lib/C/kernel/nf2_control.c:1229-1231 | no port count goes below zero in any polite run exactly when the pool has a buffer for every port |
| TransmitSteps.SmallPool | reference-projects/netfpga/lib/C/kernel/nf2_control.c:1229-1231 | with fewer buffers than ports the first packet takes a port's count to -1 |
| TransmitSteps.BeginWins | reference-projects/netfpga/lib/C/kernel/nf2_control.c:357-364 | a caller wins the counter exactly when no other caller is at it and no transfer is under way |
| TransmitProgress.AttemptServes | reference-projects/netfpga/lib/C/kernel/nf2_control.c:344-415 | undisturbed, the send function starts a transfer exactly when none is under way, a packet waits and its port can take it, and then it is the oldest packet |
| TransmitProgress.ServedExactly | reference-projects/netfpga/lib/C/kernel/nf2_control.c:357-381 | while a packet waits, its port stays writable and nobody is about to send, a run after which all callers are gone has started a transfer exactly when some caller found the counter at 0 when it added to it, however the attempts interleave |
| TransmitProgress.Stalls | reference-projects/netfpga/lib/C/kernel/nf2_control.c:357-381 | a run without such a caller, whatever the pool: it ends with nothing sent and an accepted packet in the ring, every port writable, no transfer and no caller left, since the handler's attempt lost to a caller that was about to give up |
| TransmitCard.Card.Tx | reference-projects/netfpga/lib/C/kernel/nf2_control.c:292-332 | the kernel's entry point on the card's fields fails exactly when no buffer is free; otherwise it queues the packet, takes it off its port's quota, stops the port's queue when that was the last, and starts the oldest packet's transfer exactly when none is under way and its port can take it; all this is a run of the step system |
| TransmitCard.Card.Send | reference-projects/netfpga/lib/C/kernel/nf2_control.c:344-415 | starts the transfer of the oldest packet exactly when no transfer is counted, the ring is not empty and the port can take it |
| TransmitCard.Card.TxComplete | reference-projects/netfpga/lib/C/kernel/nf2_control.c:838-888 | the handler's completion work frees exactly the oldest packet, gives its port the buffer back and wakes the queue on the first, and starts the next packet's transfer exactly when one is left and its port can take it; all this is a run of the step system |
| TransmitCard.Card.Drain | reference-projects/netfpga/lib/C/kernel/nf2_control.c:233-252 | after the release loop every packet ever accepted has been freed, in order |
| Checksum.OnesSumIsResidue | reference-projects/netfpga/lib/C/common/util.c:81-82 | folding a long sum equals bringing each carry around as it occurs (section 1 of RFC 1071) |
| Checksum.TwoFoldsAreEnough | reference-projects/netfpga/projects/scone/sw/or_ip.c:223-229 | fold and add-the-carry gives the fully folded sum for every sum below 0xFFFFFFFF |
| Checksum.OneFoldDecides | reference-projects/netfpga/projects/scone/sw/or_ip.c:244-247 | a single fold, cut to 16 bits, is 0xFFFF exactly when the sum is a non-zero multiple of 65535 |
| Checksum.StampedAccepted | reference-projects/netfpga/projects/scone/sw/or_ip.c:207-250 | whatever is stamped with its computed checksum is accepted |
| Checksum.RestampRestores | reference-projects/netfpga/projects/scone/sw/or_ip.c:207-232 | restamping an accepted header gives back its checksum, except that 0xFFFF becomes 0 |
| Checksum.TtlRoundTrip | reference-projects/netfpga/projects/scone/sw/or_arp.c:594-604 | forwarding followed by a timeout restores every byte but the checksum exactly when the time to live was at least 2, and then the checksum too up to the 0x0000/0xFFFF alias; both headers are accepted |
| HeaderUpdates.ComputeIpChecksum | reference-projects/netfpga/projects/scone/sw/or_ip.c:207-232 | clears the field and returns the complement of the end-around sum of the header's words |
| HeaderUpdates.ComputeIcmpChecksum | reference-projects/netfpga/projects/scone/sw/or_icmp.c:120-143 | the same for a message, over its whole 16-bit words |
| HeaderUpdates.VerifyChecksum | reference-projects/netfpga/projects/scone/sw/or_ip.c:234-250 | zero exactly when the word sum is a non-zero multiple of 65535 |
| HeaderUpdates.IsPacketValid | reference-projects/netfpga/projects/scone/sw/or_ip.c:168-195 | accepts exactly unfragmented version 4 headers without options whose checksum is accepted |
| HeaderUpdates.LowerTtl | reference-projects/netfpga/projects/scone/sw/or_ip.c:129-135 | the in-place update of forwarding, wrap of the 8-bit field included: the header is accepted again, and nothing but that field and the checksum has changed |
| HeaderUpdates.RaiseTtl | reference-projects/netfpga/projects/scone/sw/or_arp.c:594-602 | the in-place update of a timeout likewise, which leaves a full field alone |
| HeaderUpdates.Cksm | reference-projects/netfpga/lib/C/common/util.c:65-87 | the fold-until-done checksum over 32-bit words is the complement of the same end-around sum, over the datagram's 16-bit words |
| HeaderUpdates.LengthBytes | reference-projects/netfpga/lib/C/common/util.c:65-87 | the length it sums to is in the third and fourth byte of the datagram |
| HeaderUpdates.ChecksumsAgree | reference-projects/netfpga/lib/C/common/util.c:65-87 | the library's checksum is the complement of the end-around sum of the padded datagram, as the router's is, exactly when the length is even or the byte behind the datagram is 0; that complement is zero exactly for the data the router's verifier accepts |
| Shadow.UpdateShadows | reference-projects/netfpga/projects/router_kit/sw/nf21_mon.cc:223-273 | clearing as many rows as the old table had and writing the new ones replaces the shadow of the one by that of the other, also when the old table was longer than the hardware |
| Shadow.ShadowsExactly | reference-projects/netfpga/projects/router_kit/sw/nf21_mon.cc:139-147 | the rows are the entries and nothing else exactly when no row never written held anything at the start |
| Shadow.FilterIsSet | reference-projects/netfpga/projects/router_kit/sw/nf21_mon.cc:194-218 | as a set the filter is the interfaces' addresses and 224.0.0.5, stale OSPF rows or not |
| Shadow.Monitor.constructor | reference-projects/netfpga/projects/router_kit/sw/nf21_mon.cc:18-49 | route and filter tables start cleared, the ARP table with row 1 cleared only |
| Shadow.Monitor.UpdateRoutingTable | reference-projects/netfpga/projects/router_kit/sw/nf21_mon.cc:223-246 | the register writes leave the route rows showing the new table and the rest cleared |
| Shadow.Monitor.UpdateArpTable | reference-projects/netfpga/projects/router_kit/sw/nf21_mon.cc:252-273 | the same for the ARP rows, above which the initial rows are still there |
| Shadow.Monitor.UpdateInterfaceTable | reference-projects/netfpga/projects/router_kit/sw/nf21_mon.cc:194-218 | the filter rows and port MAC registers show the new interfaces |
| Shadow.Monitor.RtableUpdate | reference-projects/netfpga/projects/router_kit/sw/nf21_mon.cc:54-69 | keeps the card's routes, in order, and touches the hardware only on a change |
| Shadow.Monitor.ArptableUpdate | reference-projects/netfpga/projects/router_kit/sw/nf21_mon.cc:74-89 | keeps the card's ARP lines and remembers how many rows were ever used |
| Shadow.Monitor.InterfaceUpdate | reference-projects/netfpga/projects/router_kit/sw/nf21_mon.cc:94-109 | keeps the card's interfaces; the MAC registers change only with them |
| Shadow.Daemon.Poll | reference-projects/netfpga/projects/router_kit/sw/rkd.cc:173-198 | after a poll all three tables show the lines just read for the card's interfaces, in order and no others, whether or not they had changed: a route's destination, mask, gateway and port, an ARP line's address and the octets of its hardware address, the addresses let through and the ports' MAC addresses |
| Shadow.OnCardPicks | reference-projects/netfpga/projects/router_kit/sw/nf21_mon.cc:54-62 | the lines kept are those at the positions of the card's interfaces, in order and no others |
| Shadow.OnCardCounts | reference-projects/netfpga/projects/router_kit/sw/nf21_mon.cc:54-62 | a line of the card's interfaces is kept as often as it occurs, and no other line is |
| Shadow.Daemon.Run | reference-projects/netfpga/projects/router_kit/sw/rkd.cc:173-198 | after any number of polls the tables show the last one |
| Download.WordsRoundTrip | reference-projects/netfpga/lib/C/download/nf_download.c:357-421 | unpacking the words gives the bytes back, with zeros to the end of the last word, in both byte orders |
| Download.WordsJoin | reference-projects/netfpga/lib/C/download/nf_download.c:287-294 | cutting a download at a word boundary makes no difference to the words |
| Download.StripHeader | reference-projects/netfpga/lib/C/download/nf_download.c:162-207 | leaves the file at the payload for every well-formed header and at the start of a bare image |
| Download.Card.DownloadCodeBlock | reference-projects/netfpga/lib/C/download/nf_download.c:357-421 | writes exactly the block's words, to the data register or to consecutive addresses |
| Download.Card.DownloadCode | reference-projects/netfpga/lib/C/download/nf_download.c:284-294 | the blocks together write the words of the whole file, and the count is its length |
| Download.Card.BeginCodeDownload | reference-projects/netfpga/lib/C/download/nf_download.c:142-154 | what the card received unpacks to the payload and zero padding, each byte of the payload being at its place in its word |
| Download.WordsHaveBytes | reference-projects/netfpga/lib/C/download/nf_download.c:142-154 | words are the bytes by fours, least significant first or last |
| PacketMatch.ComparePkts | reference-projects/netfpga/lib/python/NFTest/hwPkt.py:123-136 | the masking loops decide the sameness the next row explains |
| PacketMatch.SameOutsideMask | reference-projects/netfpga/lib/python/NFTest/hwPkt.py:123-136 | two byte strings are the same under a mask exactly when they have one length and agree in every bit the mask does not have |
| PacketMatch.MatchesMeans | reference-projects/netfpga/lib/python/NFTest/hwPkt.py:154-162 | a packet matches when its bytes are those expected outside the mask, or, where fewer than 60 are expected, those followed by the packet's own padding |
| PacketMatch.TakenIsExact | reference-projects/netfpga/lib/python/NFTest/hwPkt.py:162-168 | when equal packets match alike, removal by equality removes exactly the packet and the expectation that matched |
| PacketMatch.ResolvedMatches | reference-projects/netfpga/lib/python/NFTest/hwPkt.py:144-174 | each match moves one packet and removes one expectation it matches, nothing is lost or duplicated, and nothing left matches anything left |
| PacketMatch.UnlikeEquals | reference-projects/netfpga/lib/python/NFTest/hwPkt.py:162-168 | if equal packets match differently, one packet is lost and the matched one stays listed |
| PacketMatch.UnlikeExpectations | reference-projects/netfpga/lib/python/NFTest/hwPkt.py:162-168 | if equal expectations match differently, one that was not met goes and the one that was stays |
| PacketMatch.AlikeExactly | reference-projects/netfpga/lib/python/NFTest/hwPkt.py:144-174 | resolving is fair on all lists drawn from given packets and expectations (each match one for one, nothing lost or duplicated) exactly when equal ones of them match alike |
| PacketMatch.PktExpect.ResolvePkts | reference-projects/netfpga/lib/python/NFTest/hwPkt.py:144-174 | the loop with removals ends, keeps the counts of all packets ever received and expectations ever made, leaves no match, and reports whether all expectations are met |
| PacketMatch.PktExpect.AddPkt | reference-projects/netfpga/lib/python/NFTest/hwPkt.py:76-83 | a received packet joins the list and the account |
| PacketMatch.PktExpect.ExpectPkt | reference-projects/netfpga/lib/python/NFTest/hwPkt.py:110-112 | an expectation joins the list and the account |
| RegProxy.DecodeEncode | reference-projects/netfpga/lib/C/reg_lib/reg_proxy.h:69-75 | the 16 bytes of a request determine it, and each field is at its place, the words least significant byte first |
| RegProxy.Readn | reference-projects/netfpga/lib/C/reg_lib/reg_proxy.c:58-84 | returns the next bytes of the stream whatever the reads returned and however often they were interrupted |
| RegProxy.Writen | reference-projects/netfpga/lib/C/reg_lib/reg_proxy.c:87-110 | appends the bytes to the stream likewise |
| RegProxy.ParseRequest | reference-projects/netfpga/lib/C/reg_lib/reg_proxy_server.c:210-281 | the loop writes the replies of the stream's whole requests, leaves the devices as they command, stops at a close, and fails exactly on a partial request |
| RegProxy.ServesRequests | reference-projects/netfpga/lib/C/reg_lib/reg_proxy_server.c:210-281 | a stream of requests is answered one reply each, in order, up to a close |
| RegProxy.ServesDialogue | reference-projects/netfpga/lib/C/reg_lib/reg_proxy_server.c:210-281 | each reply is what its request may expect of the devices as they are by then, up to the first close of a device that is there |
| RegProxy.HandledEffect | reference-projects/netfpga/lib/C/reg_lib/reg_proxy_server.c:216-268 | a read gets the register, a write changes it alone, check and open say 1; a device that is not there answers a check with 0, and all else fails |
| RegProxy.Session.CheckIface | reference-projects/netfpga/lib/C/reg_lib/reg_proxy_client.c:150-191 | a check finds exactly the devices that are there |
| RegProxy.Session.OpenDescriptor | reference-projects/netfpga/lib/C/reg_lib/reg_proxy_client.c:196-218 | opening succeeds exactly for devices that are there |
| RegProxy.Session.SendRequest | reference-projects/netfpga/lib/C/reg_lib/reg_proxy_client.c:80-103 | the client gets the reply to its own request, and nothing is left on the way |
| RegProxy.Session.ReadReg | reference-projects/netfpga/lib/C/reg_lib/reg_proxy_client.c:112-127 | a remote read returns what a direct read of the device would, and changes nothing |
| RegProxy.Session.WriteReg | reference-projects/netfpga/lib/C/reg_lib/reg_proxy_client.c:132-145 | a remote write changes exactly the addressed register of the addressed device |

## Left out

- The Ruby resource controller, register dumps, statistics screens, interactive command lines, the LSU and hello protocol, NAT, and the user-space driver interface that probing disables.
- Longest-prefix dispatch of commands and the sort of the command list: the routing table's sort is the same algorithm on a harder order.
- Locks, threads and sleeping: each router operation runs under its locks and is one call here. The transmit path, which does race, is a step system.
- A router that times out while others still point to it: its record is freed and the pointers dangle. The router list is fixed during a run.
- ArpRouter.Router.SendError: where the routing table sends a source address, and which addresses are our own, are parameters of the ARP router, any maps; `RouteLookup` has the lookup itself.
- RouteLookup.WriteRtableToHw: a row is stored at once; writing rows through staging registers is in `ArpCache` and `Shadow`. That the hardware takes the first matching row is an assumption.
- Failures of `send_packet`, failed allocation, and packet contents beyond addresses, protocol, type and time to live; the errors' payload is the quoted packet as a whole.
- ArpRouter.Router.ProcessArpReply: updating the cache and sending the waiting packets is one step; in the source another thread could drop the entry in between.
- ArpRouter.Router.SendQueuedPackets: runs without end, a cache miss with two packets or more, are outside its precondition, and `ArpQueue.WalkEnds` says that these are all of them. What a miss with one packet loses is in `ArpQueue.DropLoses`.
- ArpRun.ExactlyOnce: packets are values, so the claim is for packets that differ from all others handed over.
- Delivery.AddressDelivered: static routes, and destinations whose longest advertised prefix has no reachable advertiser; such a prefix can still have an entry.
- ArpCache.Cache.WriteCacheToHw: the depth of the hardware table is a parameter, since the generated register definitions are not part of this model.
- `TransmitSteps`: memory is sequentially consistent. The transmit function lets go of the lock before its send, which the source makes under it; that adds runs, so what holds of all runs holds of the source's. Progress is claimed for callers that leave (`TransmitProgress.ServedExactly`), not that they do, nor that the card finishes a transfer. Receive transfers, the padding of short packets, DMA mapping and statistics are not modelled; nor are open, transmit timeout and release inside a run.
- Shadow: reading `/proc` and interface lists; the lists are inputs of a poll. A commit beyond the last row is either ignored or wraps around.
- Download: the programming interface's status checks and retries, which the blocks' words do not depend on, and files that are neither a well-formed header with payload nor a bare image.
- PacketMatch: packets that arrive while resolving is under way, and the comparing thread. Packet equality, which another library defines, is sameness of a key.
- RegProxy: socket errors, and a client that stops in the middle of a reply. The structure's layout is that of a little-endian machine at both ends.
- HeaderUpdates.Cksm: needs a buffer that holds the datagram its length field announces; the source reads on regardless.
