# olsrd in Dafny

olsrd is a daemon for the OLSR mesh routing protocol (RFC 3626, with link quality extensions).
This project models its core algorithms and proves what they are for. `dafny verify dfyconfig.toml`
checks everything.

| files | part of olsrd |
|---|---|
| `Topology`, `Spf` | the shortest path computation over the link state database |
| `HeapShape`, `BinHeap`, `CandHeap` | the pointer based binary heap that serves as its candidate queue |
| `Framing` | output buffers, packet framing and the message walk of the receiver |
| `Entries`, `HelloFormat`, `HelloOrder`, `Hello` | the fragmenting serializers of LQ and classic IPv4 HELLO messages, and the receiver |
| `Borders`, `LqTc` | fragmented LQ TC messages and their borders, and the receiver |
| `Words`, `DuplicateSet`, `Flooding` | duplicate suppression and default forwarding |
| `LqMpr` | link quality MPR selection |
| `MidSet` | aliases of multi-homed nodes in two hash tables |
| `Gateway` | the routes of multiple smart gateways through startup, runtime and shutdown |
| `GwSpeed`, `Mantissa` | the one byte codecs for gateway speeds and for validity times |
| `EtxFf` | the ETX-ff link metric with its hysteresis |

Code that changes state step by step is modelled by classes and methods with loops, proved against
functions and predicates; lemmas about these give the main results. Machine integers are modelled
where their width matters: 32-bit path costs, 16-bit sequence numbers and counters, 8-bit hop counts,
time to live and qualities, the 32-bit duplicate window.

What the code does differs from what one might expect in these places, each with its exact condition:

* Path costs are 32-bit sums. A run ends correct if and only if wrap-around is harmless: every
  distance is below ROUTE_COST_BROKEN, and no wrapped sum over a shortest walk is below the distance of its
  end (`Spf.Run.RunFull`, `Topology.Harmless`). Where it does harm, a run with the tree may also be lost: it comes to
  lower the key of a vertex that is not in the tree (`Spf.Run.Relax`), which the heap leaves alone. A sum that reaches ROUTE_COST_BROKEN or wraps and improves
  nothing does no harm. With edge costs up to c, all topologies of n vertices are harmless if and only if n * c is
  below 2^32 (`Topology.HarmlessSizes`): 1024 vertices when all costs below LINK_COST_BROKEN are
  possible, 40314 with the ETX-ff metric (`Topology.SizesBelowBroken`, `EtxFf.HarmlessSizes`). On a line of
  1025 vertices the edge back out of the last one lowers its settled neighbour to 4193279, less than the cost of one hop
  (`Spf.LineIsSpoiled`).
* The hop count has 8 bits. It is exact for up to 256 vertices and not on a line of 257
  (`Spf.RoutesFollowShortestWalks`, `Spf.HopsWrap`).
* The byte count of a received packet is a 32-bit word without its header. For a datagram of one to three
  bytes it wraps around, and if the datagram announces its own length the message walk goes on in the bytes behind it.
  The walk stays inside the datagram, whatever follows it, if and only if there is a whole header or the announced
  length is another one; a single byte is half of the length, and is safe exactly if it is not zero
  (`Framing.InsideIff`, `Framing.ShortDatagramIsLeft`).
* A border flag names a byte of the address next to it if and only if it is from 1 to 8 times the address
  size (`Borders.FlagInside`). The receiver uses any flag except 0xff and a pair of zeros in that way; the sender
  writes flag 0 between two equal addresses (`Borders.CalculateBorderFlag`).
* The first message of an originator is accepted a second time (`DuplicateSet.CreatingNumberTwice`).
* An egress file may declare the network 0.0.0.0/0. The network route and the default route of that interface
  then are one kernel entry, and the kernel holds exactly the active tracked routes if and only if no interface
  has both of them active (`Gateway.NetworkEverywhere`, `Gateway.MultiGateway.DoRoutesMultiGw`). For a whole run that
  can be read off the measurements (`Gateway.Run`, `Gateway.SharesAtStart`, `Gateway.NarrowNeverShares`).
* An interface that is already up can get another index without being flagged as changed (`src/gateway.c:486-491`);
  changes of its gateway always are flagged (`src/egressTypes.h:100-109`). After a call the route for tunnel traffic
  leads through the best interface if and only if the choice changed, the interface was flagged, or the way through it
  is the same; so a new index alone leaves the old route in place
  (`Gateway.MultiGateway.HandleEgress`, `Gateway.UnflaggedIndexStrands`).
* When an egress interface only goes up or down its own routes are not updated, because they follow the
  flags for its gateway and its network (`Gateway.UpOrDownNeedsFlags`).
* When the best overall link stays the same egress interface and that interface gets another gateway, the override
  pair keeps the old one, because only the links are compared (`src/gateway.c:1620`). The pair stays right
  exactly if the link moved or the way through it is the same (`Gateway.NewGatewayStrands`, `Gateway.OverriddenIff`,
  `Gateway.Run`).
* A packet that arrives after its successors is counted as sent a second time (`EtxFf.LateCounts`).
* `mpr_changes` reports new relays and not lost ones (`LqMpr.CalculateLqMpr`).
* `insert_mid_tuple` keeps the two tables inverse to each other exactly if the alias is not registered;
  all its callers see to that (`MidSet.AddKeepsInverseIff`).
* A MID message without aliases drops all aliases of its originator, also unexpired ones
  (`MidSet.ProcessedOwner`). A node loses its aliases to a message only if the message declares that node itself as
  an alias while it is in the neighbour table (`MidSet.OwnersAfterLaw`). An alias that is a neighbour puts the
  originator in its place there, so a message that goes on to declare its own originator forgets that alias again
  (`MidSet.SelfDeclarationFrees`).
* The 8-bit cast of a measured link quality loses nothing in any run with fewer than b packets on a link between two
  ticks if and only if b is at most 256; with 256 of them a 16-bit counter can wrap (`EtxFf.SafePackets`).
* Both one byte codecs give back a code exactly if it is canonical (`GwSpeed.CanonicalCodes`,
  `Mantissa.CodeRoundTrip`).

## Model

| member | source | states |
|---|---|---|
| `Topology.SmallGraphsDoNotWrap` | src/olsr_spf.c:285 | if as many edges as there are vertices cost less than ROUTE_COST_BROKEN together, no shortest walk plus an edge reaches it |
| `Topology.LongLinesWrap` | src/olsr_spf.c:285 | otherwise there is a topology of that size in which such a sum is out of range |
| `Topology.WrapFreeSizes` | src/lq_plugin.h:52-53 | with edge costs up to c all topologies of n vertices keep their sums in range if and only if n * c is below ROUTE_COST_BROKEN |
| `Topology.NoWrapIsHarmless` | src/olsr_spf.c:285-296 | where all sums stay in range no sum is below the distance of its end |
| `Topology.SmallGraphsAreHarmless` | src/olsr_spf.c:285-296 | if as many edges as there are vertices cost less than 2^32 together, wrap-around is harmless |
| `Topology.LongLinesHarm` | src/olsr_spf.c:285-296 | otherwise there is a topology of that size in which a wrapped sum is below the distance of its end |
| `Topology.HarmlessSizes` | src/lq_plugin.h:52-53 | with edge costs up to c wrap-around is harmless in all topologies of n vertices if and only if n * c is below 2^32 |
| `Topology.SizesBelowBroken` | src/lq_plugin.h:52-53 | with all costs below LINK_COST_BROKEN possible, both bounds are 1024 vertices |
| `Spf.Frontier` | src/olsr_spf.c:347-362 | between two passes every walk from the root that costs less than ROUTE_COST_BROKEN ends in a settled vertex that is not costlier, or some candidate is at most as far as its end |
| `Spf.CheapestIsShortest` | src/olsr_spf.c:347-362 | the cheapest candidate is at its final distance and a walk explains its cost, hops and next hop |
| `Spf.SettleFinal` | src/olsr_spf.c:347-362 | once the cheapest candidate is settled, no walk that ends elsewhere is cheaper than it, and none that ends in a settled vertex is cheaper than that vertex |
| `Spf.SettledIsFinal` | src/olsr_spf.c:296-308 | a vertex that a sum without wrap-around can still improve is not settled, and it is a candidate exactly if it has a path cost |
| `Spf.QueuedIfReached` | src/olsr_spf.c:298-308 | without wrap-around a decrease of a key always finds its vertex in the queue, and never the vertex being relaxed |
| `Spf.HarmlessIsQueued` | src/olsr_spf.c:298-308 | where wrap-around is harmless a decrease of a key always finds its vertex in the queue |
| `Spf.MissingIsHarm` | src/olsr_spf.c:298-308 | a key that is to be lowered belongs to a vertex outside the queue only where wrap-around does harm |
| `Spf.WrapSpoils` | src/olsr_spf.c:285-314 | a wrapped sum that replaces a path cost makes it less than the distance, and such a topology is not harmless |
| `Spf.LineIsSpoiled` | src/olsr_spf.c:285-314 | on a line of more than 1024 vertices with the highest costs, relaxing the edge back out of vertex 1024 lowers the settled vertex 1023 to 4193279 |
| `Spf.RelaxEdgeKeeps` | src/olsr_spf.c:257-324 | relaxing one edge keeps the whole invariant of the run, or spoils a path cost, and the latter only where wrap-around does harm |
| `Spf.RelaxEdgeLawful` | src/olsr_spf.c:257-324 | the alternative persists: settled vertices and candidates stay apart, a spoiled path cost stays spoiled, and without harm the invariant is kept |
| `Spf.PassStarts` | src/olsr_spf.c:347-349 | taking the cheapest candidate, from either queue, starts its relaxation in a lawful state |
| `Spf.PassKeeps` | src/olsr_spf.c:347-362 | one pass of the main loop settles one vertex and keeps the alternative between invariant and spoiled path cost |
| `Spf.InitialLawful` | src/olsr_spf.c:421-452 | the prepared vertices with our own one queued satisfy the invariant |
| `Spf.Finish` | src/olsr_spf.c:341-363 | with an empty queue, where wrap-around is harmless, all path costs are minimal over all walks, and the path list holds every reachable vertex once, nearest first |
| `Spf.SpoiledIsWrong` | src/olsr_spf.c:285-314 | a run with a path cost below the distance is not correct |
| `Spf.CorrectIsHarmless` | src/olsr_spf.c:285-314 | a correct run that kept its invariant shows that wrap-around is harmless |
| `Spf.CorrectIffHarmless` | src/olsr_spf.c:341-363 | a finished run is correct if and only if wrap-around is harmless in its topology |
| `Spf.RunsAgree` | src/olsr_spf.c:219-230 | two finished runs have the same path costs and the same vertices on the path list, whatever ties they broke |
| `Spf.EnteredBothWays` | src/olsr_spf.c:257-308 | no dead ends: every vertex that is routed to is entered over a link from another one that is, which makes up the rest of its path cost and has an edge back |
| `Spf.LeftBothWays` | src/olsr_spf.c:257-308 | every link with an edge back out of a vertex that is routed to leads to one that is, at most as far as the link allows |
| `Spf.RoutesFollowShortestWalks` | src/olsr_spf.c:311-314 | in every topology a route belongs to a shortest walk whose first vertex has the recorded next hop and whose length is `hops` modulo 256; up to 256 vertices `hops` is its length |
| `Spf.HopsWrap` | src/olsr_spf.c:314 | on a line of more than 256 vertices the vertex 256 hops away is recorded with 0 hops |
| `Spf.Run.constructor` | src/olsr_spf.c:408-429 | all vertices are unreachable, and the run starts in its initial state |
| `Spf.Run.Begin` | src/olsr_spf.c:445-502 | our own vertex has cost zero and is the only candidate, and the neighbours have their next hops |
| `Spf.Run.AddCandSet` | src/olsr_spf.c:105-129 | the vertex joins the queue with its path cost, in the heap or in the tree |
| `Spf.Run.DelCandTree` | src/olsr_spf.c:138-151 | the vertex and nothing else leaves the tree |
| `Spf.Run.DecreaseKey` | src/olsr_spf.c:160-186 | path cost and key change together, in the heap or in the tree; a vertex that is not in the heap only changes its path cost |
| `Spf.Run.ExtractBest` | src/olsr_spf.c:219-230 | some candidate with the least key, removed by the heap only; none exactly if the queue is empty |
| `Spf.Run.Improve` | src/olsr_spf.c:298-314 | new cost, next hop and 8-bit hop count of one vertex, and its place in the queue |
| `Spf.Run.Relax` | src/olsr_spf.c:240-325 | the loop over the edges computes the specified relaxation of all of them; a run with the tree is lost exactly if some edge lowers the cost of a vertex that has one and is not in the tree |
| `Spf.Run.PassOver` | src/olsr_spf.c:347-362 | relaxation, removal from the tree and the path list make one specified pass; the run is lost exactly if the tree meets an edge that lowers the cost of a vertex it does not hold |
| `Spf.Run.RunFull` | src/olsr_spf.c:341-363 | every run goes through specified passes to an empty queue, or with the tree to a state from which a pass loses it; that happens only where wrap-around does harm, and a run that is not lost is correct if and only if wrap-around is harmless |
| `Spf.RunOne` | src/olsr_spf.c:375-518 | the same for a run from its preparation to its end |
| `Spf.RunBoth` | src/olsr_spf.c:341-363 | a run with the heap and a run with the tree end with the same costs and the same vertices |
| `HeapShape.PerfectLog2` | src/common/heap.c:83-88 | the result is zero exactly for powers of two |
| `HeapShape.RiseStep` | src/common/heap.c:153-199 | swapping a key with the greater one above keeps everything else in order |
| `HeapShape.SinkStep` | src/common/heap.c:329-344 | swapping a key with the least one below keeps everything else in order |
| `HeapShape.RootIsLeast` | src/common/heap.c:385 | in an ordered heap no key is less than the one at the root |
| `BinHeap.DescendLeft` | src/common/heap.c:105-107 | walking left from a node above the free place ends at its future parent |
| `BinHeap.NextParent` | src/common/heap.c:114-123 | climbing from the last node and descending finds the parent of the free place, and no pointer on the way is null |
| `BinHeap.PreviousLast` | src/common/heap.c:366-372 | climbing from the parent of a removed left child and descending finds the new last node |
| `BinHeap.FindParentInsertNode` | src/common/heap.c:98-130 | the result is the node above the first free place in level order |
| `BinHeap.FindLastNode` | src/common/heap.c:353-375 | the result is the last node in level order after a left child was removed |
| `BinHeap.MoveUp` | src/common/heap.c:154-195 | the pointers of all nodes are those of the tree in which a node and its parent have exchanged places |
| `BinHeap.MoveDown` | src/common/heap.c:240-310 | the same for a node and its left or right child |
| `BinHeap.SwapShape` | src/common/heap.c:154-195 | such an exchange turns a complete tree into the complete tree of the swapped sequence |
| `BinHeap.Raise` | src/common/heap.c:154-195 | a node that takes the place of its parent leaves a complete tree |
| `BinHeap.Lower` | src/common/heap.c:240-310 | a node that goes below a child leaves a complete tree |
| `BinHeap.ChooseChild` | src/common/heap.c:326-344 | the least child that is less than the node, or none and then the heap is in order |
| `BinHeap.Append` | src/common/heap.c:221-226 | linking a node at the free place gives the complete tree with one more node |
| `BinHeap.DropLast` | src/common/heap.c:399-407 | unlinking the last node leaves the complete tree without it |
| `BinHeap.ReplaceRoot` | src/common/heap.c:408-416 | a node takes over the children of the root |
| `BinHeap.Heap.constructor` | src/common/heap.c:60-64 | an empty, valid heap |
| `BinHeap.Heap.RaiseAll` | src/common/heap.c:153-199 | the loop ends with an ordered complete tree |
| `BinHeap.Heap.DecreaseKey` | src/common/heap.c:139-200 | restores a valid heap, including the pointers to the root and the last node, and leaves a node without parent alone |
| `BinHeap.Heap.LowerKey` | src/olsr_spf.c:178-181 | a lower key leaves a valid heap of the same nodes, also for a node that is not in it |
| `BinHeap.Heap.SwapWithChild` | src/common/heap.c:240-315 | the tree stays complete, and the pointers to the root and the last node follow |
| `BinHeap.Heap.IncreaseKey` | src/common/heap.c:324-345 | restores a valid heap after the key at one place became too great |
| `BinHeap.Heap.Insert` | src/common/heap.c:208-232 | a valid heap with exactly one more node |
| `BinHeap.Heap.ExtractMin` | src/common/heap.c:383-423 | returns a node with the least key, without pointers, and leaves a valid heap of all others; null exactly if the heap is empty |
| `BinHeap.Heap.IsNodeAdded` | src/common/heap.h:137-149 | true exactly for the nodes in the heap, if all others have no pointers |
| `CandHeap.HeapQueue.Add` | src/olsr_spf.c:121-125 | the queue, as a map from vertices to costs, gains one vertex |
| `CandHeap.HeapQueue.Decrease` | src/olsr_spf.c:178-181 | the cost of a queued vertex changes in the map, and a vertex that is not queued changes nothing in it |
| `CandHeap.HeapQueue.Extract` | src/olsr_spf.c:222-225 | a vertex with the least cost leaves the map |
| `Framing.Net16RoundTrip` | src/net_olsr.c:352-354 | 16-bit numbers survive network byte order |
| `Framing.SplitOfMessages` | src/parser.c:304-403 | well-formed messages, followed by no further one, are split into exactly those messages |
| `Framing.SplitIsMaximal` | src/parser.c:304-403 | any packet body is its well-formed messages in a row and a rest that does not start with one |
| `Framing.ParsePacket` | src/parser.c:264-403 | the walk visits consecutive stretches, which are exactly the messages among as many bytes as the 32-bit count says, and lie within the datagram if it has a header; a wrong length drops the packet |
| `Framing.WalkSplits` | src/parser.c:304-403 | the stretches of a walk follow one another within the given bytes and are the messages in them |
| `Framing.ShortDatagramIsLeft` | src/parser.c:267-300 | a datagram of two bytes that announces two bytes makes the walk visit bytes behind it |
| `Framing.InsideIff` | src/parser.c:264-300 | for any datagram, the walk stays inside it for every content of the bytes behind it if and only if it has a whole header or cannot announce its own length |
| `Framing.NetBuf.Push` | src/net_olsr.c:216-225 | appends a whole message to the pending ones or refuses and changes nothing |
| `Framing.NetBuf.Output` | src/net_olsr.c:333-407 | sends the pending messages, whole and in order, as one packet that announces its length and carries the next 16-bit packet number, and empties the buffer |
| `Framing.PushAll` | src/net_olsr.c:216-225 | the messages up to the first refused one follow the pending ones |
| `Framing.SendAndParse` | src/parser.c:264-403 | sending the buffer and parsing all packets gives back exactly the accepted messages, in order |
| `Framing.ReceiveAll` | src/parser.c:264-403 | all messages ever accepted come back whole and in order from the packets of an interface, however they were spread over them |
| `Framing.ParseBatch` | src/parser.c:304-403 | a packet of well-formed messages is parsed into exactly those messages |
| `HelloFormat.CodeRoundTrip` | src/process_package.c:360-361 | a link code gives back its neighbour type and link type |
| `HelloFormat.CodeBits` | src/olsr_protocol.h:172-176 | bits 0 and 1 of a link code are the link type, bits 2 and 3 the neighbour type, and the others are zero |
| `HelloFormat.DecodeRoundTrip` | src/process_package.c:343-366 | reading a HELLO body gives every written neighbour with its types and its link quality, in order |
| `HelloFormat.PatchFinishes` | src/lq_packet.c:470-471 | writing the size field finishes the last group of a body |
| `HelloOrder.AnnouncedOnce` | src/lq_packet.c:394-473 | in group order every neighbour with a listed type pair occurs as often as in the list, and no other one does |
| `HelloOrder.ExpectedCovers` | src/lq_packet.c:366-388 | the size estimate covers all groups and all neighbours |
| `Hello.HelloRoundTrip` | src/process_package.c:314-368 | the receiver reads from a message exactly the neighbours written into it |
| `Hello.HelloWellFormed` | src/parser.c:308-352 | every HELLO passes the checks of the message walk |
| `Hello.HeaderRoundTrip` | src/lq_packet.c:295-346 | type, validity time, originator, hop count, time to live, number, interval and willingness of a HELLO are read back where other nodes look for them |
| `Hello.ExpectedSize` | src/lq_packet.c:366-383 | the loops compute an entry for every neighbour and a header for every type pair that occurs |
| `Hello.Writer.PushMessage` | src/lq_packet.c:423-434 | the message is exact and its push is never refused |
| `Hello.Writer.Serialize` | src/lq_packet.c:325-484 | all messages together deliver every neighbour once in group order, however often the buffer fills, and every packet holds whole messages; one message if everything fits |
| `Hello.Writer.StartLq` | src/lq_packet.c:357-388 | what is pending is sent first if the whole HELLO does not fit behind it |
| `Hello.Writer.StartClassic` | src/build_msg.c:265-277 | the classic IPv4 serializer does so if not even its headers fit |
| `Hello.MessagesDeliver` | src/process_package.c:314-368 | a sequence of messages delivers exactly what was written into them |
| `Hello.MessagesWellFormed` | src/parser.c:308-352 | all messages of a HELLO pass the checks of the message walk |
| `Hello.SendAndReceive` | src/lq_packet.c:325-484 | serializing, sending, parsing all packets and deserializing gives every listed neighbour once, in group order |
| `Borders.CalculateBorderFlag` | src/lq_packet.c:487-513 | zero for equal addresses, else one plus the index of the top bit in which they differ |
| `Borders.BorderSeparates` | src/lq_packet.c:487-513 | clearing the bits below the top difference in the greater address gives a number above the lesser one |
| `Borders.CalculateTcBorder` | src/tc_set.c:726-760 | the loops compute the border of an address, or leave the range open for 0xff |
| `Borders.FlagInside` | src/tc_set.c:735-744 | after the 8-bit decrement a flag names a byte of the address if and only if it is from 1 to 8 times the address size |
| `Borders.AdjacentBordersAgree` | src/tc_set.c:726-760 | the receivers of two adjacent fragments derive the same border from the shared flag, and it separates the fragments |
| `LqTc.TcRoundTrip` | src/lq_packet.c:516-618 | a receiver reads from a TC message exactly the fragment written into it, with its borders |
| `LqTc.TcWellFormed` | src/parser.c:308-352 | every TC message passes the checks of the message walk |
| `LqTc.HeaderRoundTrip` | src/lq_packet.c:295-323 | type, validity time, originator, hop count, time to live and number of a TC, and the number of its neighbour set, are read back where other nodes look for them |
| `LqTc.Writer.Flush` | src/lq_packet.c:575-596 | a full fragment is sent with the border between its last and the next neighbour, and that border is kept for the next fragment |
| `LqTc.Writer.Serialize` | src/lq_packet.c:516-618 | the fragments carry the neighbours once and in order, the outermost borders are open, adjacent fragments share their border, and every packet holds whole messages; one fragment if everything fits |
| `LqTc.MessagesDeliver` | src/lq_packet.c:516-618 | the messages deliver exactly the fragments |
| `LqTc.SendAndReceive` | src/lq_packet.c:516-618 | serializing, sending, parsing all packets and deserializing gives fragments that carry the neighbours once and in order, with open outermost and shared inner borders, and all of them the number of the neighbour set |
| `DuplicateSet.DiffIsDistance` | src/duplicate_set.c:102-113 | for numbers less than half the range apart the wrapped difference is the true one |
| `DuplicateSet.PositionIsTrue` | src/duplicate_set.c:102-113 | as long as a sender stays within half the range of the newest number, the positions are its own unbounded numbers |
| `Words.ShiftLeftIsProduct` | src/duplicate_set.c:184-185 | the shift of the window is the product with a power of two in a 32-bit word |
| `DuplicateSet.StepKeeps` | src/duplicate_set.c:116-193 | bit i of the window is set exactly if position head - i was accepted since the entry was created or restarted |
| `DuplicateSet.AcceptedIsNew` | src/duplicate_set.c:174-192 | an accepted position was not recorded before |
| `DuplicateSet.BlockedIff` | src/duplicate_set.c:159-180 | a message is blocked exactly if it is recorded, or too old and not the one that causes a restart |
| `DuplicateSet.ReplayInv` | src/duplicate_set.c:116-193 | the invariant holds in every run |
| `DuplicateSet.AcceptedOnce` | src/duplicate_set.c:116-193 | between restarts no position is accepted twice, apart from one extra acceptance of the creating number |
| `DuplicateSet.CreatingNumberTwice` | src/duplicate_set.c:74-86 | the creating number is accepted once more and then blocked |
| `DuplicateSet.TooOldRestarts` | src/duplicate_set.c:159-171 | too old messages in a row are blocked until the counter passes 16, and that one is a restart |
| `DuplicateSet.CounterIs` | src/duplicate_set.c:159-193 | in every run the counter of an entry is at most 16 and counts too old messages that came in a row just now, from 0 or, after a cleanup, from 14 |
| `DuplicateSet.RestartIff` | src/duplicate_set.c:159-171 | a message restarts an entry if and only if it is too old and follows 16 others in a row, or two others in a row after a cleanup |
| `DuplicateSet.DuplicateTable.MessageIsDuplicate` | src/duplicate_set.c:116-193 | the first message of an originator is new; any later one changes its own entry only, as specified |
| `DuplicateSet.DuplicateTable.CleanupDuplicates` | src/duplicate_set.c:64-71 | the entry of a restarted originator allows two more too old messages |
| `Flooding.AgedKeepsSum` | src/olsr.c:328-372 | ageing keeps hop count plus time to live without 8-bit wrap-around |
| `Flooding.Enqueue` | src/olsr.c:385-408 | the message, whole, follows everything pending, which is sent first if it does not fit |
| `Flooding.SendOut` | src/olsr.c:378-409 | every interface that the message may leave through gets it exactly once, the others nothing |
| `Flooding.ForwardMessage` | src/olsr.c:315-411 | a message is forwarded exactly if it comes from a symmetric neighbour that selected us and is new; then every interface gets exactly one copy, one hop older and otherwise unchanged, unless its time to live is used up or it came in through that ether interface; the duplicate entry of its originator, and no other, notes it |
| `Flooding.EmitAllFits` | src/olsr.c:378-409 | a node that forwards puts no more copies on the air than it has links |
| `Flooding.DeliverShrinks` | src/olsr.c:315-411 | every delivery of a flooded message uses up some of a bounded measure |
| `Flooding.RunKeeps` | src/olsr.c:315-411 | in every run the duplicate entries account for all forwards and all copies keep their age sum |
| `Flooding.FloodingEnds` | src/olsr.c:315-411 | in every finite mesh flooding ends after at most two deliveries for each link beyond the first copies, no node forwards more than twice, and every copy has the same hop count plus time to live |
| `Flooding.EmitReaches` | src/olsr.c:378-409 | a copy that can still travel is passed on to everybody who hears the node |
| `Flooding.FloodingReaches` | src/olsr.c:315-411 | when a flooding has ended, it has reached every node that a chain of hearers connects to a first receiver, if its time to live was more than twice the number of nodes |
| `LqMpr.FindBest` | src/lq_mpr.c:138-145 | the cheapest symmetric connector that is not marked, if one is below LINK_COST_BROKEN |
| `LqMpr.NextIsCheapest` | src/lq_mpr.c:138-156 | adding the cheapest unmarked connector keeps the choice a cheapest one |
| `LqMpr.MarkRelays` | src/lq_mpr.c:134-163 | the coverage loop chooses as many of the cheapest candidates as are wanted and available |
| `LqMpr.SelectRelays` | src/lq_mpr.c:89-163 | a symmetric two-hop neighbour only gets relays that are cheaper than its direct link |
| `LqMpr.Remember` | src/lq_mpr.c:60-83 | only always willing symmetric neighbours stay relays, and the previous ones are remembered |
| `LqMpr.CalculateLqMpr` | src/lq_mpr.c:51-169 | the relays are exactly the always willing ones and the cheapest candidates of every two-hop neighbour; a change is reported exactly if some relay was none before |
| `LqMpr.CoversMeans` | src/lq_mpr.c:89-163 | every relay chosen for a two-hop neighbour is on a way that is not broken and beats the direct link, there are no more than wanted, and a neighbour on such a way is left out only for as many relays as wanted on ways that cost no more |
| `MidSet.PutImplements` | src/mid_set.c:152-201 | inserting into a bucket refines inserting into a map, for any hash function |
| `MidSet.RemoveImplements` | src/mid_set.c:494-524 | unlinking from a bucket refines removal from a map |
| `MidSet.ReplaceImplements` | src/mid_set.c:412-486 | changing an item in a bucket refines an update of a map |
| `MidSet.InsertInverse` | src/mid_set.c:259-310 | inserting an alias keeps the tables inverse to each other |
| `MidSet.PruneInverse` | src/mid_set.c:412-486 | pruning keeps the tables inverse to each other |
| `MidSet.DeleteInverse` | src/mid_set.c:494-524 | deleting an entry removes exactly its aliases from the other table |
| `MidSet.AddKeepsInverseIff` | src/mid_set.c:152-201 | linking an alias keeps the tables inverse if and only if it is not registered |
| `MidSet.MidTables.LookupMainAddr` | src/mid_set.c:326-340 | the bucket walk agrees with the plain map from aliases to main addresses |
| `MidSet.MidTables.LookupAliases` | src/mid_set.c:349-375 | the bucket walk agrees with the plain map from main addresses to aliases |
| `MidSet.MidTables.InsertTuple` | src/mid_set.c:152-201 | links an unregistered alias into both tables, and removes the aliases of a neighbour from the neighbour table |
| `MidSet.MidTables.InsertAlias` | src/mid_set.c:259-310 | refuses invalid aliases and links the others; an alias that was a neighbour gives its place in the neighbour table to the main address |
| `MidSet.MidTables.DeleteEntry` | src/mid_set.c:494-524 | the entry and all its aliases leave both tables |
| `MidSet.MidTables.PruneAliases` | src/mid_set.c:412-486 | expired undeclared aliases leave both tables, declared ones are stamped |
| `MidSet.MidTables.InputMid` | src/mid_set.c:564-624 | a message from a symmetric neighbour is processed as specified, any other one changes nothing |
| `MidSet.MidTables.HelloTap` | src/process_package.c:415-425 | the sender of a HELLO becomes an alias of its main address if nobody else owns it |
| `MidSet.ProcessedOwner` | src/mid_set.c:564-624 | who owns an alias after any MID message, in terms of the message, the owners before, who is in the neighbour table when declared, and the age of an undeclared alias |
| `MidSet.ProcessedStamp` | src/mid_set.c:412-486 | after a message every declared alias of its originator carries the new time stamp |
| `MidSet.SecondMessage` | src/mid_set.c:412-486 | an alias that the first of two messages declares and the second one does not stays with their originator exactly as long as the stamp of the first has not timed out |
| `MidSet.InsertAllOwners` | src/mid_set.c:259-310 | the insertion loop changes the owners as a simple pass over the owner map does: a free alias goes to the originator, and the aliases of a neighbour that is declared become free |
| `MidSet.OwnersAfterLaw` | src/mid_set.c:259-310 | nobody loses an alias unless it is declared itself while in the neighbour table, nobody but the originator gains one, and every free declared alias goes to the originator unless it declares itself while in the neighbour table |
| `MidSet.NeighborsGrowByOne` | src/mid_set.c:277-294 | a message puts nobody but its originator into the neighbour table |
| `MidSet.KnownBefore` | src/mid_set.c:277-305 | whoever a message meets in the neighbour table was there before, or is its originator |
| `MidSet.SelfDeclarationFrees` | src/mid_set.c:277-305 | a message that declares a neighbour and then its originator loses the first alias again |
| `MidSet.Run` | src/mid_set.c:564-624 | after any run a lookup of an alias gives m exactly if the alias list of m holds the alias |
| `Gateway.ReprogramSound` | src/gateway.c:1740-1752 | reprogramming one tracked route leaves no untracked route in the kernel |
| `Gateway.ReprogramIntact` | src/linux/kernel_routes_nl.c:341-460 | it loses no other active route from the kernel, apart from the two routes of an interface that share one kernel entry |
| `Gateway.IntactMirrors` | src/linux/kernel_routes_nl.c:341-460 | without such an interface the kernel entries and the active tracked routes correspond one to one |
| `Gateway.SharedIsNoMirror` | src/egressFile.c:642-690 | with such an interface they do not |
| `Gateway.NetworkEverywhere` | src/egressFile.c:642-690 | the network 0.0.0.0/0 shares the kernel entry of the default route: with a gateway the latter replaces it, without one the removal of either removes both |
| `Gateway.WeighRange` | src/gateway_costs.c:11-41 | costs never exceed INT64_MAX, and are INT64_MAX exactly if the interface is down or lacks bandwidth that counts |
| `Gateway.WeighShrinks` | src/gateway_costs.c:11-41 | more bandwidth and a lesser path cost never cost more |
| `Gateway.WeightsCount` | src/gateway_costs.c:11-41 | the bandwidth of a direction without weight does not matter |
| `Gateway.ChooseEgress` | src/gateway.c:1536-1557 | the chosen interface is the cheapest one that is up, the first among equals, and none is chosen exactly if none can be used |
| `Gateway.UpOrDownNeedsFlags` | src/gateway.c:1900-1940 | after a mere up or down change the routes of an interface are right exactly if its gateway, and its network if it has one, are flagged too |
| `Gateway.InterfaceRoutes` | src/gateway.c:1900-1940 | an interface has a default route through its gateway exactly if it is up and usable, and then also a route to its network if it declares one |
| `Gateway.MultiGateway.DetermineBestEgressLink` | src/gateway.c:1534-1576 | the best egress link is the best usable interface or none, and a change is reported exactly if the choice changed or the chosen interface is flagged as changed |
| `Gateway.MultiGateway.DetermineBestOverallLink` | src/gateway.c:1588-1621 | the cheaper one of egress interface and olsr gateway, the former when equal; the assertion in the last branch holds |
| `Gateway.MultiGateway.SetupOverrideRoutes` | src/gateway.c:1728-1753 | the override pair goes through the best link or is inactive, in step with the kernel |
| `Gateway.MultiGateway.ConfigureBestEgressLinkRoute` | src/gateway.c:1848-1887 | the default route for tunnel traffic leads through the best egress interface, and is a blackhole without one |
| `Gateway.MultiGateway.ConfigureEgressLinkRoutes` | src/gateway.c:1895-1974 | for any networks, each route of an interface follows its flag or the phase |
| `Gateway.MoveOnFollows` | src/gateway.c:1895-1974 | so the routes of an interface become the wanted ones exactly if every wrong one was flagged |
| `Gateway.MultiGateway.DoRoutesMultiGw` | src/gateway.c:2170-2223 | after startup and runtime calls the kernel holds exactly the active tracked routes if and only if no interface has two routes for one entry, after shutdown nothing; the best links are the best ones, the override pair goes through the best overall link, tunnel traffic through the best egress link, and the routes of the interfaces follow their flags |
| `Gateway.MultiGateway.HandleEgress` | src/gateway.c:2170-2223 | the route for tunnel traffic still leads through the best interface exactly if the choice changed, the interface was flagged, or the way through it is the same |
| `Gateway.UnflaggedIndexStrands` | src/gateway.c:486-491 | an unflagged new index of the chosen interface is none of these |
| `Gateway.MultiGateway.Handle` | src/gateway.c:2170-2223 | after a runtime call the best usable interface is chosen and, if changes are flagged truthfully, the default route for tunnel traffic still leads through it |
| `Gateway.LeadsIs` | src/gateway.c:1848-1887 | the default route for tunnel traffic then has the index and the gateway of the chosen interface, and is a blackhole without one |
| `Gateway.OverriddenIff` | src/gateway.c:1588-1753 | an override pair that was right stays so exactly if the best overall link moved or the way through it is the same |
| `Gateway.NewGatewayStrands` | src/gateway.c:1588-1621 | another gateway of an interface that stays the best link is neither |
| `Gateway.Run` | src/gateway.c:2170-2223 | in every run from startup to shutdown, whatever is measured, each call chooses the best usable interface, leaves one default route for tunnel traffic, which leads through that interface if changes are flagged truthfully, and both override routes or none; these go through the best overall link after all calls if and only if each time that link moved or the way through it stayed the same; the routes of the interfaces are those that follow from the measurements, and the kernel mirrors the active routes in all calls if and only if these never leave an interface with two routes for one entry; and the last kernel is empty |
| `Gateway.AllOverriddenIff` | src/gateway.c:1588-1753 | the override pair is right after all calls of a run if and only if it follows in each of them |
| `Gateway.UnsharedIff` | src/gateway.c:1895-1974 | whether some call leaves an interface with two routes for one entry follows from the measurements alone |
| `Gateway.SharesAtStart` | src/egressFile.c:642-690 | at startup that is so exactly for an interface that is up and usable and declares the network 0.0.0.0/0 |
| `Gateway.NarrowNeverShares` | src/egressFile.c:642-690 | it is never so for an interface whose measured networks are others |
| `GwSpeed.Serialize` | src/gateway.c:176-196 | the loop computes the specified code, which fits a byte |
| `GwSpeed.Deserialize` | src/gateway.c:145-168 | the loop computes the specified speed, at most the maximum |
| `GwSpeed.EncodeDecode` | src/gateway.c:145-196 | less than a quarter of a speed is lost, and encoding the decoded speed gives the same byte |
| `GwSpeed.ReservedCodes` | src/gateway.c:176-189 | code 0 comes only from speed 0 and code 255 only from the maximum on |
| `GwSpeed.DecodeBound` | src/gateway.c:145-168 | no byte decodes to more than the maximum |
| `GwSpeed.CanonicalCodes` | src/gateway.c:145-196 | which bytes the encoder gives back from their own speed |
| `Mantissa.FindExponent` | src/mantissa.c:74-78 | the loop brackets the scaled time between two powers of two, with shifts below the word size |
| `Mantissa.ComputeMantissa` | src/mantissa.c:117-121 | both formulas give the mantissa of the greatest code up to the time |
| `Mantissa.RelTimeToMe` | src/mantissa.c:59-129 | the code stands for the greatest representable time up to the given one, with a least and a greatest code outside the range |
| `Mantissa.EncodesOnce` | src/mantissa.c:59-129 | that determines the code |
| `Mantissa.EncodesGreatest` | src/mantissa.c:59-129 | no other code up to the time is worth more |
| `Mantissa.DecodeRoundsDown` | src/mantissa.c:167-176 | decoding rounds the value of a code down, and not at all for exponents from 5 on |
| `Mantissa.DecodedIsClose` | src/mantissa.c:167-176 | what comes back is at most the time and less than a sixteenth and a millisecond below it, 66 for very short and 3968000 for very long times |
| `Mantissa.RoundTripGrows` | src/mantissa.c:58-176 | a longer time never comes back shorter |
| `Mantissa.CodeRoundTrip` | src/mantissa.c:58-176 | which codes come back from their own time; all with exponents from 5 on |
| `EtxFf.CostRange` | src/lq_plugin_default_ff.c:280-296 | a cost is LINK_COST_BROKEN below the useful quality, else in [1024, 106536], and 1024 only for a perfect link |
| `EtxFf.CostShrinks` | src/lq_plugin_default_ff.c:280-296 | a better link never costs more |
| `EtxFf.HarmlessSizes` | src/lq_plugin_default_ff.c:280-296 | with the costs of this metric wrap-around is harmless in all topologies of n vertices if and only if n is at most 40314 |
| `EtxFf.QualityFits` | src/lq_plugin_default_ff.c:256-260 | with no more packets received than sent the 8-bit cast loses nothing, and 255 means no loss at all |
| `EtxFf.CalmCasts` | src/lq_plugin_default_ff.c:218-267 | while every slot counted fewer than 256 packets none counts more received than sent, and the cast loses nothing |
| `EtxFf.QualityIsClose` | src/lq_plugin_default_ff.c:256-260 | the quality is the share of received packets in 255ths times the multiplier, less the rounding of two divisions |
| `EtxFf.RemainingIs` | src/lq_plugin_default_ff.c:236-249 | more than one missed hello takes a 32nd of the received packets away for each second missed, and all of them from 32 seconds on |
| `EtxFf.Link.constructor` | src/lq_plugin_default_ff.c:392-403 | a new link is valid and broken, with an empty window |
| `EtxFf.Link.ReceivePacket` | src/lq_plugin_default_ff.c:169-211 | 16-bit counters of the active slot change as specified, and nothing does on a repeated number; with fewer than 256 packets a slot never counts more received than sent |
| `EtxFf.DiffIsDistance` | src/lq_plugin_default_ff.c:195-204 | across the 16-bit wrap-around the difference of two numbers is their distance up to 256, and one beyond |
| `EtxFf.HeardCounts` | src/lq_plugin_default_ff.c:188-211 | the next packet counts as received, and it and all that are missing before it as sent |
| `EtxFf.LateCounts` | src/lq_plugin_default_ff.c:188-211 | a packet that comes late counts as received and sent once more |
| `EtxFf.CountersCount` | src/lq_plugin_default_ff.c:188-211 | over any packets that come in order, received grows by their number and total by the distance from the last number before to the last of theirs |
| `EtxFf.LossIsCounted` | src/net_olsr.c:351-354 | of the packets that a buffer sends, with up to 255 lost in a row, the receiver counts as received those that came and as sent all of them |
| `EtxFf.Link.LosePacket` | src/lq_plugin_default_ff.c:345-354 | only the counter of missed hellos changes |
| `EtxFf.Link.MemorizeForeignHello` | src/lq_plugin_default_ff.c:357-367 | only the raw quality of the other direction changes |
| `EtxFf.Link.MeasureQuality` | src/lq_plugin_default_ff.c:218-267 | the raw quality is the one of the window, cast to 8 bits; then the window moves on to an empty slot |
| `EtxFf.Adopt` | src/lq_plugin_default_ff.c:115-143 | a link follows its raw quality exactly if the smoothed one is not close to it |
| `EtxFf.HandleLqChange` | src/lq_plugin_default_ff.c:107-166 | routes are computed anew exactly if some link had moved too far; afterwards every smoothed quality is close to the raw one and every cost belongs to it |
| `EtxFf.Timer` | src/lq_plugin_default_ff.c:214-270 | after every tick all raw qualities are measured from the windows, every smoothed quality is close to its raw one, and routes are computed anew exactly if some link had moved too far |
| `EtxFf.Run` | src/lq_plugin_default_ff.c:107-270 | in every run each link goes through exactly the states that its events prescribe, counters and costs stay consistent, and after a tick all smoothed qualities are close |
| `EtxFf.RunCounts` | src/lq_plugin_default_ff.c:169-211 | between two ticks of a run the counters of a link grow in this way |
| `EtxFf.GentleNeverTruncates` | src/lq_plugin_default_ff.c:169-267 | with fewer than 256 packets on a link between two ticks, at any point of a run no slot counts more packets received than sent and the cast of a tick loses nothing |
| `EtxFf.BurstTruncates` | src/lq_plugin_default_ff.c:169-267 | 256 packets, each 256 numbers after the one before, wrap a 16-bit counter, and the next tick truncates the quality |
| `EtxFf.SafePackets` | src/lq_plugin_default_ff.c:169-267 | on new links, fewer than b packets between two ticks are safe from truncation in all runs if and only if b is at most 256 |

## Left out

- Spf.Run.ExtractBest: for the AVL tree any candidate with the least key may come, since the balancing code of `src/common/avl.c` is not modelled.
- Spf.Run.DecreaseKey: what `avl_delete` does to a tree that does not hold the vertex; a run that comes to this is lost.
- Spf.RunOne: the backoff timer, a change of the main address and the upkeep of the edges to neighbours.
- Spf.Run.Begin: the neighbour table, the edges to neighbours and `get_best_link_to_neighbor` are not modelled; the next hops they set are an input.
- Framing.ParsePacket: message handlers and address checks that run during the walk; memory is long enough for the count, so the end of the receive buffer is not modelled.
- Framing.NetBuf.Output: packet transform functions of plugins, the reserved part of the buffer and socket errors.
- Hello.Writer.Serialize: classic HELLO messages without HIDE links and for IPv4 only; the message buffer is a sequence of its own, so its aliasing with other serializers is not captured.
- Borders.CalculateTcBorder: flags that name no byte of the address, for which the source writes outside of it.
- DuplicateSet.DuplicateTable.MessageIsDuplicate: the time until which an entry is valid, and its expiry.
- Flooding.FloodingReaches: meshes with ether interfaces, where a copy does not leave through the interface it came in by and so reaches only the nodes that did not hear its sender there.
- MidSet.MidTables.InsertTuple: timers, the routing table, the two-hop table and the links of neighbour entries.
- MidSet.MidTables.InsertAlias: the two-hop table, the routing table and the contents of neighbour entries; bucket chains are sequences, so their pointers are not captured.
- Gateway.MultiGateway.DoRoutesMultiGw: netlink calls succeed; the kernel dropping routes of a removed interface, the uplink and downlink announcements, the status file and the log are not modelled.
- EtxFf.Link.MeasureQuality: the reset of all links at shutdown.
- The classic TC, MID and HNA serializers and the IPv6 HELLO serializer would repeat the same proof with other headers.
- `src/mpr.c`, whose counters are cumulative, so that full coverage does not hold.
- The gateway list and its hysteresis, the floating point link metrics, HNA and routing table updates.
- Sockets, netlink, timers, configuration, plugins and logging.
