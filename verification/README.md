# A verified model of the software-defined exchange

A software-defined internet exchange lets every participant write forwarding policies over the prefixes
that the others announce. This project models the parts of the exchange that have to be right for that
to work, and proves what they promise. It is written in Dafny 4.11; `dafny verify dfyconfig.toml` checks
all of it.

* **Prefix sets and tags** (`Partition`, `Splitting`, `SetOperations`, `Labels`, `DivideAndConquer`,
  `Lcs`, `Pyretic`, `VnhAssignment`). The participants' prefix sets are cut into the coarsest partition
  from which every set can be rebuilt: in one process, by divide and conquer, and with several processes.
  Each block gets one tag, a virtual next hop, and prefix filters become tag filters. The lists are
  objects that are rewritten in place, as in the program.
* **The outgoing routing table** (`AdjRibOut`, `RibStore`), the Adj-RIB-Out of section 3.2 of RFC 4271: two
  indexes over the pending changes, a cache of what was sent, duplicate suppression and cancellation.
  The peer's table, with attributes and next hops, is a ghost value obtained by applying the emitted
  updates.
* **Address arithmetic and text** (`Powers`, `CidrBlocks`, `IpAddress`, `Collapse`, `Texts`, `Ipv4Text`,
  `Ipv6Text`, `Ipv6Address`) for a general address width: ranges, normal forms, subnets, exclusion; printing
  and parsing of addresses.
* **The route server** (`BestPath`, `Decision`, `DecisionRuns`, `RouteServer`, `Announcements`,
  `Reannouncements`): best-path selection, and the tables of all participants under every sequence of messages.
* **Three smaller machines** (`Composition`, `HealthCheck`, `Netlink`): the two-round policy pipeline with
  the state variables it relies on, the rise and fall of a checked service, and the netlink codec.

Where an algorithm works on objects or in loops, the model does too; each such method is proved against a
specification function or predicate, and the theorems are about that. `Wrappers` holds the two result
types.

Some properties hold only under a condition. Where the code fails without it, the condition is stated and,
unless said otherwise, proved to be exact, with an example where that helps:

* Labels made by joining names can coincide, and then sets are lost: `Labels.ExactIffNoClash`,
  `Labels.CoversIffNoClash`, `Labels.ClashExample`. Names of which none is a prefix of another are safe.
* Rewriting a filter that comes after a change of the tag or the destination can change the policy. That no
  filter does is sufficient for a whole policy (`VnhAssignment.ExpandPreservesMeaning`), and not necessary;
  the exact condition is proved for one change followed by one filter
  (`VnhAssignment.FilterAfterChangeIff`), with an example (`VnhAssignment.RetaggedBeforeFilter`).
* Duplicates are recognised by their attributes alone, so an announcement that only moves the next hop is
  held back when the next hop is not among the attributes (`AdjRibOut.MovedNextHopExample`). Pending changes
  are kept under an index that two address families can share, as a comment in the program fears; one of two
  such changes is lost (`AdjRibOut.HijackLosesOutcome`, `AdjRibOut.SharedIndexExample`). A reconnection brings
  back the routes of configured families only, and one for each index (`AdjRibOut.ReconnectRebuilds`,
  `AdjRibOut.SharedIndexReconnectExample`). With the cache on these are exactly the ways in which the peer's table
  comes to differ from the wanted one: `AdjRibOut.RunsConvergeIff`, `AdjRibOut.HistoriesConvergeIff`.
* A request for the routes of a family empties its cache before they are sent again, so that a withdrawal in
  between cancels the announcement as if it had never been sent, and the peer keeps the route:
  `AdjRibOut.ChangeDuringRefreshIff`, `AdjRibOut.WithdrawnDuringRefresh`.
* A route withdrawn while its announcement is queued makes the program look up the announced routes of a
  family that may have none: `AdjRibOut.InsertionRaisesIff`, `AdjRibOut.WithdrawnAtOnce`.
* The last step of the selection looks for the text of the lowest next hop and fails when the routes write
  it in another form: `BestPath.WhenSelectionFails`, `BestPath.ShortFormExample`.
* A prefix that is announced again leaves its old row in the table, which can win the selection:
  `Reannouncements.CurrentIff`, `Reannouncements.SupersededExample`.
* A withdrawal of a prefix that has no row reports an item without a route. The decisions pass over it, but
  the loop after them (`bgp/route_server.py:57-66`) reads its prefix and fails once any virtual next hop has
  been assigned: `DecisionRuns.UnknownWithdrawalIff`.
* A session that goes down leaves local tables with routes that are gone: `DecisionRuns.DownKeepsSettledIff`,
  `DecisionRuns.DownExample`.
* Tags of an earlier assignment stay in the tables unless their numbers are used again for the same
  participant: `VnhAssignment.AssignVnhs`.
* Names of participants that differ in case only share their states: `Composition.PortsLeadBackIff`,
  `Composition.SeenByOneOnly`, `Composition.PortLostExample`.
* A length field below the size of its own header is accepted: `Netlink.StreamRoundTripIff`,
  `Netlink.ShortLengthExample`. A length field of zero makes the decoder yield the same item for ever; the
  model reports that as an ending.

The comment on the selection calls the next hop the router ID; the model follows the code and compares next
hops (`bgp/decision_process.py:142-154`).

## Model

| member | source | states |
|---|---|---|
| Partition.SameBlockIffUnseparated | lib/set_operations.py:74-109 | two prefixes share a block exactly when no original set of any participant separates them |
| Partition.BlocksAreDisjoint | lib/set_operations.py:74-109 | any two blocks are equal or disjoint |
| Partition.SetIsUnionOfItsBlocks | lib/set_operations.py:74-109 | every original set is the union of blocks of its own participant's list |
| Partition.DecomposedFamily | lib/set_operations.py:101-109 | after a decomposition all lists together hold exactly the blocks, and every participant covers what it covered before |
| Partition.BlocksOfMerge | lib/set_operations.py:168-176 | the blocks of the blocks of two halves are the blocks of the whole: the step that makes divide and conquer exact |
| Partition.CutAgainstBlocks | lib/set_operations.py:184-194 | decomposing a list that was already partly decomposed together with the global blocks cuts it into those blocks and leaves the blocks alone |
| Splitting.RemoveOne | lib/set_operations.py:67-70 | removing the originals by value from a list to which the pieces have been appended touches neither the other sets nor the pieces |
| Splitting.SplitEqualises | lib/set_operations.py:56-68 | after visiting a key, sets that hold it are equal, and so are sets that shared a prefix on which all sets agreed |
| Splitting.SplitAdvances | lib/set_operations.py:79-95 | one visit keeps the loop invariant and settles one more key |
| Splitting.ProgressComplete | lib/set_operations.py:74-109 | once every listed key has been visited, in any order, every list is cut into the blocks |
| Splitting.SplitApart | lib/set_operations.py:61-70 | splitting a list of disjoint sets keeps it disjoint and without repetition |
| SetOperations.GetPdict | lib/set_operations.py:24-32 | the keys are exactly the prefixes of the sets with more than one prefix |
| SetOperations.DecomposeSet | lib/set_operations.py:49-71 | each list loses the sets that hold the key and gains the common part and the remainders, in place; other lists do not change |
| SetOperations.SplitOnKey | lib/set_operations.py:79-97 | one turn of the loop splits all sets along the common part of those that hold the key, also when the call is avoided |
| SetOperations.SoleHolder | lib/set_operations.py:94-98 | when a single set of a single participant holds the key, skipping the split changes nothing |
| SetOperations.DecomposeSimpler | lib/set_operations.py:74-109 | rewrites all lists in place into the blocks of all sets and returns exactly the blocks, whatever the order of the keys; lists without overlap stay without overlap |
| Labels.ExactIffNoClash | lib/set_operations.py:142-176 | the merged result is exact for all sets the participants may hold if and only if no two labels coincide on the way |
| Labels.PrefixFreeNeverClashes | lib/set_operations.py:150-154 | participants' names of which none is a prefix of another never make labels coincide, and the label of several is no participant's name |
| Labels.HalvesAt | lib/set_operations.py:168-169 | the two halves are the entries at even and at odd places |
| Labels.CoversIffNoClash | lib/set_operations.py:142-197 | the returned blocks cover all prefixes of all participants, for all sets they may hold, if and only if no two labels coincide |
| Labels.LabelIsNameIff | lib/set_operations.py:153 | without a clash the final label is the name of a participant exactly for a single participant, and for two of which one has the empty name |
| Labels.ClashExample | lib/set_operations.py:153 | participants "1", "12" and "2" lose sets: the label of the first and third is the name of the second |
| Labels.SomeOrder | lib/set_operations.py:144 | any listings of two key sets are part of some order of dictionary keys, so the condition on orders can be met |
| Labels.SomeOrderClashes | lib/set_operations.py:144-153 | some order of dictionary keys makes the labels of those three participants coincide |
| DivideAndConquer.DecomposeParallel | lib/set_operations.py:142-176 | terminates and returns, under the merged label, exactly the blocks of the participants whose labels survive; every list covers what it covered and is no finer than the global blocks. With a process pool: decompose_multi, lines 276-352 |
| DivideAndConquer.Spawned | lib/set_operations.py:320-338 | a spawned process works on copies: same result, the caller's lists untouched |
| DivideAndConquer.SolveHalves | lib/set_operations.py:320-342 | the two halves are solved in place or in processes, with the same results |
| DivideAndConquer.MergedResult | lib/set_operations.py:173-176 | decomposing the dictionary of the two results gives the result for the whole, also when the labels coincide |
| Lcs.LcsParallel | lib/set_operations.py:179-197 | if no labels coincide every participant's list becomes exactly the global blocks of its sets, in place, and the returned list is exactly the global blocks; in any case the returned list covers exactly the sets of the participants whose labels survive |
| Lcs.RecutCopy | lib/set_operations.py:371-395 | what a process of the second phase sends back: the participant's list cut against the blocks it was given, or those blocks where their label replaced the participant's entry |
| Lcs.LcsMultiprocess | lib/set_operations.py:355-403 | the multi-process version gives the blocks of the participants whose labels survive and, if no labels coincide, for every participant what its process sends back, in rounds of as many processes as there are processors |
| Lcs.SentExactIff | lib/set_operations.py:371-403 | without a clash the processes send back exactly the blocks of every participant, for all sets, if and only if there are not two participants of which one has the empty name |
| VnhAssignment.Sdx.Step4 | lib/vnh_assignment.py:349-366 | every block gets the next number, its address and MAC, and is entered for exactly the participants that list it; fails when the address pool runs out |
| VnhAssignment.AssignVnhs | lib/vnh_assignment.py:448-457 | if no labels coincide, decomposing and assigning gives every participant one tag for each block of its sets if and only if every number the participant had before, none on fresh tables, now names one of its blocks; it fails exactly when there are at least as many blocks as addresses |
| VnhAssignment.HopOfPrefix | lib/vnh_assignment.py:187-193 | the tag of a covered prefix is that of its block, and of no other |
| VnhAssignment.SameTagIffSameBlock | lib/vnh_assignment.py:187-193 | two covered prefixes have the same tag exactly when no set separates them |
| VnhAssignment.TagInSetIffPrefixInSet | lib/vnh_assignment.py:272-281 | the tag of a covered prefix is among those collected for a set exactly when the prefix is in the set |
| VnhAssignment.FilterExact | lib/vnh_assignment.py:272-291 | a tagged packet passes the tag filter built for a set exactly when it passes the prefix filter |
| VnhAssignment.ExpandPreservesMeaning | lib/vnh_assignment.py:255-297 | rewriting a whole policy preserves its meaning on tagged packets if no filter comes after a change of destination or tag |
| VnhAssignment.FilterAfterChangeIff | lib/vnh_assignment.py:255-297 | a filter after a change of the destination keeps its meaning for a packet exactly if both destinations are in the set or both outside; after a change of the tag, exactly if the new tag is that of a block inside the set just when the destination is in the set |
| VnhAssignment.PassesIffTagsBlock | lib/vnh_assignment.py:272-291 | the tags that pass the filter built for a set are those of the blocks inside the set |
| VnhAssignment.RetaggedBeforeFilter | lib/vnh_assignment.py:255-297 | a policy for which that order is not kept and whose rewriting drops a packet that the policy lets through |
| VnhAssignment.DefaultForwardingMeaning | lib/vnh_assignment.py:177-184 | the default policy sends a packet to the first port of exactly those peers whose best prefixes include its own |
| Pyretic.ParallelHas | lib/vnh_assignment.py:181-182 | the packets of a parallel composition are those of its members |
| Pyretic.SequentialOfTwo | lib/vnh_assignment.py:181-182 | the packets of a sequential composition of two policies |
| AdjRibOut.InsertValid | exabgp/lib/exabgp/rib/store.py:124-172 | an insertion keeps the two indexes in agreement |
| AdjRibOut.OneInnerMap | exabgp/lib/exabgp/rib/store.py:135-137 | an NLRI is pending exactly when it is in one inner map of the sorted index, and then in only one |
| AdjRibOut.InsertKeepsConsistent | exabgp/lib/exabgp/rib/store.py:124-172 | what is pending, on top of what the peer has, stays the wanted table, unless the insertion takes the place of a change of another family |
| AdjRibOut.PeerAfterIsWantedIff | exabgp/lib/exabgp/rib/store.py:200-257 | the updates of a drain make the peer's table, with attributes and next hops, the wanted one if and only if no announcement is held back whose next hop differs from the cached one |
| AdjRibOut.DrainConverges | exabgp/lib/exabgp/rib/store.py:200-257 | a complete drain keeps the store consistent, under the same condition reaches the wanted table, and without the cache always does |
| AdjRibOut.NothingSentTwice | exabgp/lib/exabgp/rib/store.py:206-212 | with the cache on no route is announced that the peer already holds with the same attribute index |
| AdjRibOut.HijackLosesOutcome | exabgp/lib/exabgp/rib/store.py:152-168 | when a change takes the place of a pending one of another family under the same index, the peer ends up as wanted if and only if it already had the lost outcome and no next hop is held back |
| AdjRibOut.RunConverges | exabgp/lib/exabgp/rib/store.py:124-257 | over every run of insertions and drains: after a drain the peer's table is the last-writer-wins table, in which outcomes that lost their place to a change of another family fall back to what the peer had, if and only if no next hop is held back; it is the last-writer-wins table itself if and only if moreover nothing was lost; with the cache on the cache is the peer's table |
| AdjRibOut.RunsConvergeIff | exabgp/lib/exabgp/rib/store.py:124-257 | every run of a class of changes converges if and only if for each route of the class the attribute index, which is all the duplicate test compares, determines the next hop, and no announced route shares its index with a change of another family |
| AdjRibOut.HistoriesConvergeIff | exabgp/lib/exabgp/rib/store.py:25-257 | every history of changes of a class, drains and reconnections converges if and only if those two conditions hold and the families of all announced routes are configured |
| AdjRibOut.NextHopsInAttributesConverge | exabgp/lib/exabgp/configuration/file.py:1597-1598 | runs converge whose changes name the next hop among their attributes, if no announced route shares its index with a change of another family |
| AdjRibOut.MovedNextHopExample | exabgp/lib/exabgp/bgp/message/update/attribute/mprnlri.py:30-42 | an IPv6 route announced again with a new next hop and the same attributes: the peer keeps the old next hop |
| AdjRibOut.InsertionRaisesIff | exabgp/lib/exabgp/rib/store.py:163-166 | with the cache on, an insertion raises exactly when it withdraws an announcement that is still queued before any drain has sent a route of its family |
| AdjRibOut.WithdrawnAtOnce | exabgp/lib/exabgp/rib/store.py:163-166 | an announcement and its withdrawal before the first drain raise; the peer is sent nothing, as wanted |
| AdjRibOut.OneFamilyNeverHijacks | exabgp/lib/exabgp/rib/store.py:131-132 | runs in which every index belongs to one family have no such replacement |
| AdjRibOut.SharedIndexExample | exabgp/lib/exabgp/rib/store.py:131-132 | two families that share an index: the first announcement never reaches the peer |
| AdjRibOut.ResetDrains | exabgp/lib/exabgp/rib/store.py:25-29 | the drain of a reset leaves nothing to send and the store consistent with a peer that received everything; it holds back the same next hops |
| AdjRibOut.ReconnectRebuilds | exabgp/lib/exabgp/rib/store.py:50-69 | after the peer forgot everything, resending and draining rebuild what it held if and only if all its families are configured and no two of its routes share an index; they rebuild the wanted table if and only if moreover no next hop is held back |
| AdjRibOut.ReconnectAfterRun | exabgp/lib/exabgp/rib/store.py:25-69 | after any run of insertions and drains a reconnection rebuilds what the peer held if and only if its families are configured and its indexes differ; and the last-writer-wins table under the stated condition if no outcome was lost to another family |
| AdjRibOut.ReconnectAfterUnsharedRun | exabgp/lib/exabgp/rib/store.py:25-69 | after a run without shared indexes a reconnection gives the peer the last-writer-wins table if and only if all its families are configured and no next hop is held back |
| AdjRibOut.SharedIndexReconnectExample | exabgp/lib/exabgp/rib/store.py:50-69 | two families that share an index, sent one after the other: the peer has both routes until it reconnects |
| AdjRibOut.LostOnReconnection | exabgp/lib/exabgp/rib/store.py:50-52 | a route of a family that is not configured is gone after a reconnection |
| RibStore.Store.InsertAnnounced | exabgp/lib/exabgp/rib/store.py:124-172 | the new store is the insertion of the change; the lookup of an unknown family fails exactly in the cancelling branch |
| RibStore.Store.Changed | exabgp/lib/exabgp/rib/store.py:201-218 | the duplicates of announced routes are left out of an inner map, and only they |
| RibStore.Store.DrainGroup | exabgp/lib/exabgp/rib/store.py:200-257 | one inner map leaves both indexes, its changes are delivered and recorded in the cache |
| RibStore.Store.Updates | exabgp/lib/exabgp/rib/store.py:175-257 | a complete drain, grouped or not, leaves the same store and delivers the same changes; grouped in at most one message for each set of attributes, otherwise one prefix a message |
| RibStore.Store.Reset | exabgp/lib/exabgp/rib/store.py:25-29 | drains into the cache |
| RibStore.Store.Resend | exabgp/lib/exabgp/rib/store.py:50-69 | the cache forgets exactly the routes of the configured families that were asked for, of all when none were, and they are queued again as they were announced, one for each index; nothing else is queued or forgotten |
| RibStore.Store.Refresh | exabgp/lib/exabgp/reactor/peer.py:416-463 | a peer that asks for the routes of some families is sent exactly these; its table and the cache stay as they were |
| AdjRibOut.RefreshSendsRoutes | exabgp/lib/exabgp/rib/store.py:50-69 | the same on the store: every asked route is sent, nothing changes the table, and the cache is restored by the drain |
| AdjRibOut.RefreshRebuilds | exabgp/lib/exabgp/rib/store.py:50-69 | a peer that has nothing left gets back exactly its routes of these families |
| AdjRibOut.ChangeDuringRefreshIff | exabgp/lib/exabgp/rib/store.py:163-166 | a change between the request and the drain has its effect unless it withdraws a route that was queued again, which cancels as if never sent, or moves a next hop that is held back |
| AdjRibOut.WithdrawnDuringRefresh | exabgp/lib/exabgp/rib/store.py:163-166 | a route withdrawn while a request for its family is answered stays at the peer |
| RibStore.Store.Reconnect | exabgp/lib/exabgp/rib/store.py:25-69 | reset, resend and drain, run on the object: the received updates rebuild what the peer held, and the wanted table, under exactly the stated conditions |
| RibStore.ReceiveListing | exabgp/lib/exabgp/rib/store.py:225-247 | one message with all changes and one message for each do the same to the peer |
| Powers.CountRighthandZeroBits | exabgp/lib/exabgp/compatibility/ipaddress.py:185-202 | counts the low zero bits: the largest alignment within the width |
| Powers.AlignedIff | exabgp/lib/exabgp/compatibility/ipaddress.py:185-202 | the low bits of a number are zero exactly if it is a multiple of the power of two |
| CidrBlocks.Nested | exabgp/lib/exabgp/compatibility/ipaddress.py:291-296 | two blocks are nested or disjoint |
| CidrBlocks.BlockRelations | exabgp/lib/exabgp/compatibility/ipaddress.py:699-775 | a block holds 2^(width - length) addresses from its first on; what inside and disjoint mean in addresses |
| CidrBlocks.NormalFormUnique | exabgp/lib/exabgp/compatibility/ipaddress.py:309-363 | two normal lists of blocks with the same addresses are the same list |
| CidrBlocks.NormalFormShortest | exabgp/lib/exabgp/compatibility/ipaddress.py:205-258 | no list of blocks with the same addresses, overlapping or not, is shorter than the normal one |
| IpAddress.NextBlock | exabgp/lib/exabgp/compatibility/ipaddress.py:250-256 | the next block is the largest aligned one that starts the rest of the range |
| IpAddress.SummarizeAddressRange | exabgp/lib/exabgp/compatibility/ipaddress.py:205-258 | aligned, ascending, unmergeable blocks that hold exactly the range, no more than twice the width, and no list of blocks for the range is shorter; fails exactly when the range is reversed |
| IpAddress.HalfOfSupernet | exabgp/lib/exabgp/compatibility/ipaddress.py:897-936 | the supernet of a block exists, is one bit shorter, and the block is its low or its high half |
| IpAddress.Supernet | exabgp/lib/exabgp/compatibility/ipaddress.py:897-936 | the block of the asked length that holds this one, by a difference or by a new length; the errors exactly for lengths that do not exist, a new length that is not shorter, and both given |
| IpAddress.Subnets | exabgp/lib/exabgp/compatibility/ipaddress.py:835-895 | exactly 2^diff blocks of the new length, in order, that make up the network; the errors for a shorter, a too long or a doubly given length |
| IpAddress.AddressExclude | exabgp/lib/exabgp/compatibility/ipaddress.py:699-775 | blocks that with the excluded one partition the network, one for each bit of the difference; an error exactly when it is not contained; both defensive branches are unreachable |
| Collapse.FindAddressRange | exabgp/lib/exabgp/compatibility/ipaddress.py:166-182 | the maximal run of consecutive addresses at the front |
| Collapse.Pass | exabgp/lib/exabgp/compatibility/ipaddress.py:284-306 | one pass keeps the addresses, and either shortens the list or leaves it unchanged and unmergeable |
| Collapse.CollapseRecursive | exabgp/lib/exabgp/compatibility/ipaddress.py:261-306 | the passes end, with the normal form of the addresses |
| Collapse.CollapseAddresses | exabgp/lib/exabgp/compatibility/ipaddress.py:309-363 | the normal form of exactly the addresses that the arguments hold |
| Collapse.CollapseIsCanonical | exabgp/lib/exabgp/compatibility/ipaddress.py:309-363 | two argument lists collapse to the same list if and only if they hold the same addresses |
| Ipv4Text.LongRoundTrip | bgp/decision_process.py:165-169 | reading the dotted text printed for a 32-bit number gives the number |
| Ipv4Text.TextRoundTripIff | bgp/decision_process.py:165-169 | printing what was read from a text gives the text back if and only if it is four decimal octets without leading zeros |
| Ipv4Text.OneOrThreeNumbers | bgp/decision_process.py:165-166 | a single number is the whole address, and of three the last fills two bytes |
| Ipv4Text.TwoNumbers | bgp/decision_process.py:165-166 | of two numbers the last fills three bytes, and such a text is not canonical |
| Ipv4Text.CNumberForms | bgp/decision_process.py:165-166 | each number may be decimal, octal after a zero, or hexadecimal after 0x |
| Ipv4Text.OctetIff | exabgp/lib/exabgp/compatibility/ipaddress.py:1057-1091 | exactly the texts of one to three decimal digits below 256 are accepted that read the same when a leading zero means octal |
| Ipv4Text.StrictReaderAgrees | exabgp/lib/exabgp/compatibility/ipaddress.py:1032-1055 | what the library accepts as a dotted quad `inet_aton` reads as the same number, and every canonical text is accepted |
| Ipv6Text.ReadsUnique | exabgp/lib/exabgp/compatibility/ipaddress.py:1487-1588 | the parts of a text denote one address at most |
| Ipv6Text.SlicesAreGroups | exabgp/lib/exabgp/compatibility/ipaddress.py:1681-1682 | the four-digit slices of the padded hexadecimal text are the 16-bit groups |
| Ipv6Address.CompressHextets | exabgp/lib/exabgp/compatibility/ipaddress.py:1615-1660 | replaces the first longest run of at least two zero hextets, and nothing when there is none, as section 4.2 of RFC 5952 asks |
| Ipv6Address.StringFromIpInt | exabgp/lib/exabgp/compatibility/ipaddress.py:1662-1685 | prints the compressed hextets of a 128-bit number; fails for larger numbers |
| Texts.HexIsLower | exabgp/lib/exabgp/compatibility/ipaddress.py:1681-1682 | hexadecimal digits are printed in lower case |
| Texts.CaseInsensitive | exabgp/lib/exabgp/compatibility/ipaddress.py:1590-1613 | they are read in either case |
| Ipv6Address.FindSkip | exabgp/lib/exabgp/compatibility/ipaddress.py:1528-1538 | finds the one empty inner part; fails when there are several |
| Ipv6Address.ParseSides | exabgp/lib/exabgp/compatibility/ipaddress.py:1540-1586 | the hextets before the gap at the top, those after it at the bottom, zeros between |
| Ipv6Address.IpIntFromString | exabgp/lib/exabgp/compatibility/ipaddress.py:1487-1588 | accepts exactly the texts that denote an address in the notation of section 2.2 of RFC 4291, with or without a dotted quad at the end, and returns the address |
| Ipv6Address.QuadDenotes | exabgp/lib/exabgp/compatibility/ipaddress.py:1514-1518 | six groups and a dotted quad denote the groups on top of the octets, the first octet highest |
| Ipv6Address.GapQuadDenotes | exabgp/lib/exabgp/compatibility/ipaddress.py:1514-1518 | the same with "::" before or between the groups |
| Ipv6Address.GapDenotes | exabgp/lib/exabgp/compatibility/ipaddress.py:1540-1586 | groups with "::" denote the upper ones, zeros, and the lower ones |
| Ipv6Address.MappedExample | exabgp/lib/exabgp/compatibility/ipaddress.py:1514-1518 | "::ffff:1.2.3.4" denotes 0xffff01020304 |
| Ipv6Address.DenotesUnique | exabgp/lib/exabgp/compatibility/ipaddress.py:1487-1588 | no text denotes two addresses |
| Ipv6Address.CompressedReads | exabgp/lib/exabgp/compatibility/ipaddress.py:1615-1685 | the printed form denotes the number it was printed from |
| Ipv6Address.RoundTrip | exabgp/lib/exabgp/compatibility/ipaddress.py:1487-1685 | parsing the printed form of any 128-bit number gives the number |
| BestPath.ShortestRoutes | bgp/decision_process.py:72-88 | the routes of minimal AS-path length, in order |
| BestPath.GroupAt | bgp/decision_process.py:112-136 | where a group starts in the sorted list, counting in the whole list counts the group, and the next group starts behind it |
| BestPath.PostMedRoutes | bgp/decision_process.py:98-140 | the walk by count visits each neighbour AS once and keeps its routes of lowest MED |
| BestPath.FinalistsHas | bgp/decision_process.py:98-140 | a route is kept exactly when no equally short route of its neighbour AS beats it on MED |
| BestPath.SurvivesIff | bgp/decision_process.py:72-140 | a route is left for the last step exactly when no route is shorter, and no equally long route through the same first AS has a lower MED, or any MED where this one has none |
| BestPath.ChosenHasLowestMed | bgp/decision_process.py:110-140 | the chosen route has the lowest MED among the equally long routes through its first AS |
| BestPath.LowerMedIsChosen | bgp/decision_process.py:110-140 | of two such routes the one of the lower MED is chosen, whatever their order and next hops |
| BestPath.MedExample | bgp/decision_process.py:110-140 | MEDs 10 and 50: the route of MED 10 is chosen |
| BestPath.LexLeIff | bgp/decision_process.py:104 | the neighbours are visited in the order of their texts |
| BestPath.LowestHopLoop | bgp/decision_process.py:146-152 | the lowest next hop as a number, or failure at the first text that is no address |
| BestPath.OfLowestHopIff | bgp/decision_process.py:146-154 | the last step finds a route exactly when some route of the lowest next hop writes it canonically, and then returns such a route |
| BestPath.FirstWithHopIsFirst | bgp/decision_process.py:171-172 | the route found by its next hop is the first one that has it |
| BestPath.BestPathSelection | bgp/decision_process.py:54-154 | the selection by loops gives the route that the specification function gives |
| BestPath.BestIsBest | bgp/decision_process.py:54-154 | the chosen route is an input route of minimal length, unbeaten on MED within its neighbour AS (section 9.1.2.2 of RFC 4271); against any other such route its next hop is canonical and not higher |
| BestPath.WhenSelectionFails | bgp/decision_process.py:54-173 | the selection fails exactly when there is no route, when one of several shortest AS paths is empty, and when several routes are left of which none of the lowest next hop writes it canonically |
| BestPath.ShortFormExample | bgp/decision_process.py:146-173 | next hops 10.1 and 10.0.0.2: both are read, the lower is not found again by its text |
| BestPath.FinalistsMultiset | bgp/decision_process.py:98-140 | every unbeaten route is kept as often as it occurs |
| BestPath.OrderDoesNotMatter | bgp/decision_process.py:54-154 | the chosen next hop is the same for every permutation of the routes |
| RouteServer.Rib.Get | bgp/rib.py:70-76 | the first row of the prefix, if there is any |
| RouteServer.Rib.Delete | bgp/rib.py:125-133 | removes all rows of the prefix and no other |
| RouteServer.Peer.Receive | bgp/peer.py:17-84 | what a message does to the two tables and what it reports: the branches for a session down, announcements, withdrawals and shutdown |
| RouteServer.Peer.Announce | bgp/peer.py:42-61 | adds, behind the earlier rows, a row for every announced prefix with its next hop and with the origin, AS path, MED and atomic aggregate of the update, and reports the first row of each prefix |
| Decision.RowsAdded | bgp/peer.py:42-56 | the rows that an announcement adds, field by field |
| RouteServer.Peer.Withdraw | bgp/peer.py:63-72 | removes all rows of every withdrawn prefix and reports the first one removed, if any |
| RouteServer.Server.constructor | bgp/route_server.py:18-31 | every participant gets two empty tables of its own |
| RouteServer.Server.Turn | bgp/decision_process.py:14-27 | one participant's turn of the decision process, for announcements and (lines 29-49) withdrawals |
| RouteServer.Server.Process | bgp/route_server.py:38-55 | one message: the participants receive it up to the first that reports something, then every reported prefix is decided |
| Decision.TurnSettles | bgp/decision_process.py:14-49 | after its turn a participant's local table holds the best of the others' routes for the prefix, alone, or nothing |
| Decision.TurnOutcome | bgp/decision_process.py:14-49 | a turn in every state of the tables: who is left alone, what a success leaves, and what a failing selection leaves |
| Decision.TurnsSettle | bgp/decision_process.py:8-51 | after all turns the prefix is settled; they get through exactly when every participant that is offered a route can select one |
| Decision.TurnsFrame | bgp/decision_process.py:8-51 | a decision touches no other prefix |
| Decision.LocalRoutesComeFromOthers | bgp/decision_process.py:14-20 | no participant is given a route that no other participant announced |
| DecisionRuns.UpdateCovers | bgp/peer.py:48-72 | an update leaves every prefix settled or reported and ready for its decision |
| DecisionRuns.DecisionsSettle | bgp/route_server.py:50-51 | deciding all reported items settles every prefix |
| DecisionRuns.MessageKeepsSettled | bgp/route_server.py:38-51 | after every announce, withdraw, shutdown or foreign message each local table holds for every prefix exactly the best of the others' rows, or nothing; and when the processing gets through |
| DecisionRuns.RunKeepsSettled | bgp/route_server.py:33-55 | the same over every run |
| Announcements.Announces | bgp/peer.py:48-61 | an announcement becomes a row of the participant whose address it carries, and all local tables are settled afterwards if all selections succeed |
| Announcements.MedsDecide | bgp/peer.py:42-56 | two participants announce a prefix through the same neighbour with MEDs 50 and 10: the third is given the route of MED 10 |
| DecisionRuns.DownKeepsSettledIff | bgp/peer.py:29-38 | a session that goes down keeps the tables settled if and only if the participant had announced nothing or is alone |
| DecisionRuns.DownExample | bgp/peer.py:29-38 | of two participants the one with a route goes down, and the other keeps the route |
| DecisionRuns.UnknownWithdrawalIff | bgp/route_server.py:57-66 | a withdrawal reports no route, on which the server fails after its decisions, exactly when it names a prefix without a row |
| Reannouncements.BestOfPartIff | bgp/decision_process.py:54-154 | when a route of a part wins among all routes, the best route of the part has its next hop if and only if it undercuts all routes that only routes outside the part beat on MED |
| Reannouncements.CurrentIff | bgp/rib.py:55-66 | when one of the others' latest announcements wins among all rows, the local table leads where the latest announcements alone would if and only if the winner undercuts every latest announcement that only superseded rows beat on MED; otherwise a superseded row is in use, with the right next hop only if it happens to be that of a winner among the latest |
| Reannouncements.CurrentWithoutSecondRows | bgp/rib.py:55-66 | it does when no other participant has two rows for the prefix |
| Reannouncements.RunStaysCurrent | bgp/route_server.py:33-55 | over every run in which no prefix is announced again before it has been withdrawn and no session goes down, all local tables are those of the latest announcements |
| Reannouncements.SupersededExample | bgp/peer.py:50-58 | a prefix announced again with a longer path and another next hop: the other participant keeps the replaced route |
| Composition.OutVarInjective | lib/core.py:112-115 | two ports have the same output state exactly when they have the same number and their participants have the same upper-case name |
| Composition.InVarInjective | lib/core.py:110 | two participants have the same input state exactly when their upper-case names are equal |
| Composition.InIsNotOut | lib/core.py:110-114 | no input state is an output state |
| Composition.NamesExample | lib/core.py:110-114 | the states of a participant "a1" are "inA1" and "outA1_0" |
| Composition.UpperLetters | lib/core.py:110-114 | letters become capitals and nothing else changes |
| Composition.AddedValid | lib/core.py:108-115 | adding participants keeps the dictionaries well formed |
| Composition.Sdx.AddParticipant | lib/core.py:108-115 | the four dictionaries after adding a participant |
| Composition.SdxRestrictState | lib/composition.py:24-40 | finished packets pass, packets in the participant's input state go through its policy, all others are dropped |
| Composition.Preprocessing | lib/composition.py:48-58 | a packet that comes in by a port is put into the input state of the participant of that port |
| Composition.Postprocessing | lib/composition.py:60-69 | a packet in an output state loses the state and leaves by the port of that state; all others are dropped |
| Composition.Round | lib/composition.py:71-83 | one round gives what the restricted policies of all participants give together |
| Composition.TwoRounds | lib/composition.py:71-83 | what is finished after the first round passes the second unchanged; the rest is handled by those who see it |
| Composition.SimpleCompose | lib/composition.py:43-90 | a packet is delivered exactly when a port took it in and it reached an output state by the policy of one participant, or of two in a row |
| Composition.SeenByOneOnly | lib/composition.py:36-38 | a packet in a participant's input state is seen by another participant if and only if the names differ in case only |
| Composition.IngressFirst | lib/composition.py:43-90 | with names that differ in more than case: the ingress participant's policy comes first and alone, then at most one further participant |
| Composition.ForwardedPacketLeaves | lib/core.py:117-119 | a packet forwarded to a physical port whose state leads back to it leaves by that port only, with its MAC and without a state |
| Composition.FwdMeaning | lib/core.py:117-121 | forwarding to a participant gives exactly the packet in its input state, and to a port exactly the packet in the state of the port with its MAC; it fails exactly for unknown ports |
| Composition.ForwardedPacketIsSeen | lib/core.py:120-121 | a packet forwarded to a virtual port is seen by its participant |
| Composition.PortsLeadBackIff | lib/core.py:108-119 | if no two ports have the same number: the states of all ports lead back to them if and only if no two participants with ports have names that differ in case only |
| Composition.PortLostExample | lib/core.py:108-119 | participants "a" and "A" with a port each: the state of the port of the first leads to that of the second |
| Composition.BuiltPlatformDelivers | lib/composition.py:43-90 | for every platform built from participants whose names differ in more than case and whose ports have different numbers: a packet that enters by a port is delivered exactly as the policy of its owner says, alone or with that of the participant it forwards to, by the port it is then sent to |
| Composition.ForwardedAcross | lib/composition.py:43-90 | a packet that one participant forwards to another, and that one to a port, leaves by this port, once, with its MAC and without a state |
| HealthCheck.Loop | exabgp/etc/exabgp/processes/healthcheck.py:305-351 | every state of the loop is the one the closed form gives: disabled, initial, or what the current run of equal outcomes amounts to |
| HealthCheck.StateIff | exabgp/etc/exabgp/processes/healthcheck.py:309-347 | up or down exactly while the current run of successes or failures is at least as long as asked for, rising or falling while it is shorter |
| HealthCheck.Trigger | exabgp/etc/exabgp/processes/healthcheck.py:284-303 | the shortcut for a single needed success or failure |
| HealthCheck.StreakIsMaximal | exabgp/etc/exabgp/processes/healthcheck.py:309-347 | the run counted since the initial state is the maximal one of equal outcomes that count |
| HealthCheck.DownNeedsFailures | exabgp/etc/exabgp/processes/healthcheck.py:328-347 | after up, down takes at least max(fall, 1) failed checks in a row |
| HealthCheck.UpNeedsSuccesses | exabgp/etc/exabgp/processes/healthcheck.py:320-351 | after down, up takes at least max(rise, 1) successful checks in a row |
| Netlink.Encode | exabgp/lib/netlink/route.py:82-85 | packs header, body and attributes; fails exactly when a number does not fit its field |
| Netlink.HeaderBytes | exabgp/lib/netlink/route.py:49-85 | byte by byte: length, kind, flags, sequence and pid, the lowest byte first, then the data |
| Netlink.Decode | exabgp/lib/netlink/route.py:87-93 | the messages read, and how the reading ends: all read, short header, buffer underrun, or no progress on a zero length |
| Netlink.MessagesRoundTrip | exabgp/lib/netlink/route.py:82-93 | decoding the concatenation of encoded messages gives the messages (header of section 2.3.2 of RFC 3549) |
| Netlink.StreamRoundTripIff | exabgp/lib/netlink/route.py:82-93 | for a stream read to its end, encoding what was read gives the same bytes if and only if every length covers its own header |
| Netlink.ShortLengthExample | exabgp/lib/netlink/route.py:87-93 | twenty bytes with a length of four are read as two messages, which are encoded as 32 bytes |
| Netlink.PadRoundsUp | exabgp/lib/netlink/route.py:166-167 | for every power of two the mask form rounds up to the next multiple |
| Netlink.PadIsAdvance | exabgp/lib/netlink/route.py:166-176 | the encoder's padding equals the decoder's divide-and-multiply step |
| Netlink.EncodeOne | exabgp/lib/netlink/route.py:178-183 | length, kind, payload, zeros up to a multiple of four; fails exactly when length or kind does not fit 16 bits |
| Netlink.AttributeBytes | exabgp/lib/netlink/route.py:178-183 | byte by byte: length and kind, the lowest byte first, the payload, and zeros up to a multiple of four |
| Netlink.EncodeAll | exabgp/lib/netlink/route.py:185-186 | all attributes one after the other, or failure when one does not fit |
| Netlink.DecodeAttributeList | exabgp/lib/netlink/route.py:169-176 | the attributes read, and how the reading ends |
| Netlink.AttributesRoundTrip | exabgp/lib/netlink/route.py:169-186 | decoding encoded attributes gives the same kinds and payloads, for all lengths that fit |
| Netlink.MessageWithAttributes | exabgp/lib/netlink/route.py:82-93 | of an encoded message the decoder gives the message, and behind its body the attributes |

## Left out

Weaker than the program, or shaped differently:

- VnhAssignment.Sdx.Step4: the test for a block in a list is set membership. The program also looks for the block as a list, in the order its set happens to be iterated; a list that no key touched is found only if that order is its own.
- VnhAssignment.AssignVnhs: the map of participants is not empty, as only then the program's recursion ends.
- VnhAssignment.FilterExact: a packet's destination is the one prefix it falls in. Prefixes that overlap, as 10.0.0.0/8 and 10.1.0.0/16, of which a packet falls in both, are not modelled; the program tags by prefix too.
- VnhAssignment.ExpandPreservesMeaning: for sets that were handed to the decomposition; a tag for a prefix outside of them is not specified by the program either.
- VnhAssignment.HopOfPrefix: the order in which the names are tried is not fixed; the blocks are disjoint, so it makes no difference.
- DivideAndConquer.DecomposeParallel: returns the label and the list of the one-entry dictionary that the program returns. The order in which a dictionary lists its keys is a parameter, a function of the set of keys.
- Lcs.LcsMultiprocess: a process is a call on copies; queues, joining and printing are not modelled.
- RibStore.Store.Updates: runs to its end as one step, without enhanced route refresh, reloads (`_changes`) and calls made between its yields.
- RibStore.Store.Resend: without enhanced refresh.
- AdjRibOut.DrainConverges: the peer keeps one route for each family and index. For families with labels the index of an NLRI includes the label (`exabgp/lib/exabgp/bgp/message/update/nlri/bgp.py:166-179`), so that a route announced with a new label has a second key here, while a BGP peer replaces the route.
- AdjRibOut.RunConverges: a run goes on after an insertion that raises, with the queue as the insertion left it. Requests for a route refresh are not among the steps of runs and histories; AdjRibOut.RefreshSendsRoutes and AdjRibOut.ChangeDuringRefreshIff are about one of them.
- RibStore.Store.DrainGroup: a change carries its next hop, as the program's NLRI does. For IPv4 unicast and multicast the message carries it among the attributes, with the same value (`exabgp/lib/exabgp/configuration/file.py:1595-1598`).
- RibStore.Store.InsertAnnounced: without the delay list of enhanced refresh, for which `force` exists. Changes are values; attributes are identified by their index.
- IpAddress.SummarizeAddressRange: one width at a time; arguments of mixed versions or of other types are not modelled. The same holds for the other operations on blocks.
- Ipv6Address.IpIntFromString: the `|` of a shifted number and a hextet is an addition, which it equals.
- BestPath.BestPathSelection: the AS path is the list of its words. `inet_aton` is modelled without the text that some C libraries let follow the address after a space.
- RouteServer.Rib.Get: a table is kept in memory, with its rows in the order of insertion. Cursors, commits, locks and the database file are not modelled.
- RouteServer.Server.constructor: the tables are new; rows that the database file of an earlier run still holds are not modelled.
- DecisionRuns.RunKeepsSettled: that the processing of a message gets through is about receiving and deciding, not about the loop behind it, which fails on the items of DecisionRuns.UnknownWithdrawalIff.
- RouteServer.Server.Process: the announcements and withdrawals sent to the routers after the decisions, and the policy update they trigger, are not modelled. The server's endless loop is a run over a list of messages.
- DecisionRuns.MessageKeepsSettled: a message that takes a session down is left to DecisionRuns.DownKeepsSettledIff, which treats it without an update in the same message.
- Composition.SimpleCompose: dictionaries are visited in any order; `a >> b >> c` is the composition of two compositions.
- HealthCheck.Loop: runs for as long as there are observations, one for each turn of the endless loop; commands, announcements with their metrics, and sleeping are not modelled.
- Netlink.Decode: a header of another byte order is not modelled; the pid that `encode` writes is 0, as in the program.

Not modelled at all:

- `get_prefix`, `step5a_expand_policy_with_prefixes`, `step5c`, `pre_VNH` and `post_VNH` of the tag assignment: their accumulators are shared default lists or are rebound, and no meaning of their result can be stated.
- `lcs_recompute`, which its own comment calls out of date, and `prefix_decompose`, which calls `decompose_set` with too few arguments.
- `sent_changes`, `clear`, `queued_changes` and the watchdogs of the outgoing table: a listing, a reset to empty, and groups of changes that share mutable objects.
- Dotted netmasks and hostmasks, which are compared octet by octet as texts; the classification of addresses.
- The BGP session machine of exabgp, the reading of its configuration, its wire format.
- The compilation of policies to switches; a policy is what it does to a packet.
- Sockets, processes, files, logging, argument parsing, the emulation scripts, the Quagga interface, and the older copies under `stash/`.
