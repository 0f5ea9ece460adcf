# iproute2 in Dafny

This project models the parts of iproute2 that keep state, build byte layouts or transform data, and
proves what they promise over all inputs and whole runs. One module follows one component of the
program.

* **Flushing** (`NetlinkMessages`, `FlushBuffer`, `FlushRounds`, `FlushRuns`, `AddressFlush`,
  `RouteFlush`, `NeighbourFlush`, `KernelModels`). A dump callback rewrites each selected message into a delete
  request and packs the requests, four-byte aligned as in section 2.3.2 of RFC 3549, into a fixed
  buffer that is sent when full. Rounds repeat until a dump selects nothing. The kernel is an
  environment given by functions: what it dumps in a round, what a datagram leaves of its table, and
  how the send is answered. It may drop more than it is asked to. `KernelModels` shows that the
  assumptions made of it can be met.
* **Multipath next hops** (`NextHops`, `NextHopOptions`, `NextHopEncoder`). `RTA_MULTIPATH` as bytes, section 3.1.1 of
  RFC 3549: the encoder with its two running lengths, the walk that prints it, and exactly when the
  walk recovers what was given.
* **Route dump files and selectors** (`RouteRestore`, `StableSort`, `PrefixSelectors`).
* **Lists** (`ListHead`, `Hlist`, `NsidCache`, `LinkedChain`): the circular list on the heap, the
  `pprev` list as a memory from addresses to cells, the two-index namespace cache on top of it, and
  singly linked lists changed through the address of a link.
* **VLAN ranges** (`VlanRanges`), **multicast lists** (`MulticastList`), **link filtering**
  (`LinkFilter`), and the arithmetic loops of `ip address` (`PrintNum`, `Broadcast`).
* **devlink** (`ResourceTree`, `ResourcePath`, `Decimal`, `PortHandle`, `Occupancy`): the resource
  tree with parent links and its paths, port handles, occupancy grouping.
* **devlink JSON** (`JsonWriter`, `JsonStrings`, `DevlinkReports`, `ReportNames`, `ReportValues`,
  `DevlinkSections`, `SectionReports`): the writer with its separator and depth, the reports with their
  early exits, the `arr_last` grouping, a reader for the result, what it finds under each name, and
  when the names are unique (RFC 8259).

`Bytes`, `Sequences` and `Wrappers` hold what several modules need.

## What turned out not to hold

Where the code does less than one would expect, the model follows the code, and a lemma or an
`ensures` says exactly when it does meet the expectation.

* A next hop with a gateway or new destination whose length is not a multiple of four (DECnet
  addresses have two bytes), followed by another attribute, loses attributes: `rtnh_len` counts the
  exact length while the bytes are padded. The exact condition is `NextHops.Survives`. Of two
  attributes of one kind, as in `nexthop via A via B`, only the first is shown.
* A next hop of length zero makes the printing walk loop forever, exactly when the chain of lengths
  reaches it (`NextHops.LoopsForever`).
* A next hop list that does not fit the request is dropped, and `parse_nexthops` reports success: from
  125 next hops on for a bare request and `nexthop dev D` (`NextHopEncoder.TooManyHopsAreDropped`).
* `save_route` writes messages without padding, and `rtnl_from_file` skips padding. A dump file is
  read back if and only if all messages but the last have lengths that are multiples of four. That
  holds of messages whose attributes are all padded, as `addattr_l` pads them; a message that ends
  with an attribute as long as its contents spoils the rest (`RouteRestore.SeventeenBytes`).
* `jsonw_puts` writes a backslash as a newline escape and an apostrophe with an escape that JSON does
  not have (`JsonStrings.BackslashAndApostrophe`); `JsonStrings.PutsReadsBack` gives the exact
  condition, and `JsonStrings.LiteralTells` says which strings come out alike.
* A port index from 2^31 on is printed as a negative number, which the parser refuses. A resource id
  is cut to 32 bits by the path parser, and `devlink` cuts 64-bit sizes to 32 bits when it prints
  them, except for the greatest one (`DevlinkReports.NumbersShown`).
* `bridge vlan` has no lower bound on ids: `vid 40000-100` is accepted and sent. Tunnel ids are printed
  modulo 65536.
* `print_mlist` nests its groups if and only if no entry has interface index zero.
* `RTM_NEWNSID` for a cached id removes the id from the cache, so after a run the parity of the
  announcements decides (`NsidCache.CachedAfterRun`).
* Deleting links in place leaves the chain's tail pointer behind when the last link goes.
* A neighbour that stays visible as FAILED is still selected when it is a proxy or a DECnet
  neighbour, so where deletes leave such a neighbour behind the flush ends by the round limit, and
  only then (`NeighbourFlush.FlushNeighbours`).
* `ip addr flush` with a limit of one round reports that it is incomplete even when that round
  deleted everything.

## Model

| member | source | states |
|---|---|---|
| NetlinkMessages.DeleteRequestMeaning | ip/ipaddress.c:1293-1297 | the rewritten copy is a well-framed message with the delete type, only the request flag and the new sequence number, and names the same object |
| NetlinkMessages.PackedIsWalked | ip/ipaddress.c:1293-1298 | a receiver that walks an aligned buffer decodes exactly the messages packed into it |
| NetlinkMessages.PackedGrows | ip/ipaddress.c:1293-1298 | appending behind at most three bytes of padding adds exactly one message to what the receiver decodes |
| FlushBuffer.DeleteRequestsMeaning | ip/ipneigh.c:287-303 | request i asks for the deletion of the object of selected message i and carries consecutive sequence numbers |
| FlushBuffer.SequenceNumbersIncrease | ip/ipaddress.c:1297 | sequence numbers of two requests increase if and only if the 32-bit counter does not wrap between them |
| FlushBuffer.FillStaysInside | ip/ipaddress.c:1289-1299 | the fill pointer, whose value after a dump `ProcessDump` states with the same function, stays inside the buffer at every step if and only if each message alone fits an empty buffer |
| FlushBuffer.KnownKinds | ip/ipaddress.c:1293-1297 | each of the three flushes sends the type after the one it dumps: 21 for 20, 25 for 24, 29 for 28 |
| FlushBuffer.FlushState.FlushUpdate | ip/ipaddress.c:1089-1107 | everything pending goes out in one datagram; the buffer is emptied exactly when the send succeeds or fails with an ignored error |
| FlushBuffer.FlushState.Append | ip/iproute.c:750-755 | what is sent and what the buffer holds together grow by exactly the copied request |
| FlushBuffer.FlushState.Queue | ip/iproute.c:742-759 | a selected message adds its delete request to the requests issued and moves the fill pointer behind it; the buffer is sent exactly when the message does not fit; a failed send issues nothing |
| FlushBuffer.FlushState.ProcessDump | ip/ipaddress.c:1286-1302 | for any dump, what was sent followed by what the buffer decodes to is exactly the selected messages in order as delete requests, `flushed` counts them, the fill pointer stands where their lengths put it, and an error return stops at the message it belongs to |
| FlushRounds.DeletesProgresses | ip/ipaddress.c:1092-1099 | a kernel that removes at least what it is asked to makes progress with every datagram that names an entry |
| FlushRounds.DeletesAll | ip/ipaddress.c:1092-1099 | after the datagrams of a round nothing they name is left |
| FlushRounds.ProgressesSome | ip/ipaddress.c:1092-1099 | after the datagrams of a round the table is smaller if they name any of its entries |
| FlushRounds.CallbackMeaning | ip/iproute.c:721-727 | of each message type, what each of the three callbacks does with it: announcements are judged by the filter, deletions are skipped, and a message that is too short or, for routes, of a foreign type ends the dump |
| FlushRounds.SelectedBodies | ip/ipaddress.c:1270-1284 | with a snapshot dump the selected messages name exactly the wanted entries of the table |
| FlushRounds.CleanRound | ip/ipaddress.c:1682-1692 | a dump without a match means that no wanted entry is in the table |
| FlushRounds.DeletingRound | ip/ipaddress.c:1693-1696 | a deleting round shrinks the table, and leaves no wanted entry if deletes are honoured |
| FlushRounds.RunRound | ip/ipaddress.c:1671-1696 | one round sends exactly the delete requests of the selected messages and leaves nothing pending; it is clean exactly when nothing was selected; it ends in an error only for a message the callback cannot handle or a failed send, and has then sent a beginning of the requests for what it had selected |
| FlushRuns.LoggedRound | ip/ipaddress.c:1671-1696 | a round, also one that ends in an error, extends the log of the run by what it selected; what was sent stays a beginning of the requests logged; a round that succeeds keeps what is known of the table |
| FlushRuns.LogRequestAt | ip/ipaddress.c:1671-1697 | over a whole run the request for message j of round i stands behind those of all earlier messages, names its object, has the delete type and carries the number it gets when each round spends one more on its dump |
| AddressFlush.FlushAddresses | ip/ipaddress.c:1662-1713 | for every kernel and every end: only wanted objects are asked for, exactly those the dumps selected or, in a run cut short by a failed send or a bad message, a beginning of them; nothing is pending at a regular end; a normal end means no wanted entry is left; the table size bounds unlimited runs; with honoured deletes one deleting and one checking round suffice, and the result is success if and only if the limit is not one round, only primaries are meant, or nothing was wanted |
| RouteFlush.FlushRoutes | ip/iproute.c:1618-1678 | the same for routes, whose callback also stops at a message of a foreign type; a run ends cleanly if and only if nothing was wanted or the first round ended within the time limit, given honoured deletes |
| NeighbourFlush.VerdictExactly | ip/ipneigh.c:250-285 | a neighbour is selected if and only if family and interface are as asked, the other tests pass, and a state bit is in the mask, or there is no state and the mask has bit 8, or it is a proxy or a DECnet neighbour, read off the bytes of the message |
| NeighbourFlush.ClearedMeaning | ip/ipneigh.c:512 | clearing FAILED takes that bit out of the mask and leaves every other |
| NeighbourFlush.MaskMeaning | ip/ipneigh.c:485-514 | in every round after the first the mask lacks FAILED and has every other bit of the one given |
| NeighbourFlush.FailedIsSpared | ip/ipneigh.c:254-285 | with FAILED cleared from the mask, an entry that has turned FAILED, whatever became of its other bytes, is selected if and only if it is a proxy or DECnet neighbour that passes the other tests |
| NeighbourFlush.ClearedMaskSelectsLess | ip/ipneigh.c:512 | clearing FAILED never makes another entry match |
| NeighbourFlush.StickyIsTaken | ip/ipneigh.c:261-265 | a proxy or DECnet neighbour that passes the other tests is selected under every mask, also once it has turned FAILED |
| NeighbourFlush.StickySurvives | ip/ipneigh.c:485-514 | if deletes never do more than turn entries FAILED, no datagrams rid the table of such neighbours |
| NeighbourFlush.SecondRoundIsClean | ip/ipneigh.c:485-514 | if a delete removes an entry or turns it FAILED, the round after a deleting round selects nothing, for tables without proxies and DECnet neighbours, or with none that passes the other tests if turning FAILED does not change those |
| NeighbourFlush.FlushNeighbours | ip/ipneigh.c:477-517 | for every kernel and every end: at most ten rounds, and only what the mask of each round selects is asked for, exactly what the dumps selected, in the first round every dumped neighbour that the bytes and the mask given select, or, in a run cut short, a beginning of it; a normal end means that nothing the mask selects is left; without proxies and DECnet neighbours the flush completes after at most one deleting round; where deletes only turn neighbours FAILED it completes if and only if there is no proxy or DECnet neighbour that passes the other tests |
| KernelModels.SomeKernelDeletes | ip/ipaddress.c:1092-1099 | there is a kernel that dumps what it holds and honours every delete: the assumptions of the address and route flushes are consistent |
| KernelModels.SomeKernelMarks | ip/ipneigh.c:485-514 | for every filter whose other tests ignore the state there is a kernel whose deletes only turn neighbours FAILED: the assumptions of the neighbour flush are consistent |
| KernelModels.ProxySticks | ip/ipneigh.c:261-265 | a proxy entry with which a flush of everything never completes there, and an ordinary one with which it does |
| NextHops.ParsesWhatFits | lib/libnetlink.c:1083-1099 | parsing the first `limit` bytes of padded attributes recovers them if and only if the last one ends within the limit, and otherwise yields fewer |
| NextHops.TabledKeepsAll | lib/libnetlink.c:1083-1099 | the attribute table holds all attributes if and only if their kinds are known and none occurs twice |
| NextHops.FirstOfAt | lib/libnetlink.c:1083-1099 | the first attribute of a kind is the payload at the first position that has the kind |
| NextHops.TabledFirst | lib/libnetlink.c:1083-1099 | of each known kind the table holds the first attribute |
| NextHops.SecondGatewayIsIgnored | lib/libnetlink.c:1090-1091 | of two gateways the first is kept |
| NextHops.SurvivingStaysInStep | ip/iproute.c:1017-1050 | when attributes survive, the rounded `rtnh_len` leads to byte `rta_len`, where the next `rtnexthop` is put |
| NextHops.AlignedSurvives | ip/iproute.c:944-1015 | gateways and new destinations of aligned length always survive |
| NextHops.UnalignedGatewayLosesRealms | ip/iproute.c:944-1015 | a two-byte gateway followed by realms does not survive |
| NextHops.WalkReadsHop | ip/iproute.c:652-706 | the walk reads flags, weight and interface of a next hop, and all its attributes if and only if they survive and no kind is given twice |
| NextHops.WalkHops | ip/iproute.c:645-707 | next hops that survive are read back in order, each as its attribute table, and the walk goes on behind them |
| NextHops.BrokenHopShows | ip/iproute.c:645-707 | one next hop that does not survive makes the printed list differ from the given one |
| NextHops.ZeroLoops | ip/iproute.c:652-706 | a list that begins with a zero length is never left |
| NextHops.LoopsForever | ip/iproute.c:652-706 | the walk loops forever if and only if the chain of aligned lengths reaches a next hop with a whole header and length zero |
| NextHops.ShowNextHops | ip/iproute.c:645-707 | on any bytes whose chain of lengths reaches no zero, the printing loop ends and shows what the walk reads |
| NextHopOptions.ClauseMeaning | ip/iproute.c:944-1015 | what is shown of a clause: RTA_GATEWAY with the address of the first `via` of the family of the route, RTA_VIA with family and address of the first of another family, the first realms, `as` address and encapsulation, none of them if none was given, the last interface and weight, and ONLINK if and only if `onlink` was given |
| NextHopOptions.FamilyIsKept | ip/iproute.c:962-971 | a family once known stays that of the route |
| NextHopOptions.FirstGatewayDecides | ip/iproute.c:962-971 | without a family the route takes that of its first gateway |
| NextHopOptions.ListMeaning | ip/iproute.c:1017-1045 | the same for every clause of a list, each with the family that those before it leave |
| NextHopOptions.ListRefused | ip/iproute.c:944-1015 | a list is refused if and only if an interface is unknown or a weight is outside 1 to 256 |
| NextHopOptions.ClauseLengths | ip/iproute.c:944-1015 | the two running lengths option by option: `rtnh_len` by exact lengths for gateway, realms and destination and by the padded ones for the rest, `rta_len` by padded ones |
| NextHopOptions.DecnetRealmsAreLost | ip/iproute.c:944-1015 | `via` a DECnet address and `realms`: the realms do not survive |
| NextHopEncoder.ReadClause | ip/iproute.c:944-1015 | one `nexthop` clause leaves header and attributes in memory as its options say, or is refused exactly when an option is |
| NextHopEncoder.EncodeClause | ip/iproute.c:1036-1043 | each clause starts at byte `rta_len` as long as no earlier one broke the step, and extends the list by its next hop |
| NextHopEncoder.EncodeNextHops | ip/iproute.c:1017-1045 | refused if and only if an interface is unknown, a weight is out of range or the last `nexthop` has nothing after it; if every next hop survives, the walk shows of every clause what its options ask for; the payload length is the sum of the aligned next hop sizes; the walk returns the given next hops if and only if each of them survives and is given no kind of attribute twice |
| NextHopEncoder.ParseNexthops | ip/iproute.c:1017-1050 | the list becomes the RTA_MULTIPATH attribute of the request if and only if it is not empty and there is room for it in 1024 bytes, and otherwise the request is unchanged and success reported |
| NextHopEncoder.TooManyHopsAreDropped | ip/iproute.c:1047-1048 | 125 next hops fit the buffer but not behind an empty route request and are dropped, 124 are not |
| NextHopEncoder.AlignedArgsSurvive | ip/iproute.c:944-1015 | with aligned addresses every next hop survives |
| NextHopEncoder.WeightIsShown | ip/iproute.c:977-983 | the weight shown is the last one given, 1 to 256 |
| StableSort.StableSortIsUnique | ip/iproute.c:2109-2154 | there is only one stable order by class |
| StableSort.StableSortPermutes | ip/iproute.c:2109-2154 | it contains each route exactly as often as the file |
| RouteRestore.SaveRestoreRoundTrip | ip/iproute.c:1591-1597 | a saved dump is read back message for message if and only if all lengths but the last are multiples of four |
| RouteRestore.SeventeenBytes | ip/iproute.c:1591-1597 | a message of 17 bytes in front of any other is not read back |
| RouteRestore.AlignedIsReadBack | lib/libnetlink.c:859-906 | aligned messages are handed to the handler one by one up to the end of the file |
| RouteRestore.LateReaderFails | lib/libnetlink.c:859-906 | a reader one to three bytes late never gets the remaining messages right |
| RouteRestore.ClassMeaning | ip/iproute.c:2117-2143 | a gateway makes a route remote; without one a preferred source other than the destination makes it a local network; the rest are local addresses |
| RouteRestore.OnePassEach | ip/iproute.c:2117-2154 | each route is handled in exactly one of the three passes |
| RouteRestore.PassesAreAStableSort | ip/iproute.c:2117-2154 | the three passes together are the stable sort by class: local address, local network, gateway |
| RouteRestore.RequestMeaning | ip/iproute.c:2145-2149 | a request is the saved message with its length, type, number, port and body, with the request, create and acknowledge flags set and every other flag as it was |
| RouteRestore.Pass | ip/iproute.c:2117-2154 | one pass requests exactly the routes of its class in file order, up to and including the first that is refused |
| RouteRestore.Restore | ip/iproute.c:2175-2202 | success if and only if the file is readable and no request is refused, and then one request per route in stable class order, each with the whole body of its route |
| RouteRestore.SavedFileIsReadable | ip/iproute.c:1600-1616 | magic number and aligned messages make a readable file with exactly these routes |
| PrefixSelectors.MatchComparesPrefix | lib/utils.c:922-948 | word comparison and masked remainder together compare exactly the first bits |
| PrefixSelectors.WithinIsPrefix | ip/iproute.c:266-271 | one address set lies in another if and only if family, length and leading bits say so |
| PrefixSelectors.RootTest | ip/iproute.c:192-199 | the root tests hold if and only if the route's address set lies inside the prefix, although only the bytes in use are copied |
| PrefixSelectors.MatchTest | ip/iproute.c:200-209 | the match tests hold if and only if the route's address set contains the prefix |
| PrefixSelectors.FilterMeaning | ip/iproute.c:192-279 | for any filter, whichever of its four prefixes are given and with or without a family: a route passes if and only if its destination lies inside the `root` and around the `match` prefix of `to`, and its source likewise for `from` |
| PrefixSelectors.ToSelectors | ip/iproute.c:1842-1854 | `to root`, `to match` and `to exact` select the routes whose destinations lie inside, contain, or equal the prefix |
| PrefixSelectors.FromSelectors | ip/iproute.c:1825-1840 | the same for sources |
| PrefixSelectors.ExactIsSetEquality | ip/iproute.c:1849-1853 | `exact` is equality of address sets |
| PrefixSelectors.DefaultSelectsDefaults | ip/iproute.c:192-209 | without a family the exact selector of length zero selects the default routes of every family |
| ListHead.Link | include/list.h:22-30 | insertion between neighbours keeps one ring with mutually inverse links |
| ListHead.Add | include/list.h:32-35 | head insertion prepends |
| ListHead.AddTail | include/list.h:37-40 | tail insertion appends |
| ListHead.Del | include/list.h:42-51 | deletion removes exactly the entry, which keeps its own links |
| ListHead.IsEmpty | include/list.h:111-114 | empty exactly when the ring has no member |
| ListHead.Forward | include/list.h:68-71 | the loop visits exactly the members in order |
| ListHead.Backward | include/list.h:79-82 | the reverse loop visits the reversed sequence |
| ListHead.ReversedAt | include/list.h:79-82 | member i of the reversed sequence is member n-1-i |
| ListHead.DrainSafely | include/list.h:73-77 | the deletion-safe loop visits every original member once and leaves the list empty |
| Hlist.PushLayout | include/list.h:101-109 | head insertion keeps every chain of the table intact, with each `pprev` at the link that refers to the node |
| Hlist.PopLayout | include/list.h:92-99 | deletion through `pprev` removes the node from its chain and leaves all others alone |
| Hlist.Table.AddHead | include/list.h:101-109 | the bucket's chain gets the node in front, all others are unchanged |
| Hlist.Table.Del | include/list.h:92-99 | the node leaves its chain and the table |
| NsidCache.Cache.GetByNsid | ip/ipnetns.c:160-173 | a record is found if and only if the abstract map has the id, and it is that record |
| NsidCache.Cache.Insert | ip/ipnetns.c:199-212 | both indexes and the map gain the record |
| NsidCache.Cache.Add | ip/ipnetns.c:190-213 | existing id, no memory or success, and the map changes only on success |
| NsidCache.Cache.Delete | ip/ipnetns.c:215-220 | both indexes and the map lose exactly this record |
| NsidCache.Handle | ip/ipnetns.c:322-335 | a notification changes the cache as it changes the plain map |
| NsidCache.HandleAll | ip/ipnetns.c:234-260 | after any run both indexes hold the same nodes, each once and in its own bucket, and the cache is the plain map |
| NsidCache.CachedAfterRun | ip/ipnetns.c:322-335 | after any run an id is cached if and only if it was cached at the last event that fixes it and has been announced an even number of times since, or was not and an odd number of times |
| NsidCache.NamedIsLast | ip/ipnetns.c:322-335 | the position used below is that of the last event that cached the id |
| NsidCache.NameAfterRun | ip/ipnetns.c:322-335 | after any run a cached id has the name carried by the last event that cached it, the name of the directory entry or the one found for the announcement, or its name at the start if none did |
| NsidCache.NewTwiceForgets | ip/ipnetns.c:322-335 | after any run one more announcement caches an id if and only if it is not cached |
| LinkedChain.InsertHere | ip/ipmaddr.c:80-81 | storing through the link address inserts at exactly that position |
| LinkedChain.RemoveHere | ip/ipaddress.c:1654-1656 | storing through the link address removes exactly that cell |
| MulticastList.MaddrIns | ip/ipmaddr.c:72-82 | the entry goes in front of the first entry with a greater index |
| MulticastList.ListIsAStableSort | ip/ipmaddr.c:72-82 | inserting any entries one by one yields their stable sort by interface |
| MulticastList.MultiaddrList | ip/ipmaddr.c:280-287 | one line per entry, sorted by interface; the lines of an interface are its entries in the link file, the IPv4 file and the IPv6 file, in this order, each file exactly when its family is wanted; groups nest if and only if no entry has index zero; with positive indices and not on one line there is one group per interface, on one line one per entry |
| MulticastList.PrintMlist | ip/ipmaddr.c:224-258 | the loop emits exactly the events of its specification |
| MulticastList.LinesOfPrinted | ip/ipmaddr.c:224-258 | the printing loop prints each entry of the list once, in order |
| MulticastList.OnelineOpens | ip/ipmaddr.c:230-236 | on one line each entry opens a group of its own |
| MulticastList.GroupsNest | ip/ipmaddr.c:224-258 | every group is closed and every line stands in its own interface's group if and only if no index is zero |
| MulticastList.OneGroupPerInterface | ip/ipmaddr.c:224-258 | a sorted list gets one group per interface in increasing order, none left out and none invented |
| MulticastList.GroupsOfTheFiles | ip/ipmaddr.c:224-258 | both together for any stable sort of entries with positive indices |
| MulticastList.NestsWithoutZero | ip/ipmaddr.c:224-258 | the groups of any stable sort nest, on one line or not, if and only if no entry has index zero |
| VlanRanges.PrintVlanInfo | bridge/vlan.c:627-663 | the loop shows exactly what its specification says, with the tristate filter and the early stop |
| VlanRanges.ShowsWanted | bridge/vlan.c:242-253 | exactly the ranges that contain the filter are shown if and only if the early stop loses nothing |
| VlanRanges.SortedShowsWanted | bridge/vlan.c:627-663 | for sorted disjoint ranges nothing is lost for any filter, and without one everything is shown |
| VlanRanges.SentIdsAreVlans | bridge/vlan.c:197-213 | the ids sent for accepted arguments are below 4096 if and only if the first does not become a negative short |
| VlanRanges.FlagsAreSent | bridge/vlan.c:99-123 | every entry sent carries the pvid and untagged flags given; with a dash, and only then, there are two, the first marked as begin and the second as end |
| VlanRanges.AcceptedRangeRoundTrips | bridge/vlan.c:99-123 | accepted arguments are sent as the range that was typed if and only if its ids are in order and fit sixteen bits, and then every filter shows it correctly |
| VlanRanges.BackwardRangeIsAccepted | bridge/vlan.c:197-213 | `40000-100` is accepted, and sent and shown as a backward range |
| VlanRanges.PrintVlanTunnelInfo | bridge/vlan.c:273-338 | the loop shows exactly what its specification says, with both starts remembered |
| VlanRanges.ShowsTunnels | bridge/vlan.c:273-338 | what is shown of a stream of tunnel ranges is what the filter wants with its ids cut to sixteen bits, if and only if the early stop loses nothing |
| VlanRanges.TunnelsShownAsSent | bridge/vlan.c:261-271 | a stream of tunnel ranges is shown as it is if and only if the early stop loses nothing and the ids of the wanted ranges are below 65536 |
| VlanRanges.TunnelRangeRoundTrips | bridge/vlan.c:82-97 | accepted arguments are sent as the tunnel range that was typed if and only if its VLANs are in order and, for a range, below 4096 |
| LinkFilter.StoreNlmsg | ip/ipaddress.c:1464-1485 | appending keeps head, tail and sequence in agreement |
| LinkFilter.Judge | ip/ipaddress.c:1620-1653 | a link stays if and only if it has a wanted address, or none at all and the family is unspecified or packet |
| LinkFilter.WantedMeaning | ip/ipaddress.c:1629-1648 | an address is wanted if and only if its family is asked for, scope and flags agree with the filter in the bits of their masks, and label and address match; IFA_FLAGS wins over the flags of the header, IFA_LOCAL over IFA_ADDRESS |
| LinkFilter.FullMask | ip/ipaddress.c:1631-1638 | a full mask asks for equality |
| LinkFilter.NoMask | ip/ipaddress.c:1631-1638 | a zero mask accepts everything |
| LinkFilter.CutLinks | ip/ipaddress.c:1613-1659 | the cells left are those of the links that stay, in order |
| LinkFilter.IpaddrFilter | ip/ipaddress.c:1609-1660 | the list becomes the order-preserving subsequence of links that stay, and the tail pointer remains right if and only if the last link stays |
| LinkFilter.PrintSelected | ip/ipaddress.c:1429-1461 | the addresses printed are those that belong to the link, up to the first truncated message |
| LinkFilter.PrintsSomething | ip/ipaddress.c:1263-1284 | something is printed if and only if an address belongs to the link and no truncated one comes before |
| LinkFilter.StayingLinkPrints | ip/ipaddress.c:1609-1660 | a link stays if and only if it prints an address or has none and links are asked for, with whole messages and without interface and state filters |
| PrintNum.Scale | ip/ipaddress.c:508-531 | for every 64-bit count from the base on: the divisor is the k-th power of the base, 1 <= k <= 6, the quotient lies in [1, base), no product overflows, and the precision follows the quotient |
| Broadcast.Derive | ip/ipaddress.c:2227-2234 | the network bits are kept and all host bits set or cleared |
| Broadcast.DerivedIsExtreme | ip/ipaddress.c:2227-2234 | that is the highest or lowest address of the network |
| ResourceTree.Resources.AddTail | devlink/devlink.c:4186-4195 | a fresh node becomes the last in its parent's list |
| ResourceTree.Resources.GetOne | devlink/devlink.c:4164-4181 | one resource is filled in, linked to its parent and followed by all that is below it; if it is bad, it stays as allocated or ends with what was built of its list |
| ResourceTree.Resources.GetList | devlink/devlink.c:4182-4203 | a list of attributes becomes the preorder layout of its trees behind what is there; failure if and only if some attribute is bad, and then exactly the part up to it is there, with the node of the bad attribute empty and without a parent |
| ResourceTree.Resources.ResourcesGet | devlink/devlink.c:4286-4289 | a message's trees are added behind those of earlier messages, all of them or those up to the first bad attribute |
| ResourceTree.GotAll | devlink/devlink.c:4151-4203 | of good attributes everything is built |
| ResourceTree.TreesDescribe | devlink/devlink.c:4151-4203 | the trees built have the names and ids of the attributes, in order and at every depth |
| ResourceTree.GoodMeaning | devlink/devlink.c:4151-4203 | a list is good if and only if every attribute parses, has name, id and sizes, and has a good list |
| ResourceTree.LayoutLinked | devlink/devlink.c:4151-4203 | every node is in the list of the parent it points to, and comes after it |
| ResourceTree.LayoutAt | devlink/devlink.c:4151-4203 | where the j-th tree of a list is in memory |
| ResourcePath.ResourceFind | devlink/devlink.c:3438-3461 | the search returns the first node in preorder with the id, or there is none |
| ResourcePath.FillPath | devlink/devlink.c:3476-3495 | the measured buffer is filled exactly: the cursor ends on its base, the last byte is NUL, and it holds the names from the root down |
| ResourcePath.ResourcePathPrint | devlink/devlink.c:3463-3496 | the path printed is that of the first resource with the id, and nothing is printed if there is none |
| ResourcePath.Strtok | devlink/devlink.c:4391-4398 | one call yields the next maximal piece without a slash |
| ResourcePath.FindByName | devlink/devlink.c:4366-4376 | the first in the list with the name |
| ResourcePath.ResourcePathParse | devlink/devlink.c:4378-4409 | the id, cut to 32 bits, of where the names lead from the top; an error if a name is missing |
| ResourcePath.TokensOfPath | devlink/devlink.c:3485-3493 | the names of a printed path are recovered by the tokenizer |
| ResourcePath.NamesLeadBack | devlink/devlink.c:4378-4409 | with unique names among siblings the names of a node lead back to it |
| ResourcePath.PathLeadsBack | devlink/devlink.c:4378-4409 | the path printed for a node parses to the low 32 bits of its id |
| ResourcePath.PrintThenParse | devlink/devlink.c:3463-3496 | printing the path of an id and parsing it yields the id if and only if the id is below 2^32 |
| Decimal.PrintedIndexReadsBack | devlink/devlink.c:489-501 | what `%d` prints is read back below 2^31 and refused from there on, where `strtoul` takes it for the index sign-extended to 64 bits |
| Decimal.PercentDTells | devlink/devlink.c:1321 | `%d` prints different numerals for different 32-bit indices |
| PortHandle.Lookup | devlink/devlink.c:430-445 | the first entry with the interface name |
| PortHandle.RevLookup | devlink/devlink.c:447-462 | the first entry with the port |
| PortHandle.ByNameFirst | devlink/devlink.c:430-445 | the map gives the port of the first entry with the name, and none if there is no such entry |
| PortHandle.ByPortFirst | devlink/devlink.c:447-462 | the map gives the name of the first entry with the port, and none if there is no such entry |
| PortHandle.SlashCount | devlink/devlink.c:464-474 | the number of slashes |
| PortHandle.SlashRSplit | devlink/devlink.c:476-487 | the parts before and after the last slash |
| PortHandle.PrintPort | devlink/devlink.c:1318-1323 | the interface name of the port if wanted and known, `bus/dev/index` otherwise |
| PortHandle.PortTextMeaning | devlink/devlink.c:1318-1323 | an interface name is printed if and only if one is wanted and the map has the port, and then it is the first; otherwise `bus/dev/index` |
| PortHandle.ParsePort | devlink/devlink.c:539-604 | by number of slashes: the map entry of the name, the triple of the string, or an error |
| PortHandle.PrintThenParse | devlink/devlink.c:1318-1323 | the printed handle parses back to the port if and only if its interface name is the first entry of that name, or, printed in full, the names have no slash and the index is below 2^31 |
| PortHandle.UniqueNamesLeadBack | devlink/devlink.c:430-462 | with unique interface names and names without a slash only a large index without an interface name fails |
| PortHandle.PlainTells | devlink/devlink.c:1321 | two ports printed in full share a key if and only if they have the same index and bus and device run together to the same text |
| PortHandle.PortTextTells | devlink/devlink.c:1318-1323 | two ports share a key if and only if both have the same interface name, or neither has one and they are printed to the same text |
| PortHandle.UniqueNamesTell | devlink/devlink.c:1318-1323 | with unique interface names and buses without a slash the key determines the port |
| Occupancy.Show.PortGet | devlink/devlink.c:2299-2316 | the port with the index, appended if there is none |
| Occupancy.Show.Process | devlink/devlink.c:2395-2470 | after any messages the ports are those accepted, in first-seen order, each of the three lists the order-preserving selection of the messages |
| Occupancy.SeenOnce | devlink/devlink.c:2299-2316 | no port twice |
| Occupancy.SeenIffNamed | devlink/devlink.c:2299-2316 | a port is listed if and only if an accepted message names it |
| Occupancy.SamePortSameKey | devlink/devlink.c:1138-1173 | for accepted messages the port index alone identifies device, port and shared buffer |
| Occupancy.OnePort | devlink/devlink.c:1138-1173 | with a port given exactly that port is collected, with what the dump of the whole device has for it |
| Occupancy.ItemIsListed | devlink/devlink.c:2395-2470 | the item of every accepted message is in the list of its kind under its port, behind those of the messages before it |
| Occupancy.ItemsAreConserved | devlink/devlink.c:2395-2470 | as many items are collected as accepted messages have a list |
| JsonWriter.ParseWritten | lib/json_writer.c:123-196 | the tokens of any document parse back to that document |
| JsonWriter.MembersConcat | lib/json_writer.c:47-52 | where commas go when members are written one after the other |
| JsonWriter.Writer.Begin | lib/json_writer.c:123-129 | a separator if one is due, the bracket, one level deeper, and nothing due |
| JsonWriter.Writer.End | lib/json_writer.c:131-140 | the bracket, one level up, and a separator due |
| JsonWriter.Writer.Name | lib/json_writer.c:144-153 | a separator if one is due and the name, after which none is due |
| JsonWriter.Writer.Field | lib/json_writer.c:259-263 | exactly one member of the object at hand |
| JsonStrings.Puts | lib/json_writer.c:57-90 | the characters in order, each by its escape, between quotes |
| JsonStrings.PutsReadsBack | lib/json_writer.c:57-90 | the literal denotes the string if and only if it has no backslash, no apostrophe and no control character without an escape |
| JsonStrings.BackslashAndApostrophe | lib/json_writer.c:77-85 | a backslash is read back as a newline, and an apostrophe not at all |
| JsonStrings.LiteralTells | lib/json_writer.c:57-90 | two strings are written as the same literal if and only if they differ at most in backslashes for newlines |
| DevlinkReports.NumbersShown | devlink/devlink.c:1396-1414 | a number is shown as it is if and only if it is below 2^32 or, as a size, is the greatest 64-bit number |
| DevlinkReports.ArrayEnd | devlink/devlink.c:1454-1462 | closing an array makes it one member of the enclosing object |
| DevlinkReports.EntryEnd | devlink/devlink.c:1470-1476 | closing an entry makes it one item of the enclosing array |
| DevlinkReports.OpsShow | devlink/devlink.c:3418-3436 | one object per match or action, an empty one for the first that cannot be parsed, and the verdict |
| DevlinkReports.TableShow | devlink/devlink.c:3498-3566 | exactly the members of the table report, with both arrays closed on every exit |
| DevlinkReports.ValuesShow | devlink/devlink.c:3865-3951 | one object per value, an empty one or none for the first bad value |
| DevlinkReports.EntryShow | devlink/devlink.c:3953-3995 | exactly the members of the entry report, on every exit |
| DevlinkReports.UsesShow | devlink/devlink.c:4237-4256 | the names of the tables that use the resource as one array, or the word none |
| DevlinkReports.ResourceShow | devlink/devlink.c:4213-4271 | exactly the members of the resource report with all that is below it, whose values `ReportValues.ResourceIsRead` states |
| DevlinkReports.KidsShow | devlink/devlink.c:4265-4270 | one object per child in order |
| ReportNames.FindsGiven | devlink/devlink.c:4213-4271 | where no name is given twice, a reader finds under each name its value if it has one and nothing otherwise |
| ReportNames.TableWell | devlink/devlink.c:3498-3566 | in a table report the names of every object differ, at every depth and on every exit |
| ReportNames.EntryWell | devlink/devlink.c:3953-3995 | the same for an entry report |
| ReportNames.ResourceWell | devlink/devlink.c:4213-4271 | the same for a resource report with all that is below it |
| ReportValues.OpsShown | devlink/devlink.c:3418-3436 | type, header, field and mapping of each match or action are found under these names, up to and with the first that cannot be parsed, which is an empty object |
| ReportValues.TableShows | devlink/devlink.c:3498-3566 | each field of a table is found under its name, the optional ones if and only if they are there, the actions if and only if every match could be parsed; nothing else is |
| ReportValues.ValuesShown | devlink/devlink.c:3865-3951 | the same for values, which end before the first incomplete one or with an empty object for the first that cannot be parsed |
| ReportValues.EntryShows | devlink/devlink.c:3953-3995 | the same for table entries |
| ReportValues.UsesShown | devlink/devlink.c:4237-4256 | `dpipe_tables` lists exactly the tables that use the id, in order, or says none |
| ReportValues.ResourceShows | devlink/devlink.c:4213-4271 | each field of a resource is found under its name: the new size if and only if it differs, limits and granularity if and only if least and greatest size differ, the validity if and only if a change below is pending, the children in order, at every depth |
| ReportValues.ResourceIsRead | devlink/devlink.c:4213-4271 | the same of the report as parsed back from its tokens; and the number read under each name is that of the field if and only if it is printed and fits 32 bits or, for sizes, is the greatest one |
| DevlinkSections.Section.Start | devlink/devlink.c:1421-1428 | two objects open, no group yet |
| DevlinkSections.Section.HandleStart | devlink/devlink.c:1217-1243 | the last group's array stays open for the same handle, and is closed and a new one opened for another |
| DevlinkSections.Section.HandleEnd | devlink/devlink.c:1265-1271 | the report becomes the last item of the open group |
| DevlinkSections.Section.End | devlink/devlink.c:1430-1438 | the output is the document of all groups, at depth zero |
| DevlinkSections.Callback | devlink/devlink.c:3568-3587 | a message adds its reports up to the first bad one to the groups |
| DevlinkSections.RunSection | devlink/devlink.c:4350-4353 | for any messages, wherever they go bad, the output of a section is one complete document, it parses to the document of the reports shown, and depth returns to zero |
| DevlinkSections.GroupingKeepsReports | devlink/devlink.c:1217-1243 | grouping loses no report, invents none, keeps their order and puts each under its own handle |
| DevlinkSections.OneGroupPerHandle | devlink/devlink.c:1185-1215 | no handle is opened twice if and only if the reports of each handle are contiguous |
| DevlinkSections.DeviceTextSplits | devlink/devlink.c:510-537 | splitting the device key at its last slash gives bus and device if and only if the device has no slash in its name |
| DevlinkSections.DeviceTextTells | devlink/devlink.c:1224 | for buses without a slash the printed device handle determines the device |
| DevlinkSections.EachKeyOnce | devlink/devlink.c:1217-1349 | for any printer of handles no key occurs twice in the section if and only if the reports of each handle are contiguous and the printer tells the handles apart |
| DevlinkSections.EachDeviceKeyOnce | devlink/devlink.c:1217-1243 | for devices on buses without a slash contiguity alone decides |
| DevlinkSections.EachPortKeyOnce | devlink/devlink.c:1310-1343 | for ports no key occurs twice if and only if the reports are contiguous and no two of the ports have the same interface name in the map |
| DevlinkSections.UniqueNamesDiffer | devlink/devlink.c:447-462 | with unique interface names no two ports share one |
| DevlinkSections.DocumentIsWellNamed | devlink/devlink.c:1421-1438 | in the document of a whole section the names of every object differ, at every depth, if and only if the reports of each handle are contiguous and the printer tells the handles apart |
| DevlinkSections.EachLiteralOnce | devlink/devlink.c:1217-1349 | no key is written twice if and only if the reports of each handle are contiguous and the printed handles differ by more than backslashes for newlines |
| DevlinkSections.DocumentIsLiterallyNamed | devlink/devlink.c:1421-1438 | without backslashes in its names the document of a section has differently written names in every object under the same condition |
| SectionReports.AllShown | devlink/devlink.c:3568-3587 | the reports shown are those due, in order, up to a refused message or up to and with the first bad report, each with the values of its fields |
| SectionReports.SectionIsRead | devlink/devlink.c:1421-1438 | the document of a section parses back, and its items, read in order, are these reports, each under the text of its handle |

## Left out

- Sockets, ioctls, /proc, mounts, network namespaces, plugins and process execution: environment.
- The kernel: a function-valued environment with the properties named in each contract; `SendsMessages`, `Snapshot`, `Deletes`, `Progresses`, `DeletesOrFails` and `OnlyMarks` are assumptions about it, not claims, and speak of tables whose entries fit the flush buffer.
- Text output, colour, help and the link-type option parsers: flat branch chains.
- `ip -s route flush` statistics, cached routes, and the sticky `ip6_multiple_tables` of `filter_nlmsg`: they would only add easy members.
- The fields of `filter_nlmsg` other than the prefixes: independent tests one line long.
- `lwt_parse_encap`: it adds RTA_ENCAP, whose contents are opaque bytes, and RTA_ENCAP_TYPE with the type.
- NextHopEncoder.EncodeNextHops: takes next hops that fit the 1024-byte buffer of `parse_nexthops` as a precondition; beyond it the program writes outside its buffer.
- Negated address flags of `get_filter`: the filter's flags and mask are taken as given.
- `atoi` and `strchr` in front of the VLAN range checks: the typed numbers are taken as given; their conversion to `short` is modelled.
- Hlist.Table.Del: works on a memory from addresses to cells instead of heap objects, with fresh addresses that are never reused, so it does not capture a freed node being allocated again.
- NsidCache.Cache.Add: names are hashed as ASCII characters.
- PrefixSelectors.MatchComparesPrefix: works on bit strings with the most significant bit first, so it does not model byte order.
- LinkFilter.PrintSelected: label patterns and prefixes enter as the predicates they define, and `print_linkinfo`, which may hide a link altogether, is not part of the model.
- ResourceTree.Resources.GetList: nodes are positions in allocation order instead of heap objects, so it does not capture aliasing between lists.
- Resource sizes beyond what the report prints, `DEVLINK_ATTR_RESOURCE_SIZE_VALID` missing from a resource with children, and `pending_change` as it is computed: taken as given by the report.
- PortHandle.PrintThenParse: takes interface names without a slash, as the kernel guarantees, and a 64-bit `unsigned long`; with 32 bits a negative index would be read back.
- DevlinkSections.Section.HandleStart: handles of one section are all devices or all ports, as in every command, so comparing them is equality.
- DevlinkSections.RunSection: one section from a fresh context; several commands of one batch, which share the writer and `arr_last`, are left out.
- JsonWriter.ParseWritten: works on tokens; whitespace is left out, and strings are treated in `JsonStrings`, without the four-digit escapes, which are never written.
- Sections whose handles open plain objects, and the JSON form of occupancy: they would only add easier documents.
- Indentation of `devlink` text output: saturates on the way in only, and is not modelled.
- `dl_argv_parse`: which options are present is taken as given.
- RouteRestore.Restore: a header read short keeps the old bytes, which the model has, but flag bits that the handler set in them are not tracked.
- Allocation failure other than in `netns_map_add`, freeing, and fixed `sprintf` buffers: preconditions or left out.
