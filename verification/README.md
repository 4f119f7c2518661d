# test-pmd packet and rule logic, modelled and proved

This project models the parts of DPDK's `test-pmd` application that carry real logic and proves what
they promise. Each module follows one source component:

- `VcArena`: the output buffer of the flow validate/create parser. It is real memory here: item and action
  records and the blocks they point to are bytes, and the parser's invariant says which bytes hold which
  accepted item or action.
- `BitFill`, `Prefix`: spreading a value over the bits of a mask in either byte order, and turning a prefix
  length into a mask.
- `RawEncap`: building encapsulation headers backwards from the tail of a 512-byte buffer.
- `FwdConfig`, `SharedRxq`: assigning streams to receive and transmit queues and to lcores, and checking
  that no shared receive queue is polled from two lcores.
- `Registry`, `IndirectActions`, `FlowRules`: the linked lists of indirect actions and flow rules, and the
  listing that sorts rules through a second link.
- `PortList`: the port list parser.
- `Mbufs`, `CopySplit`, `PktSegs`: segmented packets, repacking one into new segments, and writing a flat
  buffer into one.
- `Checksum`, `Frames`, `IcmpEcho`: one's complement arithmetic (RFC 1071), the two IPv4 checksum routines
  (RFC 791, section 3.1), the echo reply and its incremental checksum (RFC 1624, section 3).
- `FiveTuple`, `MacSwap`: rewriting addresses and ports in place; the SSE and NEON forms of the MAC swap
  against the scalar one.
- `FlowGen`: the flow counter and reference counts of generated bursts.

Code that changes state is modelled by classes, arrays and methods with loops; each method is proved against
a specification function, and the lemmas say what that function means. Drivers, allocators and the C library
are parameters or arbitrary results: `tx_burst` may take any number of packets, an allocation or a driver
call may fail at any time. `byte` is a number below 256; C integer widths that matter are written out.

Some promises turned out to hold only under a condition. The code is kept as it is, and the exact condition
is proved, or required where the code would leave its buffers:

- `parse_prefix` counts whole bytes in an `unsigned int`, so it accepts lengths 2^35 apart alike
  (`Prefix.LengthWraps`); an accepted length is the right one exactly below 2^35 (`Prefix.PlainPrefixIff`).
  A masked field is right, and agrees with a plain one, exactly up to 64 bits (`Prefix.MaskedPrefix`,
  `Prefix.BranchesAgree`).
- `pkt_copy_split` does not stop when the first segment lacks tailroom, so `CopySplit.PktCopySplit` requires
  that the first chunk fits the segment. Enough total room is not enough for success (`CopySplit.RoomIsNotEnough`).
- The vector forms of the MAC swap differ from the scalar one when a frame occurs twice in a group of four
  (`MacSwap.TwiceInAGroup`); `MacSwap.FormsAgree` says exactly when they agree.
- The RSS setup divides queues among processes but not the number of streams: with several processes and more
  than one queue per port, streams repeat each other's polls (`FwdConfig.DistinctPollsIff`). Lcore ranges
  cover the streams exactly when there are no more lcores than streams (`FwdConfig.SharesCover`).
- A reply to an intact echo request verifies exactly when some reply byte outside type, code and checksum
  is not zero (`IcmpEcho.MessageVerifiesIff`); its checksum is what a full computation gives, modulo 65535,
  exactly when the request was intact (`IcmpEcho.UpdatedIsFullIff`). The ICMP header is taken to start behind
  20 bytes, so with IP options it is written over them: a unicast answer keeps the header's word sum modulo
  65535 and the sum itself exactly when the update does not wrap (`IcmpEcho.UnicastHeader`,
  `IcmpEcho.UnicastSumIff`), and a multicast answer, whose new checksum
  covers 20 bytes, has an intact header exactly when the request's options sum up to a multiple of 65535
  (`IcmpEcho.MulticastHeaderWithOptions`).
- The 5-tuple swap undoes itself for IHL 5 and above, and below that exactly under the condition of
  `FiveTuple.UndoneIff`.
- An encapsulation keeps one number for "the layer above", so an IP header with a zero protocol field that carries
  another IP header or a VLAN tag gets the low byte of an Ethernet type: 0, or 0xDD for IPv6 (`RawEncap.NamesNext`).
- `parse_port_list` reads an empty item as port 0 (`PortList.EmptyItem`) and takes numbers past the range of
  `int` modulo 2^32 (`PortList.NumberWraps`, `PortList.NumberWrapsAt2To32`). For lists of numbers, ranges and
  empty items, `PortList.AsIntendedIff` says exactly when the result is the promised one. If all numbers
  written are below the limit: when port 0 is named before the first empty item that a comma follows, or is
  the first new port named behind it, or there is no such item. If not: when some number is past the range of
  `long` or still not below the limit modulo 2^32, or only ranges are listed that wrap into empty ones.

## Model

| member | source | states |
|---|---|---|
| VcArena.Parser.constructor | testpmd/test-pmd/cmdline_flow.c:5455-5478 | the header is cleared, the rest filled with 0x22, and the invariant holds with no entries |
| VcArena.Parser.ParseVc | testpmd/test-pmd/cmdline_flow.c:5616-5735 | an item or action is accepted exactly when its record still fits below its 8-byte aligned block; then it joins the entries as [type, 0, 0, 0] or [type, configuration] with a zeroed block of three objects or one, and every earlier record and block keeps its bytes; token by token, all header fields, attribute flags and context fields after it; a refused token changes no entry and no byte |
| VcArena.Parser.ParseKeyword | testpmd/test-pmd/cmdline_flow.c:5641-5689 | the tokens other than items and actions, among them the attribute and tunnel flags |
| VcArena.TokenDone | testpmd/test-pmd/cmdline_flow.c:5635-5734 | token by token, without the step function: the flags set, the target, where an array begins, the counters and the lowest block |
| VcArena.AddedIsFresh | testpmd/test-pmd/cmdline_flow.c:5695-5734 | the entry an element becomes: its type, its place in its array, no pointers but a configuration, a zeroed aligned block right below the earlier ones |
| VcArena.Parser.ParseElement | testpmd/test-pmd/cmdline_flow.c:5690-5734 | the default of the switch: an item while the pattern is filled, then an action |
| VcArena.Parser.PlaceItem | testpmd/test-pmd/cmdline_flow.c:5695-5734 | the item branch: record at the end of the item array, room for spec, last and mask right below the earlier blocks |
| VcArena.Parser.PlaceAction | testpmd/test-pmd/cmdline_flow.c:5712-5734 | the action branch: record at the end of the action array, its configuration pointer set only for a non-empty block |
| VcArena.Parser.StartPattern | testpmd/test-pmd/cmdline_flow.c:5674-5680 | the item array starts at the first aligned address behind the header |
| VcArena.Parser.StartActions | testpmd/test-pmd/cmdline_flow.c:5681-5689 | the action array starts at the aligned end of the items and overlaps none of them |
| VcArena.Parser.ParseVcSpec | testpmd/test-pmd/cmdline_flow.c:5739-5797 | refused exactly without an item or, for a prefix, without two stacked token lists; otherwise the record [type, spec, last, mask] of the last item holds the object's address in spec for "spec" and "is", in last for "last", in mask for "mask" and "prefix", and for "is" the mask object's in mask; the object is the first, second or third third of that item's own block; no other field and no other entry changes |
| VcArena.Parser.PointItem | testpmd/test-pmd/cmdline_flow.c:5788-5796 | the pointer stores into the last item, the mask first |
| VcArena.PointsAt | testpmd/test-pmd/cmdline_flow.c:5764-5796 | the new record field by field, and that no other entry changes |
| VcArena.Parser.ParseVcConf | testpmd/test-pmd/cmdline_flow.c:5801-5819 | the object is the block of the last action |
| VcArena.Parser.Store | testpmd/test-pmd/cmdline_flow.c:5373-5437 | a value stored at an in-bounds offset changes those bytes of the last entry's block, and of its mask, and nothing else in the buffer |
| VcArena.Parser.StoreAttribute | testpmd/test-pmd/cmdline_flow.c:2440-2486 | an attribute's value stays in the header and touches no entry |
| VcArena.Parser.Run | testpmd/test-pmd/cmdline_flow.c:5616-5819 | after any command line, up to the first word not accepted: the number of words taken and the entries are those the words say; records and blocks are pairwise disjoint, inside the buffer behind the header, blocks aligned, and hold these entries; in every state reached each item's spec, last and mask pointers are NULL or lead to the first, second and third third of its own block, and each action's configuration pointer to its own block |
| VcArena.Parser.TakeWord | testpmd/test-pmd/cmdline_flow.c:5616-5819 | one word, possible or not, and the fields and entries after it |
| VcArena.StepKeepsPointers | testpmd/test-pmd/cmdline_flow.c:5616-5819 | one word keeps every pointer absent or at the right third of its own block |
| VcArena.LayoutDisjoint | testpmd/test-pmd/cmdline_flow.c:5695-5734 | the order the parser keeps (records up, blocks down) makes any two records, any two blocks, and any record and block disjoint |
| VcArena.LayoutIsDisjoint | testpmd/test-pmd/cmdline_flow.c:5695-5734 | the same for all records and blocks at once |
| VcArena.Extend | testpmd/test-pmd/cmdline_flow.c:5700-5734 | a record above the old ones and a zeroed block below the old ones keep every earlier entry's bytes |
| VcArena.SetField | testpmd/test-pmd/cmdline_flow.c:5788-5796 | writing one pointer of a record changes that field of that entry only |
| VcArena.SetContent | testpmd/test-pmd/cmdline_flow.c:5404-5432 | writing inside one block changes that block only |
| VcArena.WordRead | testpmd/test-pmd/cmdline_flow.c:5794-5795 | a pointer written as eight bytes reads back as itself |
| BitFill.Arg.Bits | testpmd/test-pmd/cmdline_flow.c:5315-5351 | the mask bits in filling order lie inside the field |
| BitFill.ArgEntryBfFill | testpmd/test-pmd/cmdline_flow.c:5315-5351 | returns the number of set mask bits, also without an object; the mask bits of the field, read from the last byte to the first in network order and from the first to the last otherwise, are then the value modulo 2^bits, and every bit outside the mask is as before |
| BitFill.FillStores | testpmd/test-pmd/cmdline_flow.c:5315-5351 | the same of the bits filled, for any memory, mask and byte order |
| BitFill.PositionsRead | testpmd/test-pmd/cmdline_flow.c:5318-5349 | reading the visited positions is reading the masked field byte by byte in its byte order |
| BitFill.GatherReads | testpmd/test-pmd/cmdline_flow.c:5336-5347 | and within a byte, bit by bit from the lowest |
| BitFill.FillByte | testpmd/test-pmd/cmdline_flow.c:5336-5347 | one mask byte: stopping at its highest set bit loses none |
| BitFill.PosUpToMembers | testpmd/test-pmd/cmdline_flow.c:5324-5336 | the visited positions are exactly the mask bits, each once, from the front or for network order from the back |
| BitFill.Rising | testpmd/test-pmd/cmdline_flow.c:5318-5349 | they are visited in the order of their significance in the field's byte order |
| BitFill.SetBitBits | testpmd/test-pmd/cmdline_flow.c:5343-5344 | clearing and setting a bit changes that bit only |
| BitFill.FillBits | testpmd/test-pmd/cmdline_flow.c:5343-5345 | after filling, the n-th position holds bit n and every other bit is as before |
| BitFill.ReadBack | testpmd/test-pmd/cmdline_flow.c:5315-5351 | for any mask and either byte order, the mask bits read back in filling order are the value modulo 2^bits |
| BitFill.OthersKept | testpmd/test-pmd/cmdline_flow.c:5343-5344 | every bit outside the mask, in the field or around it, is unchanged |
| Prefix.Context.ParsePrefix | testpmd/test-pmd/cmdline_flow.c:5373-5437 | when a length is accepted (in numbers: a plain one up to 8 times the size, a masked one up to the number of mask bits), what the field then reads in its byte order, plain or under the mask, that the object's mask reads as all ones, and that a refusal changes neither and puts the argument back |
| Prefix.Context.TakePrefix | testpmd/test-pmd/cmdline_flow.c:5373-5437 | the same byte by byte |
| Prefix.StoredMeans | testpmd/test-pmd/cmdline_flow.c:5392-5432 | the bytes written, read as a big-endian or little-endian number, are 2^w - 2^(w-u), and those of the mask all ones; nothing around the field changes |
| Prefix.AcceptedMeans | testpmd/test-pmd/cmdline_flow.c:5392-5413 | acceptance in numbers |
| Prefix.OnesReadField | testpmd/test-pmd/cmdline_flow.c:5392-5430 | reading under an all-ones mask is reading the field in its byte order |
| Prefix.Ones | testpmd/test-pmd/cmdline_flow.c:5401-5402 | shifting in u ones gives 2^u - 1 modulo 2^64 |
| Prefix.StoreMasked | testpmd/test-pmd/cmdline_flow.c:5400-5407 | the masked branch fails exactly for a mask without bits and otherwise fills prefix and mask |
| Prefix.WritePlain | testpmd/test-pmd/cmdline_flow.c:5416-5430 | whole bytes, the partial byte and zeros end up in the field's byte order |
| Prefix.PlainPrefix | testpmd/test-pmd/cmdline_flow.c:5409-5430 | below 2^35 exactly the lengths that fit are accepted, and the field read in its byte order is 2^w - 2^(w-u) |
| Prefix.PlainPrefixIff | testpmd/test-pmd/cmdline_flow.c:5409-5413 | of the accepted lengths, exactly those below 2^35 fit the field and fill it with u ones |
| Prefix.LengthWraps | testpmd/test-pmd/cmdline_flow.c:5409-5413 | lengths 2^35 apart are treated alike; 2^35 is accepted for every field as the empty prefix |
| Prefix.MaskedPrefix | testpmd/test-pmd/cmdline_flow.c:5392-5408 | the mask bits read back as 2^bits - 2^(bits-u), and the object's mask as all ones, exactly when there are at most 64 |
| Prefix.BranchesAgree | testpmd/test-pmd/cmdline_flow.c:5392-5430 | with an all-ones mask both branches write the same bytes exactly for fields of up to 8 bytes |
| Prefix.SameField | testpmd/test-pmd/cmdline_flow.c:5373-5437 | a field is determined by the value it has in its byte order |
| RawEncap.RawConf.SetRaw | testpmd/test-pmd/cmdline_flow.c:9068-9258 | a proper pattern leaves the in-order concatenation of its headers, the size being its length; any other leaves size 0 and an all-zero buffer |
| RawEncap.RawConf.AddItem | testpmd/test-pmd/cmdline_flow.c:9097-9248 | one item keeps the headers built so far behind it |
| RawEncap.RawConf.PutTrailer | testpmd/test-pmd/cmdline_flow.c:9153-9240 | which items are refused, and the option data, extension word or PSC bytes an accepted one adds behind its header |
| RawEncap.UpdateFields | testpmd/test-pmd/cmdline_flow.c:8800-8848 | the fields the command line cannot set, in place, and no other byte |
| RawEncap.AcceptedIff | testpmd/test-pmd/cmdline_flow.c:9177-9241 | item by item acceptance from the top means: all supported, at most one PSC option, and before it no GTP header but one right before it with only its E flag set |
| RawEncap.FieldsTold | testpmd/test-pmd/cmdline_flow.c:8811-8829 | in the finished headers, ETH type and zero IPv4 and IPv6 protocol fields are the number in force above |
| RawEncap.NamesNext | testpmd/test-pmd/cmdline_flow.c:9104-9248 | the number names the nearest layer above that has one: 0x8100, 0x0800 or 0x86DD in an ETH header, and where the IP protocol was zero 17, 6, 0x2F, 0x73, 0x32 or 0x33 |
| RawEncap.ReadsBack | testpmd/test-pmd/cmdline_flow.c:9068-9248 | a receiver that dispatches on those numbers reads ETH, IPv4 or IPv6, and the layer above from the finished bytes, and they are the pattern's |
| RawEncap.ReadsVlan | testpmd/test-pmd/cmdline_flow.c:9101-9108 | a VLAN tag above ETH is read as one |
| RawEncap.NothingAbove | testpmd/test-pmd/cmdline_flow.c:8811-8829 | without such a layer the fields stay as specified |
| RawEncap.HeaderBytes | testpmd/test-pmd/cmdline_flow.c:8811-8848 | every other header byte is the specification's; IPv4 version and length are defaulted, the IPv6 version is 6 with the rest of its byte kept, VXLAN, VXLAN-GPE and NVGRE flags are set |
| RawEncap.GtpExtended | testpmd/test-pmd/cmdline_flow.c:9177-9204 | a GTP header is followed by the extension word exactly when a PSC option follows it |
| RawEncap.OptionsInPlace | testpmd/test-pmd/cmdline_flow.c:9153-9240 | option data follow their option, a PSC option is its four bytes, and every other part is just its header |
| RawEncap.SizeIsSum | testpmd/test-pmd/cmdline_flow.c:9242 | the size of a proper pattern is the sum of its headers, option data and extension parts, in bytes by kind |
| FwdConfig.SetupEachLcore | testpmd/test-pmd/config.c:3102-3139 | every lcore's fields are its share: each range starts where the one before it ends, the longer ranges come last and are longer by one, and the ranges end with the last stream if there are at least as many streams as lcores; otherwise each is one long |
| FwdConfig.SharesCover | testpmd/test-pmd/config.c:3102-3139 | the ranges end at the last stream exactly when there are no more lcores than streams |
| FwdConfig.SharesEven | testpmd/test-pmd/config.c:3114-3120 | range sizes differ by at most one, later ranges being the longer ones |
| FwdConfig.OneLcoreEach | testpmd/test-pmd/config.c:3102-3139 | every stream is in exactly one range |
| FwdConfig.TopologyPermutes | testpmd/test-pmd/config.c:3142-3167 | in every topology transmit ports are a permutation of receive ports |
| FwdConfig.PairsAreMutual | testpmd/test-pmd/config.c:3150-3161 | paired ports answer each other; only the last of an odd number pairs with itself |
| FwdConfig.AssignStreams | testpmd/test-pmd/config.c:3247-3267 | stream by stream, which queue is polled and which is sent to |
| FwdConfig.PlannedRoutes | testpmd/test-pmd/config.c:3142-3267 | port and queue numbers of a stream, topology by topology |
| FwdConfig.RssFwdConfigSetup | testpmd/test-pmd/config.c:3208-3268 | the numbers of streams and lcores and all of them set up: stream by stream the receive port and the queue of the process in turn, and the same queue of the partner port, of the next port in the ring or of the port itself; in a single process with distinct forwarding ports, every receive queue below the limit is polled by exactly one stream object, which exactly one lcore runs, and every transmit queue below it is sent to by exactly one |
| FwdConfig.Serves | testpmd/test-pmd/config.c:3208-3268 | the same for one queue of one port, on the streams and lcores as set up |
| FwdConfig.EveryQueuePolledOnce | testpmd/test-pmd/config.c:3208-3268 | among the stream numbers exactly one polls a given position and queue, and it lies in some range (with OneLcoreEach, in exactly one) |
| FwdConfig.EveryQueueSentOnce | testpmd/test-pmd/config.c:3208-3268 | among the stream numbers exactly one sends to a given position and queue, in every topology |
| FwdConfig.DistinctPollsIff | testpmd/test-pmd/config.c:3223-3267 | no two streams of a process poll the same queue exactly with one process or at most one queue |
| SharedRxq.PktFwdSharedRxqCheck | testpmd/test-pmd/config.c:3051-3096 | true exactly when sharing is off or no two lcores list streams whose queues are both of sharing ports and equal in a non-zero group, domain and queue number; then every scheduled stream knows the last lcore that lists it |
| SharedRxq.StreamOnOtherLcores | testpmd/test-pmd/config.c:2997-3043 | finds exactly the streams of later lcores on the same shared queue |
| SharedRxq.ClearMeansNoClash | testpmd/test-pmd/config.c:3010-3042 | looking at later lcores only misses no clash |
| SharedRxq.ClashMeans | testpmd/test-pmd/config.c:2997-3043 | a clash in terms of the lcores' and streams' own fields |
| SharedRxq.CheckLcore | testpmd/test-pmd/config.c:3070-3094 | one lcore's streams are recorded, or a clash is found |
| Registry.Port.LinkIn | testpmd/test-pmd/config.c:1591-1593 | a node linked in where its id belongs keeps the list descending and everything else in place |
| Registry.Port.Unlink | testpmd/test-pmd/config.c:1673 | a node taken out leaves the rest in order |
| Registry.Port.TryDestroy | testpmd/test-pmd/config.c:1656-1677 | the attempts on one entry end with the first success, and whether one failed before it |
| Registry.Port.Destroy | testpmd/test-pmd/config.c:1652-1681 | a destroy request leaves exactly the entries no attempt removed, in the old order, and reports whether any attempt failed |
| Registry.KeptMeaning | testpmd/test-pmd/config.c:1653-1681 | an entry is left exactly when no listed id removed it |
| Registry.FirstDecides | testpmd/test-pmd/config.c:1656-1677 | some attempt at an entry fails exactly if the first one does |
| IndirectActions.ActionAlloc | testpmd/test-pmd/config.c:1549-1596 | how an allocation ends and the list with the fresh node inserted by id; a failure changes nothing |
| IndirectActions.FreeIdIsFree | testpmd/test-pmd/config.c:1561-1573 | an automatic id is not in use and below UINT32_MAX |
| IndirectActions.NewerSplits | testpmd/test-pmd/config.c:1581-1584 | the place the search finds separates larger from smaller ids and decides whether the id is in use |
| IndirectActions.AllocMeans | testpmd/test-pmd/config.c:1561-1596 | how an allocation ends and the id it is for, in numbers |
| IndirectActions.PortActionHandleCreate | testpmd/test-pmd/config.c:1600-1635 | success adds one action under the id asked for, or one above the id in front, which was free; out of memory exactly without memory or automatic id, invalid exactly for an invalid port or an id in use; any failure, the driver's included, restores the exact earlier list |
| IndirectActions.PortActionHandleDestroy | testpmd/test-pmd/config.c:1639-1683 | an entry goes exactly if a listed id is its own and it has no handle or the driver's answer to that attempt is yes; the driver's error is reported exactly if it says no to the first attempt at an entry that has a handle |
| IndirectActions.DestroyMeans | testpmd/test-pmd/config.c:1652-1681 | which entries are left and when the driver complained, for any answers of the driver |
| IndirectActions.Undone | testpmd/test-pmd/config.c:1625-1631 | destroying the id just inserted without a handle gives the old list back |
| FlowRules.PortFlowCreate | testpmd/test-pmd/config.c:2015-2073 | a new rule goes in front with the next id, unless ids are exhausted or the driver refuses, which changes nothing |
| FlowRules.PortFlowDestroy | testpmd/test-pmd/config.c:2077-2117 | a rule goes exactly if a listed id is its own and the driver's answer to that attempt is yes; the driver's error is reported exactly if it says no to the first attempt at a rule |
| FlowRules.DestroyMeans | testpmd/test-pmd/config.c:2087-2115 | which rules are left and when the driver complained, for any answers of the driver |
| FlowRules.PortFlowList | testpmd/test-pmd/config.c:2372-2412 | prints exactly the rules of the groups named, or all if none is, each before those of a larger group, then priority, then id; the rule list is as it was |
| FlowRules.InsertSorted | testpmd/test-pmd/config.c:2398-2411 | insertion at the place found keeps the order |
| FlowRules.SortedUnique | testpmd/test-pmd/config.c:2372-2412 | sortedness and contents determine the printed list |
| PortList.ParsePortList | testpmd/test-pmd/config.c:3704-3756 | on any text the caller's array gets what the specification says, never more than `maxsize` ports |
| PortList.ParseText | testpmd/test-pmd/config.c:3704-3756 | what the parser returns for any list of numbers, ranges and empty items, whatever their size: values modulo 2^32, nothing if a number is past the range of long or its wrapped value reaches the limit |
| PortList.AsIntendedIff | testpmd/test-pmd/config.c:3704-3756 | exactly when that is the promised result, the deduplicated expansion of the numbers written, or nothing if one of them reaches the limit |
| PortList.DedupMeaning | testpmd/test-pmd/config.c:3740-3748 | deduplication keeps exactly the elements, each once, in the order of first occurrence |
| PortList.ParseSound | testpmd/test-pmd/config.c:3704-3756 | on any text the ports are distinct and below the limit |
| PortList.AppendRange | testpmd/test-pmd/config.c:3740-3748 | the marks make a range append exactly its new numbers |
| PortList.EmptyItem | testpmd/test-pmd/config.c:3721-3738 | an empty item that a comma follows counts as port 0 |
| PortList.SignedNumber | testpmd/test-pmd/config.c:3727-3731 | a number behind white space and a sign: its negative for a minus, modulo 2^32, if it is in the range of long and then below the limit |
| PortList.NumberWraps | testpmd/test-pmd/config.c:3727-3731 | a number from the limit up whose value modulo 2^32 is below it is returned as a port |
| PortList.NumberWrapsAt2To32 | testpmd/test-pmd/config.c:3727-3731 | the text 4294967296 gives port 0 |
| PktSegs.CopyBufToPktSegs | testpmd/test-pmd/txonly.c:73-96 | the flat packet changes in exactly the written bytes, and no byte outside the data of the segments changes |
| PktSegs.CopyBufToPkt | testpmd/test-pmd/txonly.c:99-107 | the one-segment fast path agrees with the segment walk |
| PktSegs.FindSeg | testpmd/test-pmd/txonly.c:80-84 | the first loop finds the segment that holds the offset, and the place in it |
| PktSegs.WrittenMore | testpmd/test-pmd/txonly.c:87-95 | consecutive writes across a segment boundary are one write |
| Mbufs.FlattenPut | testpmd/test-pmd/txonly.c:73-107 | a write inside one segment is a write at the matching place of the packet |
| CopySplit.MbufCopySplit | testpmd/test-pmd/csumonly.c:632-691 | the return value in every case; on success the new chain holds the source's bytes in exactly the given segments, none beyond its length, with the packet-wide fields set |
| CopySplit.CopyLoop | testpmd/test-pmd/csumonly.c:650-676 | the loop uses up the source exactly when the cut goes through, copying all of it in order |
| CopySplit.PktCopySplit | testpmd/test-pmd/csumonly.c:698-772 | when a copy is made; on success exactly the copy's segments are kept, on failure every allocated segment is given back and NULL returned |
| CopySplit.AllocSegs | testpmd/test-pmd/csumonly.c:731-750 | allocation succeeds exactly if the pool does not refuse and every segment but the first has tailroom |
| CopySplit.FreeSegs | testpmd/test-pmd/csumonly.c:765-769 | every allocated segment is freed, each once |
| CopySplit.SegPlanRoom | testpmd/test-pmd/csumonly.c:715-728 | the planned lengths hold the packet exactly when what is left for the last segment fits 16 bits |
| CopySplit.SegPlanIs | testpmd/test-pmd/csumonly.c:715-728 | the same of the plan: how many lengths, and each of them |
| CopySplit.ChooseLens | testpmd/test-pmd/csumonly.c:715-728 | the configured lengths up to the first that reaches the packet's length, or all; the last becomes itself plus what is missing, modulo 2^16, unless nothing or 2^31 and more is |
| CopySplit.CutsNeedRoom | testpmd/test-pmd/csumonly.c:650-676 | a source that goes through has no more bytes than the lengths add up to |
| CopySplit.OneSegmentPacketCuts | testpmd/test-pmd/csumonly.c:650-676 | a one-segment source of up to 65535 bytes always goes through |
| CopySplit.SameShapeCuts | testpmd/test-pmd/csumonly.c:650-676 | a source goes through segments no smaller than its own |
| CopySplit.RoomIsNotEnough | testpmd/test-pmd/csumonly.c:650-679 | enough total room does not suffice when source and destination segments interleave |
| Checksum.RoutinesAgree | testpmd/test-pmd/txonly.c:144-162 | both checksum routines give the same value on every 20-byte header |
| Checksum.CksumVerifies | testpmd/test-pmd/icmpecho.c:245-263 | a header carrying the computed checksum verifies |
| Checksum.FoldsAgree | testpmd/test-pmd/txonly.c:155-158 | folding twice equals folding once and taking the carry back |
| Checksum.OnesSumIsResidue | testpmd/test-pmd/icmpecho.c:245-263 | the one's complement sum is the sum's residue modulo 65535, never zero for a positive sum |
| Checksum.VerifiesIff | testpmd/test-pmd/icmpecho.c:245-263 | a block verifies exactly if its words sum up to a positive multiple of 65535 |
| IcmpEcho.EchoReply | testpmd/test-pmd/icmpecho.c:405-480 | exactly frames with protocol 1, type 8 and code 0 are answered, in place: Ethernet addresses exchanged, type 0, the IPv4 addresses exchanged or for a multicast request the source sent back to from another address, and the checksums; every other byte, and every other frame, is untouched |
| IcmpEcho.AnsweredBytes | testpmd/test-pmd/icmpecho.c:440-480 | the same of the answer, byte by byte |
| IcmpEcho.ReplySum | testpmd/test-pmd/icmpecho.c:474-480 | the reply's words sum up to the request's modulo 65535, intact or not |
| IcmpEcho.UpdatedIsFullIff | testpmd/test-pmd/icmpecho.c:474-480 | the incremental checksum equals full recomputation modulo 65535 exactly if the request was intact |
| IcmpEcho.ReplyVerifiesIff | testpmd/test-pmd/icmpecho.c:474-480 | the reply verifies exactly if the request does and some word behind the first two is not zero |
| IcmpEcho.MessageWords | testpmd/test-pmd/icmpecho.c:473-480 | in the answered frame only the first two words of the ICMP message differ |
| IcmpEcho.MessageVerifiesIff | testpmd/test-pmd/icmpecho.c:473-480 | the same on the bytes of the answered frame, up to any end of the message |
| IcmpEcho.UnicastHeader | testpmd/test-pmd/icmpecho.c:470-480 | the answer to a unicast request has the addresses exchanged; its header, options included, has the request's word sum modulo 65535 (the very sum without options) and is intact exactly if the request's was |
| IcmpEcho.UnicastSumIff | testpmd/test-pmd/icmpecho.c:470-480 | with options the header's word sum itself is kept exactly when old checksum and type word add up to less than 65535 |
| IcmpEcho.BehindFront | testpmd/test-pmd/icmpecho.c:474-480 | what follows the first 20 header bytes, options and message alike, keeps its word sum modulo 65535 |
| IcmpEcho.MulticastHeader | testpmd/test-pmd/icmpecho.c:458-480 | the answer to a multicast request has 20 intact header bytes and goes to the requester from another address than the requester's |
| IcmpEcho.MulticastHeaderWithOptions | testpmd/test-pmd/icmpecho.c:458-480 | with options its header is intact exactly if the words of the request's options sum up to a multiple of 65535 |
| FiveTuple.SwapFiveTuple | testpmd/test-pmd/5tswap.c:130-162 | the layer walk with its VLAN loop finds the layers where the type and protocol bytes say; MAC, IPv4 or IPv6 addresses and UDP or TCP ports are each exchanged with their counterpart, and every other byte is the old one |
| FiveTuple.SwappedBytes | testpmd/test-pmd/5tswap.c:24-77 | by byte index, where each byte of the result comes from |
| FiveTuple.LayoutMeans | testpmd/test-pmd/5tswap.c:130-162 | the layout in terms of the type bytes behind the tags, the version and length nibbles and the protocol byte |
| FiveTuple.SkipTags | testpmd/test-pmd/5tswap.c:136-141 | any depth of VLAN and QinQ tags is skipped |
| FiveTuple.SwapKeepsLayout | testpmd/test-pmd/5tswap.c:130-162 | the exchange does not move what decides the layout |
| FiveTuple.SwappedTwice | testpmd/test-pmd/5tswap.c:24-77 | two applications restore every byte when the ports lie behind the header (IHL of at least 5) |
| FiveTuple.UndoneIff | testpmd/test-pmd/5tswap.c:130-162 | for every IPv4 frame whose layers lie in it, the exact condition under which the second application stays in the frame and restores it |
| FiveTuple.HeaderSumKept | testpmd/test-pmd/5tswap.c:36-44 | the IPv4 header's word sum, options included, is unchanged |
| FiveTuple.HeaderVerifiesAlike | testpmd/test-pmd/5tswap.c:36-44 | a header verifies after the exchange exactly if it did before |
| FiveTuple.TransportSumKept | testpmd/test-pmd/5tswap.c:24-77 | the word sum of pseudo-header and UDP or TCP segment is unchanged |
| Frames.SwapKeepsSum | testpmd/test-pmd/5tswap.c:24-77 | exchanging two blocks of whole words inside a range keeps the range's word sum |
| Frames.SwapBytes | testpmd/test-pmd/5tswap.c:25-33 | the exchange through a temporary |
| MacSwap.DoMacSwap | testpmd/test-pmd/macswap.h:11-38 | each frame has its two addresses exchanged if it occurs in the burst an odd number of times, and is otherwise unchanged; every packet has the port's tags where it inserts them, exactly the buffer's own flags and those of the port's offloads, and lengths 14 and 20 |
| MacSwap.DoMacSwapVector | testpmd/test-pmd/macswap_sse.h:11-92 | each frame has its addresses exchanged if it takes part in an odd number of vector rounds, in a burst of distinct frames every one; tags, flags and lengths are those of the scalar form |
| MacSwap.RoundsMean | testpmd/test-pmd/macswap_sse.h:25-91 | which bytes of which frame the rounds exchange; in a burst of distinct frames every frame takes part once |
| MacSwap.ShuffleSwaps | testpmd/test-pmd/macswap_sse.h:25-28 | either table applied to the first 16 bytes of a frame exchanges its addresses |
| MacSwap.NeonOrigin | testpmd/test-pmd/macswap_neon.h:30-31 | what the NEON table selects |
| MacSwap.FormsAgree | testpmd/test-pmd/macswap_neon.h:16-95 | vector and scalar form leave the same bytes exactly if for each frame rounds and occurrences have the same parity or its addresses are equal |
| MacSwap.FormsAgreeOnDistinct | testpmd/test-pmd/macswap_sse.h:25-91 | in particular on every burst of distinct frames of at least 16 bytes |
| MacSwap.TwiceInAGroup | testpmd/test-pmd/macswap_sse.h:45-78 | a frame that occurs twice in a group of four is swapped once by the vector forms |
| MacSwap.OlFlagsInit | testpmd/test-pmd/macswap_common.h:9-21 | each transmit offload sets its flag |
| MacSwap.VlanQinqSet | testpmd/test-pmd/macswap_common.h:24-35 | tags are set on every packet exactly if their flags are |
| MacSwap.MbufFieldSet | testpmd/test-pmd/macswap_common.h:38-44 | flags about the buffer itself survive |
| MacSwap.FieldsMean | testpmd/test-pmd/macswap_common.h:9-44 | tags, flags and lengths of every packet after a burst, one by one |
| FlowGen.FlowLcore.BuildBurst | testpmd/test-pmd/flowgen.c:108-168 | packets, shared buffers and addresses of the burst built, and the counter after it |
| FlowGen.InNumbers | testpmd/test-pmd/flowgen.c:108-168 | which packets of a burst are one buffer, and every packet's address, in numbers |
| FlowGen.FlowLcore.PktBurst | testpmd/test-pmd/flowgen.c:108-201 | the lcore's counter advances by exactly the packets the driver took, modulo the flows; the stream counts just these as transmitted and the other packets built as dropped; each buffer is left with exactly the references the driver took |
| FlowGen.FlowLcore.Forward | testpmd/test-pmd/testpmd.c:2196-2200 | a burst of any stream of the lcore at any time keeps the invariant: counter = start + packets the driver took from all its streams, modulo the flows; the addresses go on from the packets taken so far, whichever stream sent them |
| FlowGen.FlowLcore.Run | testpmd/test-pmd/testpmd.c:2196-2200 | all streams in turn, any number of passes: the invariant holds, and the counter moved by what the driver took from the streams |
| FlowGen.FlowLcore.constructor | testpmd/test-pmd/flowgen.c:53 | the invariant holds of a counter and streams to begin with |
| FlowGen.SentMore | testpmd/test-pmd/flowgen.c:182 | one stream's packets add to the lcore's total once |
| FlowGen.Transmit | testpmd/test-pmd/flowgen.c:170-181 | the driver ends up with the first packets of the burst, as many as are counted, each once and in order; every retry offers what is left; there is none without retries enabled, and otherwise they end when all is taken or their number is used up |
| FlowGen.TxQueue.TxBurst | testpmd/test-pmd/flowgen.c:170 | the driver takes any number of packets from the front |
| FlowGen.BackOut | testpmd/test-pmd/flowgen.c:187-190 | backing out the counter undoes exactly the dropped packets |
| FlowGen.FreeRest | testpmd/test-pmd/flowgen.c:192-195 | every untransmitted place gives up its reference once |
| FlowGen.AddReference | testpmd/test-pmd/flowgen.c:158-161 | reusing the last buffer keeps references equal to occurrences |

## Left out

- Printing, statistics display, register dumps, file I/O and driver queries: foreign effects.
- Token tables, name matching, completion and help of the command parser; its mode without an output buffer;
  the parsers of numbers, MAC addresses and IP addresses. A token is given by what it asks for, and
  `Possible` and `Offered` stand for the tables.
- VcArena.Parser.ParseVc: records are those of a 64-bit target with padding written as zero, and the flag bits
  are a field of their own and not bytes of the header; pointer arithmetic below address zero is excluded by
  offering only elements whose block is no larger than the address of the blocks before it.
- Prefix.Context.ParsePrefix: reading the digits is the C library's; a shift by 64 bits or more, undefined in
  C, is excluded.
- BitFill and Prefix model a little-endian host; on a big-endian one all fields are filled from the back.
- RawEncap.RawConf.SetRaw: FLEX items and the sample-action command are not modelled; that a default mask is
  written back into the parsed pattern is not either. The padding bits of the PSC option are taken to be zero.
- VXLAN flags are stored as a little-endian host stores them.
- The setup by DCB tables, the other forwarding setups and sharing queues among several processes.
- IndirectActions and FlowRules: AGE and CONNTRACK preparation, tunnel offload and the rule's own copy of its
  pattern are single results here (`newOk`, `driver`).
- IcmpEcho: ARP replies, VLAN headers in front of the IP header beyond its offset, and the transmission of the
  replies.
- FiveTuple.SwapFiveTuple: the mbuf's length fields and offload flags are not modelled; frames that end before
  a layer they announce are excluded, as the code reads past them.
- PortList.ParsePortList: `strtol` is taken to leave `errno` alone when it finds no digits; a C library may set
  EINVAL, and then an empty item that a comma follows makes the whole list fail. A sign or white space other
  than blanks in front of a number is part of `ParsePortList` and of `SignedNumber`, which speaks of one number,
  but not of the lists `ParseText` speaks of.
- CopySplit.PktCopySplit: the pool does not recover within one call, and a source of length zero is excluded.
- FlowGen: the packet headers other than the destination address, and the wrap of 64-bit packet counters.
- `noisy_vnf.c`, `shared_rxq_fwd.c`, `iofwd.c`, `macfwd.c`, `rxonly.c`, `ieee1588fwd.c`, transmit timestamps,
  GRO, GSO and tunnel dissection: library calls, or simpler loops than those modelled.
