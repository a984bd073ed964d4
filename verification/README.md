# IPv6Stack for Arduino: a verified model

The IPv6Stack library is a port of the Contiki IPv6 stack to Arduino boards
with XBee radios. This project models its algorithms in Dafny and proves what
they are for. `dafny verify dfyconfig.toml` checks everything.

Code that works by changing things step by step is modelled twice: as functions
on values, about which the properties are proved, and as classes and methods
over arrays, fields and linked items with the loops of the C code, each tied to
its function by its postcondition. Octets are 8-bit vectors; every 8-, 16- or
32-bit wrap of the C code is written out. C `int` is taken to be 16 bits, as on
the AVR boards, where that makes a difference.

| file | what it covers |
|---|---|
| `Iphc`, `IphcLimits`, `Lowpan`, `SicsLowPan` | the 6LoWPAN header codec (RFC 6282) and the frame path without fragmentation |
| `IphcWire`, `LowpanWire`, `DioWire`, `XBeeWire` | the formats on the wire, written down without the code that reads and writes them: which octets are sent, and what is read of any sender's |
| `Fragments`, `FragmentOrder`, `FragmentLayer` | 6LoWPAN fragmentation and reassembly (section 5.3 of RFC 4944), frames in order, in any order and repeated; the default configuration compiles it out |
| `RplEtx`, `RplDag`, `RplNode`, `LoopFreedom` | the RPL node (section 8.2 of RFC 6550): parent set, rank, hysteresis, repair; and a whole network of such nodes |
| `RplSteps`, `NeighborSteps` | what each event does to an RPL node and each message to a neighbour entry, in numbers and field by field |
| `Trickle`, `LinkMetric` | the DIO timer (section 4.2 of RFC 6206) and the smoothed transmission count |
| `Dio` | DIO messages, written and read |
| `Checksum`, `Reassembly`, `UdpPorts` | of uIP: the Internet checksum, IPv6 reassembly from fragments in any order (section 4.5 of RFC 2460; compiled out by default), local port allocation |
| `Ds6List`, `Neighbors`, `NeighborRuns`, `Routes` | the IPv6 tables: generic search, neighbour cache and unreachability detection (sections 7.2 and 7.3 of RFC 4861) step by step and over runs, routes, source address selection |
| `XBee` | XBee API frames: escaping sender and incremental parser |
| `LinkedList`, `NeighborAttr`, `NeighborStore` | the linked list, the block pool and the neighbour attribute store built from them |
| `Bytes`, `Bits`, `Sets` | octets and their bits, sizes of sets |

## What the code does not do

Where a property one would expect is false of the code, the project states
exactly when it holds, in most cases beside a concrete input for which it does
not. What these lemmas show of the code (files under `libraries/IPv6Stack`):

- IPHC: the test for a compressible link-local source reads octets 2 to 7 of
  the destination (`sicsLowPan.c:609-612`); `otherContext` is only refreshed
  when the destination has a context, so a source under a context other than 0
  may be sent without its number (`sicsLowPan.c:487-504`); a multicast
  destination whose octet 3 equals a context's `used` value is sent in the
  stateful form, which the receiver always refuses because `iphc1 << 6` keeps
  more than the two mode bits (`sicsLowPan.c:873`), although the branch behind
  that check and its comments handle the form.
- Fragments: octets are counted, not places, so that a fragment that comes
  twice completes the packet early (`sicsLowPan.c:1381-1400`).
- Checksum: the addition of length and next header, said not to carry
  (`uip.c:362-364`), does when their sum reaches 65536, for which the packet
  needs a buffer of more than 65320 octets; the configured one has 160.
- IPv6 reassembly: the size test (`uip.c:653-660`) leaves the headers out.
- Ports: `uip_udp_bind` (`uip.h:854`) takes any port, in use or not.
- RPL: the hysteresis test wraps for path metrics within 64 of either end of 16
  bits; a rank does not grow when the 16-bit product of hop increase and link
  metric is 0, and preferred parents can form a loop of such hops, but of no
  others: two new nodes come to it by a run of ten events; a DIO with another
  objective code point at a node outside a DODAG takes a block for good, and
  eight of them shut the node out; the second lowering of `min_rank` in
  `rpl_process_parent_event` never has anything left to lower.
- Link metric: the number of transmissions is not bounded where it is counted
  (`XBeeMACLayer.cpp:171-177` and `228-229`) nor where it is passed on
  (`IPv6Stack.cpp:78-84`), and the average is kept in 8 bits. The counts that
  keep metrics in the range of one to fifteen transmissions are exactly 1 to 15
  and 161 to 175; after 15 and 33 the metric is 12, and a metric below 16 makes
  a hop cost nothing at the default hop increase of 256.
- DIO: the grounded flag is overwritten before it is sent
  (`rpl_icmp6.c:396-401`), and the preference is never sent.
- Trickle: the conversion to ticks wraps in 32 bits from exponent 23 on, and
  gives no interval at all from 29 on.
- XBee: `getPacketLength` shifts the high octet out of its mask
  (`XBee.cpp:722`); the running checksum survives an error, so that a second
  frame can be lost after one; an escape inside a frame that is followed by a
  start octet or another escape, which no sender writes, is read differently
  when the two come apart (`XBee.cpp:864-887`).
- Neighbour cache: `last_lookup` is set when an entry is added and never
  refreshed by a lookup, so the entry given up for a new one is the one added
  first, however recently it was used; it is the least recently used one
  exactly when no packet was sent through it after the last use of any other. A
  neighbour is given up at the first pass after its third solicitation, a tenth
  of a second later (`uip_ds6.c:188-197`), where sections 7.2.2 and 7.3.3 of
  RFC 4861 have the node wait for RetransTimer. All solicitations of a pass are
  written into the one `uip_buf` and only the last is sent (`tcpip.c:414-418`);
  the others are counted all the same. A Router Advertisement without a
  link-layer address marks whatever entry the static `nbr` was left at.
- Routes: prefixes are compared by whole octets; a route inside which a longer
  one was added before is refused, and the caller is given the longer one.

## Model

| member | source | states |
|---|---|---|
| Iphc.HeaderRoundTrip | libraries/IPv6Stack/sicsLowPan.c:454-1027 | Decompressing a compressed header gives back every IP field, the UDP ports and the checksum, and leaves the rest of the buffer alone, if and only if the version is 6, the source survives (its context number is sent or context 0 has its prefix; the link-local short form drops only zeros) and the destination does not take the stateful multicast form |
| Iphc.DecompressCompressed | libraries/IPv6Stack/sicsLowPan.c:768-1027 | For every header, also the ones that do not survive, what the decompressor makes of the compressed octets: given up, or every octet of the result known |
| Iphc.SeenSrcExact | libraries/IPv6Stack/sicsLowPan.c:591-625 | The source the receiver sees is the one sent exactly when its context number arrives and the link-local form, chosen by octets 2 to 7 of the destination, dropped only zeros |
| Iphc.ContextNumbers | libraries/IPv6Stack/sicsLowPan.c:487-504 | The context number of the source arrives when the octet is sent; that of the destination always does, 0 being implied when it is not |
| Iphc.TfRoundTrip | libraries/IPv6Stack/sicsLowPan.c:513-549 | Traffic class and flow label in each of the four forms are read back, ECN and DSCP swapped and unswapped |
| Iphc.NhRoundTrip | libraries/IPv6Stack/sicsLowPan.c:552-566 | The Next Header octet is inline exactly when it is not UDP, and is read back |
| Iphc.TtlRoundTrip | libraries/IPv6Stack/sicsLowPan.c:575-589 | The hop limit, elided for 1, 64 and 255, is read back |
| Iphc.SrcRoundTrip | libraries/IPv6Stack/sicsLowPan.c:591-625 | Reading the source field gives the address the receiver should see, for all five source forms |
| Iphc.DstRoundTrip | libraries/IPv6Stack/sicsLowPan.c:626-684 | Reading the destination field gives the destination for all forms but the stateful multicast one, which is rejected |
| Iphc.IidRoundTrip | libraries/IPv6Stack/sicsLowPan.c:359-416 | The interface identifier, elided, 16 bits or 64 bits, is rebuilt under a context or link-local prefix |
| Iphc.McastRoundTrip | libraries/IPv6Stack/sicsLowPan.c:626-658 | The four stateless multicast forms are rebuilt |
| Iphc.UdpRoundTrip | libraries/IPv6Stack/sicsLowPan.c:688-736 | Both ports in each of the four forms and the checksum are read back |
| Iphc.CompressedSize | libraries/IPv6Stack/sicsLowPan.c:454-749 | A compressed header is at most one octet longer than the header it replaces, and shorter whenever it includes UDP |
| IphcWire.Encodes | libraries/IPv6Stack/sicsLowPan.c:454-749 | Every octet the compressor emits, for every header: of each field the form of RFC 6282 that a condition on the header octets names, with its bits in the two leading octets and its inline octets in their order, and nothing else |
| IphcWire.HeadSent | libraries/IPv6Stack/sicsLowPan.c:475-749 | The two leading octets bit by bit, for every header: 011, traffic class and flow label form, next header UDP, hop limit 1, 64, 255 or another; source and destination context flags and modes, multicast |
| IphcWire.Decodes | libraries/IPv6Stack/sicsLowPan.c:768-1027 | Whoever sent it: every header of RFC 6282, with any form of any field, UDP checksum elided or not, comes out as the octets that form stands for, unless a context is unknown or the destination is stateful multicast; then, and only then, the decompressor stops |
| IphcWire.TfPick | libraries/IPv6Stack/sicsLowPan.c:513-549 | Which of the four traffic class and flow label forms is sent, and its octets |
| IphcWire.SrcPick | libraries/IPv6Stack/sicsLowPan.c:591-625 | Which source form is sent: unspecified, under a context, link-local (by the octets of the destination), or in full; and its octets |
| IphcWire.DstPick | libraries/IPv6Stack/sicsLowPan.c:626-684 | Which of the eight destination forms is sent, and its octets |
| IphcWire.PortsPick | libraries/IPv6Stack/sicsLowPan.c:688-736 | Which port form is sent, 0xf0 to 0xf3, and its octets: four bits each, eight for the destination, eight for the source, or in full |
| IphcWire.CidPick | libraries/IPv6Stack/sicsLowPan.c:487-504 | When the context octet is sent, and the two numbers in it |
| IphcWire.InContextExact | libraries/IPv6Stack/sicsLowPan.c:307-323 | The lookup finds a context exactly when one in use has the 64 bits as its prefix |
| IphcWire.FirstWithPrefix | libraries/IPv6Stack/sicsLowPan.c:307-323 | Of several such contexts it finds the first |
| IphcWire.InGroupContextExact | libraries/IPv6Stack/sicsLowPan.c:326-340 | The multicast lookup succeeds exactly when the used value of some context is octet 3 and an eighth as many octets of its prefix follow |
| IphcLimits.SourceTestLosesOctets | libraries/IPv6Stack/sicsLowPan.c:608-616 | A concrete header whose source is altered because the test reads the destination |
| IphcLimits.StaleContextDecides | libraries/IPv6Stack/sicsLowPan.c:487-504 | A header that survives or not depending on what an earlier packet left in otherContext |
| IphcLimits.MulticastCaptured | libraries/IPv6Stack/sicsLowPan.c:326-339 | A multicast destination captured by a unicast context because its octet 3 equals the used flag, and then refused by the receiver |
| IphcLimits.StartTableExact | libraries/IPv6Stack/sicsLowPan.c:1448-1505 | With the table of sicslowpan_init the header survives exactly when the version is 6, the misread source test does no harm and no multicast destination has 1 in octet 3 |
| Lowpan.PacketRoundTrip | libraries/IPv6Stack/sicsLowPan.c:1087-1439 | Every packet output accepts is below 296 octets and its frame fits; input delivers the same packet with the same length if and only if the header is recoverable and IP and UDP lengths are consistent |
| Lowpan.GivenUpIsShort | libraries/IPv6Stack/sicsLowPan.c:843-863 | A frame the decompressor gives up on carries a compressed header shorter than the header it stands for |
| Lowpan.ReceivedParts | libraries/IPv6Stack/sicsLowPan.c:1238-1439 | What input makes of the frame: on a given up header a packet of another length, else the rebuilt header with the payload behind it and the right length |
| Lowpan.DeliveredExact | libraries/IPv6Stack/sicsLowPan.c:1008-1024 | A rebuilt header with the payload behind it is the packet exactly when version, source and both length fields are |
| LowpanWire.UncompressedDelivered | libraries/IPv6Stack/sicsLowPan.c:1348-1404 | A neighbour that does not compress: 0x41 and any packet of 40 to 101 octets behind it are delivered as that packet with its length, and the buffer behind it stays |
| LowpanWire.DeliversExactly | libraries/IPv6Stack/sicsLowPan.c:1343-1404 | A frame delivers a packet exactly if it is as long as its header and has one of the two dispatches; with another one nothing changes |
| LowpanWire.FitsExact | libraries/IPv6Stack/sicsLowPan.c:1095-1222 | A packet is sent whole exactly if it has its headers and, behind the compressed ones, fits in 102 octets |
| SicsLowPan.Adaptation.CompressTf | libraries/IPv6Stack/sicsLowPan.c:513-549 | Writes the traffic class and flow label octets and returns their bits, as specified by TfPart |
| SicsLowPan.Adaptation.CompressNhTtl | libraries/IPv6Stack/sicsLowPan.c:552-589 | Writes Next Header and hop limit as NhPart and TtlPart specify |
| SicsLowPan.Adaptation.CompressAddr64 | libraries/IPv6Stack/sicsLowPan.c:359-374 | Writes the identifier form IidPart specifies and returns its mode |
| SicsLowPan.Adaptation.CompressSrc | libraries/IPv6Stack/sicsLowPan.c:591-625 | Writes the source form SrcPart specifies and merges its context number into the third octet |
| SicsLowPan.Adaptation.CompressDst | libraries/IPv6Stack/sicsLowPan.c:626-684 | Writes the destination form DstPart specifies and merges its context number |
| SicsLowPan.Adaptation.CompressUdp | libraries/IPv6Stack/sicsLowPan.c:688-736 | Writes the UDP header form UdpPart specifies |
| SicsLowPan.Adaptation.ChooseCid | libraries/IPv6Stack/sicsLowPan.c:487-504 | Decides on the context octet and leaves otherContext as the next packet will find it |
| SicsLowPan.Adaptation.CompressHdr | libraries/IPv6Stack/sicsLowPan.c:454-749 | In place, the frame begins with exactly Compress of the packet and the stale otherContext, the octets IphcWire.Encodes lists |
| SicsLowPan.Adaptation.UncompressTf | libraries/IPv6Stack/sicsLowPan.c:783-821 | Reads back traffic class and flow label in place as ReadTf specifies |
| SicsLowPan.Adaptation.UncompressAddr | libraries/IPv6Stack/sicsLowPan.c:384-416 | Rebuilds an address in place as ReadAddr specifies |
| SicsLowPan.Adaptation.UncompressSrc | libraries/IPv6Stack/sicsLowPan.c:839-863 | Rebuilds the source in place as ReadSrc specifies, or gives up |
| SicsLowPan.Adaptation.UncompressDst | libraries/IPv6Stack/sicsLowPan.c:865-939 | Rebuilds the destination in place as ReadDst specifies, or gives up; every stateful multicast form is given up |
| SicsLowPan.Adaptation.UncompressUdp | libraries/IPv6Stack/sicsLowPan.c:942-1006 | Rebuilds the UDP header in place as ReadUdp specifies |
| SicsLowPan.Adaptation.UncompressHdr | libraries/IPv6Stack/sicsLowPan.c:768-1027 | In place, the target buffer and header lengths are those of Decompress |
| SicsLowPan.Adaptation.Output | libraries/IPv6Stack/sicsLowPan.c:1087-1222 | A packet is handed to the MAC exactly when it fits, in the frame Frame specifies |
| SicsLowPan.Adaptation.Input | libraries/IPv6Stack/sicsLowPan.c:1238-1439 | The packet buffer, its length and whether it is delivered are those of Receive, for frames of either dispatch |
| SicsLowPan.ShiftedFlags | libraries/IPv6Stack/sicsLowPan.c:870-878 | The rejection test on the shifted flags is true for every stateful multicast form, not only for the unsupported ones |
| Fragments.FragmentationRoundTrip | libraries/IPv6Stack/sicsLowPan.c:1123-1422 | The frames of a packet below 2048 octets all fit the MAC; fed once and in order they deliver nothing before the last and the packet at the last, if and only if its header is recoverable and its length fields are consistent |
| Fragments.NextFragmentsRun | libraries/IPv6Stack/sicsLowPan.c:1167-1202 | The later fragments from any octet on put the rest of the payload in place and complete exactly when all earlier octets were counted |
| Fragments.NextFragmentStep | libraries/IPv6Stack/sicsLowPan.c:1281-1400 | The whole reassembly state after one later fragment: offset in blocks of eight, octets copied, octets counted |
| Fragments.FirstFragmentStep | libraries/IPv6Stack/sicsLowPan.c:1268-1400 | After the first fragment nothing is delivered, and header and first payload part are in place unless the decompressor gave up |
| Fragments.OffsetOctet | libraries/IPv6Stack/sicsLowPan.c:1178-1190 | The offset octet of a later fragment stands for the 8-aligned octet position it was computed from |
| LowpanWire.FirstFragmentHeader | libraries/IPv6Stack/sicsLowPan.c:1123-1166 | The first fragment octet by octet: 11000, 11 bits of size, the tag, the compressed headers, and the payload from behind the headers on |
| LowpanWire.NextFragmentHeader | libraries/IPv6Stack/sicsLowPan.c:1167-1202 | The later ones: 11100, size, tag, the place in blocks of eight, and the packet from there on |
| LowpanWire.FragmentsAreFull | libraries/IPv6Stack/sicsLowPan.c:1123-1202 | Every fragment but the last carries as many blocks of eight as fit in 102 octets |
| LowpanWire.UncompressedFirst | libraries/IPv6Stack/sicsLowPan.c:1268-1422 | A first fragment whose header is not compressed: its octets are stored and counted as they are, and complete the packet exactly when the count is full or wraps to 0 |
| LowpanWire.UnknownFirst | libraries/IPv6Stack/sicsLowPan.c:1348-1364 | A first fragment with another dispatch stores, counts and delivers nothing |
| LowpanWire.OthersDropped | libraries/IPv6Stack/sicsLowPan.c:1307-1321 | While a packet is put together, a frame that is no fragment, or has another size, tag or sender, is dropped and changes nothing but the frame buffer |
| LowpanWire.ExpiredStartsAnew | libraries/IPv6Stack/sicsLowPan.c:1258-1262 | After the time-out a frame is received as if nothing had come before |
| LowpanWire.UnfragmentedInput | libraries/IPv6Stack/sicsLowPan.c:1238-1439 | With no packet in the making, the build with fragmentation receives an unfragmented frame as the one without does |
| FragmentOrder.AnyOrder | libraries/IPv6Stack/sicsLowPan.c:1238-1422 | The frames of a packet in any order whatever, each once, the one with the header anywhere among them: nothing is delivered before the last to come and the packet at that one, if and only if its header is recoverable and its length fields are consistent |
| FragmentOrder.FramesAreSent | libraries/IPv6Stack/sicsLowPan.c:1123-1202 | The frames the orders range over are exactly those that are sent |
| FragmentOrder.OrderRun | libraries/IPv6Stack/sicsLowPan.c:1281-1400 | From any state in the middle of the packet, the frames still to come in any order complete it at the last one, every octet known, or deliver nothing when the header was given up on |
| FragmentOrder.RepeatedExact | libraries/IPv6Stack/sicsLowPan.c:1381-1400 | The frames of a packet, the one with the header included, in any order and any number of times each, from any state in the middle of it, until the 16-bit octet count is full: what is then delivered is the packet if and only if the header, should it have come, is recoverable and consistent, and the octets that have not come are in the buffer already. Said of a header frame that the decompressor does not give up on |
| FragmentOrder.RepeatsRun | libraries/IPv6Stack/sicsLowPan.c:1281-1400 | Octet by octet what is delivered then: those that came, the header as it was rebuilt, and what the buffer held before for the others |
| FragmentLayer.Layer.SendNextFragments | libraries/IPv6Stack/sicsLowPan.c:1167-1202 | The send loop ends and hands over exactly the later fragments of the specification |
| FragmentLayer.Layer.Output | libraries/IPv6Stack/sicsLowPan.c:1087-1222 | In a fragmenting build the frames sent are FragmentsOf the packet, or its single frame |
| FragmentLayer.Layer.Input | libraries/IPv6Stack/sicsLowPan.c:1238-1439 | In a fragmenting build reassembly buffer, counters and delivered packet are those of Fragments.Input |
| RplEtx.SelectHysteresis | libraries/IPv6Stack/rpl_dag.c:338-357 | Over any parent list in any order the selection loop ends on the old preferred parent, unbeaten by the threshold of 64, or on a parent of least metric that beats a usable old preferred one by 64; on none exactly when no parent is usable (no metric within 64 of either end of 16 bits) |
| RplEtx.MetricsInRange | libraries/IPv6Stack/rpl_of_etx.c:86-93 | Link metrics from 16 and advertised ETX up to 63000 keep every path metric away from both ends |
| RplEtx.WithinExact | libraries/IPv6Stack/rpl_of_etx.c:150-158 | The 16-bit closeness test is right exactly when the second metric is not within 64 of an end, or the metrics are not close |
| RplEtx.HysteresisLostNearZero | libraries/IPv6Stack/rpl_of_etx.c:150-158 | With the initial link metric and advertised ETX 64928 and 64920, whose sums wrap to 32 and 24, a preferred parent is given up for a difference of 8 |
| RplEtx.RankGrowsExact | libraries/IPv6Stack/rpl_of_etx.c:105-133 | A rank computed through a usable parent exceeds its rank exactly when the 16-bit rank increase is not 0, and equals it otherwise |
| RplEtx.RankGrows | libraries/IPv6Stack/rpl_of_etx.c:105-133 | It does exceed it, by metric/16 times the hop increase or saturating, for metrics from 16 and hop increases up to 4369 |
| RplEtx.RankMayNotGrow | libraries/IPv6Stack/rpl_of_etx.c:105-133 | A hop increase of 8192 for which the rank does not grow at all |
| RplSteps.RankNumbers | libraries/IPv6Stack/rpl_of_etx.c:105-133 | The rank through a parent: its rank and, in 16 bits, a sixteenth of the link metric times the hop increase, cut off at 65535 |
| RplSteps.WithoutNumbers | libraries/IPv6Stack/rpl_of_etx.c:105-133 | The rank without a parent: five hops of 256 more, or 65535 |
| RplSteps.PathNumbers | libraries/IPv6Stack/rpl_of_etx.c:86-93 | 12800 for a parent that advertises no ETX although its rank is above the root's, else its ETX and eight times the link metric in 16 bits |
| RplSteps.UnmeasuredComesLast | libraries/IPv6Stack/rpl_of_etx.c:86-160 | Such a parent is never preferred to a measured one that is better by the threshold, in whichever order they are compared |
| RplDag.StepInv | libraries/IPv6Stack/rpl_dag.c:543-770 | Every event keeps the invariant (distinct parents, exactly the allocated blocks, preferred one among them, min_rank not above rank) if and only if it is not a DIO of the supported mode with a finite rank and an unsupported objective code point, at a node outside a DODAG |
| RplDag.RunInv | libraries/IPv6Stack/rpl_dag.c:543-770 | Over every run of DIOs for the supported objective function, link reports, lost neighbours and recalculations from a fresh node the invariant holds |
| RplDag.ParentEventSettles | libraries/IPv6Stack/rpl_dag.c:621-657 | A parent event ends with no parents and infinite rank, or with the rank computed through the preferred parent and that parent acceptable |
| RplSteps.ParentEventExact | libraries/IPv6Stack/rpl_dag.c:621-657 | A parent event keeps the list and takes the selected parent with the rank through it if and only if some parent has a finite rank and the selected one either gives a new minimum or, in numbers, has at most the permitted rank in whole hops (or no bound is set); else no parent and the infinite rank are left. It reports the candidate as valid exactly if nothing was left or five hops above the candidate's rank are permitted |
| RplSteps.NoneSelected | libraries/IPv6Stack/rpl_dag.c:337-357 | The loop selects no parent exactly when every one has the infinite rank |
| RplSteps.LeastSelected | libraries/IPv6Stack/rpl_dag.c:337-357 | Without a preferred parent it selects, of the usable ones with the least path metric, the last |
| RplSteps.PermittedExact | libraries/IPv6Stack/rpl_dag.c:150-158 | A rank is acceptable exactly if it is finite and no bound is set or its whole hops are at most those of min_rank and the bound, added in 16 bits |
| RplDag.ParentEventChoice | libraries/IPv6Stack/rpl_dag.c:337-389 | Whenever a parent event leaves a preferred parent, also one whose rank saturates, that parent meets the hysteresis contract of the selection loop |
| RplDag.SettledBound | libraries/IPv6Stack/rpl_dag.c:150-158 | With a nonzero rank bound that does not wrap, the preferred parent of a settled node is within the permitted increase |
| RplDag.CurrentDioOutcome | libraries/IPv6Stack/rpl_dag.c:707-770 | A DIO of the current version is refused and changes nothing, or leaves the node settled |
| RplSteps.DioExact | libraries/IPv6Stack/rpl_dag.c:660-770 | Which of its branches a DIO takes, by conditions on its fields, and the whole node afterwards: ignored, joined by, followed to a newer version (which a root answers with one newer still) or heard |
| RplSteps.HeardExact | libraries/IPv6Stack/rpl_dag.c:701-770 | A DIO that is heard: rank and ETX of a known sender are stored; a new one is entered last, in place of the worst other parent in a full list; and a parent event for it follows |
| RplSteps.JoinExact | libraries/IPv6Stack/rpl_dag.c:450-540 | The whole node after a DIO to join by, under either objective code point |
| RplSteps.RepairExact | libraries/IPv6Stack/rpl_dag.c:543-566 | The whole node after a global repair: the sender alone, and five hops of 256 above its rank |
| RplSteps.LinkExact | libraries/IPv6Stack/rpl.c:122-196 | The whole node after a report about the link to a parent or about its loss |
| RplSteps.OthersIgnored | libraries/IPv6Stack/rpl.c:122-196 | A report about anyone else changes nothing |
| RplSteps.RecalculateExact | libraries/IPv6Stack/rpl_dag.c:593-618 | A recalculation is the parent event of the first marked parent, its mark taken off, and nothing without one |
| RplDag.MakeRoom | libraries/IPv6Stack/rpl_dag.c:119-139 | Making room for a new sender never removes the preferred parent |
| RplDag.PoolFull | libraries/IPv6Stack/rpl_dag.c:298-319 | The block pool is exhausted exactly at eight parents |
| RplDag.RemoveParentsInv | libraries/IPv6Stack/rpl_dag.c:104-117 | remove_parents leaves exactly the parents of lower rank, none for bound 0 |
| RplDag.GlobalRepairInv | libraries/IPv6Stack/rpl_dag.c:543-566 | A global repair keeps the invariant, takes over the version and leaves exactly the sender as a parent, with both ranks derived from the DIO |
| RplDag.JoinInv | libraries/IPv6Stack/rpl_dag.c:450-540 | Joining keeps the invariant if and only if the objective code point is the supported one |
| RplDag.JoinSettles | libraries/IPv6Stack/rpl_dag.c:450-540 | A node joins exactly when the objective code point is supported, and is then settled on the sender with the rank, version and DODAG of the DIO |
| RplDag.VersionGrows | libraries/IPv6Stack/rpl_dag.c:660-770 | A node inside a DODAG stays in it and, unless it is the root, only moves to newer versions |
| RplDag.RecalculateSettles | libraries/IPv6Stack/rpl_dag.c:593-618 | A recalculation with a marked parent leaves the node settled |
| RplDag.UnknownObjectiveLeaks | libraries/IPv6Stack/rpl_dag.c:473-480 | One DIO with another objective code point at a fresh node is enough to break the invariant |
| RplDag.LeakIsForGood | libraries/IPv6Stack/rpl_dag.c:473-480 | The block such a DIO takes is never given back, over any run of events whatever, and is on no parent list once the node is inside a DODAG |
| RplDag.JoinsExact | libraries/IPv6Stack/rpl_dag.c:450-540 | The first DIO for the supported objective function makes a node join if and only if fewer of the others came before it than it had free blocks |
| RplDag.ShutOut | libraries/IPv6Stack/rpl_dag.c:450-540 | Eight DIOs of another objective function at a fresh node, and it never joins a DODAG again |
| RplNode.Dodag.RemoveAllFrom | libraries/IPv6Stack/rpl_dag.c:104-117 | The list walk that removes parents computes RemoveParents |
| RplNode.Dodag.RemoveWorstParent | libraries/IPv6Stack/rpl_dag.c:119-139 | Removes the parent RemoveWorst specifies |
| RplNode.Dodag.BestCandidate | libraries/IPv6Stack/rpl_dag.c:337-357 | The selection loop computes Select |
| RplNode.Dodag.ChooseParent | libraries/IPv6Stack/rpl_dag.c:337-389 | rank, min_rank, preferred parent and list after rpl_select_parent are those of SelectParent |
| RplNode.Dodag.ProcessParentEvent | libraries/IPv6Stack/rpl_dag.c:621-657 | The node after a parent event is ParentEvent of the node before, which RplSteps.ParentEventExact states in numbers |
| RplNode.Dodag.JoinDag | libraries/IPv6Stack/rpl_dag.c:450-540 | The node after joining is Join of the node before |
| RplNode.Dodag.RepairGlobally | libraries/IPv6Stack/rpl_dag.c:543-566 | The node after a global repair is GlobalRepair of the node before |
| RplNode.Dodag.ReceiveDio | libraries/IPv6Stack/rpl_dag.c:660-770 | The node after a DIO is ProcessDio of the node before, branch by branch |
| RplNode.Dodag.LinkCallback | libraries/IPv6Stack/rpl.c:122-165 | A link report updates the parent as Step specifies |
| RplNode.Dodag.NeighbourCallback | libraries/IPv6Stack/rpl.c:168-196 | A removed neighbour marks its parent unreachable as Step specifies |
| RplNode.Dodag.RecalculateRanks | libraries/IPv6Stack/rpl_dag.c:593-618 | The recalculation is the step Recalculate |
| RplNode.Dodag.Allocate | libraries/IPv6Stack/memb.c:59-77 | The first free block, marked in use, or none |
| LoopFreedom.LoopsAreFree | libraries/IPv6Stack/rpl_dag.c:375-388 | In any network whose nodes are settled and know their preferred parent's current rank, following preferred parents comes back to where it began only over hops whose 16-bit rank increase is 0: one hop that counts rules the loop out |
| LoopFreedom.LoopFree | libraries/IPv6Stack/rpl_dag.c:375-388 | Hence, where every hop counts, no path of preferred parents visits a node twice, and none is longer than the rank space |
| LoopFreedom.RanksAlongPath | libraries/IPv6Stack/rpl_of_etx.c:105-133 | The rank drops upwards by at least one for every hop that counts, and not at all when none does |
| LoopFreedom.SaneIsQuiescent | libraries/IPv6Stack/rpl_of_etx.c:105-133 | Link metrics from 16 and hop increases up to 4369 make every hop count |
| LoopFreedom.Root | libraries/IPv6Stack/rpl_dag.c:375-388 | Climbing from any node ends at a node without a preferred parent, of no larger rank |
| LoopFreedom.NetInv | libraries/IPv6Stack/rpl_dag.c:659-740 | Over every run of nodes that start new and hear each other, the root or anyone else, each node keeps the invariant of RplDag |
| LoopFreedom.AdvertExact | libraries/IPv6Stack/rpl_of_etx.c:163-185 | What a node advertises: 0 from a root, 12800 without a measured preferred parent, else what that parent advertised and eight times the link metric |
| LoopFreedom.LoopIsReached | libraries/IPv6Stack/rpl_of_etx.c:105-133 | The exception is real: the run of ten events by which two new nodes, hearing from a root and from each other no more than each advertises at that moment, become each other's preferred parent at the default hop increase of 256, all they store up to date, because a link metric of 12 makes a hop cost nothing |
| Trickle.RunInv | libraries/IPv6Stack/rpl_timers.c:80-182 | Over all runs the exponent stays in its range, the timer is due where the interval says, send offset plus delay is the interval, and at most one DIO is sent per interval |
| Trickle.FireInv | libraries/IPv6Stack/rpl_timers.c:121-160 | A firing sends only while the counter is below the redundancy constant, at most once an interval, and the next interval begins where this one ends with the exponent increased up to its bound |
| Trickle.ResetInv | libraries/IPv6Stack/rpl_timers.c:170-182 | A forced reset puts the exponent at its minimum and keeps the invariant |
| Trickle.OffsetInSecondHalf | libraries/IPv6Stack/rpl_timers.c:80-119 | For every random draw, product wrapped or not, the DIO goes out in the second half of the interval |
| Trickle.TicksExact | libraries/IPv6Stack/rpl_timers.c:80-90 | The interval is the power of two it should be exactly up to exponent 22 |
| Trickle.NoInterval | libraries/IPv6Stack/rpl_timers.c:80-90 | From exponent 29 on nothing is left of the 32-bit product, and the interval is 0 ticks |
| Trickle.OffsetExact | libraries/IPv6Stack/rpl_timers.c:80-119 | The DIO goes out the draw's share of the second half into it, exactly if the product stays within 32 bits, and earlier otherwise |
| Trickle.NewIntervalExact | libraries/IPv6Stack/rpl_timers.c:80-119 | The whole timer when an interval begins |
| Trickle.ResetExact | libraries/IPv6Stack/rpl_timers.c:170-182 | A reset begins the shortest interval at once, unless it runs already and none is forced; then nothing changes |
| Trickle.OneInterval | libraries/IPv6Stack/rpl_timers.c:121-160 | A whole interval, whatever is heard in it: the node sends its DIO if and only if the number of consistent ones heard in the first part, in 8 bits, is below the redundancy constant; the next interval begins where this one ends, one exponent up to the bound |
| Trickle.Waits | libraries/IPv6Stack/rpl_timers.c:121-135 | Without a link-local address the timer comes back every 1000 ticks and changes nothing |
| Trickle.DioTimer.StartInterval | libraries/IPv6Stack/rpl_timers.c:80-119 | The timer fields after new_dio_interval are those of NewInterval |
| Trickle.DioTimer.Handle | libraries/IPv6Stack/rpl_timers.c:121-160 | The timer fields after handle_dio_timer are those of Fire |
| Trickle.DioTimer.ResetTo | libraries/IPv6Stack/rpl_timers.c:170-182 | The timer fields after rpl_reset_dio_timer are those of Reset |
| LinkMetric.RunInRange | libraries/IPv6Stack/neighbor_info.c:57-134 | After any run of reports every stored metric is 0 or in 16 to 240, the counts charged being such as FitsExact names |
| LinkMetric.ReportInRange | libraries/IPv6Stack/neighbor_info.c:57-87 | An update of a set metric lies between the old value and the sample, 160 transmissions taken off it if it has as many, and touches no other neighbour |
| LinkMetric.ReportExact | libraries/IPv6Stack/neighbor_info.c:57-134 | Whose metric a report touches and how: none for a broadcast or an own error, a new neighbour only after a success with room, whose first metric is the sample, a known one averaged |
| LinkMetric.FitsExact | libraries/IPv6Stack/neighbor_info.c:57-87 | The counts that keep every metric in range are exactly 1 to 15 and 161 to 175, of the 8 bits kept; the MAC layer does not bound what it reports |
| LinkMetric.WrapIsOnce | libraries/IPv6Stack/neighbor_info.c:65-73 | 160 transmissions more come to the same metric, whatever the one before |
| LinkMetric.CountWraps | libraries/IPv6Stack/neighbor_info.c:57-87 | Reports of 15 and then 33 transmissions from an empty table leave a metric of 12, less than one transmission, and the subscriber is told that |
| LinkMetric.SubscriberKnows | libraries/IPv6Stack/neighbor_info.c:57-87 | Over every run the value the subscriber was told last is the metric, but for a first one of fifteen transmissions, of which it is not told |
| LinkMetric.SmoothIsTenth | libraries/IPv6Stack/neighbor_info.c:65-73 | No 8- or 16-bit step wraps: the update is a tenth of the way to the sample, rounded down, and stands still exactly within 9 below it |
| LinkMetric.Converges | libraries/IPv6Stack/neighbor_info.c:57-87 | Under a constant sample p the metric goes to p from above, to p-9 from below it and stays put between the two, within as many reports as it was away |
| LinkMetric.BandIsTight | libraries/IPv6Stack/neighbor_info.c:57-87 | So a link that got worse is never seen as such in full: for every sample, a metric below it never reaches it and one more than 9 below stops 9 short |
| LinkMetric.NeighborInfo.PacketSent | libraries/IPv6Stack/neighbor_info.c:104-134 | The attribute table after a transmission report is Report of the one before, and the subscriber is called as Notice says |
| Checksum.FilledPasses | libraries/IPv6Stack/uip.c:1442-1463 | Zeroing the field and storing the complement, for UDP 0xffff instead of 0, makes the receiver's sum exactly 0xffff for every packet and length, changes nothing else and never leaves a UDP value of 0 |
| Checksum.CheckExact | libraries/IPv6Stack/uip.c:1281-1286 | The receiver's test succeeds exactly when all that is summed is a multiple of 65535 |
| Checksum.AcceptsExactly | libraries/IPv6Stack/uip.c:345-405 | In terms of the octets of a packet shorter than 65280: the receiver's test succeeds exactly if source, destination, length, next header and payload add up to a multiple of 65535 |
| Checksum.CoveredOctets | libraries/IPv6Stack/uip.c:345-405 | What is covered is the payload behind the extension headers, as long as octets 4 and 5 say |
| Checksum.ChksumIsSum | libraries/IPv6Stack/uip.c:296-324 | The 16-bit loop is congruent to the start value plus the weighted octets modulo 65535, and 0 only for zeros |
| Checksum.StandardSumExact | libraries/IPv6Stack/uip.c:345-373 | The sum is that of section 8.1 of RFC 2460 exactly when length and next header together stay below 65536; otherwise the addition said not to carry does |
| Checksum.CarryNeedsRoom | libraries/IPv6Stack/uip.c:362-364 | The comment that the addition cannot carry is right for all packets in a buffer of n octets exactly when n and the next header value together stay below 65576: for any next header up to 65320 octets, and so with the configured 160 |
| Checksum.CarryIsLost | libraries/IPv6Stack/uip.c:362-364 | An ICMPv6 packet of 65518 octets, in a buffer that holds one, for which it does carry |
| Checksum.OneWordError | libraries/IPv6Stack/uip.c:1370-1375 | Of all changes to one aligned word of an accepted packet only the swap of 0 and 0xffff goes unnoticed |
| Checksum.Sum | libraries/IPv6Stack/uip.c:296-324 | The pointer loop computes Chksum over the octets of the buffer |
| Checksum.UpperLayerChksum | libraries/IPv6Stack/uip.c:345-373 | Computes UpperChksum of the packet buffer |
| Checksum.Fill | libraries/IPv6Stack/uip.c:1442-1463 | The buffer afterwards is Filled of the one before and passes the receiver's test |
| Checksum.Accept | libraries/IPv6Stack/uip.c:1370-1375 | A packet is accepted exactly when it is UDP with value 0 or its sum is a multiple of 65535 |
| Reassembly.Feed | libraries/IPv6Stack/uip.c:602-746 | Fragments of one packet in any order, repeated and overlapping: every call returns 0 until the last fragment and every octet arrived; that call leaves the original packet, next header and lengths included, and ends the reassembly |
| Reassembly.BlocksSuffice | libraries/IPv6Stack/uip.c:708-727 | With the last fragment in, all octets have arrived exactly when all whole 8-octet blocks have |
| Reassembly.FullExact | libraries/IPv6Stack/uip.c:708-727 | The two bitmap tests hold exactly when every whole block is marked and none behind them in the last octet |
| Reassembly.MarkedBits | libraries/IPv6Stack/uip.c:690-706 | The bitmap update marks the blocks of the fragment and no others |
| Reassembly.FragmentFields | libraries/IPv6Stack/uip.c:628-664 | Offset, M flag, identification and data of a fragment are the octets section 4.5 of RFC 2460 has them in |
| Reassembly.OtherPacketLeft | libraries/IPv6Stack/uip.c:628-631 | A fragment with other addresses or another identification changes nothing while a packet is put together |
| Reassembly.Ends | libraries/IPv6Stack/uip.c:653-683 | A fragment that reaches behind the buffer, or that is not the last and not of whole blocks, ends the reassembly; only the second is returned, for the error message |
| Reassembly.StoreTracks | libraries/IPv6Stack/uip.c:664-706 | After a fragment the bitmap, flags, length and buffer say exactly what was received |
| Reassembly.RoomAsConfigured | libraries/IPv6Stack/uip.c:653-660 | With the configured 160 octets and 2 bitmap octets a fragment that passes the size test has the room it needs exactly when it also fits behind the headers and, once the last fragment has come, the whole packet does too |
| Reassembly.AcceptedWithoutRoom | libraries/IPv6Stack/uip.c:653-660 | A last fragment of eight octets at offset 120 passes the test without room behind the headers or a bit in the bitmap |
| Reassembly.Reassembler.Reassemble | libraries/IPv6Stack/uip.c:602-746 | Static variables, packet buffer and return value are those of Reass, all branches included |
| Reassembly.Reassembler.MarkBlocks | libraries/IPv6Stack/uip.c:690-706 | The bitmap in place is Marked of the one before |
| Reassembly.Reassembler.IsFull | libraries/IPv6Stack/uip.c:708-727 | The loop over the bitmap decides Full |
| UdpPorts.NewPort | libraries/IPv6Stack/uip.c:497-538 | A new connection gets a port no other has, is refused only when no connection is free, and no other connection changes |
| UdpPorts.RunDistinct | libraries/IPv6Stack/uip.c:497-538 | Over every run of openings, bindings and closings no two connections ever share a port, if and only if every binding is to a port no other connection has at that moment |
| UdpPorts.BindExact | libraries/IPv6Stack/uip.h:854 | Binding a connection, which looks at no other, keeps the ports distinct exactly when no other connection has the port |
| UdpPorts.Allocator.BindTo | libraries/IPv6Stack/uip.h:854 | The connections afterwards are those of Bind |
| UdpPorts.Search | libraries/IPv6Stack/uip.c:503-514 | The retry loop ends, on a port that is not taken, for fewer than 27904 connections |
| UdpPorts.SearchNearest | libraries/IPv6Stack/uip.c:502-514 | The port is the next free one above the last, below 32000, and if there is none the first free one from 4096 on |
| UdpPorts.ClosedIsFree | libraries/IPv6Stack/uip.h:842 | Closing a connection frees its port and changes nothing else |
| UdpPorts.TriesBounded | libraries/IPv6Stack/uip.c:503-514 | A search has tried no more taken ports than there are connections |
| UdpPorts.Allocator.Open | libraries/IPv6Stack/uip.c:497-538 | Connections and lastport afterwards are those of New |
| Ds6List.ListLoop | libraries/IPv6Stack/uip_ds6.c:248-272 | The search gives the first matching element, else the last free one if any, else nothing |
| Ds6List.FoundUnique | libraries/IPv6Stack/uip_ds6.c:248-272 | No other answer fits that description |
| Ds6List.Search | libraries/IPv6Stack/uip_ds6.c:248-272 | The loop over the table in place computes ListLoop |
| Neighbors.RunSafe | libraries/IPv6Stack/tcpip.c:522-596 | Over every run of sends, NS, NA, RA and DIO input and periodic passes from an empty cache: addresses distinct, at most three solicitations, non-incomplete entries hold an announced link-layer address, and every unicast frame went to one announced for its next hop |
| Neighbors.StepInv | libraries/IPv6Stack/uip_nd6.c:142-500 | Every step keeps that and the size of the cache |
| Neighbors.OutputInv | libraries/IPv6Stack/tcpip.c:522-596 | A unicast goes only through an entry that is reachable, delayed or probed, to an address announced for the next hop; a solicitation is broadcast exactly when the next hop is unknown and an entry can be had |
| Neighbors.StepFollows | libraries/IPv6Stack/uip_nd6.c:142-500 | Every step follows the state diagram of unreachability detection: only a solicited advertisement confirms a neighbour as reachable, only a packet sent starts the delay, only a timer the probing, a link-layer address changes only to one the message brought for that very neighbour, and the time noted for it never changes |
| Neighbors.Resolves | libraries/IPv6Stack/tcpip.c:522-596 | After the broadcast solicitation for an unknown next hop one advertisement of its link-layer address, with any flags, makes the next packet a unicast to it |
| Neighbors.AddExact | libraries/IPv6Stack/uip_ds6.c:275-338 | An entry is refused exactly when the address is there, or the cache is full with none older than now; an entry given up was the oldest; no other changes; the recursion ends |
| Neighbors.NaInputInv | libraries/IPv6Stack/uip_nd6.c:428-499 | A Neighbor Advertisement keeps the invariant in every combination of flags, option and state |
| NeighborSteps.NaExact | libraries/IPv6Stack/uip_nd6.c:428-499 | State, address, count and router flag of the target after an advertisement, for every flag, option list and state: a resolved one is reachable if and only if solicited is set and override is set or no other address came; stale on a new address with override or from reachable; else as it was; and no other entry changes |
| NeighborSteps.NaForOthers | libraries/IPv6Stack/uip_nd6.c:428-499 | An advertisement for an unknown address changes no entry |
| NeighborSteps.NsExact | libraries/IPv6Stack/uip_nd6.c:164-210 | The sender's entry after the options of a solicitation: the last address, stale if any was news |
| NeighborSteps.NsFromNew | libraries/IPv6Stack/uip_nd6.c:164-210 | A solicitation from a new neighbour makes a stale entry with its last address, if it has one and there is room |
| NeighborSteps.RaExact | libraries/IPv6Stack/uip_nd6.c:772-860 | The sender's entry after the options of a Router Advertisement, now a router |
| NeighborSteps.RaFromNew | libraries/IPv6Stack/uip_nd6.c:772-860 | And that of a new router |
| NeighborSteps.RplExact | libraries/IPv6Stack/rpl_icmp6.c:193-212 | A DIO makes its sender a reachable neighbour unless it is one already |
| NeighborSteps.SendExact | libraries/IPv6Stack/tcpip.c:522-596 | What a packet to a known next hop leaves: the one frame and, of a stale entry, its delay |
| NeighborSteps.SendToNew | libraries/IPv6Stack/tcpip.c:522-540 | To an unknown one: a new entry asked once, and the broadcast; or nothing without room |
| NeighborSteps.TickExact | libraries/IPv6Stack/uip_ds6.c:184-237 | Every entry after a pass, its timer due or not |
| Neighbors.NsInputInv | libraries/IPv6Stack/uip_nd6.c:164-210 | The option loop of a Neighbor Solicitation keeps the invariant |
| Neighbors.RaInputInv | libraries/IPv6Stack/uip_nd6.c:772-912 | The options of a Router Advertisement and the stale static pointer keep the invariant |
| Neighbors.PassInv | libraries/IPv6Stack/uip_ds6.c:184-237 | The periodic pass and the one packet sent after it keep the invariant |
| Neighbors.ProbeGoesOut | libraries/IPv6Stack/tcpip.c:414-418 | The unicast solicitation left in the buffer leaves through the very entry it probes and changes no entry |
| NeighborRuns.GivenUp | libraries/IPv6Stack/uip_ds6.c:184-237 | For any schedule of passes and timers, a silent neighbour being resolved or probed is there exactly as long as its third solicitation was not counted before the last pass: it goes at the first pass after that, its timer due or not |
| NeighborSteps.AnswerSaves | libraries/IPv6Stack/uip_ds6.c:184-237 | The counterpart: a neighbour being resolved, delayed or probed that gives a confirming answer before its removal, after any schedule of passes, is there after any passes that follow, and reachable until its timer has run out |
| NeighborRuns.LastGetsOnePass | libraries/IPv6Stack/uip_ds6.c:189-197 | Whatever came before, the third solicitation is followed by removal at the very next pass, where sections 7.2.2 and 7.3.3 of RFC 4861 have the node wait for RetransTimer |
| NeighborRuns.SentExact | libraries/IPv6Stack/tcpip.c:414-418 | Every solicitation of a pass is counted, but a neighbour's own is sent if and only if no entry further on in the table is solicited in the same pass |
| NeighborRuns.SentIsCounted | libraries/IPv6Stack/tcpip.c:414-418 | A pass sends nothing but a solicitation it counted |
| NeighborRuns.NeverAskedAgain | libraries/IPv6Stack/uip_ds6.c:184-237 | Two neighbours whose timers are due together: the second is solicited twice more, the first never, and both are given up |
| NeighborRuns.EvictedWasFirst | libraries/IPv6Stack/uip_ds6.c:311-338 | Over every run from an empty cache with a clock that does not go back, none in the cache was added at an earlier time than the entry that makes room; it is the one added first in the history unless the clock had not moved on |
| NeighborRuns.StepSlot | libraries/IPv6Stack/uip_ds6.c:275-338 | At every step a slot keeps its neighbour and the time noted for it, loses it, or takes one added just now, in place of the one added first if it was used |
| NeighborRuns.UseDoesNotHelp | libraries/IPv6Stack/uip_ds6.c:311-338 | Sending through an entry never changes which entry makes room next |
| NeighborRuns.LeastRecentExact | libraries/IPv6Stack/uip_ds6.c:311-338 | The entry that makes room is the least recently used one if and only if no packet was sent through it after the last use of any other, and, against one added at the same clock reading, it was added before that use |
| NeighborRuns.UnusedIsLeastRecent | libraries/IPv6Stack/uip_ds6.c:311-338 | So it is if nothing was sent through it since it was added |
| NeighborRuns.RecentlyUsedGoes | libraries/IPv6Stack/uip_ds6.c:311-338 | A run in which the neighbour a packet was just sent to makes room, and not one never sent to |
| NeighborRuns.MarkedExact | libraries/IPv6Stack/uip_nd6.c:885-912 | A Router Advertisement marks its own sender as a router if and only if it carries a link-layer address or the last message to set the static pointer was about the same neighbour |
| NeighborRuns.WrongRouter | libraries/IPv6Stack/uip_nd6.c:885-912 | A neighbour that asked for an address is taken for the router whose advertisement came next |
| Neighbors.NeighborTable.Insert | libraries/IPv6Stack/uip_ds6.c:275-338 | The table after uip_ds6_nbr_add, with its recursion, is Add of the one before |
| Neighbors.NeighborTable.FindOldest | libraries/IPv6Stack/uip_ds6.c:316-334 | The loop finds Oldest |
| Neighbors.NeighborTable.SendTo | libraries/IPv6Stack/tcpip.c:522-596 | Cache and frame are those of Output |
| Neighbors.NeighborTable.ReceiveNs | libraries/IPv6Stack/uip_nd6.c:164-210 | The cache after the options is NsInput of the one before |
| Neighbors.NeighborTable.ReceiveNa | libraries/IPv6Stack/uip_nd6.c:408-499 | The cache after an advertisement is NaInput of the one before, which NeighborSteps.NaExact gives field by field |
| Neighbors.NeighborTable.ReceiveRa | libraries/IPv6Stack/uip_nd6.c:772-912 | The cache after an advertisement is RaInput of the one before |
| Neighbors.NeighborTable.Periodically | libraries/IPv6Stack/uip_ds6.c:184-237 | Every entry after the pass is Tick of the one before, and the buffer holds the solicitation of the last entry in the table that was solicited |
| Neighbors.NeighborTable.TimerEvent | libraries/IPv6Stack/tcpip.c:414-418 | Cache and frame after the pass and the single tcpip_ipv6_output are those of Pass |
| Routes.LookupExact | libraries/IPv6Stack/uip_ds6.c:739-768 | No route exactly when no used route agrees on its whole prefix octets; else one of maximal length that does, the last of equals |
| Routes.RunSeparate | libraries/IPv6Stack/uip_ds6.c:774-830 | Any run of insertions and removals keeps every two used routes different within the whole octets of the longer prefix |
| Routes.RouteLives | libraries/IPv6Stack/uip_ds6.c:774-830 | Over any run a route stays as it is unless it is removed or its next hop goes, and every route in the table afterwards was in it or was inserted |
| Routes.RemovedExact | libraries/IPv6Stack/uip_ds6.c:799-830 | A removal marks the route unused, or all used ones over the next hop that is gone, and changes nothing else |
| Routes.BestIsUnique | libraries/IPv6Stack/uip_ds6.c:739-768 | Hence the route found is the only match of its length |
| Routes.AddExact | libraries/IPv6Stack/uip_ds6.c:774-797 | A route is added exactly when there is room and no used route agrees with it on its own prefix, so a shorter route inside which a longer one lies is refused |
| Routes.ShorterIsRefused | libraries/IPv6Stack/uip_ds6.c:774-797 | A table with room in which a route for 16 bits is refused because of one for 64 bits, which the caller is given |
| Routes.MatchLengthExact | libraries/IPv6Stack/uip_ds6.c:888-912 | The loops count exactly the leading bits two addresses have in common, 0 to 128 |
| Routes.PrefixByOctets | libraries/IPv6Stack/uip.h:1053 | The prefix comparison is the bit comparison with the length rounded down to whole octets |
| Routes.SelectSrcExact | libraries/IPv6Stack/uip_ds6.c:833-866 | For a global unicast destination: unspecified exactly without a preferred global address, else one with the most leading bits in common |
| Routes.LastOfEquals | libraries/IPv6Stack/uip_ds6.c:833-866 | Of several with as many bits in common the last in the list |
| Routes.SelectSrcLocal | libraries/IPv6Stack/uip_ds6.c:855-857 | For a link-local or multicast destination: the first preferred link-local address, unspecified exactly without one |
| Routes.Tables.Lookup | libraries/IPv6Stack/uip_ds6.c:739-768 | The loop computes RouteLookup, which is the best match |
| Routes.Tables.Insert | libraries/IPv6Stack/uip_ds6.c:774-797 | The table afterwards is RouteAdd of the one before and stays separate |
| Routes.Tables.RemoveByNexthop | libraries/IPv6Stack/uip_ds6.c:819-830 | Exactly the used routes over the next hop are removed |
| Routes.Tables.GetMatchLength | libraries/IPv6Stack/uip_ds6.c:888-912 | The nested loops compute MatchLength |
| Routes.Tables.SelectSource | libraries/IPv6Stack/uip_ds6.c:833-866 | The loop computes SelectSrc |
| XBee.AnyChunks | libraries/IPv6Stack/XBee.cpp:853-958 | From a clean state, over any calls and any answers of available(), also between an escape and its octet, what was reported is a prefix of the frames sent, and all of them once all octets were read |
| XBee.StreamDelivered | libraries/IPv6Stack/XBee.cpp:853-958 | From a clean state any sequence of frames of up to 105 data octets is delivered in order and intact |
| XBeeWire.SentExactly | libraries/IPv6Stack/XBee.cpp:1415-1455 | The octets of a frame told without the sender: a start octet, and behind it, escapes undone, the length, API id, frame id, data and the octet that makes them add up to 255; no reserved octet but needed escapes |
| XBeeWire.StuffedAll | libraries/IPv6Stack/XBee.cpp:1457-1466 | Escaping leaves no reserved octet but escapes, each before one that needs it, and is undone by the rule of the format |
| XBeeWire.FrameRead | libraries/IPv6Stack/XBee.cpp:853-958 | Whoever sent it: a frame of 1 to 107 octets behind its length is taken in full and delivered if and only if they and the left-over sum add up to 255 |
| XBeeWire.TooLongRead | libraries/IPv6Stack/XBee.cpp:918-922 | One that says none or more is given up at the 108th |
| XBeeWire.StartInside | libraries/IPv6Stack/XBee.cpp:864-868 | A start octet inside a frame ends it in error |
| XBee.CutsExact | libraries/IPv6Stack/XBee.cpp:853-958 | From any state, also with an escape pending, how the octets are cut into calls and gaps never changes parser or reports if and only if, fed one at a time, no torn escape is met: one inside a frame with a start octet or an escape behind it, or the second of two, unless the octet behind it closes the frame with a wrong sum both ways. Octets between frames do not matter |
| XBee.PairExact | libraries/IPv6Stack/XBee.cpp:864-887 | An escape read after a gap and one read at once come to the same exactly when the octet behind it is neither a start octet nor an escape and, if an escape was pending already, closes the frame with a wrong sum both ways |
| XBee.WildCut | libraries/IPv6Stack/XBee.cpp:853-958 | Where such a pair is met, the calls for which the result is another |
| XBee.CallsConsume | libraries/IPv6Stack/XBee.cpp:853-958 | On a stream without such a pair calls of readPacket in any chunks report what the octets give one at a time, and leave the parser as they do |
| XBee.FrameAtBoundary | libraries/IPv6Stack/XBee.cpp:853-958 | From any state between frames a frame is delivered if the left-over sum is 0 and counted as damaged if not, and the parser is clean afterwards |
| XBee.Resynchronises | libraries/IPv6Stack/XBee.cpp:853-958 | From any state at all, mid-frame or after any error, at most the next two frames are lost |
| XBee.LostExact | libraries/IPv6Stack/XBee.cpp:853-958 | In the middle of a frame the next one is lost, and the one after it exactly when the running sum is not 0 |
| XBee.TwoFramesLost | libraries/IPv6Stack/XBee.cpp:739-758 | A frame cut off behind its API id costs the next two whenever that id is not 0 |
| XBee.DeliveredExact | libraries/IPv6Stack/XBee.cpp:916-922 | From a clean state a frame arrives intact exactly when it has at most 105 octets of data |
| XBee.OpenedLength | libraries/IPv6Stack/XBee.cpp:721-723 | The packet length the parser reads is right up to 253 octets of data and 256 short beyond, the high octet being masked away |
| XBee.CutMattersOnDamage | libraries/IPv6Stack/XBee.cpp:864-887 | An escape followed by a start octet is an error after a gap and plain data without one |
| XBee.XBee.Send | libraries/IPv6Stack/XBee.cpp:1415-1455 | The octets written are Encode of the request |
| XBee.XBee.ReadPacket | libraries/IPv6Stack/XBee.cpp:853-958 | Parser state and octets left are those of ReadLoop after Restart, for any answers of available() |
| XBee.XBee.Dispatch | libraries/IPv6Stack/XBee.cpp:891-956 | The switch over the position is Accept |
| XBee.XBee.ResetResponse | libraries/IPv6Stack/XBee.cpp:739-758 | A finished response is given up and the running sum kept |
| Dio.DioRoundTrip | libraries/IPv6Stack/rpl_icmp6.c:173-486 | The option loop reads from the octets written instance, version, rank, mode, sequence number, DODAG id, metric container, configuration and any prefix, with grounded and preference 0, if and only if the mode has three bits and the container's aggregation and precedence keep to two and four |
| Dio.EtxDioRoundTrip | libraries/IPv6Stack/rpl_of_etx.c:163-185 | With the container the ETX objective function fills in, only the mode can be lost |
| Dio.ContainerRead | libraries/IPv6Stack/rpl_icmp6.c:271-303 | The metric container comes back exactly when its fields keep within their bits |
| Dio.BaseRead | libraries/IPv6Stack/rpl_icmp6.c:230-248 | The base object comes back; the mode exactly up to 7; grounded and preference read 0 |
| Dio.ConfRead | libraries/IPv6Stack/rpl_icmp6.c:329-345 | The configuration option comes back whole |
| Dio.PrefixRead | libraries/IPv6Stack/rpl_icmp6.c:356-371 | The prefix option comes back whole |
| DioWire.DecodeExact | libraries/IPv6Stack/rpl_icmp6.c:214-377 | For every message of 24 to 255 octets, whoever sent it: it divides into options, and is dropped if and only if one runs past the end or one before is of a wrong length or kind; otherwise what it says is what its options say in order |
| DioWire.OthersIgnored | libraries/IPv6Stack/rpl_icmp6.c:251-375 | Pad1 and options of other types, in any number and anywhere, change nothing about what is read |
| DioWire.DroppedExactly | libraries/IPv6Stack/rpl_icmp6.c:271-371 | Whole options are refused exactly if one is bad: a container below 6 octets or of another type, a route with fewer octets than its prefix needs or above 128 bits, a configuration not of 14, a prefix not of 30 |
| DioWire.BaseSays | libraries/IPv6Stack/rpl_icmp6.c:214-248 | The base object bit by bit, and the defaults |
| DioWire.SizeInAnOctet | libraries/IPv6Stack/rpl_icmp6.c:214-216 | Of the size only the low octet is kept |
| DioWire.EncodesAs | libraries/IPv6Stack/rpl_icmp6.c:380-486 | Every octet of the message sent: base, container unless there is none, configuration, prefix unless empty; nothing for an unknown metric |
| DioWire.EtxContainerSent | libraries/IPv6Stack/rpl_of_etx.c:163-185 | The container of the ETX objective function: type 7, the P flag, and the path metric |
| Dio.Messenger.Output | libraries/IPv6Stack/rpl_icmp6.c:380-486 | The buffer holds Encode of the DODAG, whose sequence number was advanced, and nothing is sent for an unknown metric |
| Dio.Messenger.EmitMode | libraries/IPv6Stack/rpl_icmp6.c:396-401 | Whatever the grounded flag, the octet written is the shifted mode alone |
| Dio.Messenger.Input | libraries/IPv6Stack/rpl_icmp6.c:214-377 | The option loop ends on every input, with the result of Decode, which DioWire.DecodeExact gives option by option |
| NeighborAttr.ReadsLastWrite | libraries/IPv6Stack/neighbor_attr.c:82-192 | After any history reading an attribute gives the value last set since the neighbour was added or the attribute registered, else its default |
| NeighborAttr.RunInv | libraries/IPv6Stack/neighbor_attr.c:94-233 | Never more neighbours than blocks, values for exactly the registered attributes, and idle times whose 16 bits cannot overflow |
| NeighborAttr.OthersUntouched | libraries/IPv6Stack/neighbor_attr.c:114-203 | No update touches another neighbour |
| NeighborAttr.IdleRemoved | libraries/IPv6Stack/neighbor_attr.c:215-233 | A silent neighbour stays exactly as long as its idle time has not reached the timeout |
| NeighborAttr.PresentExact | libraries/IPv6Stack/neighbor_attr.c:94-233 | Who is in the table after each event |
| NeighborAttr.IdleExact | libraries/IPv6Stack/neighbor_attr.c:196-233 | After any history the idle time is five seconds for every check since the neighbour was last heard of |
| NeighborAttr.AttrsExact | libraries/IPv6Stack/neighbor_attr.c:94-106 | The attributes with values are exactly those ever registered |
| NeighborStore.Store.Find | libraries/IPv6Stack/neighbor_attr.c:56-74 | The list walk finds the block of a neighbour exactly when the table has it |
| NeighborStore.Store.AddNeighbor | libraries/IPv6Stack/neighbor_attr.c:114-150 | Table and return value are those of NeighborAttr.AddNeighbor |
| NeighborStore.Store.Remove | libraries/IPv6Stack/neighbor_attr.c:153-163 | The table loses exactly the neighbour; unlinked blocks and free blocks stay the same set |
| NeighborStore.Store.Set | libraries/IPv6Stack/neighbor_attr.c:177-194 | The table afterwards is SetData of the one before, a missing neighbour added first |
| NeighborStore.Store.Get | libraries/IPv6Stack/neighbor_attr.c:166-175 | Reads GetData of the table |
| NeighborStore.Store.RegisterAttr | libraries/IPv6Stack/neighbor_attr.c:94-106 | The table afterwards is Register of the one before |
| NeighborStore.Store.Tick | libraries/IPv6Stack/neighbor_attr.c:196-204 | The table afterwards is Refresh of the one before |
| NeighborStore.Store.CheckTimeouts | libraries/IPv6Stack/neighbor_attr.c:215-233 | Removing blocks while walking the list computes TimeoutCheck of the whole table |
| NeighborStore.Store.Alloc | libraries/IPv6Stack/memb.c:59-77 | The first block not in use, marked, or none when all are |
| NeighborStore.Store.Free | libraries/IPv6Stack/memb.c:79-102 | The block at that address, and no other, is free |
| NeighborStore.PoolIsTable | libraries/IPv6Stack/memb.c:59-77 | The pool is exhausted exactly when the table is full |
| LinkedList.List.Remove | libraries/IPv6Stack/list.c:239-263 | The items are the ones before without the item, in order, and its link is cleared |
| LinkedList.List.Push | libraries/IPv6Stack/list.c:164-173 | The item is at the front and nowhere else |
| LinkedList.List.Add | libraries/IPv6Stack/list.c:142-160 | The item is at the end and nowhere else |
| LinkedList.List.Tail | libraries/IPv6Stack/list.c:117-129 | The last item |
| LinkedList.List.Length | libraries/IPv6Stack/list.c:274-285 | The number of items |

## Left out

- TCP, both in `uip_process` and in `uip_split.c`: it is configured off.
- The serial port, `millis` and `delay`, XBee AT commands and their request and response classes, MAC retransmissions, the C++ wrappers and the example sketch: hardware input and output.
- The timer libraries (`timer.c`, `stimer.c`, `etimer.c`, `ctimer.c`): a timer is an event that may come when its owner waits for it.
- Sends that re-enter the stack synchronously, such as a DAO sent while a parent is being selected; the DIO timer resets, DAO scheduling, default routes and address autoconfiguration that RPL steps also trigger.
- Root operations (`rpl_set_root`), several RPL instances and DODAG slots, `rpl_of0.c`, DAO and DIS messages, route lifetimes.
- `min_hoprankinc` 0, by which the code would divide, is excluded by the type of hop increases.
- The advertised metric container `dag->mc` in the RPL state machine; how it is filled is in `Dio.Updated`.
- Next hop determination and the branch of `tcpip_ipv6_output` without a route, which calls itself without end once router solicitations are used up: a next hop is given.
- The default router and prefix lists, router solicitations, RA and RS output, duplicate address detection and solicited-node groups; the checks of hop limit, code and addresses that reject a neighbour discovery message as a whole come before the modelled part.
- Queued packets of the neighbour cache and of the MAC (`queuebuf`, `packetqueue`), configured off or never failing here.
- ICMPv6 error messages and extension header processing; the reassembly starts at a parsed Fragment header.
- `NeighborStore.Store.Find`: does not model the shortcut for an address pointer into the block pool itself, because addresses are values here.
- `SicsLowPan.Adaptation.Input`: takes the MAC's length for both `uip_6lp_len` and `packetbuf_datalen()`, and assumes buffers of at least 160 octets, the configured size.
- `FragmentLayer.Layer.Output`: assumes a packet at least as long as its own headers and shorter than 2048 octets, so that the length fits its 11 bits; the code tests neither, and its buffers never hold as much.
- `FragmentLayer.Layer.Input`: assumes 2190 octets of room in the reassembly buffer, which any 11-bit size and 8-bit offset then stay within; the code makes no such check.
- `Reassembly.Reassembler.Reassemble`: assumes that a fragment which passes the test against the buffer size also has room behind the headers and a bit in the bitmap; the code's test leaves both out, and what it overwrites then is not modelled.
- `Neighbors.NeighborTable.TimerEvent`: the other packets a pass may build in the same buffer are not modelled: a duplicate address detection before the neighbours, and in router builds a Router Advertisement after them. A neighbour's own address is its next hop.
- `Dio.Messenger.Input`: assumes two readable octets behind the message, which option headers at its very end may touch.
- `Neighbors.NeighborTable.ReceiveRa`: of the options only the link-layer address is modelled; the others change no neighbour.
- `NeighborStore.Store.Get`: reading an attribute that was never registered is not modelled, because the array then holds what earlier neighbours left.
- The list of registered attributes is a sequence; the list of neighbours is the linked list it is.
- Debug output and statistics counters.
