# Verification models of HBSD and the DTN2 client interface

This project models the parts of the repository whose correctness rests on more than one function, and proves
what they promise. Each module is one component.

**Statistics gossip.** Nodes keep, per message, one versioned row per node: bits over time bins and the bin of the
first copy. `StatRow` and `StatMessage` hold the rows, the counts folded from them, the cache of these counts and the
last state in which the rows are discarded, `StatRuns` their runs; `StatAxis` the conversion of times to bins.
`Gossip` runs any number of nodes that observe and exchange rows in any order. `GossipRuns` puts these runs on a clock.
`StatText`, `StatExchange` and `StatSubset` are the text format, its printers and its extractors, over the string
primitives of `Text`, and `StatKeys` is what becomes of bundle keys in it; `StatDelta` is the selection by versions.
`Collections` holds facts about sets and sequences.

**Client interface.** `Xdr` holds the encodings (RFC 4506, sections 4.1 to 4.5, 4.9, 4.10, 4.12 to 4.14 and 4.19),
`XdrLayout` the byte offsets of their fields, `XdrStream` the routines over a memory stream, `Ipc` the framing over
sockets that move any number of bytes at a time, `DtnApi` the calls of the library, `IpcProtocol` the interleaving of a
client with its server thread, `IpcRuns` the bytes of its replies, and `Registrations` the bindings of many clients to
one table.

**Bundles.** `Bundles` is the store with its two maps and the eviction by utility, `Epidemic` the summary vector
session, `Scheduling` the sending by utility, `Gbof` the bundle key.

**Simulation.** `SimLink` is the three-timer link of the simulator, `Theory` the main loop of the flow calculator over the
movements of `Movement`.

Objects that the source updates in place are classes; their methods are proved against functions of their old
state, and the properties over runs are lemmas about these functions. A return value `None` of an extractor means
that the program ends. Reads and writes of a socket take their outcomes from a list that may be any list.

## What was found

- Message ids are cut at their first plus sign, and messages and rows after the first are looked for by the letter R
  (`StatText.MatrixRoundTripIff`). The router names messages by bundle keys, which hold a plus sign and start with a
  number: no matrix about bundles is read back (`StatKeys.KeysAreNotReadBack`), and a message about one is read with
  the bundle's length for its TTL (`StatKeys.KeyIsReadAs`).
- `getSubSetDescription` writes a separator before a picked row unless it is the first of all rows, so the text of a
  selection without the first row announces a row too many (`StatSubset.SelectionSurvivesIff`).
- A report of the counts may be out of date after a local update in the second of the last report
  (`StatRuns.SeenUpToDateIff`, `StatRuns.CopiesUpToDateIff`), and after a received row, which does not make a report
  due (`StatRuns.LearnedSeenUpToDateIff`, `StatRuns.LearnedCopiesUpToDateIff`, `StatRuns.SeenReportIff`).
- The cached counts of a message may be of different age, and then more copies than seen nodes may be reported
  (`StatRuns.ReportsAreBounded`, `StatRuns.CopiesOvertakeIff`, `StatRuns.OneCountIsOlder`).
- `isValid` looks up the row of the router's endpoint, while rows are written under the local id. It then closes no
  row, and past the TTL it leaves a null entry (`StatRuns.EndpointHasNoRow`), after which every recomputation of the
  counts ends the program (`StatRuns.CountsStop`, `StatRuns.NextReportEnds`).
- A node that drops a message and takes it again within one time bin gives two contents to one version, and nodes that
  received the same reports may disagree (`Gossip.CoherentExactly`, `GossipRuns.SameReportsDifferentRows`).
- `dtn_cancel_poll` compares the 0 or -1 of `dtnipc_send_recv` with status codes and returns early when the first
  reply is not a success; its comment promises two replies (`IpcProtocol.CancelStaysInStepIff`). Later calls then take
  the reply to the request before (`IpcProtocol.OneReplyBehind`).
- Both eviction policies scan the buffer with the delay utility, also the one named for the delivery rate
  (`Bundles.RatePolicyIff`, `Bundles.RatePolicyEvictsTheBetter`), which the latter compares with the rate of the
  newcomer (`Bundles.RateAgainstDelays`).
- Without optimisation a full store deletes the newcomer while it holds the lock that the deletion takes
  (`Bundles.BundleStore.AddIfNew`).
- Bundles of equal utility are dropped from a scheduled sending (`Scheduling.AllSentIff`).
- The flow calculator prints a completion time that is one interval too late when the transfer takes just the time up
  to the next event (`Theory.Calculator.MoveTwice`, `Theory.Calculator.PrintedTooLate`).

## Model

| member | source | states |
|---|---|---|
| StatText.MatrixRoundTripIff | Software/HBSD/HBSD_DTN2/src/StatisticsManager.cpp:296-379 | Reading the text of getStatToSend gives back every message id, TTL, node id, meeting time, version, start index and the bits of the axis exactly if no message id holds a plus sign and every message and row after the first starts with R |
| StatText.LaterMessageIff | Software/HBSD/HBSD_DTN2/src/StatisticsManager.cpp:1016-1042 | A message after the first is cut out whole exactly if its id starts with R |
| StatText.LaterNodeIff | Software/HBSD/HBSD_DTN2/src/StatisticsManager.cpp:1172-1193 | The same for a row after the first |
| StatText.MessageReadIff | Software/HBSD/HBSD_DTN2/src/StatisticsManager.cpp:1138-1279 | What any message is read as: the id up to its first plus sign, the number after it as the TTL, and all rows exactly if the later ones start with R |
| StatText.MessageRoundTripIff | Software/HBSD/HBSD_DTN2/src/StatisticsManager.cpp:1138-1279 | The extractors, which take an end position for a length, read one message back exactly if its id has no plus sign and its later rows start with R |
| StatText.NodeRoundTrip | Software/HBSD/HBSD_DTN2/src/StatisticsManager.cpp:1052-1136 | The same for one row, whatever text follows it |
| StatText.IdSurvivesIff | Software/HBSD/HBSD_DTN2/src/StatisticsManager.cpp:1138-1155 | A message id comes back exactly if it holds no plus sign |
| StatKeys.KeyIsNotCarried | Software/HBSD/HBSD_DTN2/src/Bundles.cpp:248 | No bundle key, whatever its numbers and URI, survives as a message id, and none is found as a later message |
| StatKeys.KeysAreNotReadBack | Software/HBSD/HBSD_DTN2/src/Bundles.cpp:248 | No matrix with a message about a bundle, which is named by its key, is read back |
| StatKeys.KeyIsReadAs | Software/HBSD/HBSD_DTN2/src/GBOF.h:178-206 | A message about a bundle is read with time stamp, URI and offset as its id and the bundle length as its TTL; its rows are intact exactly if the later ones start with R |
| StatText.TableOfPrint | Software/HBSD/HBSD_DTN2/src/StatisticsManager.cpp:1604-1631 | The table of bits is read back although the cut runs past its end |
| StatText.FieldOf | Software/HBSD/HBSD_DTN2/src/StatisticsManager.cpp:1052-1070 | A field that is cut with an end position for its length is the printed value and, after it, as many characters of the rest as stand before the field |
| StatExchange.NumberOfMessagesFromStat | Software/HBSD/HBSD_DTN2/src/StatisticsManager.cpp:1324-1344 | The loop counts the separators before the end mark |
| StatExchange.NumberOfStatNodesForABundle | Software/HBSD/HBSD_DTN2/src/StatisticsManager.cpp:1256-1283 | The loop counts the rows a message announces |
| StatExchange.MessageFromStat | Software/HBSD/HBSD_DTN2/src/StatisticsManager.cpp:994-1050 | The loop cuts out the p-th message, with every branch and failure |
| StatExchange.NodeFromStat | Software/HBSD/HBSD_DTN2/src/StatisticsManager.cpp:1157-1208 | The loop cuts out the p-th row |
| StatExchange.NodeBitMap | Software/HBSD/HBSD_DTN2/src/StatisticsManager.cpp:1604-1631 | The loop fills the map with the numbers of the table |
| StatExchange.NodeReport | Software/HBSD/HBSD_DTN2/src/StatisticsManager.cpp:1052-1136 | All fields of a row are extracted, and a version or start index beyond the axis ends the program |
| StatExchange.GetDescription | Software/HBSD/HBSD_DTN2/src/StatisticsManager.cpp:296-379 | The appending loop prints a message, or ends the program for a row without id or with a version beyond the axis |
| StatExchange.GetStatToSend | Software/HBSD/HBSD_DTN2/src/StatisticsManager.cpp:1346-1368 | The appending loop prints the whole matrix |
| StatExchange.UpdateNetworkStat | Software/HBSD/HBSD_DTN2/src/StatisticsManager.cpp:1285-1322 | The loop reads all announced messages and skips those without id |
| StatExchange.Exchange | Software/HBSD/HBSD_DTN2/src/StatisticsManager.cpp:1285-1368 | What one node prints the other one is asked to merge, exactly if the format carries it |
| StatSubset.GetSubSetDescription | Software/HBSD/HBSD_DTN2/src/StatisticsManager.cpp:381-466 | The loop prints the picked rows; the separator depends on the place among all rows |
| StatSubset.SelectionSurvivesIff | Software/HBSD/HBSD_DTN2/src/StatisticsManager.cpp:413-415 | The text of a selection is read back as that selection exactly if the first row is picked and the format carries the selection |
| StatSubset.OneRowTooMany | Software/HBSD/HBSD_DTN2/src/StatisticsManager.cpp:1256-1283 | Otherwise the text announces one row more than it holds |
| StatSubset.WithoutRows | Software/HBSD/HBSD_DTN2/src/StatisticsManager.cpp:464 | A message without rows leaves no text at all, not even its id |
| StatAxis.ConvertElapsedTimeToBinIndex | Software/HBSD/HBSD_DTN2/src/StatisticsManager.cpp:2004-2022 | The search finds the bin of every time that has one and fails for the others |
| StatAxis.BinsNeverGoDown | Software/HBSD/HBSD_DTN2/src/StatisticsManager.cpp:2004-2022 | The conversion is monotone, so a nondecreasing clock gives nondecreasing bins |
| StatAxis.StartIsInBin | Software/HBSD/HBSD_DTN2/src/StatisticsManager.cpp:2024-2040 | The start of a bin is its lower end plus one second, or zero for the first; it is in the bin exactly for bins of at least a second |
| StatRow.StatNode.constructor | Software/HBSD/HBSD_DTN2/src/StatisticsManager.cpp:44-61 | A new row has no copies, nothing seen, no start and version 0, and keeps the meeting time |
| StatRow.StatNode.SetTimeBinValue | Software/HBSD/HBSD_DTN2/src/StatisticsManager.cpp:113-160 | A local observation changes bits, seen-map, start and version as SetBin says; the sanity check changes nothing and ends the program for a bin that holds neither 0 nor 1 |
| StatRow.StatNode.UpdateMiBitMap | Software/HBSD/HBSD_DTN2/src/StatisticsManager.cpp:100-110 | The seen-map is filled from the start index on, once |
| StatRow.StatNode.UpdateBitMap | Software/HBSD/HBSD_DTN2/src/StatisticsManager.cpp:163-173 | The bits of the axis are copied, missing ones as 0 |
| StatRow.SetBinOk | Software/HBSD/HBSD_DTN2/src/StatisticsManager.cpp:113-160 | With bins that do not go down the seen-map stays the step function of the start index, and bits lie between start and version |
| StatRow.BlankIsNoRow | Software/HBSD/HBSD_DTN2/src/StatisticsManager.cpp:44-61 | A row that was just made is not well formed; the first observation or report makes it so |
| StatRow.SetBinOkIff | Software/HBSD/HBSD_DTN2/src/StatisticsManager.cpp:113-160 | In general a row stays well formed exactly if the bin is not before its first one and no later bin keeps a bit |
| StatRow.MergeOk | Software/HBSD/HBSD_DTN2/src/StatisticsManager.cpp:535-567 | A report keeps the seen-map exact |
| StatRow.SameVersionChange | Software/HBSD/HBSD_DTN2/src/StatisticsManager.cpp:113-160 | An observation in the bin of the present version changes the row exactly if it sets a bin that was clear |
| StatMessage.DtnStatMessage.constructor | Software/HBSD/HBSD_DTN2/src/StatisticsManager.cpp:179-200 | A new message has no rows and zero counts, and the counts are the fold |
| StatMessage.DtnStatMessage.AddNode | Software/HBSD/HBSD_DTN2/src/StatisticsManager.cpp:513-533 | A local observation changes the node's own row, or makes it, and no other, and its meeting time; it ends the program if the entry is null or the bin then holds neither 0 nor 1 |
| StatMessage.DtnStatMessage.AddReport | Software/HBSD/HBSD_DTN2/src/StatisticsManager.cpp:535-567 | A received row, whatever its numbers, replaces the known one unless it is older; a version beyond the axis and a null entry end the program |
| StatMessage.DtnStatMessage.UpdateMessage | Software/HBSD/HBSD_DTN2/src/StatisticsManager.cpp:1633-1662 | The loop takes in the TTL and all rows of a received message, up to one that ends the program; the time of the last update stays |
| StatMessage.DtnStatMessage.RecordAt | Software/HBSD/HBSD_DTN2/src/StatisticsManager.cpp:906-930 | A local update: the row with its meeting time, the TTL, the life time and the time of the update; what these mean is `StatRuns.ClocksAreTold` |
| StatMessage.DtnStatMessage.UpdateMiMap | Software/HBSD/HBSD_DTN2/src/StatisticsManager.cpp:612-626 | The nested loop counts in each bin the nodes that have seen the message; a frozen message keeps its counts, and a null entry ends the program |
| StatMessage.DtnStatMessage.UpdateNiMap | Software/HBSD/HBSD_DTN2/src/StatisticsManager.cpp:628-643 | The same loop sums up the bitmaps |
| StatMessage.DtnStatMessage.GetNumberOfNodesThatHaveSeenIt | Software/HBSD/HBSD_DTN2/src/StatisticsManager.cpp:243-252 | The cached count is answered, recomputed if there was an update since the last report, and at least 1; beyond the axis the answer is 1; recomputing with a null entry ends the program |
| StatMessage.DtnStatMessage.GetNumberOfCopiesAt | Software/HBSD/HBSD_DTN2/src/StatisticsManager.cpp:254-263 | The same for the copies |
| StatMessage.DtnStatMessage.SmallestVersion | Software/HBSD/HBSD_DTN2/src/StatisticsManager.cpp:778-803 | The running minimum decides whether all rows reach a version |
| StatMessage.DtnStatMessage.IsValid | Software/HBSD/HBSD_DTN2/src/StatisticsManager.cpp:710-775 | Past the TTL the row of the endpoint gets the last version, or a null entry is made if there is none; once all rows of two or more entries have it the rows are folded and discarded, which a null entry turns into the end of the program; otherwise the answer is whether all rows reach the bin |
| StatMessage.CountBounds | Software/HBSD/HBSD_DTN2/src/StatisticsManager.cpp:612-643 | Copies never exceed the nodes that have seen the message, these never the rows, and the seen counts never fall along the axis |
| StatMessage.CopiesAreCounted | Software/HBSD/HBSD_DTN2/src/StatisticsManager.cpp:628-643 | For well-formed rows the sum of the bitmaps counts the nodes that hold a copy, in whatever order it is taken |
| StatRuns.ReportsAreBounded | Software/HBSD/HBSD_DTN2/src/StatisticsManager.cpp:243-263 | In every run of local updates, received rows, reports and validations from a new message, with bins that do not go down: the cached seen counts grow along the axis and stay below the rows, and the cached copies stay below them if no row changed between the last recomputations of the two, or the message is frozen |
| StatRuns.CopiesOvertakeIff | Software/HBSD/HBSD_DTN2/src/StatisticsManager.cpp:243-263 | After a local update or a received row that only the copies are recomputed for, they exceed the seen counts exactly if it adds a node with a copy in a bin in which all nodes that have seen the message hold one |
| StatRuns.OneCountIsOlder | Software/HBSD/HBSD_DTN2/src/StatisticsManager.cpp:243-263 | A run that the program can have, on every axis and for every bin: another node's row is known from its report, the seen counts are asked for, the own node takes a copy, and two copies and one node that has seen the message are reported |
| StatRuns.FrozenCountsAreBounded | Software/HBSD/HBSD_DTN2/src/StatisticsManager.cpp:738-769 | The same bounds hold for the counts of a frozen message |
| StatRuns.RunReportsFold | Software/HBSD/HBSD_DTN2/src/StatisticsManager.cpp:243-283 | On every run with the clock ticking after a report, every report is a fresh fold over the rows, unless a row came in when no report was due and no local update followed it |
| StatRuns.SeenReportIff | Software/HBSD/HBSD_DTN2/src/StatisticsManager.cpp:1633-1662 | For the seen counts, from a new message, exactly: the next report is the fold if and only if no row of a new node came in like this |
| StatRuns.SeenUpToDateIff | Software/HBSD/HBSD_DTN2/src/StatisticsManager.cpp:243-252 | If the seen counts were up to date, the next report after a local update is exactly if the clock has moved since the last one, or the node is known, or the bin is beyond the axis |
| StatRuns.CopiesUpToDateIff | Software/HBSD/HBSD_DTN2/src/StatisticsManager.cpp:254-263 | The same for the copies, exactly if the clock has moved or the update does not set a bit that was clear |
| StatRuns.LearnedSeenUpToDateIff | Software/HBSD/HBSD_DTN2/src/StatisticsManager.cpp:1633-1662 | After a received row the next report of the seen counts is up to date exactly if one was due, or the node is known, or its first bin is beyond the axis |
| StatRuns.LearnedCopiesUpToDateIff | Software/HBSD/HBSD_DTN2/src/StatisticsManager.cpp:1633-1662 | The report of the copies exactly if one was due, or the row is older than the known one or holds the same bits |
| StatMessage.LastVersionKeepsCounts | Software/HBSD/HBSD_DTN2/src/StatisticsManager.cpp:715-731 | Generating the last version changes no count |
| StatRuns.FreezeTakesFold | Software/HBSD/HBSD_DTN2/src/StatisticsManager.cpp:738-769 | Rows are discarded exactly when there are two or more entries, null ones included, and every row has the last version or is that of the endpoint past the TTL; the kept counts are the fold of the rows |
| StatRuns.FrozenForEver | Software/HBSD/HBSD_DTN2/src/StatisticsManager.cpp:612-643 | After that the answers never change, whatever is recorded |
| StatRuns.EndpointHasNoRow | Software/HBSD/HBSD_DTN2/src/StatisticsManager.cpp:715-731 | In every run in which the endpoint has no row, isValid never gives a row the last version, and a message that is not frozen has a null entry exactly if isValid was called at or after the birth that the last local update told plus the TTL of the last row |
| StatRuns.ClocksAreTold | Software/HBSD/HBSD_DTN2/src/StatisticsManager.cpp:906-930 | In every run the clocks of a message are those of its operations: last update minus life time is the birth, present less life time, of the last local update, whatever was asked or closed since; the TTL is that of the last local update or received row; the times of the last update and of the last reports due are theirs |
| StatRuns.PastTtlIff | Software/HBSD/HBSD_DTN2/src/StatisticsManager.cpp:718 | So in every run a message is past its TTL exactly from its birth plus its TTL on |
| StatRuns.ClosingChanges | Software/HBSD/HBSD_DTN2/src/StatisticsManager.cpp:715-731 | Past the TTL the row of the endpoint gets the last version with its bits, start and seen-map as they were, or a null entry is made; nothing else changes but the clock, and the age stays |
| StatRuns.CountsStop | Software/HBSD/HBSD_DTN2/src/StatisticsManager.cpp:738-746 | Once there is a null entry the counts never change again and the message is never frozen: every operation that would do so ends the program |
| StatRuns.NextReportEnds | Software/HBSD/HBSD_DTN2/src/StatisticsManager.cpp:243-252 | In such runs asking for the seen counts ends the program exactly if isValid was called past the TTL, the message is not frozen and there was an update since the last report |
| Gossip.StoredRowsAreOldRowsOfTheWriter | Software/HBSD/HBSD_DTN2/src/StatisticsManager.cpp:513-567 | In every run of any number of nodes, with reports lost, doubled and reordered, a stored row is a row its writer had at that time or before, with its start index, and no replica is ahead of the writer |
| Gossip.VersionsNeverDecrease | Software/HBSD/HBSD_DTN2/src/StatisticsManager.cpp:535-567 | No node goes back to an older version or loses a row |
| Gossip.CountsAreBounded | Software/HBSD/HBSD_DTN2/src/StatisticsManager.cpp:612-643 | In every reachable state, on every node and for every message, copies <= seen <= rows and the seen counts never fall along the axis |
| Gossip.MergeIsNewer | Software/HBSD/HBSD_DTN2/src/StatisticsManager.cpp:541-555 | Merging is taking the newer row: associative and idempotent, and the seen-map does not depend on the order |
| Gossip.MergeCommutesExactly | Software/HBSD/HBSD_DTN2/src/StatisticsManager.cpp:541-555 | The order of two reports matters exactly if they are different rows of one version and not out of date |
| Gossip.CoherentExactly | Software/HBSD/HBSD_DTN2/src/StatisticsManager.cpp:113-160 | A step lets one version name two contents exactly if the writer, in the bin of the present version, sets a bit that is clear: it drops the message and takes it again within one bin |
| GossipRuns.SameReportsDifferentRows | Software/HBSD/HBSD_DTN2/src/StatisticsManager.cpp:541-555 | Such a run on every axis of two bins or more: two nodes receive the same rows in different order and hold different ones |
| GossipRuns.ClockedRunsIff | Software/HBSD/HBSD_DTN2/src/StatisticsManager.cpp:2004-2022 | Updates with elapsed times that do not go back, converted to bins, are runs of the gossip in which no version goes down, exactly if no row is updated within the axis after it got the last version |
| GossipRuns.ClockedCountsAreBounded | Software/HBSD/HBSD_DTN2/src/StatisticsManager.cpp:612-643 | With such a clock, whenever rows are closed, copies <= seen <= rows on every node and for every message |
| Gossip.HoldsNewestReceived | Software/HBSD/HBSD_DTN2/src/StatisticsManager.cpp:1633-1660 | In every run a node holds the newest of the rows that reached it, and one of them |
| Gossip.SameReportsSameRow | Software/HBSD/HBSD_DTN2/src/StatisticsManager.cpp:1633-1660 | Nodes that received the same reports, in any order and number, agree |
| Gossip.LastReportConverges | Software/HBSD/HBSD_DTN2/src/StatisticsManager.cpp:1550-1602 | A node that got the writer's present row has exactly this row |
| Gossip.RunKeeps | Software/HBSD/HBSD_DTN2/src/StatisticsManager.cpp:513-567 | The invariant of all runs: stored and sent rows are written rows, all of one start index, none newer than the writer's |
| StatDelta.SelectNodes | Software/HBSD/HBSD_DTN2/src/StatisticsManager.cpp:1422-1446 | The nested loop picks exactly the rows the peer has not listed or listed in an older version |
| StatDelta.FirstEntryCounts | Software/HBSD/HBSD_DTN2/src/StatisticsManager.cpp:1422-1446 | Of two entries of one node in the list of the peer the first one counts |
| StatDelta.DeltaRefinesFull | Software/HBSD/HBSD_DTN2/src/StatisticsManager.cpp:1402-1477 | Merging only the picked rows gives the same rows and seen-maps as merging all of them, exactly if rows that were not picked agree with the peer's rows of the same version; the peer's list may be out of date |
| StatDelta.PickedRowsAreAccepted | Software/HBSD/HBSD_DTN2/src/StatisticsManager.cpp:535-567 | With an up-to-date list every picked row is newer than the peer's and is what the peer then has |
| Xdr.U32RoundTrip | Software/DTN2 External Router/DTN2/applib/dtn_types_xdr.c:72-78 | decode(encode(v) + rest) = (v, rest) for: unsigned int |
| Xdr.I32RoundTrip | Software/DTN2 External Router/DTN2/applib/dtn_types_xdr.c:195-201 | decode(encode(v) + rest) = (v, rest) for: int, and any enumeration |
| Xdr.BoolRoundTrip | Software/DTN2 External Router/DTN2/applib/dtn_types_xdr.c:178-179 | decode(encode(v) + rest) = (v, rest) for: boolean |
| Xdr.U64RoundTrip | Software/DTN2 External Router/DTN2/applib/dtn_types_xdr.c:101-109 | decode(encode(v) + rest) = (v, rest) for: unsigned hyper |
| Xdr.OpaqueRoundTrip | Software/DTN2 External Router/DTN2/applib/dtn_types_xdr.c:57-65 | decode(encode(v) + rest) = (v, rest) for: fixed opaque data with fill bytes |
| Xdr.BytesRoundTrip | Software/DTN2 External Router/DTN2/applib/dtn_types_xdr.c:265-267 | decode(encode(v) + rest) = (v, rest) for: counted opaque data up to a limit |
| Xdr.ServiceTagRoundTrip | Software/DTN2 External Router/DTN2/applib/dtn_types_xdr.c:122-130 | decode(encode(v) + rest) = (v, rest) for: service tag, a vector of characters of one word each |
| Xdr.TimestampRoundTrip | Software/DTN2 External Router/DTN2/applib/dtn_types_xdr.c:101-109 | decode(encode(v) + rest) = (v, rest) for: time stamp |
| Xdr.RegInfoRoundTrip | Software/DTN2 External Router/DTN2/applib/dtn_types_xdr.c:167-184 | decode(encode(v) + rest) = (v, rest) for: registration state |
| Xdr.BlockRoundTrip | Software/DTN2 External Router/DTN2/applib/dtn_types_xdr.c:258-269 | decode(encode(v) + rest) = (v, rest) for: extension block |
| Xdr.BlocksRoundTrip | Software/DTN2 External Router/DTN2/applib/dtn_types_xdr.c:318-323 | decode(encode(v) + rest) = (v, rest) for: array of blocks up to a limit |
| Xdr.SpecRoundTrip | Software/DTN2 External Router/DTN2/applib/dtn_types_xdr.c:295-325 | decode(encode(v) + rest) = (v, rest) for: bundle metadata, with arbitrary block arrays |
| Xdr.BundleIdRoundTrip | Software/DTN2 External Router/DTN2/applib/dtn_types_xdr.c:337-349 | decode(encode(v) + rest) = (v, rest) for: bundle id |
| Xdr.ReportRoundTrip | Software/DTN2 External Router/DTN2/applib/dtn_types_xdr.c:384-407 | decode(encode(v) + rest) = (v, rest) for: status report |
| Xdr.OptionalRoundTrip | Software/DTN2 External Router/DTN2/applib/dtn_types_xdr.c:450-451 | decode(encode(v) + rest) = (v, rest) for: optional pointer to a status report |
| Xdr.PayloadRoundTrip | Software/DTN2 External Router/DTN2/applib/dtn_types_xdr.c:440-453 | decode(encode(v) + rest) = (v, rest) for: payload |
| Xdr.SendRoundTrip | Software/DTN2 External Router/DTN2/applib/APIServer.cc:786-788 | The same for the arguments of dtn_send |
| Xdr.SendAligned | Software/DTN2 External Router/DTN2/applib/dtn_api.c:374-380 | The arguments of dtn_send take a multiple of 4 bytes |
| Xdr.TwelveBlocksFit | Software/DTN2 External Router/DTN2/applib/dtn_ipc.c:94-98 | Every in-memory send of up to 50000 bytes, ids of up to 1024 bytes and n blocks fits the 65528-byte body exactly if n <= 12 |
| Xdr.LargestSend | Software/DTN2 External Router/DTN2/applib/dtn_api.c:707-732 | The largest send with n blocks takes 52884 + 1036 n bytes |
| XdrLayout.BigEndian | Software/DTN2 External Router/DTN2/applib/dtn_types_xdr.c:72-78 | The bytes of a word are the digits of its value to the base 256, the highest first |
| XdrLayout.RegInfoLayout | Software/DTN2 External Router/DTN2/applib/dtn_types_xdr.c:167-184 | The byte offset of each field of the registration state |
| XdrLayout.BlocksLayout | Software/DTN2 External Router/DTN2/applib/dtn_types_xdr.c:318-323 | The count of an array, and each block behind the ones before it |
| XdrLayout.BlockLayout | Software/DTN2 External Router/DTN2/applib/dtn_types_xdr.c:258-269 | The fields of an extension block |
| XdrLayout.SpecLayout | Software/DTN2 External Router/DTN2/applib/dtn_types_xdr.c:295-325 | The byte offset of each of the twelve fields of the bundle metadata |
| XdrLayout.BundleIdLayout | Software/DTN2 External Router/DTN2/applib/dtn_types_xdr.c:337-349 | The same for the bundle id |
| XdrLayout.ReportLayout | Software/DTN2 External Router/DTN2/applib/dtn_types_xdr.c:384-407 | The same for the status report |
| XdrLayout.PayloadLayout | Software/DTN2 External Router/DTN2/applib/dtn_types_xdr.c:440-453 | The same for the payload, with the word that says whether a report follows |
| XdrLayout.SendLayout | Software/DTN2 External Router/DTN2/applib/APIServer.cc:786-788 | And for the arguments of dtn_send |
| XdrStream.XdrMem.EncodeServiceTag | Software/DTN2 External Router/DTN2/applib/dtn_types_xdr.c:122-130 | The encoder of the service tag succeeds exactly if the limits hold and it fits, and then appends the encoding |
| XdrStream.XdrMem.DecodeServiceTag | Software/DTN2 External Router/DTN2/applib/dtn_types_xdr.c:122-130 | The decoder of the service tag reads exactly what the stream holds, or fails |
| XdrStream.XdrMem.EncodeRegInfo | Software/DTN2 External Router/DTN2/applib/dtn_types_xdr.c:167-184 | The encoder of the registration state succeeds exactly if the limits hold and it fits, and then appends the encoding |
| XdrStream.XdrMem.DecodeRegInfo | Software/DTN2 External Router/DTN2/applib/dtn_types_xdr.c:167-184 | The decoder of the registration state reads exactly what the stream holds, or fails |
| XdrStream.XdrMem.EncodeBlock | Software/DTN2 External Router/DTN2/applib/dtn_types_xdr.c:258-269 | The encoder of the extension block succeeds exactly if the limits hold and it fits, and then appends the encoding |
| XdrStream.XdrMem.DecodeBlock | Software/DTN2 External Router/DTN2/applib/dtn_types_xdr.c:258-269 | The decoder of the extension block reads exactly what the stream holds, or fails |
| XdrStream.XdrMem.EncodeBlocks | Software/DTN2 External Router/DTN2/applib/dtn_types_xdr.c:318-323 | The encoder of the block array succeeds exactly if the limits hold and it fits, and then appends the encoding |
| XdrStream.XdrMem.DecodeBlocks | Software/DTN2 External Router/DTN2/applib/dtn_types_xdr.c:318-323 | The decoder of the block array reads exactly what the stream holds, or fails |
| XdrStream.XdrMem.EncodeSpec | Software/DTN2 External Router/DTN2/applib/dtn_types_xdr.c:295-325 | The encoder of the bundle metadata succeeds exactly if the limits hold and it fits, and then appends the encoding |
| XdrStream.XdrMem.DecodeSpec | Software/DTN2 External Router/DTN2/applib/dtn_types_xdr.c:295-325 | The decoder of the bundle metadata reads exactly what the stream holds, or fails |
| XdrStream.XdrMem.EncodeBundleId | Software/DTN2 External Router/DTN2/applib/dtn_types_xdr.c:337-349 | The encoder of the bundle id succeeds exactly if the limits hold and it fits, and then appends the encoding |
| XdrStream.XdrMem.DecodeBundleId | Software/DTN2 External Router/DTN2/applib/dtn_types_xdr.c:337-349 | The decoder of the bundle id reads exactly what the stream holds, or fails |
| XdrStream.XdrMem.EncodeReport | Software/DTN2 External Router/DTN2/applib/dtn_types_xdr.c:384-407 | The encoder of the status report succeeds exactly if the limits hold and it fits, and then appends the encoding |
| XdrStream.XdrMem.DecodeReport | Software/DTN2 External Router/DTN2/applib/dtn_types_xdr.c:384-407 | The decoder of the status report reads exactly what the stream holds, or fails |
| XdrStream.XdrMem.EncodeOptional | Software/DTN2 External Router/DTN2/applib/dtn_types_xdr.c:450-451 | The encoder of the optional status report succeeds exactly if the limits hold and it fits, and then appends the encoding |
| XdrStream.XdrMem.DecodeOptional | Software/DTN2 External Router/DTN2/applib/dtn_types_xdr.c:450-451 | The decoder of the optional status report reads exactly what the stream holds, or fails |
| XdrStream.XdrMem.EncodePayload | Software/DTN2 External Router/DTN2/applib/dtn_types_xdr.c:440-453 | The encoder of the payload succeeds exactly if the limits hold and it fits, and then appends the encoding |
| XdrStream.XdrMem.DecodePayload | Software/DTN2 External Router/DTN2/applib/dtn_types_xdr.c:440-453 | The decoder of the payload reads exactly what the stream holds, or fails |
| XdrStream.XdrMem.EncodeTimestamp | Software/DTN2 External Router/DTN2/applib/dtn_types_xdr.c:101-109 | The encoder of the time stamp succeeds exactly if the limits hold and it fits, and then appends the encoding |
| XdrStream.XdrMem.DecodeTimestamp | Software/DTN2 External Router/DTN2/applib/dtn_types_xdr.c:101-109 | The decoder of the time stamp reads exactly what the stream holds, or fails |
| XdrStream.XdrMem.EncodeBytes | Software/DTN2 External Router/DTN2/applib/dtn_types_xdr.c:265-267 | The encoder of the counted data succeeds exactly if the limits hold and it fits, and then appends the encoding |
| XdrStream.XdrMem.DecodeBytes | Software/DTN2 External Router/DTN2/applib/dtn_types_xdr.c:265-267 | The decoder of the counted data reads exactly what the stream holds, or fails |
| XdrStream.XdrMem.EncodeSend | Software/DTN2 External Router/DTN2/applib/dtn_api.c:373-380 | The three encoders of dtn_send in a row |
| XdrStream.XdrMem.DecodeSend | Software/DTN2 External Router/DTN2/applib/APIServer.cc:785-788 | The three decoders of handle_send in a row |
| Ipc.IpcHandle.Send | Software/DTN2 External Router/DTN2/applib/dtn_ipc.c:232-283 | Whatever the sizes of the partial writes, type, length and body go out whole, or the connection is given up in the middle of the message |
| Ipc.SendsIff | Software/DTN2 External Router/DTN2/applib/dtn_ipc.c:262-281 | A message goes out whole exactly if the writes before the first one that fails, at least a byte each unless interrupted, can move all of it |
| Ipc.TakesMoreIff | Software/DTN2 External Router/DTN2/applib/dtn_ipc.c:328-350 | The rest of a message is read exactly if it is there, fits the buffer, and the reads before the first one that fails can move it |
| Ipc.ReplyIsReadIff | Software/DTN2 External Router/DTN2/applib/dtn_ipc.c:293-353 | A reply is read exactly if its header comes with one read and the reads after it can move its body before one fails |
| Ipc.IpcHandle.Recv | Software/DTN2 External Router/DTN2/applib/dtn_ipc.c:293-353 | The reads, which ask for all of the remaining buffer, leave the taken bytes in the buffer and the rest in the stream |
| Ipc.IpcHandle.SendRecv | Software/DTN2 External Router/DTN2/applib/dtn_ipc.c:356-382 | A request is sent and a reply taken; an error status becomes the error. As long as the connection is not given up the request has gone out whole, also when the call fails, and otherwise whole or in part |
| Ipc.ExactlyOneReplyIff | Software/DTN2 External Router/DTN2/applib/dtn_ipc.c:328-352 | Over all splits of the reads exactly one reply is taken if and only if it has no body, or nothing follows it, or it fills the buffer |
| Ipc.RequestReader.ReadRequest | Software/DTN2 External Router/DTN2/applib/APIServer.cc:306-350 | The server takes exactly one message and its body is what it decodes; it does so exactly if the five header bytes come with one read and the body is there |
| Ipc.TransferSend | Software/DTN2 External Router/DTN2/applib/APIServer.cc:776-790 | What handle_send decodes is what dtn_send encoded, through encoding, framing, partial writes and reads; a send that breaks a limit is refused and nothing goes out |
| Ipc.IpcHandle.SendBundle | Software/DTN2 External Router/DTN2/applib/dtn_api.c:373-385 | dtn_send encodes and sends its arguments, or fails with an encoding error and sends nothing, or with a communication error and closes the connection in the middle of the message |
| DtnApi.BeginPoll | Software/DTN2 External Router/DTN2/applib/dtn_api.c:604-631 | A poll request goes out and no reply is read, or it breaks off and the connection is closed; refused inside a poll |
| DtnApi.CancelPoll | Software/DTN2 External Router/DTN2/applib/dtn_api.c:634-666 | The cancel request goes out, unless the connection is closed in the middle of it; the second reply is read only if the first says success, and otherwise stays in the stream |
| DtnApi.CollectPoll | Software/DTN2 External Router/DTN2/applib/dtn_api.c:441-453 | The call that ends a poll reads the reply to the poll first |
| DtnApi.Receive | Software/DTN2 External Router/DTN2/applib/dtn_api.c:430-480 | dtn_recv, alone or ending a poll, sends its request and gets what the server packed, if the payload is where the caller wants it or in a file to be read, and otherwise the error of the poll, of the request or of the encoding |
| DtnApi.Bind | Software/DTN2 External Router/DTN2/applib/dtn_api.c:305-328 | A plain call sends its request, takes exactly its reply and keeps its error, and is refused inside a poll |
| IpcProtocol.EveryRequestIsAnsweredOnce | Software/DTN2 External Router/DTN2/applib/dtn_api.c:604-666 | In every interleaving, early returns and sessions ended by the server included, the requests sent are those of the replies taken plus the outstanding ones, which number 0 when idle, 1 in a call or poll, 2 only inside dtn_cancel_poll, plus one per early return and those a closed session left without a reply |
| IpcProtocol.NothingFollowsABody | Software/DTN2 External Router/DTN2/applib/APIServer.cc:298-412 | Without early returns a reply with a body is alone in the stream and nothing can follow it before it is taken |
| IpcProtocol.BlockedHandlersSeeNoData | Software/DTN2 External Router/DTN2/applib/APIServer.cc:1455-1541 | Without early returns a blocked handler never finds data from the client, except begin_poll, which finds only a cancel request, and the server ends no session |
| IpcProtocol.CallsGetTheirReply | Software/DTN2 External Router/DTN2/applib/dtn_api.c:430-469 | Each call takes its own reply and returns with it, one that ends a poll sends its request after the success of the poll, and a poll and its cancel get exactly two replies whether the cancel is read inside handle_begin_poll or after it |
| IpcProtocol.CallsReturn | Software/DTN2 External Router/DTN2/applib/dtn_ipc.c:356-382 | Without early returns no call waits for ever: while it waits some step is possible, and every possible step lowers what is left to do |
| IpcProtocol.CancelStaysInStepIff | Software/DTN2 External Router/DTN2/applib/dtn_api.c:649-653 | dtn_cancel_poll leaves the two sides in step exactly if the first reply says success; otherwise the reply to the cancel stays unread |
| IpcProtocol.CrossedTimeout | Software/DTN2 External Router/DTN2/applib/dtn_api.c:649-653 | A run in which a timed-out poll crosses its cancel and the next call takes the wrong reply |
| IpcProtocol.OneReplyBehind | Software/DTN2 External Router/DTN2/applib/dtn_api.c:649-653 | After the first early return, until the next poll, every call takes the reply to the request before its own: the first one that to the cancel |
| IpcProtocol.CallsAreBehind | Software/DTN2 External Router/DTN2/applib/APIServer.cc:298-412 | In general replies are taken in the order of the requests on their way at first and those sent later |
| IpcProtocol.LateCallEndsSession | Software/DTN2 External Router/DTN2/applib/APIServer.cc:1790-1806 | A run in which the blocked handler of dtn_recv then finds the next request and ends the session |
| IpcRuns.ExactlyOneReplyInEveryRun | Software/DTN2 External Router/DTN2/applib/dtn_ipc.c:293-353 | In every run without an early return, over all splits of the reads and whatever steps are taken while the client reads, dtnipc_recv takes exactly the reply to the call and leaves those sent after it |
| IpcRuns.OnlyTaking | Software/DTN2 External Router/DTN2/applib/APIServer.cc:298-412 | While a reply with a body waits, the only possible step is to take it |
| IpcProtocol.RunKeepsSync | Software/DTN2 External Router/DTN2/applib/APIServer.cc:1513-1528 | The invariant of all runs without early return: where the outstanding requests are |
| Registrations.ActiveIffBoundOnce | Software/DTN2 External Router/DTN2/applib/APIServer.cc:573-586 | In every run, across any number of clients, a registration of an API client is active exactly if it occurs in exactly one client's bindings, exactly once |
| Registrations.DaemonOutOfReach | Software/DTN2 External Router/DTN2/applib/APIServer.cc:602-772 | The daemon's own registrations are active and bound by no client, and unregister, bind and unbind refuse them |
| Registrations.HeldUntilLetGo | Software/DTN2 External Router/DTN2/applib/APIServer.cc:614-642 | A registration unregistered while bound stays, active and bound, and its expiration is not announced, until its client unbinds it or closes |
| Registrations.DoomedStep | Software/DTN2 External Router/DTN2/applib/APIServer.cc:211-232 | Unbinding or closing then makes it inactive and announces its expiration once |
| Registrations.UnregisterDooms | Software/DTN2 External Router/DTN2/applib/APIServer.cc:618-627 | Unregistering a bound registration only marks it, the second time with an error |
| Registrations.UnregisteredIsGone | Software/DTN2 External Router/DTN2/applib/APIServer.cc:633-642 | A registration that nobody holds is gone once a client unregisters it: in every run from then on no client finds, binds, unbinds or unregisters it, since ids are given once |
| Registrations.HoldersAfter | Software/DTN2 External Router/DTN2/applib/APIServer.cc:506-772 | For every step: who holds a registration is who held it and did not let it go, or registered it active, or bound it while nobody held it |
| Registrations.KnownAfter | Software/DTN2 External Router/DTN2/applib/APIServer.cc:506-772 | For every step: which registrations there are, whose they are, and which have expired, told by who holds them |
| Registrations.AnnouncedAfter | Software/DTN2 External Router/DTN2/applib/APIServer.cc:757-762 | An expiration is announced exactly when the holder of an expired registration lets it go, once |
| Registrations.AnswersMean | Software/DTN2 External Router/DTN2/applib/APIServer.cc:602-768 | What the answers to bind, unbind and unregister say about a registration and its holder |
| Registrations.AcceptedIff | Software/DTN2 External Router/DTN2/applib/APIServer.cc:536-567 | Flags are accepted exactly if they are one of the three failure actions plus four times one of the eight session masks |
| Registrations.ApiServer.HandleRegister | Software/DTN2 External Router/DTN2/applib/APIServer.cc:506-598 | A new registration, bound and active unless passive; requests that do not unpack, bad endpoints and bad flags are refused and change nothing |
| Registrations.ApiServer.HandleUnregister | Software/DTN2 External Router/DTN2/applib/APIServer.cc:602-643 | All outcomes and what each changes, as `Registrations.AnswersMean` and `Registrations.KnownAfter` read them |
| Registrations.ApiServer.HandleBind | Software/DTN2 External Router/DTN2/applib/APIServer.cc:685-723 | An inactive registration of an application is bound and becomes active |
| Registrations.ApiServer.HandleUnbind | Software/DTN2 External Router/DTN2/applib/APIServer.cc:727-772 | The first occurrence is erased; the assertion that it is active holds in every reachable state |
| Registrations.ApiServer.CloseClient | Software/DTN2 External Router/DTN2/applib/APIServer.cc:211-232 | The loop lets go of all bindings |
| Registrations.RunKeeps | Software/DTN2 External Router/DTN2/applib/APIServer.cc:696-768 | The invariant of all runs |
| Bundles.BundleStore.AddIfNew | Software/HBSD/HBSD_DTN2/src/Bundles.cpp:219-300 | A bundle with a new local id is stored exactly if there is room, or with optimisation if the full store takes it; both maps and what DTN2 is asked to delete are determined, and the maps stay one to one within the bound; without optimisation a full store blocks on the lock |
| Bundles.BundleStore.HbsdAdd | Software/HBSD/HBSD_DTN2/src/Bundles.cpp:502-682 | The two policies of a full buffer: the newcomer is taken exactly if it is local or some foreign bundle is worth no more; who is evicted by its delay, what DTN2 is asked to delete, and the size stays |
| Bundles.TakesIff | Software/HBSD/HBSD_DTN2/src/Bundles.cpp:543-583 | The comparison with one bundle, the victim, decides as if the newcomer were compared with all foreign ones: it is taken exactly if it is local, or some foreign bundle is worth no more, or it reaches the largest double; for every utility |
| Bundles.AddedIff | Software/HBSD/HBSD_DTN2/src/Bundles.cpp:219-300 | So a new bundle is stored exactly if there is room or, with optimisation, the full store takes it |
| Bundles.NothingIsLost | Software/HBSD/HBSD_DTN2/src/Bundles.cpp:543-588 | Of the stored bundles and the newcomer DTN2 is asked to delete exactly those that are not stored afterwards: none if there was room, and otherwise one |
| Bundles.RateAgainstDelays | Software/HBSD/HBSD_DTN2/src/Bundles.cpp:523-543 | The policy for the delivery rate compares the rate of a newcomer with delays: it takes one that the other policy refuses |
| Bundles.LocalIff | Software/HBSD/HBSD_DTN2/src/HBSD_Routing.cpp:504-527 | A bundle is local exactly if its URI is the local id, a slash and any rest |
| Bundles.RatePolicyIff | Software/HBSD/HBSD_DTN2/src/Bundles.cpp:527-531 | The policy for the delivery rate evicts a bundle of least rate exactly if the first foreign bundle of least delay is one |
| Bundles.RatePolicyEvictsTheBetter | Software/HBSD/HBSD_DTN2/src/Bundles.cpp:527-531 | A store of two bundles in which it evicts the one that is worth more for the rate |
| Bundles.BundleStore.SmallestUtility | Software/HBSD/HBSD_DTN2/src/Bundles.cpp:726-765 | The scan in key order finds the smallest utility among the bundles that are not local, and the first bundle that has it |
| Bundles.SmallestIsUnique | Software/HBSD/HBSD_DTN2/src/Bundles.cpp:741-765 | The victim is determined by the store and the utilities |
| Bundles.BundleStore.Expire | Software/HBSD/HBSD_DTN2/src/Bundles.cpp:303-347 | An expired bundle leaves both maps |
| Bundles.BundleStore.Remove | Software/HBSD/HBSD_DTN2/src/Bundles.cpp:350-371 | A removed bundle leaves both maps |
| Bundles.BundleStore.DeleteBundle | Software/HBSD/HBSD_DTN2/src/Bundles.cpp:374-381 | And DTN2 is asked to delete it |
| Bundles.BundleStore.NewBundle | Software/HBSD/HBSD_DTN2/src/Bundles.cpp:92-143 | A bundle is added exactly if its key and local id are new, it is not for a local application, and there is room or the full store takes it |
| Bundles.LocalEvictedIff | Software/HBSD/HBSD_DTN2/src/Bundles.cpp:741-765 | For utilities below the largest double a local bundle is evicted exactly if all stored bundles and the newcomer are local |
| Bundles.AddKeepsOneToOneIff | Software/HBSD/HBSD_DTN2/src/Bundles.cpp:250-252 | Adding keeps the maps one to one exactly if the key is new |
| Epidemic.CompareAndSend | Software/HBSD/HBSD_DTN2/src/Bundles.cpp:864-1041 | The loops find the bundles the peer lacks, each once and in the order of the store, and the answer is due exactly if the peer has one that is unknown here |
| Epidemic.SessionUnites | Software/HBSD/HBSD_DTN2/src/Bundles.cpp:864-1041 | However vectors and bundles overtake each other, a completed session leaves each node with what it had and what the other one had, but for bundles for its own applications; each bundle goes only to the node that lacked it, and the second vector goes out exactly if the first had an unknown key |
| Epidemic.NoBundleToAHolder | Software/HBSD/HBSD_DTN2/src/Bundles.cpp:887-922 | No bundle is ever on its way to a node that holds it |
| Epidemic.RoomIsKept | Software/HBSD/HBSD_DTN2/src/Bundles.cpp:236-254 | No node ever holds more bundles than it has room for |
| Epidemic.SessionGoesOn | Software/HBSD/HBSD_DTN2/src/Bundles.cpp:92-143 | With room for everything a session that is not completed can go on |
| Epidemic.StepLeavesLess | Software/HBSD/HBSD_DTN2/src/Bundles.cpp:864-1041 | Each step leaves less to do, so every session completes |
| Epidemic.ExactlyOneInitiates | Software/HBSD/HBSD_DTN2/src/HBSD_Routing.cpp:394-413 | Of two nodes exactly one starts the session if and only if their ids differ: the one whose id ends first or has the smaller character where they first differ |
| Scheduling.ScheduleAndSend | Software/HBSD/HBSD_DTN2/src/HBSD_Routing.cpp:656-709 | Bundles go out in strictly falling utility; each utility of the list occurs once, with the first bundle listed for it |
| Scheduling.SendSorted | Software/HBSD/HBSD_DTN2/src/HBSD_Routing.cpp:692-705 | The map is run through from its end |
| Scheduling.FillMap | Software/HBSD/HBSD_DTN2/src/HBSD_Routing.cpp:660-688 | Inserting keeps the first bundle of each utility |
| Scheduling.AllSentIff | Software/HBSD/HBSD_DTN2/src/HBSD_Routing.cpp:686-687 | Every listed bundle is sent exactly if no two have the same utility |
| Scheduling.EarlierWins | Software/HBSD/HBSD_DTN2/src/HBSD_Routing.cpp:660-688 | The bundle that goes out for a utility goes out as well, and alone, whatever is listed after it |
| Gbof.KeyIsInjective | Software/HBSD/HBSD_DTN2/src/GBOF.h:178-206 | Equal keys mean equal time stamp, URI, offset, length and fragment flag, for every URI, brackets included |
| Gbof.KeyDeterminesFields | Software/HBSD/HBSD_DTN2/src/GBOF.h:178-191 | The same for text fields that keep clear of the separators |
| Gbof.KeyOpensAndCloses | Software/HBSD/HBSD_DTN2/src/GBOF.h:178-191 | The key opens with the time stamp and a bracket and closes with the length and the digit of the fragment flag |
| Gbof.SeparatorInTimestamp | Software/HBSD/HBSD_DTN2/src/GBOF.h:191 | Two different values with one key when the time stamp holds a bracket |
| Theory.Calculator.Round | Software/DTN2 External Router/DTN2/emulab/theory.py:202-218 | One round of the main loop: the earliest event, the exact amounts after it, the link it changes, the event it queues and the time it prints; every source whose way is open is empty afterwards or its link has carried all that the rate allows in the time; the invariant holds |
| Theory.Calculator.MoveTwice | Software/DTN2 External Router/DTN2/emulab/theory.py:208-216 | Although move_data may be called twice, no link carries more than the rate times the interval, and the link of an open source that still has data just that; the second call completes the transfer exactly if it takes just the interval and every node with data has its way to the end open, and then the printed time is too late by the interval |
| Theory.Calculator.PrintedTooLate | Software/DTN2 External Router/DTN2/emulab/theory.py:184-187 | Such a round: 60 bytes over one link of 8 bit/s, and 120 is printed |
| Movement.CompletesIff | Software/DTN2 External Router/DTN2/emulab/theory.py:164-187 | A call of move_data that may move all that is left completes exactly if every node that holds data has all links up to the last node |
| Movement.CompletesAtTheLimit | Software/DTN2 External Router/DTN2/emulab/theory.py:164-187 | One that may move at most what is left completes only if it may move just that |
| Movement.SecondPassIsIdle | Software/DTN2 External Router/DTN2/emulab/theory.py:208-216 | After a first call that did not complete, the second one does not either |
| Movement.RateIsUsed | Software/DTN2 External Router/DTN2/emulab/theory.py:164-182 | In both hop modes a source whose way is open is empty after a call of move_data, or what crossed its link is the rate times the interval, and never more |
| Theory.Calculator.MoveData | Software/DTN2 External Router/DTN2/emulab/theory.py:164-187 | The sources move one after the other; each link that is up carries at most the rate times the interval, and the link of an open source that still has data just that |
| Theory.Calculator.MoveFrom | Software/DTN2 External Router/DTN2/emulab/theory.py:172-182 | One source: the exact new amounts, with data conserved; it is empty or has moved all that the rate allows |
| Theory.Calculator.CanMove | Software/DTN2 External Router/DTN2/emulab/theory.py:149-161 | The links on the way are all up |
| Theory.Calculator.Blocked | Software/DTN2 External Router/DTN2/emulab/theory.py:189-193 | No source can move |
| Theory.Calculator.CompletionTime | Software/DTN2 External Router/DTN2/emulab/theory.py:195-200 | The time to move all remaining data at the rate |
| Theory.Calculator.InitialEvents | Software/DTN2 External Router/DTN2/emulab/theory.py:111-142 | The first link states and events of each connectivity mode |
| Theory.LinksOpenInTurn | Software/DTN2 External Router/DTN2/emulab/theory.py:111-142 | When the links are first up: the first one at once, and from link to link a minute or ten seconds later, at the same time, or every second one after two minutes; links that are up at first go down after the uptime |
| Theory.Calculator.RunEvent | Software/DTN2 External Router/DTN2/emulab/theory.py:79-91 | The link changes and the opposite event is queued after the up or down time |
| Theory.Calculator.Run | Software/DTN2 External Router/DTN2/emulab/theory.py:202-218 | Any number of rounds keeps the invariant |
| Theory.Calculator.RunsAreSound | Software/DTN2 External Router/DTN2/emulab/theory.py:149-218 | In every state of every run each link has carried at most the rate times its up time, all data is there, no amount is negative, and end to end the intermediate nodes are empty |
| SimLink.Link.StartNextBundle | Software/DTN2 External Router/DTN2/sim/SimConvergenceLayer.cc:152-228 | The front of the queue is put under way: it leaves after the bandwidth delay, arrives a latency later and is reported, and all timers are armed for their fronts |
| SimLink.Link.RescheduleTimers | Software/DTN2 External Router/DTN2/sim/SimConvergenceLayer.cc:232-252 | Timers that are not wrong become armed for the front of their queue |
| SimLink.Link.HandlePendingInflight | Software/DTN2 External Router/DTN2/sim/SimConvergenceLayer.cc:276-299 | The bundle leaves the queue, and the next one is started if there is one |
| SimLink.Link.HandleArrivalEvents | Software/DTN2 External Router/DTN2/sim/SimConvergenceLayer.cc:303-333 | All fronts whose time has come go to the peer, at least one, in order, and nothing else changes |
| SimLink.Link.HandleTransmittedEvents | Software/DTN2 External Router/DTN2/sim/SimConvergenceLayer.cc:337-365 | The same for the reports to the own daemon |
| SimLink.Link.BundleQueued | Software/DTN2 External Router/DTN2/sim/SimConvergenceLayer.cc:467-482 | An idle sender starts the queued bundle at once |
| SimLink.Link.OpenContact | Software/DTN2 External Router/DTN2/sim/SimConvergenceLayer.cc:431-463 | Opening starts the front of the queue |
| SimLink.Link.PeerGetsQueueOrder | Software/DTN2 External Router/DTN2/sim/SimConvergenceLayer.cc:152-365 | In every reachable state the peer has the first bundles ever queued, in order, each once and not before its arrival time, and started = delivered + on the way; bundles are reported in this order when they leave, or on a reliable link as long after their arrival as the way to the peer took |

## Left out

- Sockets, threads, semaphores, temporary files, logging, XML and Tcl: input and output. Time is passed in and locks are atomic steps.
- BundleDaemon, RegistrationTable, Link and TokenBucket are not part of this model; what is used of them is stated as a step or a parameter: only inactive registrations are removed, link queues are first-in first-out, delays are not negative, a timer is not pending in its own callback.
- The utility formulas with exp and pow, and the dd and dr maps with the report times they set when a message is frozen: utilities are any real functions, so floating-point rounding is not modelled. Printed times are exact millionths, and exponents or leading blanks in numbers read back are not modelled.
- The reads of `localidGBOFMap[x]` are lookups that do not insert; in particular the entry that expire() would recreate is not. A null entry of a message is not printed.
- The bins of one row never go down in the runs of `Gossip`; `GossipRuns.ClockedRunsIff` says when clocked updates are such runs, and `StatRow.SetBinOkIff` what an update with a smaller bin does. Messages are not frozen in `Gossip`.
- The reading of the version lists that a peer sends (convertVersionsBasedStatToMap); `StatDelta` starts from the list itself.
- Gossip.SameReportsSameRow: assumes that one version names one row content; `Gossip.CoherentExactly` says which step breaks this and `GossipRuns.SameReportsDifferentRows` what then happens.
- The asserts that a refused newcomer would meet in remove(): a refused newcomer leaves both maps alone and DTN2 is asked to delete it.
- Bundles.BundleStore.HbsdAdd: what the newcomer is worth is any pair of numbers, since the source looks its statistics up under an empty id.
- The scan of the store returns the selected bundle; the by-value pointer of the source is not modelled.
- Fragments: keyFromXML and keyFromBundle read the fragment flag differently; bundles are unfragmented.
- The client's handshake and dtn_close, a server that stops, and read errors: a session ends only when a blocked handler finds unexpected data.
- XdrStream.XdrMem.EncodeSend: after a failed encoding nothing is promised about the position of the stream, which the source does not reset.
- Ipc.RequestReader.ReadRequest: the announced length of a message is at most the buffer, as it is for every message a client sends; the source does not check it.
- DtnApi.Receive: the copying of a payload file into memory is not modelled.
- IpcProtocol.NothingFollowsABody, IpcProtocol.BlockedHandlersSeeNoData, IpcProtocol.CallsGetTheirReply: about runs without an early return of dtn_cancel_poll, which `IpcProtocol.CancelStaysInStepIff` characterises.
- The extension-block copy of handle_recv, the handlers' own work on bundles, and the sessions_ list.
- Epidemic.SessionUnites: for unscheduled sending and no loss on the link; a node without room takes no bundle, where its store might evict one.
- SimLink: closing a link; `pending_inflight_` is taken to be NULL at first, which the constructor does not do.
- Theory: bandwidth, up time and down time of zero or below (only the bandwidth must be positive), and the event order among equal times, which is left open.
- Simulator::run_node_events, dnd.py, MeDeHaInterface, ConfigFile, the dtn tools and generated wrappers: glue or no clear contract.
