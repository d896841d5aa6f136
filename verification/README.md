# InPhase: the video path and the input path

InPhase sends a computer's screen to a browser and the browser's input back. Video
travels as lossy datagrams protected by XOR parity and re-sends, and as frames on a
reliable stream; the browser rebuilds, reorders and paces the frames before its decoder
sees them. This project models that path and proves what it keeps, whatever the network
does.

How the model is laid out:

- **Erasure code.** `Parity`, `Fragmenter`, `SendOrder`, `SendBurst` and `Wire` are the host:
  slicing a frame, its XOR rows, the order its datagrams are sent in, and the bytes of
  fragments and frames. `Assembly` is the browser's state for one frame and its repair pass, written
  as functions; `AssemblyObject.V4Assembly` is the object that does the same in place,
  each method proved equal to the function. `RepairSound` shows the two halves cancel,
  `Confluence` says on sets of datagrams what the code can reach, and `FrameRun` proves
  that a run of arrivals reaches exactly that.
- **Reassembly table.** `FrameTable` is the table of frames in flight with its tombstones,
  delivery memory, evictions and re-send requests, on both carriers;
  `TableObject.VideoReceiver` is the object, holding `V4Assembly` objects.
  `TableSafety`, `TableSound`, `TableFrames`, `TableQuiet`, `Evictions`, `Deliveries`,
  `Requests`, `Rounds` and `RepairTiming` are about every run of it.
- **Frame orderer.** `Orderer` (transitions), `OrdererObject.FrameOrderer` (the object),
  `OrderReach` (how far ahead it holds, and for how long), and `OrderSafety`,
  `OrderRequests`, `OrderMonotone`, `Reordering` about its runs.
- **Streams and bitstreams.** `StreamReader` (chunks to frames), `AnnexB` (start codes),
  `Hevc` (emulation prevention and the decoder configuration record).
- **Pacing.** `Pacing` (playout clock), `PacedPath` (queue and decoder path),
  `RefreshCoalescing` (draws per display refresh).
- **End to end.** `Pipeline` puts table, orderer and paced queue together, with resets and
  rebuilds, and says what may reach the decoder; `BurstDelivery` says what must.
- **Input.** `InputCodec`, `InputBuffers` and `InputGolden` (packets, both ends, and the
  repository's golden packets), `InputGate` (rate and freshness).

`Bytes`, `Arith` and `InsertionOrder` hold what the rest shares: little- and big-endian
fields, wrapping counters, and the browser's insertion-ordered maps.

A method on an object carries an `ensures` that equates its new state and its result with
the transition function; the theorems are lemmas about that function, over every reachable
state or every run. Time, the measured round trip and the bytes that arrive are arguments.

## Where the code falls short of its own description

Each of these is a theorem here; the model follows the code.

- The decoder configuration record departs from section 8.3.3.1 of ISO/IEC 14496-15 in three
  places: two header bytes per parameter-set array instead of one, so a reader of the standard
  finds the sets of no stream (`Hevc.SetsAreLost`, with a concrete stream in
  `Hevc.SampleMisread`); depth bytes that read as 12 bits where the comment says 8; and a layer
  field that reads as 3 where the comment says 1 (`Hevc.StandardReading`, `Hevc.WrittenReads`).
- A burst of at most as many datagrams as a frame has groups is said to be repaired on the
  spot. The parity rows are sent right behind the fragments, and such a burst can take a
  fragment together with row 1 of its group: the claim holds exactly for frames of one group
  and frames whose groups are all full, and with one datagram fewer for every frame
  (`SendBurst.ConsecutiveRepairedExactly`, with a delta of fifteen fragments that is lost in
  `SendBurst.FifteenFragments`).
- Among the fragments alone such a burst can still cost one group two, unless there is one
  group or the last one has seven or eight members (`SendOrder.SpreadExactly`). Row 2 repairs
  even that, so if every row arrives only deltas of 9 to 14 fragments are lost
  (`SendOrder.BurstsRepairedExactly`, with such a frame in `SendOrder.NineFragments`).
- Closed frame numbers are not bounded by 512, because the evicting site does not trim: the
  bound is passed exactly by an eviction with 512 closed (`Evictions.PassesTheBoundExactly`,
  `Evictions.EvictionsOutgrowTheBound`). A stream copy of the oldest number past the bound
  then reopens it (`TableSafety.StreamEndsAssembly`, `Evictions.StreamCopyReopens`).
- Eviction takes the numerically lowest delta other than the newcomer. That is not the oldest
  once the counter wraps among the deltas in flight, or when the newcomer comes late, as a
  re-sent frame does (`Evictions.EvictsOldestExactly`; runs in `Evictions.WrapEvictsNewest`
  and `Evictions.LateEvictsNewer`).
- A group that lost an even and an odd member is repaired unless one of them is the frame's
  last fragment (`Confluence.RepairGroupPresence`).
- The four re-send rounds do not always get to every damaged group: they do exactly up to
  eight damaged groups and one more for each of the groups 1, 2 and 3 among them
  (`Rounds.FourRoundsReach`).
- All four repair rounds and their re-sends fit the orderer's budget, counted from the
  datagram that opened the assembly, only for round trips strictly between 20/9 and 185/13 ms
  while the measured round trip stays the same, and between 20/9 and 110 ms if it may change.
  The orderer counts held video from the oldest frame it holds behind the hole, so the time
  by which that frame came in later is gained; `RepairTiming.FourRoundsFit` and
  `RepairTiming.FourRoundsFitChanging` give the exact condition for every such lead.
- The output rewinds exactly at a keyframe numbered at or behind the last frame handed over
  but captured after it, and a frame can be decoded twice that way
  (`OrderMonotone.RewindsExactly`, `OrderMonotone.DisagreementRewinds`).
- The browser sends each input packet on two carriers and counts on the host's freshness check
  to drop the second copy. It does exactly if a packet sent later was accepted in between;
  otherwise the copy fares as the first did, so a lone packet is applied twice
  (`InputGate.SecondCopy`).

## Model

| member | source | states |
|---|---|---|
| Fragmenter.CutFragments | crates/host/src/media/wt/transport.rs:693-738 | the sender's slices are the frame cut into full budgets and one rest, never none |
| Parity.SplitIsSliced | crates/host/src/media/wt/transport.rs:726-738 | the recursive cut and the indexed slices `i * budget .. (i + 1) * budget` are the same fragments, just enough of them |
| Parity.SplitShape | web/src/wtcore.ts:816-818 | every fragment but the last is exactly the budget, the last non-empty when there are several |
| Parity.SplitJoins | web/src/wtcore.ts:724-733 | the fragments end to end are the frame |
| Parity.FragmentParity | crates/protocol/src/wtvideo.rs:728-753 | one row or two per group, each the XOR columns of its members with the frame's length behind it |
| Parity.GroupRows | crates/protocol/src/wtvideo.rs:730-743 | row 1 sums all of a group, row 2 its odd offsets, zero-padded to the longest |
| Parity.Solve | web/src/wtcore.ts:849-853 | XORing all other members out of a sum leaves the missing member |
| SendOrder.FragmentSendOrder | crates/host/src/media/wt/transport.rs:1344-1363 | every fragment is sent exactly once, at a position given by its offset and group |
| SendOrder.GroupApart | crates/host/src/media/wt/transport.rs:1338-1343 | two fragments of a group are sent a whole row of datagrams apart |
| SendOrder.SpreadExactly | crates/host/src/media/wt/transport.rs:1338-1343 | bursts shorter than the group count never hit a group twice; as long as the group count, exactly for one group or a last group of 7 or 8 |
| SendOrder.BurstIsRepaired | crates/host/src/media/wt/transport.rs:1338-1343 | for bursts among the fragments, all rows arriving: any up to the group count lost, everything else in any order, a keyframe and any delta not of 9 to 14 fragments is delivered without a re-send |
| SendOrder.DoubleHit | crates/host/src/media/wt/transport.rs:1344-1363 | where such a burst hits a group twice it hits an even and an odd neighbour, neither the frame's last |
| SendOrder.BurstIsFatal | crates/host/src/media/wt/transport.rs:1338-1343 | every delta of 9 to 14 fragments has such a burst that leaves it undelivered though all rows arrive |
| SendOrder.BurstsRepairedExactly | crates/host/src/media/wt/transport.rs:1338-1343 | among the fragments alone, all rows arriving, all bursts up to the group count are repaired if and only if the frame is a keyframe, has one group, or has 15 fragments or more |
| SendBurst.ConsecutiveRepairedExactly | crates/host/src/media/wt/transport.rs:1338-1343 | over fragments and the rows behind them, all bursts of consecutive datagrams up to the group count are repaired if and only if the frame has one group or only full ones; all shorter bursts always are |
| SendBurst.ConsecutiveIsFatal | crates/host/src/media/wt/transport.rs:737-838 | every other frame, keyframes included, has a burst of just the group count that takes fragment 7 and row 1 of the first group and leaves it undelivered |
| SendBurst.PairsAreRepaired | crates/protocol/src/wtvideo.rs:721-753 | a keyframe of any size, or a delta of 16 fragments or more, that lost one even and one odd member of every group, neither the frame's last, is delivered from the rows sent with it |
| SendBurst.SmallDeltasGetOneRow | crates/protocol/src/wtvideo.rs:716-725 | a delta of fewer than 16 fragments is sent with exactly one row per group |
| Wire.FrameRoundTrip | crates/protocol/src/wtvideo.rs:86-118 | both parsers give the encoded frame back, the host's also off a longer buffer; every proper prefix is refused |
| Wire.ParsersAgree | web/src/wtvideo.ts:40-56 | on every byte string the browser's parser accepts what the host's does with nothing left over, and reads the same frame |
| Wire.FragmentRoundTrip | crates/protocol/src/wtvideo.rs:590-640 | fragments survive encoding, by either end's reading |
| Wire.FrameLayout | crates/protocol/src/wtvideo.rs:86-118 | where each field of a frame lies in its bytes, and the version it begins with |
| Wire.FragmentLayout | crates/protocol/src/wtvideo.rs:590-640 | where each field of a fragment lies, and which flag bits say keyframe, row 1 and row 2 |
| Wire.FragmentParsersAgree | web/src/wtcore.ts:567-576 | on every datagram the two ends agree on data, row 1 and row 2 |
| Wire.SendParity | crates/host/src/media/wt/transport.rs:824-838 | the rows go out group by group, row 1 first, each under its group's number, row 2 exactly where the frame gets one |
| Assembly.RepairToWellFormed | web/src/wtcore.ts:821-874 | repair keeps the count of parts honest and never overwrites a part |
| Assembly.AbsorbWellFormed | web/src/wtcore.ts:693-713 | so does every datagram stored |
| AssemblyObject.V4Assembly.constructor | web/src/wtcore.ts:639-653 | a new assembly takes count, capture time and key flag from its first datagram |
| AssemblyObject.V4Assembly.DeriveFinalLength | web/src/wtcore.ts:805-812 | the last fragment's length, from the total and any full-sized part, or none |
| AssemblyObject.V4Assembly.XorHeld | web/src/wtcore.ts:823-830 | XORs the selected parts into the accumulator, column by column |
| AssemblyObject.V4Assembly.FillSingle | web/src/wtcore.ts:843-853 | a single hole is filled from row 1, the last fragment only with its length |
| AssemblyObject.V4Assembly.FillPair | web/src/wtcore.ts:854-872 | an even and an odd hole are filled from both rows, unless one is the last fragment |
| AssemblyObject.V4Assembly.TryRepair | web/src/wtcore.ts:821-874 | the in-place pass over the groups is the functional one |
| AssemblyObject.V4Assembly.Take | web/src/wtcore.ts:693-713 | stores a fragment or a row and repairs, or drops it and changes nothing |
| RepairSound.FinalLengthExact | web/src/wtcore.ts:805-812 | the derived length is the host's, known exactly when a total and a full-sized part (or a single-fragment frame) are |
| RepairSound.RebuildEvenExact | web/src/wtcore.ts:863-870 | row 1 XOR row 2 without the held evens is the host's missing even fragment |
| RepairSound.RepairGroupHonest | web/src/wtcore.ts:831-873 | what one group's repair stores is what the host sent |
| RepairSound.RepairToHonest | web/src/wtcore.ts:821-874 | and the whole pass |
| Confluence.RepairGroupPresence | web/src/wtcore.ts:831-873 | a pass completes a group exactly if it misses one member with row 1 (its length known if last), or an even and an odd one, neither last, with both rows |
| Confluence.ReachableGrows | web/src/wtcore.ts:831-873 | more datagrams never make less reachable |
| Confluence.ReachableBack | web/src/wtcore.ts:831-873 | what a pass adds makes nothing further reachable: one pass is enough |
| Confluence.RepairToPresence | web/src/wtcore.ts:821-874 | the greedy left-to-right pass holds exactly the code's closure of what was held |
| FrameRun.AbsorbTracks | web/src/wtcore.ts:693-713 | after each datagram the parts are exactly the closure of the set that has arrived |
| FrameRun.RunAccounts | web/src/wtcore.ts:693-755 | over every run: delivered exactly if the arrived set is within reach, byte for byte the host's frame |
| FrameRun.ArrivalOrderIsInvisible | web/src/wtcore.ts:693-755 | runs with the same set of datagrams hold the same parts and deliver alike |
| FrameRun.SparseLossDelivers | web/src/wtcore.ts:557-566 | one loss per damaged group with its row 1 is always delivered, whatever is lost and in any order |
| FrameTable.NackTiming | web/src/wtcore.ts:80-84 | first request after 40 to 150 ms, repeats after 50 to 180 |
| FrameTable.Lowest | web/src/wtcore.ts:670-678 | the eviction candidate is the numerically lowest eligible number, none exactly if none is eligible |
| TableSafety.RunSafe | web/src/wtcore.ts:567-713 | over every run of both carriers: 24 in flight at most, parts counted honestly, four rounds at most, in flight and closed apart, at most 512 closed beyond evictions, bounded memories |
| TableSafety.KeyframesGiveWayLast | web/src/wtcore.ts:664-690 | a partial keyframe is evicted only if everything in flight is a keyframe, and then a keyframe is asked for |
| TableSafety.ClosedBehind | web/src/wtcore.ts:684-690 | whatever makes room leaves its number closed |
| TableSafety.ScanExpires | web/src/wtcore.ts:585-594 | the scan drops exactly the assemblies past 900 ms and changes nothing of the others but their request counts |
| TableSafety.NothingStale | web/src/wtcore.ts:577-594 | after a datagram for a number not closed, nothing in flight is older than 900 ms |
| TableSafety.StreamEndsAssembly | web/src/wtcore.ts:929-938 | a frame delivered off the stream is no longer assembled, and its next datagram is turned away exactly unless its number was the oldest of more than 512 closed |
| TableQuiet.ClosedStays | web/src/wtcore.ts:577-594 | a number just closed turns every datagram for it away through any stretch about fewer than 488 numbers without crowding |
| Evictions.EvictsOldestExactly | web/src/wtcore.ts:670-673 | the evicted delta is the oldest in flight exactly if the counter wraps nowhere among the others and the newcomer is a keyframe or newer than one of them |
| Evictions.WrapEvictsNewest | web/src/wtcore.ts:670-673 | a run across a wrap in which the newest delta goes and the oldest stays |
| Evictions.LateEvictsNewer | web/src/wtcore.ts:670-673 | a run in which an older delta, arriving late, pushes out a newer one |
| Evictions.PassesTheBoundExactly | web/src/wtcore.ts:684-690 | a datagram takes the closed numbers past 512 if and only if it opens a 25th assembly when 512 are closed |
| Evictions.EvictionsOutgrowTheBound | web/src/wtcore.ts:684-690 | a run that closes any number of numbers by eviction alone |
| Evictions.StreamCopyReopens | web/src/wtcore.ts:929-938 | a run after which the stream copy of a closed frame is delivered and its number is open again |
| TableSound.OnlyGenuineFrames | web/src/wtcore.ts:567-755 | over every run with many frames at once, every frame delivered on either carrier is the host's, byte for byte |
| TableSound.StoreSettles | web/src/wtcore.ts:693-755 | inside the table one frame fares as in the single-frame account, delivered exactly unless already remembered, and the others are untouched |
| TableFrames.TableFollowsFrame | web/src/wtcore.ts:567-755 | over every run that neither expires, evicts, streams nor forgets a number, the table holds and delivers of it exactly what its own datagrams alone come to |
| TableQuiet.QuietFollows | web/src/wtcore.ts:567-755 | the same from conditions on what arrives: at most 24 numbers in any 900 ms, no datagram of any frame more than 900 ms after one of its own while it is incomplete, no stream copy, fewer than 488 numbers in the stretch |
| Deliveries.DeliveriesAreSpaced | web/src/wtcore.ts:760-767 | over every run on both carriers, a number is delivered again only after 512 other deliveries |
| Deliveries.RememberedIsLogged | web/src/wtcore.ts:760-767 | over every run, every number remembered as delivered was delivered with the capture time remembered, and every frame the stream has brought was delivered under its number and capture time |
| Deliveries.WholeRequestsAreSpaced | web/src/wtcore.ts:783-800 | a frame is asked for whole again only after 256 other whole-frame requests |
| Rounds.RoundIsUseful | web/src/wtcore.ts:611-633 | a round asks for at most eight fragments, all missing, no two in a group, and with room to spare one in every damaged group |
| Rounds.AsksForExactly | web/src/wtcore.ts:624-629 | what a round asks for in a group is the hole whose place is the round and the group number added, counted round |
| Rounds.RoundsRotate | web/src/wtcore.ts:624-629 | two rounds in a row that ask in a group with two holes, left as it is, ask for different fragments |
| Rounds.RoundAsksExactly | web/src/wtcore.ts:611-624 | a round asks in a damaged group exactly if fewer than eight damaged ones come before it, counted from the round's own start |
| Rounds.FourRoundsReach | web/src/wtcore.ts:611-633 | four rounds reach every damaged group if and only if there are at most eight, and one more for each of groups 1 to 3 among them |
| Rounds.ScanAsksExactly | web/src/wtcore.ts:586-634 | the scan asks for fragments of an assembly if and only if it has not expired, has rounds left, and its age and the time since its last round are past three round trips and 25 and 30 ms, clamped |
| Requests.LifeIsBounded | web/src/wtcore.ts:586-634 | over an assembly's whole life at most four rounds and 32 fragment requests |
| Requests.WholeFrameRequests | web/src/wtcore.ts:783-800 | whole-frame requests name only numbers strictly between newest and arrival, each once, none in the table or among the last 256 requested when it is asked; every number between that was untraced is asked for |
| Requests.GapsExactly | web/src/wtcore.ts:783-800 | from every state: an arrival 2 to 16 ahead has exactly the untraced numbers between asked for, any other arrival nothing, and the newest seen becomes the arrival unless that is behind it |
| RepairTiming.RoundsAreOnTime | web/src/wtcore.ts:595-602 | over every run, whatever round trips are measured, no round goes out before the fastest timing they allow |
| RepairTiming.FourthRoundTakesLong | web/src/wtcore.ts:595-602 | on every run a fourth round comes more than 190 ms after the first datagram |
| RepairTiming.FourthLands | web/src/frameorder.ts:50-63 | where the rounds leave room, a run that makes all four in time, and has the frame delivered by the last re-send if it has not expired |
| RepairTiming.FourRoundsFit | web/src/frameorder.ts:50-63 | with one measured round trip, some run has its fourth re-send back within the budget, counted from the oldest held frame, if and only if the rounds leave room; with no lead, strictly between 20/9 and 185/13 ms |
| RepairTiming.FourRoundsFitChanging | web/src/frameorder.ts:50-63 | if the measured round trip may change, if and only if the fastest rounds leave room; with no lead, for a re-send of strictly between 20/9 and 110 ms |
| TableObject.VideoReceiver.NackSkippedFrames | web/src/wtcore.ts:783-800 | the loop over skipped numbers is the transition |
| TableObject.VideoReceiver.AskRound | web/src/wtcore.ts:611-633 | the round's loop asks for exactly the functional round |
| TableObject.VideoReceiver.ScanAssemblies | web/src/wtcore.ts:586-634 | the expiry and request scan, object by object, is the transition |
| TableObject.VideoReceiver.EvictOne | web/src/wtcore.ts:670-690 | making room is the transition, requests included |
| TableObject.VideoReceiver.MaybeDeliver | web/src/wtcore.ts:717-755 | a complete frame leaves the table, is closed, and is delivered joined if first |
| TableObject.VideoReceiver.IsFirstDelivery | web/src/wtcore.ts:760-767 | true exactly for a number not remembered with that capture time |
| TableObject.VideoReceiver.OnVideoFragment | web/src/wtcore.ts:567-713 | one datagram: new state and every output are the transition's, and the invariant holds |
| TableObject.VideoReceiver.OnStream | web/src/wtcore.ts:925-937 | one stream frame: delivered once, its datagram copy dropped and closed |
| Orderer.RepairBudgetMs | web/src/frameorder.ts:60-63 | 300 ms while unknown, else ten round trips and 170 ms, within 180 and 300 |
| Orderer.Oldest | web/src/frameorder.ts:159-164 | the earliest capture held, none exactly if nothing is |
| OrderReach.HeldExactly | web/src/frameorder.ts:125-315 | a new delta ahead of the cursor is held if and only if it is within the reorder floor or the frames skipped last less than 300 ms at the observed cadence, and what is then held is not too long |
| OrderReach.TooLongExactly | web/src/frameorder.ts:134-188 | held video is too long if and only if more than 64 frames are held or one was captured the budget or more before |
| OrderReach.FarAheadGivesUp | web/src/frameorder.ts:303-313 | an arrival out of reach is counted, and gives the sequence up if and only if more than the reach have come in a row |
| OrderReach.AnchorKeepsExactly | web/src/frameorder.ts:249-287 | a keyframe keeps of what is held exactly what is at most 64 ahead of it or within reach |
| OrderReach.CadenceConverges | web/src/frameorder.ts:259-264 | on frames captured evenly, less than a second apart, a tenth of what is left of the cadence's error goes with each |
| OrderReach.FirstReach | web/src/frameorder.ts:95-128 | a session starts with eight frames of reordering and reaches 18 ahead at the cadence it assumes |
| OrderReach.GapIsTold | web/src/frameorder.ts:134-144 | whenever an arrival gives the sequence up, the page is told |
| OrderSafety.AcceptSafe | web/src/frameorder.ts:259-339 | one arrival keeps the invariant, hands over a consecutive run from the cursor or a keyframe, and leaves an anchored hole within budget |
| OrderSafety.RunSafe | web/src/frameorder.ts:259-339 | over every run with resets: 64 held at most, cursor slot empty, held numbers ahead, no keyframe held; every delta directly behind its predecessor, breaks only at keyframes |
| OrderRequests.HoldKeepsNewest | web/src/frameorder.ts:146-168 | what is given up for room while waiting for a keyframe was captured no later than anything kept |
| OrderRequests.KeptExactly | web/src/frameorder.ts:146-168 | while waiting for a keyframe an arrival is held if and only if its number or one of 64 places is there, or something held was captured strictly before it |
| OrderRequests.RequestsArePaced | web/src/frameorder.ts:203-216 | over every run without an anchoring keyframe, new stream or new clock, no keyframe request falls due within 600 ms of video after the last |
| OrderRequests.RequestFallsDueExactly | web/src/frameorder.ts:146-168 | an arrival makes a keyframe request due if and only if it is a delta, no replay, held without an anchor, and the schedule has run out or is empty by the clock after it |
| OrderRequests.ScheduleEndsExactly | web/src/frameorder.ts:203-291 | the schedule of the last request is dropped if and only if by an anchoring keyframe, a capture more than 5 s behind the newest, or a new stream |
| OrderRequests.NewStreamStartsOver | web/src/frameorder.ts:223-235 | whatever went before, a new stream's first capture is the newest, and a first delta asks for a keyframe at once |
| OrderRequests.ResetKeepsCadence | web/src/frameorder.ts:229-264 | the step across a reset is not taken for a frame's |
| OrderMonotone.RunNeverRewinds | web/src/frameorder.ts:174-179 | if the host's numbers and captures agree, the whole output strictly advances across losses, repeats and plain resets |
| OrderMonotone.RisingApart | web/src/frameorder.ts:274-333 | so nothing is decoded twice |
| OrderMonotone.RewindsExactly | web/src/frameorder.ts:174-179 | an arrival takes the output back if and only if it is a keyframe numbered at or behind the last frame handed over and captured after it |
| OrderMonotone.DisagreementRewinds | web/src/frameorder.ts:174-179 | without that agreement a spent number is decoded again |
| Reordering.BurstStands | web/src/frameorder.ts:259-339 | from any state with nothing held, at every moment of a shuffled burst of up to 64 next frames within the repair budget, each within reach when it comes, mixed with late ones from before it, the output is the burst's gap-free prefix and the rest is held |
| Reordering.StaleIsDropped | web/src/frameorder.ts:259-339 | such a late frame, whatever has arrived of the burst, is dropped and only moves the clock |
| Reordering.ReorderingIsInvisible | web/src/frameorder.ts:259-339 | such a burst, anchored or headed by a keyframe, in any order with repeats, wrapping numbers included, comes out once each in order, and the orderer is ready for the next |
| Reordering.ShortIsHoldable | web/src/frameorder.ts:117-144 | a burst no longer than the reorder floor and captured within 180 ms is always within reach, in every order and with any round trips measured meanwhile |
| OrdererObject.FrameOrderer.OldestHeld | web/src/frameorder.ts:159-162 | the walk finds the earliest capture held |
| OrdererObject.FrameOrderer.BudgetSpent | web/src/frameorder.ts:134-144 | gives up exactly when the hole is too old or too deep |
| OrdererObject.FrameOrderer.HoldUnanchored | web/src/frameorder.ts:157-168 | makes room by the oldest capture, unless the arrival is older |
| OrdererObject.FrameOrderer.Prune | web/src/frameorder.ts:285-287 | re-anchoring keeps exactly the plausible held frames |
| OrdererObject.FrameOrderer.DrainHeld | web/src/frameorder.ts:321-333 | the hand-over loop is the functional drain |
| OrdererObject.FrameOrderer.Accept | web/src/frameorder.ts:259-339 | one frame: new state and frames ready are the transition's, and the invariant holds |
| OrdererObject.FrameOrderer.Reset | web/src/frameorder.ts:223-235 | forgets the sequence, and the replay guard only for a new stream |
| StreamReader.Reader.ReadExact | web/src/wtcore.ts:988-1050 | exactly the next bytes of the stream, however chunked, or failure exactly if too few are left |
| StreamReader.Reader.ReadFrames | web/src/wtcore.ts:898-968 | the loop reads exactly the frames in the stream's bytes |
| StreamReader.FramesReadBack | web/src/wtcore.ts:912-923 | frames written one after another and cut inside the next read back as just those frames |
| StreamReader.ReadChunked | web/src/wtcore.ts:898-1050 | for every chunking with at most 64 empty chunks in a row |
| StreamReader.StormEnds | web/src/wtcore.ts:1033-1042 | 65 empty chunks in a row end the stream there |
| StreamReader.ChunkingIsInvisible | web/src/wtcore.ts:988-1050 | two chunkings of one byte string, valid frames or not, read alike |
| AnnexB.AnnexbNals | crates/protocol/src/wtvideo.rs:383-405 | the loop finds exactly the units between start codes, zeros trimmed |
| AnnexB.AnnexbToLengthPrefixed | crates/protocol/src/wtvideo.rs:412-435 | on every byte string, the same units each behind its length |
| AnnexB.SplitInvertsJoin | crates/protocol/src/wtvideo.rs:383-405 | joining by any start codes and padding and splitting gives a list back exactly if no unit holds a start code or ends in zero |
| AnnexB.SplitsClean | crates/protocol/src/wtvideo.rs:383-405 | units split out of any bytes are of that kind |
| AnnexB.LengthsReadBack | crates/protocol/src/wtvideo.rs:412-435 | the rewritten form gives the units back |
| Hevc.RbspUnescape | crates/protocol/src/wtvideo.rs:361-379 | the loop drops exactly the emulation prevention bytes |
| Hevc.UnescapeInvertsEscape | crates/protocol/src/wtvideo.rs:357-379 | unescaping undoes section 7.3.1.1 of ITU-T H.265 if and only if the payload does not end in an odd number of zeros, which no encoder produces |
| Hevc.EscapedSurvives | crates/protocol/src/wtvideo.rs:357-405 | an escaped payload crosses any Annex-B stream whole, and comes back under the same condition |
| Hevc.HvccDescription | crates/protocol/src/wtvideo.rs:294-355 | a record exactly when all three sets and a whole profile block are there, from the first of each |
| Hevc.ProfileIsUnescaped | crates/protocol/src/wtvideo.rs:333-334 | the profile block is bytes 1 to 12 of what the encoder put in the SPS; for twelve bytes ending in an odd number of zeros its last byte is the closing 3 |
| Hevc.WrittenReads | crates/protocol/src/wtvideo.rs:333-354 | a reader that expects the two header bytes written finds profile block and sets, but 12 bits and three layers |
| Hevc.StandardReading | crates/protocol/src/wtvideo.rs:336-353 | by the standard's reading a record says what its comments say exactly in the standard's layout, so the host's never does |
| Hevc.SetsAreLost | crates/protocol/src/wtvideo.rs:347-353 | for no stream does the standard's reader find the parameter sets in the record written |
| Hevc.SampleMisread | crates/protocol/src/wtvideo.rs:347-353 | a concrete access unit whose record loses its sets that way |
| Pacing.OffsetCancels | web/src/pacing.ts:47-74 | shifting every capture time changes neither the delay nor any due time, over every run |
| Pacing.DelayRange | web/src/pacing.ts:52-66 | the delay stays within 0 and 40 ms and at or above its target |
| Pacing.FallsSlowly | web/src/pacing.ts:59-65 | and falls by at most 4 ms per second over any stretch |
| Pacing.ComesDown | web/src/pacing.ts:56-65 | on a calm route it does fall, by 4 ms per second, until it meets the target |
| Pacing.CoversNinetyFivePercent | web/src/pacing.ts:50-55 | while uncapped, more than 95 % of the window had arrived by base plus delay |
| Pacing.PercentileIsLeast | web/src/pacing.ts:50-55 | the percentile is the least added delay that covers more than 95 % of the window |
| Pacing.RaisesToTheLeast | web/src/pacing.ts:52-64 | no arrival leaves the delay below that and a millisecond, 40 ms at most, and one that raises it raises it to just that |
| Pacing.WindowIs | web/src/pacing.ts:47-50 | over every run the window is how long the last 240 frames took |
| Pacing.DueWhenArrived | web/src/pacing.ts:47-74 | over every run that leaves the delay below its cap, more than 95 % of the last 240 frames had arrived by the moment they are due |
| Pacing.DueSoonAfter | web/src/pacing.ts:71-74 | a frame of the window is due at most the delay after it arrived, and exactly that long after if and only if none was faster |
| Pacing.SortedIs | web/src/pacing.ts:51 | the sorted lateness is ascending and keeps every count |
| Pacing.PlayoutClock.Observe | web/src/pacing.ts:47-65 | the object's update is the transition |
| Pacing.PlayoutClock.Due | web/src/pacing.ts:71-74 | a frame's due time |
| PacedPath.PacedQueue.Take | web/src/pacing.ts:114-118 | takes exactly the leading frames that are due |
| PacedPath.PacedQueue.Push | web/src/pacing.ts:106-110 | queues a frame and releases the oldest over 16 |
| PacedPath.OrderIsKept | web/src/wtdecoder.ts:699-741 | between drops, submitted frames followed by waiting ones are the admitted ones in order, 16 waiting at most |
| PacedPath.BoundIsKept | web/src/wtdecoder.ts:715-748 | across drops too, and nothing waits while pacing is off |
| PacedPath.LeavesWhenDue | web/src/wtdecoder.ts:715-741 | at every admission and timer exactly the leading frames that are due, or too many for 16 to wait, are submitted |
| PacedPath.NothingHeldBack | web/src/wtdecoder.ts:699-721 | with pacing off or before the first picture a frame is submitted at once, and switching submits all that waits |
| PacedPath.HeldOnlyThen | web/src/wtdecoder.ts:676-721 | over every run frames may wait just when pacing was last switched on and a first picture was shown |
| PacedPath.PacedDecoder.AdmitFrame | web/src/wtdecoder.ts:715-725 | admitting a frame is the transition |
| PacedPath.PacedDecoder.Switch | web/src/wtdecoder.ts:699-706 | switching pacing is the transition |
| Pipeline.NothingLost | web/src/wtdecoder.ts:478-498 | after any run, over any stretch without a rebuild, what is submitted followed by what waits is what waited before followed by everything the orderer handed over |
| Pipeline.DecoderChained | web/src/wtdecoder.ts:478-498 | over every run with gaps, rebuilds and new streams, every delta is submitted directly behind the frame numbered one less |
| Pipeline.DecoderSeesTheHost | web/src/wtdecoder.ts:478-498 | after any run that ends in the configuration of a new stream, all that is submitted until the next are host frames byte for byte, strictly advancing on the stream's timeline |
| BurstDelivery.BurstReachesDecoder | web/src/wtdecoder.ts:478-498 | after any run with nothing held, a burst of next frames, each on the stream or with no group of its datagrams short of more than one, each within reach when it comes, mixed with late frames from before it, reaches the decoder whole and in order |
| BurstDelivery.ShortBurstReachesDecoder | web/src/wtdecoder.ts:478-498 | a burst of at most nine frames captured within 180 ms is always within reach and so gets there, whatever the cadence and the round trip |
| BurstDelivery.RunSettings | web/src/wtdecoder.ts:456-459 | after any run the orderer waits by the round trip measured last |
| BurstDelivery.FirstBurst | web/src/wtdecoder.ts:341-345 | after any run and the configuration for a new stream, every burst headed by a keyframe and captured within the budget is such a one |
| BurstDelivery.NothingBeforeConfiguration | web/src/wtdecoder.ts:478-480 | until the decoder is configured a delivered frame changes nothing behind the table |
| BurstDelivery.ResetStartsOver | web/src/wtdecoder.ts:895-901 | after the watchdog's reset nothing is held, and the next frame paced is due a millisecond after it arrived |
| RefreshCoalescing.NothingLostNothingFast | web/src/decoderpolicy.ts:298-321 | over every stretch each offered frame is drawn, superseded or the one waiting, in order; draws are at most refreshes plus two |
| RefreshCoalescing.SupersedesExactly | web/src/decoderpolicy.ts:298-321 | over every run, a frame is superseded if and only if some stretch offers four more frames than it has refreshes |
| RefreshCoalescing.RefreshCoalescer.OfferFrame | web/src/decoderpolicy.ts:304-312 | offering a frame is the transition |
| InputCodec.RoundTrip | crates/protocol/src/input.rs:184-323 | decoding undoes encoding, exactly up to 65535 held keys; trailing bytes are ignored |
| InputCodec.PrefixIsTruncated | crates/protocol/src/input.rs:249-323 | every proper prefix is refused as truncated with what it had |
| InputCodec.EncodersAgree | web/src/input/protocol.ts:67-133 | the browser's bytes are the host's, exactly up to 65535 held keys |
| InputGolden.MoveBytes | crates/protocol/src/vectors.rs:30-44 | a mouse move with signed fields and flags, byte for byte |
| InputGolden.ButtonsBytes | crates/protocol/src/vectors.rs:45-49 | mouse buttons, byte for byte |
| InputGolden.KeyBytes | crates/protocol/src/vectors.rs:50-63 | a key going down with modifiers, byte for byte |
| InputGolden.ExtremeBytes | crates/protocol/src/vectors.rs:64-81 | a gamepad at its extremes, byte for byte |
| InputGolden.TwoHeldBytes | crates/protocol/src/vectors.rs:88-117 | a snapshot with two held keys and a gamepad, byte for byte |
| InputBuffers.EncodePacket | crates/protocol/src/input.rs:184-246 | the field-by-field writer produces the encoding |
| InputBuffers.DecodePacket | crates/protocol/src/input.rs:249-323 | the advancing reader computes the decoding, errors included |
| InputGate.RateIsBounded | crates/host/src/input/mod.rs:80-92 | in any stretch, packets let through are at most the burst plus the rate times the time from its first packet to its last |
| InputGate.ThrottlesExactly | crates/host/src/input/mod.rs:80-92 | over every run of readable packets from a full bucket, one is throttled if and only if some stretch holds more than the burst and what the rate earns over its own length |
| InputGate.UnreadIsInvisible | crates/host/src/input/mod.rs:134-141 | over every run, packets too long or undecodable leave the gate as if they had never come |
| InputGate.OversizeExactly | crates/host/src/input/mod.rs:134-139 | no packet a sender encodes is too long, except exactly snapshots of more than 501 held keys, or 493 beside a gamepad |
| InputGate.ImplausibleExactly | crates/host/src/input/mod.rs:157-177 | past the freshness check, a packet is refused if and only if some part of a mouse move is beyond the limit, either way |
| InputGate.OneIsNewer | crates/host/src/input/mod.rs:193-198 | two different numbers are never each newer than the other, and one is unless they are half the counter apart, give or take one |
| InputGate.SteadyIsAdmitted | crates/host/src/input/mod.rs:80-92 | over every run with arrivals at least one rate interval apart, from a bucket with a token, no packet is throttled |
| InputGate.SecondCopy | web/src/wtcore.ts:281-287 | over every run, the second copy of an accepted packet, if not throttled, is stale if and only if a packet sent later was accepted in between, and otherwise fares as the first |
| InputGate.NeverBackwards | crates/host/src/input/mod.rs:146-155 | over every run whose numbers span less than half the counter, of two applied packets the later one applied was not sent earlier |
| InputGate.InputSession.HandlePacket | crates/host/src/input/mod.rs:94-179 | one packet's fate, the gate, the packet time, the released flag, and the throttle count with its log time afterwards are the transition |

## Left out

- Floating point: times, cadence and tokens are real numbers, so rounding is not modelled.
- Numbers of 2^53 and more: the browser reads a 64-bit capture time into a double; here it stays exact.
- Watchdog and closing of stalled streams (web/src/wtcore.ts:1010-1031): a stall is not told apart from a stream that ends there.
- Statistics, logging and latency samples: counters other than evictions are not kept.
- Pacing of datagrams, the re-send cache and its budget on the host: the network may lose, repeat and reorder at will instead.
- A frame of more than 65535 fragments: the host's 16-bit count would wrap; such frames are outside `Parity.Sendable`.
- The render path and what `submit` does with a frame, backpressure included: `Pipeline` ends at the call of `submit`.
- When the page asks for a keyframe, finds a reference gap, configures or resets its decoder: in `Pipeline` these come at any time, so its theorems do not depend on the throttle and the watchdog that decide it.
- Applying an input packet to keyboard, mouse and gamepad state: the gate ends where a packet is applied.
- The heartbeat that releases held keys after a silence: the session here only keeps the packet time and the flag it reads.
- AssemblyObject.V4Assembly.constructor: the two row maps start empty where the source starts with none and makes them with the first row.
- InputBuffers.TakeFields: reads a list of widths in a loop where the source writes the reads out one by one.
- TableObject.VideoReceiver.FindLowest: finds the lowest eligible number in one walk where the source sorts the numbers and takes the first eligible one.
