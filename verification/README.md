# A verified model of OsmoBSC's hard parts

OsmoBSC is the GSM base station controller of the Osmocom project. This project models the parts of it
that are hardest to get right and proves, for every input and every run, what they promise. Nothing of
the original program is executed here; the proofs are about the model.

`dafny verify dfyconfig.toml` checks everything. The parts are:

* **Frequency lists in range format** (`Arith`, `RangeTree`, `RangeWords`, `Bits`, `RangePack`, `AnnexJ`,
  `FreqList`, `RangeTurn`, `RangeTwice`, `ArfcnList`, `ShippedList`, `SendList`). The encoder of
  `arfcn_range_encode.c` picks pivots on a circle, scatters words over an array in bit-reversed order and packs
  them on shrinking widths. `AnnexJ` and `FreqList` hold a decoder written from section 10.5.2.13 and Annex J of
  3GPP TS 04.08. A word of 0 stands for no frequency, and the decoder goes on reading the words behind it: in a
  proper element they are 0 too, but after a failed search or with a root cut to 0 the encoder leaves others
  there, and what those results say depends on this reading. There are two main theorems, both equivalences over
  every list: `ArfcnList.EncodeArfcns` is the round trip of the encoder used as its test uses it,
  `SendList.EncFreqLstRange` says which lists the BSC itself announces as they are, which it announces with an
  ARFCN too many, and which it does not announce at all.
* **Subscriber connection and assignment** (`ConnFsm`). The connection FSM, its assignment child and what
  the handover FSM does to the connection, as steps of one record, with masks that refuse events and
  transitions. Answers of code outside the FSMs (channel selection, MGW, RSL, A interface) are the fields
  of `Env`, free in every step.
* **BTS links that depend on each other** (`BtsLinks`) and the **rejected-unit list** (`RejectedUnits`).
* **OML transport**: the acknowledged send queue (`OmlQueue`), windowed software download (`SwLoad`),
  Nokia multi-segment messages (`NokiaSegments`).
* **OM2000 bring-up** (`Om2000`): three nested FSMs.
* **Access class ramping** (`AccRamp`), **codec selection** (`CodecPref`), **neighbour measurements**
  (`NeighMeas`), **channel load and T3122** (`ChanLoad`).

State that the source updates in place is a class with the source's fields; ghost fields record what was
sent, picked or measured, and each class's `Valid`, `Inv` or `Consistent` ties the fields to that record.

## What the proofs found

* `range_encode` ignores the length that the filter returns (src/osmo-bsc/system_information.c:437), so where F0
  is in the list, which is always so in the 128, 256 and 512 formats, the last ARFCN is encoded once more,
  unshifted. Such a list reaches this code when its ARFCNs spread over more than 111
  (src/osmo-bsc/system_information.c:557-559). In the common case the element announces one ARFCN too many: 600
  and 727 are announced as 600, 693 and 727 (`SendList.ExtraArfcn`). If the stale value falls on a position
  of the list, the pivot search may fail and nothing is announced, as for 634 and 754
  (`SendList.NothingSent`); `ShippedList.NotSent` says exactly when. If the root of the tree is the stale
  value, it is cut to the width of its field and the whole list turns with it. `ShippedList.Announced` is the
  exact condition under which the element is right; 126, 200 and 240 are a list of that kind
  (`SendList.SentAsItIs`). The loop that selects the ARFCNs writes behind its array if and only if there are 30
  or more (src/osmo-bsc/system_information.c:474-479): `SendList.SelectArfcns`. The test of the encoder
  (tests/gsm0408/gsm0408_test.c) uses the returned length, and `ArfcnList.EncodeArfcns` is that use.
* `range_enc_determine_range` accepts 17 non-zero ARFCNs for the range 1024 format, which has 16 words;
  `ArfcnList.EncodeArfcns` proves that this and the empty list are the only accepted lists that are lost.
* The last-segment flag of the software download is never cleared. A later load on the same record ends
  after one segment: `SwLoad.LoadEndComplete` says exactly when the load end is true, and
  `SwLoad.LoadAgain` that every longer file is cut short.
* An access class that the ramp has barred and that the VTY then bars for good is never unmarked
  (`AccRamp.Ramp.StaleArises`). It keeps the ramp re-arming for ever and every higher class out. A ramp ends if
  and only if its step has the full size or no mark is stale: `AccRamp.Ramp.EndsAtLast`.
* A successful assignment counts its result after its data was reset, so the flag is still set when the next
  attempt begins, and if that one fails it counts nothing: `ConnFsm.Conn.SecondNotCounted` is such a run, and the
  outcome of every step of an assignment states what it counts. At most one result per attempt is what holds.
* An assignment goes on when it loses a channel it still needs, and the source then follows a null pointer. If
  the established new channel goes away (`gscon_forget_lchan`) while the MGW is still to answer, the answer does it:
  `ConnFsm.Conn.LostBeforeMgwAnswers`. If the primary channel releases or goes away before the new one is active, the
  activation does it, because the command to the MS is sent on the primary one
  (src/osmo-bsc/assignment_fsm.c:513-514): `ConnFsm.Conn.PrimaryLostBeforeActive`. `ConnFsm.Conn.Defined` names the
  events that need a channel and `ConnFsm.Conn.Takes` those that take one away; `ConnFsm.Conn.Step`, `RunHeld` and
  `ChannelTaken` state that an assignment comes to an undefined event if and only if its channel is taken. After a
  Clear Command an RR answer cannot reach the assignment in the source, because the released channel has let go of
  the connection (src/osmo-bsc/lchan_fsm.c:1037-1039) and RR messages come through it
  (src/osmo-bsc/gsm_04_08_rr.c:1000); the model, which has no such channels, allows it.
* A managed object whose Connect, Reset or Operational Info is rejected goes on as if it were accepted, and
  a TRX or BTS FSM that times out does not stop the FSMs below it.

## Model

| member | source | states |
|---|---|---|
| RangeTree.PivotExists | src/osmo-bsc/arfcn_range_encode.c:57-75 | every non-empty list of distinct values on a circle of odd size has an element with exactly (size-1)/2 others in the half circle after it |
| RangeTree.FindIndex | src/osmo-bsc/arfcn_range_encode.c:57-75 | returns the first such element; -1 is impossible for distinct values in range and an odd modulus |
| RangeTree.Mod | src/osmo-bsc/arfcn_range_encode.c:44-50 | C's truncating remainder, corrected, is the Euclidean remainder |
| RangeTree.SplitSizes | src/osmo-bsc/arfcn_range_encode.c:89-112 | for any list on which the search succeeds, repeated values included, the parts have sizes size/2 and at most (size-1)/2, so they fit their arrays, and lie on the halved circle |
| RangeTree.StrictSplit | src/osmo-bsc/arfcn_range_encode.c:89-112 | for distinct values both sizes are exact and each part is again distinct |
| RangeTree.SplitMembers | src/osmo-bsc/arfcn_range_encode.c:105-112 | pivot and shifted-back parts together are exactly the list |
| RangeTree.BuildMembers | src/osmo-bsc/arfcn_range_encode.c:78-125 | the whole tree of pivots stands for exactly the encoded set |
| RangeTree.TreeMembers | src/osmo-bsc/arfcn_range_encode.c:78-125 | for any list, values that repeat included, it stands for part of the set, and for all of it exactly if no search below fails |
| RangeTree.WordBounds | src/osmo-bsc/arfcn_range_encode.c:102-102 | a word at tree level L lies in 1..2^(b-L)-1: it fits its field and is never 0 |
| RangeTree.MemberHasNode | src/osmo-bsc/arfcn_range_encode.c:78-125 | every encoded value is carried by a node |
| RangeWords.PlaceHit | src/osmo-bsc/arfcn_range_encode.c:114-123 | although the recursion jumps by powers of two, node t ends in slot t-1 and no later write disturbs it |
| RangeWords.PlaceMiss | src/osmo-bsc/arfcn_range_encode.c:114-123 | no slot outside a subtree is written while it is encoded |
| RangeWords.PlaceGap | src/osmo-bsc/arfcn_range_encode.c:114-123 | the slot of a node that a failed search leaves out keeps what it held |
| RangeWords.PlaceEncodes | src/osmo-bsc/arfcn_range_encode.c:114-147 | encoding writes exactly the slots of the nodes that exist, each with its node's word, and leaves the rest |
| RangeWords.GreatestPowerOf2 | src/osmo-bsc/arfcn_range_encode.c:32-42 | the loop returns 2^k with 2^k <= index < 2^(k+1) |
| RangeWords.SplitAround | src/osmo-bsc/arfcn_range_encode.c:105-112 | the partition loop fills both arrays with the parts of the list, within bounds |
| RangeWords.SplitAtPivot | src/osmo-bsc/arfcn_range_encode.c:89-112 | search and partition together give pivot, left and right part of any list, within the buffers |
| RangeWords.RangeEncArfcns | src/osmo-bsc/arfcn_range_encode.c:134-147 | for any list: -EINVAL exactly if the search at the top fails, and exactly the tree's words are written |
| RangeWords.RangeEncWorker | src/osmo-bsc/arfcn_range_encode.c:78-125 | the same for the recursive worker at any tree position |
| Bits.ReadBack | src/osmo-bsc/arfcn_range_encode.c:238-264 | a field that holds a number that fits is read back as that number |
| RangePack.WriteSlice | src/osmo-bsc/arfcn_range_encode.c:220-271 | one pass writes exactly its bits of one octet and keeps all others |
| RangePack.WriteWord | src/osmo-bsc/arfcn_range_encode.c:213-271 | a word is written across octets, every bit outside its field unchanged |
| RangePack.WriteAllWn | src/osmo-bsc/arfcn_range_encode.c:202-282 | all words lie in consecutive fields of level widths; bits outside the span are unchanged |
| FreqList.Layout | src/osmo-bsc/arfcn_range_encode.c:284-317 | none of the four formats writes past octet 15 |
| FreqList.WriteOrigArfcn | src/osmo-bsc/arfcn_range_encode.c:195-200 | the ten bits from bit 7 on are F0 and the format bits are kept |
| FreqList.RangeEnc128 | src/osmo-bsc/arfcn_range_encode.c:284-291 | the element is a range 128 one with this F0 and these 28 words |
| FreqList.RangeEnc256 | src/osmo-bsc/arfcn_range_encode.c:293-300 | the same for range 256 and 21 words |
| FreqList.RangeEnc512 | src/osmo-bsc/arfcn_range_encode.c:302-309 | the same for range 512 and 17 words |
| FreqList.RangeEnc1024 | src/osmo-bsc/arfcn_range_encode.c:311-317 | the same for range 1024, with the F0 flag and 16 words |
| FreqList.WordsReadBack | src/osmo-bsc/arfcn_range_encode.c:202-282 | any words that fit their level widths are re-read from the packed octets |
| AnnexJ.DecodesElem | src/osmo-bsc/arfcn_range_encode.c:78-125 | climbing to the root as Annex J says undoes every split: node t decodes to its value plus 1 |
| FreqList.WordFreqsPlaced | src/osmo-bsc/arfcn_range_encode.c:78-147 | the decoded frequencies of the words are exactly the elements of the nodes that have a word |
| FreqList.PackedDecodes | src/osmo-bsc/arfcn_range_encode.c:284-317 | the decoder of section 10.5.2.13 recovers F0, its flag and exactly the encoded elements from a packed element |
| FreqList.PackedLow | src/osmo-bsc/arfcn_range_encode.c:213-271 | of a first word that is too large only the low bits reach the element |
| AnnexJ.ClimbZeroRoot | src/osmo-bsc/arfcn_range_encode.c:78-125 | a first word of 0 works on all words below it like the circle's last place |
| FreqList.ZeroDecodes | src/osmo-bsc/arfcn_range_encode.c:284-317 | an element whose first word was cut to 0 decodes to the other elements, turned accordingly |
| ArfcnList.FilterArfcns | src/osmo-bsc/arfcn_range_encode.c:319-340 | in place: everything but F0, relative to F0+1 modulo 1024; the tail keeps its old values |
| ArfcnList.ChosenEncodable | src/osmo-bsc/arfcn_range_encode.c:167-193 | the filtered list of a chosen range is distinct and within that range's circle |
| ArfcnList.Capacity | src/osmo-bsc/arfcn_range_encode.c:181-192 | the filtered list has a word for each value exactly when it is not 17 non-zero ARFCNs over more than 511 |
| ArfcnList.MeantIsList | src/osmo-bsc/arfcn_range_encode.c:167-193 | F0 and the shifted-back filtered list together are the original set |
| ArfcnList.EncodeArfcns | tests/gsm0408/gsm0408_test.c:329-377 | determine range, filter, encode and pack, then decode: the original set comes back if and only if the list is not empty and is not the 17-word one |
| ArfcnList.TooManyDecodesWrong | src/osmo-bsc/arfcn_range_encode.c:187-190 | 16 words can never stand for 17 non-zero ARFCNs |
| ArfcnList.TooManyExample | src/osmo-bsc/arfcn_range_encode.c:187-190 | a concrete list of that kind |
| RangeTurn.BuildLike | src/osmo-bsc/arfcn_range_encode.c:57-112 | lists that agree modulo the range have the same tree, but for the value at the root |
| RangeTurn.ElemDistinct | src/osmo-bsc/arfcn_range_encode.c:78-125 | different nodes carry different values, whatever was encoded |
| RangeTurn.ShownTurns | src/osmo-bsc/arfcn_range_encode.c:102-123 | with another value at the root all positions turn by the difference |
| RangeTurn.AheadBound | src/osmo-bsc/arfcn_range_encode.c:57-75 | where equal steps lead from every position to one end, no more positions lie ahead of that end than a plain walk of such steps has there |
| ShippedList.FilterInPlace | src/osmo-bsc/system_information.c:437-437 | with the returned length dropped, the encoder gets the filtered list and, where F0 was in it, the last ARFCN unshifted |
| ShippedList.PlainRight | src/osmo-bsc/system_information.c:437-439 | with the root as it is, the positions shown are the list's own exactly in the cases that Announced names |
| ShippedList.NoPivotAtEnd | src/osmo-bsc/arfcn_range_encode.c:57-75 | a value that the search picked is never such an end, in any of the four formats and for any turn that a cut can cause |
| ShippedList.TruncatedRight | src/osmo-bsc/system_information.c:437-453 | with the stale value cut at the root, the element is right exactly if the list is one ARFCN whose word is cut to 0 |
| ShippedList.SentRight | src/osmo-bsc/system_information.c:437-453 | any element that is sent decodes to the list if and only if Announced holds |
| ShippedList.CommonSent | src/osmo-bsc/system_information.c:437-453 | with F0 in the list, a word for each value, no collision and no cut, it decodes to the list and one ARFCN that is not in it |
| ShippedList.NotSent | src/osmo-bsc/system_information.c:439-441 | the search at the top fails if and only if the stale value falls on a position of the list, has exactly half of the others ahead of it, and no other position has |
| ShippedList.RangeEncode | src/osmo-bsc/system_information.c:428-458 | fails exactly with that search and then writes nothing; otherwise the element says what SentRight and CommonSent state |
| RangeTwice.StuckNotFound | src/osmo-bsc/arfcn_range_encode.c:57-75 | on a list with one value twice the search fails if and only if that value has exactly half of the others ahead of it and no other value has |
| RangeTwice.SplitsPath | src/osmo-bsc/arfcn_range_encode.c:78-125 | on such a list no search at any level fails if and only if none is stuck on the one path that the doubled value takes until it is picked |
| SendList.PickedIs | src/osmo-bsc/system_information.c:471-480 | what is selected is the only ascending list of exactly the ARFCNs that are set and usable |
| SendList.SelectArfcns | src/osmo-bsc/system_information.c:465-480 | selects them, and writes behind its array if and only if there are 30 or more |
| ShippedList.EncodeSelected | src/osmo-bsc/system_information.c:485-490 | for every list: -2 without a format, -EINVAL exactly as NotSent says, and otherwise right if and only if Announced holds |
| SendList.EncFreqLstRange | src/osmo-bsc/system_information.c:461-491 | for every bit vector: out of bounds if and only if 30 or more ARFCNs are selected, and otherwise all that |
| SendList.ExtraArfcn | src/osmo-bsc/system_information.c:557-563 | ARFCNs 600 and 727, too far apart for a bit map, are announced as 600, 693 and 727 |
| SendList.NothingSent | src/osmo-bsc/system_information.c:557-569 | ARFCNs 634 and 754, too far apart for a bit map, are not announced |
| SendList.SentAsItIs | src/osmo-bsc/system_information.c:557-563 | ARFCNs 126, 200 and 240, F0 among them, are announced as they are |
| ConnFsm.Conn.Flush | src/osmo-bsc/bsc_subscr_conn_fsm.c:934-952 | the queue and its counter are emptied; the messages are sent in order, or dropped |
| ConnFsm.Conn.SubmitDtap | src/osmo-bsc/bsc_subscr_conn_fsm.c:1033-1043 | sent at once in ACTIVE, else queued up to 8; sent plus queued grows by exactly this message, or stays when 8 are queued |
| ConnFsm.Conn.ForgetLchan | src/osmo-bsc/bsc_subscr_conn_fsm.c:664-700 | exactly the references to this channel go; every channel stays accounted for |
| ConnFsm.Conn.ReleaseLchan | src/osmo-bsc/bsc_subscr_conn_fsm.c:161-175 | the same for a release that fires no events back |
| ConnFsm.Conn.ChangePrimary | src/osmo-bsc/bsc_subscr_conn_fsm.c:623-636 | the new channel is primary and a replaced one has been released |
| ConnFsm.Conn.AssignmentReset | src/osmo-bsc/assignment_fsm.c:95-113 | a pending channel is released and nothing is pending |
| ConnFsm.Conn.AsgTerm | src/osmo-bsc/assignment_fsm.c:736-741 | cleanup, then the parent event: instance gone, pending channel ended, ASSIGNMENT becomes ACTIVE with an empty queue |
| ConnFsm.Conn.Fail | src/osmo-bsc/assignment_fsm.c:67-75 | a failure ends the instance, releases its channel, keeps the primary one and counts one result unless one was counted |
| ConnFsm.Conn.Success | src/osmo-bsc/assignment_fsm.c:197-230 | the picked channel is primary, or released if the MSC cannot be told; the replaced one is released; one result is counted and the flag left set |
| ConnFsm.Conn.AssignmentStart | src/osmo-bsc/assignment_fsm.c:388-486 | the instance stays, with the selected channel pending, exactly if one is needed, found and being activated; otherwise it is gone and the connection ACTIVE |
| ConnFsm.Conn.SelectLchan | src/osmo-bsc/assignment_fsm.c:437-485 | a selected channel is pending, or has been released if it cannot be activated |
| ConnFsm.Conn.EvLchanActive | src/osmo-bsc/assignment_fsm.c:488-518 | the pending channel alone leads on to waiting for the MS, or to failure if the command cannot be sent; undefined exactly without a primary channel |
| ConnFsm.Conn.EvRrComplete | src/osmo-bsc/assignment_fsm.c:527-562 | the outcome the answers call for (waiting, success, undone or failed), with its channels; undefined exactly if the pending channel is lost |
| ConnFsm.Conn.EvRrFail | src/osmo-bsc/assignment_fsm.c:542-545 | only while waiting for the MS: the assignment fails and its channel ends |
| ConnFsm.Conn.EvLchanEstablished | src/osmo-bsc/assignment_fsm.c:564-610 | success without a voice stream, else what the MGW answers; only noted while the MS has not answered; undefined exactly if the pending channel is lost |
| ConnFsm.Conn.EvMgwOk | src/osmo-bsc/assignment_fsm.c:612-642 | ends the assignment with the outcome the RTP information and the MSC call for; undefined exactly if it should succeed and the pending channel is lost |
| ConnFsm.Conn.EvMgwFail | src/osmo-bsc/assignment_fsm.c:634-637 | only while waiting for the MGW: the assignment fails and its channel ends |
| ConnFsm.Conn.EvLchanError | src/osmo-bsc/assignment_fsm.c:715-721 | the pending channel's error ends the assignment and the channel; any other changes nothing |
| ConnFsm.Conn.EvAsgTimeout | src/osmo-bsc/assignment_fsm.c:728-734 | the assignment fails; exactly one result is counted unless the flag was set |
| ConnFsm.Conn.EvConnReleasing | src/osmo-bsc/assignment_fsm.c:710-713 | the same for a releasing connection |
| ConnFsm.Conn.AssignmentGoesThrough | src/osmo-bsc/assignment_fsm.c:388-642 | if everybody answers well the new channel becomes primary, the old one ends, the connection is ACTIVE with an empty queue, one result is counted and the flag left set |
| ConnFsm.Conn.SecondNotCounted | src/osmo-bsc/assignment_fsm.c:84-95 | after such an attempt one that fails is not counted: two attempts, one result |
| ConnFsm.Conn.HandoverEnd | src/osmo-bsc/handover_fsm.c:770-877 | on success the new channel is primary and the replaced one ended, else the new one is ended and the primary kept, or detached exactly if it is given up at once; the connection is in the state the result calls for |
| ConnFsm.Conn.EvHandoverCmd | src/osmo-bsc/bsc_subscr_conn_fsm.c:370-377 | only from ACTIVE, and without effect on a handover that is still going on |
| ConnFsm.Conn.EvConnReq | src/osmo-bsc/bsc_subscr_conn_fsm.c:262-279 | INIT becomes WAIT_CC, or the connection is gone; any other state stays |
| ConnFsm.Conn.EvConnInd | src/osmo-bsc/bsc_subscr_conn_fsm.c:280-296 | only a Handover Request is taken; without a channel for it the connection is clearing; a second one during a handover fails the assertion of handover_fsm_alloc |
| ConnFsm.Conn.EvConnCfm | src/osmo-bsc/bsc_subscr_conn_fsm.c:326-340 | WAIT_CC becomes ACTIVE with an empty queue although nothing is flushed |
| ConnFsm.Conn.EvConnTimeout | src/osmo-bsc/bsc_subscr_conn_fsm.c:818-850 | the timers of WAIT_CC and CLEARING end the connection and its channels |
| ConnFsm.Conn.EvLchanGone | src/osmo-bsc/bsc_subscr_conn_fsm.c:664-700 | a channel that goes on its own is referred to no more, every other reference stays, and a running assignment goes on |
| ConnFsm.Conn.EvClearCmd | src/osmo-bsc/bsc_subscr_conn_fsm.c:727-744 | all channels are released; CLEARING follows from every state but WAIT_CC |
| ConnFsm.Conn.Term | src/osmo-bsc/bsc_subscr_conn_fsm.c:797-816 | every channel the connection ever had is ended, the queue dropped, what was sent a prefix of what was kept |
| ConnFsm.Conn.EvLchanReleasing | src/osmo-bsc/bsc_subscr_conn_fsm.c:638-661 | exactly the references to the releasing channel go, with the assignment if it was pending there; everything else stays; without a primary channel the connection is clearing |
| ConnFsm.Conn.EvAssignmentCmd | src/osmo-bsc/bsc_subscr_conn_fsm.c:357-368 | only ACTIVE with a channel starts an attempt, and exactly one |
| ConnFsm.Conn.EvMtDtap | src/osmo-bsc/bsc_subscr_conn_fsm.c:382-439 | recorded with the state and queue it found: kept in ACTIVE, in ASSIGNMENT and HANDOVER unless 8 are queued, nowhere else |
| ConnFsm.KeptInOrder | src/osmo-bsc/bsc_subscr_conn_fsm.c:916-952 | what is kept is what was offered, in that order, and all of it if nothing is refused or overflows |
| ConnFsm.Conn.Run | src/osmo-bsc/bsc_subscr_conn_fsm.c:582-621 | over every run: ASSIGNMENT has an instance, an instance means ASSIGNMENT or CLEARING, a pending channel has an instance; picked channels are pending, primary or ended, replaced ones ended; the queue is counted, at most 8 and empty while ACTIVE; every message offered is recorded with the state and queue it found, those kept by that record are sent in their order once each, and only the end of the connection loses one of them; results never exceed attempts |
| ConnFsm.Conn.Step | src/osmo-bsc/assignment_fsm.c:488-721 | any event: handled if and only if it is defined, and an assignment keeps the channel its next event needs if and only if the event does not take it |
| ConnFsm.Conn.RunHeld | src/osmo-bsc/assignment_fsm.c:488-642 | over every run in which no event takes such a channel, every event of the assignment is defined |
| ConnFsm.Conn.ChannelTaken | src/osmo-bsc/bsc_subscr_conn_fsm.c:638-744 | an event that takes it leaves the assignment waiting for an event that is undefined |
| ConnFsm.Conn.LostBeforeMgwAnswers | src/osmo-bsc/assignment_fsm.c:612-642 | an assignment that loses its established channel while it waits for the MGW comes to an answer that is undefined |
| ConnFsm.Conn.PrimaryLostBeforeActive | src/osmo-bsc/assignment_fsm.c:508-514 | an assignment whose primary channel releases or goes before the new one is active comes to an activation that is undefined |
| BtsLinks.Network.DropOml | src/osmo-bsc/bts_ipaccess_nanobts.c:405-443 | terminates, and takes down exactly the BTSs on a chain of up dependents, with their RSL links and flags, for any dependency graph |
| BtsLinks.DropsTransitiveDependents | src/osmo-bsc/bts_ipaccess_nanobts.c:429-442 | where every up BTS has its dependencies up, that is exactly the BTS and all up BTSs that transitively depend on it |
| BtsLinks.DropKeepsSupported | src/osmo-bsc/bts_ipaccess_nanobts.c:405-443 | a drop keeps "OML up implies all dependencies up" |
| BtsLinks.NoDependentsLeft | src/osmo-bsc/bts_ipaccess_nanobts.c:429-442 | nothing that is still up depends on the dropped BTS |
| BtsLinks.Network.DependCheck | src/osmo-bsc/gsm_data.c:298-331 | true exactly if every dependency is online, E1 BTSs counting as online |
| BtsLinks.Network.OmlLinkUp | src/osmo-bsc/bts_ipaccess_nanobts.c:538-561 | drops the old link with its dependents, then comes up exactly if all dependencies are up and enabled; consistency is kept |
| BtsLinks.Network.RslLinkUp | src/osmo-bsc/bts_ipaccess_nanobts.c:562-589 | comes up exactly with OML up and a known TRX; consistency is kept |
| BtsLinks.Run | src/osmo-bsc/bts_ipaccess_nanobts.c:392-594 | over every run of link events: OML up implies all dependencies up, RSL up implies OML up |
| RejectedUnits.RejectedList.Reject | src/osmo-bsc/bts_ipaccess_nanobts.c:469-516 | the list is the first 25 distinct keys of the whole history read newest first |
| RejectedUnits.TakeThenPush | src/osmo-bsc/bts_ipaccess_nanobts.c:510-515 | cutting to 25 at every step loses nothing that a later list would show |
| RejectedUnits.NewestFirstOrder | src/osmo-bsc/bts_ipaccess_nanobts.c:506-508 | an earlier place means a later last rejection |
| RejectedUnits.NewestIsLatest | src/osmo-bsc/bts_ipaccess_nanobts.c:487-508 | each entry is its key's latest rejection, with that time |
| RejectedUnits.NewestHasAll | src/osmo-bsc/bts_ipaccess_nanobts.c:487-508 | before the cut every rejected key is there |
| OmlQueue.Queue.QueueMsg | src/osmo-bsc/abis_nm.c:172-197 | sent at once exactly if nothing is queued or pending; transmitted plus queued stays the submission order |
| OmlQueue.Queue.SendNext | src/osmo-bsc/abis_nm.c:808-823 | sends up to and including the next message that needs an ack, keeping order and flag |
| OmlQueue.BatchAcks | src/osmo-bsc/abis_nm.c:808-823 | what goes out between two send-next calls holds at most one message that needs an ack, and is everything if it holds none |
| OmlQueue.Queue.ClearQueue | src/osmo-bsc/abis_nm.c:3043-3053 | nothing is queued or pending, nothing is sent |
| OmlQueue.Run | src/osmo-bsc/abis_nm.c:172-197 | over any mix of sends, acks and clears the order and the flag hold |
| SwLoad.Loader.SoftwareLoad | src/osmo-bsc/abis_nm.c:1516-1563 | starts exactly from the idle state with a known BTS type and a readable file, and does not clear the last-segment flag; a file that cannot be read still overwrites window size and forced flag |
| SwLoad.Loader.LoadSegment | src/osmo-bsc/abis_nm.c:1132-1194 | the segments sent so far are a prefix of the file; a short read marks the last one |
| SwLoad.Loader.FillWindow | src/osmo-bsc/abis_nm.c:1351-1363 | never more than the window is unacknowledged |
| SwLoad.Loader.Receive | src/osmo-bsc/abis_nm.c:1366-1471 | every message in every state leads where it should and keeps the invariant; an ack refills the window or ends the load |
| SwLoad.LoadEndComplete | src/osmo-bsc/abis_nm.c:1418-1427 | from a fresh record the load end follows only the whole file and an ack; on a stale one, exactly if one segment was enough |
| SwLoad.WindowedAlways | src/osmo-bsc/abis_nm.c:1351-1363 | at every moment of a load at most the window is unacknowledged |
| SwLoad.Run | src/osmo-bsc/abis_nm.c:1366-1437 | over any run of loads and messages |
| SwLoad.LoadWhole | src/osmo-bsc/abis_nm.c:1366-1437 | with acks and good reads a load from a fresh record terminates with the whole file sent and the load end out |
| SwLoad.UsedRecord | src/osmo-bsc/abis_nm.c:1516-1563 | a record after one load is idle again with the last-segment flag set |
| SwLoad.LoadAgain | src/osmo-bsc/abis_nm.c:1175-1176 | a later load of more than one segment on such a record announces its end with data missing |
| NokiaSegments.RoundTrip | src/osmo-bsc/bts_nokia_site.c:1169-1265 | reassembling the segments, length 0 read as 256, gives back type, reference and payload; placements and sequence numbers are right |
| NokiaSegments.Send | src/osmo-bsc/bts_nokia_site.c:1066-1091 | a payload of up to 252 octets is one ONLY segment |
| NokiaSegments.NextSegment | src/osmo-bsc/bts_nokia_site.c:1183-1248 | each turn cuts the next segment of the reference segmentation |
| NokiaSegments.SendMultiSegments | src/osmo-bsc/bts_nokia_site.c:1169-1265 | submits exactly the segments of the payload, and on an idle queue all of them are on the link |
| Om2000.ScriptOnce | src/osmo-bsc/abis_om2000.c:2147-2224 | no managed object comes twice in the bring-up order |
| Om2000.ScriptAt | src/osmo-bsc/abis_om2000.c:1952-2013 | each TRX contributes TRXC, TX, RX and TS0 to TS7, after CF, TF, CON and IS |
| Om2000.Bringup.MoStart | src/osmo-bsc/abis_om2000.c:1494-1520 | an object is started only as the next of the script and only with no other live |
| Om2000.SendsEarly | src/osmo-bsc/abis_om2000.c:1522-1619 | the transitions up to START RESULT are never refused by the masks and send the class's commands in order |
| Om2000.SendsLate | src/osmo-bsc/abis_om2000.c:1621-1687 | the same for configuration, enabling and operational info |
| Om2000.ReactSends | src/osmo-bsc/abis_om2000.c:1704-1801 | whatever message is accepted, the transition is in the mask and in the order of the commands |
| Om2000.Bringup.BtsEvent | src/osmo-bsc/abis_om2000.c:2159-2209 | the end of CF, TF, CON or IS starts the next object, or nothing in ERROR |
| Om2000.Bringup.BtsTrxDone | src/osmo-bsc/abis_om2000.c:2211-2224 | the next TRX is started, or DONE is reached with the whole script started |
| Om2000.Bringup.TrxEvent | src/osmo-bsc/abis_om2000.c:1963-2013 | the end of an object starts the next of its TRX, or nothing in ERROR |
| Om2000.Bringup.MoTerm | src/osmo-bsc/abis_om2000.c:1689-1702 | a regular or failed end closes the run and lets the parent go on |
| Om2000.Bringup.Timer | src/osmo-bsc/abis_om2000.c:1803-1807 | a timer acts exactly if its FSM waits: the object fails and its parent goes on, or a TRX or BTS is in ERROR with everything below untouched |
| Om2000.Bringup.Recv | src/osmo-bsc/abis_om2000.c:1845-1912 | a message is accepted exactly if its object is live and waits for it, moves that object alone or ends it, and leads down in rank |
| Om2000.Bringup.Step | src/osmo-bsc/abis_om2000.c:1845-1912 | a message or timer is refused without any effect, or leads down in rank |
| Om2000.Bringup.InOrder | src/osmo-bsc/abis_om2000.c:2147-2280 | in every reachable state: the started objects are a prefix of the script, all but the last have ended, at most one is live; without a live one the bring-up is DONE or in ERROR; DONE means the whole script was started and ended |
| Om2000.Bringup.Run | src/osmo-bsc/abis_om2000.c:1494-1801 | all that over every run, and at most 16 transitions per object are ever accepted |
| Om2000.Bringup.Cooperate | src/osmo-bsc/abis_om2000.c:1494-1801 | a BTS that answers well is brought up: DONE is reached with every object of the script sent all its commands and ended regularly |
| AccRamp.LowestOut | src/osmo-bsc/acc_ramp.c:112-132 | letting in the lowest class that is out leaves exactly the higher ones |
| AccRamp.LetInIs | src/osmo-bsc/acc_ramp.c:112-132 | n steps of size s let in min(k, n*s) of k classes |
| AccRamp.Ramp.SetAll | src/osmo-bsc/acc_ramp.c:61-77 | exactly the classes not barred for good are marked or unmarked |
| AccRamp.Ramp.Step | src/osmo-bsc/acc_ramp.c:100-140 | the next s lowest classes are let in; the timer is armed exactly if a class is still marked and the step is not of full size |
| AccRamp.Ramp.Trigger | src/osmo-bsc/acc_ramp.c:341-351 | all available classes out, then the first step at once; disabled, nobody out |
| AccRamp.Ramp.Abort | src/osmo-bsc/acc_ramp.c:357-363 | timer off and only stale marks left |
| AccRamp.Ramp.AfterSteps | src/osmo-bsc/acc_ramp.c:100-140 | after n steps exactly the max(0, k-n*s) highest available classes are out, none barred for good is marked, and the timer runs iff some remain |
| AccRamp.Ramp.Whole | src/osmo-bsc/acc_ramp.c:341-351 | a ramp ends with everybody in, after at most max(1, ceil(k/s)) steps |
| AccRamp.Ramp.EndsAtLast | src/osmo-bsc/acc_ramp.c:100-140 | after ten firings of the timer a ramp has ended if and only if its step has the full size or no mark is stale |
| AccRamp.Ramp.StaleNeverEnds | src/osmo-bsc/acc_ramp.c:114-126 | with a class marked and then barred for good, the ramp stays armed however often the timer fires, and no higher class is let in |
| AccRamp.Ramp.StaleArises | src/osmo-bsc/bsc_vty.c:2498-2541 | barring a class for good that the first step left out makes such a mark, with those consequences |
| CodecPref.TestCodecPref | src/osmo-bsc/codec_pref.c:131-177 | true exactly if the channel type and a codec list, if there is one, offer the codec; the first entry for it is found |
| CodecPref.TestCodecSupportBts | src/osmo-bsc/codec_pref.c:181-239 | true exactly if the codec is enabled and some timeslot carries its rate; never for an invalid value |
| CodecPref.MatchAmr | src/osmo-bsc/codec_pref.c:270-308 | the bits common to both sides, S1 replacing the other rates; fails exactly without a common rate |
| CodecPref.MatchCodecPref | src/osmo-bsc/codec_pref.c:319-390 | the first acceptable codec in the order of preference; fails only if there is none |
| CodecPref.GenSupportedList | src/osmo-bsc/codec_pref.c:397-429 | the loop builds the list of supported codecs |
| CodecPref.SupportedListHas | src/osmo-bsc/codec_pref.c:397-429 | that list holds exactly the preferred codecs the BTS supports, with their AMR bits |
| CodecPref.ChosenIsAdvertised | src/osmo-bsc/codec_pref.c:274-306 | whatever is chosen was advertised with at least the chosen bits, and an AMR choice has a rate |
| CodecPref.AdvertisedIsAccepted | src/osmo-bsc/codec_pref.c:332-376 | an advertised codec offered back is accepted, and only it, exactly if it is not AMR without any rate |
| NeighMeas.NeighAvg | src/osmo-bsc/handover_decision.c:58-83 | the ring's average is the mean of the last min(window, count) samples really measured |
| NeighMeas.RingIndex | src/osmo-bsc/meas_rep.c:61-77 | the start index reaches the i-th of the last samples also across the end of the ring |
| NeighMeas.FindCell | src/osmo-bsc/handover_decision.c:39-55 | the first cell of the report that matches, or none |
| NeighMeas.Table.FindEvict | src/osmo-bsc/handover_decision.c:86-109 | the first unused slot; only if there is none, a used one of least average |
| NeighMeas.Table.UpdateKnown | src/osmo-bsc/handover_decision.c:116-134 | every used slot gets its cell's level, or 0 for a miss; cells left over are in no slot |
| NeighMeas.Table.AddCell | src/osmo-bsc/handover_decision.c:145-156 | the cell takes an unused slot or the place of a least average, all other slots unchanged |
| NeighMeas.Table.Process | src/osmo-bsc/handover_decision.c:112-158 | every used slot is measured once more; then slots are taken by cells of the report, a used one only when none is unused and only if its average is not above that of any slot kept; distinct cells keep the slots distinct |
| NeighMeas.Table.Run | src/osmo-bsc/handover_decision.c:242-244 | over any sequence of reports each one does exactly that to the table, and distinct cells keep the slots distinct |
| NeighMeas.Table.AttemptHandover | src/osmo-bsc/handover_decision.c:161-210 | the target clears the hysteresis and no used slot has a greater average; without a target none that clears it is better than the serving cell |
| ChanLoad.LoadAverage.Update | src/osmo-bsc/chan_alloc.c:87-139 | bogus samples forget the others, seven good ones are kept, the eighth publishes an average of all eight |
| ChanLoad.LoadAverage.Publish | src/osmo-bsc/chan_alloc.c:138-167 | the average covers eight good samples since the last bogus one and is close to their load; T3122 is 128 times that load, rounded down, but at least 10 |
| ChanLoad.PercentBound | src/osmo-bsc/chan_alloc.c:148-155 | the fixed-point percentage is at most 100, never exceeds 100*used/total and falls short by less than 2, so the assertion cannot trip |
| ChanLoad.WaitBound | src/osmo-bsc/chan_alloc.c:158-160 | the fixed-point wait indicator is 128*used/total rounded down, so the upper clamp is never needed |
| ChanLoad.WaitIndicator | src/osmo-bsc/chan_alloc.c:158-164 | that, or 10 if it is more |
| ChanLoad.SumUp | src/osmo-bsc/chan_alloc.c:104-119 | the sum of all counters that are not too large |
| ChanLoad.LoadAverage.Run | src/osmo-bsc/chan_alloc.c:87-169 | over any sequence of samples every published average is of that kind and T3122 is 0 or in 10..128 |

## Left out

- ShippedList.RangeEncode: requires the range that was chosen for the list; the other caller, which always uses 1024 for UMTS scrambling codes (src/osmo-bsc/rest_octets.c:246), is not modelled.
- SendList.EncFreqLstRange: which ARFCNs a bit vector and the band allow is an input; what happens after the write behind the array is not modelled.
- The bit map 0 and variable bit map formats, and the decoder of libosmocore, which is not part of this model.
- ConnFsm.Conn.RunHeld: takes a selected channel to be neither the primary nor the handover's, as channel selection picks unused ones; stops at a second Handover Request in INIT, which the source refuses with an assertion (src/osmo-bsc/handover_fsm.c:270).
- ConnFsm: where an event is undefined the model stops with its state as before, and says nothing about what the program does. Pointers that the handover FSM follows are not modelled.
- ConnFsm.Conn.HandoverEnd: the handover FSM's own states are not modelled, only what its start and its result do to the connection; whether a terminating connection still takes the result is left open as a constant.
- Channel identities in ConnFsm name one activation each; the lchan FSM, MGW endpoints, LCLS, ciphering and the BSSMAP messages themselves are not modelled.
- Direct callers of gscon_submit_rsl_dtap outside the FSM's events (src/osmo-bsc/gsm_04_80_utils.c:25-42).
- Over whole runs only the upper bound on counted results is stated; what one step counts is exact.
- BtsLinks: memory, timers' durations and paging; acyclicity of the dependencies is not needed and not assumed, but each must be on a declared ip.access BTS, as the VTY demands (src/osmo-bsc/bsc_vty.c:3597-3628).
- SwLoad: the line-based BS-11 path, software activation, and the OML queue below the download.
- NokiaSegments.SendMultiSegments: a send that fails is not modelled; a sequence number is an octet and wraps after 256 segments as it does in the source.
- Om2000: class DP, whose transition its own mask refuses and which the bring-up never starts; the contents of configuration messages; the superchannel switch.
- AccRamp: the dynamic step interval, and the signals that trigger or abort a ramp.
- AccRamp.Ramp.Whole: requires that no mark is stale, which EndsAtLast shows to be the exact condition.
- CodecPref: the tables of libosmocore that map codec types and AMR rate configurations; their results are inputs.
- NeighMeas: wrap-around of the 32-bit sample counter after 2^32 reports, and the conditions under which a handover is attempted. The hysteresis is not negative and the window at most 10, as the configuration allows.
- ChanLoad: counting the channels in use; counters and sums stay far below the source's integer widths.
- Sockets, E1, SCCP, MGCP, logging, the VTY and control interfaces, paging, RSL message builders, system information other than the frequency list, handover algorithm 2, and the IP access tools.
