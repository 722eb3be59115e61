# A verified model of the canboat core

This project models the parts of canboat where state, timing and bit layout meet, and proves
what they promise. Dafny checks everything: `dafny verify dfyconfig.toml`.

The repository decodes and encodes NMEA 2000 traffic. Its core is five machines:

* **Address claim** (`AddressClaim`, `ClaimNetwork`, `ClaimSafety`, `ClaimTraffic`,
  `ClaimSteps`). One node is a class with the fields of the original; every method is proved
  equal to a function on the node's value.
  The network is any number of such nodes on a broadcast bus: nodes join, listen, restart,
  tick, answer requests and receive claim frames, which may be delayed and reordered at will.
  Proved over all runs: addresses are distinct once no claim is in flight; with a bounded
  delay no address is owned twice; the traffic ends; the bus converges, every node owning an
  address or having failed; losses are bounded.
* **Reassembly** (`SlotTable`, `FastPacket`, `FastPacketLoss`, `FastPacketMix`,
  `FastPacketOrder`, `FastPacketOrigin`, `TransportProtocol`, `TransportOrigin`, `Reassembler`,
  `ReassemblyRuns`, `EvictionOrder`). The class `Machine` holds the slot and session arrays;
  `Pushed` is its transition on values. The 64-slot table refines a private reassembler for
  every (pgn, src, seq); the 16-session table one for every source.
* **The bit codec** (`BitStrings`, `Bits`, `Schema`, `Encode`, `Decode`, `Codec`, `TextFields`,
  `NumberFields`, `BuiltFields`, `RepeatingSets`, `FieldValues`). The writer appends bit by bit,
  the reader gathers byte by byte; both are proved against strings of bits.
* **The dispatch generator** (`Text`, `Dispatch`, `Selection`). The build script is a small
  compiler. Its output is modelled as bindings and conditional returns with an evaluator, and
  running it is proved equal to the linear scan it replaces, names and catch-all included.
* **AIS and the request engine** (`MsbStrings`, `Ais`, `AisArmour`, `AisReceiver`,
  `AisSentences`, `RequestEngine`, `RequestHistory`), and the 64-bit **NAME** (`Name`).

Each operation is proved equal to a function on values, and what that function means is said
again without it: by what reaches the bus (`ClaimSteps`), by the history of the frames
(`FastPacketOrigin`, `TransportOrigin`, `EvictionOrder`, `RequestHistory`), by a receiver that
knows only the payload or the text (`BuiltFields`, `RepeatingSets`, `FieldValues`,
`AisReceiver`), or by the numbers of the wire format.

Byte strings and registers are sequences of bits where the original shifts and masks. Widths,
truncation and wrap-around are written out: bytes, 32-bit and 64-bit masks, two's complement.

## What turned out to be conditional

* **Mutual exclusion** holds for a delivery bound exactly if it is at most 250 ms, the claim
  timeout (`ClaimSafety.MutualExclusionExactly`); for a larger bound there is a run with a
  double claim.
* **Recovery after loss.** A complete burst that arrives in order yields its payload on its
  last frame exactly for leftovers that are empty, contain frame 0, or contain all of 1..n-1
  (`FastPacketMix.RecoversExactly`).
* **Mixing bursts.** "Never emits a payload mixing two bursts"
  (`crates/canboat-core/src/reassembly.rs:852-858`) fails for an in-order burst of n frames
  exactly if the slot holds just the frames k..n-1, for some k with 2 <= k < n
  (`FastPacketMix.MixesExactly`). Frame k-1 then completes a payload glued from both
  (`FastPacketMix.TailGlues`). Losing frames 0..k-1 of one burst of n frames is enough
  (`FastPacketMix.TailLeftBehind`), and from then on every burst of n frames on the key is glued
  to the one before (`FastPacketMix.EveryBurstGlued`). On all other leftovers that do not
  recover, the burst yields nothing at all (`FastPacketMix.BurstExactly`).
  For a burst in any order, `FastPacketOrder.AnyOrderExactly` says at which frame a mixture is
  completed, if at any: leftovers {2} and the order 0, 1, 3, 2 complete on frame 3.
* **Any order of arrival** completes except when frame 0 of several comes last: the slot then
  starts over (`FastPacket.AnyOrder`).
* **NAME agreement** holds exactly for payloads with a clear spare bit and without a sentinel
  pattern that no lookup table names (`Name.IsoNameExactly`). A device with system instance 15
  is known to its receivers by another NAME (`Name.SystemInstanceLost`).
* **Declared widths.** "At its schema offset" (`crates/canboat-core/src/encode.rs:310-313`) holds
  for all fields of a message that packs exactly if every field before them keeps its width
  (`Encode.OffsetsExactly`). In the shipped database the BINARY fields of part-byte width do not:
  they are packed as 8 * (w / 8) bits, set or unset (`Encode.PartByteBinary`), so that the
  comment "byte-aligned — every string/binary field is" does not hold either. They occur, for
  example, in PGN 65240 (21 bits), 129038, 129039, 129793 and 129798 (19 bits) and 130061 (12
  bits). The length check notices missing bits exactly if they are more than the padding hides
  (`Encode.LengthCheckExactly`): every commanded address, PGN 65240, goes out with all later
  fields five bits too early (`Encode.CommandedAddressMoves`).
* **Trailing padding of texts.** A text behind a length is shown as it is exactly if it does not
  end in NUL, space, '@' or U+00FF (`Decode.ShownExactly`): the last letter of Latin-1 is taken
  for the padding byte 0xFF (`Decode.LastLetterLost`). Texts of fixed width lose bytes instead,
  and keep that letter.
* **The choice of a variant.** The comment at `crates/canboat-core/src/decode.rs:504-514` says
  that a catch-all of the PGN itself is preferred among those whose match fields do not decide,
  and that the catch-all of the range is for PGN numbers not in the database. If no match fields
  hold, the code does otherwise exactly in three situations: there are both a plain variant and
  a catch-all; the number is known, has neither, and a catch-all lies at or below it; or there is
  no plain variant, the first catch-all has match fields, and there is another
  (`Selection.DocumentedExactly`). The model follows the code.
* **Short payloads.** The comment at `crates/canboat-core/src/bits.rs:32-39` speaks of padding
  with 0xFF; the code cuts the field short. The two agree exactly on fields that end within the
  payload (`Bits.FilledExactly`). The model follows the code.

## Model

| member | source | states |
|---|---|---|
| AddressClaim.LowestFree | crates/canboat-io/src/address_claim.rs:230-232 | the result is the lowest assignable address not in use; none only if all of 0..253 are |
| AddressClaim.Claimer.constructor | crates/canboat-io/src/address_claim.rs:68-81 | a new node is pending on its preferred address, has sent nothing and knows of no other |
| AddressClaim.Claimer.Passive | crates/canboat-io/src/address_claim.rs:93-98 | a passive node is disabled |
| AddressClaim.Claimer.Address | crates/canboat-io/src/address_claim.rs:111-113 | the address is given only once it is owned |
| AddressClaim.Claimer.Start | crates/canboat-io/src/address_claim.rs:135-144 | starting begins the scan and broadcasts one request, unless the node is disabled |
| AddressClaim.Claimer.OnAddressClaim | crates/canboat-io/src/address_claim.rs:148-186 | new state and frames after a claim is heard: learn, defend against a higher NAME, move or fail against a lower one |
| AddressClaim.Claimer.RespondToClaimRequest | crates/canboat-io/src/address_claim.rs:190-196 | a claim is repeated while pending or claimed, and only then |
| AddressClaim.Claimer.Tick | crates/canboat-io/src/address_claim.rs:199-210 | the scan ends in a claim, an uncontested claim in ownership |
| AddressClaim.Claimer.BeginClaim | crates/canboat-io/src/address_claim.rs:212-228 | the preferred address if free, else the lowest free one, else failure, always announced |
| AddressClaim.Claimer.PickFree | crates/canboat-io/src/address_claim.rs:230-232 | the scan of the table finds the lowest free address |
| ClaimNetwork.StepKeepsInv | crates/canboat-io/src/address_claim.rs:148-228 | every step keeps: two holders of one address have a claim in flight between them, on time if the bus is timed |
| ClaimSafety.QuiescentUniqueness | crates/canboat-io/src/address_claim.rs:160-184 | in every run, two nodes share an address only while a claim of one is undelivered to the other |
| ClaimSafety.QuiescentAddressesDistinct | crates/canboat-io/src/address_claim.rs:160-184 | once no claim is in flight, all addresses held are pairwise distinct |
| ClaimSafety.TimedMutualExclusion | crates/canboat-io/src/address_claim.rs:148-228 | if every claim arrives within the claim timeout, no reachable state has two owners of one address |
| ClaimSafety.MutualExclusionExactly | crates/canboat-io/src/address_claim.rs:24-29 | mutual exclusion holds for a delay bound if and only if it is at most 250 ms |
| ClaimSafety.DeafRun | crates/canboat-io/src/address_claim.rs:199-228 | for every larger bound, a run from the empty bus that ends in a double claim |
| ClaimSafety.LowestNameNeverYields | crates/canboat-io/src/address_claim.rs:160-184 | the node with the lowest NAME keeps the address it holds through every run in which it is not restarted |
| ClaimTraffic.InternalStepShrinks | crates/canboat-io/src/address_claim.rs:160-184 | every tick that acts and every delivery makes a lexicographic measure of budget, traffic and waiting nodes smaller |
| ClaimTraffic.TrafficEnds | crates/canboat-io/src/address_claim.rs:160-184 | without starts and answers, from some moment on only time passes |
| ClaimTraffic.Converges | crates/canboat-io/src/address_claim.rs:148-228 | if every claim arrives, from some moment on none is in flight and the addresses held are distinct; if ticks and time go on, every node then owns an address, has failed or is disabled |
| ClaimTraffic.LossesAreBounded | crates/canboat-io/src/address_claim.rs:160-184 | in any run a node loses an address at most once for each address it had not seen used, at most 254 times |
| ClaimSteps.LosesExactly | crates/canboat-io/src/address_claim.rs:148-163 | a node loses its address exactly to a lower NAME that claims the address it holds |
| ClaimSteps.LossExactly | crates/canboat-io/src/address_claim.rs:166-184 | a node that loses its address and may not move, or has none to move to, has failed and says so from 254 to every node; any other is on the least address not seen used and claims it |
| ClaimSteps.DefenceExactly | crates/canboat-io/src/address_claim.rs:160-165 | against a higher NAME the address is kept, claimed again to every node, and the wait starts anew |
| ClaimSteps.LearnExactly | crates/canboat-io/src/address_claim.rs:148-159 | any other claim is answered by nothing, and at most the address is learned |
| ClaimSteps.ScanExactly | crates/canboat-io/src/address_claim.rs:199-228 | after listening, the preferred address if not seen used, else the least unused one, else failure; always claimed to every node |
| ClaimSteps.SettleExactly | crates/canboat-io/src/address_claim.rs:199-210 | an uncontested claim is owned after its time, and no other tick does anything |
| ClaimSteps.AnswerExactly | crates/canboat-io/src/address_claim.rs:190-196 | a request is answered by a claim to every node exactly while an address is held |
| ClaimSteps.StartExactly | crates/canboat-io/src/address_claim.rs:135-144 | one ISO request for claims, byte by byte, from 254 to all, and a second of listening |
| ClaimSteps.ClaimFrameExactly | crates/canboat-io/src/address_claim.rs:234-246 | the claim frame: PGN, priority, addresses, and the NAME in eight little-endian bytes |
| ClaimSteps.FailedStaysFailed | crates/canboat-io/src/address_claim.rs:148-228 | in every run, a node that has failed stays so until it is started again |
| ClaimSteps.FixedNodeNeverMoves | crates/canboat-io/src/address_claim.rs:171-184 | in every run, a node that may not choose holds its address until it first loses it, and from then on none, until it is started again |
| SlotTable.Overwrite | crates/canboat-core/src/reassembly.rs:617-653 | writing a slot changes what is held for the old and the new key and for no other, and keeps keys distinct |
| SlotTable.NoEviction | crates/canboat-core/src/reassembly.rs:623-653 | while the keys in use and the new one fit the table, claiming a slot evicts nothing |
| SlotTable.EvictsOldest | crates/canboat-core/src/reassembly.rs:630-645 | an eviction happens only in a full table, to the slot of the oldest claim |
| FastPacket.Split | crates/canboat-io/src/device/socketcan.rs:346-375 | the transmit loop produces the frames of the burst, each with its index, declared size, piece of the payload and padding |
| FastPacket.HasAdded | crates/canboat-core/src/reassembly.rs:300-410 | a frame of the burst extends an assembly of some of its frames; only frame 0 can start it over, and exactly if the rest is complete |
| FastPacket.NextFrame | crates/canboat-core/src/reassembly.rs:300-430 | of the frames still to come, none but the last completes anything |
| FastPacket.AnyOrder | crates/canboat-core/src/reassembly.rs:282-432 | frames of a burst in any order give nothing until the last, and then exactly the payload unless frame 0 of several came last |
| FastPacketMix.RecoversExactly | crates/canboat-core/src/reassembly.rs:300-376 | an in-order burst on any leftovers ends in exactly its own payload if and only if the leftovers recover |
| FastPacketMix.MixesExactly | crates/canboat-core/src/reassembly.rs:300-376 | an in-order burst of n frames completes a payload before its last frame if and only if just the frames k..n-1 are held, 2 <= k < n |
| FastPacketMix.BurstExactly | crates/canboat-core/src/reassembly.rs:300-376 | on any leftovers: its own payload on the last frame, or one mixture on frame k-1, or nothing at all |
| FastPacketMix.TailGlues | crates/canboat-core/src/reassembly.rs:300-376 | the mixture is the first k frames of the new burst and at least one old byte, and the tail of the new burst is left behind |
| FastPacketMix.TailLeftBehind | crates/canboat-core/src/reassembly.rs:346-376 | a burst whose first k frames were lost leaves such a tail, and yields nothing |
| FastPacketMix.EveryBurstGlued | crates/canboat-core/src/reassembly.rs:300-376 | from then on every complete burst of as many frames on the key is glued to the one before it |
| FastPacketOrder.AnyOrderExactly | crates/canboat-core/src/reassembly.rs:300-376 | a burst in any order on any leftovers: as on an empty slot if its first frame finds or makes it empty; if not, exactly the frame at which the frames so far and the leftovers fill up what is asked for completes a mixture, at most one and never the last |
| FastPacketLoss.CompleteOnZero | crates/canboat-core/src/reassembly.rs:405-430 | what completes on a frame 0 is at most six bytes, all of them in that frame |
| FastPacketOrigin.Provenance | crates/canboat-core/src/reassembly.rs:327-430 | a completed payload is carried by one frame for each index 0..size/7 that arrived since the slot last started over |
| FastPacketOrigin.CarriesOne | crates/canboat-core/src/reassembly.rs:377-430 | such frames carry one payload only |
| FastPacketOrigin.BurstFrameExactly | crates/canboat-io/src/device/socketcan.rs:346-375 | every byte of every frame of a burst: sequence and index, size, payload, filler |
| TransportProtocol.WordTestExact | crates/canboat-core/src/reassembly.rs:550-563 | the four-word completion test holds if and only if every sequence number has been received |
| TransportProtocol.TransferState | crates/canboat-core/src/reassembly.rs:536-548 | after any data frames of the message the session holds exactly their chunks, or is closed once they cover it |
| TransportProtocol.TransferExact | crates/canboat-core/src/reassembly.rs:443-578 | chunks in any order with any repetitions: the message comes out exactly when the last missing one arrives, under the announced header |
| TransportOrigin.CompletesExactly | crates/canboat-core/src/reassembly.rs:514-578 | for any announcement and any data frames: a transfer completes exactly on the frame that brings its last missing chunk, with the bytes below |
| TransportOrigin.AnnouncementExactly | crates/canboat-core/src/reassembly.rs:443-512 | an abort closes the session of its source, an announcement of 1 to 1785 bytes opens it with nothing received, and no other connection-management frame does anything |
| TransportOrigin.ByteOfExactly | crates/canboat-core/src/reassembly.rs:536-560 | a byte of it is that of the latest frame since the announcement that has one for its place, and 0xff if no frame has |
| TransportOrigin.BeyondPackets | crates/canboat-core/src/reassembly.rs:472-505 | announced bytes that no announced packet can bring are 0xff |
| Reassembler.Machine.constructor | crates/canboat-core/src/reassembly.rs:246-256 | a new reassembler has 64 free slots and 16 free sessions |
| Reassembler.Machine.Push | crates/canboat-core/src/reassembly.rs:260-300 | a push changes both tables and answers as the transition on values does, passing other frames through |
| Reassembler.Machine.PushFast | crates/canboat-core/src/reassembly.rs:282-300 | a fast-packet frame goes to the slot of its key, claimed if need be |
| Reassembler.Machine.Receive | crates/canboat-core/src/reassembly.rs:300-432 | one slot changes, as the assembly of its key does, and answers accordingly |
| Reassembler.Machine.FindSlot | crates/canboat-core/src/reassembly.rs:617-621 | the used slot of the key, if any |
| Reassembler.Machine.ClaimSlot | crates/canboat-core/src/reassembly.rs:623-653 | an unused slot, else that of the least age, is reset for the key and stamped |
| Reassembler.Machine.HandleTpCm | crates/canboat-core/src/reassembly.rs:443-512 | announcements open or reset a session, an abort closes it, other messages change nothing |
| Reassembler.Machine.HandleTpDt | crates/canboat-core/src/reassembly.rs:514-578 | a data frame stores its chunk in its source's session and closes it when complete |
| Reassembler.Machine.FindTpSlot | crates/canboat-core/src/reassembly.rs:580-585 | the session of the source, if any |
| Reassembler.Machine.ClaimTpSlot | crates/canboat-core/src/reassembly.rs:587-615 | the source's own session is reset, else an unused one or that of the least age is taken |
| ReassemblyRuns.FastStep | crates/canboat-core/src/reassembly.rs:282-432 | a frame acts on its own key as on a private reassembler; an evicted key is forgotten; no other key changes |
| ReassemblyRuns.NeverOutOfSlots | crates/canboat-core/src/reassembly.rs:286-298 | in every run the only error is that of a frame without data |
| ReassemblyRuns.RepliesExactly | crates/canboat-core/src/reassembly.rs:260-298 | which frames pass through unchanged, which are errors, and which are kept or complete something |
| ReassemblyRuns.RefinesPrivate | crates/canboat-core/src/reassembly.rs:286-298 | a key that is not evicted holds and says what a private reassembler fed only its frames does |
| ReassemblyRuns.FewKeysNeverEvict | crates/canboat-core/src/reassembly.rs:617-653 | while at most 64 keys are live, no key is evicted |
| EvictionOrder.EvictedBeganFirst | crates/canboat-core/src/reassembly.rs:623-653 | in every run, a burst is evicted only when 64 are under way, and it is the one that began before all the others |
| EvictionOrder.EvictedAnnouncedFirst | crates/canboat-core/src/reassembly.rs:587-615 | in every run, a transfer is evicted only when 16 are under way, and it is the one announced before all the others |
| ReassemblyRuns.InterleavedBurst | crates/canboat-core/src/reassembly.rs:282-432 | a burst in any order amid any other traffic is answered, under the header of its last frame, by its payload on that frame and by nothing before |
| ReassemblyRuns.InterleavedRecovery | crates/canboat-core/src/reassembly.rs:300-376 | an in-order burst amid other traffic is answered by its payload if and only if what its key left behind recovers |
| ReassemblyRuns.InterleavedMixing | crates/canboat-core/src/reassembly.rs:300-376 | amid other traffic, an in-order burst is answered by a payload before its last frame if and only if its key left behind such a tail |
| ReassemblyRuns.InterleavedOrder | crates/canboat-core/src/reassembly.rs:282-432 | the same for a burst in any order amid other traffic, after whatever its key has left behind |
| ReassemblyRuns.CompleteProvenance | crates/canboat-core/src/reassembly.rs:327-430 | in every run, evictions included, each completed payload is carried by the latest frames of its own key, and goes out under the header of the frame that completes it |
| ReassemblyRuns.SessionsRefinePrivate | crates/canboat-core/src/reassembly.rs:580-615 | a source whose session is not evicted has a transport reassembler of its own |
| ReassemblyRuns.FewSessionsNeverEvict | crates/canboat-core/src/reassembly.rs:587-615 | in every run in which at most 16 sources have a session at any announcement, no session is evicted |
| ReassemblyRuns.TransferFromRun | crates/canboat-core/src/reassembly.rs:443-578 | in every run, evictions included, a completed transfer is what the frames of its source have brought since its latest announcement, under that header |
| ReassemblyRuns.InterleavedTransfer | crates/canboat-core/src/reassembly.rs:443-578 | a message in chunks amid other traffic is complete exactly on the frame that was still missing |
| Bits.ExtractBits | crates/canboat-core/src/bits.rs:40-140 | extraction gives the bits of the field that are present, interpreted as signed or offset; nothing for a field of no or too many bits, or past the end |
| Bits.Gather | crates/canboat-core/src/bits.rs:78-118 | the byte loop gathers exactly the bits from the offset on, and their all-ones maximum |
| Bits.ExtractRaw | crates/canboat-core/src/bits.rs:78-139 | the pattern of a whole field is the number of its bits |
| Bits.SignedInverse | crates/canboat-core/src/bits.rs:119-139 | every integer in range, reduced to its field, reads back signed as itself |
| FieldValues.ExtractsExactly | crates/canboat-core/src/bits.rs:47-57 | there is nothing to extract exactly from no bits, more than 64, or behind the payload |
| FieldValues.ValueExactly | crates/canboat-core/src/bits.rs:119-139 | the number that a pattern stands for, signed, unsigned and with an offset, and the largest value |
| Bits.FilledExactly | crates/canboat-core/src/bits.rs:32-39 | a field reads as if 0xff bytes followed the payload if and only if it ends within the payload |
| Encode.WriteBits | crates/canboat-core/src/encode.rs:699-712 | the writer appends the low bits of the value and nothing else |
| Encode.PgnBuilder.Push | crates/canboat-core/src/encode.rs:258-285 | a staged value replaces that field's only; errors change nothing |
| Encode.PgnBuilder.Build | crates/canboat-core/src/encode.rs:313-358 | the payload is the bits of all fields in turn, filled up with ones to whole bytes, or the first error, or a length mismatch |
| Encode.ScalarReadsBack | crates/canboat-core/src/encode.rs:313-340 | after everything is built, a field reads back as its staged value modulo two to its width, at the bits before it; the length is the bits over 8, rounded up |
| Encode.ScalarMessage | crates/canboat-core/src/encode.rs:313-340 | any fields of at most 64 bits, staged or not, pack; each reads back at the sum of the widths before it as its value modulo two to its width; the length is the total width over 8, rounded up |
| Encode.WidthSumsExactly | crates/canboat-core/src/encode.rs:313-340 | in a message that packs, every field starts at the sum of the declared widths before it if and only if every field keeps its width |
| Encode.OffsetsExactly | crates/canboat-core/src/encode.rs:310-340 | so fields are packed at their schema offsets if and only if every field before them keeps its width |
| Encode.PartByteBinary | crates/canboat-core/src/encode.rs:595-622 | a BINARY field whose width is no number of whole bytes never keeps it, set or unset |
| Encode.ShortfallExactly | crates/canboat-core/src/encode.rs:313-340 | a field is packed before its declared place by exactly the odd bits of the binaries and texts before it |
| Encode.LengthCheckExactly | crates/canboat-core/src/encode.rs:341-358 | a message whose fields have moved passes the length check if and only if the missing bits are at most those that padding the declared width leaves over |
| Encode.CommandedAddressMoves | crates/canboat-core/src/encode.rs:310-358 | every PGN 65240 goes out with all fields after the first five bits early, and passes the length check |
| Encode.StagedKeepsWidth | crates/canboat-core/src/encode.rs:392-410 | a staged value keeps its field's width if and only if the field has whole bytes, or the length-prefixed text happens to be as long as the field |
| Encode.BytesInPlace | crates/canboat-core/src/encode.rs:317-323 | the bytes staged in a field that starts on a byte boundary are bytes of the payload from there on |
| Encode.SignedReadsBack | crates/canboat-core/src/encode.rs:685-712 | a signed value in range survives building and signed extraction |
| Encode.BytesReadBack | crates/canboat-core/src/encode.rs:313-340 | every byte of a staged string or binary reads back in its place |
| BuiltFields.UnsetReadsBack | crates/canboat-core/src/encode.rs:635-682 | in a built payload every number left unset reads back as its match value, nothing if spare, its unknown value, or all ones, in this order, modulo two to its width |
| BuiltFields.BuiltVariantMatches | crates/canboat-core/src/encode.rs:635-640 | a message built with its selectors unset matches its own variant, and receivers pick it or an earlier one that fits |
| BuiltFields.UnsetIsNotAvailable | crates/canboat-core/src/encode.rs:641-682 | a number left unset that has an unknown value decodes as not available |
| BuiltFields.UnsetTextIsNotAvailable | crates/canboat-core/src/encode.rs:648-663 | a text left unset decodes as not available |
| BuiltFields.UnsetErrorExactly | crates/canboat-core/src/encode.rs:664-680 | which unset fields cannot be built |
| BuiltFields.PaddingIsOnes | crates/canboat-core/src/encode.rs:341-347 | the rest of the last byte is ones |
| BuiltFields.StagedExactly | crates/canboat-core/src/encode.rs:392-634 | which values each kind of field takes |
| BuiltFields.BytesStaged | crates/canboat-core/src/encode.rs:595-634 | bytes are staged as they are, with zeros up to the width |
| BuiltFields.TextsStaged | crates/canboat-core/src/encode.rs:504-594 | texts are staged behind their length and encoding, with zeros up to the width |
| BuiltFields.NothingStaged | crates/canboat-core/src/encode.rs:504-634 | nothing is staged as the empty text or no bytes |
| BuiltFields.StageErrorExactly | crates/canboat-core/src/encode.rs:392-634 | why a value is not taken: no width, another kind, too long |
| BuiltFields.NumbersStaged | crates/canboat-core/src/encode.rs:412-503 | integers modulo two to the width, physical numbers as the nearest integer in 64 bits, nothing as an unset field |
| BuiltFields.RoundExactly | crates/canboat-core/src/encode.rs:491-503 | rounding is to the nearest integer, halves away from zero |
| BuiltFields.PacksExactly | crates/canboat-core/src/encode.rs:313-340 | a message packs if and only if every field does, and the first that does not gives the error |
| Decode.Trim | crates/canboat-core/src/decode.rs:1427-1436 | the longest prefix of the raw bytes that does not end in a padding byte |
| Decode.TrimChars | crates/canboat-core/src/decode.rs:1517-1522 | the text without its trailing padding characters: the rest does not end in one, and what is cut is nothing but them |
| Decode.ShownExactly | crates/canboat-core/src/decode.rs:1517-1522 | a text is shown as it is if and only if it does not end in a padding character |
| Decode.TrimsAgree | crates/canboat-core/src/decode.rs:1485-1503 | trimming the bytes first makes no difference to a text without the byte 0xff |
| Decode.DecodeFields | crates/canboat-core/src/decode.rs:564-660 | the field loop computes the walk over fields and sets, and terminates when sets have at least one field |
| Decode.DecodeRepeating | crates/canboat-core/src/decode.rs:685-788 | the iteration loop appends exactly the rounds of the set and moves the cursor past them |
| Decode.RepeatingSetLayout | crates/canboat-core/src/decode.rs:685-788 | for a set of fixed-width numbers: the number of iterations (the rounded-up quotient of the bits left, at most the count), the place of every field of every iteration, and the cursor after them |
| Decode.FittingIsCeiling | crates/canboat-core/src/decode.rs:720-788 | the iterations that start within the payload are the rounded-up quotient |
| RepeatingSets.RepeatCountExactly | crates/canboat-core/src/decode.rs:708-724 | the count is that of the first decoded field of its order, if a number and not negative, in 32 bits; else there is none |
| RepeatingSets.SetInMessage | crates/canboat-core/src/decode.rs:564-788 | a set in a whole message: as many iterations as that count and the payload allow are among the decoded fields, each field in its place, and the walk goes on behind them |
| RepeatingSets.WalkExtends | crates/canboat-core/src/decode.rs:564-660 | what has been decoded stays as it is |
| FieldValues.ConditionalIgnored | crates/canboat-core/src/decode.rs:742-748 | a conditional field in a set changes nothing |
| FieldValues.NumberExactly | crates/canboat-core/src/decode.rs:1041-1082 | a number is unavailable, out of range or reserved exactly by its pattern, else the integer that it stands for, scaled and offset |
| FieldValues.LauExactly | crates/canboat-core/src/decode.rs:1452-1480 | how many bytes a self-delimiting text takes, and which are its body |
| FieldValues.LzExactly | crates/canboat-core/src/decode.rs:1524-1548 | which bytes are the body of a text behind a length byte |
| FieldValues.OpenEndedExactly | crates/canboat-core/src/decode.rs:865-882 | a text or binary without a width takes all whole bytes that are left |
| Codec.LauRoundTrip | crates/canboat-core/src/decode.rs:1452-1515 | any sequence of length-prefixed texts, built and walked, decodes text by text, each without its trailing padding characters, the cursor ending at the end |
| TextFields.LzRoundTrip | crates/canboat-core/src/decode.rs:1524-1556 | any text staged behind a length byte, fixed width or not, decodes in place to the text without its trailing padding characters |
| TextFields.FixRoundTrip | crates/canboat-core/src/decode.rs:1408-1442 | any text staged in a field of fixed width decodes in place to the text up to its first NUL without its trailing padding bytes |
| Codec.EncodeAfterDecode | crates/canboat-core/src/encode.rs:412-503 | encoding the decoded value of any pattern that is not a sentinel gives that pattern |
| Codec.DecodeAfterEncode | crates/canboat-core/src/decode.rs:1041-1082 | a physical value in range decodes to within half a resolution step, offsets forcing the field unsigned |
| NumberFields.MessageRoundTrip | crates/canboat-core/src/decode.rs:564-660 | a message of fields of fixed width, built and walked, decodes field by field at the sums of the widths, numbers to the values of their packed patterns, the cursor ending at the total width |
| NumberFields.MessageRestored | crates/canboat-core/src/encode.rs:412-503 | staging what a message of numbers without sentinels decodes to, and building again, gives the same payload |
| Name.ToU64Injective | crates/canboat-io/src/name.rs:96-109 | two NAMEs pack alike if and only if their fields agree as far as they have room |
| Name.ToU64Exactly | crates/canboat-io/src/name.rs:96-109 | where each field of a NAME lies in the 64 bits |
| Name.PatternsOfName | crates/canboat-io/src/name.rs:96-109 | the ten fields of the little-endian bytes of a packed NAME are its masked fields |
| Name.IsoNameExactly | crates/canboat-core/src/decode.rs:428-451 | the NAME packed from decoded fields is the number in the payload if and only if no field is lost and the spare bit is clear |
| Name.NameAgreement | crates/canboat-core/src/decode.rs:415-427 | receivers compute the sender's NAME if and only if no masked field is a sentinel without a name |
| Name.SystemInstanceLost | crates/canboat-core/src/decode.rs:28-35 | system instance 15 makes every receiver compute another NAME |
| Text.JoinInjective | crates/canboat-core/build.rs:1270-1278 | as many texts, joined by a separator that occurs in none of them, are determined by the result |
| Dispatch.VarNameInjective | crates/canboat-core/build.rs:1270-1278 | different ranges are bound to different names |
| Dispatch.FirstExactly | crates/canboat-core/build.rs:1300-1318 | the recursive search gives the first variant that fits, and none only if none does |
| Dispatch.MeetsExactly | crates/canboat-core/build.rs:1320-1344 | when the payload has the value that a match field asks for |
| Dispatch.EmitPerPgnDispatch | crates/canboat-core/build.rs:1247-1359 | the loops emit one binding per range, one arm per variant with match fields, and the in-PGN fallback |
| Dispatch.BindingsExact | crates/canboat-core/build.rs:1250-1294 | every range that some match field uses is bound, once, and nothing else is |
| Dispatch.DispatchPreservesMeaning | crates/canboat-core/build.rs:1247-1359 | for all variants and payloads, the emitted code compiles and chooses what the linear scan chooses |
| Selection.Generate | crates/canboat-core/build.rs:1148-1208 | the generated program has an arm for every PGN number, direct or by code, and the table of catch-alls |
| Selection.VariantIsEntry | crates/canboat-core/build.rs:1148-1160 | the variants of a number are its entries in the order of their declaration, with their flags and fields |
| Selection.DispatchIsScan | crates/canboat-core/build.rs:1160-1187 | running it is the linear scan over the variants of the number, in declaration order |
| Selection.CatchallIsLargest | crates/canboat-core/build.rs:1212-1228 | the binary search finds the last, and largest, catch-all at or below the number |
| Selection.PickVariantExactly | crates/canboat-core/src/decode.rs:515-528 | a frame is decoded with the choice among its variants, or else with the largest catch-all |
| Selection.DocumentedExactly | crates/canboat-core/src/decode.rs:496-528 | the documented rule is followed if and only if a match decides or none of three situations arises |
| MsbStrings.OrAppends | crates/canboat-bridge/src/n2kd/ais.rs:52-65 | or-ing bits into the free end of a byte appends them |
| Ais.BitVector.constructor | crates/canboat-bridge/src/n2kd/ais.rs:33-38 | a new vector is empty |
| Ais.BitVector.AddInt | crates/canboat-bridge/src/n2kd/ais.rs:45-66 | the low bits of the two's complement of the value are appended, highest first |
| Ais.BitVector.AddString | crates/canboat-bridge/src/n2kd/ais.rs:73-93 | six bits for each character are appended, filled up with zeros |
| Ais.TextReadsBack | crates/canboat-bridge/src/n2kd/ais.rs:68-93 | any text reads back, cut or filled up to the field, with spaces for what cannot be sent |
| AisArmour.ArmourAlphabet | crates/canboat-bridge/src/n2kd/ais.rs:225-235 | which characters carry six bits, in order |
| AisArmour.ArmourBack | crates/canboat-bridge/src/n2kd/ais.rs:225-235 | de-armouring a fragment gives its bits followed by the padding |
| AisSentences.ReadBits | crates/canboat-bridge/src/n2kd/ais.rs:215-223 | the number of the bits from the offset on, highest first |
| AisSentences.ArmourFragment | crates/canboat-bridge/src/n2kd/ais.rs:172-187 | the loop over one fragment produces its characters and its padding |
| AisSentences.AppendAivdm | crates/canboat-bridge/src/n2kd/ais.rs:204-213 | one sentence is appended with the exclusive or of its characters as checksum |
| AisSentences.EmitSentences | crates/canboat-bridge/src/n2kd/ais.rs:149-199 | a receiver of the appended text alone finds the sentences in order, each value in its field, checksums that fit, and the vector in the payloads; the sequence counter moves only for several fragments |
| AisReceiver.ChecksumChecks | crates/canboat-bridge/src/n2kd/ais.rs:204-213 | each bit of the two digits says whether an odd number of the characters have it |
| AisSentences.RecoversContents | crates/canboat-bridge/src/n2kd/ais.rs:160-199 | the payloads carry the vector exactly: at most 60 characters each, padding only at the end |
| AisSentences.AisRoundTrip | crates/canboat-bridge/src/n2kd/ais.rs:45-199 | any fields, added in turn, are recovered from the payloads, each modulo two to its width, in order |
| AisSentences.SentencesSeparable | crates/canboat-bridge/src/n2kd/ais.rs:189-194 | no field of an emitted sentence contains the separator or a line end |
| AisSentences.BodyInjective | crates/canboat-bridge/src/n2kd/ais.rs:189-194 | such a sentence is determined by its text |
| AisSentences.LinesInjective | crates/canboat-bridge/src/n2kd/ais.rs:160-213 | the text of a message determines how many sentences it has and each of them |
| RequestEngine.Engine.NoteDeviceSeen | crates/canboat-bridge/src/n2kd/request_engine.rs:79-90 | the source is seen and the stamp of its kind is set; nothing else changes |
| RequestEngine.Engine.NextDue | crates/canboat-bridge/src/n2kd/request_engine.rs:103-140 | the scan round from the cursor picks, stamps and passes the first due device, or changes nothing |
| RequestEngine.NextIsNearest | crates/canboat-bridge/src/n2kd/request_engine.rs:98-102 | a device is returned if and only if some seen device is due, and it is the nearest round from the cursor |
| RequestEngine.AskedInTime | crates/canboat-bridge/src/n2kd/request_engine.rs:103-140 | in every run, a device due at every call is asked within (device - cursor) mod 256 + 1 calls |
| RequestEngine.RequestsAreSpaced | crates/canboat-bridge/src/n2kd/request_engine.rs:47-49 | in every run with a clock that does not go back, requests of one kind to one device are 300 s apart |
| RequestEngine.AnswersSpareRequests | crates/canboat-bridge/src/n2kd/request_engine.rs:76-90 | what just arrived is not asked for within 300 s |
| RequestHistory.KnowsExactly | crates/canboat-bridge/src/n2kd/request_engine.rs:76-140 | in every run, what is known of a device is whether anything came from it, and when it last answered and was asked |
| RequestHistory.AskExactly | crates/canboat-bridge/src/n2kd/request_engine.rs:98-140 | in every run, a call asks the first device round from the cursor that was heard and neither answered nor was asked within 300 s, and only then moves the cursor, behind it |

## Left out

- Sockets, serial ports, threads, locks, command lines and logging: plumbing around the cores. A scan and the stamp that follows it in the request engine are one step, although the original takes its lock twice.
- The 64-bit wrap-around of ages, deadlines and clocks, and the 32-bit wrap-around of bit cursors: numbers that only count or measure are unbounded.
- ISO requests on the bus: a node may answer at any time, so which request it answers is not tracked.
- The CAN identifiers of the transmit loop and its sequence counter per (pgn, src): the sequence number is a parameter.
- FLOAT fields, IEEE 754 rounding and the rounding of conversions: physical values are real numbers, rounded to the nearest integer where the code rounds.
- Encoding of lookups by label, and the values of the field types other than numbers and texts when decoded: they are placed and advance the cursor, but their presentation is not modelled.
- VARIABLE and DYNAMIC_FIELD fields when decoded: the metadata context that they need is not modelled, and they are skipped.
- UTF-16, and the replacement of bytes that are not UTF-8: a decoded text is the bytes that are to be converted, and trimming characters at its end gives the same before and after; AIS texts are their characters; talker and channel of a sentence are ASCII.
- Encode.PgnBuilder.Push: does not model lookups by label and FLOAT values, because the first needs the lookup tables and the second IEEE 754.
- Decode.DecodeFields: does not decode VARIABLE and DYNAMIC_FIELD_VALUE fields, because their width and type come from other PGNs' metadata; it skips them.
- Bits.Gather: combines the chunks by addition where the original uses a bitwise or, because the chunks do not overlap.
- Name.ToU64Injective: the packed NAME is a sum of shifted fields where the original uses a bitwise or, because the masked fields do not overlap.
- Name.IsoNameExactly: the lookup tables are a parameter, the set of fields whose pattern a table names.
- AisSentences.EmitSentences: the encoders of the single AIS message types are not modelled, only what they call.
- Ais.BitVector.AddInt: requires room in the 226 bytes and a width of at most 64 bits; beyond them the original stops with an index or shift error.
- Selection.CatchallIsLargest: requires the catch-alls to be declared in ascending order, which the build script takes from the database; the binary search of the standard library is its result on such a table.
- Dispatch.EmitPerPgnDispatch: the emitted text is its syntax tree; the branch for a condition without terms, which cannot occur, is not modelled.
- The spacing of one second between any two requests, and the second request that goes with product information: both are in the thread loop, not in the engine.
- Text formats, postcard framing, JSON, NMEA 0183 conversion and filters: presentation around the cores.
