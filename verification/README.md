# Verified model of the gawk streaming relay and its clients

gawk carries live broadcasts from publishers through a fleet of relays to browsers. This project models the parts of it
whose correctness is hardest to see by reading, and proves what they promise, for every input and for every
interleaving. `dafny verify dfyconfig.toml` checks the whole project.

What is modelled, by module:

- **Forward parity.** `Bytes`, `GaloisField`, `Parity`, `ParityCode`, `ParitySolve`, `ParityRecovery`: the tables over
  GF(2^8), the P and Q symbols of a frame's chunks and the in-place repair of one or two lost ones; `ParityLaws` says
  when it goes ahead. `Delta` and `DeltaSender` add the cutting of access units into datagrams, the MTU retry and the
  spread over stripe legs, `DeltaLaws` what an attempt comes to by the relay's answers.
- **The ban list.** `Addresses` (canonical addresses and prefixes as bit strings), `BanTrie` and `BanTrieLaws` (the
  patricia trie as a value and its laws), `TrieNodes` (the linked nodes changed in place), `BanSet` (the set of bans and
  its three changing operations, against plain maps), `BanSetLaws` (what is held for a target after any changes).
- **The H.264 reader.** `AnnexB`, `SliceReader`, `AccessUnit`: start codes, emulation prevention, exp-Golomb codes and
  slice types, against an encoder written as their specification.
- **The publisher session.** `Lifecycle`, `LifecycleSafety`, `LifecycleCodes`, `LifecycleDial`, `Fleet`: supervisor,
  pump, any number of stop calls and the relay as interleaved steps, and then any number of engines on one code.
  `PublisherSession` holds the fields the steps change. `LifecycleCloseCodes` and `LifecycleDelivery` say by the events
  of a run which close codes are final, which stop decides and what becomes of it. The runs begin where Start has
  returned nil.
- **The keyframe slot.** `KeyframeSlot` and, for the fields, `KeyframeSender`: the pump, one writer per keyframe stream,
  relay swaps and the final wait; `KeyframeCounts` and `KeyframeCancels` read counters and cancellations off the events.
- **Screening.** `Screening` (the ring and its hysteresis), `Replay`, `ScreeningLaws` (every answer by the scores alone),
  `SampleBatches` (validation and numbering of stored samples).
- **Wire messages.** `WireFields`, `RoomItems`, `RoomState`, `RoomMessages` (layouts as functions in both directions),
  `RoomLayouts` (where each byte stands), `RoomRecords` (framing), `RoomReader`, `RoomParsing`, `RoomAppending` (the
  cursor, the parsers and the appenders), `LocalRelay`, `LocalRelayOffer`, `LocalRelayLayouts`, `LocalRelayParsing`.
  `RoomText`, `RoomLimits` and `LocalRelayLimits` say by number and grammar what is accepted.
- **Rate floors, clock, room attach, browser session.** `Limiter` and `LimiterExact`, `KeyFetches` and
  `KeyFetchLaws`, `TimeSync`, `AttachLatch`, `AttachLaws` and `AttachOverlap`, `OidcSession` and `OidcLaws`.

A method that the source runs step by step is a method here, proved against a function; a protocol is a state machine
whose theorems quantify over all event sequences, and the class beside it shows that each locked region of the source is
one of its steps.

In the wire messages, a decoder's `strict` argument is not the program's: with it on, a reading also refuses a broadcast
ID that is not in canonical form already, which is how the exact condition for byte-for-byte re-encoding is stated. The
program's parsers are the readings with `strict` off.

Where the code differs from what its documentation or comments say, the model follows the code:

- A keyframe that was superseded and whose write then fails is counted as failed too
  (gawk-server/publisher/send.go:474-480 says it is not). The conservation law is stated with that count.
- A deposed engine can dial again when a StopBroadcast call overlaps another stop call: the one that lost the teardown
  may pass the wait group and start its delivery while the other is still about to close the session
  (gawk-server/publisher/engine.go:978-1014). The promise holds exactly when no StopBroadcast call overlaps another stop
  call, however many plain Stop calls overlap; the bound on takeovers holds exactly then too. Both are proved as
  equivalences (`LifecycleDial.StaysDownIffApart`, `Fleet.ConvergeIffApart`).
- An emulation-prevention byte can be the third byte of an SPS payload, not the fourth at the earliest
  (gawk-server/publisher/sps.go:22-27), so the codec bytes are read wrongly for a zero profile and zero flags with a
  level below 3. `AccessUnit.RawCodecBytes` gives the exact condition for a payload and
  `AccessUnit.CodecStringDetected` for a whole access unit.
- A voice URL that is not UTF-8 is appended and then refused by every parser (gawk-server/wire/room.go:884-894, 959-966).
- A room stream cut right after a record header reads as a clean end (gawk-server/publisher/room.go:799-815).
- A failed attach write reopens the latch for any later call, not only for the next generation
  (gawk-server/publisher/room.go:766-771); and since the write is separate from the check, an Attach can land on a later
  connection before its snapshot. `AttachOverlap` gives the exact conditions: too early only if a connection is made while
  a write is due, twice only if a write fails after its generation has passed, missed only if one comes to nothing within its own.
- A login redirect already under way survives a sign-out (common-ts/oidc-session/session.ts:342-378): a redirect can
  follow a sign-out, with no new call or sign-in, exactly when a login was under way. Entering one from a fallback after
  the sign-out is prevented.

## Model

| member | source | states |
|---|---|---|
| `GaloisField.Tables.constructor` | gawk-server/wire/parity.go:100-116 | the table-filling loops leave exp[k] = g^k for all 512 entries and log as its inverse on 1..255 |
| `GaloisField.Tables.FillCycle` | gawk-server/wire/parity.go:101-111 | the first loop fills one whole period and every log entry |
| `GaloisField.Tables.RepeatCycle` | gawk-server/wire/parity.go:113-115 | the second loop extends the powers so that sums of logs need no modulo |
| `GaloisField.Tables.Mul` | gawk-server/wire/parity.go:118-123 | table multiplication is polynomial multiplication modulo 0x11D, for every pair of bytes including zero |
| `GaloisField.Tables.Div` | gawk-server/wire/parity.go:125-133 | division is the inverse of that multiplication |
| `GaloisField.Tables.Pow2` | gawk-server/wire/parity.go:136-136 | the coefficient of chunk i is g^i for every i, not only those below 255 |
| `GaloisField.ExpInjective` | gawk-server/wire/parity.go:43-50 | the 255 coefficients are pairwise different, which is what makes two erasures solvable |
| `GaloisField.LogExists` | gawk-server/wire/parity.go:93-116 | every non-zero byte is a power of the generator |
| `GaloisField.PolyMulComm` | gawk-server/wire/parity.go:118-123 | multiplication modulo 0x11D is commutative |
| `GaloisField.PolyMulAssoc` | gawk-server/wire/parity.go:118-123 | it is associative |
| `GaloisField.PolyMulDistributes` | gawk-server/wire/parity.go:118-123 | it distributes over XOR |
| `GaloisField.PolyMulCancel` | gawk-server/wire/parity.go:125-133 | there are no zero divisors |
| `ParityCode.XorInto` | gawk-server/wire/parity.go:170-176 | the P row accumulates by XOR in place, ragged rows reading as zero past their end |
| `ParityCode.XorScaledInto` | gawk-server/wire/parity.go:180-188 | the Q row accumulates the scaled chunk in place |
| `ParityCode.ComputeParity` | gawk-server/wire/parity.go:143-188 | P is the XOR of the columns and Q their g^i-weighted sum, with the same refusals as the source |
| `Parity.LowerLevelIsPrefix` | gawk-server/wire/parity.go:138-160 | the symbols of level k are a prefix of those of any higher level, and there are min(k, n) of them |
| `Parity.OneErasureUnique` | gawk-server/wire/parity.go:286-316 | one unknown byte in a column is determined by either symbol |
| `Parity.TwoErasuresUnique` | gawk-server/wire/parity.go:318-350 | two unknown bytes are determined by both symbols together, for every pair of positions in up to 255 chunks |
| `ParitySolve.SolveOne` | gawk-server/wire/parity.go:286-316 | the one-erasure solve yields the row that makes the symbol used come out right |
| `ParitySolve.SolveTwo` | gawk-server/wire/parity.go:318-350 | the two-erasure solve yields rows that make both symbols come out right; its collision branch is unreachable |
| `ParityRecovery.RecoverChunks` | gawk-server/wire/parity.go:204-364 | on any refusal the slots are untouched; otherwise only missing ones are filled; and whenever at most as many chunks are missing as symbols survive, the slots are exactly the original chunks |
| `ParityRecovery.RoundTrip` | gawk-server/wire/parity.go:190-364 | for every ragged frame of up to 255 chunks and every loss within the surviving symbols, recovery is not refused and gives back the original, short last chunk included |
| `ParityLaws.RecoversIff` | gawk-server/wire/parity.go:204-364 | recovery goes ahead exactly for 1 to 255 chunks when nothing is lost, or when no more is lost than symbols arrived, these are equally wide, and what arrived are pieces of some frame of the announced size cut at that width |
| `ParityLaws.UnrecoverableIff` | gawk-server/wire/parity.go:204-364 | and it answers that too much was lost exactly when more is missing than symbols arrived, or they are empty |
| `ParityLaws.SymbolsRefusedIff` | gawk-server/wire/parity.go:143-188 | parity is refused for a level other than 0, 1 and 2, and above 0 for more than 255 chunks or one longer than 1180 bytes |
| `Delta.Chunk` | gawk-server/publisher/send.go:576-602 | the pieces concatenate to the unit, all of the budget except the last; refused exactly past the chunk limit |
| `Delta.CutIsRagged` | gawk-server/publisher/send.go:576-602 | the pieces are the shape parity covers and the frame length is the unit's |
| `DeltaSender.ChunkWithParity` | gawk-server/publisher/send.go:616-652 | a frame parity cannot cover still ships; one it can cover, the empty one included, carries exactly min(level, n) symbols, each as long as the longest chunk |
| `DeltaSender.Sender.ShrinkChunk` | gawk-server/publisher/send.go:565-572 | the budget only shrinks, to what the path answered, and stays at least one |
| `DeltaSender.Sender.Attempt` | gawk-server/publisher/send.go:505-551 | one attempt stops at the first refused datagram; parity trails a frame that went out whole, and a refused parity datagram only ends the parity; all four traffic counters move by what went out |
| `DeltaSender.Sender.SendParity` | gawk-server/publisher/send.go:527-544 | parity goes out up to its first refusal, each datagram counted with its header |
| `DeltaSender.WholeFrameCosts` | gawk-server/publisher/send.go:511-526 | a frame that goes out whole costs its own bytes and one header a chunk |
| `DeltaSender.Sender.SendDelta` | gawk-server/publisher/send.go:497-560 | at most two attempts, the second only after a shrink; exactly one of sent and dropped moves, and the traffic counters by both attempts |
| `DeltaSender.ShrunkDatagramsFit` | gawk-server/publisher/send.go:562-572 | after a shrink every datagram fits the size the path answered |
| `DeltaLaws.OutcomeIff` | gawk-server/publisher/send.go:505-551 | an attempt is unsendable for a unit longer than 3000 full chunks; otherwise it is complete exactly if the relay accepts every chunk, and refused at the first one it does not |
| `DeltaLaws.SentIs` | gawk-server/publisher/send.go:505-551 | what an attempt adds to the counters, by the relay's answers: 20 bytes and the payload of each chunk up to the first refused, and behind a whole frame 13 bytes and the width of each symbol up to the first refused |
| `DeltaLaws.ShrinksIff` | gawk-server/publisher/send.go:565-572 | the budget becomes b exactly on a too-large answer of b + 20 bytes with b at least 1 and less than before |
| `Delta.AnyLossRepaired` | gawk-server/publisher/send.go:576-652 | losing any min(k, n) of the n+k datagrams never makes recovery refuse, and the repaired chunks join to the access unit |
| `Delta.LegsBalanced` | gawk-server/wire/stripe.go:112-117 | legs take the ordinals evenly: loads differ by at most one and never exceed the ceiling |
| `Delta.LegsPartition` | gawk-server/wire/stripe.go:112-117 | each datagram is on one leg, and the legs together carry all of them |
| `Delta.LegLoadExact` | gawk-server/wire/stripe.go:112-117 | exactly how many of the ordinals each leg carries |
| `Delta.LostLegRepaired` | gawk-server/wire/stripe.go:109-117 | with a whole leg lost and at most as many datagrams on it as there are symbols, recovery does not refuse and rebuilds the access unit |
| `Addresses.CanonicalAddr` | gawk-server/moderation/moderation.go:152-154 | zone stripped and v4-mapped collapsed; the result is its own canonical form |
| `Addresses.MappedIsV4` | gawk-server/moderation/moderation.go:152-154 | a v4-mapped address, whatever its zone, is looked up as the v4 address in it |
| `Addresses.ParsePrintRoundTrip` | gawk-server/moderation/moderation.go:120-147 | a canonical prefix printed and parsed again is itself, so no stored prefix is v4-mapped |
| `Addresses.MappedMaskIsLong` | gawk-server/moderation/moderation.go:139-145 | a masked prefix that still reads v4-mapped is at least /96, so subtracting 96 is safe |
| `Addresses.HostBanCovers` | gawk-server/moderation/moderation.go:120-147 | a ban on one address covers exactly the addresses with the same canonical form |
| `Addresses.NetworkBanCovers` | gawk-server/moderation/moderation.go:120-147 | a network ban covers exactly the peers of its own family that agree with it in its leading bits; one over at least 96 bits of a v4-mapped address covers v4 peers |
| `BanSet.NormalizeIdempotent` | gawk-server/moderation/moderation.go:96-114 | normalizing a target twice is normalizing it once |
| `BanTrie.GlueSplits` | gawk-server/moderation/set.go:227-235 | two unrelated prefixes share a strictly shorter one and leave it on different sides |
| `BanTrie.InsertWellFormed` | gawk-server/moderation/set.go:237-274 | insertion keeps every record-less node forking and every child strictly below its parent at the indexed bit |
| `BanTrie.InsertContents` | gawk-server/moderation/set.go:237-274 | insertion is the update of the prefix-to-record map |
| `BanTrie.DeleteWellFormed` | gawk-server/moderation/set.go:276-303 | deletion keeps the same shape rules, pruning leaves and glue |
| `BanTrie.DeleteContents` | gawk-server/moderation/set.go:276-303 | deletion removes exactly the key, present or not |
| `BanTrieLaws.LookupIsBestMatch` | gawk-server/moderation/set.go:305-324 | lookup gives the unexpired record with the longest containing prefix that a scan of the map gives, or none |
| `BanTrieLaws.BestMatchUnique` | gawk-server/moderation/set.go:305-324 | there is only one such record |
| `BanTrieLaws.Canonical` | gawk-server/moderation/set.go:199-206 | two well-formed tries holding the same records are the same trie |
| `BanTrieLaws.InsertThenDelete` | gawk-server/moderation/set.go:237-303 | deleting a just-inserted absent prefix restores the trie |
| `BanTrieLaws.NodeBound` | gawk-server/moderation/set.go:199-206 | at most twice the records minus one nodes |
| `BanTrieLaws.CountActiveIsExact` | gawk-server/moderation/set.go:326-335 | the walk counts every unexpired record once |
| `TrieNodes.TrieInsert` | gawk-server/moderation/set.go:237-274 | the in-place insertion of linked nodes is Insert on the tree they hold |
| `TrieNodes.InsertAbove` | gawk-server/moderation/set.go:253-273 | the new parent, or the new glue node over both |
| `TrieNodes.TrieDelete` | gawk-server/moderation/set.go:276-303 | the in-place deletion is Delete on the tree, and allocates nothing |
| `TrieNodes.TrieLookup` | gawk-server/moderation/set.go:305-324 | the loop gives the best match of the tree's contents |
| `TrieNodes.CountNodes` | gawk-server/moderation/set.go:326-335 | the recursive walk counts the unexpired records |
| `BanSet.Set.Upsert` | gawk-server/moderation/set.go:78-103 | the list becomes the old one with the record put under its canonical key; refused and unchanged when the target does not normalize |
| `BanSet.Set.Replace` | gawk-server/moderation/set.go:44-73 | the list becomes exactly the normalizable records, the last of each key winning |
| `BanSet.Set.Remove` | gawk-server/moderation/set.go:107-132 | exactly the target's record goes |
| `BanSet.Set.BannedID` | gawk-server/moderation/set.go:137-148 | the record under the ID if it is unexpired |
| `BanSet.Set.BannedIP` | gawk-server/moderation/set.go:154-167 | the longest unexpired match of the canonical address in the family's list; none for the invalid address |
| `BanSet.Set.ActiveCounts` | gawk-server/moderation/set.go:172-197 | the unexpired records by broadcast ID, and by IP in both families |
| `BanSet.Build` | gawk-server/moderation/set.go:44-70 | the list a reload swaps in holds the records and nothing of the old one |
| `BanSet.SameBansSameShape` | gawk-server/moderation/set.go:199-206 | two sets with the same bans have structurally identical tries, whatever history built them |
| `BanSetLaws.NormalizesIff` | gawk-server/internal/broadcastid/broadcastid.go:41-53 | a text names a broadcast ID exactly when it types its six characters of the alphabet, small or capital |
| `BanSetLaws.HeldAfterPut` | gawk-server/moderation/set.go:78-103 | after an upsert the record, canonical, is held for every target that names the same thing, and what is held for any other stays |
| `BanSetLaws.HeldAfterDrop` | gawk-server/moderation/set.go:107-132 | after a removal nothing is held for any target that names the same thing, and what is held for any other stays |
| `BanSetLaws.LastWins` | gawk-server/moderation/set.go:44-73 | after a load, what is held for any target is the last record that names it, or nothing if none does |
| `AnnexB.AnnexBNals` | gawk-server/publisher/sps.go:154-183 | the iterator yields what lies between start codes with its trailing zeros trimmed, an all-zero stretch as an empty unit; only an empty remainder at the end of the buffer is dropped |
| `AnnexB.TrimTrailingZeros` | gawk-server/publisher/sps.go:187-192 | everything up to the last non-zero byte |
| `AnnexB.NalsOfStream` | gawk-server/publisher/sps.go:144-192 | for any mix of three- and four-byte start codes and any padding, exactly the written units come back |
| `SliceReader.UnescapeRBSP` | gawk-server/publisher/sps.go:91-107 | the loop removes each third byte 3 after two zeros |
| `SliceReader.UnescapeEscape` | gawk-server/publisher/sps.go:86-107 | emulation prevention (section 7.4.1 of ITU-T H.264) is undone for every payload |
| `SliceReader.FormatBytes` | gawk-server/publisher/sps.go:91-108 | the prevention byte is the value 3, and it goes in front of the values 0 to 3 |
| `SliceReader.BitsOfIs` | gawk-server/publisher/sps.go:115-123 | bit k of byte i is read at position 8i + k, most significant first |
| `SliceReader.EscapedIsNal` | gawk-server/publisher/sps.go:86-107 | an escaped payload contains no start code and does not end in zero |
| `SliceReader.BitReader.Bit` | gawk-server/publisher/sps.go:115-122 | the bit at the position, most significant first, and the position moves by one |
| `SliceReader.BitReader.Ue` | gawk-server/publisher/sps.go:125-149 | the exp-Golomb value at the position, with the refusal past 31 leading zeros, in 32-bit arithmetic |
| `SliceReader.UeFits` | gawk-server/publisher/sps.go:124-149 | no accepted code overflows 32 bits |
| `SliceReader.UeRoundTrip` | gawk-server/publisher/sps.go:125-149 | every value up to 2^32-2 written as ue(v) (section 9.1) is read back, and the position lands after it |
| `SliceReader.UeIff` | gawk-server/publisher/sps.go:125-149 | the reader accepts exactly the codes of the values up to 2^32-2 and ends behind the code it read; anything else is refused |
| `AccessUnit.SliceType` | gawk-server/publisher/sps.go:78-84 | slice_type is the second code of the unescaped body |
| `AccessUnit.NalTypeIs` | gawk-server/publisher/sps.go:30-30 | the type of a NAL is its first byte modulo 32 |
| `AccessUnit.HasBSlices` | gawk-server/publisher/sps.go:59-72 | true exactly when some NAL of the unit is a slice with a B slice_type; AccessUnit.BSlicesDetected says it is right |
| `AccessUnit.HasIDR` | gawk-server/publisher/sps.go:41-48 | true exactly when some NAL of the unit has type 5 |
| `AccessUnit.IdrDetected` | gawk-server/publisher/sps.go:41-48 | over every encoded access unit, true exactly when a unit of nal_unit_type 5 was written |
| `AccessUnit.ParseCodecString` | gawk-server/publisher/sps.go:28-36 | the avc1 string of the three bytes after the header of the first SPS of at least four bytes, none if there is none |
| `AccessUnit.CodecStringIs` | gawk-server/publisher/sps.go:28-36 | the string is avc1. and the three bytes in upper-case hexadecimal, two digits each |
| `AccessUnit.CodecStringInjective` | gawk-server/publisher/sps.go:32-34 | two codecs with the same string are the same three bytes |
| `AccessUnit.CodecStringDetected` | gawk-server/publisher/sps.go:16-38 | for every encoded access unit: no SPS, no string; otherwise the string is that of the first SPS's own first three payload bytes exactly when no prevention byte falls among them |
| `AccessUnit.CodedRoundTrip` | gawk-server/publisher/sps.go:50-84 | the slice type written by an encoder is the one read, and a unit counts as B exactly when it was one |
| `AccessUnit.BSlicesDetected` | gawk-server/publisher/sps.go:59-72 | in every encoded access unit a B slice is reported exactly when one was written |
| `AccessUnit.RawCodecBytes` | gawk-server/publisher/sps.go:16-38 | reading the codec bytes without unescaping is right exactly when no prevention byte falls among them |
| `LifecycleSafety.NextKeepsInv` | gawk-server/publisher/engine.go:946-1084 | every step of the supervisor, the pump, the stop calls and the relay keeps the ownership of each dialled session |
| `LifecycleSafety.AllEndedAfterStops` | gawk-server/publisher/resume.go:57-126 | once every stop call has returned, every session ever dialled has ended, a late reclaim included, and OnEnded fired exactly once |
| `LifecycleDial.StaysDownIffApart` | gawk-server/publisher/engine.go:986-1020 | an engine whose current session ended with 4000, 4004 or 4006 never dials again, in every run, if and only if no StopBroadcast call overlaps another stop call; any number of plain Stop calls may overlap |
| `LifecycleDial.ApartStaysDown` | gawk-server/publisher/resume.go:211-234 | kept apart like that, neither the supervisor nor a stop delivery dials after a terminal close |
| `LifecycleCloseCodes.KeptDownIff` | gawk-server/publisher/resume.go:226-234 | with stop calls kept apart, an engine whose session ended with a code dials no more, in every run, if and only if the code is 4000, 4004 or 4006; after any other code and after an abrupt end some run dials |
| `LifecycleDelivery.FirstStopDecides` | gawk-server/publisher/engine.go:959-973 | a session is stopped once a teardown has begun, and it ends with 4014 exactly if a StopBroadcast call came before any teardown, with 0 otherwise |
| `LifecycleDelivery.DeliveredIff` | gawk-server/publisher/engine.go:1055-1067 | a stop counts as delivered exactly once a teardown found the session alive, or a reclaim was answered after the stop |
| `LifecycleDelivery.StopsAreDelivered` | gawk-server/publisher/engine.go:986-1020 | in every run, a StopBroadcast call whose 4014 is in force ends only once it was delivered, or the relay ended the session with 4000, 4004 or 4006, or the call dialled to deliver it or had to give up; and no loop ends before a stop |
| `LifecycleDial.OverlapDials` | gawk-server/publisher/engine.go:986-1014 | wherever one StopBroadcast call may overlap one other stop call, a run in which a deposed engine goes on to dial |
| `LifecycleCodes.OneCodeForAll` | gawk-server/publisher/engine.go:1022-1069 | where only the engine ends sessions, every session it ended carries one code: 0, or 4014 if a StopBroadcast call was made |
| `Fleet.SupersededStays` | gawk-server/publisher/resume.go:211-234 | an engine that observed 4004 stays superseded in every step |
| `Fleet.TakeoversConverge` | gawk-server/publisher/resume.go:211-225 | among N engines on one code at most N-1 ever observe 4004 in a run whose StopBroadcast calls overlap no other stop call, and none that did is about to dial |
| `Fleet.ConvergeIffApart` | gawk-server/publisher/resume.go:211-225 | for any number of engines the bound on those that ever observe 4004 holds in every run if and only if the stop calls are kept apart like that |
| `PublisherSession.Session.StopBroadcastPreamble` | gawk-server/publisher/engine.go:960-965 | the stop's close code is taken only by the first stop |
| `PublisherSession.Session.TeardownEnter` | gawk-server/publisher/engine.go:1026-1033 | only the first caller tears down |
| `PublisherSession.Session.TeardownMark` | gawk-server/publisher/engine.go:1060-1064 | the stop counts as delivered only on a session that still stands |
| `PublisherSession.Session.AdoptReclaimed` | gawk-server/publisher/resume.go:82-93 | a reclaimed session is installed, or handed back to be closed if a stop came first |
| `PublisherSession.Session.DeliverStopDue` | gawk-server/publisher/engine.go:987-994 | whether a stop is still owed |
| `PublisherSession.Session.EndedOnce` | gawk-server/publisher/engine.go:1081-1084 | OnEnded fires for the first caller only |
| `KeyframeSlot.NextKeepsInv` | gawk-server/publisher/send.go:431-488 | every step of the pump, the writers, setRelay and wait keeps the slot, the counters and the wait group in line |
| `KeyframeSlot.AtMostOneInFlight` | gawk-server/publisher/send.go:161-175 | a keyframe stream with a live writer that is neither cancelled nor held by a setRelay is the one in the slot |
| `KeyframeSlot.QuietAfterWait` | gawk-server/publisher/send.go:703-708 | once wait returns no writer runs, and none ever starts |
| `KeyframeSlot.FramesConserved` | gawk-server/publisher/send.go:177-214 | encoded = sent + dropped + failed + in progress, keyframes likewise, and frame IDs are consecutive modulo 2^32 |
| `KeyframeCounts.CountersExact` | gawk-server/publisher/send.go:402-560 | in every run each counter is a number of events: keyframes sent are the counted writes that ended well, failed ones are those that did not, were refused or abandoned, frames sent and dropped are these and the deltas, and superseded ones are the accepted registrations that found the slot taken |
| `KeyframeCancels.CancelledIff` | gawk-server/publisher/send.go:431-472 | in every run a keyframe stream is cancelled exactly if a newer keyframe found it in the slot, a setRelay took it from there and came to cancel it, or the sender was closed before it registered; and the slot holds the stream registered last unless its writer or a setRelay emptied it since |
| `KeyframeSender.Sender.Send` | gawk-server/publisher/send.go:178-214 | the frame takes the next ID and is counted |
| `KeyframeSender.Sender.Register` | gawk-server/publisher/send.go:431-454 | a closed sender refuses; otherwise the old occupant is cancelled, counted and replaced |
| `KeyframeSender.Sender.ClearSlot` | gawk-server/publisher/send.go:468-472 | a writer empties the slot only if it is still its own |
| `KeyframeSender.Sender.CountWrite` | gawk-server/publisher/send.go:474-487 | a failed write counts as failed even when it was superseded |
| `KeyframeSender.Sender.TakeSlot` | gawk-server/publisher/send.go:167-174 | setRelay empties the slot and keeps what was in it to cancel |
| `KeyframeSender.Sender.Close` | gawk-server/publisher/send.go:703-706 | closing comes before the wait |
| `Screening.Window.Observe` | gawk-server/screening/window.go:62-78 | after every observation the window has tripped or cleared as the whole history of scores says |
| `ScreeningLaws.AnswersExact` | gawk-server/screening/window.go:62-78 | an answer is Cleared exactly if the window stood tripped and the last size scores all exist and are below the threshold, and Tripped exactly if it did not and at least hits of the last min(n, size) reach it; standing tripped means a Tripped with no Cleared since |
| `ScreeningLaws.EpisodesExact` | gawk-server/screening/window.go:135-170 | the episodes of a session are its trips, one each, with the time of the trip and the highest score up to the next clearing |
| `Screening.Window.Record` | gawk-server/screening/window.go:62-67 | the ring holds exactly the last min(n, size) scores |
| `Screening.Window.Hits` | gawk-server/screening/window.go:87-95 | the hits among those scores |
| `Screening.Window.Scores` | gawk-server/screening/window.go:98-105 | those scores, oldest first |
| `Screening.TripLandsOnHit` | gawk-server/screening/window.go:62-79 | a window trips only on a sample at or above the threshold |
| `Replay.ReplaySession` | gawk-server/screening/window.go:141-170 | the replay loop finds the episodes of the stored samples with zeros in between |
| `Replay.ReplayIsExact` | gawk-server/screening/window.go:135-170 | over any stored subset that keeps every sample at or above the threshold, the same trips and peaks as over all samples |
| `SampleBatches.ValidateReports` | gawk-server/screening/samples.go:120-183 | the sessions of a batch are accepted exactly when each is in order, no epoch repeats and the samples stay within the limit |
| `SampleBatches.ValidateSamples` | gawk-server/screening/samples.go:141-181 | the samples of a session are accepted exactly when their positions are strictly ascending from 1 and within taken, each has a time, and each scores the labels with one at or above the floor |
| `SampleBatches.ValidateScores` | gawk-server/screening/samples.go:162-181 | the walk over a sample's scores, in any order |
| `SampleBatches.ScoresCoverLabels` | gawk-server/screening/samples.go:162-169 | with distinct labels, an accepted sample scores every label once and no other |
| `SampleBatches.SampledIsAccepted` | gawk-server/screening/samples.go:33-36 | what a sampler sends of a session by the floor rule is accepted |
| `SampleBatches.SentIff` | gawk-server/screening/samples.go:33-36 | and its positions are exactly those of the frames on which some label reaches the floor |
| `SampleBatches.StoreIsFaithful` | gawk-server/screening/samples.go:16-25 | numbered count-before plus position, stored samples are strictly ascending, within what was taken, and each names its sample |
| `SampleBatches.StoredReplayIsExact` | gawk-server/screening/samples.go:16-25 | so replaying what validated batches stored is exact for every threshold at or above the floor |
| `RoomReader.Cursor.Bytes8` | gawk-server/wire/room.go:535-551 | the cursor's length-prefixed read is the field reader's, and its first failure sticks |
| `RoomReader.Cursor.Str8` | gawk-server/wire/room.go:573-583 | the same with UTF-8 checked |
| `RoomReader.Cursor.BroadcastID` | gawk-server/wire/room.go:586-597 | the same with the ID normalized |
| `RoomReader.Cursor.ReadAttachment` | gawk-server/wire/room.go:659-670 | a failure inside latches; otherwise the attachment the layout says, and the cursor after it |
| `RoomReader.Cursor.ReadParticipant` | gawk-server/wire/room.go:688-702 | the same for a participant |
| `RoomReader.Cursor.Done` | gawk-server/wire/room.go:600-608 | accepted exactly when nothing failed and nothing is left |
| `RoomParsing.ParseHello` | gawk-server/wire/room.go:723-746 | the parser is the layout's decoding, with the same error for every malformed message |
| `RoomParsing.ParseState` | gawk-server/wire/room.go:809-856 | the same, through two nested lists |
| `RoomParsing.ParseEvent` | gawk-server/wire/room.go:935-1003 | the same, for all ten kinds and the unknown ones |
| `RoomParsing.ParseCommand` | gawk-server/wire/room.go:1040-1068 | the same, for all six kinds and the unknown ones |
| `RoomAppending.AppendRoomHello` | gawk-server/wire/room.go:707-719 | the appender extends the destination by the layout's encoding, or refuses exactly what it must |
| `RoomAppending.AppendRoomState` | gawk-server/wire/room.go:751-803 | the same; the size limit is on the whole destination |
| `RoomAppending.AppendRoomEvent` | gawk-server/wire/room.go:863-929 | the same for events |
| `RoomAppending.AppendRoomCommand` | gawk-server/wire/room.go:1008-1035 | the same for commands |
| `RoomState.HelloRoundTrip` | gawk-server/wire/room.go:706-746 | the parser accepts exactly the appender's messages, and undoes them |
| `RoomState.StateRoundTrip` | gawk-server/wire/room.go:750-856 | parsing undoes appending for every state the appender accepts, IDs normalized |
| `RoomState.StateRewrites` | gawk-server/wire/room.go:750-856 | an accepted message re-encodes to the same length and the same state, and to the same bytes exactly when its IDs were canonical |
| `RoomMessages.EventRoundTrip` | gawk-server/wire/room.go:860-1003 | parsing undoes appending exactly when a voice URL is UTF-8; any other is appended and then refused |
| `RoomMessages.EventRewrites` | gawk-server/wire/room.go:931-1003 | appending undoes parsing, as for states |
| `RoomMessages.UnknownEventsAreSkippable` | gawk-server/wire/room.go:996-998 | an unknown kind, and nothing else, is reported as one, with the sequence number it stands at |
| `RoomMessages.CommandRoundTrip` | gawk-server/wire/room.go:1007-1068 | parsing undoes appending for every accepted command |
| `RoomMessages.CommandRewrites` | gawk-server/wire/room.go:1037-1068 | appending undoes parsing, as for states |
| `RoomItems.AttachmentReads` | gawk-server/wire/room.go:643-670 | an attachment put in front of anything is read back, ID normalized |
| `RoomItems.ParticipantReads` | gawk-server/wire/room.go:672-702 | a participant likewise |
| `RoomItems.VoiceUserReads` | gawk-server/wire/room.go:904-917 | a voice user likewise |
| `RoomLayouts.HelloLayout` | gawk-server/wire/room.go:29-34 | where each field of a RoomHello stands, byte by byte |
| `RoomLayouts.StateLayout` | gawk-server/wire/room.go:36-52 | the same for a RoomState, down to its two counted lists |
| `RoomLayouts.AttachmentLayout` | gawk-server/wire/room.go:54-56 | the same for an attachment record |
| `RoomLayouts.ParticipantLayout` | gawk-server/wire/room.go:57-60 | the same for a participant record |
| `RoomLayouts.VoiceUserLayout` | gawk-server/wire/room.go:83-86 | the same for a voice roster entry |
| `RoomLayouts.EventLayout` | gawk-server/wire/room.go:62-81 | behind what was there before, an appended RoomEvent has its number at 2, its kind at 6 and from 7 on every field of each of the ten kinds |
| `RoomLayouts.CommandLayout` | gawk-server/wire/room.go:95-103 | the same for a RoomCommand of each kind |
| `RoomLayouts.U32IsBigEndian` | gawk-server/wire/room.go:521-532 | a four-byte number is written most significant byte first |
| `RoomRecords.FramesReadBack` | gawk-server/publisher/room.go:801-815 | framed messages followed by anything read back as those messages and then what follows |
| `RoomRecords.AppendedReadsBack` | gawk-server/wire/room.go:457-463 | appending a record to a stream of records makes it the stream with one more message, and refuses only what does not fit |
| `RoomRecords.CleanStreams` | gawk-server/publisher/room.go:799-815 | a stream ends cleanly with given messages exactly when it is their frames, with or without one more header after them |
| `RoomRecords.EventStreamRoundTrip` | gawk-server/wire/room.go:454-477 | a concatenation of framed events decodes to exactly those events in order |
| `RoomText.TextIff` | gawk-server/wire/room.go:573-583 | a text is accepted exactly when it is the UTF-8 encoding of some sequence of Unicode scalar values |
| `RoomText.NormalizesIff` | gawk-server/internal/broadcastid/broadcastid.go:41-53 | bytes are normalized to an ID exactly when they type its six characters of the alphabet, small or capital, the long s for S |
| `RoomLimits.HelloAccepted` | gawk-server/wire/room.go:707-719 | which hellos are accepted, by number |
| `RoomLimits.StateAccepted` | gawk-server/wire/room.go:751-803 | which states are, by number, with every attachment and participant in them |
| `RoomLimits.EventAccepted` | gawk-server/wire/room.go:863-929 | which events are, kind by kind |
| `RoomLimits.CommandAccepted` | gawk-server/wire/room.go:1008-1035 | which commands are, kind by kind |
| `RoomLimits.StateRefused` | gawk-server/wire/room.go:610-621 | a state message is short, of the wrong version or of the wrong type exactly by its length and first two bytes, in this order; every other fault is the message's own |
| `RoomLimits.EventRefused` | gawk-server/wire/room.go:610-621 | the same for events |
| `RoomLimits.CommandRefused` | gawk-server/wire/room.go:1040-1068 | the same for commands, and an unknown kind is told exactly by the third byte |
| `RoomLimits.AppendErrors` | gawk-server/wire/room.go:863-1036 | the appenders tell a kind they do not know from fields that do not fit |
| `RoomLimits.RecordsRead` | gawk-server/publisher/room.go:801-815 | what a read of a record stream finds, by its first two bytes: a clean end, a refused length, a message of that length, or a cut record |
| `LocalRelay.AuthorityGrammar` | gawk-server/wire/localrelay.go:400-444 | the split accepts exactly host[:port], with a bracketed or colon-free host and a port of 1 to 65535, and returns that host |
| `LocalRelayLimits.PortIff` | gawk-server/wire/localrelay.go:426-443 | a port is one to five digits that write a number from 1 to 65535, leading zeros allowed |
| `LocalRelayLimits.OriginIff` | gawk-server/wire/localrelay.go:166-197 | an origin is empty, or at most 128 visible bytes: https:// with a plain authority, or http:// with one whose host is localhost or 127.0.0.1 |
| `LocalRelayLimits.UrlIff` | gawk-server/wire/localrelay.go:361-385 | a URL is at most 256 visible bytes: https://, an authority without @, and a path if one begins there, with no query and no fragment |
| `LocalRelayLimits.InfoAccepted` | gawk-server/wire/localrelay.go:108-131 | which infos are accepted, by number and grammar |
| `LocalRelayLimits.OfferAccepted` | gawk-server/wire/localrelay.go:238-273 | which offers are, down to their candidates |
| `LocalRelay.InfoRoundTrip` | gawk-server/wire/localrelay.go:107-159 | a message is accepted as m exactly when it is m's encoding with any unknown state bits and any trailing bytes |
| `LocalRelayOffer.OfferRoundTrip` | gawk-server/wire/localrelay.go:237-343 | a message is accepted as m exactly when it is m's encoding with any trailing bytes |
| `LocalRelayLayouts.InfoFields` | gawk-server/wire/localrelay.go:81-92 | where each field of an appended LocalRelayInfo stands, behind what was there before, down to the two state bits |
| `LocalRelayLayouts.OfferFields` | gawk-server/wire/localrelay.go:199-209 | the same for an appended LocalRelayOffer |
| `LocalRelayLayouts.CandidateFields` | gawk-server/wire/localrelay.go:209-213 | the same for one candidate |
| `LocalRelayParsing.ParseLocalRelayInfo` | gawk-server/wire/localrelay.go:135-159 | the parser is the layout's decoding |
| `LocalRelayParsing.ParseLocalRelayOffer` | gawk-server/wire/localrelay.go:278-343 | the same, through candidates and their hashes |
| `LocalRelayParsing.AppendLocalRelayInfo` | gawk-server/wire/localrelay.go:108-131 | the appender is the layout's encoding or refuses |
| `LocalRelayParsing.AppendLocalRelayOffer` | gawk-server/wire/localrelay.go:238-273 | the same, with nothing appended before every candidate has been checked |
| `Limiter.IpLimiter.Allow` | gawk-server/oidcauth/limiter.go:56-84 | one decision on the table, sweeping first when a new client finds it full |
| `Limiter.IpLimiter.SweepLocked` | gawk-server/oidcauth/limiter.go:94-101 | exactly the buckets that are full again and idle for ten minutes go |
| `Limiter.SweepsChangeNothing` | gawk-server/oidcauth/limiter.go:53-101 | for a clock that does not step back, sweeping at any points never changes a decision compared with a limiter that forgets nothing |
| `Limiter.PassesAreBounded` | gawk-server/oidcauth/limiter.go:53-84 | in any stretch of any run a client passes at most burst + rate * T times |
| `Limiter.PacedClientsPass` | gawk-server/oidcauth/limiter.go:53-84 | a client whose calls come no faster than the rate is never refused, whatever the others do |
| `Limiter.BurstPasses` | gawk-server/oidcauth/limiter.go:53-84 | of any number of calls by a new client at one moment exactly the first burst pass |
| `LimiterExact.RefusedIff` | gawk-server/oidcauth/limiter.go:56-84 | in every run, swept or not, a call is refused exactly when for some earlier call of that client the passes since then and this one would be more than burst plus the rate times the time |
| `LimiterExact.ForgottenIff` | gawk-server/oidcauth/limiter.go:94-101 | a decision forgets a client exactly when a new one finds 10000 others and this one is full again and more than 600 seconds idle; any other bucket stays as it was |
| `KeyFetches.Floor.Allow` | gawk-server/oidcauth/keyset.go:133-147 | refill up to burst, then spend one token or refuse |
| `KeyFetches.Floor.RoundTrip` | gawk-server/oidcauth/keyset.go:168-177 | the exemption is spent before the bucket is asked |
| `KeyFetches.FetchesAreBounded` | gawk-server/oidcauth/keyset.go:132-185 | at most burst + elapsed/interval fetches plus one per exemption granted, whatever the interleaving and however the clock jumps |
| `KeyFetches.OneIntervalIsEnough` | gawk-server/oidcauth/keyset.go:82-91 | a call one interval after the last refill always gets its fetch |
| `KeyFetchLaws.RefusedIff` | gawk-server/oidcauth/keyset.go:133-147 | in every run, however the clock jumps, a call is refused exactly when for some earlier call the fetches let through since then and this one would be more than burst and one per interval of the clock's advance |
| `KeyFetchLaws.ClaimIff` | gawk-server/oidcauth/keyset.go:168-177 | a claim sends a fetch exactly when an exemption was granted that has been neither revoked nor claimed since |
| `TimeSync.Estimator.Record` | gawk-server/publisher/timesync.go:59-69 | the window holds the samples of the last eight accepted exchanges |
| `TimeSync.Estimator.Best` | gawk-server/publisher/timesync.go:72-83 | the first of the fastest samples in the window, none if it is empty |
| `TimeSync.WindowIs` | gawk-server/publisher/timesync.go:59-69 | the window is the last eight exchanges that do not end before they begin, or all of them: each stands as far from its end as there are such exchanges after it |
| `TimeSync.OffsetFromMiddle` | gawk-server/publisher/timesync.go:59-69 | a sample is the relay's stamp less the middle of the exchange, rounded down, and the exchange's length |
| `TimeSync.BestIsClose` | gawk-server/publisher/timesync.go:10-29 | Best reports the first of the shortest round trips of the window and an offset within half of it, rounded up, of the true one |
| `TimeSync.OffsetExact` | gawk-server/publisher/timesync.go:59-69 | the 64-bit arithmetic gives the true difference exactly when that difference is an int64 |
| `AttachLatch.RoomClient.MaybeAttach` | gawk-server/publisher/room.go:736-772 | the latch is taken exactly when stream, snapshot and both credentials are there and this generation has not been |
| `AttachLatch.RoomClient.ServeStarts` | gawk-server/publisher/room.go:567-571 | a connection opens a generation and forgets the snapshot |
| `AttachLatch.RoomClient.OnState` | gawk-server/publisher/room.go:666-699 | a snapshot is noted and makes a call due |
| `AttachLatch.RoomClient.Reattach` | gawk-server/publisher/room.go:418-423 | a publish resume opens a generation and makes a call due |
| `AttachLatch.RoomClient.WriteEnds` | gawk-server/publisher/room.go:756-771 | a failed write reopens the latch |
| `AttachLaws.BeginsIff` | gawk-server/publisher/room.go:736-772 | in every run, a call begins a write exactly when the client is connected, has had a snapshot on this connection, knows the broadcast, was last given a usable token, and has begun none since the last connection, publish resume or failed write |
| `AttachLatch.AttachedOncePerGeneration` | gawk-server/publisher/room.go:733-772 | in every interleaving, at most one Attach per generation plus one for each write that failed during it |
| `AttachLatch.NeverMissed` | gawk-server/publisher/room.go:733-755 | with everything there and no call due, the current generation has been latched, exactly once if no write failed |
| `AttachLatch.AttachFollowsSnapshot` | gawk-server/publisher/room.go:733-772 | an Attach written on the connection it was latched for follows that connection's snapshot |
| `AttachLatch.ExactlyOnce` | gawk-server/publisher/room.go:410-423 | with check and write as one step and writes succeeding: only after the snapshot, never twice in a generation, and done whenever everything is there with nothing due |
| `AttachOverlap.TooEarlyIffReconnects` | gawk-server/publisher/room.go:753-766 | an Attach goes out only with the snapshot of its stream present, in every run, if and only if no connection is made while a write is due |
| `AttachOverlap.StaleAttach` | gawk-server/publisher/room.go:753-766 | otherwise: a run with an Attach on a later connection, before its snapshot |
| `AttachOverlap.TwiceIffLateFailures` | gawk-server/publisher/room.go:756-771 | no generation attaches twice, in every run, if and only if no write fails after its generation has passed |
| `AttachOverlap.AttachedTwice` | gawk-server/publisher/room.go:766-771 | otherwise: a run in which one generation attaches twice, the failed write of an earlier one having reopened its latch |
| `AttachOverlap.MissedIffOwnFailures` | gawk-server/publisher/room.go:733-772 | with everything there and nothing due the current generation has attached, in every run, if and only if no write comes to nothing within its own generation |
| `OidcSession.AuthSession.TryRenew` | common-ts/oidc-session/session.ts:546-588 | a caller joins the renewal in flight, starts one, or is told at once there is none |
| `OidcSession.AuthSession.RenewalArrives` | common-ts/oidc-session/session.ts:558-585 | an answer is installed only in the era that asked, keeping the old refresh token if none came |
| `OidcSession.AuthSession.FallBackToLogin` | common-ts/oidc-session/session.ts:512-516 | a caller from an earlier era does nothing |
| `OidcSession.AuthSession.Abandon` | common-ts/oidc-session/session.ts:531-536 | tokens and timer go and the era moves on |
| `OidcSession.AuthSession.CallResumes` | common-ts/oidc-session/session.ts:601-639 | a settled renewal leads to a retry, to nothing, or to the fallback |
| `OidcSession.AuthSession.SignOut` | common-ts/oidc-session/session.ts:646-663 | a sign-out abandons the tokens |
| `OidcSession.DroppedTokensStayDropped` | common-ts/oidc-session/session.ts:192-206 | once tokens have been dropped none is ever held again for the rest of the page's life, in every interleaving |
| `OidcSession.OneRefreshAtATime` | common-ts/oidc-session/session.ts:546-588 | at most one refresh request and one login redirect are outstanding |
| `OidcSession.NoFallbackAfterLogout` | common-ts/oidc-session/session.ts:512-516 | no call begun before a sign-out enters beginLogin from its fallback after it; at most one call ever falls back |
| `OidcSession.RedirectsAfterLogoutIff` | common-ts/oidc-session/session.ts:342-378 | from a reachable state, a sign-out followed by neither a call nor a sign-in can still lead to a login redirect exactly when a login was already under way |
| `OidcSession.LoginOutlivesLogout` | common-ts/oidc-session/session.ts:342-378 | such a run: a fallback whose login was under way redirects after the sign-out |
| `OidcLaws.TokensAreLatest` | common-ts/oidc-session/session.ts:536-585 | until they are dropped, the session holds the access token of the latest answered renewal and the refresh token handed out last, and the timer runs exactly while there is one and it has not gone off since |
| `OidcLaws.RequestsSpendLatest` | common-ts/oidc-session/session.ts:546-588 | every refresh request spends the refresh token handed out last |
| `OidcLaws.ReplacedNeverSpent` | common-ts/oidc-session/session.ts:574-578 | one that an answer replaced is never spent again |
| `OidcLaws.DroppedIff` | common-ts/oidc-session/session.ts:512-516 | tokens are dropped exactly by a sign-out and by the first caller whose renewal came to nothing or whose retry was rejected; that caller begins the login and everyone later does nothing |
| `OidcLaws.LoginBegunIff` | common-ts/oidc-session/session.ts:317-340 | with none under way, a login begins exactly for the first caller to give up, a call that finds no tokens, or someone who asks |
| `OidcLaws.WaitsForRenewal` | common-ts/oidc-session/session.ts:546-588 | a call rejected the first time and a timer that goes off wait for a renewal if one is in flight or can be asked for, and otherwise fail at once |
| `OidcLaws.AnswerReachesAll` | common-ts/oidc-session/session.ts:558-585 | an answer reaches every call that waits at once, and touches no other: yes exactly if it brought tokens to a session that has dropped none |
| `OidcLaws.ToldYes` | common-ts/oidc-session/session.ts:601-639 | a call told yes retries, a timer renewal is done |

## Left out

- DeltaSender.Sender.SendDelta: the relay's answers are a parameter, and sizes stand for the datagrams: the header fields of a chunk are not written.
- KeyframeSlot.FramesConserved: byte counters, the keyframe interval average, decoder configs and the audio lane are not among the counters.
- LifecycleSafety.AllEndedAfterStops: a stop before or during Start is outside; the room, statistics and server-message goroutines of the wait group are not modelled, and capture is reduced to its end.
- Fleet.TakeoversConverge: the relay is reduced to newest publisher wins on one code.
- BanSet.Set.Replace: textual IP parsing and the trimming of surrounding space are not modelled; a target's text is a bare address, a prefix or malformed. A nil set is not modelled.
- TrieNodes.TrieInsert: the two-element child array is two fields.
- SampleBatches.ValidateReports: the checks of a session's identifiers are one boolean, scores are reals and so never NaN, and the batch's own head (schema, mode, labels, rule) is not modelled.
- RoomRecords.CleanStreams: a read that blocks or fails with a network error is not distinguished from the bytes ending.
- RoomMessages.EventRoundTrip: a parsed message shares no memory with its record here, so the aliasing the source warns of is not captured.
- Limiter.PassesAreBounded: floating-point buckets are reals, and the clock must not step back, which Go's monotonic clock gives.
- KeyFetches.FetchesAreBounded: whether the provider served a fetch, and the capped body, are not modelled.
- TimeSync.BestIsClose: asks that each sample's true offset is an int64; TimeSync.OffsetExact says that nothing less will do.
- AttachLatch.NeverMissed: the minting of rooms, reconnect delays and resynchronisation on event gaps are not modelled.
- OidcSession.DroppedTokensStayDropped: starts after the login callback; discovery, PKCE and the contents of tokens are opaque.
- gawk-server/publisher: dialing, backoff delays and QUIC stay outside; a dial is an event that succeeds or fails.
- gawk-server/publisher/timesync.go: the pings, resets and the clock-mapping schedule around the estimator.
- gawk-server/wire: the fixed headers of video chunks, parity chunks, stripe state and stream frames, whose encodings have no lists or options.
- gawk-server/moderation: Ban resource names.
- HMAC and SHA tokens, JSON and CloudEvents, Kubernetes types, HTTP handlers, logging, statistics rendering, user interfaces and build configuration: I/O or presentation, or easy once the hash is opaque.
