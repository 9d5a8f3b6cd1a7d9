# Packet engine model

A Dafny model of the packet engine in `src/packet/root.zig` and of the
invocation identities in `src/internal/processor_invocation.zig`, with proofs.

A packet lives in up to sixteen storage segments. It is decoded lazily
(Ethernet, VLAN, IPv4, IPv6 with bounded extensions, TCP, UDP, ICMP), edited
through setters, resized at either end, written raw under a declaration, and
finalized: lengths and checksums are recomputed, written, reparsed and rolled
back if the result is not acceptable. A gate decides whether it may be output.
Around the packet sit tokens, batch generations with opaque handles, a
disposition writer, retention pools and a resolver that partitions the batch.

The model has two levels. The flat level describes one packet as a state machine
over a byte sequence (`PacketMachine`) and the ownership side as a system of
owners, pools and tokens (`Owners`, `Retention`). The storage level updates
buffers, descriptors, journals and tables in place, in classes and loops shaped
like the original, and every method is proved to take exactly the step of the
flat level and to leave what the next call needs. The theorems about whole runs
are stated once, on the flat level, and hold of the storage level through those
contracts: `StorageRuns.Replay` applies any list of operations to real storage
and reaches the state of the flat run.

| files | what they hold |
|---|---|
| `Prelude`, `Pieces` | words, splices, results; concatenation of pieces |
| `Parsing`, `ParsingFacts`, `ParsingTheorems`, `PaddingTheorems` | the flat decoder, its shape, which bytes decide the layout, truncation, what padding can change |
| `WireFormat`, `DecodeTheorems`, `RecoveredFrames` | how a sender lays frames out, layer by layer; decoding inverts it; every decoded frame is one so laid out |
| `Checksum`, `Extents` | one's-complement sums, override sums, protocol extents |
| `Receiver` | the sums a receiver takes over the literal bytes of a packet |
| `PacketMachine`, `HeaderWrites`, `MutationAcceptance` | the packet as a state machine; the pending header words; when each mutation is accepted |
| `FinalizeTheorems`, `UnresizedTheorems`, `RepeatTheorems`, `ResizedDecodes`, `ResizedTheorems` | one finalization: transactionality, exact frame, soundness and exact success with and without tail resizes, idempotence |
| `FinalizeLimits`, `FinalizeRefusals` | traces where soundness stops; packets that can be edited and never finalized |
| `PacketRuns`, `StructuredRuns`, `ResizedRuns`, `Deliveries`, `ConservedSums`, `SetterMeaning` | whole runs: cache coherence, output gate, conservation, checksum soundness, what a changed packet carries, what setters mean |
| `Storage`, `SlotSetup`, `SegmentIteration`, `SlotParser`, `SlotChecksum` | segmented storage and the loops over it |
| `PacketEditing`, `Finalizing`, `StorageRuns` | the editor and the finalizer in place, and whole runs of them |
| `Selection`, `Dispositions`, `Resolution` | selections, outcomes, the resolver |
| `Tokens`, `Handles`, `Owners`, `BatchOwner`, `ViewAccess`, `Retention`, `RetentionPools` | token accounting, handles, generations, access through views, retention |
| `Identity`, `OwnerIdentities` | identity allocation and authentication under concurrency; owners and pools that never mix |

## Main results

- **Build and decode are inverse** (`DecodeTheorems.BuiltDecodes`,
  `RecoveredFrames.PresentExactly`). A frame laid out from its fields, with up to
  two tags and any extension headers within the limits, decodes to exactly those
  fields, and a transport is decoded only from such a frame. The statuses of the
  refusals are `DecodeTheorems.RefusedDecodes`, `RecoveredFrames.LinkStatus` and
  `RecoveredFrames.NetworkStatus`.
- **Valid in, valid out** (`ResizedRuns.ValidInValidOut`). A packet whose
  receiver would accept its checksums on arrival, changed only through setters,
  tail resizes and finalizations along a structured run, is accepted whenever the
  output gate passes it. Runs without resizes are structured by themselves.
- **Changed, then delivered** (`Deliveries.ChangedIsAccepted`). After an accepted
  change of a layer, raw writes by their declaration included, a structured run
  that passes the gate ends in a packet whose checksums the receiver accepts.
  The receiver sums the literal bytes of the packet and the protocol number found
  in it (`Receiver`); nothing of the engine's checksum computation is used.
- **Checksum soundness** (`ResizedRuns.FinalizeSound`,
  `UnresizedTheorems.UnresizedSound`). Over every structured run, a successful
  finalization stores the computed extents, the frame decoded afresh declares
  them, and the receiver accepts every due checksum.
  `FinalizeTheorems.FinalizeLengths` gives the exact condition from any state:
  each length field is about to be rewritten or already holds the extent.
- **Exact success** (`ResizedRuns.FinalizeSucceeds`,
  `UnresizedTheorems.UnresizedSucceeds`, `ResizedTheorems.ResizedSucceeds`). When
  a due finalization succeeds, with and without tail resizes.
- **Transactional finalization** (`FinalizeTheorems.FinalizeTransactional`,
  `HeaderWrites.RollbackRestores`, `Finalizing.FinalizeContext`).
- **Acceptance** of every setter and raw write, with each error, and of every
  resize (`MutationAcceptance`).
- **Cache coherence and output gate** over every run (`PacketRuns`), on real
  storage through `StorageRuns.Replay`.
- **Segmentation independence** (`SlotParser.ParseSlot`), the **truncation
  theorem** (`PaddingTheorems.TruncationExact`) and the **padding theorem**
  (`PaddingTheorems.PaddingExact`).
- **Borrowed packets stay** (`Retention.RetainAccepted`,
  `Retention.BorrowBlocksRetention`). When exactly a retention succeeds, and that
  none does after an escaped borrow until the next batch begins.
- **Resolution as recorded** (`Resolution.Resolve`). Each packet is in the group
  its recorded outcome and the table name, for every outcome and table.
- **Token histories** (`Tokens.HistoriesArePermitted`). The accepted actions on a
  token are a permitted history and the next action is accepted exactly if it
  extends it.
- **Retention, stale handles, token accounting and active masks** over every run,
  with tokens of any number of trackers.
- **Identities** distinct and gap-free over every interleaving with spurious
  failures, and cookies that authenticate only where and while they may.

## What the code does that its description does not say

- The decoder reads the length byte of an IPv6 extension header before it checks
  that the byte belongs to the declared payload. With one payload byte left the
  byte behind the payload, padding, decides between a truncated and an
  unsupported transport (`PaddingTheorems.PaddingReadByExtensionRemainder`).
  That is the only way padding is seen: a frame with a network layer decodes the
  same for every padding if and only if its extension walk never meets an
  acceptable header, other than a fragment header, with one payload byte left
  (`PaddingTheorems.PaddingExact`). Such a walk never delivers a transport.
- The pre-resize snapshot is taken once per generation and finalization does not
  clear the deltas. A second finalization after another tail resize can compute
  the declared lengths again, skip the fields the first one shortened, and write
  checksums that do not verify (`FinalizeLimits.SecondFinalizeStale`). Within one
  finalization the same happens after a tail trim into the UDP length followed by
  an append (`FinalizeLimits.TrimIntoHeaderStale`), after a raw write over the
  total length (`FinalizeLimits.RawWriteStale`) and after head resizes that
  replace it (`FinalizeLimits.HeadResizeStale`). A structured run leaves out
  exactly these four: once a tail resize has been made, no raw write, no head
  resize, no cut into the snapshotted headers, and no resize of a packet
  finalized since. Setters, tail resizes before the first finalization, and any
  number of finalizations stay in.
- A first fragment whose UDP length outruns the fragment decodes, and its TTL can
  be edited, but it can never be finalized: the declared extents refuse it
  (`FinalizeRefusals.FragmentTrapped`). An Ethernet address edit on a frame that
  is not IP has the same fate (`FinalizeRefusals.ArpTrapped`), and an IPv6 packet
  whose payload length exceeds 65495 is too large
  (`FinalizeRefusals.JumboTrapped`). `FinalizeRefusals.NoExtents` and
  `FinalizeRefusals.TooLong` are the general statements, and
  `UnresizedTheorems.UnresizedSucceeds` the exact condition.
- The pseudo-header uses the destination of the fixed IPv6 header even behind a
  routing header, unlike section 8.1 of RFC 8200. An all-zero result is stored as
  all ones for TCP as well as UDP.
- A zero IPv4 UDP checksum means that the sender computed none (section "Fields" of
  RFC 768). `ResizedRuns.ValidInValidOut` reads it as verifying on arrival and on
  departure.

## Assumptions

- Storages of different segments and slots do not alias, and edit inputs do not
  alias packet storage. Zig slices of one allocation are separate arrays here.
- Only the modelled operations change packet bytes during a generation.
- Bytes and 16-bit words are bounded integers. 64-bit sums, lengths and offsets
  are unbounded numbers with the original's limits written out, and loops are
  proved to stay below them.
- Whether an injected failure strikes an attempt is a parameter of the operation.
- Reads that an earlier range check has made safe take the value directly; the
  error branch behind such a check is proved to be dead by their contracts.
- A token names its tracker by the tracker's place in a list of all trackers; the
  trackers of the list are different objects.
- The identity loop of `allocateOwnerIdentity` is the loop of `Identity`; an owner
  or pool allocation is a begin followed by its end. The constructors take the
  history of that allocator as a ghost value.

## Model

| member | source | states |
|---|---|---|
| ParsingFacts.ParseIsFramed | src/packet/root.zig:975-1241 | For every frame and configuration the decode is well placed: the network header lies inside the frame, extension bytes equal the cursor advance and stay within both limits, a present transport header starts right after the chain, ends inside the declared payload, and is never reported for a non-initial fragment. |
| ParsingFacts.ParseStable | src/packet/root.zig:975-1241 | Structure theorem: a frame that agrees with a fully decoded one on the structural bytes decodes to the same packet with only its value fields reread. |
| ParsingTheorems.NetworkStable | src/packet/root.zig:1040-1184 | Agreement on the structural bytes of a network header alone is enough for the same network layout, whatever the transport does. |
| PaddingTheorems.TruncationExact | src/packet/root.zig:975-1241 | If a frame has a network layer whose packet ends at E, every prefix shorter than E reports a truncated layer, and every prefix of at least E decodes identically unless the extension walk peeks; a frame with a decoded transport never peeks. |
| PaddingTheorems.ChainUnread | src/packet/root.zig:1130-1184 | An extension walk that never has a single payload byte left is decided by the bytes of the payload. |
| PaddingTheorems.ChainPeeks | src/packet/root.zig:1148-1155 | A walk that does is refused; only the status of the refusal depends on padding: truncated without padding, unsupported behind a byte of 255. |
| PaddingTheorems.PaddingReach | src/packet/root.zig:975-1241 | What padding can change: nothing unless the walk peeks, and then only whether the transport is called truncated or unsupported. |
| PaddingTheorems.PaddingExact | src/packet/root.zig:975-1241 | For every frame with a network layer and every accepted configuration, the decode is the same for every padding if and only if the walk does not peek. |
| PaddingTheorems.PaddingIgnored | src/packet/root.zig:975-1241 | In particular the bytes behind the network packet never change the decode of a frame whose transport is decoded. |
| PaddingTheorems.PaddingReadByExtensionRemainder | src/packet/root.zig:1148-1155 | The shortest peeking frame: an extension header with one payload byte left has its length read from behind the payload, and a padding byte decides between truncated and unsupported. |
| ParsingTheorems.HeaderChecksumUnread | src/packet/root.zig:1040-1088 | The decoder never looks at the IPv4 header checksum. |
| ParsingTheorems.ParsedLengths | src/packet/root.zig:1040-1130 | Every decoded length field equals the big-endian word at its header position. |
| ParsingFacts.ParseKeepsConfig | src/packet/root.zig:1186-1187 | A decode carries the configuration it was made under, which is what the cache compares. |
| SlotParser.ReadTransport | src/packet/root.zig:975-1038 | The segmented transport decoder equals the flat one on the packet bytes. |
| SlotParser.ReadIpv4 | src/packet/root.zig:1040-1088 | The segmented IPv4 decoder equals the flat one. |
| SlotParser.WalkExtensions | src/packet/root.zig:1130-1184 | The extension loop ends and stops or hands over exactly where the flat chain does; every narrowing cast in it fits. |
| SlotParser.ReadIpv6 | src/packet/root.zig:1097-1184 | The segmented IPv6 decoder equals the flat one. |
| SlotParser.ParseSlot | src/packet/root.zig:1186-1241 | Segmentation independence: decoding a slot gives the flat decode of its bytes, so any two segmentations of the same bytes, empty segments included, decode alike. |
| DecodeTheorems.BuiltDecodes | src/packet/root.zig:975-1241 | A frame built from link addresses, up to two tags, an IPv4 or IPv6 header, any extension headers within the limits and a TCP, UDP or ICMP header decodes to exactly those values at exactly those places, tags, fragment offset and the more-fragments flag included. The formats know nothing of the decoder. |
| DecodeTheorems.DefaultDecodes | src/packet/root.zig:597-608 | Under the default limits that is every frame with at most eight extension headers of at most 256 bytes in all. |
| DecodeTheorems.RefusedDecodes | src/packet/root.zig:975-1184 | The same for a built frame whose transport is refused: network fields as built and the status its payload calls for, be it absent, unsupported, truncated or malformed. |
| DecodeTheorems.LinkDecodes | src/packet/root.zig:1186-1241 | Behind any link header with up to two tags the addresses, tags and type are read back and the network decoder starts behind them. |
| RecoveredFrames.FrameRecovered | src/packet/root.zig:1040-1241 | The converse: every frame with a network layer is a frame built that way. |
| RecoveredFrames.PresentExactly | src/packet/root.zig:975-1241 | A transport is decoded if and only if the frame is one built around such a header, and what is decoded is what it was built from. |
| RecoveredFrames.LinkStatus | src/packet/root.zig:1186-1230 | The link status for every byte string: truncated at the first header or tag cut short, unsupported at a third tag, present otherwise. |
| RecoveredFrames.NetworkStatus | src/packet/root.zig:1040-1130 | The network status behind any link header, with everything above it cleared when it is refused. |
| Receiver.ProtocolNamed | src/packet/root.zig:975-1184 | The protocol number in the frame, the byte that hands over to the transport behind any extension headers, is 6 for a decoded TCP header, 17 for UDP and 1 or 58 for ICMP. |
| SlotSetup.InitMutableSegment | src/packet/root.zig:243-260 | Accepted exactly when the active range fits; the rooms then partition the storage; the error tells address overflow from misfit. |
| SlotSetup.InitSlot | src/packet/root.zig:367-398 | Accepted exactly when there are at most sixteen descriptors, each fits its slice and their sum is the declared total; a sum too long to address is reported before an overstated descriptor. |
| SlotSetup.InitMutableSlot | src/packet/root.zig:401-430 | Accepted exactly when every descriptor is valid and the lengths sum to the declared total; overflow is reported exactly when some valid prefix is already too long; the slot is fit for editing when no two descriptors share storage. |
| Storage.SlotByte | src/packet/root.zig:934-944 | The byte walk returns the flat byte at the offset, or Bounds exactly past the end; its checked addition never overflows. |
| Storage.SlotRead | src/packet/root.zig:946-951 | A cross-segment read fills the destination with the flat slice, or fails without touching it. |
| Storage.SlotU16 | src/packet/root.zig:953-957 | The big-endian word of the flat bytes. |
| Storage.Contiguous | src/packet/root.zig:1549-1571 | The walk behind the checked range: a zero-copy slice exists exactly when the range is empty or lies in one segment, and shows the flat bytes of the range. |
| Storage.Read | src/packet/root.zig:1574-1603 | The explicit copy writes the flat slice into the front of the destination and nothing else; exact errors. |
| Storage.ValidateWritable | src/packet/root.zig:1727-1746 | The coverage loop accepts exactly the ranges whose every byte lies in a segment open to same-length writes. |
| Storage.SplicePiece | src/packet/root.zig:1748-1768 | Overwriting part of one segment window is overwriting the matching slice of the packet. |
| Storage.WritePiece | src/packet/root.zig:1756-1764 | One step of the cross-segment write changes one window and no byte outside the active windows. |
| Storage.WriteSlot | src/packet/root.zig:1748-1768 | After validation the cross-segment write is one slice replacement of the flat bytes and touches nothing outside the active windows. |
| Pieces.ReplacePiece | src/packet/root.zig:1748-1768 | Replacing a segment by one of equal length replaces exactly its slice of the concatenation. |
| SegmentIteration.NonemptyPieces | src/packet/root.zig:2685-2697 | No piece the iterator may yield is empty. |
| SegmentIteration.PiecesCover | src/packet/root.zig:2655-2699 | The pieces from any segment on concatenate to what is left of the range; from the first, to the whole range. |
| SegmentIteration.Scan | src/packet/root.zig:2674-2698 | The scan yields the first remaining piece with exactly the others left, or nothing when none remains. |
| SegmentIteration.SegmentIterator.Next | src/packet/root.zig:2663-2697 | Behind the handle check: each call yields the first remaining piece and advances, or refuses public progress fields that do not fit the slot and changes nothing. |
| SegmentIteration.Segments | src/packet/root.zig:1606-1617 | A walk over a checked range whose pieces concatenate to the range. |
| ViewAccess.Contiguous | src/packet/root.zig:1549-1571 | The public call: the handle is checked, then the range, and a nonempty slice that escapes marks the slot and nothing else changes. |
| ViewAccess.NextSegment | src/packet/root.zig:2655-2699 | The public call: the handle is checked again on every step, and a piece that is handed out marks the slot. |
| ViewAccess.AdapterSegment | src/packet/root.zig:1501-1514 | A whole segment of an output packet: the index is checked before the mark is set. |
| Checksum.FoldChecksum | src/packet/root.zig:2113-2117 | The fold ends, stays within 64 bits and complements the one's-complement value of the sum (sections 1 and 2 of RFC 1071). |
| Checksum.FoldKeepsCanon | src/packet/root.zig:2115 | Folding the carry back strictly shrinks the sum and denotes the same one's-complement number. |
| Checksum.ComplementCloses | src/packet/root.zig:2113-2117 | Adding the complement of a sum makes the end-around-carry total all ones. |
| Checksum.PatchSum | src/packet/root.zig:2119-2148 | Rewriting one aligned word changes a range sum by exactly the difference, odd lengths included. |
| Checksum.RangeSumIsWordSum | src/packet/root.zig:2119-2148 | The override sum is the plain sum of the range after storing zero and the new length at the overridden words. |
| SlotChecksum.OverriddenWord | src/packet/root.zig:2131-2145 | The two byte reads with overrides and odd-length padding give the word of the flat definition. |
| SlotChecksum.ChecksumRange | src/packet/root.zig:2119-2148 | The segmented summing loop equals the flat override sum and its 64-bit accumulator cannot overflow. |
| SlotChecksum.TransportChecksum | src/packet/root.zig:2150-2206 | The value to store over pseudo-header and extent; a zero result is sent as all ones for TCP as well as UDP. |
| Receiver.PseudoIs | src/packet/root.zig:2150-2190 | The pseudo-header sum is the word sum of the literal bytes a receiver sums: addresses, zeros, the protocol number of the frame and the length. |
| Receiver.AcceptedIs | src/packet/root.zig:2150-2206 | A receiver that sums those bytes and the segment gets all ones exactly when the stored checksum verifies over the computed extents. |
| Receiver.HeaderAcceptedIs | src/packet/root.zig:2313-2327 | The same for the IPv4 header. |
| Extents.DeclaredIsNested | src/packet/root.zig:1993-2051 | Accepted extents nest: headers in packets, transport in network, network in frame. |
| Extents.ResizedIsNested | src/packet/root.zig:2053-2100 | After a tail resize the extents still nest, and are exactly: cut at the frame end when trimmed, grown to it only if they ended there, otherwise unchanged. |
| Extents.DeclaredAccepted | src/packet/root.zig:1993-2051 | For a fresh decode the extents are accepted exactly when the network layer is present and a UDP datagram does not outrun it. |
| HeaderWrites.ApplyMeaning | src/packet/root.zig:2408-2409 | Applying disjoint words stores every one of them and changes no other byte. |
| HeaderWrites.PlanIsShaped | src/packet/root.zig:2341-2406 | A plan holds at most four words, pairwise disjoint, all writable and inside the network packet. |
| HeaderWrites.RollbackRestores | src/packet/root.zig:2237-2239 | Restoring the remembered words in list order gives back the frame, because the windows are disjoint. |
| FinalizeTheorems.FinalizeTransactional | src/packet/root.zig:2241-2435 | Every refused finalization of a live packet leaves bytes, layout and lengths as they were and the packet refused for output. |
| FinalizeTheorems.FinalizeExactFrame | src/packet/root.zig:2241-2435 | A successful finalization changes only the length fields whose length changed and the checksums due, and stores exactly the computed values. |
| FinalizeTheorems.CommitTouches | src/packet/root.zig:2341-2409 | Byte for byte: a successful finalization changes nothing but the length and checksum fields of the decoded headers. |
| FinalizeTheorems.CommitIsShown | src/packet/root.zig:2410-2434 | It leaves a frame that decodes, keeps a decoded transport and has no zero UDP checksum over IPv6. |
| FinalizeTheorems.LengthFields | src/packet/root.zig:2343-2382 | After the writes a length field holds its extent exactly when it was rewritten or held it before. |
| FinalizeTheorems.HeaderSumCloses | src/packet/root.zig:2313-2327 | The written IPv4 header verifies if its total length is the summed one, and exactly when it is so modulo 65535 in a header that is not all zero. |
| FinalizeTheorems.TransportSumCloses | src/packet/root.zig:2329-2339 | The written TCP or UDP checksum is nonzero and verifies over pseudo-header and extent; for UDP exactly when the stored length is the summed one modulo 65535. |
| FinalizeTheorems.FinalizeLengths | src/packet/root.zig:2241-2435 | From any good state the stored lengths equal the computed extents exactly when each field was about to be rewritten or already current. |
| FinalizeTheorems.FinalizeHeaderSum | src/packet/root.zig:2241-2435 | From any good state a due IPv4 header checksum verifies if the stored total length is right, and exactly when it is right modulo 65535 in a header that is not all zero. |
| FinalizeTheorems.FinalizeTransportSum | src/packet/root.zig:2241-2435 | From any good state a due transport checksum is stored nonzero and verifies, for UDP exactly when the stored length is right modulo 65535. |
| UnresizedTheorems.LayoutAfter | src/packet/root.zig:2410-2424 | Writing due checksums keeps the decoded layout. |
| UnresizedTheorems.UnresizedSound | src/packet/root.zig:2241-2435 | End to end: after finalizing a frame whose tail was not resized, decoding it afresh gives the same layout, lengths equal extents and a receiver accepts every checksum that was due. |
| UnresizedTheorems.UnresizedSucceeds | src/packet/root.zig:2241-2435 | A finalization without tail resize succeeds exactly under conditions read off the decoded frame, the journal and the writability of the checksum words. |
| RepeatTheorems.FinalizeIdempotent | src/packet/root.zig:2241-2435 | An immediate second finalization succeeds and changes nothing at all. |
| RepeatTheorems.FinalizeIgnoresPadding | src/packet/root.zig:2119-2148 | Two frames with the same journal that agree in bytes and write permissions up to the network end, and do not peek behind it, are finalized together, to the same packet, each keeping its own padding. |
| ConservedSums.SetterShape | src/packet/root.zig:2446-2585 | Every accepted setter keeps the packet layout. |
| ConservedSums.SetterSpares | src/packet/root.zig:2446-2585 | A setter that does not flag a checksum touches none of the bytes that checksum sums. |
| ConservedSums.CommitVerifies | src/packet/root.zig:2241-2435 | If every checksum not due verified before, every checksum verifies after a finalization without tail resize. |
| ConservedSums.VerifiesIs | src/packet/root.zig:2150-2206 | Verifying over the decoded extents and being accepted by a receiver who sums the literal bytes are the same. |
| ResizedDecodes.BonesDecode | src/packet/root.zig:975-1241 | A frame that has the headers of a decoded TCP or UDP packet, and stored lengths that fit, decodes to the same headers with the stored lengths. |
| ResizedTheorems.PlanDecodes | src/packet/root.zig:2241-2435 | While the snapshotted headers stand, the frame a tail-resized finalization writes decodes to those headers and declares exactly the computed extents. |
| ResizedTheorems.ResizedReparses | src/packet/root.zig:2410-2424 | The reparse then never undoes it. |
| ResizedTheorems.ResizedPlanExists | src/packet/root.zig:2255-2406 | A tail-resized finalization can be planned exactly under conditions read off the snapshot, the resizes and the write permissions. |
| ResizedTheorems.ResizedSucceeds | src/packet/root.zig:2241-2435 | And it succeeds exactly under those conditions. |
| ResizedRuns.FinalizeSound | src/packet/root.zig:2241-2435 | Over whole structured runs every successful finalization is sound: decoded afresh the frame declares the computed extents, holds them in its length fields, and a receiver accepts every IPv4 header, TCP and UDP checksum that was due or rewritten. |
| ResizedRuns.CommitAccepted | src/packet/root.zig:2241-2435 | What a sound finalization means on the bytes: the sums over header, pseudo-header and segment are all ones. |
| ResizedRuns.FinalizeSucceeds | src/packet/root.zig:2241-2435 | And exactly when a due finalization succeeds, anywhere along such a run, with and without tail resizes. |
| ResizedRuns.ValidInValidOut | src/packet/root.zig:2241-2435 | A packet whose checksums a receiver accepts on arrival and that is changed only by setters, tail resizes and finalizations along a structured run, with any failures, is accepted by the receiver whenever the output gate passes it; runs without resizes are structured. |
| Deliveries.StepMarks | src/packet/root.zig:1774-1792 | What each operation records in the journal: exactly the layers and checksums its change calls for, and nothing when it is refused. |
| Deliveries.MarksTellRun | src/packet/root.zig:723-740 | Over any run each mark is set exactly when some accepted operation of the run called for it. |
| Deliveries.ChangedIsAccepted | src/packet/root.zig:2241-2435 | In a structured run that passes the gate, after any accepted change of a layer, raw writes by their declaration included, a receiver accepts the checksums of that layer on the bytes that leave. |
| StructuredRuns.SnapshotKept | src/packet/root.zig:1928-1941 | The pre-resize snapshot once taken is never retaken. |
| StructuredRuns.IntactDecodes | src/packet/root.zig:1810-1816 | While the snapshotted headers stand, the current bytes decode to the snapshot layout or to a truncation. |
| FinalizeLimits.SecondFinalizeStale | src/packet/root.zig:2255-2258 | A trace that resizes a finalized packet: trim six, finalize, append two, finalize; the second finalization succeeds, leaves the shortened lengths and writes a header checksum that does not verify. |
| FinalizeLimits.TrimIntoHeaderStale | src/packet/root.zig:2081-2099 | A trace that cuts into the snapshotted UDP length: trimming into it and appending over it leaves a stale length and a checksum that does not verify. |
| FinalizeLimits.RawWriteStale | src/packet/root.zig:2343-2382 | A trace with a raw write after a tail resize: the overwritten total length is not rewritten and the header checksum does not verify. |
| FinalizeLimits.HeadResizeStale | src/packet/root.zig:2343-2382 | A trace with head resizes after a tail resize: the replaced total length is not rewritten and the header checksum does not verify. |
| FinalizeRefusals.FragmentTrapped | src/packet/root.zig:2044-2049 | A concrete first fragment whose UDP length outruns it: its TTL can be set, and the finalization is then refused as an invalid packet. |
| FinalizeRefusals.ArpTrapped | src/packet/root.zig:1997-1998 | A concrete frame that is not IP: its link addresses can be set, and the finalization is then refused as an invalid packet. |
| FinalizeRefusals.JumboTrapped | src/packet/root.zig:2285-2288 | A concrete IPv6 packet with a payload of 65496 bytes: its hop limit can be set, and the finalization is then refused as too large. |
| FinalizeRefusals.NoExtents | src/packet/root.zig:1993-2051 | In general a due finalization of an unresized frame is refused as invalid whenever there is no network layer or a UDP datagram outruns it. |
| FinalizeRefusals.TooLong | src/packet/root.zig:2285-2288 | In general an IPv6 payload above 65495 bytes is refused as too large. |
| SetterMeaning.SetterReadsBack | src/packet/root.zig:2446-2585 | After any accepted setter, decoding the frame gives the same packet with exactly that field set. |
| SetterMeaning.NetworkSetterReadsBack | src/packet/root.zig:2446-2543 | Link and network setters read back on every IP packet, fragments and undecoded transports included, and disturb no other value. |
| SetterMeaning.SharedBitsKept | src/packet/root.zig:2468-2516 | DSCP edits keep the ECN bits; traffic class edits keep version and flow label. |
| PacketRuns.StepIsGood | src/packet/root.zig:1626-1639 | Every operation keeps the packet invariant: valid frame, coherent cache, framed snapshot, consistent journal. |
| PacketRuns.ParseAlwaysFresh | src/packet/root.zig:1626-1639 | In every reachable state a parse under any accepted configuration equals a fresh decode of the current bytes. |
| PacketRuns.RefusedEditKeepsBytes | src/packet/root.zig:1712-1808 | A refused setter, resize or raw write leaves the bytes and the layout and marks the journal failed. |
| PacketRuns.ParseAccepted | src/packet/root.zig:602-608 | A parse is refused exactly for limits above 16 headers or 1024 bytes, and then changes nothing. |
| MutationAcceptance.EditAccepted | src/packet/root.zig:1794-1849 | When each setter is accepted, read off the decoded frame and the write permissions, the error of every refusal, incomplete fragments included, and the bytes it may change. |
| MutationAcceptance.RawAccepted | src/packet/root.zig:2617-2642 | When a raw write is accepted, the error of every refusal, and its exact effect on the bytes. |
| MutationAcceptance.ResizeAccepted | src/packet/root.zig:1857-1974 | When a resize is accepted, and the bytes and rooms it leaves. |
| PacketRuns.FailureStaysRefused | src/packet/root.zig:1458 | A failed journal stays refused for output whatever follows. |
| PacketRuns.JournalTellsRun | src/packet/root.zig:723-740 | The journal flags tell exactly whether every operation succeeded and whether every mutation was followed by a finalization. |
| PacketRuns.OutputGateExact | src/packet/root.zig:1450-1465 | Over any run from begin the gate passes exactly when everything succeeded, every mutation is finalized and no IPv6 UDP checksum is zero. |
| PacketRuns.RunConserves | src/packet/root.zig:1857-1974 | Over any run headroom, packet and tailroom partition the storage; the signed delta is the length change and the tail delta its tail share. |
| PacketRuns.ResizeUndone | src/packet/root.zig:1857-1974 | Prepend and trim-head, append and trim-tail undo each other on bytes, rooms and deltas. |
| PacketEditing.EditorContext.EnsureParsed | src/packet/root.zig:1810-1816 | The lazy parse refills the cache only when blank or made under another configuration. |
| PacketEditing.EditorContext.ParsePacket | src/packet/root.zig:1626-1639 | An invalid configuration is refused before the cache changes; otherwise the parse step of the machine. |
| PacketEditing.EditorContext.WriteChecked | src/packet/root.zig:1794-1808 | Injected failure, validation failure or the recorded write: exactly the machine step. |
| PacketEditing.ReadTarget | src/packet/root.zig:2468-2585 | The bytes a setter writes, with shared bits read from the packet, are those of the flat definition. |
| PacketEditing.EditorContext.Edit | src/packet/root.zig:2446-2585 | Each setter takes exactly the edit step of the machine on storage, journal and cache. |
| PacketEditing.EditorContext.RawWrite | src/packet/root.zig:2617-2642 | The raw write takes exactly its machine step, missing declarations refused. |
| PacketEditing.EditorContext.CheckResize | src/packet/root.zig:1857-1926 | Every refusal of a resize, in order, with nothing changed. |
| PacketEditing.MovedWindow | src/packet/root.zig:1942-1964 | Over the grown storage the moved window holds exactly the resized packet. |
| PacketEditing.MoveWindow | src/packet/root.zig:1942-1964 | Resizing in place moves the window, stores the new bytes beside it and changes no other storage byte. |
| PacketEditing.EditorContext.Resize | src/packet/root.zig:1857-1974 | The four resizes take exactly the resize step of the machine on storage, descriptor, journal and snapshot. |
| Finalizing.PrepareHeaderWrites | src/packet/root.zig:2220-2235 | Each destination is validated and its old word remembered; the first refusal is the error. |
| Finalizing.BuildWrites | src/packet/root.zig:2303-2406 | The words to write, computed in place, are those of the flat plan. |
| Finalizing.PreparePlan | src/packet/root.zig:2255-2406 | Everything fallible before the first write succeeds or fails exactly as the flat plan does. |
| Finalizing.WriteAll | src/packet/root.zig:2408-2409 | The unchecked write loop applies every word to the flat bytes. |
| Finalizing.Rollback | src/packet/root.zig:2237-2239 | The rollback loop restores the frame byte for byte and marks the journal failed. |
| Finalizing.CommitWrites | src/packet/root.zig:2408-2434 | Write, reparse, keep or roll back: exactly the transaction of the machine. |
| Finalizing.FinalizeContext | src/packet/root.zig:2241-2435 | The imperative finalizer takes exactly the finalize step of the machine, so every finalization theorem holds of it. |
| Finalizing.ValidateForOutput | src/packet/root.zig:1450-1465 | The output gate answers exactly as the machine does. |
| StorageRuns.Replay | src/packet/root.zig:1712-2435 | Any sequence of operations applied in place to real storage leaves exactly the state, and returns exactly the outcomes, of the flat run. |
| Selection.All | src/packet/root.zig:498-502 | Accepted up to 64 packets and then holds exactly the packets of the batch. |
| Selection.Singleton | src/packet/root.zig:510-513 | Accepted exactly inside the batch; holds that packet alone. |
| Selection.Contains | src/packet/root.zig:516-525 | Membership, refused for an index outside the batch or a selection that reaches past it. |
| Selection.Intersect | src/packet/root.zig:528-530 | The members are the intersection of the members. |
| Selection.Without | src/packet/root.zig:533-542 | The members lose exactly the index; same refusals as membership. |
| Selection.CountIsSize | src/packet/root.zig:545-547 | The population count is the number of members. |
| Selection.MembersDecide | src/packet/root.zig:491-562 | Two words with the same members are the same word. |
| Selection.ClearLowest | src/packet/root.zig:572 | Conjunction with the predecessor clears exactly the lowest set bit. |
| Selection.YieldsAscending | src/packet/root.zig:565-575 | The iteration yields exactly the members, each once, in ascending order. |
| Selection.SelectionIterator.Next | src/packet/root.zig:569-574 | Each call yields the least member left and removes it; nothing exactly when none is left. |
| Dispositions.SelectionAccepted | src/packet/root.zig:3026-3048 | A selection write is accepted exactly for a terminal, unbound outcome and a nonempty set of still active packets, and records it at exactly those. |
| Dispositions.SelectionRefused | src/packet/root.zig:3026-3048 | The error of every refused selection write, over its members. |
| Dispositions.SelectionEffect | src/packet/root.zig:3026-3048 | The members of the selection take the outcome and leave the active set; all others keep theirs. |
| Dispositions.SetAccepted | src/packet/root.zig:3009-3023 | When a single write is accepted, the error of every refusal, and its effect. |
| Dispositions.StepTracks | src/packet/root.zig:3009-3071 | Every write keeps: bit i is set exactly when packet i of the batch is still Continue, and no bit is past the batch. |
| Dispositions.StepKeepsOutcomes | src/packet/root.zig:3009-3071 | A refused write changes nothing; an accepted one overwrites no recorded outcome and strictly shrinks the active set. |
| Dispositions.OutcomesAreFinal | src/packet/root.zig:3009-3071 | In every run of a generation a recorded outcome is never overwritten. |
| Dispositions.AcceptedBounded | src/packet/root.zig:3009-3071 | A run accepts at most one write for each packet that is no longer active, so never more writes than the batch has packets. |
| Dispositions.DispositionWriterState.AssignSelected | src/packet/root.zig:3044-3046 | The iterator loop records the outcome at exactly the selected packets. |
| Dispositions.DispositionWriterState.SetSelection | src/packet/root.zig:3026-3048 | The selection write in place takes exactly its step. |
| Dispositions.DispositionWriterState.SetOne | src/packet/root.zig:3009-3023 | The single write in place takes exactly its step. |
| Resolution.Validate | src/packet/root.zig:3101-3118 | Accepts exactly the valid routing tables and names the first defect. |
| Resolution.GroupIsFirst | src/packet/root.zig:3150-3154 | The output lookup finds the first group of that output, and fails exactly when there is none. |
| Resolution.AppendOutput | src/packet/root.zig:3156-3165 | The packet goes to the end of the group of its output. |
| Resolution.PlaceOne | src/packet/root.zig:3181-3215 | One packet is settled, resolved and placed as its destination says. |
| Resolution.Resolve | src/packet/root.zig:3168-3217 | Resolution succeeds exactly when the table is valid and every outcome is routable; every group then holds what was recorded for it, no more and no less, and otherwise the error is the first defect of the table or of the first outcome that cannot be routed; no fixed array is overrun. |
| Resolution.DestinationMeans | src/packet/root.zig:3181-3213 | Where one outcome goes: to an output exactly when it names it, or defaults to it, with the metadata of a redirect alone; and the like for drops with their reason, completions and retentions. |
| Resolution.ResolvedAsRecorded | src/packet/root.zig:3168-3217 | A packet is in the group of an output exactly when its recorded outcome and the table say so, and the like for drops, completions and retentions. |
| Resolution.PartitionIsOrdered | src/packet/root.zig:3168-3217 | Each group lists, strictly ascending, exactly the packets bound for it with what was recorded. |
| Resolution.CountsSum | src/packet/root.zig:3168-3217 | The group counts sum to the batch length. |
| Resolution.EachPacketOnce | src/packet/root.zig:3168-3217 | Each packet stands at exactly one position of the resolved groups. |
| Tokens.StepIsExact | src/packet/root.zig:132-139 | Every transition keeps both counters exact. |
| Tokens.AccountingIsExact | src/packet/root.zig:117-153 | In every run received counts the tokens that left the input, completions the ended ones, and the shutdown check passes exactly when none is outstanding: its closing comparison never decides. |
| Tokens.HistoryIsState | src/packet/root.zig:76-87 | No token is received or ended twice: its history is determined by its state. |
| Tokens.ActionPermitted | src/packet/root.zig:76-87 | An action is accepted exactly when it extends a permitted history: receive, then return, or submit and complete, or retain and complete. |
| Tokens.HistoriesArePermitted | src/packet/root.zig:117-139 | In every run the accepted actions on a token form such a history, and the next one is refused with the error its history calls for. |
| Tokens.RegisterAccepted | src/packet/root.zig:117-124 | Registration is refused exactly at the capacity or past 32 bits. |
| Tokens.TokenTracker.RegisterInput | src/packet/root.zig:117-124 | Registration in place takes its step, capacity and 32-bit limits included. |
| Tokens.TokenTracker.ApplyAction | src/packet/root.zig:132-139 | A transition in place takes exactly its step; a refused one changes nothing. |
| Tokens.TokenTracker.VerifyReceivedCompleted | src/packet/root.zig:147-153 | The scan plus the closing comparison give the verdict of the model. |
| Handles.HandleBijection | src/packet/root.zig:834-845 | Packing and unpacking an owner identity and a tag are inverse in both directions. |
| Handles.TagBijection | src/packet/root.zig:880-890 | For generations up to the maximum, packing generation and index is inverse to unpacking; every tag unpacks and repacks to itself. |
| Handles.LeaseBijection | src/packet/root.zig:2715-2731 | The same for retention leases: pool identity, 56-bit generation, record index. |
| Owners.StepIsValid | src/packet/root.zig:1277-1311 | Every owner operation keeps the owner invariant. |
| Owners.BeginAccepted | src/packet/root.zig:1277-1311 | Begin succeeds exactly when nothing is live, the batch fits, receive orders rise and a generation is left; nothing is then borrowed or withdrawn, no old writer lives, and a writer can be opened while identifiers last. |
| Owners.EndAccepted | src/packet/root.zig:1468-1474 | The live handle ends its generation and nothing else does. |
| Owners.WriterAccepted | src/packet/root.zig:2950-2970 | A writer is opened exactly for a live batch without one, while identifiers last, with every packet of the batch active. |
| Owners.MintAccepted | src/packet/root.zig:1378-1387 | A view is minted exactly for a live batch and a slot in it that is still batch-owned; it names that slot; exact errors. |
| Owners.BorrowAccepted | src/packet/root.zig:1516-1525 | A borrow marks exactly the slot behind a live view and changes nothing else. |
| Owners.BorrowedUntilBegin | src/packet/root.zig:1277-1311 | A mark stays until the next accepted begin, whatever else happens. |
| Owners.LiveExactly | src/packet/root.zig:1341-1353 | A batch handle is accepted exactly when identity and generation are those of the live batch. |
| Owners.WriterExactly | src/packet/root.zig:2972-2987 | A writer handle is accepted exactly when identity and generation are those of the live writer. |
| Owners.ViewExactly | src/packet/root.zig:892-909 | A view reaches a slot exactly when identity, generation and index name it and it is batch-owned, and is reported revoked exactly when it is not. |
| Owners.BatchHandleLives | src/packet/root.zig:1341-1353 | A batch handle minted by begin is accepted by its owner exactly while that generation is live, and by no other owner. |
| Owners.BatchHandleDies | src/packet/root.zig:1341-1353 | A batch handle of an ended generation is refused in every later state. |
| Owners.ViewHandleLives | src/packet/root.zig:892-909 | A view, editor, output or iterator handle reaches exactly its slot while its generation lives and the slot is batch-owned, and nothing in another owner. |
| Owners.ViewHandleDies | src/packet/root.zig:892-909 | Such a handle of an ended generation is refused in every later state. |
| Owners.WriterHandleLives | src/packet/root.zig:2972-2987 | A writer handle is accepted by its owner exactly while its batch is live, and by no other owner. |
| Owners.WriterHandleDies | src/packet/root.zig:2972-2987 | A writer handle of an ended batch is refused in every later state. |
| Owners.ExhaustionIsPermanent | src/packet/root.zig:1289-1290 | Once the last generation is used no batch begins again. |
| Owners.RevokedWhileLive | src/packet/root.zig:911-914 | A slot taken from its batch stays out of reach while the generation lives. |
| BatchOwner.PacketBatchOwner.Begin | src/packet/root.zig:1277-1311 | Begin starts a generation and resets the tables, or refuses and changes nothing. |
| BatchOwner.PacketBatchOwner.EnsureLive | src/packet/root.zig:1341-1353 | The batch check in place. |
| BatchOwner.PacketBatchOwner.View | src/packet/root.zig:1378-1387 | Minting a view in place gives the handle of the model. |
| BatchOwner.PacketBatchOwner.EnsureViewLive | src/packet/root.zig:892-909 | The view check in place. |
| BatchOwner.PacketBatchOwner.MarkBorrowed | src/packet/root.zig:1516-1525 | A raw token escapes a live view and marks its slot; a stale one changes nothing. |
| BatchOwner.PacketBatchOwner.RequireRevocable | src/packet/root.zig:1368-1375 | Passes exactly when no slot of the live batch has an escaped borrow. |
| BatchOwner.PacketBatchOwner.EndGeneration | src/packet/root.zig:1468-1474 | Ends the generation, or refuses a stale handle and changes nothing. |
| BatchOwner.PacketBatchOwner.OpenWriter | src/packet/root.zig:2950-2970 | Opens the one writer of a live batch with every packet active, or refuses and changes nothing. |
| BatchOwner.PacketBatchOwner.CheckedState | src/packet/root.zig:2972-2987 | The writer check in place. |
| BatchOwner.PacketBatchOwner.SetDisposition | src/packet/root.zig:3009-3023 | A live writer records; a stale one changes nothing. |
| BatchOwner.PacketBatchOwner.SetSelection | src/packet/root.zig:3026-3048 | A live writer records a selection; a stale one changes nothing. |
| BatchOwner.PacketBatchOwner.ResolveBatch | src/packet/root.zig:3168-3217 | Resolution through a live writer handle, with the first defect of the table or the first outcome that does not resolve as its error; a stale handle is refused. |
| BatchOwner.MakeOwner | src/packet/root.zig:1254-1266 | An owner is made with an identity the allocator has issued, and not made only when every identity has been issued. |
| OwnerIdentities.OwnersNeverMix | src/packet/root.zig:743-751 | Owners made with identities issued in any interleaving never accept the same handle, in any states they reach. |
| OwnerIdentities.PoolsNeverMix | src/packet/root.zig:2877-2883 | Nor do two pools accept the same lease. |
| Retention.FirstFreeIsFree | src/packet/root.zig:2847-2854 | The record search finds the first record that is not live, and fails exactly when all are. |
| Retention.StepIsValid | src/packet/root.zig:2833-2904 | Every operation of the whole system keeps live records and retained tokens in one-to-one correspondence. |
| Retention.RetainEffect | src/packet/root.zig:3051-3071 | A successful retention moves the token, fills the record with generation, owner, batch, slot and token, withdraws the slot and records the disposition, all together. |
| Retention.RetainAccepted | src/packet/root.zig:2833-2875 | A retention succeeds exactly for a live writer and batch, an undecided, batch-owned and unborrowed packet of it, a token its worker owns, and a pool with a record and a generation left; a borrowed packet is refused as such, and a refusal changes nothing. |
| Retention.BorrowBlocksRetention | src/packet/root.zig:2841-2842 | After an accepted borrow of a slot no retention of it succeeds until the next accepted begin, whatever else the system does. |
| Retention.CompleteAccepted | src/packet/root.zig:2785-2789 | A lease is completed exactly when its record is live; the record and its token are finished and nothing else changes. |
| Retention.OwnersRunAlone | src/packet/root.zig:2833-2875 | Inside the whole system each owner runs as an owner on its own, so every handle theorem applies there. |
| Retention.RetainedStaysRevoked | src/packet/root.zig:3051-3071 | After a retention no handle to the slot is minted or honoured until the generation ends, whatever else happens. |
| Retention.LiveLeaseCompletes | src/packet/root.zig:2785-2789 | A live lease can always be completed, and is then reported completed. |
| Retention.LeaseCompletesOnce | src/packet/root.zig:2785-2789 | A lease stays live with its record until completed, is completed at most once and is refused ever after. |
| Retention.DeadForever | src/packet/root.zig:2877-2893 | Recycled records reject every older lease in every later state. |
| Retention.ShutdownIsExact | src/packet/root.zig:2900-2903 | In every run a pool passes shutdown exactly when it holds no retained token, and all pools pass exactly when no token is retained. |
| RetentionPools.RetentionPool.FindFree | src/packet/root.zig:2847-2854 | The search loop in place. |
| RetentionPools.RetentionPool.LiveRecord | src/packet/root.zig:2877-2893 | The lease check in place: wrong pool, stale, completed or live. |
| RetentionPools.RetentionPool.VerifyShutdown | src/packet/root.zig:2900-2903 | The shutdown scan in place. |
| RetentionPools.ActOn | src/packet/root.zig:132-139 | A token action reaches exactly the tracker the token names; every other token keeps its state. |
| RetentionPools.RetentionPool.CheckAcquire | src/packet/root.zig:2833-2857 | Every fallible acquisition check in order, with nothing changed. |
| RetentionPools.RetentionPool.Retain | src/packet/root.zig:3051-3071 | Retention in place, with tokens of any number of trackers, takes exactly the step of the whole system; a refusal leaves token, dispositions, pool and access untouched. |
| RetentionPools.RetentionPool.Complete | src/packet/root.zig:2785-2789 | Completion in place takes exactly its step, in the tracker the token names. |
| RetentionPools.MakePool | src/packet/root.zig:2817-2824 | Capacity bound first, then an identity the allocator has issued; every record starts free. |
| Identity.StepIsConsistent | src/internal/processor_invocation.zig:48-126 | Every step of every thread keeps: issued cookies fill the counter range, and a thread holds exactly its minted, unended cookie. |
| Identity.IssuedExactlyFill | src/internal/processor_invocation.zig:68-84 | Over every interleaving with any spurious failures, issued identities are distinct, nonzero and exactly fill the values from the initial one to the counter. |
| Identity.AuthenticatesExactly | src/internal/processor_invocation.zig:121-126 | A cookie authenticates exactly on its minting thread, for its exact context, while not ended. |
| Identity.EndedNeverAgain | src/internal/processor_invocation.zig:113-126 | After a successful end the cookie never authenticates again, on any thread, for any context. |
| Identity.EndsExactly | src/internal/processor_invocation.zig:113-117 | An end succeeds exactly for the cookie the thread holds, which has not ended before; a refused one changes nothing. |
| Identity.ExhaustedForever | src/internal/processor_invocation.zig:68-84 | At the last value no step ever mints again. |
| Identity.FailureMeansOthersMinted | src/internal/processor_invocation.zig:70-81 | Between the moment a thread sees the counter and its compare-exchange, every mint is another thread's, and without a spurious failure the exchange mints if and only if there was none. |
| Identity.FailedLoadWasOvertaken | src/internal/processor_invocation.zig:70-81 | An attempt that fails after a load without a spurious failure was overtaken: another thread minted between the two. |
| Identity.SoloBegins | src/internal/processor_invocation.zig:88-110 | A thread left alone begins in three steps with the next value. |

## Left out

- Raw editor capabilities: their secrecy rests on a keyed hash and on the operating
  system; a raw write is a declared same-length write, and nothing is claimed about
  stale raw tokens.
- Allocation failures, address stability and pointer casts: objects replace them.
- Path instrumentation, packet metadata and the origin of a batch: bookkeeping that
  nothing else depends on.
- Reading through a retention lease: the same copy loop as a view read.
- Checks of a handle and of the packet behind it are stated separately, except in
  `ViewAccess`; the combination of the other public calls is the check followed by
  the operation.
- The tables of an owner are sequences of their used prefix, so stale entries past
  the slot count are not represented.
- Bitwise operators on selections act digit by digit on numbers below 2^64.
- Memory ordering: the counter is one location accessed atomically, so interleaving
  steps represent every ordering the loop can observe.
- Checksum soundness over runs is stated for structured runs, whose rules are those of
  `ResizedRuns.Allowed`; outside them the four traces of `FinalizeLimits` show what goes
  wrong and `FinalizeTheorems.FinalizeLengths` gives the exact condition from any state.
- Storage.Contiguous: the walk behind the checks; the public call with its handle
  check and borrow mark is `ViewAccess.Contiguous`.
- SegmentIteration.SegmentIterator.Next: the step behind the checks; the public call
  with its handle check and borrow mark is `ViewAccess.NextSegment`.
- BatchOwner.PacketBatchOwner.MarkBorrowed: the raw token, which has no index of its own;
  the checked segment access of an output packet is `ViewAccess.AdapterSegment`.
- BatchOwner.PacketBatchOwner.Begin: parse caches and journals of a new generation are
  those of a new `EditorContext`; the counter of injected attempts is a parameter here.
- SlotSetup.InitMutableSlot: descriptors that share a storage array are accepted, as in the
  original; what edits mean on such a slot is not modelled.
- SetterMeaning.SetterReadsBack: for packets whose transport is decoded; for the others
  `SetterMeaning.NetworkSetterReadsBack` covers link and network values.
- Owners and pools of several threads: each belongs to one worker, as in the original.
- The pipeline, processors, queues and capture files around the engine.
