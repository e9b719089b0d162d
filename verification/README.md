# The re-framing engines of eti-tools, modelled and verified in Dafny

The programs in this repository take DAB multiplexes apart and put them together again: fragments of EDI packets
(PFT), sections of MPEG transport streams, GSE fragments in DVB-S2 baseband frames, ETI frames over a shifted and
interleaved G.704 line, service announcements, UECP chunks. Their hard part is the same everywhere: bytes or bits arrive
cut up, reordered, repeated or interleaved, and what comes out has to be the packet that went in. This project models
those engines without their input and output and proves that it is.

Check everything with `dafny verify dfyconfig.toml`.

## How the model is built

Each engine has a specification on values - a map of fragments, a log of packets, a list of sections, a position in a
table - and an imperative model in the form of the source: a class with the source's fields, or methods with the
source's loops over arrays, proved against that specification step by step. What the source promises is then proved
about the specification, for every input and every run.

| file | models | main results |
|---|---|---|
| `Arith.dfy`, `Bits.dfy` | arithmetic facts; bytes, big-endian fields, words, bit strings | the words of the C code as numbers, with shift, or, exclusive-or written out |
| `Crc.dfy` | `crc.c`, `buffer_unpack.h`, `wfcrc.c`, the CRC inversion of `ni2out.c` | tables refine bit-serial division, the generators build them, two checkers agree, bursts up to 16 bits are found |
| `Fec.dfy`, `Pft.dfy`, `PftHandler.dfy`, `PftHeader.dfy` | `pf_parser.c` | every packet is delivered exactly once, with and without FEC; erasures are exactly the losses; `pushPFTFrag` refines the collector |
| `FecRecovery.dfy` | the FEC branch of `pf_parser.c` under loss | packets that lost fragments come back, and which erasures the decoder is told wrongly |
| `PftStream.dfy` | `pf_parser.c` over a whole stream of packets | what comes back of a reordered, repeated, lossy stream, and when it comes back in order |
| `Psi.dfy` | `process_ts` of `fedi2eti.c` | every permitted packetisation is received as the sections sent, also from the middle on and after losses; nothing malformed is ever called back |
| `Gse.dfy` | `processGseDataField` of `bbfedi2eti.cpp` | what is handed out is read off the packets; FragIDs never disturb each other |
| `Ipv4.dfy`, `Scanners.dfy` | checksums, packet inspection and the two stream scanners of `bbfedi2eti.cpp` | packets and frames are found as they were written, however the input was read |
| `EtiFrame.dfy` | `eti_assembler.c` and the frame walk of `ni2out.c` | the walk undoes the assembly, and every other field stands at its byte position |
| `EtiTags.dfy`, `EdiHandler.dfy` | `tag_parser.c`, `af_parser.c` | a multiplex described in TAG items, in any order, is read back from the frame |
| `EdiPipeline.dfy` | `HandleEDIPacket` of `af_parser.c`, all layers in one run of datagrams | AF datagrams and fragments, in any order, repeated and mixed, emit the frames of the packets they bring |
| `EdiEndToEnd.dfy` | the same from multiplex to frame | one frame for each multiplex of a stream, reordered, repeated and lossy, and it reads back |
| `DvbReception.dfy` | the way from `processBbframeStream` to `HandleEDIPacket` in `bbfedi2eti.cpp`, filters included | from the bytes of a DVB-S2 carrier to the ETI frames of the multiplexes |
| `Na2Ni.dfy` | `na2ni.c` | no bit is lost or moved in realignment; the deinterleaver and the gather invert the interleaver |
| `ServiceList.dfy` | `wfficproc.c` | the linked list is the insertion-ordered map of the announcements |
| `Uecp.dfy` | `uecp_process_ext` of `mpe2aac.c` | exactly-once forwarding, and when it fails |

## Where the code does less than one would expect

Ten results are conditions rather than promises. Each is proved in both directions or case by case, and each has an input
that fails.

- A fragment set with nothing lost reaches the FEC decoder if and only if 48 * cmax >= Plen (`Pft.ReadyWhenComplete`,
  `Pft.DeliveredWithFec`). The test asks for one fragment more than the threshold when the last one is present, so a
  packet of few long fragments is dropped although it is complete (`Pft.RefusedExample`).
- The erasure list of a chunk names the places where bytes are missing if and only if RSk is 207 or no check byte is lost
  (`FecRecovery.NamedIff`): the check bytes stand behind the padding in the decoder's word, but are named by their place in
  the chunk. With up to 48 fragments every loss hits check bytes (`FecRecovery.LossHitsChecks`). Packets are recovered all
  the same as long as the decoder can correct that many unnamed errors (`FecRecovery.DeliveredDespiteLoss`).
- The packets of a stream that come back do so in the order of their numbers if and only if, whenever the slot of one of
  them is claimed, no greater one of them has had its slot claimed before (`PftStream.OrderIff`): a slot is handed out when
  the next packet of that slot begins to arrive. Packets that begin to arrive in order and of which none is lost altogether
  come back in order (`PftStream.SteadyInTurn`); overtaking (`PftStream.OvertakenExample`) or the loss of one packet
  (`PftStream.LossReordersExample`) changes the order.
- An emitted frame reads back as the multiplex it was built from if and only if the FIC flag of the last deti item was set
  and every stream is a whole number of eight-byte units (`EtiFrame.EmittedFrameReadsBack`). A deti item without FIC leaves
  the previous FIC in the builder, and the assembler writes it; the walk then misses the FIC (`EtiFrame.FicNeedsFlag`) and
  reads every stream that many bytes too early (`EtiFrame.StreamsDisplaced`, `EdiHandler.FicLost`).
- The assembler accepts streams that are not whole units and rounds STL down: whole units decide whether a multiplex with
  its FIC reads back (`EdiHandler.MultiplexPreserved`, `EtiFrame.PartialUnitLost`).
- A UECP frame is forwarded once for all repetition counts if and only if its last chunk does not begin with 0xFE
  (`Uecp.OnceIffTerminated`). The comment above the structure says that repeated chunks are skipped; a frame in a single
  chunk is sent as often as it is repeated (`Uecp.SingleChunkRepeats`).
- The loop over the fragments of one datagram goes on at the last length instead of adding the lengths up. It reads every
  fragment once and ends if and only if there is a single one (`EdiPipeline.ReadOnceIffSingle`); with two of the same
  length it does not end (`EdiPipeline.SecondReadForever`).
- After lost transport packets, one that continues a section under a wrong counter is dropped (`Psi.ResumesAfterLoss`),
  and one in which a section begins behind pointer 0 replaces what was interrupted (`Psi.RestartsAfterLoss`). One with
  pointer 0 and only stuffing does neither: the interrupted section stays, with the new counter, and a packet that
  continues nothing then completes it with bytes that are not its own (`Psi.Spliced`).
- An IPv4 packet in a raw stream is found without an Ethernet header if and only if its addresses do not read like one
  (`Ipv4.FramingFound`, `Ipv4.LooksFramed`): packets from 8.0.64.0/20 are taken for Ethernet.
- A TAG packet is decoded up to the first tag that is not recognised (`EtiTags.StopsAtUnknown`). The comment says that Fsst
  is, but the number it is compared with spells Fstt, so all items behind an Fsst item are lost
  (`EtiTags.FsstEndsPacket`).

The field called `errorsCorrected` counts the bytes of missing fragments, not what the decoder corrected
(`PftHandler.MarkedIsLoss`). `PktLost` counts a whole packet for every claim of a slot that is not tried once anything was
tried, also where the slot was empty (`PftStream.Tally`, `PftStream.CountersShow`).

## Preconditions

Where the C code reads or writes without a check, the model has a precondition. They are:

- fragment index below the fragment count; with FEC a payload that is not empty and at most 207 data bytes per chunk;
  payloads no longer than the configured one;
- in a slot that passes the threshold with FEC, the missing bytes in chunks that the erasure table has rows for, and RSz no
  larger than cmax * RSk (`Decodable`); otherwise the size in the C code wraps. Of an empty slot that is so exactly if
  RSz is 0 (`PftHandler.EmptySlotReadyIff`);
- transport packets whose continuation bytes and pointer lie inside the packet, and whose bytes in front of the pointer
  target, added to those gathered, fit the 4095-byte buffer (`InBounds`); every permitted packetisation satisfies it
  (`Psi.CarriedInBounds`);
- for what is said of a stream of packets, that no fragment is overtaken by one sent eight or more packets later (`Near`),
  which is what eight slots allow, and that between two packets under one Pseq, 65536 apart, another one of their slot
  arrives (`Apart`), because otherwise they are not told apart (`PftStream.AliasLost`);
- TAG items inside their packet and at most 64 streams;
- in a datagram, behind a fragment no second one (`OneFragment`), because the loop may not end then;
- a multiframe whose management byte is right in `eti_ni_copy`, which exits otherwise.

The Reed-Solomon decoder is a parameter. Where nothing is lost, all that is used of it is that it leaves codewords alone
(`FixesCodewords`); where fragments are lost, that it corrects what 48 check bytes can correct, an unnamed error counting
twice (`Corrects`). Both are stated where they are used. What becomes of a packet that is tried with more loss than that
is left to the decoder: `PftStream.Decided` says so of streams, and the other packets are not affected
(`PftStream.EnoughIsDelivered`).

The counters of `pushPFTFrag` are 32-bit and wrap in the model. Between two calls the flag `packetsIsProcessed` is always
false. The contents of freshly allocated buffers are left open. Run properties start from a zeroed handle and hold for one
header configuration, because re-initialisation does not clear the counters. `RunFits` says what such a run is; every
regular run without FEC is one (`PftHandler.PlainRunFits`), and with FEC those of `PftHandler.CodedRunFits` and
`PftStream.CodedStreamFits` are.

## Model

| member | source | states |
|---|---|---|
| `Bits.BigEndian` | buffer_unpack.h:12-25 | the most significant byte of a field stands first |
| `Crc.CrcLoop` | crc.c:237-261 | the table-driven loops `crc8`, `crc16`, `crc32` (one text, width 8, 16, 32) compute the bit-serial shift register for every message and start value |
| `Crc.ByteStep` | crc.c:246-252 | one table look-up equals eight steps of the shift register, for every width from 8 up, every register and byte |
| `Crc.CrcConcat` | crc.c:246-252 | the CRC of a concatenation is the CRC of the second part started with the CRC of the first |
| `Crc.FeedByte` | crc.c:181-188 | the generator's inner loop, which tests bits with a moving mask, is the shift register fed with the byte's bits in order |
| `Crc.InitTable` | crc.c:172-234 | the three generators fill entry i by feeding `i ^ 0xff` and then clearing the ones that came from the start value |
| `Crc.GeneratorBuildsTable` | crc.c:193-212 | with an all-ones start value every generator builds the table that `CrcLoop` needs, for every polynomial and width |
| `Crc.SerialInjective` | crc.c:246-252 | for an odd polynomial two different registers stay different under any common input |
| `Crc.CheckCrcLoop` | buffer_unpack.h:31-39 | `checkCRC`, run through the table, decides the bit-serial checksum test |
| `Crc.CheckIsResidue` | buffer_unpack.h:31-39 | a packet passes exactly when the register over all its bits, CRC field included, ends in one fixed residue |
| `Crc.BurstDetected` | buffer_unpack.h:31-39 | two accepted packets of equal length that differ only inside some 16 consecutive bits are equal, at any length, also across the CRC field |
| `Crc.AdjacentBytesDetected` | buffer_unpack.h:31-39 | damage confined to two neighbouring bytes of an accepted packet is always rejected |
| `Crc.CrcCheck` | wfcrc.c:68-79 | `crccheck` accepts exactly the buffers whose register ends in zero |
| `Crc.CheckersAgree` | ni2out.c:703-707 | `crccheck` on a buffer with its last two bytes inverted accepts exactly when `checkCRC` accepts the original |
| `Crc.AccessUnitCheck` | ni2out.c:698-707 | the in-place inversion changes exactly two bytes, and for units of two bytes or more the verdict is that of `checkCRC` on the unit as it came |
| `Crc.AppendedCrcAccepted` | eti_assembler.c:118-127 | a body followed by its complemented CRC passes `checkCRC` |
| `Crc.FieldUnique` | buffer_unpack.h:31-39 | and no other two bytes behind the body do |
| `Crc.PolynomialInTable` | crc.c:32-169 | entry 1 of a table is its polynomial, so the three tables as printed are those of 0x07, 0x1021 and 0x04c11db7 |
| `Crc.KnownPacket` | buffer_unpack.h:31-39 | polynomial, start value, bit and byte order in one number: behind the byte 01, `checkCRC` takes 0e 2e and nothing else |
| `Fec.ColumnBound` | pf_parser.c:132-143 | one missing fragment costs a chunk at most ceil((RSk+48)/Fcount) bytes |
| `Fec.RowBound` | pf_parser.c:130-143 | a chunk has at most m * ceil((RSk+48)/Fcount) erasures for m missing fragments |
| `Fec.RowMember` | pf_parser.c:120-145 | an erasure row lists an offset exactly when that byte of that chunk belongs to a missing fragment |
| `Fec.RowDistinct` | pf_parser.c:137-142 | no offset is listed twice |
| `Fec.RowFits` | pf_parser.c:106-118 | no row outgrows the 256 cells of the table |
| `Fec.ErasuresTotal` | pf_parser.c:158-162 | when the bytes of the missing fragments lie in chunks that are decoded, the rows add up to (missing fragments) * Plen |
| `Fec.ExactFit` | pf_parser.c:106-145 | that is so for every loss when the fragments hold exactly the chunks |
| `Fec.ChunkCount` | pf_parser.c:308-309 | the receiver's quotient Fcount*Plen/(RSk+48) is the number c of chunks sent, for every c and every Fcount up to RSk+48 |
| `Fec.ThresholdBoundsLoss` | pf_parser.c:311-313 | reaching the fragment threshold means at most 48 lost bytes per chunk on average |
| `Fec.BlockOfSpread` | pf_parser.c:120-125 | deinterleaving undoes the column-wise spreading of the sender, whatever the cells behind the packet are padded with |
| `Fec.DecodedOfEncoded` | pf_parser.c:148-188 | chunk by chunk, padding to 255, decoding and cutting gives back the data of an intact RS packet |
| `Pft.StartIsClear` | pf_parser.c:277-291 | the numbers `i + 1` put into unused slots never match their slot: only the configuring Pseq finds its slot under its own number |
| `Pft.Collecting` | pf_parser.c:324-376 | under any interleaving a slot holds exactly the set of fragments received for its Pseq, and nothing is handed out meanwhile |
| `Pft.DecidedOnce` | pf_parser.c:247-381 | the same for any set of fragments, complete or not: what is handed out over a whole run is what the set received rebuilds, once |
| `Pft.ExactlyOnce` | pf_parser.c:247-381 | a packet all of whose fragments arrived, in any order and with repetitions, is decided exactly once over the whole run: nothing before the first Pseq that claims its slot, its result there, nothing behind |
| `Pft.JoinPieces` | pf_parser.c:193-195 | the collected payloads, joined at multiples of Plen, are a prefix of the packet that was cut |
| `Pft.DeliveredWithoutFec` | pf_parser.c:247-381 | from a zeroed handle, an AF packet cut into Fcount pieces comes back exactly once over the whole run, with exactly its bytes |
| `Pft.LostWithoutFec` | pf_parser.c:324-342 | without FEC a packet of which one fragment is missing is never handed out, whatever arrives before and behind |
| `Pft.ReadyIff` | pf_parser.c:308-328 | the test before decoding in numbers: without FEC nothing is missing; with FEC the m missing fragments hold at most the 48 * cmax check bytes, and m + 1 do if the last fragment arrived |
| `Pft.ReadyExample` | pf_parser.c:308-328 | ten fragments of 51 bytes: nine without the last are tried, nine with it are not |
| `Pft.ReadyWhenComplete` | pf_parser.c:326-328 | with nothing lost the decoder is reached if and only if 48 * cmax >= Plen |
| `Pft.RebuiltComplete` | pf_parser.c:111-191 | with nothing lost, deinterleaving and decoding rebuild the data without its RSz padding bytes |
| `Pft.ResultWithFec` | pf_parser.c:326-342 | with nothing lost, the slot yields the AF packet if 48 * c >= Plen and nothing otherwise |
| `Pft.DeliveredWithFec` | pf_parser.c:247-381 | delivery with FEC over a whole run, for any padding of the last column: exactly once if 48 * c >= Plen, never otherwise |
| `Pft.RefusedExample` | pf_parser.c:304-328 | a packet that arrives complete and is never handed out: twelve bytes in one fragment of 60 |
| `Pft.EmptySlotSilent` | pf_parser.c:326-342 | claiming a slot that holds nothing returns nothing, for a payload that is not empty and RSk up to 207 |
| `PftHandler.EmptySlotReadyIff` | pf_parser.c:304-342 | an empty slot passes the threshold if and only if RSk is 0 and Fcount * Plen is a multiple of 48, and is then decodable if and only if RSz is 0 |
| `Pft.ShareOfDelivered` | pf_parser.c:247-381 | the packets handed out under one Pseq are its share of all packets handed out, in order |
| `Pft.DeliveredNamed` | pf_parser.c:247-381 | nothing is handed out under a Pseq that no fragment carried |
| `Pft.ReadyBoundsErasures` | pf_parser.c:311-328 | a slot that passes the threshold has (missing fragments) * Plen erasures, at most 48 per chunk on average |
| `Pft.InOrderComplete` | pf_parser.c:247-381 | a sender that sends all fragments in order meets the conditions of the delivery theorems |
| `Pft.SentInOrder` | pf_parser.c:247-381 | sent in order and claimed by any fragment of another packet in its slot, every AF packet comes back, and nothing else does |
| `Pft.CodedSentInOrder` | pf_parser.c:247-381 | the same with FEC, the claiming fragment having the length of all others: handed out or refused as 48 * c compares with Plen, and nothing else either way |
| `FecRecovery.CorrectsFixes` | pf_parser.c:172-181 | a decoder that corrects up to its radius leaves codewords alone, so all results without loss hold for it |
| `Fec.NoDecoderFixes` | pf_parser.c:172-181 | so does a build without the library, which changes nothing |
| `FecRecovery.NamedIff` | pf_parser.c:137-143 | the erasure list names exactly the places of the 255-byte word where bytes are missing if and only if RSk is 207 or no check byte is lost |
| `FecRecovery.LossHitsChecks` | pf_parser.c:130-143 | with up to 48 fragments every missing fragment costs every chunk one of its check bytes |
| `FecRecovery.RowNamesLoss` | pf_parser.c:119-145 | a chunk of the receiver's block can differ from the chunk sent only where its erasure row says so |
| `FecRecovery.ChunkRecovered` | pf_parser.c:148-187 | a decoder that corrects up to its radius restores a chunk, the check bytes named wrongly counting as unnamed errors |
| `FecRecovery.RebuiltDespiteLoss` | pf_parser.c:104-191 | with fragments missing, if every chunk is within the radius, deinterleaving and decoding give the AF packet back |
| `FecRecovery.TriedIff` | pf_parser.c:308-328 | a slot with FEC is tried exactly if its loss can be afforded in these numbers |
| `FecRecovery.DeliveredDespiteLoss` | pf_parser.c:247-381 | over a whole run a packet whose loss can be afforded and whose chunks are within the radius is handed out exactly once, with its own bytes |
| `FecRecovery.LossBudget` | pf_parser.c:130-143 | m missing fragments are within the radius when m * ceil((RSk + 48) / Fcount) is at most 48, or 16 for RSk below 207 |
| `FecRecovery.DeliveredWithinBudget` | pf_parser.c:247-381 | what a sender can rely on in its own numbers: m fragments lost, B = ceil((RSk + 48) / Fcount): if (m + 1) * B <= 48 and, for RSk below 207, m * B <= 16, the packet comes back exactly once |
| `PftStream.HoldingStep` | pf_parser.c:324-376 | in a stream of packets, fragments or whole packets lost and repeated, every fragment keeps every slot equal to what arrived of the last packet seen there |
| `PftStream.Decided` | pf_parser.c:247-381 | over every such stream each packet behind which another one of its slot arrives is decided once, by what arrived of it, when that one begins to arrive; nothing else is handed out |
| `PftStream.DecidedIff` | pf_parser.c:324-352 | the packets decided are exactly those behind which another one of their slot was seen, each once |
| `PftStream.AliasLost` | pf_parser.c:324-376 | two packets 65536 apart that follow one another in a slot are not told apart: fragments of the second are dropped |
| `PftStream.PlainStream` | pf_parser.c:247-381 | without FEC, whatever is lost, exactly the packets that arrived whole and are decided come back, with their own bytes |
| `PftStream.CodedStream` | pf_parser.c:247-381 | with FEC and any decoder that leaves codewords alone, where packets arrive whole or in parts too small to try: the whole ones if 48 * cmax >= Plen, and otherwise none |
| `PftStream.CanTryIff` | pf_parser.c:308-328 | which packets of a stream are tried, in numbers of missing fragments |
| `PftStream.LossyStream` | pf_parser.c:247-381 | with FEC and a decoder that corrects, exactly the packets of which enough arrived, in numbers of missing fragments, where of the others too little arrived to try |
| `PftStream.EnoughComesBack` | pf_parser.c:104-217 | a packet of which enough arrived gives its own bytes, whatever became of the others |
| `PftStream.EnoughIsDelivered` | pf_parser.c:247-381 | so over the whole run it is among those handed out |
| `PftStream.OrderIff` | pf_parser.c:247-381 | whichever packets come back of a stream, they do so in the order of their numbers if and only if, whenever the slot of one of them is claimed, no greater one has had its slot claimed before |
| `PftStream.SteadyInTurn` | pf_parser.c:324-352 | that is so when packets begin to arrive in order and none is lost altogether |
| `PftStream.OvertakenExample` | pf_parser.c:324-376 | fragments that arrive 0, 1, 9, 8: packet 1 comes back before packet 0 |
| `PftStream.LossReordersExample` | pf_parser.c:324-376 | fragments that arrive in order, packet 16 lost: packet 9 comes back before packet 8 |
| `PftHeader.HandlePfPacket` | pf_parser.c:32-101 | the parser with its running index decides every packet as `ReadFragment` does, including the malformed, short and damaged ones |
| `PftHeader.HeaderRoundTrip` | pf_parser.c:43-94 | a fragment written with its header CRC is read back whole, whatever follows it |
| `PftHeader.HeaderCrcDecides` | pf_parser.c:75-86 | with FEC a fragment with other CRC bytes than its own is lost, and only its header is skipped |
| `PftHeader.CrcIgnoredWithoutFec` | pf_parser.c:74-82 | without FEC the two bytes of the header CRC have no influence on the result, with and without the address fields |
| `PftHandler.StoreTracks` | pf_parser.c:367-376 | storing a new fragment keeps counters, flags and buffer in agreement with the set of fragments |
| `PftHandler.PiecesConform` | pf_parser.c:367-376 | the pieces of a packet cut without FEC leave no gaps in the buffer |
| `PftHandler.FillColumn` | pf_parser.c:120-134 | one column of the deinterleaver, received or zero-filled |
| `PftHandler.Deinterleave` | pf_parser.c:120-145 | the nested loops fill the block so that byte i is byte i / Fcount of fragment i % Fcount, or zero |
| `PftHandler.MarkColumn` | pf_parser.c:130-143 | a missing fragment appends exactly its offsets to the rows of its chunks |
| `PftHandler.MarkErasures` | pf_parser.c:106-145 | the erasure table is the specified one and each row leaves room for its terminator, for every loss whose bytes lie in the chunks decoded |
| `PftHandler.DecodeChunks` | pf_parser.c:148-188 | the chunk loop produces the decoded data and counts the erasures handed to the decoder |
| `PftHandler.MarkedIsLoss` | pf_parser.c:158-162 | the erasures counted are (missing fragments) * Plen |
| `PftHandler.RebuildFec` | pf_parser.c:110-191 | the FEC branch rebuilds the packet of the abstract collector, at the size cmax*RSk-RSz |
| `PftHandler.RebuildPlain` | pf_parser.c:193-196 | the branch without FEC hands over the buffer at the sum of the payload lengths; for fragments of regular length that is the joined payloads |
| `PftHandler.CheckAf` | pf_parser.c:198-216 | an AF packet is passed on with 12 bytes or more and, if flagged, a right CRC |
| `PftHandler.ResetCollectors` | pf_parser.c:277-291 | a new configuration clears flags, keeps counters and renumbers the slots |
| `PftHandler.Thresholds` | pf_parser.c:304-320 | cmax counts the whole chunks in the fragments; Fcount - rxmin is the largest loss within 48 bytes a chunk; 0 <= rxmin <= Fcount, and rxmin > 0 when RSk > 0 |
| `PftHandler.AfBuilders.constructor` | af_parser.c:28-39 | a zeroed handle is the idle collector |
| `PftHandler.AfBuilders.Initialise` | pf_parser.c:254-322 | an inconsistent fragment sets up all eight collectors for its own header |
| `PftHandler.AfBuilders.Decode` | pf_parser.c:104-217 | decoding one slot leaves the packet of the abstract collector and raises the error count by (missing fragments) * Plen |
| `PftHandler.AfBuilders.GiveUp` | pf_parser.c:326-351 | what is returned and counted when another Pseq claims a slot |
| `PftHandler.AfBuilders.Configure` | pf_parser.c:254-322 | after a configuring fragment the handle is the abstract collector started with it |
| `PftHandler.AfBuilders.Collect` | pf_parser.c:324-378 | every consistent fragment is one step of the abstract collector, with its result and its loss statistics |
| `PftHandler.AfBuilders.PushFragment` | pf_parser.c:247-381 | `pushPFTFrag` refines the abstract collector on every fragment: state, returned packet, and all counters, in both branches |
| `PftHandler.AfBuilders.PushOne` | pf_parser.c:247-381 | the next fragment of a run returns a packet exactly when the abstract collector hands one out, and it is that packet |
| `PftHandler.AfBuilders.PushAll` | pf_parser.c:247-381 | over a whole run from a zeroed handle the packets returned, one after the other, are exactly those the delivery theorems speak of, and every counter is recorded |
| `PftHandler.AfBuilders.TuneIn` | pf_parser.c:247-381 | the same when the receiver comes in at the end of packets: last fragments of several are passed over |
| `PftHandler.CodedRunFits` | pf_parser.c:247-381 | with FEC every run of regular fragments, whatever is lost, meets what `PushAll` requires if the fragments hold exactly the chunks |
| `PftHandler.CodedSendingFits` | pf_parser.c:247-381 | a coded packet sent in order and claimed meets it for every size |
| `PftStream.CodedStreamFits` | pf_parser.c:247-381 | a coded stream meets it if what is lost of each packet that is tried lies in chunks that are decoded |
| `PftStream.ReceivePlain` | pf_parser.c:247-381 | `pushPFTFrag` over a whole stream without FEC returns exactly the packets that arrived whole and are decided, and its counters show the tally |
| `PftStream.ReceiveCoded` | pf_parser.c:247-381 | the same with FEC and any decoder that leaves codewords alone |
| `PftStream.ReceiveLossy` | pf_parser.c:247-381 | the same with FEC and a decoder that corrects: exactly the packets of which enough arrived |
| `PftStream.CountersShow` | pf_parser.c:324-352 | the counters of lost fragments and missing bytes over a whole stream: what packets that are tried lack, and whole packets for every other claim of a slot, also an empty one, once a packet was tried |
| `Psi.SizeFromHeader` | fedi2eti.c:70-71 | the length of a section depends on its first three bytes only |
| `Psi.WrittenHeader` | fedi2eti.c:48-62 | flags, counter and payload position of every packet header written from its fields |
| `Psi.WrittenSize` | fedi2eti.c:68-71 | the length of a section written with any flags and body is read back, and the section is accepted exactly for 1 to 4092 bytes behind the length |
| `Psi.SectionsAreWritten` | fedi2eti.c:68-71 | nothing else is accepted: every section is written that way |
| `Psi.StepSound` | fedi2eti.c:95-219 | on any packet whose reads and writes stay inside its arrays, the state stays sound and every section handed out has 4 to 4095 bytes, as many as its own header says |
| `Psi.RunSound` | fedi2eti.c:95-219 | the same over every run of such packets |
| `Psi.ScanOfFills` | fedi2eti.c:144-178 | the receiver's scan of a start packet finds exactly the sections the sender put there and keeps the one cut off, also one cut inside its header |
| `Psi.ReceivesExactly` | fedi2eti.c:95-219 | every packetisation that section 2.4.4 of ISO/IEC 13818-1 permits (without adaptation fields) is received as exactly the sections sent, in order |
| `Psi.CarriedInBounds` | fedi2eti.c:95-219 | every permitted packetisation of sections of 4 to 4095 bytes keeps all reads and writes inside packet and buffer |
| `Psi.PackCarries` | fedi2eti.c:95-219 | a dense packer is one of those packetisations |
| `Psi.RoundTrip` | fedi2eti.c:95-219 | writing any list of sections with their lengths, packing them and receiving the packets gives the list, inside all bounds |
| `Psi.JoinsMidStream` | fedi2eti.c:95-219 | an idle receiver hands out exactly the sections that begin from now on |
| `Psi.Interrupted` | fedi2eti.c:116-122 | a packet that continues a section under a counter that does not follow ends it and is dropped |
| `Psi.ResumesAfterLoss` | fedi2eti.c:95-219 | after lost packets, such a packet is dropped, and from the next one on exactly the sections that begin come out |
| `Psi.RestartsAfterLoss` | fedi2eti.c:144-178 | after lost packets, a packet in which a section begins behind pointer 0 loses nothing |
| `Psi.Spliced` | fedi2eti.c:104-219 | but one with pointer 0 and only stuffing keeps the interrupted section, and the next packet completes it with bytes that are not its own |
| `Psi.PointerBeyond` | fedi2eti.c:106-115 | a pointer of 184 or more ends the section under way and nothing of the packet is read |
| `Psi.PointerDecides` | fedi2eti.c:116-141 | the bytes in front of the pointer target end the section under way exactly if that gives it the length it announces; otherwise it is given up with the rest of the packet |
| `Psi.ScanMalformed` | fedi2eti.c:156-158 | behind an impossible length nothing more of a packet is read; the sections in front of it are handed out |
| `Psi.PsiReceiver.constructor` | fedi2eti.c:73-86 | a zeroed receiver waits for a start packet |
| `Psi.PsiReceiver.ScanPacket` | fedi2eti.c:144-178 | the section loop over one packet ends and does what the abstract scan does |
| `Psi.PsiReceiver.FinishPending` | fedi2eti.c:123-140 | the bytes before the pointer target end the pending section exactly if its length fits |
| `Psi.PsiReceiver.StartPacket` | fedi2eti.c:104-179 | a packet with payload_unit_start is one abstract step |
| `Psi.PsiReceiver.CompleteHeader` | fedi2eti.c:189-204 | a header cut after one or two bytes is completed |
| `Psi.PsiReceiver.Extend` | fedi2eti.c:205-216 | a continuation ends the section or extends it by a full packet body |
| `Psi.PsiReceiver.Continue` | fedi2eti.c:180-217 | a packet without payload_unit_start is one abstract step |
| `Psi.PsiReceiver.ProcessTs` | fedi2eti.c:95-219 | `process_ts` over its three counters and its buffer refines the abstract receiver, callback by callback |
| `Psi.PsiReceiver.ProcessAll` | fedi2eti.c:95-219 | a stream of packets, one call each, refines the abstract run |
| `Psi.PsiReceiver.ReceiveSections` | fedi2eti.c:95-219 | what a sender wrote and packetised as permitted is called back: exactly its sections, in order |
| `Psi.PsiReceiver.JoinSections` | fedi2eti.c:95-219 | the same for a receiver that comes in between the packets of a section: exactly the sections that begin afterwards |
| `Gse.MapIsLog` | bbfedi2eti.cpp:454-564 | in every run the fragment map is a function of the packet logs; every entry keeps 0 < total and size <= total |
| `Gse.LogStep` | bbfedi2eti.cpp:492-562 | how one packet changes the log's view of one FragID |
| `Gse.EndDelivers` | bbfedi2eti.cpp:537-562 | a PDU is handed out exactly when an IPv4 start is open and covers it: last start payload, all intermediates, end payload without its CRC |
| `Gse.Isolated` | bbfedi2eti.cpp:516-562 | packets of one FragID never affect the map entry or the PDUs of another |
| `Gse.FragmentationDelivers` | bbfedi2eti.cpp:492-562 | any fragmentation of a PDU, interleaved in any way with other FragIDs, hands out that PDU next among those of its FragID |
| `Gse.TraceIsDelivered` | bbfedi2eti.cpp:454-564 | what the receiver hands out is one sequence, of which each FragID has its share |
| `Gse.FragmentedIsHanded` | bbfedi2eti.cpp:492-562 | so the PDU is handed out by the receiver, behind those of its FragID that came before, whatever follows |
| `Gse.TraceIsMeant` | bbfedi2eti.cpp:454-564 | over every run what is handed out, in order, is read off the packets: the PDU of each complete packet of protocol 0x0800, and what each End packet completes of its FragID |
| `Gse.CompleteHanded` | bbfedi2eti.cpp:478-490 | the PDUs handed out that came in one packet are, in order, exactly those of the complete packets of protocol 0x0800 |
| `Gse.CutsDelivered` | bbfedi2eti.cpp:492-562 | a FragID under which a sender fragments one PDU after the other hands out those PDUs, whatever comes between |
| `Gse.SenderIsReceived` | bbfedi2eti.cpp:454-564 | all of it together for a sender that mixes complete packets and FragIDs freely |
| `Gse.InvalidAreRefused` | bbfedi2eti.cpp:454-564 | the packets counted as invalid are those too short for their header and those with more payload than their total length leaves |
| `Gse.ReadWritten` | bbfedi2eti.cpp:460-500 | every GSE packet written per section 4.2 of ETSI TS 102 606-1, with every kind of label, is read back |
| `Gse.FieldRoundTrip` | bbfedi2eti.cpp:459-476 | a data field of packets, with or without zero padding, reads back as those packets |
| `Gse.FieldsRoundTrip` | bbfedi2eti.cpp:454-476 | the data fields of a sender read back as its packets |
| `Gse.GseReceiver.Receive` | bbfedi2eti.cpp:478-562 | the branches of the loop body, on the map and the counters, are one step of the specification |
| `Gse.GseReceiver.ProcessDataField` | bbfedi2eti.cpp:454-564 | `processGseDataField` applies the packets of a field in order to what earlier fields left; all counters exactly |
| `Gse.GseReceiver.ProcessFields` | bbfedi2eti.cpp:454-564 | several fields: fragments carry over from one to the next |
| `Gse.GseReceiver.ReceiveFields` | bbfedi2eti.cpp:454-564 | what a sender packed into fields is handed out, from the bytes on: the PDUs of its complete IPv4 packets in order, those of each FragID in order, and nothing else |
| `Ipv4.Fold` | bbfedi2eti.cpp:82-84 | the folding loop ends and accepts exactly the sums that are nonzero multiples of 65535 |
| `Ipv4.SumWords` | bbfedi2eti.cpp:76-81 | the loop adds the big-endian words, an odd last byte padded with zero |
| `Ipv4.OddPadded` | bbfedi2eti.cpp:76-81 | an odd last byte counts as if a zero byte followed |
| `Ipv4.HasValidChecksum` | bbfedi2eti.cpp:73-85 | `hasValidChecksum` for up to 65535 bytes, within 32 bits |
| `Ipv4.HasValidUdpChecksum` | bbfedi2eti.cpp:112-130 | the UDP test with pseudo-header, and a zero field accepted |
| `Ipv4.PseudoHeader` | bbfedi2eti.cpp:118-126 | the sum is that of RFC 768: addresses, a zero byte, protocol, UDP length, datagram |
| `Ipv4.FieldInSum` | bbfedi2eti.cpp:76-81 | a 16-bit field at an even offset enters the sum with its value |
| `Ipv4.SenderChecksumAccepted` | bbfedi2eti.cpp:112-130 | a field computed as RFC 1071 and RFC 768 say makes the sum acceptable, also where the sender must write 0xffff |
| `Ipv4.DatagramWithSenderChecksum` | bbfedi2eti.cpp:112-130 | a UDP datagram with the field its sender computed passes by its sum, not because the field is zero |
| `Ipv4.ChecksumDecides` | bbfedi2eti.cpp:112-130 | and no other field than that and zero passes |
| `Ipv4.HeaderWithSenderChecksum` | bbfedi2eti.cpp:73-85 | a header with the checksum its sender computed passes |
| `Ipv4.HeaderDecides` | bbfedi2eti.cpp:172-179 | an IPv4 header passes with the checksum of its sender and no other, 0 and 0xffff being one |
| `Ipv4.WrittenRecognised` | bbfedi2eti.cpp:165-195 | every IPv4 packet written with any fields and options: recognised exactly if it is UDP, no fragment, has the right header checksum and carries a PFT fragment, and the datagram is found |
| `Ipv4.UdpLengthDecides` | bbfedi2eti.cpp:183-194 | the length in the UDP header decides how much of the IP payload is looked at; one below 8 or beyond the payload is refused |
| `Ipv4.WrittenSumsUp` | bbfedi2eti.cpp:112-130 | its UDP checksum passes exactly if it is left out or the one of RFC 768 |
| `Ipv4.IsPftPacket` | bbfedi2eti.cpp:132-150 | `isPftPacket` on every byte string |
| `Ipv4.InspectIpv4Packet` | bbfedi2eti.cpp:165-195 | the verdict on an IPv4 packet, in the order of the tests |
| `Ipv4.InspectStreamPacket` | bbfedi2eti.cpp:424-452 | the verdict on raw, Ethernet and VLAN framing |
| `Ipv4.FramingFound` | bbfedi2eti.cpp:429-443 | behind Ethernet or a VLAN tag the IP header is always found; without either exactly if the addresses do not read like an Ethernet type |
| `Ipv4.FramedRecognised` | bbfedi2eti.cpp:424-452 | so a written packet is recognised in each framing |
| `Ipv4.VerdictStable` | bbfedi2eti.cpp:424-452 | a verdict of valid or invalid on 42 bytes or more never changes when more bytes arrive |
| `Scanners.RawStep` | bbfedi2eti.cpp:670-692 | one decision on the bytes at hand is the decision on all bytes to come |
| `Scanners.ScanBuffer` | bbfedi2eti.cpp:670-692 | the inner loop, with the scan of what it leaves, is the scan of everything |
| `Scanners.RawStream` | bbfedi2eti.cpp:657-707 | the packets `processRawStream` finds are those of one left-to-right scan of the whole input, however it was read |
| `Scanners.RawScanOfSent` | bbfedi2eti.cpp:670-692 | packets with PFT fragments sent one behind the other, each in its own framing, are found as they are, and the scan goes on behind them |
| `Scanners.RawJunkSkipped` | bbfedi2eti.cpp:684-687 | bytes at which no packet begins are skipped one by one |
| `Scanners.BitwiseCrc` | bbfedi2eti.cpp:87-110 | `crc8DvbS2` and `crc32Mpeg2` compute the bit-serial CRC |
| `Scanners.HeaderStable` | bbfedi2eti.cpp:605-609 | the header test looks at ten bytes only |
| `Scanners.CheckHeader` | bbfedi2eti.cpp:605-609 | the baseband header test |
| `Scanners.HeaderDecides` | bbfedi2eti.cpp:605-614 | what is made of any ten bytes written as a header: CRC-8, DFL of 8 to 58112 bits in whole bytes, UPL in whole bytes; and the length is that of DFL |
| `Scanners.ScanOfSent` | bbfedi2eti.cpp:597-640 | every list of frames that a modulator writes is found as it is, with or without 0xB8 in front of each |
| `Scanners.JunkSkipped` | bbfedi2eti.cpp:599-611 | bytes in which no frame seems to begin are skipped one by one, and what is behind them is found |
| `Scanners.UsableIsData` | bbfedi2eti.cpp:622-632 | the CRC-32 is taken off the field, and without one nothing is, unless the last four bytes are one by chance |
| `Scanners.KeptEvents` | bbfedi2eti.cpp:634-638 | the packets of a list of frames are those of the frames of the input stream that passes, and as many frames are counted |
| `Scanners.HandleFrame` | bbfedi2eti.cpp:621-638 | a frame that passes the filter gives its usable field to the GSE receiver, without the CRC-32 if there is one |
| `Scanners.BbframeScanner.EnsureAvailable` | bbfedi2eti.cpp:577-595 | reading on never changes the bytes still to be scanned, and succeeds exactly when there are enough |
| `Scanners.BbframeScanner.Compact` | bbfedi2eti.cpp:642-646 | compaction never changes the bytes still to be scanned |
| `Scanners.BbframeScanner.TakeFrame` | bbfedi2eti.cpp:612-640 | behind a good header the frame is taken if all of it arrives |
| `Scanners.BbframeScanner.NextFrame` | bbfedi2eti.cpp:597-647 | each pass of the loop is one step of the left-to-right scan |
| `Scanners.BbframeScanner.Run` | bbfedi2eti.cpp:566-655 | frames found, frames counted and PDUs delivered depend on the input's bytes alone |
| `Scanners.BbframeScanner.RunSent` | bbfedi2eti.cpp:566-655 | from the bytes of a modulator, read in pieces of any size: its frames are found and counted, and the PDUs that its packets were made of are delivered |
| `EtiFrame.FittingLength` | eti_assembler.c:84-91 | every frame that passes the size test has FL < 2048, so FL never spills into MID or FP |
| `EtiFrame.FrameLength` | eti_assembler.c:84-89 | the 16-bit sum of stream lengths, wrapping as the C type does |
| `EtiFrame.FcBits` | eti_assembler.c:91-94 | the shifted and or-ed word keeps FP, MID and FL apart |
| `EtiFrame.PackedFc` | eti_assembler.c:73-94 | the four bytes of the frame characterisation |
| `EtiFrame.PackedStc` | eti_assembler.c:100-107 | the bytes of a stream characterisation are one big-endian word of SCID, SAD, TPL, STL |
| `EtiFrame.WriteFc` | eti_assembler.c:57-94 | synchronisation and frame characterisation |
| `EtiFrame.WriteStcs` | eti_assembler.c:99-107 | the loop over the stream characterisations |
| `EtiFrame.AppendCrc` | eti_assembler.c:116-128 | the CRC over a range of the frame, appended behind it |
| `EtiFrame.WriteHeader` | eti_assembler.c:57-128 | everything in front of the main stream |
| `EtiFrame.WriteMsts` | eti_assembler.c:136-144 | the streams are copied one behind the other; failure exactly when one would end behind byte 6136 |
| `EtiFrame.AssembleEtiFrame` | eti_assembler.c:21-180 | the callback gets a frame if and only if the builder is complete and fits, and then exactly the frame of section 5 of ETS 300 799, padded in raw format, with each field around the streams at its byte position |
| `EtiFrame.FrameIsValid` | eti_assembler.c:116-152 | both CRC fields of every frame verify, its synchronisation matches its count, and it is never taken for an empty one |
| `EtiFrame.FrameBears` | eti_assembler.c:57-173 | at its byte positions every frame bears the synchronisation of its parity, the count, MNSC, RFU and time stamp, and is filled up with 0x55 |
| `EtiFrame.WordsOfWhole` | eti_assembler.c:85-89 | with whole units the frame length is exactly the length of its data in words |
| `EtiFrame.WalkLoop` | ni2out.c:1060-1063 | the loop over the streams with its cumulative length |
| `EtiFrame.WalkPrefix` | ni2out.c:753-807 | after i streams the walk stands exactly behind the i-th stream's bytes and has found all i streams |
| `EtiFrame.WalkOfFrame` | ni2out.c:940-964 | walking a frame gives back NST, FP, MID, FL, the FIC, and every stream's SCID, SAD, TPL and bytes |
| `EtiFrame.FicNeedsFlag` | ni2out.c:953-955 | the walk finds the FIC if and only if the FIC flag is set, although the assembler always writes one |
| `EtiFrame.StreamsDisplaced` | ni2out.c:753-807 | without the flag every stream keeps its parameters and its length but is read \\|FIC\\| bytes too early |
| `EtiFrame.WalkIsWhole` | ni2out.c:753-807 | the walk only finds streams of whole units of eight bytes, whatever the frame |
| `EtiFrame.EmittedFrameReadsBack` | eti_assembler.c:21-180 | every emitted frame has good CRCs, bears count, MNSC, RFU and time stamp, and reads back as the content of its builder if and only if the FIC flag is set and the streams are whole units of eight bytes |
| `EtiFrame.PartialUnitLost` | eti_assembler.c:84-107 | a stream of one byte is assembled and not read back |
| `EtiTags.DetiHeaderFields` | tag_parser.c:50-58 | the bit fields of the deti header word are recovered |
| `EtiTags.EtiHeaderFields` | tag_parser.c:60-72 | the bit fields of the ETI header word are recovered |
| `EtiTags.DecodeStored` | tag_parser.c:205-278 | whatever bytes arrive, every field of the builder stays within its C type |
| `EtiTags.PtrRead` | tag_parser.c:22-38 | a *ptr item is recovered |
| `EtiTags.StreamRead` | tag_parser.c:156-195 | an est item is recovered, through the 16-bit length |
| `EtiTags.DetiRead` | tag_parser.c:41-153 | a deti item with any combination of its optional parts is recovered, and its length is the expected one |
| `EtiTags.ItemHandled` | tag_parser.c:232-264 | the dispatch gives every written item its meaning |
| `EtiTags.DecodeOfWritten` | tag_parser.c:205-278 | decoding a written packet applies the meaning of its items in order, for every list of items |
| `EtiTags.TagNames` | tag_parser.c:232-261 | the tags that are recognised, as the characters they stand for |
| `EtiTags.StopsAtUnknown` | tag_parser.c:265-268 | an unknown tag ends the decoding with success; what is behind it is not read |
| `EtiTags.FsstEndsPacket` | tag_parser.c:253-256 | the code spells Fsst as Fstt, so everything behind an Fsst item is lost |
| `EtiTags.StopsAtError` | tag_parser.c:270-275 | an item whose handler fails ends the decoding without success, with what the handler left |
| `EtiTags.BadNumberStops` | tag_parser.c:156-163 | an est item numbered 0 or above 64 does that, and stores nothing |
| `EtiTags.BadPtrStops` | tag_parser.c:22-27 | so does a *ptr item that is not eight bytes long |
| `EtiTags.WrongLengthKept` | tag_parser.c:41-86 | a deti item of the wrong length is refused, but its header fields are in the builder by then |
| `EtiTags.ProgressStep` | tag_parser.c:205-278 | what the items seen so far have put into the builder is kept by every further item |
| `EtiTags.PacketMeaning` | tag_parser.c:205-278 | a packet that describes a multiplex, its items in any order, leaves exactly that multiplex in the builder, whatever was there before |
| `EtiTags.CanonicalDescribes` | tag_parser.c:205-278 | every multiplex of up to 64 streams is described by some TAG packet |
| `EtiTags.FicStays` | tag_parser.c:118-128 | items without FIC leave the FIC of an earlier packet in the builder |
| `EdiHandler.CheckAf` | af_parser.c:71-120 | the AF packet tests, in their order, the size added in 32 bits |
| `EdiHandler.AfRoundTrip` | af_parser.c:71-120 | a correctly written AF packet is taken apart again, whatever follows it |
| `EdiHandler.AfCrcDecides` | af_parser.c:71-120 | every way to write the AF header and CRC: another payload type is passed over, another revision, a missing or a wrong CRC is refused |
| `EdiHandler.AfTruncated` | af_parser.c:71-103 | a packet cut short is passed over, or refused if its header is cut |
| `EdiHandler.LengthWraps` | af_parser.c:100-116 | a length within eleven of 2^32 wraps, and the size and CRC tests are made on a few bytes |
| `EdiHandler.AfDamageRefused` | af_parser.c:110-117 | a packet damaged in two neighbouring bytes behind its header is refused |
| `EdiHandler.MultiplexPreserved` | eti_assembler.c:21-180 | TAG packet to frame to walk: the frame is built exactly when the data fits, has good CRCs, bears count, MNSC, RFU and time stamp of the deti item, and reads back as the multiplex described if and only if the streams are whole |
| `EdiHandler.FicLost` | tag_parser.c:118-128 | a multiplex without FIC behind one with FIC still makes a frame, with the old FIC and a clear flag |
| `EdiHandler.FicLostExample` | tag_parser.c:88-150 | such deti items exist |
| `EdiHandler.MultiplexStep` | af_parser.c:154-157 | an AF packet with a multiplex gives, from any earlier state, one frame that reads back as it |
| `EdiHandler.FrameIff` | af_parser.c:154-157 | an AF packet with any items in any order, from any state: a frame comes out if and only if the last *ptr names DETI 0.0, a deti item has been seen, the last FIC has the length of the last mode, and the data fits |
| `EdiHandler.RefusedKeeps` | tag_parser.c:270-278 | a packet refused in the middle makes no frame but leaves the items in front in the builder |
| `EdiHandler.EdiHandle.DecodeStarPtr` | tag_parser.c:22-38 | the *ptr handler on the builder in place |
| `EdiHandler.EdiHandle.DecodeDeti` | tag_parser.c:41-153 | the deti handler: the header fields stay stored even when the length is then refused |
| `EdiHandler.EdiHandle.DecodeDetiBody` | tag_parser.c:88-150 | time, FIC and RFU at a running offset; a FIC that is absent leaves the old one |
| `EdiHandler.EdiHandle.DecodeEstn` | tag_parser.c:156-195 | the est handler on the builder in place |
| `EdiHandler.EdiHandle.DecodeItem` | tag_parser.c:230-268 | the dispatch on the tag name |
| `EdiHandler.EdiHandle.DecodeTagPacket` | tag_parser.c:205-278 | the loop over the tags, with its early ends, refines the recursive decoder |
| `EdiHandler.EdiHandle.HandleAf` | af_parser.c:154-157 | one AF packet is one step: the builder, and a frame if and only if the packet is sound, decodes, and the builder is complete and fits |
| `EdiPipeline.AfRunConcat` | af_parser.c:139-157 | runs of AF packets compose: the builder carries over and the frames follow one another |
| `EdiPipeline.EdiReceiver.HandleFragment` | af_parser.c:144-152 | one fragment emits the frames of the AF packet that it makes the collector hand out |
| `EdiPipeline.EdiReceiver.HandleDatagram` | af_parser.c:128-165 | `HandleEDIPacket`: a fragment, an AF packet, or a foreign datagram emits the frames of the AF packets it brings |
| `EdiPipeline.EdiReceiver.HandleAll` | af_parser.c:128-165 | a whole run of datagrams from a zeroed handle emits exactly the frames of the AF packets that it brings, in order |
| `EdiPipeline.ReachedIsBrought` | af_parser.c:139-157 | every packet that the fragments complete is among those handled, with AF datagrams between them or not |
| `EdiPipeline.ReadOnceIffSingle` | af_parser.c:141-153 | the loop over a datagram reads every fragment in it once and then ends if and only if it carries a single fragment |
| `EdiPipeline.SecondReadForever` | af_parser.c:141-153 | with two fragments of the same length the loop reads the second one for ever |
| `EdiPipeline.DamagedReadOn` | af_parser.c:141-153 | behind a fragment whose header CRC fails the loop goes on with its payload, and the datagram is that of one fragment if and only if the payload is not read as another |
| `EdiPipeline.FrameAmong` | af_parser.c:154-157 | among any other AF packets the one with the multiplex gives one frame, right behind the frames of those before it, that reads back |
| `EdiPipeline.FragmentsToMultiplex` | af_parser.c:139-157 | when the collector hands out the AF packet of a multiplex, the frame behind those of the AF packets before it reads back as that multiplex, whatever else the run brings |
| `EdiPipeline.PlainFragmentsToMultiplex` | af_parser.c:139-157 | all layers without FEC: PFT fragments in any order, repeated and among others, make a frame from which the walk reads the multiplex |
| `EdiPipeline.CodedFragmentsToMultiplex` | af_parser.c:139-157 | the same with FEC, when 48 * c >= Plen |
| `EdiEndToEnd.DatagramsCarry` | af_parser.c:139-143 | fragments written one to a datagram are the fragments of the run |
| `EdiEndToEnd.EveryMultiplexArrives` | af_parser.c:139-157 | every multiplex that fits a frame, cut without FEC into fragments that are written as datagrams and sent in order, makes the receiver emit one frame, from which the walk reads the multiplex |
| `EdiEndToEnd.CodedMultiplexArrives` | af_parser.c:139-157 | the same with FEC: one such frame if 48 * c >= Plen, and otherwise none |
| `EdiEndToEnd.FramesOf` | af_parser.c:154-157 | AF packets with multiplexes give one frame each, in order, that reads back |
| `EdiEndToEnd.ReceivePlain` | af_parser.c:128-165 | `HandleEDIPacket` over the datagrams of a whole stream, lost, repeated and mixed: one frame for every multiplex that arrived whole and is decided, which reads back as it, and no other |
| `EdiEndToEnd.ReceiveCoded` | af_parser.c:128-165 | the same with FEC and any decoder that leaves codewords alone: one frame for every multiplex that arrived whole if 48 * cmax >= Plen, and otherwise none |
| `EdiEndToEnd.FramesWithoutDecoder` | pf_parser.c:172-181 | that covers a build without the Reed-Solomon library |
| `EdiEndToEnd.ReceiveLossy` | af_parser.c:128-165 | the same with FEC and a decoder that corrects: one frame for every multiplex of which enough arrived |
| `EdiEndToEnd.EnoughMultiplexArrives` | af_parser.c:139-157 | a multiplex of which enough arrived makes its frame, at its place, whatever became of the others |
| `DvbReception.ProcessPdu` | bbfedi2eti.cpp:197-226 | `processIpv4Pdu` and `processPftPacket` with the address filters: what becomes of an IPv4 packet |
| `DvbReception.FateOfWritten` | bbfedi2eti.cpp:152-226 | every UDP datagram, whatever its fields and checksum: not PFT, filtered, refused for its checksum, or handed over with its payload |
| `DvbReception.FragmentIsPft` | bbfedi2eti.cpp:132-150 | a written fragment is taken for one exactly if it has a payload, its index is in range and its packet is at most 16 megabytes |
| `DvbReception.ProcessPdus` | bbfedi2eti.cpp:211-226 | a sequence of PDUs: those handed over, in order |
| `DvbReception.FragmentsArrive` | bbfedi2eti.cpp:211-226 | datagrams with fragments that pass the filters hand over exactly the fragments |
| `DvbReception.ReceivePackets` | bbfedi2eti.cpp:566-655 | from the bytes of a carrier to the calls of `HandleEDIPacket`: exactly the fragments that the modulator was given, in order |
| `DvbReception.ReceivePlain` | bbfedi2eti.cpp:566-655 | the whole way from the bytes of a DVB-S2 carrier to ETI frames, without FEC: one frame for every multiplex all of whose fragments were sent and that is decided, which reads back as it, and no other |
| `DvbReception.ReceiveLossy` | bbfedi2eti.cpp:566-655 | the same with FEC and a decoder that corrects: one frame for every multiplex of which enough fragments were sent |
| `DvbReception.OnePerFrame` | bbfedi2eti.cpp:566-655 | such carriers exist for all datagrams that fit a GSE packet |
| `Na2Ni.ConservedConcat` | na2ni.c:167-180 | conservation of bits composes over words and over calls |
| `Na2Ni.WordBits` | na2ni.c:169-173 | shift, or and inversion of one word lose no bit: carried bits and input are output and saved bits |
| `Na2Ni.ShiftFrame` | na2ni.c:161-183 | `shift_frame_mem` conserves the bits of a frame at every bit offset and polarity |
| `Na2Ni.ShiftFrames` | na2ni.c:489-531 | the bits carried in `remaining_bits` conserve the bits over any number of calls |
| `Na2Ni.BitRealignment` | na2ni.c:470-497 | output bit n is input bit offset + n, complemented on an inverted line |
| `Na2Ni.PointerStep` | na2ni.c:306-312 | the input pointer after n bytes, with the skip at multiples of 16 |
| `Na2Ni.SourceBijection` | na2ni.c:303-314 | n + n/15 + 1 maps the 1920 cells one to one onto the bytes that are not at multiples of 16 |
| `Na2Ni.DoneStep` | na2ni.c:308-309 | writing one cell completes it and disturbs none of the cells before it |
| `Na2Ni.FillColumn` | na2ni.c:305-313 | the row loop |
| `Na2Ni.FillTable` | na2ni.c:303-314 | the column loop over one superblock |
| `Na2Ni.Deinterleave` | na2ni.c:270-333 | -1 unless the management byte names block 1 of superblock 0; otherwise every cell of the three tables holds the byte it was sent in |
| `Na2Ni.ManagementByte` | na2ni.c:278-297 | the byte tested before deinterleaving is the one `eti_ni_copy` tests again, so the second test cannot fail |
| `Na2Ni.ManagementFields` | na2ni.c:278-300 | a management byte written from its fields begins a multiframe exactly for block 1 of superblock 0, and its coding flag selects 226 or 235 columns |
| `Na2Ni.KeepChunk` | na2ni.c:377-387 | one management byte skipped, up to 29 data bytes kept |
| `Na2Ni.CopyCodedRow` | na2ni.c:376-387 | the do-while loop copies the row without every thirtieth byte |
| `Na2Ni.PayloadSize` | na2ni.c:367-393 | a multiframe carries exactly 5376 or 5592 bytes |
| `Na2Ni.NiCopy` | na2ni.c:340-397 | `eti_ni_copy` emits synchronisation, exactly the payload in order, and padding to 6144 bytes |
| `Na2Ni.PayloadArrives` | na2ni.c:270-397 | deinterleaving and gathering invert the matching interleaver for every payload, whatever fills the other bytes |
| `Na2Ni.Realigned` | na2ni.c:470-497 | the realigned bytes are the multiframe that stood on the line at any bit offset, inverted or not |
| `Na2Ni.CopyMultiframe` | na2ni.c:270-397 | deinterleaver and `eti_ni_copy` together: the payload that was interleaved is in the frame, or -1 is returned |
| `Na2Ni.ConvertLine` | na2ni.c:161-397 | from the bits of the line to the frame: the payload comes out whole and in order |
| `ServiceList.RunReflects` | wfficproc.c:97-145 | over any run the list is the insertion-ordered map of the announcements: first-seen order, distinct identifiers, first components |
| `ServiceList.RepeatChangesNothing` | wfficproc.c:127-139 | announcing a known component again, with the same or another sub-channel, changes nothing |
| `ServiceList.CountAdd` | wfficproc.c:127-135 | the counter grows exactly when a component is stored |
| `ServiceList.CountIsAnnounced` | wfficproc.c:127-135 | the counter is the number of different components announced |
| `ServiceList.TableReflects` | wfficproc.c:127-159 | over any run an entry of the sub-channel table holds its first description, with the coding announced last |
| `ServiceList.Ensemble.constructor` | wfficproc.c:60-71 | an empty list and 64 unused sub-channels |
| `ServiceList.Ensemble.FindService` | wfficproc.c:76-92 | the walk finds the node of the map's entry, or null exactly if there is none |
| `ServiceList.Ensemble.Last` | wfficproc.c:114-120 | the walk to the last node |
| `ServiceList.Ensemble.Hook` | wfficproc.c:115-118 | the new node is linked behind the last; forward and backward links stay one list |
| `ServiceList.Ensemble.Append` | wfficproc.c:106-120 | the same with the empty list |
| `ServiceList.Ensemble.FindOrAppend` | wfficproc.c:101-121 | the entry of a service, made at the end if it is not there |
| `ServiceList.Ensemble.StoreComponent` | wfficproc.c:127-139 | the first component of either kind is stored and counted |
| `ServiceList.Ensemble.AddService` | wfficproc.c:97-145 | `add_service` on the heap list refines the map; the counter is the number of components announced; only one dabplus flag changes |
| `ServiceList.Ensemble.AddSubchannel` | wfficproc.c:150-159 | `add_subchannel` refines that table: a later description of a known sub-channel changes nothing |
| `ServiceList.Ensemble.Labelled` | wfficproc.c:164-184 | true exactly if there is a service and every service has a label |
| `Uecp.ExtRoundTrip` | mpe2aac.c:155-167 | a chunk written into an extension is read back, whatever the unused bytes hold |
| `Uecp.SkipCopies` | mpe2aac.c:178-184 | repetitions of the chunk just taken are skipped |
| `Uecp.TailCopies` | mpe2aac.c:169-177 | after a frame, repetitions of its last chunk are ignored unless it begins with 0xFE; then each is sent |
| `Uecp.InsideReached` | mpe2aac.c:169-209 | inside a frame exactly the bytes of the chunks so far are held, and nothing is sent |
| `Uecp.FrameSent` | mpe2aac.c:169-209 | what one frame with any repetition counts causes to be sent |
| `Uecp.ExactlyOnce` | mpe2aac.c:155-210 | over any sequence of frames with any repetitions every frame is sent once, whole and in order |
| `Uecp.OnceIffTerminated` | mpe2aac.c:155-210 | a frame is sent once for all repetition counts if and only if its last chunk does not begin with 0xFE, which a frame in one chunk never meets |
| `Uecp.SingleChunkRepeats` | mpe2aac.c:169-184 | a frame in a single chunk is sent as often as the chunk is repeated |
| `Uecp.SingleChunkFrame` | mpe2aac.c:155-210 | and there are such frames |
| `Uecp.OverlongDropped` | mpe2aac.c:186-192 | however often its chunks are repeated, nothing of a frame of more than 4096 bytes is sent, and the receiver waits for the next |
| `Uecp.RunSound` | mpe2aac.c:155-210 | on any chunks the buffer is never overrun and everything sent begins with 0xFE and ends with 0xFF |
| `Uecp.ChunksCarried` | mpe2aac.c:155-167 | the extensions of a sender carry its chunks |
| `Uecp.UecpReceiver.constructor` | mpe2aac.c:70-78 | an idle receiver |
| `Uecp.UecpReceiver.Append` | mpe2aac.c:194-195 | the copy behind the bytes held |
| `Uecp.UecpReceiver.Take` | mpe2aac.c:186-209 | the size check, the copy and the end-of-frame test |
| `Uecp.UecpReceiver.ProcessExt` | mpe2aac.c:155-210 | `uecp_process_ext` is one step of the machine, or nothing on an extension it refuses |
| `Uecp.UecpReceiver.ProcessAll` | mpe2aac.c:155-210 | a sequence of extensions is a run of the machine |
| `Uecp.UecpReceiver.ReceiveFrames` | mpe2aac.c:155-210 | from the extensions on, with any repetitions and anything in their unused bytes, every terminated frame is sent once and in order |

## Left out

- Sockets, files, ZeroMQ, DVB tuning, signals, argument and configuration parsing, logging and statistics output. Sending
  is appending to a ghost sequence; reading is a sequence of pieces, in which read errors do not occur.
- Reed-Solomon decoding itself (libfec): in `pf_parser.c` it is the parameter described above, and that the library meets
  `Corrects` is not claimed. `Na2Ni.Deinterleave` is the run with FEC off.
- PftHandler.AfBuilders.PushFragment: is not specified for consistent fragments after a reconfiguration in mid-run. The
  counters then still count fragments of the old configuration, and the C code decodes buffers in which no fragment of
  the new one need be; only that the state is such a one is stated.
- PftHandler.AfBuilders.Initialise: does not model 32-bit overflow of Fcount * Plen in the allocation sizes and in cmax.
- PftHandler.Thresholds: computes cmax from the unwrapped product, for the same reason.
- EdiPipeline.EdiReceiver.HandleDatagram: does not follow the loop into a second fragment of the same datagram; that it
  goes wrong there is `EdiPipeline.ReadOnceIffSingle`.
- EdiPipeline.EdiReceiver.HandleAll: does not cover fragments before the first configuring one, or a change of header in
  mid-run, for the reason given at PushFragment.
- EdiHandler.EdiHandle.DecodeTagPacket: items that make the C code read behind the packet are excluded, not described.
- EdiHandler.EdiHandle.HandleAf: excludes the same, packets that leave more than 64 streams counted, and packets whose TAG
  length wraps the 32-bit size.
- Psi.PsiReceiver.ProcessTs: excludes packets that make the C code read behind the packet or write behind the buffer.
- Psi.StepSound: excludes the same packets.
- Psi.RunSound: excludes runs with such a packet.
- Psi.PsiReceiver.ProcessAll: excludes streams with such a packet.
- PftHandler.RebuildFec: excludes slots that are not `Decodable`, where the C code accesses memory outside its tables.
- PftHandler.AfBuilders.Decode: excludes the same slots.
- PftHandler.AfBuilders.GiveUp: excludes the same slots when they are ready.
- PftHandler.AfBuilders.Collect: excludes fragments that claim such a slot.
- PftHandler.AfBuilders.PushOne: excludes runs outside `RunFits`.
- PftHandler.AfBuilders.PushAll: excludes the same runs.
- Pft.EmptySlotSilent: excludes an empty payload with FEC, where the C code divides by zero, and RSk above 207.
- The literal CRC tables of `crc.c` and `wfcrc.c` are not transcribed; every table-driven routine takes the table of its
  polynomial, which the generators are proved to build and which can be read off any table (`Crc.PolynomialInTable`).
- The other copies of `process_ts`, `ni2http.c`, `eti2zmq.c` and `edi2eti.c`: the same code again.
- `e1_sync_bitsearch` and the two management-byte searches of `na2ni.c`: plain searches.
- In `processRawStream`, what follows when a packet is found: the same two functions as for PDUs.
- DvbReception.ReceivePackets: collects the PDUs and handles them afterwards, where the C++ code handles each at once;
  nothing flows back from the handling.
- Scanners.BbframeScanner.Run: says nothing about the two GSE counters over several frames; per data field they are exact.
- DLS and X-PAD text, ADTS headers, FIG fields, payload names, `ts2na`, `na2ts`, pcap and format detection: field shuffling.
