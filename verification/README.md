# OpenIPC protocol and data-format models

Five parts of the OpenIPC firmware repository carry real algorithms: MAVLink 2 framing with signing, the
cJSON library, the 1-Wire ROM search of the temperature tool, the herald mDNS programs, and the message
framing and connection counting of the Matter server. This project models them in Dafny and proves what they
are for.

Code that changes state step by step is modelled with classes, arrays and loops, and each method is proved
against a function on values. The theorems about whole runs, round trips and reachable states are about those
functions. `dafny verify dfyconfig.toml` checks everything.

| files | part |
|---|---|
| Checksum, Sha256, Sha256Example | the frame checksum, the streaming hash behind signatures, and its worked example |
| Mavlink, MavlinkSigning, MavlinkSender | message table, trimming, signing, the stream table, finalizing and serializing |
| MavlinkParser, MavlinkChannel, MavlinkLink | the receiving state machine on values and in place, soundness, and frames fed to it |
| MavlinkOctets | frames, signatures and verdicts place by place, in the protocol's own numbers |
| MavlinkReplay, MavlinkDelivery, MavlinkTruncation | replay safety on bytes, delivery end to end, and ids too long for MAVLink 1 |
| JsonText, JsonParse | what cJSON prints and parses, as functions |
| JsonGrammar, JsonReading, JsonAccepted, JsonRoundTrip | the texts of RFC 8259, what the parser makes of every one, that it accepts little else, and printing followed by parsing |
| JsonStandard | RFC 8259 and RFC 3629 in their own numbers, against what is read and printed |
| JsonStrings, JsonParser, JsonPrinter | the two-pass string decoder, the parse buffer and the growing print buffer |
| JsonList, JsonTree | child lists as doubly linked items, and duplication |
| JsonAlike, JsonMeaning, JsonCompare, JsonItems | when trees of items compare equal, comparing them in memory, and items built from parsed values |
| OneWire, OneWireScan, OneWireRuns | the ROM search on a wired-AND bus, its checksum, and scans with failing passes |
| OneWireCodes | bits, search order, checksum and counts in plain numbers |
| HeraldNames, HeraldDecoding, HeraldWalk, HeraldServer | DNS names, their decoding on names and on any octets, and the server's packets |
| HeraldPackets | packets of any questions and records, octet by octet |
| HeraldClient, HeraldTargets, HeraldExchange | the device table, what an undecodable target does to it, and the exchange between the two programs |
| MatterFraming, MatterClients | reassembly and sending of framed messages; the client counter as interleaved steps |

## Main results

- MAVLink, soundness: over every byte stream, a reported message is exactly one intact frame that just ended.
- MAVLink, delivery: any sequence of sendable messages, plain or signed, v1 or v2, is reported once each, in
  order, at the last byte of its frame, exactly when the link admits every one in its turn.
- MAVLink, replay safety: whatever bytes arrive, of two messages reported for one sender, with ids that may not
  come unsigned, the later has the greater timestamp, and none is reported twice.
- cJSON, reading: a text is accepted exactly when it is one of a grammar that has all of RFC 8259 but escapes of
  unpaired surrogates, and little more, nested at most 1000 deep and with numbers of at most 63 bytes; it is then
  read as the value it writes.
- cJSON, the standard: every text of RFC 8259 within those limits is read as its value, escapes, surrogate pairs
  and UTF-8 included; and what is printed is such a text.
- cJSON, round trip: printing and parsing are inverse exactly up to that depth; the in-place parser and printer
  refine the two functions; the string decoder stays within its buffer for every input.
- cJSON, items: list edits refine sequence edits; a duplicate holds the same tree and shares nothing with its
  source; comparison decides exactly a relation on items, which on trees that share none is symmetric and
  transitive, and reflexive exactly on steady trees; a duplicate, and what comes back from printing and parsing,
  compares equal exactly then.
- 1-Wire: every device is found exactly once, in order; failing passes lose and repeat nothing; and a scan's end
  can be read off its passes beforehand.
- herald: query, answer and device table agree from end to end, over arbitrary tables; for any list of questions
  it is known which answer is given, and for any list of records what the client learns; and on any octets it is
  known exactly when decode_name returns a name that is denoted.
- Matter: messages do not depend on how the stream is cut; the counter is exact in every interleaving.

A function that a method is proved against is pinned again by statements of another kind, in the numbers of the
protocol or standard: octets at their places, tables of constants, both directions of a meaning, worked examples.
They are in MavlinkOctets, Sha256Example, JsonStandard, JsonMeaning, OneWireCodes, HeraldPackets and the later
parts of MatterFraming and MatterClients.

## Where the code does not do what one might expect

- After a failed frame that ends in a start byte the resynchronising parser keeps the failed frame's layout and
  magic, so a reported magic need not be the frame's first byte. `MavlinkLink.MagicNeedNotBeStartByte` shows an
  input, and `MavlinkParser.ReportedMessagesWereFramed` says exactly when the two agree.
- The payload index exceeds the length between a start byte and the length byte, where it is left over from the
  frame before (`MavlinkLink.IndexLeftOver`); `MavlinkLink.IndexExact` says exactly when it does not.
- In MAVLink 1 an id of more than one octet is cut, and the message arrives under another id or not at all
  (`MavlinkTruncation.TruncatedIdReported`).
- A message id that the accept-unsigned callback lets through is open to replay: a copy of an accepted frame is
  reported again exactly for such ids (`MavlinkReplay.CopyReported`).
- Finalizing stores the checksum into the payload area behind the sent length. Delivery compares the received
  payload with the one before finalizing.
- The parser looks at 63 bytes of a number. A text with a longer one inside it is refused
  (`JsonReading.DocumentReads`), and one that is itself a longer number is cut (`JsonReading.LongNumberReads`).
- The parser takes malformed unit escapes, and reads them as the end of the string. `JsonAccepted.LooseUnitAccepted`
  shows one, and `JsonAccepted.ParsesExactly` says exactly what is accepted.
- A string is kept up to its first NUL, which an escape can write; `JsonGrammar.Meaning` has it so.
- An object with a repeated key need not compare equal to its own copy. `JsonAlike.RepeatedKeyDiffers` shows
  one, `JsonAlike.SelfAlike` says exactly which trees do, and `JsonCompare.DuplicateAndCompare` that it is so in
  memory. Comparing an item with itself is true without a look at it; `JsonCompare.Matches` has that shortcut, and
  `JsonCompare.MatchesIsAlike` says when it makes no difference.
- A reading scan of the 1-Wire bus resets its retry counter even when a sensor does not read. Over clean passes
  it therefore never gives up, and ends exactly when enough passes read (`OneWireRuns.CleanReadingScan`);
  `OneWireRuns.GivesUp` and `OneWireRuns.FindsAll` say for any failing passes how a scan ends.
- `decode_name` returns positions for octets that denote no name. It takes the length octets 64 to 191, which RFC
  1035 reserves, as lengths (`HeraldWalk.ReservedLength`); behind a pointer it also returns a position when it has
  left the packet (`HeraldWalk.PointerOutside`) or used up its 128 steps (`HeraldWalk.SelfPointer`).
  `HeraldWalk.DecodeRight` says, for any octets, exactly when the result is right, and that nothing else goes wrong.
- `parse_rr` ignores whether the target of a service record decodes and copies an uninitialised buffer when it
  does not. What that buffer held is a parameter of the model. `HeraldTargets.StaleTargetMatters` shows a packet
  whose effect depends on it, `HeraldTargets.RecordDepends` says exactly when a record's does, and
  `HeraldTargets.PacketIndependent` when a packet's does not.

## Conventions

- Octets are integers below 256; machine words are integers with their wrap-around written out, or bit vectors
  where bits are mixed.
- C strings are sequences without their terminator, except where code looks for it.
- Results that the source returns through pointers are extra results of a method.
- Sockets, the bus, clocks and other threads are parameters: what recv and send accept, which reads on the bus
  are disturbed, whether malloc and pthread_create fail.
- A scan is trusted when no pass that went wrong delivered a code with a matching checksum. Which runs are is part
  of the statements about scans, and on a clean bus all are; `OneWireRuns.DisturbedPassPrinted` shows one that is
  not.

## Model

| member | source | states |
|---|---|---|
| Checksum.NibbleForm | general/package/legacy/rcjoystick/src/checksum.h:35-43 | one step with the nibble trick is eight shift-register steps of CRC-16/MCRF4XX (low bit first, polynomial 0x8408), for every octet and register |
| Checksum.CrcIsBitSerial | general/package/legacy/rcjoystick/src/checksum.h:65-91 | over any octets the source's fold equals the bit-serial checksum |
| Checksum.CrcAppend | general/package/legacy/rcjoystick/src/checksum.h:85-91 | accumulating a header and then a payload is the checksum of their concatenation |
| Checksum.Calculate | general/package/legacy/rcjoystick/src/checksum.h:65-73 | the loop over the buffer computes the checksum of its first octets from 0xFFFF |
| Checksum.AccumulateBuffer | general/package/legacy/rcjoystick/src/checksum.h:85-91 | the loop continues a checksum over the buffer |
| Checksum.CrcInjective | general/package/legacy/rcjoystick/src/checksum.h:35-91 | two different registers stay different over any common octets |
| Checksum.DetectsTwoOctetBurst | general/package/legacy/rcjoystick/src/checksum.h:35-91 | equal-length buffers that differ only within two adjacent octets never share a checksum |
| MavlinkOctets.ChecksumCheckValue | general/package/legacy/rcjoystick/src/checksum.h:35-91 | the checksum of the nine characters 1 to 9 is 0x6F91, the check value of CRC-16/MCRF4XX |
| Sha256.PaddingFills | general/package/legacy/rcjoystick/src/mavlink_sha256.h:192-212 | message, padding and length field of section 5.1.1 of FIPS 180-4 fill whole 64-octet blocks |
| Sha256.PaddingStart | general/package/legacy/rcjoystick/src/mavlink_sha256.h:192-212 | the source's padding length agrees with that of section 5.1.1 of FIPS 180-4 |
| Sha256.BlocksOfPrefix | general/package/legacy/rcjoystick/src/mavlink_sha256.h:152-187 | blocks already compressed do not depend on what is fed later |
| Sha256.Context.Calc | general/package/legacy/rcjoystick/src/mavlink_sha256.h:105-150 | the in-place schedule and round loops compute the compression function of section 6.2.2 of FIPS 180-4 |
| Sha256.Context.Expand | general/package/legacy/rcjoystick/src/mavlink_sha256.h:105-150 | the schedule loop computes every word of the message schedule |
| Sha256.Context.Absorb | general/package/legacy/rcjoystick/src/mavlink_sha256.h:152-187 | the chunk loop of an update, across any block boundaries, keeps the state that of everything fed |
| Sha256.Context.Update | general/package/legacy/rcjoystick/src/mavlink_sha256.h:152-187 | the state after an update is that of the concatenation of everything fed, the 64-bit count included |
| Sha256.Context.PaddingBuffer | general/package/legacy/rcjoystick/src/mavlink_sha256.h:192-212 | the scratch buffer holds exactly the padding and the big-endian bit count |
| Sha256.Context.Final48 | general/package/legacy/rcjoystick/src/mavlink_sha256.h:192-221 | the result is the first six octets of the SHA-256 digest of everything fed |
| Sha256.HashPieces | general/package/legacy/rcjoystick/src/mavlink_sha256.h:91-221 | for any splitting into updates, the result depends only on the concatenation |
| Sha256Example.PaddedExact | general/package/legacy/rcjoystick/src/mavlink_sha256.h:192-212 | padding place by place: 0x80 behind the message, zeros, the number of bits in the last eight octets, in the smallest number of blocks |
| Sha256Example.BlocksChain | general/package/legacy/rcjoystick/src/mavlink_sha256.h:105-150 | each block is taken into the chain of the blocks before it and its result added to that, word by word |
| Sha256Example.AbcDigest | general/package/legacy/rcjoystick/src/mavlink_sha256.h:105-221 | the worked example of appendix B.1 of FIPS 180-2: the hash of the three characters abc is ba7816bf 8f01cfea 414140de 5dae2223 b00361a3 96177a9c b410ff61 f20015ad |
| Mavlink.GetMsgEntry | general/package/legacy/rcjoystick/src/mavlink_helpers.h:516-542 | bisection over a sorted table finds the entry of an id exactly when there is one |
| Mavlink.LookupAt | general/package/legacy/rcjoystick/src/mavlink_helpers.h:516-542 | in a sorted table every entry is the one found for its id |
| Mavlink.TrimPayload | general/package/legacy/rcjoystick/src/mavlink_helpers.h:111-117 | the loop finds the trimmed length, never below one |
| Mavlink.TrimDropsZeros | general/package/legacy/rcjoystick/src/mavlink_helpers.h:111-117 | everything trimmed is zero, and the last octet kept is not, unless only one is left |
| Mavlink.TrimIdempotent | general/package/legacy/rcjoystick/src/mavlink_helpers.h:111-117 | trimming again gives the same length, whatever has been stored behind it since |
| Bytes.LittleEndianRoundTrip | general/package/legacy/rcjoystick/src/mavlink_helpers.h:73-101 | a number below 256^n survives n octets |
| MavlinkSigning.CheckKeepsTable | general/package/legacy/rcjoystick/src/mavlink_helpers.h:123-207 | stream entries stay pairwise distinct and at most 16 |
| MavlinkSigning.CheckKeepsKnown | general/package/legacy/rcjoystick/src/mavlink_helpers.h:123-207 | a stream once known stays known with a stamp at least as new, and only newer stamps are accepted for it |
| MavlinkSigning.CheckKeepsClock | general/package/legacy/rcjoystick/src/mavlink_helpers.h:123-207 | the clock never runs backwards and is at least every accepted stamp |
| MavlinkSigning.AcceptedStampsIncrease | general/package/legacy/rcjoystick/src/mavlink_helpers.h:123-207 | over any interleaving of packets of any senders, the stamps accepted for one (sysid, compid, link_id) strictly increase |
| MavlinkSigning.RunKeepsTableAndClock | general/package/legacy/rcjoystick/src/mavlink_helpers.h:123-207 | over any run the table stays sound and the clock ends at or after every accepted stamp |
| MavlinkSigning.SignedIsAuthentic | general/package/legacy/rcjoystick/src/mavlink_helpers.h:73-207 | signer and receiver hash the same octets, and the receiver reads back the signer's stamp and link |
| MavlinkSigning.WelcomeIsAccepted | general/package/legacy/rcjoystick/src/mavlink_helpers.h:123-207 | a signed message is accepted if and only if its stream is known with an older stamp, or the table has room and the stamp is at most a minute behind the clock |
| MavlinkSigning.SignedRunAccepted | general/package/legacy/rcjoystick/src/mavlink_helpers.h:73-207 | a whole run signed by one sender is accepted if and only if its first stamp is welcome |
| MavlinkSigning.SigningState.SignPacket | general/package/legacy/rcjoystick/src/mavlink_helpers.h:73-101 | writes link, 48-bit stamp and 48-bit hash, and advances the stamp by one |
| MavlinkSigning.SigningStreams.FindStream | general/package/legacy/rcjoystick/src/mavlink_helpers.h:152-159 | the first entry of that sender and link, or the number of entries |
| MavlinkSigning.SigningStreams.Admit | general/package/legacy/rcjoystick/src/mavlink_helpers.h:147-206 | table, clock and status change as the verdict says |
| MavlinkSigning.HashSigned | general/package/legacy/rcjoystick/src/mavlink_helpers.h:130-141 | the six octets are those of the hash of key, header, payload, checksum, link id and timestamp, in this order and nothing left out (MavlinkOctets.SignedOctetsAt and SignedOctetsDetermine) |
| MavlinkSigning.SignatureCheck | general/package/legacy/rcjoystick/src/mavlink_helpers.h:123-207 | the whole check on mutable state refines the check on values |
| MavlinkOctets.SignedOctetsAt | general/package/legacy/rcjoystick/src/mavlink_helpers.h:91-143 | where everything under a signature stands: key, ten header octets, the payload at 10, two checksum octets, link id and timestamp |
| MavlinkOctets.SignedOctetsDetermine | general/package/legacy/rcjoystick/src/mavlink_helpers.h:91-143 | nothing is left out: equal octets under one key come from equal headers, ids, payloads, checksums, links and timestamps |
| MavlinkOctets.SignatureAt | general/package/legacy/rcjoystick/src/mavlink_helpers.h:88-100 | a signature is the link id, the timestamp's low 48 bits from the lowest octet on, and six octets of hash |
| MavlinkOctets.AuthenticExact | general/package/legacy/rcjoystick/src/mavlink_helpers.h:136-147 | a signature is authentic exactly when its last six octets are that hash under the receiver's key |
| MavlinkOctets.VerdictExact | general/package/legacy/rcjoystick/src/mavlink_helpers.h:152-191 | an authentic message is good exactly when its timestamp is newer than its stream's, or its stream is new, fewer than 16 are known and it is at most 6000000 ticks behind the clock; otherwise which refusal it is |
| MavlinkOctets.AcceptedExact | general/package/legacy/rcjoystick/src/mavlink_helpers.h:175-206 | an accepted message leaves its stream with its own timestamp, or one stream more, every other stream as it was, and the later of the two clocks |
| MavlinkOctets.CheckExact | general/package/legacy/rcjoystick/src/mavlink_helpers.h:123-207 | a refused message changes the status and nothing else, and the status names the first test that failed |
| MavlinkParser.HeaderTracked | general/package/legacy/rcjoystick/src/mavlink_helpers.h:648-730 | every header octet received lands in its field and in the checksum |
| MavlinkParser.PayloadTracked | general/package/legacy/rcjoystick/src/mavlink_helpers.h:732-739 | every payload octet received lands at its index and in the checksum |
| MavlinkParser.FirstCrcTracked | general/package/legacy/rcjoystick/src/mavlink_helpers.h:741-757 | the first checksum octet is compared against the checksum with the extra octet, and the payload is zero-filled |
| MavlinkParser.SecondCrcTracked | general/package/legacy/rcjoystick/src/mavlink_helpers.h:759-793 | a message without signature is reported only with a matching checksum and only if the link admits it |
| MavlinkParser.SignatureTracked | general/package/legacy/rcjoystick/src/mavlink_helpers.h:795-830 | a message with signature is reported only after all 13 octets, with a good checksum, and only if the link admits it |
| MavlinkParser.ParseCharTracked | general/package/legacy/rcjoystick/src/mavlink_helpers.h:988-1008 | one call of mavlink_parse_char keeps the correspondence between the stream's tail and the partial message |
| MavlinkParser.RunTracked | general/package/legacy/rcjoystick/src/mavlink_helpers.h:588-1008 | over every byte stream the partial message is what the bytes since its start byte say |
| MavlinkParser.LayoutOfStart | general/package/legacy/rcjoystick/src/mavlink_helpers.h:599-646 | which byte began the frame in progress, and when that byte chose the layout |
| MavlinkParser.ReportedMessagesWereFramed | general/package/legacy/rcjoystick/src/mavlink_helpers.h:588-1008 | soundness: whenever a message is reported, the bytes just fed end in one contiguous intact frame that is exactly this message; and when exactly its magic is the frame's first byte |
| MavlinkLink.RunAppend | general/package/legacy/rcjoystick/src/mavlink_helpers.h:988-1008 | a run over a concatenation is the run over the parts |
| MavlinkLink.HeaderFed | general/package/legacy/rcjoystick/src/mavlink_helpers.h:618-730 | an idle parser fed a header is ready for the payload with that header |
| MavlinkLink.PayloadFed | general/package/legacy/rcjoystick/src/mavlink_helpers.h:732-739 | feeding a payload stores it from its beginning and hashes it |
| MavlinkLink.FirstCrcFed | general/package/legacy/rcjoystick/src/mavlink_helpers.h:741-757 | the right first checksum octet is recognised and the payload filled with zeros to full width |
| MavlinkLink.LastSignatureOctetFed | general/package/legacy/rcjoystick/src/mavlink_helpers.h:795-830 | the last signature octet reports the message exactly when the link admits it |
| MavlinkLink.FrameFed | general/package/legacy/rcjoystick/src/mavlink_helpers.h:588-1008 | an idle parser fed a whole intact frame reports its message at the end, restored to full width, and is idle again |
| MavlinkLink.FrameSilent | general/package/legacy/rcjoystick/src/mavlink_helpers.h:588-1008 | and reports nothing before the last byte |
| MavlinkLink.ReportsAppend | general/package/legacy/rcjoystick/src/mavlink_helpers.h:988-1008 | reports over a concatenation are the reports over the parts |
| MavlinkLink.MagicNeedNotBeStartByte | general/package/legacy/rcjoystick/src/mavlink_helpers.h:991-1005 | the resync keeps the layout of the failed frame: an input whose reported magic is not the byte its frame began with |
| MavlinkLink.IndexWithinPayload | general/package/legacy/rcjoystick/src/mavlink_helpers.h:588-1008 | the payload index never exceeds the length, in every state but the one after a start byte |
| MavlinkLink.IndexExact | general/package/legacy/rcjoystick/src/mavlink_helpers.h:588-1008 | over any run, after a byte the index is within the length if and only if that byte did not start a frame or the index before it was zero |
| MavlinkLink.IndexLeftOver | general/package/legacy/rcjoystick/src/mavlink_helpers.h:599-646 | in that state it does: the index of the frame before is left over |
| MavlinkOctets.AdmitsExact | general/package/legacy/rcjoystick/src/mavlink_helpers.h:770-830 | a message is let through exactly when the link does not sign, its id may come unsigned, or it is signed and its signature is good |
| MavlinkOctets.FailedFrameResumes | general/package/legacy/rcjoystick/src/mavlink_helpers.h:988-1008 | a frame that fails at its last octet leaves an idle parser, or with 0xFD as that octet one that reports the next frame exactly when the link admits it |
| MavlinkSender.FinalizedPayload | general/package/legacy/rcjoystick/src/mavlink_helpers.h:223-290 | finalizing keeps the payload it sends, puts the checksum into the two octets behind it and keeps all octets behind those |
| MavlinkSender.SentIsFrame | general/package/legacy/rcjoystick/src/mavlink_helpers.h:223-290 | what the send buffer gets from a finalized message is one frame of the message sent |
| MavlinkSender.SentChecksum | general/package/legacy/rcjoystick/src/mavlink_helpers.h:223-290 | its checksum is the one the receiver computes from the frame and its table |
| MavlinkSender.Sender.Finalize | general/package/legacy/rcjoystick/src/mavlink_helpers.h:223-290 | finalizing in place refines finalizing on values: header, sequence number, checksum, signature, signing state |
| MavlinkSender.ToSendBuffer | general/package/legacy/rcjoystick/src/mavlink_helpers.h:445-486 | the buffer receives exactly the frame, trimmed and with checksum and signature |
| MavlinkOctets.ExtraExact | general/package/legacy/rcjoystick/src/mavlink_helpers.h:548-556 | the extra octet of the checksum is that of the id's entry, or 0 without one |
| MavlinkOctets.FrameOctets | general/package/legacy/rcjoystick/src/mavlink_helpers.h:223-486 | a MAVLink 2 frame place by place: 0xFD, length, flags, sequence, addresses, three octets of id, payload at 10, checksum, 13 octets of signature exactly when flagged |
| MavlinkOctets.FrameOctetsV1 | general/package/legacy/rcjoystick/src/mavlink_helpers.h:223-486 | a MAVLink 1 frame place by place: 0xFE, length, sequence, addresses, one octet of id, payload at 6, checksum |
| MavlinkOctets.FrameChecksum | general/package/legacy/rcjoystick/src/mavlink_helpers.h:223-486 | a frame's checksum is the bit-serial one, from 0xFFFF, of everything behind its start byte and of the extra octet |
| MavlinkOctets.SentOctets | general/package/legacy/rcjoystick/src/mavlink_helpers.h:223-486 | what finalizing and serializing put on the wire for a message in MAVLink 2, octet by octet: trimmed length, flags, sequence number, addresses, id, payload, checksum and signature |
| MavlinkOctets.SentOctetsV1 | general/package/legacy/rcjoystick/src/mavlink_helpers.h:223-486 | the same in MAVLink 1 |
| MavlinkChannel.Channel.FrameChar | general/package/legacy/rcjoystick/src/mavlink_helpers.h:588-866 | the byte-at-a-time state machine on mutable state refines the one on values, in every state |
| MavlinkChannel.Channel.OnSignatureOctet | general/package/legacy/rcjoystick/src/mavlink_helpers.h:795-830 | the signature state refines: the block fills up, the check runs once, the verdict is kept after a bad checksum |
| MavlinkChannel.Channel.Restart | general/package/legacy/rcjoystick/src/mavlink_helpers.h:991-1005 | the resync after a bad frame refines |
| MavlinkChannel.Channel.ParseChar | general/package/legacy/rcjoystick/src/mavlink_helpers.h:988-1008 | mavlink_parse_char on mutable state refines the one the run theorems are about |
| MavlinkDelivery.OneDelivered | general/package/legacy/rcjoystick/src/mavlink_helpers.h:223-866 | one message finalized, serialized and fed to an idle parser is reported once, at its last byte, with address, sequence number and full payload |
| MavlinkDelivery.ArrivedRestores | general/package/legacy/rcjoystick/src/mavlink_helpers.h:111-117 | zero-fill undoes trimming; in MAVLink 1 the extension octets come back zero |
| MavlinkDelivery.AdmittedDelivered | general/package/legacy/rcjoystick/src/mavlink_helpers.h:223-1008 | any sequence of messages whose signing state admits them arrives exactly once each, in order, nothing in between |
| MavlinkDelivery.DeliveredExactly | general/package/legacy/rcjoystick/src/mavlink_helpers.h:223-1008 | a sequence is delivered if and only if the link admits every message of it in its turn |
| MavlinkDelivery.EveryMessageDelivered | general/package/legacy/rcjoystick/src/mavlink_helpers.h:223-1008 | round trip without signing: every sequence of sendable messages, in either protocol version, is delivered, sequence numbers counting on modulo 256 |
| MavlinkDelivery.DeliveredInSequence | general/package/legacy/rcjoystick/src/mavlink_helpers.h:223-1008 | read as a list: as many messages arrive as were sent, the k-th with the k-th id, address and full payload and the sequence number advanced by k modulo 256 |
| MavlinkDelivery.EverySignedMessageDelivered | general/package/legacy/rcjoystick/src/mavlink_helpers.h:73-1008 | round trip over a signed link, for a run whose first stamp is welcome to the receiver |
| MavlinkDelivery.SignedDeliveredExactly | general/package/legacy/rcjoystick/src/mavlink_helpers.h:73-1008 | where the first id may not come unsigned, a signed run is delivered if and only if its first stamp is welcome |
| MavlinkTruncation.SpoiltUnreported | general/package/legacy/rcjoystick/src/mavlink_helpers.h:741-793 | a frame whose checksum is not the receiver's is not reported at its end |
| MavlinkTruncation.TruncatedIdReported | general/package/legacy/rcjoystick/src/mavlink_helpers.h:223-1008 | a MAVLink 1 frame of a message of any id is reported if and only if the id cut to one octet has the same extra octet and may come unsigned, and then under that id |
| MavlinkReplay.AuthStep | general/package/legacy/rcjoystick/src/mavlink_helpers.h:588-1008 | over one byte, the signing state changes at the last octet of a signature only, and there it takes the step of the check |
| MavlinkReplay.StreamKeepsTable | general/package/legacy/rcjoystick/src/mavlink_helpers.h:123-1008 | over any bytes the table of streams stays sound and the clock never runs back |
| MavlinkReplay.StreamKeepsKnown | general/package/legacy/rcjoystick/src/mavlink_helpers.h:123-1008 | over any bytes no stream is forgotten or put back in time |
| MavlinkReplay.AcceptedInOrder | general/package/legacy/rcjoystick/src/mavlink_helpers.h:123-1008 | of two signatures found good in one byte stream for one sender, the later has the greater stamp |
| MavlinkReplay.ReportedWasAccepted | general/package/legacy/rcjoystick/src/mavlink_helpers.h:759-830 | a message reported on a signing link whose id may not come unsigned was reported at a good signature, and every good signature is reported |
| MavlinkReplay.ReportsNeverReplay | general/package/legacy/rcjoystick/src/mavlink_helpers.h:123-1008 | replay safety on bytes: of two messages reported for one sender, with ids that may not come unsigned, the later has the greater stamp, and no message is reported twice |
| MavlinkReplay.CopyReported | general/package/legacy/rcjoystick/src/mavlink_helpers.h:795-830 | a frame accepted once and sent again at once is reported again if and only if messages of its id may come unsigned |
| JsonGrammar.PieceSkipped | general/package/xmdp/src/cjson/cJSON.c:784-803 | the first pass steps over every legal piece of a string literal, escapes and surrogate pairs included |
| JsonGrammar.PieceDecoded | general/package/xmdp/src/cjson/cJSON.c:646-871 | the second pass decodes every legal piece of a string literal; which bytes those are by RFC 8259 and RFC 3629 is JsonStandard.PieceSpells |
| JsonGrammar.PiecesRead | general/package/xmdp/src/cjson/cJSON.c:767-893 | both passes over the pieces of any string literal of RFC 8259: the closing quote is found behind them and they decode to their UTF-8 |
| JsonGrammar.TailRead | general/package/xmdp/src/cjson/cJSON.c:646-871 | a malformed unit escape decodes to a NUL, whatever both passes make of what follows |
| JsonGrammar.LiteralReads | general/package/xmdp/src/cjson/cJSON.c:767-893 | parse_string on any literal of the grammar returns its bytes up to the first NUL and leaves the rest |
| JsonGrammar.NumberParses | general/package/xmdp/src/cjson/cJSON.c:301-375 | a number literal, with any delimiter behind it, is taken whole if and only if it has at most 63 bytes |
| JsonGrammar.NumeralIsLiteral | general/package/xmdp/src/cjson/cJSON.c:301-375 | every number of section 6 of RFC 8259 is taken whole by strtod, so 63 bytes is the only limit |
| JsonGrammar.LiteralExact | general/package/xmdp/src/cjson/cJSON.c:301-375 | which numbers are taken whole, exactly: a minus or none, digits on at least one side of a point or none, and an exponent with digits or none |
| JsonStandard.HexDigitExact | general/package/xmdp/src/cjson/cJSON.c:609-643 | a byte is the hexadecimal digit d exactly when it is the d-th of 0123456789abcdef or of 0123456789ABCDEF |
| JsonStandard.Hex4Exact | general/package/xmdp/src/cjson/cJSON.c:609-643 | four digits are read as their number, and anything else as 0 |
| JsonStandard.SimpleEscapeExact | general/package/xmdp/src/cjson/cJSON.c:830-852 | the eight short escapes of section 7 of RFC 8259 and no others, each with its byte |
| JsonStandard.Utf8Exact | general/package/xmdp/src/cjson/cJSON.c:709-758 | a code point is encoded as the octets of section 3 of RFC 3629 and in no other way |
| JsonStandard.PieceSpells | general/package/xmdp/src/cjson/cJSON.c:767-893 | every piece the reader takes is a character of section 7 of RFC 8259 with its bytes: as it is, a short escape, a unit escape or a surrogate pair |
| JsonStandard.SpelledPiece | general/package/xmdp/src/cjson/cJSON.c:767-893 | and every such character is a piece, with those bytes |
| JsonStandard.StringReads | general/package/xmdp/src/cjson/cJSON.c:767-893 | a string literal of any such characters is read as their bytes up to the first zero |
| JsonStandard.UpperCaseDigits | general/package/xmdp/src/cjson/cJSON.c:609-643 | an escape with upper-case digits, as the bytes it is read as |
| JsonReading.ArrayReads | general/package/xmdp/src/cjson/cJSON.c:1435-1530 | an array as written, blanks anywhere, is read element by element, or refused exactly when nesting or a number in it passes its limit |
| JsonReading.ObjectReads | general/package/xmdp/src/cjson/cJSON.c:1595-1705 | likewise an object, keys escaped in any way |
| JsonReading.ValueReads | general/package/xmdp/src/cjson/cJSON.c:1306-1705 | any value as RFC 8259 lets it be written, before any text, is read as the value written, or refused exactly when nesting or a number in it passes its limit |
| JsonReading.DocumentReads | general/package/xmdp/src/cjson/cJSON.c:1073-1172 | cJSON_Parse on any JSON text of RFC 8259, byte order mark or not: the value written if it is nested at most 1000 deep and no number has more than 63 bytes, null otherwise; a text that is itself a longer number aside |
| JsonReading.LongNumberReads | general/package/xmdp/src/cjson/cJSON.c:301-375 | a text that is one number of more than 63 bytes gives what strtod takes of the first 63 |
| JsonStandard.StandardTextReads | general/package/xmdp/src/cjson/cJSON.c:1073-1172 | every text of RFC 8259 gives its value if nested at most 1000 deep with numbers of at most 63 bytes, and null otherwise |
| JsonMeaning.WordsRead | general/package/xmdp/src/cjson/cJSON.c:1306-1335 | the texts null, true and false, and the types of the items they are read into |
| JsonAccepted.LiteralAt | general/package/xmdp/src/cjson/cJSON.c:767-893 | a string is accepted only where a literal of the grammar stands, and its bytes are those it means |
| JsonAccepted.NumberAt | general/package/xmdp/src/cjson/cJSON.c:301-375 | a number is accepted only where a literal of at most 63 bytes stands |
| JsonAccepted.ValueAt | general/package/xmdp/src/cjson/cJSON.c:1306-1705 | a value is accepted only where one of the grammar stands, within the limits, and is the one it means |
| JsonAccepted.DocumentAt | general/package/xmdp/src/cjson/cJSON.c:1073-1172 | every accepted text is one of the grammar within the limits, with anything behind it |
| JsonAccepted.ParsesExactly | general/package/xmdp/src/cjson/cJSON.c:1073-1172 | cJSON_Parse returns a value if and only if the text is one of the grammar, within the limits on nesting and numbers, that means this value |
| JsonAccepted.LooseUnitAccepted | general/package/xmdp/src/cjson/cJSON.c:646-764 | a unit escape without hexadecimal digits, outside RFC 8259, is accepted and ends its string |
| JsonRoundTrip.StringReadsBack | general/package/xmdp/src/cjson/cJSON.c:767-1015 | both passes of the string decoder read back what the printer escaped |
| JsonRoundTrip.ValueParses | general/package/xmdp/src/cjson/cJSON.c:1306-1819 | the text printed for any value, inside any surrounding text, is read as that value with the rest left, or refused exactly when it is nested too deep |
| JsonRoundTrip.PrintedTextParses | general/package/xmdp/src/cjson/cJSON.c:1169-1819 | print and parse are inverse on every tree of NUL-free strings and number tokens, formatted or not, keys and member order included, exactly when it is nested at most 1000 deep |
| JsonStrings.EscapesSparse | general/package/xmdp/src/cjson/cJSON.c:784-796 | escapes the first pass counts are never adjacent |
| JsonStrings.RoomGrows | general/package/xmdp/src/cjson/cJSON.c:784-871 | the room left, consumed minus escapes counted, never shrinks as more is consumed |
| JsonStrings.RoomSuffices | general/package/xmdp/src/cjson/cJSON.c:780-871 | what a step writes always fits in the room its own input has added |
| JsonStrings.Utf8ByGroups | general/package/xmdp/src/cjson/cJSON.c:709-758 | the encoding loop's six-bit groups and first-byte mark make up the UTF-8 of the code point |
| JsonStrings.StoreUtf8 | general/package/xmdp/src/cjson/cJSON.c:741-758 | the backward loop stores exactly the UTF-8 octets and nothing else |
| JsonStrings.FindClosingQuote | general/package/xmdp/src/cjson/cJSON.c:780-803 | the first pass finds the closing quote, or that there is none, and counts the skipped octets |
| JsonStrings.Utf16LiteralToUtf8 | general/package/xmdp/src/cjson/cJSON.c:646-764 | a \u escape or surrogate pair is decoded, or refused, within the octets it announced |
| JsonStrings.DecodeLiteral | general/package/xmdp/src/cjson/cJSON.c:767-893 | for any input, malformed escapes included, every store is within the buffer the first pass sized, and the result is the decoded string |
| JsonParser.ParseBuffer.SkipWhitespace | general/package/xmdp/src/cjson/cJSON.c:1032-1055 | whitespace is skipped, stepping back by one at the very end |
| JsonParser.ParseBuffer.ParseStringLiteral | general/package/xmdp/src/cjson/cJSON.c:767-893 | parse_string on the buffer is the string parser on its rest |
| JsonParser.ParseBuffer.ParseNumberToken | general/package/xmdp/src/cjson/cJSON.c:301-375 | at most 63 number bytes are looked at and strtod's share of them is consumed |
| JsonParser.ParseBuffer.ParseItem | general/package/xmdp/src/cjson/cJSON.c:1306-1358 | parse_value on the buffer, offset and depth included, refines the recursive parser |
| JsonParser.ParseBuffer.ParseElements | general/package/xmdp/src/cjson/cJSON.c:1470-1502 | the element loop of parse_array yields the chain of items |
| JsonParser.ParseBuffer.ParseArrayItem | general/package/xmdp/src/cjson/cJSON.c:1435-1530 | parse_array, with its depth limit, refines |
| JsonParser.ParseBuffer.ParseEntries | general/package/xmdp/src/cjson/cJSON.c:1628-1678 | the member loop of parse_object yields the chain of members |
| JsonParser.ParseBuffer.ParseObjectItem | general/package/xmdp/src/cjson/cJSON.c:1595-1705 | parse_object, with its depth limit, refines |
| JsonParser.ParseText | general/package/xmdp/src/cjson/cJSON.c:1073-1172 | cJSON_Parse as a whole is the parser of the round-trip theorem |
| JsonPrinter.TextNulFree | general/package/xmdp/src/cjson/cJSON.c:1361-1432 | printed text never contains a NUL, so the printer's strlen finds its end |
| JsonPrinter.PrintBuffer.Ensure | general/package/xmdp/src/cjson/cJSON.c:435-520 | room is found exactly when offset, request and terminator fit the limit; a grown buffer keeps what was written |
| JsonPrinter.PrintBuffer.UpdateOffset | general/package/xmdp/src/cjson/cJSON.c:523-533 | the offset moves to the end of what was written |
| JsonPrinter.PrintBuffer.CountEscapes | general/package/xmdp/src/cjson/cJSON.c:923-947 | the counting loop finds how much longer the escaped text is; what each byte is escaped as is JsonStandard.EscapeByteExact |
| JsonPrinter.PrintBuffer.WriteEscaped | general/package/xmdp/src/cjson/cJSON.c:969-1009 | one byte is written as its escape, which JsonStandard.EscapeByteExact gives number by number, and nothing else is touched |
| JsonPrinter.PrintBuffer.PrintString | general/package/xmdp/src/cjson/cJSON.c:896-1015 | a quoted string is written exactly when it fits, without touching what came before |
| JsonPrinter.PrintBuffer.PrintItem | general/package/xmdp/src/cjson/cJSON.c:1361-1432 | print_value succeeds if and only if the text, its terminator and one spare byte fit, and then the buffer holds exactly the text |
| JsonPrinter.PrintBuffer.PrintArray | general/package/xmdp/src/cjson/cJSON.c:1533-1592 | print_array likewise, depth restored |
| JsonPrinter.PrintBuffer.PrintEntry | general/package/xmdp/src/cjson/cJSON.c:1735-1799 | one member, with tabs, key, colon, value, comma and line end, likewise |
| JsonPrinter.PrintBuffer.PrintObject | general/package/xmdp/src/cjson/cJSON.c:1708-1819 | print_object likewise, depth restored |
| JsonPrinter.Print | general/package/xmdp/src/cjson/cJSON.c:1181-1253 | printing into a growing buffer gives exactly the text, and fails only when it does not fit in INT_MAX |
| JsonStandard.EscapeByteExact | general/package/xmdp/src/cjson/cJSON.c:969-1009 | what each of the 256 bytes is printed as inside a string, number by number |
| JsonStandard.EscapeHasNoControl | general/package/xmdp/src/cjson/cJSON.c:896-1015 | an escaped string has no byte below 32 |
| JsonStandard.TextHasNoControl | general/package/xmdp/src/cjson/cJSON.c:1361-1819 | printed text has no byte below 32, but tabs and line feeds if it is formatted |
| JsonStandard.PrintedIsStandard | general/package/xmdp/src/cjson/cJSON.c:1361-1819 | what is printed, formatted or not, is a text of RFC 8259 that writes the value, if its numbers are numbers of RFC 8259 |
| JsonStandard.OnlyBlanksDiffer | general/package/xmdp/src/cjson/cJSON.c:1361-1819 | formatted or not and at any depth the same tokens are printed: only blanks differ, and without format there are none |
| JsonStandard.ArrayPrinted | general/package/xmdp/src/cjson/cJSON.c:1533-1592 | an array of any elements is printed as their texts with a comma, and a space if formatted, between them |
| JsonStandard.ObjectPrinted | general/package/xmdp/src/cjson/cJSON.c:1708-1819 | an object of any members is printed as one line each, with tabs for its depth, key, colon, tab and value, or without blanks |
| JsonStandard.ExampleText | general/package/xmdp/src/cjson/cJSON.c:1169-1819 | a text with an object, an array and an escape: what is printed for its value, and what it is read as |
| JsonList.ChainUnique | general/package/xmdp/src/cjson/cJSON.c:1822-1862 | a child list holds one sequence of items only |
| JsonList.GetArraySize | general/package/xmdp/src/cjson/cJSON.c:1822-1843 | counts the items of the sequence |
| JsonList.GetItem | general/package/xmdp/src/cjson/cJSON.c:1845-1862 | walks to the item at an index, or to none |
| JsonList.AddItem | general/package/xmdp/src/cjson/cJSON.c:1950-1990 | appends to the sequence, keeping next and prev consistent and leaving head.prev the tail, also when the list was built without head.prev |
| JsonList.InsertItem | general/package/xmdp/src/cjson/cJSON.c:2266-2293 | inserts at an index, appends beyond the end, refuses a negative index; head.prev stays the tail if it was |
| JsonList.DetachItem | general/package/xmdp/src/cjson/cJSON.c:2190-2224 | removes the item from the sequence and clears its links, in first, middle, last and only position; head.prev stays the tail if it was, and becomes it when the last item goes |
| JsonList.DetachItemFromArray | general/package/xmdp/src/cjson/cJSON.c:2226-2234 | the same by index |
| JsonList.ReplaceItem | general/package/xmdp/src/cjson/cJSON.c:2295-2342 | replaces the item in the sequence and keeps every invariant, also when head.prev is null |
| JsonList.ReplaceItemInArray | general/package/xmdp/src/cjson/cJSON.c:2344-2352 | the same by index |
| JsonList.LinkLast | general/package/xmdp/src/cjson/cJSON.c:2556-2572 | the building step of cJSON_CreateIntArray and cJSON_Duplicate appends and leaves head.prev null |
| JsonList.CreateIntArray | general/package/xmdp/src/cjson/cJSON.c:2543-2576 | builds a list of new number items that satisfies the list invariant with head.prev null |
| JsonTree.DenotesUnique | general/package/xmdp/src/cjson/cJSON.c:2963-3086 | an item holds one tree only |
| JsonTree.Attach | general/package/xmdp/src/cjson/cJSON.c:2731-2753 | linking a copied child keeps all copies before it intact |
| JsonTree.Duplicate | general/package/xmdp/src/cjson/cJSON.c:2687-2764 | a recursive copy holds the same tree in proper lists, consists of new items only, and leaves the original alone |
| JsonTree.CopyKids | general/package/xmdp/src/cjson/cJSON.c:2731-2753 | the loop of cJSON_Duplicate copies every child, in order, into new items |
| JsonAlike.FirstIs | general/package/xmdp/src/cjson/cJSON.c:1874-1904 | the member found under a name is the first of that name, and none is found behind an unnamed one |
| JsonAlike.AlikeSymmetric | general/package/xmdp/src/cjson/cJSON.c:2963-3086 | being alike, as cJSON_Compare decides it, is symmetric on all trees |
| JsonAlike.AlikeTransitive | general/package/xmdp/src/cjson/cJSON.c:2963-3086 | and transitive |
| JsonAlike.SelfAlike | general/package/xmdp/src/cjson/cJSON.c:2963-3086 | and reflexive exactly on the steady trees: in every object each member is like the first member of its key, and no type is invalid |
| JsonAlike.RepeatedKeyDiffers | general/package/xmdp/src/cjson/cJSON.c:3045-3080 | the object {"x":1,"x":2} is not like its own copy |
| JsonAlike.EntriesAt | general/package/xmdp/src/cjson/cJSON.c:1874-1904 | with distinct keys, each member is the one found under its key and nothing else is found |
| JsonAlike.ProperSteady | general/package/xmdp/src/cjson/cJSON.c:2963-3086 | distinct keys make a tree steady |
| JsonAlike.CoversIsIncluded | general/package/xmdp/src/cjson/cJSON.c:3045-3080 | looking up every member one way is inclusion of one object in the other as a map |
| JsonAlike.AlikeIsValue | general/package/xmdp/src/cjson/cJSON.c:2963-3086 | on trees with distinct keys per object, alike means equal up to member order |
| JsonMeaning.LeavesAlike | general/package/xmdp/src/cjson/cJSON.c:2985-3019 | words of one type are alike, and numbers, strings and raw texts exactly when their bytes are equal |
| JsonMeaning.ArraysAlike | general/package/xmdp/src/cjson/cJSON.c:3021-3042 | arrays are alike exactly when they have as many elements, alike one by one in order |
| JsonMeaning.ObjectsAlike | general/package/xmdp/src/cjson/cJSON.c:3045-3080 | with distinct keys objects are alike exactly when they have as many members and each has a like one of its key in the other, wherever it stands |
| JsonCompare.GetObjectItem | general/package/xmdp/src/cjson/cJSON.c:1874-1904 | finds the first member of that name in front of any unnamed one, or there is none |
| JsonCompare.Included | general/package/xmdp/src/cjson/cJSON.c:3049-3062 | one lookup loop holds if and only if every member matches the member found under its name |
| JsonCompare.CompareArrays | general/package/xmdp/src/cjson/cJSON.c:3021-3042 | the array case holds if and only if both have matching elements in the same order |
| JsonCompare.Compare | general/package/xmdp/src/cjson/cJSON.c:2963-3086 | cJSON_Compare holds if and only if the items match, whatever they share; on trees that share none, or are steady, that is being alike, repeated and missing names included; with distinct keys, being equal up to member order |
| JsonCompare.MatchesIsAlike | general/package/xmdp/src/cjson/cJSON.c:2963-3086 | the shortcut for one item makes no difference to trees that share none or are steady |
| JsonCompare.DuplicateAndCompare | general/package/xmdp/src/cjson/cJSON.c:2687-3086 | a recursive copy compares equal to its source if and only if the source is steady |
| JsonItems.JsonIsTree | general/package/xmdp/src/cjson/cJSON.c:1306-1705 | every parsed value is held by one tree of items, and read back off it |
| JsonItems.TreeIsJson | general/package/xmdp/src/cjson/cJSON.c:1361-1819 | every tree of the kind the parser builds is that of one value |
| JsonMeaning.ArrayTree | general/package/xmdp/src/cjson/cJSON.c:1435-1530 | numbers and strings are items of their type and bytes, and the i-th child of an array is its i-th element |
| JsonMeaning.ObjectTree | general/package/xmdp/src/cjson/cJSON.c:1595-1705 | the i-th child of an object is its i-th member, named by its key |
| JsonItems.CloseRing | general/package/xmdp/src/cjson/cJSON.c:1511-1519 | setting head.prev to the last item at the end of parse_array keeps the list and every child |
| JsonItems.BuildItem | general/package/xmdp/src/cjson/cJSON.c:1306-1705 | the items of a value, linked as the parser links them, are new, hold the value's tree, and head.prev is the last child |
| JsonItems.ParseToItems | general/package/xmdp/src/cjson/cJSON.c:1073-1172 | cJSON_Parse returns null exactly when the parser refuses the text, and otherwise new items that hold the parsed value |
| JsonItems.ReadItem | general/package/xmdp/src/cjson/cJSON.c:1361-1819 | following child and next from an item leads to the value its tree holds |
| JsonItems.PrintItems | general/package/xmdp/src/cjson/cJSON.c:1181-1253 | the text printed for an item is that of the value its links lead to, if it fits |
| JsonItems.PrintParseCompare | general/package/xmdp/src/cjson/cJSON.c:1169-3086 | items printed, the links followed, and parsed again: new items come back if and only if the text fits INT_MAX and nesting fits the limit; they hold the same tree, and compare equal to the old ones if and only if these are steady |
| OneWire.SetBitBits | general/package/w1-ds18b20/src/w1-ds18b20.c:195-212 | setting a bit changes that bit and no other |
| OneWire.SameBits | general/package/w1-ds18b20/src/w1-ds18b20.c:195-212 | codes with the same 64 bits are the same |
| OneWireCodes.BitExact | general/package/w1-ds18b20/src/w1-ds18b20.c:195-212 | bit i of a code is that of the number: the code divided by 2^i, modulo 2 |
| OneWire.StepFollows | general/package/w1-ds18b20/src/w1-ds18b20.c:238-272 | the walk repeats the code before up to its last fork and takes the other branch there |
| OneWire.StepBehind | general/package/w1-ds18b20/src/w1-ds18b20.c:238-272 | every device left behind after that comes later in search order |
| OneWire.StepForks | general/package/w1-ds18b20/src/w1-ds18b20.c:238-272 | the recorded position is always the last fork where 0 was taken |
| OneWire.WalkStep | general/package/w1-ds18b20/src/w1-ds18b20.c:238-272 | one bit of the search keeps the whole walk invariant |
| OneWire.WalkEnds | general/package/w1-ds18b20/src/w1-ds18b20.c:238-274 | after 64 bits the code is a device, the successor of the one before, with its last fork recorded |
| OneWire.NothingAfter | general/package/w1-ds18b20/src/w1-ds18b20.c:227-228 | when no fork is left the last code found was the greatest |
| OneWire.Prepare | general/package/w1-ds18b20/src/w1-ds18b20.c:233-237 | sets the bit at LastBitChange and clears those behind |
| OneWire.SearchBit | general/package/w1-ds18b20/src/w1-ds18b20.c:247-271 | two wired-AND reads and one write decide a bit as the devices still active offer it |
| OneWire.SearchSensor | general/package/w1-ds18b20/src/w1-ds18b20.c:223-275 | on any bus the result is a function of the devices, the presence pulse and the disturbed reads; on a clean bus each call returns the successor of the code before, or 0 exactly when there is none |
| OneWireCodes.CodesExact | general/package/w1-ds18b20/src/w1-ds18b20.c:223-275 | 0 is returned exactly when nothing is left, -1 exactly without presence, and 1 or -2 otherwise |
| OneWireScan.SearchAll | general/package/w1-ds18b20/src/w1-ds18b20.c:223-275 | from ID 0 and LastBitChange 64 the calls return every device exactly once, in search order, and then the code 0 |
| OneWireScan.CalcCrc | general/package/w1-ds18b20/src/w1-ds18b20.c:176-193 | the two loops compute the Dallas CRC-8 |
| OneWireScan.CrcResidue | general/package/w1-ds18b20/src/w1-ds18b20.c:176-193 | the last octet is the checksum of the others exactly when the checksum of all is zero |
| OneWireScan.DetectsOneOctet | general/package/w1-ds18b20/src/w1-ds18b20.c:176-193 | a single wrong octet always changes the checksum |
| OneWireCodes.ExampleCrc | general/package/w1-ds18b20/src/w1-ds18b20.c:176-193 | the checksum of a known code: 02 1C B8 01 00 00 00 gives A2 |
| OneWireCodes.ExampleOk | general/package/w1-ds18b20/src/w1-ds18b20.c:446-455 | that code as a whole, with its octets in the order they lie in memory, passes the tool's check |
| OneWireScan.LessTotal | general/package/w1-ds18b20/src/w1-ds18b20.c:223-275 | search order is total on codes |
| OneWireCodes.LessExact | general/package/w1-ds18b20/src/w1-ds18b20.c:223-275 | search order is the order of the codes with their 64 bits mirrored, as numbers |
| OneWireScan.ProgressStep | general/package/w1-ds18b20/src/w1-ds18b20.c:446-466 | accepting the successor extends a sorted prefix of the devices by one, skipping none |
| OneWireScan.IncreasingSize | general/package/w1-ds18b20/src/w1-ds18b20.c:434-472 | a sorted list of devices is no longer than there are devices |
| OneWireRuns.ScanForSensor | general/package/w1-ds18b20/src/w1-ds18b20.c:434-472 | what is printed and how the scan ends is the result of a run over the passes, each search being the function of its pass; it stops early only where the loop does |
| OneWireRuns.RunDetermined | general/package/w1-ds18b20/src/w1-ds18b20.c:434-472 | devices and passes determine the run |
| OneWireRuns.PresenceOnlyTrusted | general/package/w1-ds18b20/src/w1-ds18b20.c:434-472 | on a clean bus every run is trusted, and so it is when passes only ever lack the presence pulse |
| OneWireRuns.PrintsPrefix | general/package/w1-ds18b20/src/w1-ds18b20.c:434-472 | in a trusted run the codes printed are the first of the sorted devices, none skipped and none repeated, and all of them once the search has ended |
| OneWireRuns.PrintingEnds | general/package/w1-ds18b20/src/w1-ds18b20.c:434-472 | a trusted scan that only prints ends within n + 10 passes |
| OneWireRuns.RetriesInARow | general/package/w1-ds18b20/src/w1-ds18b20.c:434-472 | a reading scan's retry counter is the length of the last stretch of failed passes |
| OneWireCodes.CountsExact | general/package/w1-ds18b20/src/w1-ds18b20.c:434-472 | a printing scan's retries are the passes that failed, counted, and its finds the others; a reading scan finds in the clean passes that read |
| OneWireRuns.RunFollows | general/package/w1-ds18b20/src/w1-ds18b20.c:434-472 | a trusted run on devices with correct checksums does in every pass what the pass says |
| OneWireRuns.GivesUp | general/package/w1-ds18b20/src/w1-ds18b20.c:434-472 | a trusted scan of sensors with correct checksums gives up if and only if ten retries add up before all devices have been found, in a row for a reading scan; read off the passes beforehand |
| OneWireRuns.FindsAll | general/package/w1-ds18b20/src/w1-ds18b20.c:434-472 | such a scan finds all devices if and only if it does not give up and as many successful passes as devices come before the last pass |
| OneWireRuns.CleanReadingScan | general/package/w1-ds18b20/src/w1-ds18b20.c:434-472 | over clean passes a reading scan of sensors with correct checksums never gives up, and ends if and only if as many passes read as there are devices and one more follows |
| OneWireRuns.ZeroFound | general/package/w1-ds18b20/src/w1-ds18b20.c:247-271 | with suitable reads inverted the search finds the code 0 whatever devices there are |
| OneWireRuns.DisturbedPassPrinted | general/package/w1-ds18b20/src/w1-ds18b20.c:434-472 | so a scan can print a code with a matching checksum that no device has: the trust in the statements on printed codes is needed |
| HeraldNames.JoinLabels | general/package/herald/src/herald-client.c:69-85 | splitting and joining a name gives it back if and only if it has no empty label |
| HeraldNames.LabelsJoin | general/package/herald/src/herald-client.c:69-85 | and joining and splitting gives non-empty, dotless labels back |
| HeraldNames.EncodeName | general/package/herald/src/herald-server.c:100-116 | writes the wire form of the non-empty labels behind what is there |
| HeraldNames.DecodeName | general/package/herald/src/herald-server.c:120-156 | every store is within the 256-byte output; position, text and terminator are those of the decoder on values, also when it fails half-way |
| HeraldDecoding.LoopDenotes | general/package/herald/src/herald-client.c:89-127 | the loop, from any point, follows labels and pointers as section 4.1.4 of RFC 1035 defines them |
| HeraldDecoding.DecodeDenotes | general/package/herald/src/herald-client.c:89-127 | the result is the dotted join of the denoted labels for any chain of at most 127 labels and pointers, if and only if the text fits |
| HeraldWalk.LoopWalks | general/package/herald/src/herald-client.c:89-127 | from any point of its loop, on any octets, what decode_name has collected and where it stops follow from the walk along labels and pointers |
| HeraldWalk.DecodeWalks | general/package/herald/src/herald-client.c:89-127 | what decode_name returns for any octets: the labels passed, joined, if they fit and nothing met is cut off, and a position if the walk came to a root label or followed a pointer |
| HeraldWalk.NameUnique | general/package/herald/src/herald-client.c:89-127 | octets denote at most one name, over one number of hops |
| HeraldWalk.HopsBound | general/package/herald/src/herald-client.c:89-127 | a name takes fewer labels and pointers than the packet has octets |
| HeraldWalk.DecodeRight | general/package/herald/src/herald-client.c:89-127 | for any octets, the result is a name section 4.1.4 of RFC 1035 denotes if and only if the text fits and the walk is sound; any other position comes from a reserved length octet, a pointer behind the packet, or used-up steps |
| HeraldWalk.DecodeWithin | general/package/herald/src/herald-client.c:89-127 | a returned position is that of a name of at most 127 hops if and only if the walk over labels of 1 to 63 octets comes to a root label |
| HeraldWalk.DecodeExact | general/package/herald/src/herald-client.c:89-127 | a denoted name, however long its chain, is returned if and only if its text fits and the chain has at most 127 hops, or a pointer and every label are among the first 128 |
| HeraldWalk.ReservedLength | general/package/herald/src/herald-client.c:89-127 | a length octet of 64 is taken as a length although no name is denoted |
| HeraldWalk.PointerOutside | general/package/herald/src/herald-client.c:89-127 | a pointer behind the packet gives a position and an empty name |
| HeraldWalk.SelfPointer | general/package/herald/src/herald-client.c:89-127 | a pointer to itself denotes no name and still returns a position, with an empty text |
| HeraldDecoding.DecodeRange | general/package/herald/src/herald-client.c:89-127 | on arbitrary bytes a result is -1 or strictly behind the start and within the packet |
| HeraldDecoding.WireDenotes | general/package/herald/src/herald-server.c:100-116 | an encoded name denotes its labels and ends where it ends |
| HeraldDecoding.DecodeEncoded | general/package/herald/src/herald-client.c:69-127 | decoding inverts encoding up to dropped empty labels |
| HeraldDecoding.WellFormedDecodes | general/package/herald/src/herald-client.c:69-127 | for a well-formed name it is the exact inverse |
| HeraldPackets.LabelOctets | general/package/herald/src/herald-server.c:100-116 | labels are joined by dots, and written with their length in front of each and a zero behind the last |
| HeraldPackets.OffsetExact | general/package/herald/src/herald-client.c:100-108 | a compression pointer's offset is the low 14 bits of its two octets |
| HeraldServer.EncodedSize | general/package/herald/src/herald-server.c:100-116 | a name takes at most two octets more than its text |
| HeraldServer.CloseRecord | general/package/herald/src/herald-server.c:174-178 | filling in the length afterwards leaves owner and data as written |
| HeraldServer.AppendPtr | general/package/herald/src/herald-server.c:166-179 | appends the PTR record with its back-patched length |
| HeraldServer.AppendSrv | general/package/herald/src/herald-server.c:185-200 | appends the SRV record with its back-patched length |
| HeraldServer.AppendTxt | general/package/herald/src/herald-server.c:206-219 | appends the TXT record |
| HeraldServer.AppendA | general/package/herald/src/herald-server.c:225-234 | appends the A record |
| HeraldServer.ResponseFits | general/package/herald/src/herald-server.c:240-254 | a response for any configured names fits the 4096-byte buffer |
| HeraldServer.BuildResponse | general/package/herald/src/herald-server.c:240-254 | the buffer holds exactly header and four records |
| HeraldPackets.RecordOctets | general/package/herald/src/herald-server.c:166-234 | a record octet by octet: owner, type, class, time to live, length and data, the high octet of each number first |
| HeraldPackets.ResponseOctets | general/package/herald/src/herald-server.c:166-254 | the four records of a response with their types 12, 33, 16 and 1, their classes and their data |
| HeraldServer.ClassifyQuery | general/package/herald/src/herald-server.c:337-373 | the question loop finds what the server has for a query, for any octets; what that is for any list of questions is HeraldPackets.QuestionsMatched |
| HeraldPackets.QuestionsMatched | general/package/herald/src/herald-server.c:337-373 | for any questions with well-formed names the result is the answer to the last one the server has one for, and none for none; a response gets none |
| HeraldPackets.OneQuestionMatched | general/package/herald/src/herald-server.c:337-373 | exactly which answer one question gets: the service for types 12 and 255, else the instance for 33 and 255, else the hostname for 1 and 255, names compared without regard to case |
| HeraldPackets.SameTextExact | general/package/herald/src/herald-server.c:357-366 | names are the same exactly when they are as long and equal letter by letter but for A to Z and a to z |
| HeraldPackets.ShortPacket | general/package/herald/src/herald-server.c:337-347 | a packet shorter than a header, or a response, asks for nothing |
| HeraldServer.ResponseContainsName | general/package/herald/src/herald-server.c:384-416 | the two scanning loops find a record of that owner |
| HeraldClient.BuildQuery | general/package/herald/src/herald-client.c:130-141 | the buffer holds exactly the query |
| HeraldPackets.QueryOctets | general/package/herald/src/herald-client.c:130-141 | the query octet by octet: one question, of type 12, asking for a unicast answer |
| HeraldClient.AddressReads | general/package/herald/src/herald-client.c:185-194 | the dotted address text names the four octets of the record in order |
| HeraldPackets.DecimalExact | general/package/herald/src/herald-client.c:185-194 | an octet's decimal text has its value and no leading zero |
| HeraldClient.Table.GetDevice | general/package/herald/src/herald-client.c:144-155 | finds a known device or adds one while there is room for 64 |
| HeraldPackets.RegisterExact | general/package/herald/src/herald-client.c:144-155 | a device is added exactly when none of its name and fewer than 64 are known |
| HeraldPackets.ServiceExact | general/package/herald/src/herald-client.c:175-184 | host and port go to the first device of the name and to no other |
| HeraldPackets.AddressExact | general/package/herald/src/herald-client.c:185-195 | an address goes to every device of that name or host and to no other |
| HeraldClient.Table.ParseRr | general/package/herald/src/herald-client.c:158-199 | table and position after a record are those of the parser on values |
| HeraldClient.Table.NoteAddress | general/package/herald/src/herald-client.c:187-195 | the address goes to every device of that host or name |
| HeraldClient.Table.ParseResponse | general/package/herald/src/herald-client.c:202-227 | the record loop refines, for any bytes |
| HeraldClient.ParseRecord | general/package/herald/src/herald-client.c:158-199 | a record ends at -1 or strictly behind its start and within the packet |
| HeraldTargets.TargetDepends | general/package/herald/src/herald-client.c:176-184 | a service record's target depends on the uninitialised buffer if and only if nothing ends it within what decode_name wrote |
| HeraldTargets.RecordDepends | general/package/herald/src/herald-client.c:158-199 | a record's effect on a table depends on that buffer if and only if its target is read and unsettled and its device is in the table or gets into it |
| HeraldTargets.PacketIndependent | general/package/herald/src/herald-client.c:202-227 | a packet whose service records all have settled targets does the same whatever the buffer held |
| HeraldTargets.OneRecordDepends | general/package/herald/src/herald-client.c:202-227 | for a packet of one record that condition is exact |
| HeraldTargets.StaleTargetMatters | general/package/herald/src/herald-client.c:176-184 | a packet that leaves two different tables for two contents of the buffer |
| HeraldExchange.QueryIsMatched | general/package/herald/src/herald-server.c:337-373 | the client's query for the server's service, in whatever case, is classified as one for its PTR record |
| HeraldExchange.ResponseParsed | general/package/herald/src/herald-client.c:158-227 | what a whole response does to any table of devices |
| HeraldExchange.ResponseRegisters | general/package/herald/src/herald-client.c:144-227 | a response into an empty table leaves exactly one device with the server's instance name, host, port and address, and hearing it again changes nothing |
| HeraldExchange.ConflictDetected | general/package/herald/src/herald-server.c:384-416 | another server's response is a conflict exactly when it owns a record of that name |
| HeraldPackets.PacketRead | general/package/herald/src/herald-client.c:158-227 | a response of any questions and records with well-formed names, counted over all three sections: the client learns each record in turn, and it is a conflict exactly when some record is owned by the name; from a query nothing is learnt |
| MatterFraming.PrefixRead | general/package/matter/src/matter-server.c:518-522 | the little-endian length survives its four octets |
| MatterFraming.SplitAppend | general/package/matter/src/matter-server.c:824-854 | reassembly does not depend on chunking: splitting a prefix first and the rest later gives the same messages, remainder and verdict |
| MatterFraming.FramesSplit | general/package/matter/src/matter-server.c:517-539 | frames of 1 to 4096 bytes are split back into exactly their messages, whatever follows |
| MatterFraming.CutFrame | general/package/matter/src/matter-server.c:517-539 | a frame cut short yields nothing and closes nothing |
| MatterFraming.SentIsRecovered | general/package/matter/src/matter-server.c:517-539 | whatever was sent, a failed last send included, is recovered |
| MatterFraming.FrameOctets | general/package/matter/src/matter-server.c:517-539 | a frame octet by octet: the length in four octets, the lowest first, and the message |
| MatterFraming.BadLengthCloses | general/package/matter/src/matter-server.c:826-838 | behind complete frames a connection is closed by exactly the lengths 0 and above 4096 |
| MatterFraming.Socket.SendAll | general/package/matter/src/matter-server.c:525-537 | the send loop puts all bytes on the wire exactly when the sends take them all, a beginning of them otherwise, and uses up no more sends than that |
| MatterFraming.Socket.SendFramed | general/package/matter/src/matter-server.c:517-539 | the wire gets the whole frame and 0 is returned exactly when the sends take all of it; a beginning of it otherwise |
| MatterFraming.AllTaken | general/package/matter/src/matter-server.c:525-537 | all bytes go exactly when some first sends, none of them failing, cover them |
| MatterFraming.PositivePlanSends | general/package/matter/src/matter-server.c:517-539 | as many sends as a frame has bytes, each taking something, are always enough |
| MatterFraming.Client.Process | general/package/matter/src/matter-server.c:824-854 | the inner loop dispatches exactly the complete messages and keeps the rest, or closes on a bad length |
| MatterFraming.Client.Serve | general/package/matter/src/matter-server.c:810-855 | as much is received as the recvs take one after the other, until one gets none, the stream ends or a bad length has arrived; the messages dispatched are those of the bytes received, however recv cut them; the buffer always has room before each recv |
| MatterFraming.ReadsBounds | general/package/matter/src/matter-server.c:810-855 | no more is received than was asked for, and unless the stream ends or is closed all that up to 4093 bytes a recv allow |
| MatterClients.RunKeeps | general/package/matter/src/matter-server.c:1252-1290 | every interleaving of accept loop and client threads keeps the invariant, the lock included, whatever fails |
| MatterClients.CounterExact | general/package/matter/src/matter-server.c:1252-1290 | from the start the counter is the number of connections admitted and not yet released, never above 16, and zero once everyone is gone |
| MatterClients.ClientKeeps | general/package/matter/src/matter-server.c:857-861 | a client's locked decrement, load and store apart, keeps the counter exact |
| MatterClients.LoopKeeps | general/package/matter/src/matter-server.c:1252-1290 | so do the accept loop's increment and its undo after a failed malloc or pthread_create |
| MatterClients.AdmittedBelowLimit | general/package/matter/src/matter-server.c:1252-1261 | a connection is refused exactly at the limit |
| MatterClients.LoopAdmits | general/package/matter/src/matter-server.c:1252-1290 | below the limit and with the lock free a connection is counted and gets its thread in five steps |
| MatterClients.LoopUndoes | general/package/matter/src/matter-server.c:1252-1290 | after a failed malloc or pthread_create nothing has changed once the count is taken back |
| MatterClients.ClientLeaves | general/package/matter/src/matter-server.c:857-861 | with the lock free a client is gone in four steps, and counts no more |
| MatterClients.SomeoneMoves | general/package/matter/src/matter-server.c:1252-1290 | in every reachable state some step changes it: the lock is never left with nobody able to go on |

## Left out

- MAVLink statistics counters, `r_message` and `r_mavlink_status` copies, channel tables and the UART helpers: copies of state already modelled.
- MAVLink generated packers and `put_bitfield_n_by_index`: payloads are octets here.
- The accept-unsigned callback is the set of message ids it accepts.
- `mavlink_sign_packet` and `mavlink_signature_check` read the header from consecutive fields of the message in memory; the model names the ten octets instead.
- cJSON number conversion: a number is the text it prints as. `strtod` is modelled by how much of a run of number bytes it takes, not by its value, and comparison of numbers is equality of their text.
- cJSON parsing into items in one pass: the parser yields a value, and its items are built and linked behind it, in the order and with the links of the source. What becomes of the items of a text that is refused half-way is not modelled.
- JsonItems.PrintItems: reads the value off the links and prints that; the source writes while it follows them.
- cJSON raw items, references, constant keys, case-insensitive lookup, deletion, custom allocation hooks and allocation failure.
- Reading behind the end of a JSON buffer that is not terminated, in the literal comparisons: such a comparison fails in the model.
- `cJSON_Minify`: it changes the meaning of some strings that end in an escaped backslash.
- JsonTree.Duplicate: does not model a copy that fails half-way for lack of memory.
- 1-Wire timing, temperature conversion and the scratchpad. Whether a sensor reads is an input of each pass.
- OneWireRuns.PrintsPrefix: is about trusted runs. A disturbed pass that delivers a code with a matching checksum is taken for a device by the source too (OneWireRuns.DisturbedPassPrinted).
- herald sockets, probing and announcement timing, and the printing of results; the network address is its four octets and the text the client keeps for it.
- HeraldDecoding.DecodeDenotes: is about chains of at most 127 labels and pointers; HeraldWalk.DecodeExact is about all, and HeraldWalk.DecodeRight about octets that need not denote a name.
- HeraldTargets.PacketIndependent: the other half, that an unsettled target changes the table, is stated for one record and for packets of one record; a later record can cover it up again.
- Matter packet contents: the TLV writer's control octet mixes tag and type bits, so what it writes has no unique reading. Dispatching a message is recording it.
- Matter shutdown, receive timeouts and interrupted calls: any of them ends a connection's loop, as the end of the given input does.
