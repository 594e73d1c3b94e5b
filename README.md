# nRF24 file transfer — a verified model

The program moves one file between two Raspberry Pi boards over an nRF24L01
radio link. A switch picks the role at start-up. In sending mode, a button
press triggers one transfer. Every transfer is framed in 32-byte packets:

- a HEADER carrying the file size;
- DATA packets, each carrying up to 27 file bytes, zero-padded, numbered from
  0;
- a FIN carrying the number of DATA packets sent.

The receiver waits for a HEADER and opens the output file. It then appends
every DATA payload in full and returns on FIN.

The model has five modules:

- `PacketCodec` (`packet.dfy`): the packed packet struct as a 32-byte frame,
  with its encode/decode round trips. The 32-bit field is stored little-endian,
  the host order of the boards.
- `Sender` (`sender.dfy`): `enviar_archivo`. The pure specification `Plan` /
  `Transmit` / `SendOutcome` gives the packets it attempts and the result it
  returns. The method `SendFile` keeps the source's loop and is proved equal to
  that specification. Lemmas cover the empty-file, HEADER, success-path and
  abort rules.
- `Receiver` (`receiver.dfy`): `recibir_archivo`. A pure step function `Next`
  and its iteration `Run` give the specification. The class `Receiver` holds
  the loop's locals as fields, and its `Step` method is proved equal to
  `Next`. `ReceiveFile` runs the polling loop over a finite sequence of
  received frames.
- `Transfer` (`transfer.dfy`): a successful sender's frames fed to a fresh
  receiver, end to end. It also holds the truncation the FIN handling intends
  (see Findings).
- `Control` (`control.dfy`): the mode switch (`leer_modo`, `esEnvio`), the
  button (`boton_presionado`), and the role and pipe addressing that
  `init_radio` sets up, as a `Radio` class over its globals.

The model has no real hardware. The radio's write results are an oracle: a
sequence of booleans in which write number i (the HEADER is write 0) succeeds
exactly when the sequence holds `true` at position i. A missing entry counts
as a failed write. The input file is `SourceFile`: either unopenable, or a
size as `tellg` reports it together with the bytes that successive reads
return. The two can disagree, and a read that yields no byte then ends the
DATA phase early. Whether the receiver's output file opens is a boolean
parameter.

The sender's behaviour after a zero-byte read is modelled as
`src/main.c:205-207` and `src/main.c:228-236` have it. The loop breaks, and the
FIN is still sent, carrying the number of DATA packets sent so far. The comment
at `src/main.c:206` shows that the author expected such a read only at the end
of the file; the model also covers a file that yields fewer bytes than its
reported size.

## Model

| member | source | states |
|---|---|---|
| PacketCodec.Encode | src/main.c:42-48 | the frame's byte 0 is the type, bytes 1-4 encode the 32-bit sequence field, bytes 5-31 are the 27-byte payload |
| PacketCodec.Decode | src/main.c:42-48 | reads the type from byte 0, the payload from bytes 5-31 and the sequence field from the bytes 1-4 it re-encodes to |
| PacketCodec.U32ToBytes | src/main.c:45 | the four bytes of the sequence field in memory order: the least significant byte first, each byte the value's next base-256 digit |
| PacketCodec.U32FromBytes | src/main.c:45 | the value of four little-endian bytes, b0 + 2^8 b1 + 2^16 b2 + 2^24 b3 |
| PacketCodec.U32RoundTrip | src/main.c:45 | decoding the four bytes of a uint32 gives the value back |
| PacketCodec.U32BytesRoundTrip | src/main.c:45 | any four bytes are the encoding of the uint32 they decode to |
| PacketCodec.DecodeEncode | src/main.c:42-48 | decoding an encoded packet gives the same type, sequence field and payload |
| PacketCodec.EncodeDecode | src/main.c:42-48 | every 32-byte frame is the encoding of the packet it decodes to |
| PacketCodec.EncodeAll | src/main.c:185 | one frame per packet, in order |
| PacketCodec.DecodeAll | src/main.c:271 | one packet per received frame, in order |
| PacketCodec.DecodeAllEncodeAll | src/main.c:42-48 | a packet sequence survives the link unchanged |
| Sender.ReadChunk | src/main.c:203-204 | a read takes min(27, remaining) bytes, the next ones of the file, and is empty exactly at end of file |
| Sender.Padded | src/main.c:198-203 | the payload the memset and the read leave: a full 27-byte read is sent unchanged; `Sender.PacketPayloads` states that any read is followed by zeros up to 27 bytes |
| Sender.HeaderPacket | src/main.c:178-181 | the HEADER has type 1 and carries the size in its sequence field |
| Sender.DataPacket | src/main.c:198-203 | DATA number i has type 2 and sequence field i |
| Sender.FinPacket | src/main.c:228-230 | the FIN has type 3 and carries the DATA count in its sequence field |
| Sender.PacketPayloads | src/main.c:178-230 | the payloads the memset and the read leave: the HEADER's and the FIN's are all zeros; a DATA packet's holds the bytes read, followed by zeros |
| Sender.DataPackets | src/main.c:196-223 | the loop's DATA packets are all of type DATA, numbered on from the current count, none beyond the declared size |
| Sender.Plan | src/main.c:177-236 | the packets attempted when every write succeeds: a HEADER with the size first, a FIN with the DATA count last, and between them DATA packets numbered 0, 1, ... |
| Sender.Transmit | src/main.c:185-236 | hands the packets over in order and stops after the first failed write, so never more than the plan; `Sender.TransmitStops` states the prefix, first-failure and all-succeed facts |
| Sender.TransmitStops | src/main.c:185-236 | the packets handed over are a prefix of the plan; the result is true exactly when every write succeeds; on failure the failed packet is the last one handed over, with every write before it successful |
| Sender.TransmitAppend | src/main.c:196-236 | after successful writes of a first part, transmission carries on with the rest |
| Sender.SendOutcome | src/main.c:157-243 | an unopenable or empty file gives false with nothing sent; otherwise the packets sent are a non-empty prefix of the plan, and the result is true exactly when the whole plan went out with every write successful |
| Sender.SendFile | src/main.c:157-243 | the packets handed to radio.write, in order, and the result returned are those of the specification `SendOutcome` |
| Sender.SendFrom | src/main.c:196-236 | the DATA loop and the FIN from a given stream position and count: every pass writes at least one more packet; `Sender.SendFromTransmits` proves it equal to transmitting the rest of the plan |
| Sender.PlanFromIsDataThenFin | src/main.c:196-236 | from any point of the DATA loop, the rest of the plan is the remaining DATA packets followed by a FIN carrying the final count, which never exceeds the declared size |
| Sender.SendFromTransmits | src/main.c:196-236 | from any point of the DATA loop, the loop writes the rest of the plan up to and including the first failed write, and returns true exactly when all of those writes succeed |
| Sender.HeaderThenRest | src/main.c:177-194 | after a successful HEADER write, the transfer carries on with the DATA packets and the FIN on the remaining outcomes |
| Sender.NothingSentForEmptyFile | src/main.c:159-173 | an unopenable file, or one of size 0 or less, returns false with nothing sent |
| Sender.HeaderFirst | src/main.c:177-189 | the first packet is a HEADER carrying the size; if its write fails, the result is false and nothing else is sent |
| Sender.DataPacketsLayout | src/main.c:196-223 | from block j on, there is one DATA packet per remaining 27-byte block of the first min(size, readable) bytes; packet i carries block i and sequence number i |
| Sender.SuccessfulSend | src/main.c:177-243 | when every write succeeds the result is true and the packets are the HEADER(size), then ceil(min(size, readable)/27) DATA packets holding the consecutive blocks, then a FIN carrying that count; no empty DATA packet is sent when the size is a multiple of 27, and a short read still ends in a FIN |
| Sender.AbortOnFailedWrite | src/main.c:185-236 | a failed HEADER, DATA or FIN write makes the result false; the packets sent are a prefix of the plan ending with the first failed write, every earlier write successful, and no packet follows it |
| Receiver.Run | src/main.c:264-331 | the loop reads at most all packets, at least one when it ends with a result, and every packet when it ends waiting; `Receiver.RunStopsAtFirstDone` states that it stops at the first result |
| Receiver.RunStopsAtFirstDone | src/main.c:264-331 | a run that ends with a result stops at the first packet giving one: every packet read before it leaves the receiver waiting, and that packet's step gives the final state and result |
| Receiver.Next | src/main.c:273-329 | one packet: the call fails exactly on a HEADER whose output does not open, succeeds exactly on a FIN inside a session; the output is kept, emptied, or extended by the payload; apart from a HEADER, only a DATA packet changes the state, and then by appending its payload |
| Receiver.ExpectedBlocks | src/main.c:280 | the uint32 count (size + 26) / 27 never exceeds the true block count |
| Receiver.Inc32 | src/main.c:299 | the uint32 increment: one more, except that 2^32 - 1 wraps to 0 |
| Receiver.Payloads | src/main.c:298 | every DATA packet writes exactly 27 bytes |
| Receiver.Receiver.constructor | src/main.c:255-258 | the receiver starts outside a session with zero counters and an empty output |
| Receiver.Receiver.Step | src/main.c:273-329 | one loop iteration changes the fields and answers exactly as the step function `Next` |
| Receiver.ReceiveFile | src/main.c:247-333 | the outcome, the frames read and the final state are those of `Run` from the fresh state |
| Receiver.ExpectedBlocksIsBlockCount | src/main.c:280 | the uint32 block count (size + 26) / 27 equals ceil(size/27) while size <= 2^32 - 27 |
| Receiver.ExpectedBlocksExact | src/main.c:280 | the uint32 count equals ceil(size/27) exactly when size <= 2^32 - 27; for larger sizes it is 0 |
| Receiver.ExpectedBlocksWraps | src/main.c:280 | for size 2^32 - 1 the uint32 addition wraps and the count is 0, not 159072863 |
| Receiver.IgnoredOutsideSession | src/main.c:295-329 | outside a session, DATA, FIN and unknown types leave the whole state unchanged and the receiver keeps waiting |
| Receiver.HeaderStartsSession | src/main.c:273-294 | a HEADER in any state sets the expected size and block count; if the output opens it starts a session with zero blocks and an empty output, otherwise the call returns false |
| Receiver.InSession | src/main.c:295-325 | in a session, DATA appends its whole payload and counts one block, whatever its sequence field; FIN returns true |
| Receiver.StrayPacketsIgnored | src/main.c:326-329 | any run of non-HEADER packets outside a session is consumed and changes nothing |
| Receiver.DataRun | src/main.c:295-305 | a run of DATA packets in a session appends all their payloads in order and counts them |
| Transfer.TruncateTo | src/main.c:308-318 | cutting the output to n bytes keeps its first min(n, length) bytes |
| Transfer.ReceivedFile | src/main.c:308-318 | the truncated output is a prefix of what was written, no longer than the declared size |
| Transfer.PrefixOfTruncation | src/main.c:308-318 | truncating to n keeps every prefix of at most n bytes |
| Transfer.SinkLayout | src/main.c:198-203 | the payloads from block j on hold the file's bytes from 27j up to min(size, readable), then zeros when the file ran short |
| Transfer.SinkContents | src/main.c:298 | the DATA phase writes 27 * ceil(min(size, readable)/27) bytes, starting with the file's first min(size, readable) bytes |
| Transfer.RunPlan | src/main.c:273-325 | a fresh receiver fed the sender's plan reads exactly the plan, returns true, counts every DATA packet and writes every payload |
| Transfer.TransferRoundTrip | src/main.c:157-333 | a successful transfer received by a fresh receiver ends in true after every frame. The output has 27 bytes per block and starts with the file. The block counter equals the FIN's sequence field. The truncated output starts with the file, and equals the file's first size bytes when the file is that long |
| Transfer.OutputKeepsPadding | src/main.c:308-318 | as written, the output of a whole-file transfer is the file followed by (27 - size mod 27) mod 27 zero bytes, so it equals the file only when the size is a multiple of 27 |
| Transfer.TwentyEightBytes | src/main.c:308-318 | a 28-byte file travels as HEADER, two DATA packets and FIN(2); it leaves a 54-byte output whose truncation is the file |
| Control.ReadMode | src/main.c:84-88 | the mode is always 0 or 1 |
| Control.ButtonPressed | src/main.c:76-79 | the button counts as pressed exactly when its pin reads 0 |
| Control.IsSenderMode | src/main.c:409-410 | the sending role is exactly the mode a grounded switch reads |
| Control.SwitchSelectsRole | src/main.c:84-88 | with esEnvio, the sending role is selected exactly when the switch reads 0; a GPIO read error selects receiving |
| Control.ButtonLevels | src/main.c:77-78 | the pull-up reading: a button held to ground counts as pressed; a released button (reads 1) or a failed read (negative code) does not |
| Control.RoleSetup | src/main.c:128-150 | node indices 0/1 by role; the writing pipe is the other node's address, reading pipe 1 is the board's own address; listening only when receiving |
| Control.PeersAddressEachOther | src/main.c:128-150 | the sender writes to "2Node", the receiver's reading address, and the receiver writes to "1Node", the sender's; no board reads where it writes |
| Control.Radio.constructor | src/main.c:33-34 | the globals start as node 0 facing node 1 |
| Control.Radio.InitRadio | src/main.c:115-152 | if the driver fails to start, the result is false and nothing changes; otherwise the result is true and the role's configuration is applied |
| Control.StartupRole | src/main.c:409-412 | a low switch brings the board up as node 0, writing to "2Node", not listening; any other level gives node 1, writing to "1Node", listening |

## Left out

- The RF24 driver. Channel 76, 250 kbps, PA level and retries are not modelled. Write results are the `outcomes` oracle, and received frames are a finite input sequence; `available` and busy-polling are not modelled.
- pigpio initialisation, every LED operation (the `seq % 4` toggles, the blink patterns) and `sleep_ms`, which are presentation and timing only.
- The endless loops of `modo_envio`, `modo_recepcion` and `main`, and the button debounce wait. One call of `enviar_archivo` or `recibir_archivo` is modelled; the receiver's endless poll becomes a finite frame sequence, ending in `Continue` when it runs out.
- Console logging.
- `std::ifstream`/`std::ofstream` mechanics: the input file is a size plus the bytes successive reads return; the output is a byte sequence. Whether the output opens is one boolean for the whole call.
- Receiver.Receiver.Step: a HEADER in the middle of a session is modelled as opening the output afresh (empty). Calling `open` on an already-open `ofstream` fails in C++ and leaves the old stream in a failed state; that is not modelled.
- Sender.SendFile: requires the size to be below 2^32. The `static_cast<uint32_t>` of the size at src/main.c:181 wraps for larger files, which are not modelled.
- Transfer.TransferRoundTrip: requires the size to be at most 2^32 - 27. This is where the receiver's uint32 block count at src/main.c:280 is exact (`Receiver.ExpectedBlocksExact` shows it is exact there and only there).
- The output written by `fout.write` is modelled as always succeeding; write errors on the output stream are not modelled.

## Findings

| source | as written | input that shows it | evidently intended | confidence | as-written member | corrected member |
|---|---|---|---|---|---|---|
| src/main.c:308-318 | on FIN the output is reopened, `seekp(tamEsperado)` is called, and the file is closed; this does not shrink the file, so the zero padding of the last block stays | a 28-byte file gives a 54-byte output (26 trailing zeros) | the output truncated to the declared size `tamEsperado` | high, not executed | Transfer.OutputKeepsPadding | Transfer.ReceivedFile |
