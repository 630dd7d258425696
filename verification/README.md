# PhoneKey: a verified model

PhoneKey lets a phone unlock a PC by answering a signed challenge. This project models its protocol stack, from the
bytes on the socket to the outcome of an unlock, on both sides: the agent on the PC (C++) and the app on the phone
(Kotlin). `dafny verify dfyconfig.toml` checks everything.

## The stack

**The channel.** `Crc32`, `FrameProtocol`, `StreamReceiver`, `TcpTransport`, `Channel`, `FrameDamage` and `BurstWindows`
are the agent's transport. A frame is `magic | length | type | flags | sequence | payload | CRC-32`. The receive loop
takes whatever `recv` returns, drops a byte where it finds no magic, skips a frame that does not check out, and closes
the connection on an oversized length. The methods are proved against `Drain`, which says what the loop makes of a whole
stream; what the channel is for is proved about `Drain`: chunking does not matter, the channel is a FIFO, damage is
contained, noise is got over exactly when it does not contain the magic, and every stream has one cut into spans that
accounts for every byte. The checksum is proved to be the remainder of section 3.2.9 of IEEE 802.3, over an elementary
theory of polynomials over GF(2) (`Gf2`), and error detection follows from the linearity and injectivity of the shift
register. Because the checksum is sent most significant byte first although the register is reflected, damage to four
consecutive bytes is noticed everywhere but in one window, half covered bytes and half checksum; there, one pattern
turns every frame into another one that is accepted.

**The phone's channel.** `JavaNio`, `PhoneFrames` and `PhoneReceiver` are the second implementation. Taking unknown
types for error messages, it agrees with the first on exactly the streams that the agent takes without losing step. Off
them the two differ: oversized frames are sent, after a corrupted header nothing is delivered any more, and on a header
with the length field 0xFFFFFFEE the inner loop complains for ever. `SpinsExactly` says on which buffers that happens,
`NeverSpinsExactly` on which streams.

**The messages.** `Protocol` and `PhoneProtocol` are the two codecs of the 108 canonical bytes that are signed.
`DerSignature` is the conversion of DER signatures (sections 8.3 and 8.9 of X.690) to their raw form, and the dispatch
that takes any 64 bytes for the raw form. `Hkdf` has both implementations of HKDF, proved against section 2.3 of RFC
5869.

**The unlock.** `HexKeys`, `Challenges`, `ChallengeStore` and `DeviceRegistry` are the agent's two maps, proved against
maps keyed by the id, with the accounting of every run. `UnlockProtocol` is the agent as a transition system: any number
of responses in flight, each in four separately locked steps, interleaved in any order with new challenges, expiry and
registry changes. Safety holds of every interleaving; and a response that deserves to succeed does so with its fourth
step unless another step has changed its record or the key found for its device by then. The code does not lock the
registry between looking a key handle up and verifying under it. The model therefore lets a removed device's handle come
back with the next key, and leaves open what verifying under a dead handle does. A success is then certain to be signed
under the key found if and only if the handle still stands for that key when the signature is checked
(`AcceptedIsSigned`); `UnderAnotherKey` and `UnderNoKey` are runs in which it does not. `AgentService` and
`UnlockController` are the two ends in their sequential form, and `EndToEnd` puts everything together.

## Main results

- The checksum is the CRC-32 of IEEE 802.3, and which four-byte windows of a frame it protects: `Crc32.CrcIsIeee8023`,
  `BurstWindows.FourByteWindows`, `BurstWindows.WindowContained`.
- The framing codec and the receive loop: `FrameProtocol.ParseAccepts`, `StreamReceiver.ChunkIndependence`,
  `StreamReceiver.Conservation` with `StreamReceiver.PartitionDetermines`, `TcpTransport.Transport.ReceiverWorker`.
- The channel as a whole: `Channel.FifoSoFar`, `Channel.Exchange`, `Channel.DamageContained`,
  `Channel.Resynchronisation`.
- The phone against the agent: `PhoneFrames.Agreement`, `PhoneReceiver.ReceiversAgree`,
  `PhoneReceiver.NeverSpinsExactly`, `PhoneProtocol.EncodersAgree`, `PhoneProtocol.ValidatorsAgree`.
- Signatures and keys: `DerSignature.ConvertDerToRawRSignature`, `DerSignature.DispatchIsRight`, `Hkdf.ExpandIsHkdf`.
- The stores: `Challenges.Accounting`, `DeviceRegistry.HandlesConserved`.
- The two ends: `AgentService.VerifySignature`, `AgentService.AgentService.ProcessUnlockResponse`,
  `AgentService.AgentService.OnFrameReceived`, `UnlockController.EachReply`, `EndToEnd.UnlockOverTheWire`,
  `EndToEnd.ReadTooLate`.
- The unlock in every interleaving: `UnlockProtocol.AtMostOneSuccessPerIssue`, `UnlockProtocol.OneWinner`,
  `UnlockProtocol.SuccessMeansWhatItSays` with `UnlockProtocol.AcceptedIsSigned`,
  `UnlockProtocol.SucceedsOnceMovedFourTimes`, `EndToEnd.CompletenessAmongOthers`, `EndToEnd.SuccessIsSigned`.

## Conventions

- Machine words are naturals or integers with their bounds in the type. `crc ^ x`, `>> 1`, `& 1` and `~crc` are
  `Xor32`, `/ 2`, `% 2` and `ALL_ONES - crc`; the counter of `SendFrame`, the octet counter of HKDF and the sum that
  sets the expiry wrap where the code's types do. Kotlin's signed integers are their two's complement.
- `recv` and `send` choose freely how many bytes they move; a failing `send` and the end of the stream are among the
  choices. Reading ends with the bytes that the socket has.
- Random bytes, the clock, what the transport answers and the handle that a key import gets are parameters or free
  choices. HMAC is a function, and so is the verification of a raw signature over a message, hashing included. The
  parameter `stray` is the outcome of verifying under a handle that is not live.
- Where the phone's inner loop goes on for ever, the model's method stops and sets `spins`.
- Loops and repeated groups of assignments of larger methods are methods of their own: `ProcessBuffer`, `WriteAll`,
  `ReadLoop`, `ProcessBytes`, `CheckHeader`, `Deliver`, `StripZeros`, `Strip`, `AlignIntegers`, `Align`, `SetState`,
  `ExpireEntry`, `DestroyPrevious`, `DestroyEntry`, `DestroyHandle`, `Insert`, `PutTimestamp`, `PutTimestamps`,
  `GetTimestamp`, `GetShort`, `PutWord`, `GetWord`, `Copy`, `PutHeader`, `GetHeader`, `GetFields`, `GetBody`,
  `PutPreamble`.
- `SendNext`, `SendAll` and `Exchange` are not in the repository. They call the methods of a sender and a receiver in a
  row, so that what is proved about whole streams is also proved of the methods together.
- A loop over a hash map takes its entries in any order.
- The second length byte of a DER signature is read without a check of its index (windows/common/CryptoEngine.cpp:71).
  The model reads an arbitrary byte there, the parameter `beyond`, and the result is proved not to depend on it.

## Where the code and its documents differ

- The framing document has a bad magic drop the connection at once; the code discards one byte and goes on.
- The message document has the domain null-padded and lists two nulls at its end; its 16 characters fill the field.
- The repository's front page has the phone compare the PC id; it signs the one it was sent and compares nothing. What
  binds an unlock to this PC is the agent's own id in the query, not the payload's.
- The payload's expiration is never compared by the agent; the stored record's is.

## Model
| member | source | states |
|---|---|---|
| Crc32.CalculateCrc32 | windows/common/FrameProtocol.cpp:9-23 | the nested loops and the early return compute the checksum function on every input |
| Crc32.CrcIsIeee8023 | windows/common/FrameProtocol.cpp:8-23 | the complement of the checksum is the one and only remainder of the message polynomial, its first 32 bits complemented, modulo the generator of IEEE 802.3 |
| Crc32.RegisterLinear | windows/common/FrameProtocol.cpp:11-21 | the register is linear in its start value and the message together |
| Crc32.BurstChangesCrc | windows/common/FrameProtocol.cpp:9-23 | two messages that differ only within 32 consecutive bits, low bit first, have different checksums |
| FrameProtocol.SerializeFrame | windows/common/FrameProtocol.cpp:25-81 | the buffer filled at a moving offset is the printed frame; with more than 65536 bytes of payload it is empty |
| FrameProtocol.PrintedBytes | windows/common/FrameProtocol.cpp:40-78 | the bytes of a frame, field by field, with the numbers of the magic and of the five types |
| FrameProtocol.DeserializeFrame | windows/common/FrameProtocol.cpp:83-171 | the parser's checks happen in their order, with their errors, and the fields are those of the buffer |
| FrameProtocol.WhenRefused | windows/common/FrameProtocol.cpp:83-155 | each error exactly when no earlier one applies: under 18 bytes, another magic, a length over 65536, missing bytes, another checksum, a type byte that is none of the five |
| FrameProtocol.ParsePrint | windows/common/FrameProtocol.cpp:25-171 | every frame with at most 65536 bytes of payload comes back from its bytes, whatever follows them, with its type, flags, number and payload and the computed fields |
| FrameProtocol.PrintParse | windows/common/FrameProtocol.cpp:25-171 | a buffer that parses begins with the print of what it parses to |
| FrameProtocol.ParseAccepts | windows/common/FrameProtocol.cpp:83-171 | the parser accepts exactly the buffers that begin with a printed frame, and returns that frame |
| StreamReceiver.DrainAppend | windows/common/TcpTransport.cpp:133-182 | draining a concatenation is draining its first part and then the residual with the rest, unless the connection closed |
| StreamReceiver.ChunkIndependence | windows/common/TcpTransport.cpp:123-183 | two chunkings of any stream give the same callbacks, the same fate of the connection and the same residual |
| StreamReceiver.ResidualBounded | windows/common/TcpTransport.cpp:135-182 | while connected less than 65554 bytes are kept between reads |
| StreamReceiver.Conservation | windows/common/TcpTransport.cpp:133-182 | every stream is cut in order into discarded bytes, rejected spans, printed delivered frames and the residual |
| StreamReceiver.PartitionDetermines | windows/common/TcpTransport.cpp:133-182 | any such cut whose residual waits or is oversized determines the callbacks, the residual and the fate of the connection |
| TcpTransport.Socket.Recv | windows/common/TcpTransport.cpp:124 | a read takes some leading bytes of what is to come, at most 4096 |
| TcpTransport.Socket.Send | windows/common/TcpTransport.cpp:203 | a write takes some leading bytes of what it is given, or fails |
| TcpTransport.Transport.ProcessBuffer | windows/common/TcpTransport.cpp:136-182 | the inner loop terminates and does what Drain says to the listener, the buffer and the connection flag |
| TcpTransport.Transport.ReceiverWorker | windows/common/TcpTransport.cpp:119-184 | whatever sizes recv chooses, the callbacks are those of Drain on the bytes received, followed by one of disconnection unless the loop closed, and the buffer never reaches 65554 + 4096 bytes |
| TcpTransport.Transport.SendFrame | windows/common/TcpTransport.cpp:186-212 | refusals, for more than 65536 bytes, change nothing on the wire but use up a number once connected; otherwise a prefix of the printed frame is written, and all of it exactly when the call succeeds and stays connected; then the bytes added parse to a frame with the type and payload of the call, no flags and the old counter |
| TcpTransport.Transport.WriteAll | windows/common/TcpTransport.cpp:199-211 | partial writes add up to a prefix of the data, all of it exactly on success |
| Channel.SequenceIncreases | windows/common/TcpTransport.cpp:189-194 | until the counter wraps, the sequence numbers on the wire strictly increase |
| Channel.FifoSoFar | windows/common/TcpTransport.cpp:119-184 | at every moment and for every chunking exactly the frames whose bytes have all arrived are delivered, in order, without an error, and a proper part of the next frame is kept |
| Channel.Fifo | windows/common/TcpTransport.cpp:119-212 | for any calls of SendFrame and any chunking the receiver is told of exactly the calls with at most 65536 bytes, in order, each with its type, its payload, no flags and its own number modulo 2^32, with no error and an empty residual |
| Channel.SendAll | windows/common/TcpTransport.cpp:186-212 | a run of SendFrame calls leaves the bytes of the accepted frames on the wire, or a prefix of them if the connection is lost |
| Channel.Exchange | windows/common/TcpTransport.cpp:119-212 | sender and receiver methods together: the receiver is told of the first so many of the calls that fit, each with its type, its payload and its number, and of all of them if nothing was lost; then it is disconnected |
| Channel.DamageContained | windows/common/TcpTransport.cpp:169-181 | however many frames of a run are damaged, as long as their magic and length are intact, every whole one is delivered in its place and every one that no longer parses costs one error, for every chunking |
| Channel.NoStraddle | windows/common/TcpTransport.cpp:138-149 | no match of the magic straddles the end of noise that contains none |
| Channel.Resynchronisation | windows/common/TcpTransport.cpp:136-149 | for every chunking, noise before frames causes exactly one discard per byte and then delivery of all frames, if and only if the magic does not occur in the noise |
| FrameDamage.BurstRejected | windows/common/FrameProtocol.cpp:129-140 | a change within 32 consecutive bits of the covered bytes is rejected with a checksum mismatch |
| FrameDamage.FourBytesRejected | windows/common/FrameProtocol.cpp:129-140 | so is any change of four consecutive bytes between the length and the checksum |
| FrameDamage.FieldDamageRejected | windows/common/FrameProtocol.cpp:129-140 | any change to the checksum field alone is rejected |
| FrameDamage.CrcOfXor | windows/common/FrameProtocol.cpp:9-23 | adding a pattern to a message adds to its checksum the register of the pattern started from zero |
| FrameDamage.PatternDecides | windows/common/FrameProtocol.cpp:129-140 | whether damage is noticed depends on the pattern alone: a frame is rejected if and only if the pattern's own register differs from its checksum field, whichever frame it hits |
| BurstWindows.FourByteWindows | windows/common/FrameProtocol.cpp:71-78 | from the length field to the end of the frame, every change within four consecutive bytes is rejected if and only if they do not begin two bytes before the checksum |
| BurstWindows.EvenStraddleAccepted | windows/common/FrameProtocol.cpp:71-78 | in that window one pattern turns every frame into one that the parser accepts |
| BurstWindows.OddStraddleRejected | windows/common/FrameProtocol.cpp:71-78 | one or three covered bytes together with the high bytes of the checksum are safe |
| BurstWindows.WindowContained | windows/common/TcpTransport.cpp:133-182 | on a stream, any number of frames may be damaged, each in a safe window; each of them costs exactly one checksum error and the others arrive in their places, for every chunking |
| PhoneFrames.FromCode | android/app/src/main/java/com/phonekey/transport/ITransport.kt:11-13 | every known code gives its type and every other one ERROR_MSG |
| PhoneFrames.SerializeFrame | android/app/src/main/java/com/phonekey/transport/FrameProtocol.kt:18-50 | the puts on a moving position produce the phone's printed frame |
| PhoneFrames.DeserializeFrame | android/app/src/main/java/com/phonekey/transport/FrameProtocol.kt:52-90 | the gets on a moving position are the phone's parser, with signed comparisons |
| PhoneFrames.Agreement | android/app/src/main/java/com/phonekey/transport/FrameProtocol.kt:52-90 | on every buffer the agent accepts exactly when the phone accepts and the type byte is known, with equal fields; the agent reports an unknown type exactly when the phone takes it for ERROR_MSG |
| PhoneFrames.SamePrint | android/app/src/main/java/com/phonekey/transport/FrameProtocol.kt:18-50 | both sides print the same bytes for the same frame |
| PhoneFrames.OversizedPrint | android/app/src/main/java/com/phonekey/transport/FrameProtocol.kt:18-50 | the phone prints frames with more than 65536 bytes of payload; neither parser accepts one, and the agent closes the connection on it |
| PhoneFrames.PhoneRoundTrip | android/app/src/main/java/com/phonekey/transport/FrameProtocol.kt:18-90 | the phone reads back what it prints exactly when the payload has at most 65536 bytes |
| PhoneReceiver.TransportClient.ProcessBytes | android/app/src/main/java/com/phonekey/transport/TcpTransportClient.kt:61-92 | on every buffer the inner loop reports and keeps what PhoneDrain says, and tells whether it ends by an exception or not at all |
| PhoneReceiver.TransportClient.ReceiverLoop | android/app/src/main/java/com/phonekey/transport/TcpTransportClient.kt:49-100 | on every stream the loop makes the callbacks of PhoneReceive on the chunks it read and ends disconnected, unless the inner loop spins, which it does exactly if it would on the bytes read in one piece, and never on a stream that does not make it spin in one piece |
| PhoneReceiver.PhoneAgrees | android/app/src/main/java/com/phonekey/transport/TcpTransportClient.kt:62-92 | the phone waits with the same residual and the same events, unknown types excepted, if and only if the agent has taken the stream without a discard or a close |
| PhoneReceiver.ReceiversAgree | android/app/src/main/java/com/phonekey/transport/TcpTransportClient.kt:55-93 | the same for every chunking, if and only if |
| PhoneReceiver.PhoneFifo | android/app/src/main/java/com/phonekey/transport/TcpTransportClient.kt:55-93 | on every chunking of every part of a wire the phone delivers the frames that the agent would, and keeps the same bytes |
| PhoneReceiver.NeverRecovers | android/app/src/main/java/com/phonekey/transport/TcpTransportClient.kt:67-70 | after a corrupted header every further read brings one complaint and no frame |
| PhoneReceiver.SpinsExactly | android/app/src/main/java/com/phonekey/transport/TcpTransportClient.kt:72-91 | on every buffer the inner loop stops at some suffix, and from its first bytes follows why: to wait, for a corrupted header, by an exception on a negative size, or spinning on the length field 0xFFFFFFEE |
| PhoneReceiver.ThrowsAtTheEnd | android/app/src/main/java/com/phonekey/transport/TcpTransportClient.kt:94-99 | an exception is reported once, as the last event before the disconnection, and nothing else is reported as a loop error |
| PhoneReceiver.NeverSpinsExactly | android/app/src/main/java/com/phonekey/transport/TcpTransportClient.kt:55-93 | no way of cutting a stream up, or a part of it, makes the inner loop spin, if and only if it does not spin on the stream in one piece |
| PhoneReceiver.WiresNeverSpin | android/app/src/main/java/com/phonekey/transport/TcpTransportClient.kt:55-93 | on a wire of frames it always makes progress, for every chunking |
| Protocol.Serialize | windows/common/Protocol.cpp:41-82 | the buffer filled at a moving offset is the encoding |
| Protocol.PutTimestamp | windows/common/Protocol.cpp:76-78 | the loop over shifts writes the big-endian timestamp |
| Protocol.Deserialize | windows/common/Protocol.cpp:84-141 | the checks of size, domain, version and algorithm in their order, with their errors, and the fields |
| Protocol.DecodeRefuses | windows/common/Protocol.cpp:84-117 | each error exactly when no earlier one applies, and acceptance, from the bytes: 108 of them, the text PhoneKey-Auth-v1, version 1.0 and algorithm 1 |
| Protocol.DecodedFields | windows/common/Protocol.cpp:119-139 | where the fields of an accepted payload lie |
| Protocol.ErrorNumbers | windows/common/Protocol.h:26-44 | the numbers of the outcomes, one each |
| Protocol.GetTimestamp | windows/common/Protocol.cpp:133-136 | the loop over bytes reads the big-endian timestamp |
| Protocol.DecodeEncode | windows/common/Protocol.cpp:41-141 | decoding an encoding returns the payload, or the error of its first wrong constant |
| Protocol.DecodeAccepts | windows/common/Protocol.cpp:84-141 | the decoder accepts exactly the encodings of payloads of this protocol |
| PhoneProtocol.EncodePayload | android/app/src/main/java/com/phonekey/crypto/ProtocolEncoder.kt:53-88 | the puts on a moving position are the phone's encoding, with the domain cut or filled to 16 bytes; wrong sizes throw |
| PhoneProtocol.EncodedBytes | android/app/src/main/java/com/phonekey/crypto/ProtocolEncoder.kt:53-88 | which sizes throw, and the bytes otherwise: the domain cut, or filled with zeros, to 16, and every field at its place |
| PhoneProtocol.DecodePayload | android/app/src/main/java/com/phonekey/crypto/ProtocolEncoder.kt:90-125 | the gets on a moving position are the phone's decoding; any size but 108 throws |
| PhoneProtocol.EncodersAgree | android/app/src/main/java/com/phonekey/crypto/ProtocolEncoder.kt:53-88 | for every payload of the agent the phone encodes the same 108 bytes |
| PhoneProtocol.EncodeDecode | android/app/src/main/java/com/phonekey/crypto/ProtocolEncoder.kt:53-125 | exactly the 108-byte strings decode, and each is what the phone encodes from its decoding |
| PhoneProtocol.DecodeEncode | android/app/src/main/java/com/phonekey/crypto/ProtocolEncoder.kt:53-125 | a payload comes back unchanged exactly when its domain has 16 bytes, and always with its domain fixed |
| PhoneProtocol.Validate | android/app/src/main/java/com/phonekey/crypto/ProtocolValidator.kt:13-38 | the loop over the domain and the checks after it in their order; a domain that is a proper prefix of the expected one throws |
| PhoneProtocol.WhenValidated | android/app/src/main/java/com/phonekey/crypto/ProtocolValidator.kt:13-38 | each verdict exactly when no earlier one applies, and the exception exactly for a proper prefix of PhoneKey-Auth-v1 |
| PhoneProtocol.ValidatorsAgree | android/app/src/main/java/com/phonekey/crypto/ProtocolValidator.kt:13-38 | on 108 bytes the phone's validator and the agent's decoder give the same verdict, expiry excepted |
| DerSignature.ConvertDerToRawRSignature | windows/common/CryptoEngine.cpp:53-89 | the result is both integers as 32-byte numbers when there are two and each is below 2^256, and failure otherwise, whatever lies behind the buffer |
| DerSignature.Strip | windows/common/CryptoEngine.cpp:77-78 | stripping zeros keeps the value and leaves more than 32 bytes exactly when the value does not fit |
| DerSignature.ValuesKept | windows/common/CryptoEngine.cpp:59-88 | a signature converts if and only if it has 8 to 139 bytes, a sequence tag, and two tagged integers within it that fit into 32 bytes each, whatever its length byte says; each half then has the unsigned value of its integer |
| DerSignature.DerConverts | windows/common/CryptoEngine.cpp:53-89 | the DER form of every pair below 2^256 converts to the pair |
| DerSignature.DispatchIsRight | windows/common/CryptoEngine.cpp:112-120 | a DER signature reaches the verifier as the pair it means exactly when its two integers do not have 58 bytes together, that is when it is not 64 bytes long |
| DerSignature.DispatchCanFail | windows/common/CryptoEngine.cpp:114-115 | there are pairs whose DER form is taken for the raw form of something else |
| Hkdf.Expand | windows/common/HkdfEngine.cpp:56-79 | the append loop returns the first bytes of the block stream, or nothing if a block is missing |
| Hkdf.PhoneExpand | android/app/src/main/java/com/phonekey/pairing/HkdfManager.kt:20-39 | the array-fill loop returns the same, or throws on an empty key |
| Hkdf.ExpandIsHkdf | windows/common/HkdfEngine.cpp:56-79 | for every length up to 255 blocks the result is the OKM of RFC 5869 and nothing else is |
| Hkdf.FirstBlocks | windows/common/HkdfEngine.cpp:61-76 | up to 64 bytes the result is the beginning of T1 = HMAC(prk, info and 1) followed by HMAC(prk, T1 and info and 2) |
| Hkdf.StreamIsRfc | windows/common/HkdfEngine.cpp:61-76 | up to block 255 the wrapping counter is the block's index, so the stream is that of the RFC |
| Hkdf.ShorterIsPrefix | windows/common/HkdfEngine.cpp:63-78 | a shorter output is a prefix of a longer one |
| Hkdf.Extract | windows/common/HkdfEngine.cpp:46-54 | the HMAC of the input under the salt, for which 32 zeros stand if it is empty |
| Hkdf.DeriveKey | windows/common/HkdfEngine.cpp:81-85 | extract then expand, with nothing for a failed extract |
| Hkdf.PhoneDeriveKey | android/app/src/main/java/com/phonekey/pairing/HkdfManager.kt:41-44 | the phone derives the same key as the agent |
| HexKeys.BytesToKey | windows/agent/ChallengeStore.cpp:10-16 | the loop builds the hexadecimal form |
| HexKeys.HexDigits | windows/agent/ChallengeStore.cpp:10-16 | two lower-case digits a byte, the high one first |
| HexKeys.HexInjective | windows/agent/ChallengeStore.cpp:10-16 | different byte strings have different keys |
| HexKeys.RefinesLookup | windows/agent/ChallengeStore.cpp:31-36 | a lookup under the key is a lookup under the id |
| HexKeys.RefinesUpdate | windows/agent/ChallengeStore.cpp:20-21 | storing under the key is storing under the id |
| HexKeys.RefinesRemove | windows/agent/DeviceRegistry.cpp:92-98 | erasing under the key is erasing under the id |
| Challenges.GenerateChallenge | windows/agent/ChallengeGenerator.cpp:9-29 | the record is outstanding, expires 30000 ms after its creation modulo 2^64, and answers its own query |
| Challenges.ConsumeOnce | windows/agent/ChallengeStore.cpp:105-144 | a query succeeds exactly if the outstanding record of its session answers it in time, and after that the same query finds it consumed at any time |
| Challenges.EachVerdict | windows/agent/ChallengeStore.cpp:105-144 | each verdict exactly when no earlier one applies, and what consuming makes of the record with each |
| Challenges.Accounting | windows/agent/ChallengeStore.cpp:18-167 | over every run with distinct session ids, records added are active, consumed or expired; the consumed are the successes reported and the expired those that the operations reported |
| Challenges.Absorbing | windows/agent/ChallengeStore.cpp:18-156 | until its session is added anew a record changes only in its state, and consumed and expired are final |
| Challenges.ExpireCounts | windows/agent/ChallengeStore.cpp:146-156 | expiring moves the overdue records from outstanding to expired and touches no consumed one |
| ChallengeStore.ChallengeStore.AddChallenge | windows/agent/ChallengeStore.cpp:18-22 | adding stores the record under its session, over any earlier one |
| ChallengeStore.ChallengeStore.ValidateChallenge | windows/agent/ChallengeStore.cpp:24-62 | the code is the one that consuming would return, the record is returned on success, and nothing changes |
| ChallengeStore.ChallengeStore.ValidateAndConsumeChallenge | windows/agent/ChallengeStore.cpp:105-144 | the code, and the one state that changes: to consumed on success, to expired when too late |
| ChallengeStore.ChallengeStore.ExpireChallenges | windows/agent/ChallengeStore.cpp:146-156 | in whatever order the loop visits the map, exactly the overdue records expire, and the count is the drop in active ones |
| ChallengeStore.ChallengeStore.GetActiveCount | windows/agent/ChallengeStore.cpp:158-167 | the loop counts the outstanding records |
| DeviceRegistry.Cng.Import | windows/common/PublicKeyImporter.cpp:23-27 | a refused key leaves nothing live; otherwise whatever handle the platform offers, as long as it is not live, stands for the key |
| DeviceRegistry.Cng.Destroy | windows/agent/DeviceRegistry.cpp:38 | only a live handle is ever destroyed |
| DeviceRegistry.DeviceRegistry.RegisterDevice | windows/agent/DeviceRegistry.cpp:28-49 | a failed import changes nothing; otherwise the previous key is destroyed and the entry holds the name and the new key, under whatever handle it got, enabled |
| DeviceRegistry.DeviceRegistry.UnregisterDevice | windows/agent/DeviceRegistry.cpp:90-102 | the entry goes and its key is destroyed, if there is one |
| DeviceRegistry.DeviceRegistry.GetDevicePublicKey | windows/agent/DeviceRegistry.cpp:73-81 | the handle of an enabled device, and NULL otherwise |
| DeviceRegistry.DeviceRegistry.Destruct | windows/agent/DeviceRegistry.cpp:10-18 | in whatever order the loop visits the map, no key is destroyed twice and none is left live |
| DeviceRegistry.HandlesConserved | windows/agent/DeviceRegistry.cpp:28-102 | over every run the live keys are exactly those of the entries, each held by one, and as many as there are devices |
| DeviceRegistry.LookupAfter | windows/agent/DeviceRegistry.cpp:28-102 | after registering, the lookup finds the handle of the imported key; after unregistering, none |
| UnlockProtocol.AtMostOneSuccessPerIssue | windows/agent/AgentService.cpp:71-114 | in every interleaving the successes of a session, and one more while it is outstanding, never exceed the times it was issued |
| UnlockProtocol.OneWinner | windows/agent/AgentService.cpp:93-113 | in every interleaving, once a response has succeeded every other one for its session finds the challenge consumed, when it comes to be validated or to consume it, unless the session is issued anew |
| UnlockProtocol.Explained | windows/agent/AgentService.cpp:71-114 | every response in flight has a past in the run that explains the stage it has reached |
| UnlockProtocol.SuccessMeansWhatItSays | windows/agent/AgentService.cpp:77-113 | in every interleaving a success was received and decoded, looked up a registered and enabled device, had its signature over exactly the first 108 bytes accepted under the handle found (a verification if the handle was live, an arbitrary outcome if it was dead), and consumed the outstanding record that was issued with the session, device and challenge at their places in the payload and with the id of this agent, at most 30 seconds after its creation by the time it had read; the signature is one under the key of the lookup if the handle still stood for that key when it was checked |
| UnlockProtocol.AcceptedIsSigned | windows/agent/AgentService.cpp:99-109 | that condition is exact: in any run, acceptance under the handle found means a signature under the key found, for all verifiers and all outcomes of a dead handle, if and only if the handle still stands for that key |
| UnlockProtocol.UntouchedIsEnough | windows/agent/DeviceRegistry.cpp:28-102 | it does if no successful registration or removal of the device lies between lookup and verification |
| UnlockProtocol.UnderAnotherKey | windows/agent/AgentService.cpp:99-106 | if the device is removed in between and its handle goes to another device's key, a response succeeds with a signature under that other key |
| UnlockProtocol.UnderNoKey | windows/agent/AgentService.cpp:99-106 | if the device is removed in between and verifying under its dead handle happens to accept, a response succeeds, whether or not its signature verifies under any key |
| UnlockProtocol.IssuedAt | windows/agent/ChallengeStore.cpp:18-22 | every stored record is one that was issued, and unchanged while outstanding |
| UnlockProtocol.KeyKept | windows/agent/DeviceRegistry.cpp:28-102 | in every interleaving, as long as no successful registration or removal of a device happens, its entry stays, its key is live and its handle stands for that key |
| UnlockProtocol.Sequential | windows/agent/AgentService.cpp:71-114 | a response received and then taken through its four steps in a row has the outcome and the effect of the uninterrupted call |
| UnlockProtocol.EachOutcome | windows/agent/AgentService.cpp:71-114 | each outcome of the uninterrupted call, from the bytes of the payload and the id of the agent: too short, not decoded, the verdict of the store, unknown device, invalid signature, success |
| UnlockProtocol.SucceedsOnceMovedFourTimes | windows/agent/AgentService.cpp:71-114 | in every interleaving, a response that comes in time, for a waiting record and a registered device, with a signature that verifies, has succeeded if and only if it has taken its four steps, unless by then another step changed its record or the key found for its device |
| UnlockProtocol.WhatInterferes | windows/agent/AgentService.cpp:71-114 | such a step is one that issues the same session anew, expires the record, changes the device, or takes another response for the session through its last step |
| AgentService.BuildRequest | windows/agent/AgentService.cpp:43-51 | the 80 bytes of the request, both timestamps written by one loop |
| AgentService.VerifySignature | windows/common/CryptoEngine.cpp:91-125 | under a live key and for a message ECDSA alone decides, asked about 64 bytes as they are, about anything else in its converted form, about a DER pair not 64 bytes long as the pair; what does not convert fails; under a dead handle the outcome is otherwise arbitrary |
| AgentService.AsksEcdsa | windows/common/CryptoEngine.cpp:112-124 | the same of the predicate that the theorems on runs are applied to |
| AgentService.AgentService.InitiateUnlockRequest | windows/agent/AgentService.cpp:38-58 | the generated record is stored; its request is sent whole if the connection lasts, and then read by the phone as one frame with its 80 bytes; in part if the connection is lost, and not at all without one |
| AgentService.AgentService.ProcessUnlockResponse | windows/agent/AgentService.cpp:71-114 | the code and the store are those of the uninterrupted outcome; every error leaves the store alone, and a success means that ECDSA accepted the first 108 bytes under the key of the device they name |
| AgentService.AgentService.OnFrameReceived | windows/agent/AgentService.cpp:60-69 | an unlock response is processed and answered, whole, in part or not at all as the connection allows; if it lasts, the phone reads exactly one frame for every chunking, an unlock response for success and an error message otherwise, with the two bytes of the number of the outcome; other frames change nothing |
| UnlockController.UnlockController.HandleUnlockRequest | android/app/src/main/java/com/phonekey/engine/UnlockController.kt:52-128 | with the checks in their order, one response is handed to the transport, or one failure reported, or the exception of the encoder gets out; a response is handed over if and only if the request has 80 bytes and has not expired, there is a key, the device id has 16 bytes, and the signer signs; one that the transport does not send is reported as a failure |
| UnlockController.EachReply | android/app/src/main/java/com/phonekey/engine/UnlockController.kt:52-128 | each reply exactly when no earlier one applies, and the bytes of a response: domain, version, algorithm, the own id, and session, PC, challenge and expiry of the request, followed by their signature |
| EndToEnd.PhoneAnswers | android/app/src/main/java/com/phonekey/engine/UnlockController.kt:52-109 | the agent's request, read in time, is answered with the canonical bytes of its record and their signature |
| EndToEnd.SignatureDecides | windows/agent/AgentService.cpp:71-114 | for a waiting record, in time and of a registered device, that response succeeds if its signature verifies and is an invalid signature otherwise |
| EndToEnd.ReplayIsRefused | windows/agent/AgentService.cpp:71-114 | after a success the same response at any time, whatever the registry holds, is refused as already consumed |
| EndToEnd.CompletenessAndReplay | windows/agent/AgentService.cpp:38-114 | request, response, success and refused replay in one run of both sides, for every signature whose DER form is not 64 bytes long |
| EndToEnd.CompletenessAmongOthers | windows/agent/AgentService.cpp:71-114 | the same for the phone's reply received at any step of any run: it has succeeded if and only if it has taken its four steps, as long as until then no other step changes its record or the key found for its device |
| EndToEnd.SuccessIsSigned | windows/agent/AgentService.cpp:71-114 | in every interleaving, a success is one for which ECDSA accepted exactly the first 108 bytes under the key found for the device, if the handle still stood for that key |
| EndToEnd.ExpiredIsRefused | android/app/src/main/java/com/phonekey/engine/UnlockController.kt:72-76 | the agent's request is refused as expired if and only if it is read after its expiry |
| EndToEnd.ReadTooLate | android/app/src/main/java/com/phonekey/engine/UnlockController.kt:72-76 | if the agent receives replies of the phone only, and the requests of a session were all read too late, no response is ever for that session, in any interleaving |
| EndToEnd.OverTheWire | windows/common/TcpTransport.cpp:119-212 | request and response arrive as sent, however the bytes are cut up |
| EndToEnd.UnlockOverTheWire | windows/common/TcpTransport.cpp:119-212 | the whole unlock over the wire: the request is read by the phone, its reply with a DER signature has at most 180 bytes, is read by the agent and granted, however the bytes are cut up |

## Left out

- Sockets, threads, `accept`, `connect` and `Close`, and changes of the connection flag by other threads.
- `m_listener` is always set; null pointers are not modelled.
- The texts of error messages; an error is its kind.
- BLE transports, the credential provider, the named pipe, DPAPI, the user interface, key management,
  `MultiDeviceManager`, `Ctap2Bridge`, `SasEngine`, `SasManager`, `QrPayloadParser`, `ErrorCodeToString`: they would add
  only easy members.
- CNG, the Android Keystore, SHA-256, HMAC, ECDSA and ECDH are functions and predicates without a definition. A provider
  failure is a function of the call's arguments.
- `java.util.zip.CRC32` is taken to be the CRC-32 of IEEE 802.3, that is `Crc`.
- The parser's overflow check of the frame size, which cannot fire below the size limit.
- The outputs that a failing parser of the agent has partly written before it returns false.
- `ConsumeChallenge` has the body of `ValidateAndConsumeChallenge` and no caller in the agent; it is not repeated.
- `TcpTransportClient.sendFrame`, beyond the frame it prints: an exception while writing closes the connection.
- The complaints that the phone repeats while its inner loop spins.
- An HKDF length below zero, which the phone's array allocation refuses.
- Status updates of the phone's controller, its report of success, and the errors its transport reports to it;
  `BiometricSigner` is the function `sign`.
