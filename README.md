# ML-KEM-768 handshake over TCP: a Dafny model

The repository's handshake has two sides.

- **Responder** (`main/mlkem_server.c`). An ESP32 firmware task generates one ML-KEM-768 key pair at start-up. It then serves TCP connections one after another. On each connection it:
  1. sends the public key (PK), preceded by a 2-byte big-endian length header `0x04 0xA0` (1184);
  2. receives the ciphertext (CT), 1088 bytes, with or without a `0x04 0x40` header. It cannot know which in advance, so it peeks at the first two bytes without consuming them;
  3. decapsulates the CT;
  4. sends back the 32-byte shared secret (SS).

  The socket is shut down and closed on every path.
- **Initiator** (`host_test/mlkem_client.c`). A host test harness. It parses its command line (`--ct-header`, `--corrupt=ct|pk|none`, `--flip-byte=N`), then:
  1. checks the PK header and reads the key;
  2. with `--corrupt=pk`, flips one bit of the key;
  3. encapsulates;
  4. with `--corrupt=ct`, flips one bit of the ciphertext;
  5. sends the CT, framed as configured;
  6. reads the responder's SS and compares it with its own.

  The exit status is 0 when the secrets match, 3 when they differ, 1 on an I/O or encapsulation failure and 2 on a usage error.

`components/mlkem/src/randombytes_esp.c` supplies the KEM's randomness. It packs successive 32-bit hardware random words into a byte buffer, least significant byte first.

The model works as follows.

- **Connections** (`transport.dfy`). A connection is a value `Wire`, which holds:
  - the bytes the peer sends before it closes its side or stops to wait for this one;
  - the log of bytes written;
  - one finite schedule per direction, saying how each `recv` or `send` call behaves: a short transfer, no progress, or an errno such as EINTR.

  Once a schedule is used up, that direction is ideal. A `recv` that finds nothing pending returns 0, as it does once the peer has closed. While the peer is still open, the same call blocks instead. `Transport.RecvWaits`, `ReliableIo.RecvAllWaits` and `Server.SniffCtWaits` mark the runs that reach such a call. `Transport.RecvStepTimed` is the same call on a socket with a receive timeout. `class Socket` wraps a `Wire` and has `Recv` (with `MSG_PEEK`), `Send`, `Shutdown` and `Close` methods.
- **Step functions.** Each program step is written twice:
  - as a function of the `Wire` (`ReliableIo.RecvAll`, `Server.SniffCt`, `Server.Serve`, `Client.FetchPk`, `Client.Initiate`, ...);
  - as an imperative method over a `Socket` and arrays, whose `ensures` ties its result and the socket's new state to that function.

  The properties are lemmas about the functions.
- **The KEM** (`kem.dfy`) is a pair of function values with the repository's fixed sizes, 1184/2400/1088/32 (`components/mlkem/src/mlkem_wrap.c:12-15`). Where a lemma needs decapsulation to undo encapsulation, it takes that as a hypothesis (`Kem.Agrees`).
- **End to end** (`handshake.dfy`). The two sides are composed, each reading what the other writes.

Modules:

| file | module | models |
|---|---|---|
| transport.dfy | Transport | bytes, `recv`/`send` calls, the socket object |
| kem.dfy | Kem | sizes and the KEM interface |
| framing.dfy | Framing | big-endian 16-bit headers and the CT frame |
| reliable_io.dfy | ReliableIo | `recv_all`/`send_all` as functions and their lemmas |
| server.dfy | Server | the responder's functions, methods and `class Responder` |
| server_props.dfy | ServerProps | properties of the responder |
| client_args.dfy | ClientArgs | `atoi` and the argument loop |
| client.dfy | Client | the initiator's functions and methods |
| client_props.dfy | ClientProps | properties of the initiator |
| randombytes.dfy | RandomBytes | `randombytes` |
| handshake.dfy | Handshake | both sides together |

## Model

| member | source | states |
|---|---|---|
| Framing.Be16 | host_test/mlkem_client.c:126 | the big-endian value of two bytes: below 0x10000, high byte `v / 256`, low byte `v % 256` |
| Framing.Be16Bytes | main/mlkem_server.c:161-162 | the two header bytes of a length decode back to that length |
| Framing.Be16Injective | main/mlkem_server.c:74-75 | two bytes decode to `v` if and only if they are `v`'s big-endian encoding |
| Framing.PkHeader | main/mlkem_server.c:161-162 | the PK header is `0x04 0xA0` and decodes to 1184 |
| Framing.CtHeader | host_test/mlkem_client.c:165-169 | the CT header is `0x04 0x40` and decodes to 1088 |
| Framing.CtFrame | host_test/mlkem_client.c:164-185 | with the header the frame is `0x04 0x40` followed by the CT; without it, the CT alone |
| Transport.RecvStep | main/mlkem_server.c:38-41 | one `recv`: returns at most the requested and pending bytes, which are the next bytes of the stream, consumed unless peeking; a return of 0 means the request was 0 bytes or nothing is pending, which is what the call returns once the peer has closed; a failure returns -1 and consumes nothing; the sending side is untouched |
| Transport.SendStep | main/mlkem_server.c:54-56 | one `send`: a non-negative return appends that many leading bytes of the buffer; a failure returns -1 and writes nothing; an ideal transport takes the whole buffer; the receiving side is untouched |
| Transport.Socket.Recv | host_test/mlkem_client.c:41-43 | the socket call copies the delivered bytes into `buf[off..]`, leaves the rest of the buffer unchanged and advances the connection as `RecvStep` says |
| Transport.Socket.Send | host_test/mlkem_client.c:25-27 | the socket call sends `buf[off..off+want]` as `SendStep` says |
| Transport.Socket.Shutdown | main/mlkem_server.c:194 | marks the socket shut down and changes nothing else |
| Transport.Socket.Close | main/mlkem_server.c:195 | marks the socket closed and changes nothing else |
| ReliableIo.RecvAllFromConsumes | main/mlkem_server.c:34-48 | the receive loop consumes a prefix of the stream and delivers exactly those bytes after the ones already received; it returns 0 or -1, and 0 exactly when `len` bytes are in; the sending side is untouched |
| ReliableIo.RecvAllExact | host_test/mlkem_client.c:37-55 | `recv_all` returns 0 only when the buffer holds exactly the next `len` bytes of the stream and they are consumed |
| Transport.RecvWaitsIsZeroReturn | main/mlkem_server.c:38-39 | a `recv` waits (blocks on an open peer) exactly when it returns 0 for a non-empty request |
| ReliableIo.RecvAllWaitsIffFails | main/mlkem_server.c:34-47 | when every scheduled failure is EINTR, `recv_all` reaches a waiting call exactly when it fails |
| ReliableIo.RecvAllNeverWaits | main/mlkem_server.c:34-47 | when all the missing bytes are already pending, `recv_all` never reaches a waiting call, whatever the schedule |
| ReliableIo.RecvAllTimedLikeClose | main/mlkem_server.c:38-43 | with a receive timeout, `recv_all` returns what it returns when the peer closes: a timed-out -1 and a 0 both end it with -1 |
| ReliableIo.RecvAllPeerClosed | main/mlkem_server.c:39 | a peer that closes before `len` bytes arrive makes `recv_all` fail |
| ReliableIo.RecvAllSucceeds | main/mlkem_server.c:37-46 | with at least `len` bytes pending and receives failing only by EINTR, `recv_all` returns 0 with the next `len` bytes, whatever the chunking |
| ReliableIo.RecvAllRetriesInterrupt | main/mlkem_server.c:40-41 | an EINTR is retried with nothing received: the loop ends exactly as it would without it |
| ReliableIo.SendAllFromAppends | main/mlkem_server.c:50-63 | the send loop appends a prefix of the buffer to the output, in order; it returns 0 exactly when the whole buffer is out; the receiving side is untouched |
| ReliableIo.SendAfterHeader | main/mlkem_server.c:163-164 | once a header is out in full, sending the body writes the whole message or, on failure, a proper prefix of it that holds the header |
| ReliableIo.SendAllExact | host_test/mlkem_client.c:21-35 | `send_all` returns 0 or -1, appends a prefix of the buffer in every case, and returns 0 only after appending all `len` bytes |
| ReliableIo.SendAllSucceeds | main/mlkem_server.c:53-61 | when sends fail only by EINTR (and, for the client, always make progress) `send_all` returns 0 after appending the whole buffer |
| ReliableIo.SendZeroReturn | host_test/mlkem_client.c:31 | a `send` that returns 0 is retried by the responder's loop but ends the initiator's loop with -1 and nothing written |
| ReliableIo.RecvAllFromIgnoresSendSide | main/mlkem_server.c:34-48 | the receive loop's result does not depend on the sending side |
| ReliableIo.SendAllFromIgnoresRecvSide | main/mlkem_server.c:50-63 | the send loop's result does not depend on the receiving side |
| Server.SniffCtShape | main/mlkem_server.c:70-87 | `recv_ct_maybe_hdr` returns 0 or -1, and on 0 it has read exactly `expected_len` bytes; it sends nothing |
| Server.RecvAll | main/mlkem_server.c:34-48 | the loop returns what `ReliableIo.RecvAll` computes, `buf[..len]` holds the bytes received and the socket is left in the resulting state |
| Server.SendAll | main/mlkem_server.c:50-63 | the loop returns what `ReliableIo.SendAll` computes, 0 returns not counting as failure, and the socket is left in the resulting state |
| Server.RecvCtMaybeHdr | main/mlkem_server.c:70-87 | peek, optional header consumption and the CT read return what `Server.SniffCt` computes, and `ct` holds the bytes read |
| Server.Responder.SendPkMessage | main/mlkem_server.c:160-167 | the PK header and then the key go out as `Server.SendPk` says, the key skipped when the header fails |
| Server.Responder.ReplyCt | main/mlkem_server.c:169-191 | receiving the CT, decapsulating and sending the SS behave as `Server.Reply`, each step skipped after a failure |
| Server.Responder.Handshake | main/mlkem_server.c:160-195 | one connection ends with the outcome and connection state `Server.Serve` gives for it, shut down and closed on every path |
| Server.Responder.ServeConnections | main/mlkem_server.c:145-196 | the accept loop serves each connection as `Server.Serve` with the same key pair, shuts it down and closes it, and keeps the responder valid |
| ServerProps.PeekSeesTwoExactly | main/mlkem_server.c:72-73 | the peek returns 2 exactly when two bytes are pending and the call is neither cut short nor failing |
| ServerProps.SniffCtWithHeader | main/mlkem_server.c:72-86 | when the peek shows the expected length, those two bytes are consumed and the CT is the following `expected_len` bytes; this read succeeds whenever they are there and receives fail only by EINTR |
| ServerProps.SniffCtWithoutHeader | main/mlkem_server.c:79-86 | when the peek shows other bytes, fewer than two or fails, nothing is consumed first and the CT is the stream's first `expected_len` bytes, the peeked ones included |
| ServerProps.BothFramingsAgree | main/mlkem_server.c:70-87 | with and without its header, every CT not starting `0x04 0x40` reaches the responder unchanged |
| ServerProps.UnheaderedCtMisread | main/mlkem_server.c:73-86 | an unheadered CT starting `0x04 0x40` loses its first two bytes and needs 1090 stream bytes; when the peer sends nothing after it and then closes, the read fails |
| ServerProps.HeaderMissedByShortPeek | main/mlkem_server.c:72-84 | a headered CT whose peek returns one byte or fails is read with the header taken as CT bytes |
| ServerProps.SniffCtWaitsIffFails | main/mlkem_server.c:70-87 | when every scheduled failure is EINTR, the CT receiver reaches a waiting call exactly when it fails |
| ServerProps.SniffCtTimedLikeClose | main/mlkem_server.c:70-87 | with a receive timeout, the CT receiver returns what it returns when the initiator closes |
| ServerProps.SniffCtIgnoresSendSide | main/mlkem_server.c:70-87 | the CT receiver's result does not depend on the sending side |
| ServerProps.PkMessage | main/mlkem_server.c:160-164 | the PK message is 1186 bytes: `0x04 0xA0`, then the key |
| ServerProps.SendPkTranscript | main/mlkem_server.c:160-167 | step 1 writes the PK message, or a proper prefix of it when a send fails, and touches nothing on the receiving side |
| ServerProps.ReplyTranscript | main/mlkem_server.c:170-190 | steps 2-4 on each path: the SS goes out only after a full CT read and a decapsulation status of 0; the other paths write nothing |
| ServerProps.ServeTranscript | main/mlkem_server.c:160-195 | everything one connection writes, outcome by outcome: the PK message, then the SS only when the CT arrived and decapsulated; after a failure nothing more is written |
| ServerProps.SendPkSucceeds | main/mlkem_server.c:163-164 | step 1 succeeds whenever sends fail only by EINTR |
| ServerProps.ReplySucceeds | main/mlkem_server.c:170-190 | with a correctly read CT and decapsulation status 0, the connection is served and the reply is exactly the SS |
| ServerProps.ServeSucceeds | main/mlkem_server.c:160-191 | a peer sending a frame the sniffing reads correctly, a transport failing only by EINTR, and a successful decapsulation give a served connection that wrote the PK message and then the SS |
| ClientArgs.SkipSpace | host_test/mlkem_client.c:91 | `atoi` skips leading white space: the rest is no longer and does not start with any |
| ClientArgs.SkipSpaceDrops | host_test/mlkem_client.c:91 | what `atoi` skips is exactly the leading white space: the rest is a suffix, everything dropped is white space, and the rest does not start with any |
| ClientArgs.DigitRun | host_test/mlkem_client.c:91 | `atoi` reads the longest run of leading digits |
| ClientArgs.Decimal | host_test/mlkem_client.c:91 | the decimal numeral of `n` is a non-empty string of digits |
| ClientArgs.DecimalRoundTrip | host_test/mlkem_client.c:91 | the value of `n`'s decimal numeral is `n` |
| ClientArgs.ReadUnsignedDecimal | host_test/mlkem_client.c:91 | reading the digits of `n`, followed by any non-digit, gives `n` |
| ClientArgs.AtoiDigits | host_test/mlkem_client.c:91 | a run of digits, bare or after `+` or `-`, followed by anything that is not a digit, reads as the run's value, negated after `-` |
| ClientArgs.AtoiDecimal | host_test/mlkem_client.c:91 | `--flip-byte=N`, `=+N` and `=-N` give `N`, `N` and `-N`, whatever non-digits follow |
| ClientArgs.AtoiSkipsSpace | host_test/mlkem_client.c:91 | leading white space does not change `atoi`'s result |
| ClientArgs.CorruptionNamed | host_test/mlkem_client.c:82-89 | `ct`, `pk` and `none` are exactly the values `--corrupt=` accepts, each selecting its mode |
| ClientArgs.ApplyArg | host_test/mlkem_client.c:79-95 | an argument is rejected exactly when it is unknown; `--ct-header` sets only the header flag; `--corrupt=` changes only the mode; `--flip-byte=` sets only the index, to `atoi` of its value |
| ClientArgs.ParseFlagsFailsIff | host_test/mlkem_client.c:78-96 | the flag loop fails exactly when some argument is unknown |
| ClientArgs.UsageErrorIff | host_test/mlkem_client.c:64-96 | argument parsing fails (status 2) exactly when there are fewer than 3 arguments or some argument from the fourth on is unknown |
| ClientArgs.ParseFlagsAppend | host_test/mlkem_client.c:78-96 | parsing two argument lists in a row is parsing the first, then the second from the resulting configuration |
| ClientArgs.FlipUntouched | host_test/mlkem_client.c:90-91 | arguments that are not `--flip-byte=` leave the index as it was |
| ClientArgs.CorruptUntouched | host_test/mlkem_client.c:81-89 | arguments that are not `--corrupt=` leave the mode as it was |
| ClientArgs.FlipLastWins | host_test/mlkem_client.c:78-96 | the last `--flip-byte=` decides the index |
| ClientArgs.CorruptLastWins | host_test/mlkem_client.c:78-96 | the last `--corrupt=` decides the mode |
| ClientArgs.CtHeaderIff | host_test/mlkem_client.c:79-80 | after a successful parse the CT header is on exactly when it was on before or `--ct-header` appears |
| ClientArgs.ParseCommandLine | host_test/mlkem_client.c:64-96 | the argument loop succeeds exactly when `ParseArgs` does, and then yields its configuration |
| Client.Xor1 | host_test/mlkem_client.c:144 | `b ^ 0x01` changes the lowest bit and keeps the others |
| Client.Flipped | host_test/mlkem_client.c:142-146 | flipping changes exactly one byte, at the index, and keeps the length |
| Client.CRem | host_test/mlkem_client.c:143 | C's `%` for a positive modulus: magnitude below it, equal to the Euclidean remainder for non-negative operands, a non-zero result having the sign of the dividend |
| Client.NegativeFlipOutOfBounds | host_test/mlkem_client.c:143 | as written, `--flip-byte=-1` gives index -1 for the key and the ciphertext alike |
| Client.FlipIndex | host_test/mlkem_client.c:143 | the corrected index is in `[0, n)`, congruent to the flag modulo `n`, and equal to the client's whenever the flag is non-negative |
| Client.FlipIndexWrapsPk | host_test/mlkem_client.c:143-144 | for the key, the corrected index is the client's index where that is in bounds, and that index plus 1184 where it is negative |
| Client.FlipIndexWrapsCt | host_test/mlkem_client.c:159-160 | the same for the ciphertext, with 1088 |
| Client.UsedPk | host_test/mlkem_client.c:142-146 | the key encapsulated against is the received one, with one byte flipped exactly under `--corrupt=pk` |
| Client.UsedCt | host_test/mlkem_client.c:158-162 | the CT sent is the encapsulated one, with one byte flipped exactly under `--corrupt=ct` |
| Client.FlipByte | host_test/mlkem_client.c:144 | `a[idx] ^= 0x01` in place leaves the array equal to the flipped contents |
| Client.CompareSecrets | host_test/mlkem_client.c:197-213 | the status is 0 exactly when the secrets are equal and 3 exactly when they differ |
| Client.FetchPk | host_test/mlkem_client.c:119-139 | reading the PK message returns 0 or -1, with 1184 bytes on 0, and sends nothing |
| Client.RecvAll | host_test/mlkem_client.c:37-55 | the client's loop returns what `ReliableIo.RecvAll` computes, with the bytes in `buf[..len]` |
| Client.SendAll | host_test/mlkem_client.c:21-35 | the client's loop returns what `ReliableIo.SendAll` computes, a 0 return counting as failure |
| Client.ReceivePk | host_test/mlkem_client.c:119-139 | header check and key read return what `Client.FetchPk` computes, with the key in `pk` |
| Client.TransmitCt | host_test/mlkem_client.c:164-185 | sending the CT, framed as configured, does what `Client.SendCt` computes |
| Client.ExchangeKeys | host_test/mlkem_client.c:142-194 | corrupt, encapsulate, send and read back as `Client.Exchange` computes |
| Client.SendAndCompare | host_test/mlkem_client.c:164-213 | send the CT, read the SS and compare as `Client.Finish` computes |
| Client.Handshake | host_test/mlkem_client.c:119-213 | the run on a connected socket behaves as `Client.Initiate` and ends with the socket closed |
| Client.RunClient | host_test/mlkem_client.c:63-213 | `main`: status 2 on a usage error, before the socket is touched; otherwise the run behaves as `Client.Initiate` and the socket ends closed |
| ClientProps.FetchPkReads | host_test/mlkem_client.c:119-139 | a PK message is accepted only with header `0x04 0xA0`; the key is then the 1184 bytes after it, consumed |
| ClientProps.PkHeaderMismatch | host_test/mlkem_client.c:126-132 | a header that does not decode to 1184 gives status 1 after reading only the header, with nothing sent |
| ClientProps.SendCtFrames | host_test/mlkem_client.c:164-185 | the CT frame is written, or a proper prefix of it when a send fails |
| ClientProps.FinishTranscript | host_test/mlkem_client.c:164-213 | status 0, 1 or 3; past the SS read, the frame was written, the SS is the next 32 bytes of the stream, and the status is 0 exactly when the secrets are equal |
| ClientProps.ExchangeTranscript | host_test/mlkem_client.c:142-213 | from the received key on: without a CT sent, status 1 and nothing written; past the comparison, this side's SS and the CT come from encapsulating against the key in use, and the status compares the secrets |
| ClientProps.ClientTranscript | host_test/mlkem_client.c:119-213 | a whole run: status 0, 1 or 3; at 0 or 3 the peer sent exactly the PK message and the SS, this side wrote exactly the CT frame, and the status is 0 exactly when the secrets are equal and 3 exactly when they differ |
| ClientProps.ShortStreamFails | host_test/mlkem_client.c:187-194 | a peer that sends fewer bytes than the PK message and an SS and then closes gives status 1 |
| ClientProps.CorruptCtKeepsSecret | host_test/mlkem_client.c:158-162 | with `--corrupt=ct`, this side's SS is the encapsulation's and only the sent CT has one byte flipped |
| ClientProps.CorruptPkChangesKey | host_test/mlkem_client.c:142-156 | with `--corrupt=pk`, SS and CT come from encapsulating against the key with one byte flipped |
| ClientProps.ClientCompletes | host_test/mlkem_client.c:119-213 | a peer sending the PK message and an SS, a transport failing only by EINTR with every scheduled send making progress, and a successful encapsulation give a run that writes the CT frame and whose status is the comparison's |
| ClientProps.SendCtSucceeds | host_test/mlkem_client.c:164-185 | sending the CT succeeds whenever sends fail only by EINTR and make progress |
| RandomBytes.WordBytesRoundTrip | components/mlkem/src/randombytes_esp.c:7-9 | a word's four bytes, read little-endian, give the word back |
| RandomBytes.PackedByte | components/mlkem/src/randombytes_esp.c:7-9 | output byte `j` is byte `j % 4` of word `j / 4` |
| RandomBytes.PartialLastWord | components/mlkem/src/randombytes_esp.c:8-9 | when `outlen % 4 != 0`, the last word gives only its low `outlen % 4` bytes |
| RandomBytes.PackedPrefix | components/mlkem/src/randombytes_esp.c:6-12 | a fill is a shorter fill, ending on a word boundary, followed by a fill from the next words |
| RandomBytes.FrontByte | components/mlkem/src/randombytes_esp.c:6-12 | within its first `4q` bytes, a fill agrees with the fill of just `4q` bytes |
| RandomBytes.BackByte | components/mlkem/src/randombytes_esp.c:6-12 | from byte `4q` on, a fill is the fill that starts `q` words later |
| RandomBytes.PackedWordAt | components/mlkem/src/randombytes_esp.c:7-11 | the `q`-th word drawn fills bytes `4q` to `4q + n` of the output, `n` being 4 or the bytes left |
| RandomBytes.StoreWord | components/mlkem/src/randombytes_esp.c:9 | the inner loop writes the low `n` bytes of the word, least significant first, at `out[pos..pos + n)` and changes nothing else |
| RandomBytes.FillingStep | components/mlkem/src/randombytes_esp.c:6-12 | one pass of the outer loop keeps its invariant: the filled part grows by the word's bytes to a longer prefix of the whole fill, one more word is drawn, and the unfilled part is untouched |
| RandomBytes.EntropySource.Next | components/mlkem/src/randombytes_esp.c:7 | `esp_random()` returns the next word of the source and counts the draw |
| RandomBytes.FillRandom | components/mlkem/src/randombytes_esp.c:5-13 | writes exactly `out[0..outlen)`, little-endian from successive words, leaves the rest of `out` alone, and draws `ceil(outlen / 4)` words (none, and nothing written, for 0) |
| Handshake.HandshakeCompletes | main/mlkem_server.c:160-191 | both sides over reliable transports: the responder serves the connection and writes the PK message and its SS; the initiator writes exactly the frame the responder read, and its status, 0 or 3, compares its SS with the responder's |
| Handshake.HonestHandshakeMatches | host_test/mlkem_client.c:197-213 | without corruption, and with a KEM whose decapsulation undoes encapsulation, the handshake ends with status 0 |
| Handshake.CorruptedHandshakeReports | host_test/mlkem_client.c:142-162 | with a corruption option and a successful decapsulation, the protocol still completes: status 3 exactly when the secrets differ, never a transport failure |
| Handshake.ResponderNeverWaits | main/mlkem_server.c:70-87 | for a CT frame that is not ambiguous, the responder's CT read never waits, so the handshake results hold for an initiator that stays open |
| Handshake.DecapsFailureEndsWithStatus1 | main/mlkem_server.c:178-183 | when decapsulation fails, the responder sends only the PK message and the initiator ends with status 1 |
| Handshake.AmbiguousCtDeadlocks | main/mlkem_server.c:72-86 | for an unheadered CT starting `0x04 0x40`, the responder has sent the PK message and waits in its CT read with the whole CT consumed; the initiator has read that PK message, sent its whole CT and waits in its SS read: neither read can return |
| Handshake.AmbiguousCtTimesOut | main/mlkem_server.c:86 | with a receive timeout on the accepted socket, the same input makes the CT read fail; the responder sends no SS and closes, and the initiator ends with status 1, whatever the KEM does |

## Left out

- Wi-Fi soft-AP bring-up, NVS, `esp_restart`, FreeRTOS tasks and delays: platform plumbing with no handshake behaviour.
- Key-pair generation in `app_main`: keys are modelled as values. `Server.Responder` takes them at construction and never writes them.
- Socket creation, `bind`, `listen`, `accept` (with its retry delay), `inet_pton` and `connect`: the model starts from a connected stream. The initiator's failures there give status 1 and are not in the model.
- `ServeConnections` takes the accepted connections as a list, so accept failures are not modelled.
- Logging (`ESP_LOGx`, `dump4`, `hexdump4`, `printf`, `perror`): output only.
- Setting `errno = ECONNRESET` before `perror` in the initiator's `recv_all`: it only affects the message printed.
- The ML-KEM primitives (`kem_shim.c`, `mlkem_wrap.c`): they are opaque function values with fixed-size outputs and an int status.
  - The randomness encapsulation draws is hidden inside `enc`.
  - Agreement of encapsulation and decapsulation is a hypothesis (`Kem.Agrees`) of the one lemma that needs it.
  - That a flipped bit makes the secrets differ is probabilistic and is not claimed.
- `host_test/randombytes_posix.c` (`/dev/urandom`) and `keccak_endian_fix.h` (macros) are not part of this model.
- Concurrency: the responder serves connections one at a time, and the model follows it.
- A peer that stays open and sends nothing more makes `recv` block for good. The model's `recv` returns 0 there instead, as for a closed peer, and the waiting predicates mark where that happens. So the lemmas whose conclusion is a failed read (`ServerProps.UnheaderedCtMisread`, `ClientProps.ShortStreamFails`, `Handshake.DecapsFailureEndsWithStatus1`) are about a peer that closes. In the last one the peer is the responder, which does close.
- Time is not modelled. `Transport.RecvStepTimed` says only that a waiting call fails once the timeout expires, not when. A slow peer that a real timeout would also cut off is not modelled.
- Termination of the transfer loops relies on each call's outcome being drawn from a finite schedule, after which the transport is ideal. A peer that keeps a `send` returning 0 forever would hang the responder's `send_all`; the model does not capture that.
- `atoi` overflow (undefined behaviour in C) is not modelled: the value is an unbounded integer, and the index is reduced from it.
  - `atoi(argv[2])` (the port) is not modelled.
  - Arguments are strings of characters with no interior NUL.
- Client.CRem: its contract does not state congruence modulo `n` for a general `n`. The index lemmas state it for 1184 and 1088 (`Client.FlipIndexWrapsPk`, `Client.FlipIndexWrapsCt`).
- Client.FetchPk: its own contract states only the status, the length and that nothing is sent. What it reads is stated by `ClientProps.FetchPkReads`.

## Findings

| source | as written | input that shows it | evidently intended | confidence | as-written member | corrected member |
|---|---|---|---|---|---|---|
| host_test/mlkem_client.c:143-144 | `int idx = flip_index % MLKEM_PUBLICKEYBYTES;` uses C's truncating `%`, so a negative `flip_index` gives a negative `idx`, and `pk[idx] ^= 0x01` writes before the array (the same at lines 159-160 for `ct`) | `--corrupt=pk --flip-byte=-1` gives `idx == -1` | an index reduced into `[0, N)`, so that exactly one byte of the buffer is flipped | not executed | Client.NegativeFlipOutOfBounds | Client.FlipIndex |
| main/mlkem_server.c:72-86 | `recv_ct_maybe_hdr` takes an unheadered CT that starts `0x04 0x40` for a header and waits for two more bytes. The initiator waits for the SS with its socket open (host_test/mlkem_client.c:188-189). The accept loop at main/mlkem_server.c:145-196 serves one connection at a time. Neither sets a receive timeout; the only socket option is SO_REUSEADDR at main/mlkem_server.c:126. | no `--ct-header`, and an encapsulation whose CT begins `0x04 0x40` | the connection ends, and the serial accept loop goes on to the next client | not executed | Handshake.AmbiguousCtDeadlocks | Handshake.AmbiguousCtTimesOut |

The model uses the corrected `Client.FlipIndex` to decide which byte is flipped. `Client.FlipIndexWrapsPk` and `Client.FlipIndexWrapsCt` state how it relates to the index as written.

For the deadlock, the corrected responder sets a receive timeout on the accepted socket. Before its time expires, a waiting call has no effect, so the model's `Server.Serve` and `Server.SniffCt` already compute that responder's results: `ServerProps.SniffCtTimedLikeClose` states that the timed CT read equals the model's. `Handshake.AmbiguousCtDeadlocks` uses the waiting predicates to show where the programs as written block.
