# Verified models of the Firebird paper's client samples

This project models the self-contained logic of the samples that accompany the conceptual-architecture paper
and proves what that logic is for. `dafny verify dfyconfig.toml` checks everything.

* **The from-scratch wire client** (`Bytes`, `Modular`, `Fermat`, `Hex`, `Srp`, `Arc4`, `Xdr`, `Transport`, `Tlv`,
  `Replies`, `Link`, `Wire`, `Handshake`). The run of `srp-handshake.js` is a step system: the client, a server that answers
  each request with one well-formed reply, and two FIFO byte channels that deliver any number of bytes at a time.
  `Replies.Feed` is the client's reading as a machine of single `take` calls; the imperative `Reader` and
  `readResponse` are proved against it, and the step system uses it. Main results: both directions stay aligned
  byte by byte across the switch to ciphertext, the decryptor is armed with nothing buffered or in flight whatever key
  the peer has, requests follow replies, every run comes to an end, a running client is stuck exactly if the reply to
  op_connect is a short foreign packet, and against a server that accepts it finishes with both directions enciphered
  under one key.
* **SRP.** Square-and-multiply refines exponentiation, and the client's secret equals the server's of section 2.6 of
  RFC 5054 exactly when the reduction of the exponent modulo N does not bite. `Handshake` puts this under the run: for
  private keys up to N - 2^320 every run with an honest server finishes, enciphered under the key that each side derived.
* **The BLR decoders** (`Blr`, `BlrMessages`). A prefix code and a strict grammar for it, and four decoders in the four
  shapes of the samples, related to the grammar on all byte strings.
* **The event listener** (`Events`). Posters, engine, callback thread and listener thread interleave freely.
* **The grammar tool** (`Braces`, `Grammar`, `Search`) and **the info-buffer scanner** (`Clumplets`).

## How the model reads the source

* Bytes are integers 0..255. Exclusive or is defined bit by bit; an or of shifted bytes is a sum, because the operands
  share no bits.
* SHA-1 and SHA-256 are arbitrary functions; only their lengths (20 and 32) are used, and only where stated.
* The socket's future `data` events are a list of chunks, any cut of the bytes to come. An `await` that the stream
  never satisfies returns `Blocked`. JavaScript's clipping `subarray`, sign-keeping `%`, NaN and out-of-range
  exceptions are written out; so are Python's `IndexError` and C#'s range exceptions. Where C++ would read past its
  buffer a method returns `ok == false`.
* The server is an environment: it consumes a request once all of it has arrived, gives any well-formed reply, deciphers
  from the byte after op_crypt on and enciphers from its reply to op_crypt on, as the client's comments describe.
* A well-formed reply is a whole acceptance or response, or a packet with any other opcode and any bytes after it. A
  reply cut off by the peer, and a negative length in one, are not among them; the readers themselves are proved on all
  streams.
* Two environments are told apart: `Wire.Possible` allows any well-formed reply, `Wire.Enabled` also asks that an
  acceptance gives the client the peer's own key. What happens before the switch is proved for the first; what the two
  ciphers do afterwards needs the second.
* A console line is a value; the decoders return the lines they print, and the lines are shown to determine the tree.

## Where the code does not meet a promise

* `Reader.take` leaves the byte counter right if and only if its count is not negative (`Xdr.Reader.Take`). Only
  `bytes()` passes a negative count, and its padding take computes the counter afresh: after a length n < 0 with m bytes
  buffered it returns the first max(0, m + n) of them, and the counter is right if and only if (-n) mod 4 <= m
  (`Xdr.Reader.Opaque`). So what `bytes()` returns then depends on how the bytes arrived.
* The client reads version, architecture and packet type before it looks at the opcode of the reply to op_connect. A
  foreign packet other than op_reject with fewer than 12 bytes after its opcode is not refused: the client waits for ever
  (`Wire.BareReplyHangs` for a bare opcode, `Wire.StallHangs` for all of them). The run hangs if and only if the reply is
  such a packet (`Wire.HangsExactly`), and there is no other way to get stuck (`Wire.StuckExactly`).
* `clientProofSrp256` reduces the exponent modulo N, not N-1. At that N the greatest private key disagrees with every
  server whose private key is 1 (`Srp.ReductionBreaksAgreement`). The secrets agree if and only if a + u*x < N or the
  base that the client raises, (B - k*g^x) mod N, is 1 (`Srp.ExchangeAtN`); the client holds all of these values.
* `userIdBlock` writes lengths and part numbers modulo 256. It is read back if and only if no text field is longer than
  255 bytes (`Tlv.BlockRoundTrip`), and its parts are numbered if and only if there are at most 256 (`Tlv.SequenceExactly`).
* The event demo queues its interest again even when its wait timed out, and then a delivery can be overlooked
  (`Events.CanBeOverlooked`). Queueing again is harmless if and only if no earlier delivery is in flight, half copied or
  fired and not waited for (`Events.RequeueHarmlessExactly`, over whole runs `Events.DisciplineExactly`). The listener
  thread can see to it by queueing only after a wait that counted (`Events.CountBeforeRequeue`); a wait that timed out
  does not tell (`Events.TimeoutDoesNotTell`). No count is lost for good either way (`Events.NothingLostForGood`).
* The C++ and Python message loops have no end test; they read past the end if and only if no byte follows the last
  message (`BlrMessages.PlainMessages`, with `BlrMessages.StopsAfterMessage` as the least such program).
* `infoValue` does not check that a clumplet lies inside the buffer: where a buffer ends inside one, it stays inside the
  buffer exactly under the condition of `Clumplets.CutShort`, and every buffer that is not a walkable list is one of these
  (`Clumplets.EndsInside`).

## Model

| member | source | states |
|---|---|---|
| `Wire.StreamsStayAligned` | samples/nodejs/srp-handshake.js:276-301 | in every reachable state, for every packetisation, the plaintext received is a prefix of the plaintext sent in both directions, both ciphers were armed at the same stream position and each stands at the keystream position of its end; the client is never past a negative length |
| `Wire.SwitchIsExact` | samples/nodejs/srp-handshake.js:276-301 | the first enciphered byte upwards is the one after op_crypt, downwards the one after the second reply, and the histories are the encoded packets |
| `Wire.DecryptionStartsClean` | samples/nodejs/srp-handshake.js:148-148 | against any peer that gives one well-formed reply per request, whatever its key: whenever `enableDecryption` is called the inbound buffer is empty, nothing is in flight and no ciphertext has been sent |
| `Wire.ServerSwitchesClean` | samples/nodejs/srp-handshake.js:276-283 | whenever any such peer answers op_crypt it has received exactly op_crypt, and nothing of a later request |
| `Wire.ReachableIsPossible` | samples/nodejs/srp-handshake.js:211-303 | every state reachable with a peer that has the right key is reachable with any peer |
| `Wire.SwitchIsClean` | samples/nodejs/srp-handshake.js:276-283 | with the right key both ends switch with nothing buffered or in flight, and start deciphering with the same cipher |
| `Wire.StepKeepsInvAny` | samples/nodejs/srp-handshake.js:211-283 | up to the second reply every step with any such peer keeps the invariant of a run with a peer that has the key the client derives |
| `Wire.NoDeadlock` | samples/nodejs/srp-handshake.js:211-303 | as long as the client runs and does not wait for the rest of a short foreign reply to op_connect, some step of client, server or network is possible |
| `Wire.StuckExactly` | samples/nodejs/srp-handshake.js:236-242 | a running client has no step if and only if it waits for the rest of such a reply |
| `Wire.StarvedIsStuck` | samples/nodejs/srp-handshake.js:236-242 | in that state no step is possible, whatever key the peer has |
| `Wire.EveryRunEnds` | samples/nodejs/srp-handshake.js:211-303 | under every scheduler the client finishes, fails or gets into that state after finitely many steps |
| `Wire.HangsExactly` | samples/nodejs/srp-handshake.js:236-242 | under every scheduler the run ends with the client still waiting if and only if the reply to op_connect has a foreign opcode other than op_reject and fewer than 12 bytes after it |
| `Wire.StallHangs` | samples/nodejs/srp-handshake.js:236-242 | for every such reply a run in which it is given and the client waits for ever |
| `Wire.BareReplyHangs` | samples/nodejs/srp-handshake.js:236-242 | the same at a bare opcode 71 |
| `Wire.EveryRunStops` | samples/nodejs/srp-handshake.js:211-303 | against any peer, whatever its key, every run reaches a state in which the client has stopped or the scheduler's next step is not possible |
| `Wire.WelcomeRunsFinish` | samples/nodejs/srp-handshake.js:211-303 | against a server whose replies are all successes every run finishes, under every scheduler and packetisation, with both directions enciphered at both ends under one key |
| `Wire.RequestsFollowReplies` | samples/nodejs/srp-handshake.js:217-300 | each request is the one the previous reply calls for, none follows a refusal or error, and the detached handle is the one received |
| `Wire.RequestsAre` | samples/nodejs/srp-handshake.js:266-299 | every request of every run field by field, in the protocol's numbers and texts, the run's inputs and what the replies held: proof text, plugin name and list; cipher and kind of key; path and parameter block; the handle received |
| `Wire.ServerReads` | samples/nodejs/srp-handshake.js:266-299 | a decoder that knows only the opcodes recovers exactly that from what has arrived whenever the server can answer |
| `Wire.StepKeepsInv` | samples/nodejs/srp-handshake.js:211-303 | every step of every participant keeps the invariant that ties place, buffers, channels and ciphers to the packets exchanged |
| `Wire.ReadingIsExact` | samples/nodejs/srp-handshake.js:235-283 | after any prefix of a proper reply the client is never lost; once it has an outcome, that is the meaning of the reply and every byte was taken unless the opcode was foreign; all of the reply leads to an outcome if and only if it is not a short foreign reply to op_connect |
| `Wire.OutcomeIsMeaning` | samples/nodejs/srp-handshake.js:235-283 | in every reachable state an outcome is the meaning of the reply being read, and nothing else is buffered or in flight |
| `Wire.AnswersWholeRequest` | samples/nodejs/srp-handshake.js:266-281 | a request that the server can delimit is the open one, has arrived whole, and leaves nothing over |
| `Wire.DelimitsExactly` | samples/nodejs/srp-handshake.js:266-281 | the server can delimit a request if and only if it is its turn and no byte of the request is still under way |
| `Links.SendKeepsAligned` | samples/nodejs/srp-handshake.js:285-299 | writing through the armed or unarmed cipher keeps the two ends of a direction aligned |
| `Links.DeliverKeepsAligned` | samples/nodejs/srp-handshake.js:142-145 | a data event with any number of bytes yields exactly the next plaintext in flight and keeps the ends aligned |
| `Handshake.HonestServerIsProper` | samples/nodejs/srp-handshake.js:245-280 | for private keys up to N - 2^320 and any salt, the acceptance of an honest server is taken apart correctly and gives both ends the same cipher key |
| `Handshake.HonestRunsFinish` | samples/nodejs/srp-handshake.js:211-303 | for private keys up to N - 2^320, every run against a server that sends an honest acceptance and then grants each request finishes, under every scheduler and packetisation, with both directions enciphered under the key that each side derived |
| `Handshake.GrantingStep` | samples/nodejs/srp-handshake.js:211-303 | such a server exists: in every state of a running client that is not stuck as above some step is possible in which it sends only an honest acceptance or a success |
| `Handshake.ServerLearnsKey` | samples/nodejs/srp-handshake.js:224-230 | a parser of op_connect's user block gets the fields in order if and only if the user name is at most 255 bytes; the key's parts are numbered without a gap and give the client's public key |
| `Handshake.ConnectFits` | samples/nodejs/srp-handshake.js:223-233 | op_connect can be written if and only if path and user block fit a length word; the block is at most 1100 bytes longer than the user name |
| `Handshake.ConnectIs` | samples/nodejs/srp-handshake.js:223-233 | op_connect field by field: opcodes and versions, path, the user block with the key as hex text, and the six offers with their weights |
| `Handshake.DpbBytes` | samples/nodejs/srp-handshake.js:289-292 | the bytes of the parameter block |
| `Handshake.DpbRoundTrip` | samples/nodejs/srp-handshake.js:289-292 | the parameter block of op_attach is read back if and only if the user name is at most 255 bytes |
| `Replies.FeedSplits` | samples/nodejs/srp-handshake.js:149-161 | reading does not depend on how the bytes are split into arrivals |
| `Replies.FeedResponse` | samples/nodejs/srp-handshake.js:193-208 | exactly one encoded response is consumed, whatever follows it, and its meaning is the outcome |
| `Replies.ComplaintsAppear` | samples/nodejs/srp-handshake.js:197-206 | a response is an error if and only if its vector holds a non-zero gds code or a string item |
| `Replies.FeedAccept` | samples/nodejs/srp-handshake.js:235-248 | exactly one encoded acceptance is consumed and its plugin data and name are recovered |
| `Replies.FeedAcceptFields` | samples/nodejs/srp-handshake.js:236-248 | an acceptance written field by field, opcode 98 or 94: the client gets the fifth and the sixth field |
| `Replies.FeedFailureFields` | samples/nodejs/srp-handshake.js:193-208 | a response written field by field: gds codes and strings of any tag are thrown, numbers and warnings are not, and without the first two the handle is returned |
| `Replies.FeedRefused` | samples/nodejs/srp-handshake.js:236-243 | op_reject, and a foreign opcode in reply to op_connect with at least 12 bytes after it, end in the unexpected-opcode error; with fewer bytes the client still waits |
| `Replies.ReadResponse` | samples/nodejs/srp-handshake.js:193-208 | on any stream and packetisation the loop returns, throws or waits where the reading machine does and leaves the same bytes, unless a negative length occurs; even then it ends, with an end of the stream left |
| `Replies.AwaitResponse` | samples/nodejs/srp-handshake.js:272-273 | the same from the opcode on, which is refused with an exception if it is not op_response |
| `Replies.ReadOneResponse` | samples/nodejs/srp-handshake.js:193-208 | on a stream that holds an encoded response and anything after it: the handle is returned, or exactly the complaints are thrown if some item of the vector complains; exactly the rest is left and the counter is right |
| `Replies.AwaitAcceptance` | samples/nodejs/srp-handshake.js:236-248 | on any stream and packetisation the reads of the acceptance end, throw or wait where the reading machine does and leave the same bytes, unless a negative length occurs |
| `Replies.ReadOneAcceptance` | samples/nodejs/srp-handshake.js:236-248 | on any encoded reply to op_connect: the plugin data and name of an acceptance, the refusal of a foreign packet, and a wait exactly if the packet is short |
| `Xdr.Reader.constructor` | samples/nodejs/srp-handshake.js:140-147 | a new reader will deliver the bytes of its events |
| `Xdr.Reader.OnData` | samples/nodejs/srp-handshake.js:142-145 | a data event moves bytes from the network to the buffer, deciphered if armed, and changes nothing in the stream to be read |
| `Xdr.Reader.EnableDecryption` | samples/nodejs/srp-handshake.js:148-148 | what is buffered stays as it is, what is still to arrive is deciphered from the cipher's state |
| `Xdr.Reader.Take` | samples/nodejs/srp-handshake.js:149-154 | the stream splits into what is returned and what is left; a non-negative count is served exactly when the stream is long enough; the counter stays right if and only if the count is not negative |
| `Xdr.Reader.Int` | samples/nodejs/srp-handshake.js:155-155 | the next four bytes as a signed integer, or a wait |
| `Xdr.Reader.Opaque` | samples/nodejs/srp-handshake.js:156-161 | the next opaque without its padding, or a wait, if its length is not negative; after a negative one exactly how many of the buffered bytes are returned and skipped, and when the counter is right; in every case the value is stream data from right after the length |
| `Xdr.Writer.Int` | samples/nodejs/srp-handshake.js:129-129 | appends the encoding of a signed 32-bit value and refuses any other |
| `Xdr.Writer.Opaque` | samples/nodejs/srp-handshake.js:130-134 | appends length, data and padding |
| `Xdr.OpaqueBytes` | samples/nodejs/srp-handshake.js:130-134 | the bytes of an opaque: four length bytes, most significant first, the data, and zeros up to a multiple of four |
| `Bytes.IntDigits` | samples/nodejs/srp-handshake.js:129-129 | an integer is its four two's complement bytes, most significant first |
| `Xdr.Writer.Buf` | samples/nodejs/srp-handshake.js:136-136 | the concatenation of what was written |
| `Transport.WriteFields` | samples/nodejs/srp-handshake.js:127-137 | writing fields appends their encoding |
| `Transport.ReadFields` | samples/nodejs/srp-handshake.js:149-161 | awaited reads return the fields on the stream and leave the rest, with the counter right |
| `Transport.Transmit` | samples/nodejs/srp-handshake.js:127-162 | whatever fields go through `Writer`, in clear or enciphered, and however the bytes are cut into data events, the reader returns them, leaves exactly the rest and keeps its counter right |
| `Xdr.ParseEncoded` | samples/nodejs/srp-handshake.js:127-162 | reading the kinds that were written returns the fields written and exactly the bytes that follow |
| `Xdr.ProperPrefixIncomplete` | samples/nodejs/srp-handshake.js:127-162 | no proper prefix of a packet reads as a whole packet |
| `Xdr.Encode` | samples/nodejs/srp-handshake.js:129-136 | every packet is a multiple of four bytes long |
| `Arc4Cipher.Arc4.constructor` | samples/nodejs/srp-handshake.js:106-113 | the in-place key schedule produces the scheduled state, for every key, the empty one included |
| `Arc4Cipher.Arc4.Transform` | samples/nodejs/srp-handshake.js:114-123 | output byte k is input byte k xor keystream byte k, and the state advances by the number of bytes |
| `Arc4Cipher.Arc4.NextKeyByte` | samples/nodejs/srp-handshake.js:117-120 | both indices, the exchange in the table, and the keystream byte at the sum of the two exchanged entries |
| `Arc4Cipher.KnownAnswer` | samples/nodejs/srp-handshake.js:105-124 | the key 0, 0, 255, 254, ..., 2 turns three zero bytes into 2, 5, 7 |
| `Arc4Cipher.IdentityKeystream` | samples/nodejs/srp-handshake.js:116-120 | from the identity table the keystream starts 2, 5, 7 |
| `Arc4Cipher.StillSchedule` | samples/nodejs/srp-handshake.js:106-113 | that key leaves the table the identity through every round of the schedule |
| `Arc4Cipher.KeyTwice` | samples/nodejs/srp-handshake.js:108-112 | a key written twice schedules as written once, round by round |
| `Arc4Cipher.ScheduleRounds` | samples/nodejs/srp-handshake.js:106-113 | the schedule starts from 0..255 and each round exchanges the next entry with the one at the running sum of keys and entries |
| `Arc4Cipher.OneIsPassedAlong` | samples/nodejs/srp-handshake.js:116-120 | a one under the second index just ahead of the first stays there for ever |
| `Bytes.XorBitwise` | samples/nodejs/srp-handshake.js:120-120 | every bit of an exclusive or is one exactly where the two bits differ |
| `Arc4Cipher.CiphersInvert` | samples/nodejs/srp-handshake.js:101-124 | two ciphers with one key invert each other for every pair of chunkings |
| `Arc4Cipher.TransformSplits` | samples/nodejs/srp-handshake.js:114-123 | transforming x then y is transforming x + y |
| `Arc4Cipher.ChunkingIrrelevant` | samples/nodejs/srp-handshake.js:114-123 | one call per chunk gives the bytes of one call on the whole |
| `Arc4Cipher.AfterAdds` | samples/nodejs/srp-handshake.js:114-123 | the state depends only on the start and the total byte count |
| `Arc4Cipher.TableStaysPermutation` | samples/nodejs/srp-handshake.js:106-123 | after key scheduling and any inputs the table is a permutation of 0..255 |
| `Modular.ModPow` | samples/nodejs/srp-handshake.js:55-63 | for every base, every exponent and every modulus above one the result is the power's remainder (1 for a negative exponent) |
| `Modular.Mod` | samples/nodejs/srp-handshake.js:53-53 | the non-negative remainder, whatever the sign |
| `Srp.ClientProof` | samples/nodejs/srp-handshake.js:72-99 | u, x, S, K and M are the hashes and mathematical powers of the protocol |
| `Srp.ServerAccepts` | samples/nodejs/srp-handshake.js:72-99 | a server that hashes the protocol's parts itself and raises A * v^u to its private key arrives at the client's secret and key, and its SHA-256 of n1, n2, salt, A, B and key, in this order, is the client's proof |
| `Srp.ProofParts` | samples/nodejs/srp-handshake.js:94-96 | what the proof is a hash of, part by part |
| `Srp.MultiplierParts` | samples/nodejs/srp-handshake.js:65-66 | k is the SHA-1 of N and the generator padded to 128 bytes, as section 2.6 of RFC 5054 has it |
| `Srp.UserHashParts` | samples/nodejs/srp-handshake.js:68-70 | x is the SHA-1 of the salt and the SHA-1 of user name, colon and password, as section 3 of RFC 2945 has it |
| `Srp.ScrambleParts` | samples/nodejs/srp-handshake.js:73-75 | u is the SHA-1 of A and B in minimal bytes |
| `Srp.ScramblePadded` | samples/nodejs/srp-handshake.js:73-75 | for full-width A and B it is the SHA-1 of both padded to 128 bytes |
| `Srp.Agreement` | samples/nodejs/srp-handshake.js:77-80 | client and server secrets agree whenever a + u*x < N |
| `Srp.AgreementExactly` | samples/nodejs/srp-handshake.js:77-80 | for every odd modulus they agree if and only if a + u*x is below it or the dropped multiple is an exponent of one |
| `Srp.AgreementExactlyPrime` | samples/nodejs/srp-handshake.js:77-80 | for an odd prime they agree if and only if a + u*x is below it or 2^(b*q) leaves remainder one, q the number of times it exceeds the modulus |
| `Srp.AgreementAtN` | samples/nodejs/srp-handshake.js:77-80 | at the code's N, if prime, with a and u*x below it: they agree if and only if a + u*x < N or (B - k*v) mod N is 1 |
| `Srp.ExchangeAtN` | samples/nodejs/srp-handshake.js:72-80 | the same for the client's own k, u and x, which 160-bit digests keep small enough |
| `Srp.ReductionBreaksAgreement` | samples/nodejs/srp-handshake.js:77-80 | at that N the greatest private key and a server's private key of 1 disagree for all non-zero u*x below N |
| `Srp.SmallKeysAgree` | samples/nodejs/srp-handshake.js:68-80 | 160-bit hashes keep a + u*x below N for every a up to N - 2^320 |
| `Srp.KeysAgree` | samples/nodejs/srp-handshake.js:72-85 | under that condition both sides hash to the same session key |
| `Srp.PluginDataRoundTrip` | samples/nodejs/srp-handshake.js:245-254 | salt and public key are recovered from the acceptance's plugin data |
| `Srp.PluginDataBytes` | samples/nodejs/srp-handshake.js:251-254 | the same on the bytes: both lengths least significant byte first, the salt before the key |
| `Hex.CanonicalBytes` | samples/nodejs/srp-handshake.js:49-52 | `bufToBig(bigToBuf(b)) == b`, and the leading byte of a positive number is not zero |
| `Hex.ByteCount` | samples/nodejs/srp-handshake.js:50-51 | a number below 256^k takes at most k bytes, and k exactly from 256^(k-1) on |
| `Hex.UnpaddedIsPadded` | samples/nodejs/srp-handshake.js:73-75 | the unpadded preimage of u is PAD(A) followed by PAD(B) if and only if both are full-width |
| `Srp.PaddedPreimage` | samples/nodejs/srp-handshake.js:73-75 | for A, B < N both take at most 128 bytes, and the preimage of u is RFC 5054's if and only if both are at least 256^127 |
| `Hex.HexTextRoundTrip` | samples/nodejs/srp-handshake.js:50-50 | a number sent as hex text is read back |
| `Hex.HexCharacters` | samples/nodejs/srp-handshake.js:50-50 | hex text is lower case, and is read in either case and in no other characters |
| `Hex.BufToBigSnoc` | samples/nodejs/srp-handshake.js:52-52 | bytes are read most significant first |
| `Tlv.UserIdBlock` | samples/nodejs/srp-handshake.js:171-191 | the block is the tagged fields, the numbered parts and the trailer, in order |
| `Tlv.BlockRoundTrip` | samples/nodejs/srp-handshake.js:171-191 | parsing the block returns all fields in order if and only if the text fields are at most 255 bytes |
| `Tlv.BlockBytes` | samples/nodejs/srp-handshake.js:171-191 | the bytes of the block, with the protocol's tags |
| `Tlv.PartBytes` | samples/nodejs/srp-handshake.js:179-182 | each part is tag 7, length, number and the next 254 bytes, or what is left |
| `Tlv.ItemExactly` | samples/nodejs/srp-handshake.js:173-173 | a tagged value is read back if and only if it is at most 255 bytes long |
| `Tlv.PartsReassemble` | samples/nodejs/srp-handshake.js:179-182 | every part fits its length byte, carries its number modulo 256, and the parts put together are the data |
| `Tlv.SequenceExactly` | samples/nodejs/srp-handshake.js:179-182 | the sequence bytes number all parts if and only if the data is at most 256*254 bytes |
| `Blr.CodeIsParsed` | samples/csharp/Samples/Blr.cs:50-81 | the code of any tree, anywhere in any bytes, is parsed to that tree and the offset past it |
| `Blr.ParseIsCode` | samples/csharp/Samples/Blr.cs:50-81 | whatever is parsed is the code of a tree |
| `Blr.PrefixFree` | samples/nodejs/blr.js:38-39 | no code is a prefix of another |
| `Blr.RenderFaithful` | samples/cpp/blr.cpp:61-97 | the printed lines determine the tree |
| `Blr.JsDecodes` | samples/nodejs/blr.js:40-64 | on all bytes: an offset inside the buffer is returned if and only if a tree's code stands there, and then the tree is printed and the offset is just past it |
| `Blr.PyDecodes` | samples/python/blr.py:60-83 | on all bytes: no stop line and an offset inside the buffer if and only if a tree's code stands there, with the same tree and offset |
| `Blr.CppExpr` | samples/cpp/blr.cpp:62-97 | the cursor moves past the code of the tree that is printed; no stop line and no read past the end if and only if a tree's code stands there |
| `Blr.Reader.Expr` | samples/csharp/Samples/Blr.cs:50-81 | the same for the cursor field |
| `Blr.Reader.U16` | samples/csharp/Samples/Blr.cs:46-46 | the little-endian value at the cursor, which moves by two, or an exception |
| `Blr.DecodersAgree` | samples/python/blr.py:64-83 | on the code of any tree with any trailing bytes the grammar and both offset-returning decoders give the same tree and offset |
| `Blr.KnownAnswer` | samples/nodejs/blr.js:40-64 | sixteen bytes of nested code and the five lines they print, for all names, texts and character sets of these lengths |
| `Blr.Reader.Messages` | samples/csharp/Samples/Blr.cs:84-102 | every well-formed list of declarations over the six types is printed and passed exactly |
| `Blr.Reader.ReadProgram` | samples/csharp/Samples/Blr.cs:104-108 | head, messages and tail consume every byte of any message program and recover its declarations |
| `BlrMessages.MessagesAreParsed` | samples/csharp/Samples/Blr.cs:84-102 | any list of messages is recovered, up to whatever follows it |
| `BlrMessages.KnownCodes` | samples/csharp/Samples/Blr.cs:84-102 | the bytes of the six field types |
| `BlrMessages.KnownProgram` | samples/csharp/Samples/Blr.cs:104-108 | the bytes of a program with one message |
| `Bytes.U16LittleEndian` | samples/csharp/Samples/Blr.cs:46-46 | two-byte numbers are read and written least significant byte first |
| `BlrMessages.PlainMessages` | samples/cpp/blr.cpp:136-157 | with only short and text2 fields the same list and offset result, and a read past the end if and only if no byte follows the last message |
| `BlrMessages.ReadPlain` | samples/cpp/blr.cpp:136-157 | the code of any such list, followed by anything that is not a message, is read without a fault if and only if something follows |
| `BlrMessages.StopsAfterMessage` | samples/python/blr.py:107-121 | a four-byte program, well formed and plain, that ends right after its message |
| `BlrMessages.PlainFields` | samples/python/blr.py:112-121 | the field loop prints exactly the fields of the grammar, if they are all short or text2 |
| `Events.EventsConserved` | samples/events_demo.cpp:50-93 | over every interleaving: the sum of returned counts is the consumed baseline up to whole 32-bit words and never exceeds the committed posts; open and rolled-back posts are not in it; each interest is answered at most once |
| `Events.OnlyCommittedCount` | samples/events_demo.cpp:176-205 | after every run the engine's count is the number of posts of those transactions that the list of actions commits, computed from the list alone, and the waits together returned no more; rolled-back and open posts never count |
| `Events.NoCommitNoCount` | samples/events_demo.cpp:176-187 | a run without a commit counts nothing, whatever is posted and rolled back |
| `Events.ExactBelowWrap` | samples/events_demo.cpp:64-76 | below 2^32 posts the returned counts add up exactly |
| `Events.WaitExactly` | samples/events_demo.cpp:72-75 | one wait returns the exact difference if and only if it spans fewer than 2^32 posts |
| `Events.NothingOverlooked` | samples/events_demo.cpp:50-76 | if the interest is never queued again while a delivery is in flight, half copied or fired and not waited for, no delivery is left unannounced; a still armed interest may be queued again |
| `Events.RequeueCanOverlook` | samples/events_demo.cpp:50-93 | from any state with such a delivery, queueing again has a continuation without another requeue that ends with a delivery uncounted, none in flight and no interest armed |
| `Events.RequeueHarmlessExactly` | samples/events_demo.cpp:50-93 | queueing again is harmless, at every point of every continuation, if and only if there is no such delivery |
| `Events.DisciplineExactly` | samples/events_demo.cpp:50-93 | over every run: each requeue is harmless if and only if none happened with such a delivery pending |
| `Events.CountBeforeRequeue` | samples/events_demo.cpp:50-76 | a listener that queues again only after a wait that counted since the last time never overlooks a delivery |
| `Events.TimeoutDoesNotTell` | samples/events_demo.cpp:64-70 | while the interest is armed, a delivery that changes nothing the listener thread can see makes the same requeue harmful |
| `Events.CanBeOverlooked` | samples/events_demo.cpp:162-167 | the sample's own order, a wait that times out and then a requeue, has a run that ends with a delivery which nothing will announce |
| `Events.NothingLostForGood` | samples/events_demo.cpp:50-93 | from every reachable state some continuation makes the counts returned in all those of every committed post, up to whole 32-bit words |
| `Events.Listener.Wait` | samples/events_demo.cpp:64-76 | 0 without a delivery in time; otherwise the last delivery counted against the baseline, which it replaces |
| `Events.Listener.EventCallback` | samples/events_demo.cpp:88-93 | copies a delivery that fits, and counts the call |
| `Events.Listener.Requeue` | samples/events_demo.cpp:53-61 | arms one interest and keeps the baseline |
| `Events.Listener.Shutdown` | samples/events_demo.cpp:78-85 | withdraws the interest |
| `Events.DeliveredConserves` | samples/fb-cpp/events.cpp:34-49 | over any calls taken + pending = added up to whole 32-bit words, exactly if and only if the count never wrapped |
| `Events.DeliveredExactly` | samples/fb-cpp/events.cpp:34-49 | below 2^32 added in all, taken + pending is exactly what was added |
| `Events.Delivered.Add` | samples/fb-cpp/events.cpp:34-39 | adds modulo 2^32 |
| `Events.Delivered.Take` | samples/fb-cpp/events.cpp:42-49 | waits until the count is non-zero or the time is up, returns it and leaves none: zero only if nothing arrived that made it non-zero; on the tally this is the additions followed by one take |
| `Braces.StripBraces` | tools/grammar_to_mermaid.py:46-57 | the scanner returns the stripped text |
| `Braces.StrippedIsSelection` | tools/grammar_to_mermaid.py:46-57 | the stripped text is exactly the non-brace characters at depth 0, in order |
| `Braces.DepthIsSurplus` | tools/grammar_to_mermaid.py:50-54 | the depth is the greatest surplus of opening over closing braces that any ending of the text has |
| `Braces.KeptByCounting` | tools/grammar_to_mermaid.py:50-56 | a character is kept if and only if it is no brace and no stretch that ends before it opens more than it closes |
| `Braces.BlockRemoved` | tools/grammar_to_mermaid.py:46-57 | a balanced block disappears with all blocks in it, and the text around it is stripped as if it were not there |
| `Braces.StripDistributes` | tools/grammar_to_mermaid.py:46-57 | after a prefix with all blocks closed stripping starts afresh |
| `Braces.StripDistributesOnlyBalanced` | tools/grammar_to_mermaid.py:46-57 | and after no other prefix |
| `Braces.StripIdempotent` | tools/grammar_to_mermaid.py:46-57 | stripping twice is stripping once |
| `Grammar.AddMatch` | tools/grammar_to_mermaid.py:93-96 | the names of one match are appended to its rule, each once |
| `Grammar.FilterRules` | tools/grammar_to_mermaid.py:98-101 | every list keeps its defined names other than the rule itself |
| `Grammar.BuildRules` | tools/grammar_to_mermaid.py:87-101 | the dict groups all matches by left-hand side, deduplicated and filtered |
| `Grammar.RuleGraph` | tools/grammar_to_mermaid.py:87-101 | the rule map is closed, duplicate-free and self-loop-free, has an edge exactly where another defined rule is mentioned, and keeps first-occurrence order |
| `Grammar.GraphOfMatches` | tools/grammar_to_mermaid.py:87-101 | by the matches alone: which names are rules, and that one refers to another exactly if some match of it mentions the other |
| `Search.ExpandFront` | tools/grammar_to_mermaid.py:116-120 | one expansion records all edges of the front and enqueues what is new at true distance |
| `Search.Reachable` | tools/grammar_to_mermaid.py:105-121 | terminates; the distances are the shortest; the edges are exactly those that start nearer than the depth, each once |
| `Search.SearchIsExact` | tools/grammar_to_mermaid.py:105-121 | a finished search has every distance up to the depth and has expanded exactly the nearer names, once each |
| `Search.EdgesAreExact` | tools/grammar_to_mermaid.py:109-121 | the edge list of a finished search is exact and free of duplicates |
| `Search.FoundInAll` | tools/grammar_to_mermaid.py:124-125 | every edge found is an edge of the full graph |
| `Search.AllEdgesExact` | tools/grammar_to_mermaid.py:124-125 | the full list holds every reference of every rule, once, and nothing else |
| `Search.DeeperFindsMore` | tools/grammar_to_mermaid.py:105-121 | a deeper search finds everything a shallower one does |
| `Clumplets.Lookup` | samples/cpp/blobs.cpp:19-36 | for every list, and whatever follows its terminator, nothing at all included: the first match's first four bytes, little-endian, or -1, without a read past the terminator |
| `Clumplets.InfoValue` | samples/cpp/blobs.cpp:19-36 | on any bytes the loop computes the scan, and reads past the buffer exactly where the scan has no answer; a walkable list is answered from its first match |
| `Clumplets.WalkedAnswer` | samples/cpp/blobs.cpp:19-36 | wherever a list is walkable the scan's answer is the list's |
| `Clumplets.FirstMatchDecides` | samples/cpp/blobs.cpp:26-34 | whole clumplets are passed until one matches, and the first match decides, whatever follows |
| `Clumplets.CutShort` | samples/cpp/blobs.cpp:21-34 | for a buffer that ends inside a clumplet, the exact condition under which no byte past it is read, and the answer then is that of the whole list |
| `Clumplets.KnownAnswers` | samples/cpp/blobs.cpp:19-36 | buffers of two- and five-byte values, of an item behind another and of a missing item, with their answers, whatever follows |
| `Clumplets.EndsInside` | samples/cpp/blobs.cpp:21-34 | every buffer that is not a walkable list is whole clumplets followed by the start of another, so that the two cases are all |
| `Clumplets.ListIsWalked` | samples/cpp/blobs.cpp:18-36 | every well-formed list is walked to its terminator, whatever follows |
| `Clumplets.AnswerIsFirst` | samples/cpp/blobs.cpp:26-35 | the answer is the value at the least matching index, and -1 exactly without a match |

## Left out

- The Firebird engine and every attach, query, transaction and service call: they are behind client libraries that are not in the repository.
- Sockets, promises, timers, threads and file I/O: a data event, a callback half and a wait half are single steps; a tear of a buffer copied while it is read is not modelled.
- The digests, the random private key and the primality of the fixed N: `AgreementExactlyPrime` and the lemmas at N take primality as a hypothesis.
- Text encodings: names, salts and passwords are bytes; Python's `decode` errors and whitespace that `BigInt` would trim from hex text are not modelled.
- Text as it is printed: C++'s `%.*s` stops at a NUL byte and C#'s ASCII decoder replaces bytes above 127, so the console shows the lines, which determine the tree (`Blr.RenderFaithful`), only up to this.
- Replies.AwaitResponse: like `ReadResponse`, does not say what it returns once a negative length occurs.
- Replies.AwaitAcceptance: does not say what it returns once a negative length occurs, for the same reason.
- Replies.ReadResponse: does not say what it returns once a negative length occurs; `Xdr.Reader.Opaque` says what that one read does, and how the loop then goes on depends on how the bytes arrived.
- Clumplets.InfoValue: reports a read past the buffer as `ok == false`; what C++ does then is undefined.
- Blr.CppExpr: reports a read past the end as `ok == false`; what C++ does then is undefined.
- Events.Listener.Wait: runs its counting and reset without interruption; the interleavings are in the step system.
- The regular expressions of `parse_grammar`: construction starts from the sequence of matches.
- The order in which a search meets names of equal distance is not stated.
- Mermaid output, hex dumps, tables and console wording; the fb-cpp copies of the BLR decoder and the info scanner, which repeat the same code.
