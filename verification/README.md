# Lastro wire protocol and receipts: a verified model

Lastro mints and verifies *receipts*: signed records of a command that was run and what it
printed. Its `wire` package speaks the Bolina protocol: certificates, spans, envelopes,
intents, grants, the Noise_IK handshake, and the session that follows it. This project
models that package and the receipt-minting part of `cmd/lastro`, and proves what they are
for. `dafny verify dfyconfig.toml` checks the whole project.

## How it is built

**Crypto.** `Crypto.suite` is an arbitrary value of the type `LawfulSuite`. The type carries
only functional laws: digest lengths, Diffie-Hellman commutes, Open inverts Seal exactly and
adds 16 bytes, Verify accepts Sign. `DEGENERATE` shows the laws are consistent. A globally
injective fixed-length hash would not be, so each result that needs the absence of a
collision takes it as a hypothesis on the inputs concerned (`NoCollision`).

**Codec.** `Layout` treats a wire structure as a list of fields and proves the codec laws once
for every layout. The `Cursor` class reads as the Go cursor does; a ghost *plan* ties each
reader to the layout, so each parser is proved to compute what its layout prescribes, with
the same error at the same place. Encoders append step by step and are proved equal to the
layout's encoding.

**Handshake.** `Handshake` defines section 5.3 of the Noise Protocol Framework (revision 34)
for arbitrary token lists and proves lock step by induction over the list, one token at a
time. `NoiseIK` instantiates it. `Parties` holds the Initiator and Responder objects, which
write into byte arrays at the source's offsets and are proved to do what the token lists
prescribe. `Discipline` and `KeyChain` prove the nonce, key and transcript laws for every
sequence of symmetric-state operations. `Operations` gives the operation list of any token
list, on either side, and proves that running it is what the party does; `IKTranscript`
reads off the lists of Noise_IK, and `Session` carries the nonce law on to the packets.
`Refusals` settles which refused messages leave a party as it was.

**Authority.** `Validation` and `GrantChain` hold certificate validation and the ordered grant
checks, with 64-bit wrap-around written out. **Receipts.** `CaptureMutex` is a step machine of
two goroutines and a lock, shown to refine the atomic `Capture`; `Trailers`, `Resources` and
`Receipts` cover the rest of `cmdRun`.

Where code and prose disagree, the model follows the code:

- Nonces are big-endian, where section 12.3 of Noise uses little-endian for ChaChaPoly.
- The encoders are described as the exact inverse of the parsers, but `BuildSignedEnvelope`
  does not bound the number of parents. `BuiltEnvelopeParses` proves the round trip holds if
  and only if there are at most four; above that the parser answers oversize.
- mac1 is keyed from a public key, so a message may pass it and still be refused. Such a
  message is not harmless: under the absence of collisions a party is unchanged by a sequence
  of messages if and only if each failed the length or mac1 check (`ResponderFreshIff`,
  `InitiatorFreshIff`), and every framed message 1 or 2, whatever its body, moves the state
  (`ForgedInitiationMoves`, `ForgedResponseMoves`).
- Clock-free validation accepts a privileged certificate whose window is inverted if and only
  if everything else passes and the window wraps almost all the way round (`InvertedWindow`);
  `InvertedAccepted` mints one. The clocked check refuses it at every time.
- The expiry arithmetic can overflow. It refuses more than BE-GRANT-05 asks, never less, and
  agrees with it for all grants and times if and only if the two limits show no overflow
  (`ExpiryExactIff`).
- A negative capture cap refuses any write, even an empty one; `AllOrNothing` states this
  exactly.

Certificates handed to `CAPairs` and chain validation must hold at least as many CA pairs as
their count says (`PairsHeld`), and those handed to the scope walk as many scope ids
(`ScopesHeld`): with shorter lists the Go code slices out of range. Every certificate the
parser accepts holds exactly as many (`CertInIff`).

## Model

| member | source | states |
|---|---|---|
| `Handshake.TokenInStep` | wire/noise.go:244-272 | for any legal token, what one side writes the other reads, the rest of the message is left alone, and both sides have equal symmetric states and matching key knowledge afterwards |
| `Handshake.LockStep` | wire/noise.go:226-419 | for every legal token list, a message that could be written is read back whole, its payload is recovered and the two parties end in step |
| `NoiseIK.InitiationAgrees` | wire/noise.go:232-281 | message 1, framed and delivered with anything behind it in the buffer, passes length and mac1, decrypts, and leaves the two sides in step with the initiator's static key known to the responder |
| `NoiseIK.ResponseAgrees` | wire/noise.go:378-419 | message 2 likewise, for any indices and cookie |
| `NoiseIK.HandshakeAgrees` | wire/noise.go:226-425 | for all key pairs, ephemerals, timestamps, indices and cookies: message 1 can be written if and only if the initiator's own key operations meet no low-order point, message 2 if and only if the responder's do not either; every read then succeeds, RemoteStaticPub is the initiator's static key, symmetric states are equal after each message, H is equal and send and receive keys cross |
| `NoiseIK.InitiatesIff` | wire/noise.go:239-272 | message 1 is written if and only if X25519 of the ephemeral with the base point, and es and ss, give no low-order point; that is the only failure |
| `NoiseIK.RespondsIff` | wire/noise.go:384-413 | message 2 is written if and only if X25519 of the ephemeral with the base point, and ee and se, give no low-order point; that is the only failure |
| `NoiseIK.DirectionsDiffer` | wire/noise_test.go:90-93 | the two transport keys of a session differ unless the hash collides on the inputs of the final split |
| `Refusals.RejectedInitiationsHarmless` | wire/noise.go:342-350 | any finite sequence of messages failing the length or mac1 check leaves the responder as it was, and the next message gets the answer it would have got |
| `Refusals.RejectedResponsesHarmless` | wire/noise.go:285-293 | the same for the initiator |
| `Refusals.ResponderFreshIff` | wire/noise.go:342-376 | a fresh responder is unchanged by any sequence of messages if and only if every one failed the length or mac1 check, unless the hash collides on its transcript |
| `Refusals.ForgedInitiationMoves` | wire/noise.go:196-209 | every framed message 1, whatever its 104 bytes of body, passes mac1 and moves a fresh responder |
| `Refusals.InitiatorFreshIff` | wire/noise.go:285-313 | an initiator that has sent message 1 is unchanged by any sequence of messages if and only if every one failed the length or mac1 check, unless the hash collides on its transcript |
| `Refusals.ForgedResponseMoves` | wire/noise.go:196-209 | every framed message 2, whatever its 48 bytes of body, passes mac1 and moves the waiting initiator |
| `NoiseIK.IK1Written` | wire/noise.go:239-272 | message 1 is e, es, s, ss and the timestamp in that order, stopping at the first low-order point with the state and the bytes reached |
| `NoiseIK.IK2Written` | wire/noise.go:384-413 | message 2 is e, ee, se and an empty payload in that order, stopping at the first low-order point with the state and the bytes reached |
| `NoiseIK.IK1Read` | wire/noise.go:351-375 | reading message 1 takes its parts at fixed places and stops, with the state reached, at the first token that fails |
| `NoiseIK.IK2Read` | wire/noise.go:294-312 | the same for message 2 |
| `NoiseIK.Message1Opens` | wire/noise.go:273-279 | a framed message 1 passes its own length and mac1 checks, and the reader finds the body where the writer put it |
| `NoiseIK.Message2Opens` | wire/noise.go:390-417 | the same for message 2 |
| `NoiseIK.Message1Bytes` | wire/noise.go:273-279 | message 1 by position: type, reserved bytes, sender index, body, mac1 over everything before it, mac2 |
| `NoiseIK.Message2Bytes` | wire/noise.go:390-417 | message 2 by position: type, reserved bytes, sender index before receiver index, body, mac1 over everything before it, mac2 |
| `NoiseIK.Mac1Binds` | wire/noise.go:196-209 | equal macs mean the same signing key and the same bytes, unless the keyed hash or the hash of the key collides |
| `Parties.Initiator.constructor` | wire/noise.go:226-230 | a fresh initiator has hashed the protocol name and the responder's static key |
| `Parties.Initiator.WriteInitiation` | wire/noise.go:235-281 | the object's new state and all 144 bytes of the buffer are those of the token list, whatever the buffer held; bytes behind the message are untouched; a short buffer changes nothing; a failed write leaves exactly the parts written before it |
| `Parties.Initiator.WriteInitiationBody` | wire/noise.go:239-272 | the three in-place writes at offsets 8, 40 and 88 never overlap and together are the message body |
| `Parties.Initiator.ReadResponse` | wire/noise.go:285-313 | state and verdict are those of reading e, ee, se after the length and mac1 checks |
| `Parties.Initiator.Finalize` | wire/noise.go:316-319 | sends under the first split key, receives under the second |
| `Parties.Responder.constructor` | wire/noise.go:333-337 | a fresh responder has hashed the protocol name and its own static key |
| `Parties.Responder.ReadInitiation` | wire/noise.go:342-376 | state and verdict are those of reading e, es, s, ss after the length and mac1 checks |
| `Parties.Responder.WriteResponse` | wire/noise.go:380-419 | new state and all 92 bytes are those of the token list; bytes behind the message are untouched; a short buffer changes nothing; a failed write leaves nothing, or the header and the parts written before it |
| `Parties.Responder.Finalize` | wire/noise.go:422-425 | sends under the second split key, receives under the first |
| `Parties.FillMacs` | wire/noise.go:277-279 | mac1 covers exactly the bytes before it, and neither mac write disturbs them |
| `Parties.RunHandshake` | wire/noise_test.go:38-94 | two live objects exchanging buffers complete if and only if no key operation meets a low-order point, and then hold exactly the keys of the handshake on values: crossed, with one H, and the initiator's static key at the responder |
| `Symmetric.HmacBlake2s` | wire/noise.go:80-97 | the padding loops compute HMAC of section 2 of RFC 2104 over BLAKE2s |
| `Symmetric.PadBytes` | wire/noise.go:89-93 | a pad is the key byte by byte, each xor the pad constant, and past a short key the constant alone |
| `Symmetric.LongKeyHashed` | wire/noise.go:82-88 | a key longer than a block is hashed first |
| `Symmetric.XorBit` | wire/noise.go:91-92 | bit i of the xor is set when bit i of exactly one operand is |
| `Symmetric.Hkdf2Blake2s` | wire/noise.go:104-109 | three HMAC calls give the two HKDF outputs |
| `Symmetric.HkdfOutputsDiffer` | wire/noise.go:103-109 | the two outputs differ unless the hash collides on the four inputs hashed for them |
| `Symmetric.NonceInjective` | wire/noise.go:72-76 | different counters give different nonces, over all 64-bit counters |
| `Symmetric.NonceIsCounter` | wire/noise.go:70-76 | the nonce is the counter itself as a 12-byte big-endian number |
| `Symmetric.DecryptsEncrypted` | wire/noise.go:145-179 | a peer in the same symmetric state recovers the plaintext and ends in the same state, with or without a key |
| `Symmetric.SymmetricState.MixHash` | wire/noise.go:127-129 | only h changes, to the hash of h followed by the data |
| `Symmetric.SymmetricState.MixKey` | wire/noise.go:131-137 | ck and k become the HKDF outputs and the nonce restarts; h is kept |
| `Symmetric.SymmetricState.EncryptAndHash` | wire/noise.go:145-159 | ciphertext and whole new state, nonce advanced on 64 bits |
| `Symmetric.SymmetricState.DecryptAndHash` | wire/noise.go:162-179 | plaintext and whole new state; a failed open changes nothing |
| `Symmetric.SymmetricState.MixDh` | wire/noise.go:186-194 | a Diffie-Hellman token mixes the shared secret; a low-order point changes nothing |
| `Discipline.RunDisciplined` | wire/noise.go:127-179 | after every sequence of operations, each AEAD use carries the number of earlier uses of its key, modulo 2^64 |
| `Discipline.NoncesIncrease` | wire/noise.go:131-179 | as long as no key is used more than 2^64 times, (epoch, n) strictly increases over the AEAD uses of any run |
| `Discipline.NoncesFreshIff` | wire/noise.go:131-179 | no (epoch, n) pair repeats over any run if and only if no epoch has more than 2^64 uses |
| `KeyChain.CipherKeysDistinct` | wire/noise.go:103-137 | no cipher key of a run of mixKey calls ever comes back, unless the hash collides on an outer HMAC input of the chain |
| `Discipline.RunKeyed` | wire/noise.go:131-137 | after every sequence of operations ck, k and every AEAD call's key are those of the chain of mixed-in secrets |
| `Discipline.CallsFreshIff` | wire/noise.go:72-179 | over any run no key and nonce of the calls RunMade speaks of occur twice if and only if no key is used more than 2^64 times, unless the hash collides in the key chain |
| `Session.SplitKeysNew` | wire/noise.go:181-184 | neither key of the final split is a cipher key the run ever held, unless the hash collides in the key chain |
| `Session.PacketIsCall` | wire/transport.go:34-36 | the calls counted for packets are those SealTransport makes: that key, that counter's nonce, the packet's own header |
| `Session.SessionFreshIff` | wire/noise.go:70-76 | over any run and all packets after it, no key and nonce, as bytes, reach the AEAD twice if and only if neither direction repeats a counter and no handshake key is used more than 2^64 times, unless the hash collides |
| `Session.IKSessionFreshIff` | wire/transport.go:25-37 | for either side of a completed Noise_IK handshake, its three calls and all packets of both directions share no key and nonce if and only if neither direction repeats a counter |
| `Discipline.HashIsFold` | wire/noise.go:127-129 | h is the chain of hashes of everything mixed in, in order, over any run |
| `Discipline.RunMade` | wire/noise.go:143-179 | over any run every recorded key, nonce and plaintext are those of the AEAD call that made the ciphertext hashed next, with the hash chain so far as associated data |
| `Discipline.RecordsItsText` | wire/noise.go:145-179 | what is recorded is the caller's plaintext, and opening that ciphertext in the same state records the same |
| `Discipline.TranscriptBinds` | wire/noise.go:127-129 | equal final hashes of equally many steps mean equal inputs at every step, unless the hash collides on one of them |
| `Discipline.LengthBinds` | wire/noise.go:120-129 | transcripts of any lengths with equal final hashes are equal, unless the hash collides or an input is a single byte |
| `Operations.WriteRuns` | wire/noise.go:226-281 | for every token list, finished or not, writing it ends in the state its operation list gives; a finished message made exactly the AEAD calls, rekeyings and hashed pieces the list prescribes |
| `Operations.ReadRuns` | wire/noise.go:333-376 | the same for reading, where a failed open is an operation that changes nothing |
| `IKTranscript.InitiatorTranscript` | wire/noise.go:226-319 | the operations of any completed initiator end in its own symmetric state, having mixed in exactly the Diffie-Hellman results es, ss, ee and se of its keys, made exactly three AEAD calls, each at n = 0 under its own key, on its static key, its timestamp and nothing, and hashed exactly six inputs; Finalize hands out the chaining key of one more step to send, the cipher key to receive, and as H the hash chain of the six inputs |
| `IKTranscript.ResponderTranscript` | wire/noise.go:333-425 | the same for any completed responder, from its own keys and the static key it recovered, with the two session keys crossed |
| `IKTranscript.FinalizeHandsOut` | wire/noise.go:181-184 | from any run, which split key a side sends under, which it receives under, and that H is the hash chain of everything hashed |
| `IKTranscript.SameHashSameConversation` | wire/noise.go:61-68 | two completed runs, on either side, whose Finalize hands out one H had the same responder key and the same handshake bytes, unless the hash collides |
| `Transport.SealTransport` | wire/transport.go:25-37 | the header filled in place and the payload sealed under it |
| `Transport.OpensSealed` | wire/transport.go:39-60 | opening undoes sealing and returns the counter, for every index and counter |
| `Transport.OpensOnlySealed` | wire/transport.go:42-60 | whatever opens was sealed under its own header; with zero reserved bytes it is a packet SealTransport builds |
| `Transport.PacketBytes` | wire/transport.go:21-37 | a packet by position: type 4, reserved bytes, index, counter, and the payload sealed under the nonce of that counter with the header as associated data |
| `Transport.OpenVerdict` | wire/transport.go:42-60 | opening gives exactly what was sealed under the packet's own counter and header, whatever its reserved bytes; the refusals in order are too short, wrong type, not sealed so |
| `Transport.BuildBindingFrame` | wire/transport.go:66-75 | the three writes into the frame buffer give length, certificate and signature |
| `Transport.BindingFrameSplits` | wire/transport.go:66-88 | a frame splits back into its parts if and only if the certificate length fits 16 bits; otherwise it is a length mismatch |
| `Transport.FrameIff` | wire/transport.go:77-88 | a frame parses into a certificate and a signature if and only if it is their length-prefixed concatenation |
| `Transport.VerifyBindingFrame` | wire/transport.go:95-111 | returns a certificate that is parsed from the frame, chain-valid and whose key signed this H; refuses only if no certificate is, with the error of the first step that fails |
| `Transport.BindsOne` | wire/transport.go:90-95 | a frame can bind only one certificate |
| `Transport.BindsIff` | wire/transport.go:90-111 | a frame binds a certificate if and only if it is the certificate's bytes and its key's signature under the binding tag over this H, and the chain accepts the certificate |
| `Transport.FrameBinds` | wire/transport.go:62-111 | a frame built from any accepted certificate and its key verifies against the same H; the 16-bit length never truncates |
| `Transport.FrameBindsOneSession` | wire/transport.go:62-75 | a frame made for one H binds under that H alone, unless its signature verifies over something else |
| `Transport.SessionBinds` | wire/transport.go:25-111 | whenever no key operation meets a low-order point the handshake completes, and either side's binding frame, sealed with any index and counter, opens at the peer with that counter and verifies to the same certificate |
| `Cursors.Cursor.Need` | wire/cursor.go:37-42 | truncated exactly when fewer bytes remain |
| `Cursors.Cursor.U8` | wire/cursor.go:44-51 | reads a one-byte number, or fails as the layout does |
| `Cursors.Cursor.U16be` | wire/cursor.go:53-60 | reads a two-byte big-endian number |
| `Cursors.Cursor.U32be` | wire/cursor.go:62-70 | reads a four-byte big-endian number |
| `Cursors.Cursor.U64be` | wire/cursor.go:72-82 | the shift-and-or loop on 64-bit words reads an eight-byte big-endian number, losing no bits |
| `Cursors.Cursor.Take` | wire/cursor.go:85-92 | reads exactly n bytes and advances by n, or leaves the position |
| `Cursors.Cursor.Field16` | wire/cursor.go:96-105 | a length above the maximum is oversize, never a truncation |
| `Cursors.Cursor.Field32` | wire/envelope.go:165-174 | the same with a four-byte length |
| `Layout.DecodeIff` | wire/encode.go:9-11 | for every layout: decoding gives these values if and only if they are in bounds and the input is their encoding |
| `Layout.DecodeNeighbours` | wire/cursor.go:37-105 | for every layout and accepted input: each strict prefix is truncated, each strict extension has trailing bytes |
| `Layout.ReadAllIff` | wire/span.go:60-63 | reading the front of an input finds exactly the structure encoded there and leaves the rest |
| `Layout.CountOversize` | wire/cursor.go:94-104 | a count above its maximum is oversize, whatever follows |
| `Layout.PairCountMalformed` | wire/cert.go:107-109 | no CA pairs, or more than four, is malformed, whatever follows |
| `Layout.PairsOutOfOrder` | wire/cert.go:117-120 | a complete pair list out of order, a repeated key included, is malformed |
| `Octets.BEDigit` | wire/cursor.go:53-82 | numbers are written most significant byte first |
| `Octets.LessIff` | wire/cert.go:117-118 | the key order is lexicographic: decided at the first difference, a prefix first |
| `Octets.LessTotal` | wire/cert.go:117-118 | of two different keys one comes first |
| `Spans.ReadSpan` | wire/span.go:63-124 | from any cursor position: the span there with its own TBS, or the layout's error |
| `Spans.ParseSpan` | wire/span.go:48-58 | the span that is the whole input, or the layout's error |
| `Spans.SpanNeighbours` | wire/span.go:48-58 | of an accepted span every strict prefix is refused as truncated and every strict extension as having trailing bytes |
| `Spans.EncodeSpanTBS` | wire/encode.go:31-47 | the appends give the layout's encoding; only an oversized resource is refused |
| `Spans.BuildSpan` | wire/encode.go:51-58 | the TBS followed by the executor's signature over it |
| `Spans.SpanInIff` | wire/span.go:63-124 | a span is read in front of an input if and only if its re-encoded TBS and its signature stand there |
| `Spans.SpanBytes` | wire/encode.go:35-45 | a span's TBS byte for byte |
| `Spans.BuiltSpanParses` | wire/encode.go:49-58 | a built span parses back to its fields and verifies under the executor's key |
| `Spans.StreamSplits` | wire/span.go:60-124 | any concatenation of encoded spans reads back as those spans, each with its own TBS |
| `Spans.StreamUnique` | wire/span.go:60-124 | repeated reading can split an input in only one way |
| `Grants.ParseGrant` | wire/grant.go:32-84 | the grant that is the whole input, or the layout's error |
| `Grants.GrantNeighbours` | wire/grant.go:32-84 | of an accepted grant every strict prefix is refused as truncated and every strict extension as having trailing bytes |
| `Grants.EncodeGrantTBS` | wire/grant.go:99-114 | the appends give the layout's encoding; only an oversized resource is refused |
| `Grants.GrantInIff` | wire/grant.go:32-114 | a grant is accepted if and only if the input is its re-encoded TBS and its signature |
| `Grants.GrantBytes` | wire/grant.go:103-112 | a grant's TBS byte for byte |
| `Grants.GrantTbsDetermines` | wire/grant.go:32-114 | two parsed grants with the same TBS have the same fields |
| `Envelopes.ParseEnvelope` | wire/envelope.go:57-118 | the envelope that is the whole input, or the layout's error |
| `Envelopes.EnvelopeNeighbours` | wire/envelope.go:57-118 | of an accepted envelope every strict prefix is refused as truncated and every strict extension as having trailing bytes |
| `Envelopes.BuildSignedEnvelope` | wire/envelope.go:221-241 | succeeds exactly on well-sized fields, with the error told apart, and gives TBS and signature |
| `Envelopes.EnvelopeInIff` | wire/envelope.go:57-118 | an envelope is accepted if and only if it has at most four parents, is in bounds, and the input is its re-encoding |
| `Envelopes.EnvelopeBytes` | wire/envelope.go:228-237 | an envelope's TBS byte for byte |
| `Envelopes.EnvelopeSigVerdict` | wire/envelope.go:120-123 | an envelope's signature is checked under its own tag, over its own TBS, by its sender |
| `Envelopes.BuiltEnvelopeParses` | wire/envelope.go:217-241 | what the builder signs parses back if and only if it has at most four parents, is refused as oversize otherwise, and verifies under the sender's key |
| `Envelopes.TooManyParents` | wire/envelope.go:72-84 | with more than four parents the parser answers oversize whatever follows |
| `Envelopes.EnvelopeLength` | wire/envelope.go:25-30 | the exact length of every accepted envelope, always below MaxMessage |
| `Envelopes.ParseIntent` | wire/envelope.go:140-162 | the intent that is the whole input, or the layout's error |
| `Envelopes.IntentNeighbours` | wire/envelope.go:140-162 | of an accepted intent every strict prefix is refused as truncated and every strict extension as having trailing bytes |
| `Envelopes.EncodeIntentBody` | wire/envelope.go:246-259 | refuses exactly the out-of-bounds intents; the appends give the layout's encoding |
| `Envelopes.IntentRoundTrip` | wire/envelope.go:140-162 | an intent is parsed from exactly its encoding, and every encoded intent fits an envelope body |
| `Envelopes.IntentBytes` | wire/envelope.go:251-257 | an intent byte for byte |
| `Envelopes.ParseRefusal` | wire/envelope.go:190-209 | the refusal that is the whole input, or the layout's error |
| `Envelopes.RefusalNeighbours` | wire/envelope.go:190-209 | of an accepted refusal every strict prefix is refused as truncated and every strict extension as having trailing bytes |
| `Envelopes.RefusalInIff` | wire/envelope.go:176-209 | a refusal is accepted if and only if the input is its re-encoded TBS and its signature |
| `Envelopes.RefusalBytes` | wire/envelope.go:176-181 | a refusal's TBS byte for byte |
| `Certs.ParseCert` | wire/cert.go:60-144 | the certificate that is the whole input, or the layout's error |
| `Certs.CertNeighbours` | wire/cert.go:60-144 | of an accepted certificate every strict prefix is refused as truncated and every strict extension as having trailing bytes |
| `Certs.WalkCaPairs` | wire/cert.go:110-125 | the loop over prev accepts exactly the complete pair lists in strictly ascending key order, with the first error met |
| `Certs.CAPairs` | wire/cert.go:147-159 | the very pairs the parse loop checked, in order |
| `Certs.InSet` | wire/cert.go:177-184 | membership, both ways |
| `Certs.PairsVerdict` | wire/cert.go:161-164 | accepts if and only if every pair verifies and, when a set is given, every key is in it |
| `Certs.PairsVerdictError` | wire/cert.go:166-173 | a refusal is that of the first pair that fails: its own signature error, or a bad signature when its key is not trusted |
| `Certs.VerifyCASignatures` | wire/cert.go:165-175 | the verdict of the first pair that fails to verify over the TBS or, when a set is given, is by a key outside it |
| `Certs.EncodeCertTBS` | wire/encode.go:75-92 | the appends and the scope loop give the layout's encoding; bounds are refused |
| `Certs.AppendCertSignatures` | wire/encode.go:98-114 | refuses with the first fault the loop meets, else count and pairs after the TBS |
| `Certs.FaultIsFirst` | wire/encode.go:103-109 | the first faulty pair decides: a bad size is out of bounds, a bad order malformed |
| `Certs.CertInIff` | wire/cert.go:60-144 | a certificate is accepted if and only if its keys ascend, it is in bounds and the input is its re-encoding |
| `Certs.CertBytes` | wire/encode.go:80-90 | a certificate's TBS byte for byte |
| `Certs.CertLength` | wire/cert.go:60-144 | every accepted certificate is 182 to 598 bytes long |
| `Certs.MintedParses` | wire/encode.go:94-114 | what the minting functions accept, the parser reads back with the same fields and the same pairs |
| `Certs.CertReencodes` | wire/encode.go:75-114 | minting again from any accepted certificate's own fields and pairs is within bounds, gives that certificate, TBS included, and reproduces its bytes |
| `Certs.FlattenSplit8` | wire/encode.go:87-90 | a flat scope list is the concatenation of the ids it splits into |
| `Validation.QuorumIsReal` | wire/validate.go:45-65 | a parsed, accepted certificate lists pairwise distinct trusted CAs that all signed its TBS; an approver certificate at least two |
| `Validation.AscendingApart` | wire/cert.go:117-121 | adjacent key order carries over any distance |
| `Validation.CheckPairs` | wire/validate.go:56-64 | accepts if and only if every pair verifies and every key is trusted |
| `Validation.ChainVerdict` | wire/validate.go:45-65 | accepts if and only if at most one of the three roles is set, an approver has two pairs, a privileged window is within the cap on 64-bit words, and every pair verifies over the TBS under a trusted key; otherwise the error of the first of these that fails |
| `Validation.ClockVerdict` | wire/grantchain.go:182-191 | the clocked check adds exactly the window, closed at its start and open at its end |
| `Validation.MintedAccepted` | wire/validate.go:45-65 | every certificate minted within the rules and signed by trusted CAs in key order parses and is accepted: an agent's with one CA, an approver's with two |
| `Validation.RolesExclusive` | wire/validate.go:30-38 | the role check passes if and only if at most one of agent, approver and executor is set |
| `Validation.InvertedWindow` | wire/validate.go:45-65 | clock-free validation accepts a privileged certificate with an inverted window if and only if roles, quorum and pairs pass and the inversion is at least 2^64 minus the cap |
| `Validation.InvertedAccepted` | wire/validate.go:52-55 | an executor certificate valid from the last millisecond to the first, signed by one CA, parses and passes clock-free validation, and is outside its window at every time |
| `Validation.ClockedLifetime` | wire/grantchain.go:182-191 | under the clocked check nothing wraps and a privileged window is really at most 30 days |
| `GrantChain.CertCarriesScope` | wire/grantchain.go:221-229 | membership among the scope ids, both ways |
| `GrantChain.ScopeCoversResource` | wire/grantchain.go:199-217 | true if and only if some non-empty whole-segment prefix of the resource has its id among the scopes |
| `GrantChain.CoversBelow` | wire/grantchain.go:193-198 | coverage is closed under appending a slash and anything |
| `GrantChain.ScopesAreExact` | wire/grantchain.go:193-217 | scopes for any number of paths cover exactly those paths and what lies below one of them, when no other ancestor shares an id |
| `GrantChain.ScopeIsExact` | wire/grantchain.go:193-198 | a single scope for p covers exactly p and what starts with p and a slash, when no other ancestor shares its id |
| `GrantChain.ExpiryFailsClosed` | wire/grantchain.go:164-177 | wrapping arithmetic accepts only what unbounded integers would, and agrees with them whenever both deadlines fit 64 bits |
| `GrantChain.ExpiryExactIff` | wire/grantchain.go:160-177 | words and integers agree for every grant and every time if and only if the wrapped deadlines equal the capped ones, or the receive deadline lies beyond the other |
| `GrantChain.OverflowRefuses` | wire/grantchain.go:165-172 | a concrete overflow that refuses a grant the integers would allow |
| `GrantChain.RefusalNamesFirst` | wire/grantchain.go:83-158 | a grant passes if and only if no check fails; a refusal is returned if and only if its check fails and no lower-numbered one does |
| `GrantChain.AcceptedIff` | wire/grantchain.go:83-158 | a grant is accepted if and only if it is a version-2 grant its approver sent and signed, both certificates are in force with their role, key, revocation and scope, it names this executor and the pending intent in every part, and its deadlines hold |
| `GrantChain.HonestGrantAccepted` | wire/grantchain.go:83-158 | a grant made by the rules on certificates minted by the rules is accepted |
| `GrantChain.RevokedRefused` | wire/grantchain.go:106-125 | a key the revocation list names is never accepted, and once the earlier checks pass the refusal says whose it was |
| `GrantChain.NobodyRevoked` | wire/grantchain.go:106-125 | without a revocation list nobody is refused as revoked |
| `GrantChain.GrantPinsOneAct` | wire/grantchain.go:83-158 | contexts that accept grants with the same signed bytes agree on executor, approver, subject, intent id, sender and resource, and on the action unless the hash collides |
| `GrantChain.AcceptanceIff` | wire/grantchain.go:83-191 | once accepted at any time, a grant is accepted at exactly the times from the later notBefore to the earliest of both notAfters, the grant's own and the receive limit |
| `GrantChain.AcceptanceIsInterval` | wire/grantchain.go:83-191 | accepted at two times, a grant is accepted at every time between |
| `GrantChain.AcceptanceIsShort` | wire/grantchain.go:83-191 | any two accepting times are less than the 30-day cap apart |
| `Crypto.SignedVerifies` | wire/crypto.go:32-55 | what SignTagged signs, VerifySigned accepts under the matching key and tag |
| `Crypto.SignatureVerdict` | wire/crypto.go:32-46 | accepted exactly for a 32-byte key and a 64-byte signature that Ed25519 verifies over tag and TBS, with the length errors in order |
| `Crypto.SignedOnlyAs` | wire/crypto.go:48-55 | a signature made under one tag and message verifies under exactly those, unless the seed's signature verifies over another message |
| `Crypto.SuiteReached` | wire/crypto.go:63-66 | every primitive is called with its arguments in place, associated data included |
| `Crypto.FingerprintNames` | wire/crypto.go:79-84 | sixteen lower-case hex digits that decode to the first eight bytes of the key's hash |
| `Capture.CaptureWriter.Write` | cmd/lastro/main.go:148-159 | one atomic write: always reports the full length; appends whole or marks exceeded |
| `Capture.AllOrNothing` | cmd/lastro/main.go:148-159 | over any writes: exceeded if and only if there was more output than the cap; otherwise the buffer is all of it in order |
| `Capture.OrderIrrelevant` | cmd/lastro/main.go:137-140 | whether a receipt is possible, and the buffer's length, do not depend on the interleaving |
| `Capture.StreamsExact` | cmd/lastro/main.go:226-230 | the merge restricted to one stream is that stream, byte for byte |
| `CaptureMutex.StepInv` | cmd/lastro/main.go:148-159 | every step of either goroutine keeps the invariant that makes Write atomic |
| `CaptureMutex.SafeEverywhere` | cmd/lastro/main.go:148-159 | in every reachable state of every schedule: exceeded is sticky and at most one goroutine is inside Write |
| `CaptureMutex.CaptureOutcome` | cmd/lastro/main.go:226-256 | when both streams are drained, under every schedule: exceeded if and only if total output is over the cap, else a complete merge, exact per stream and within the cap |
| `CaptureMutex.NoDeadlock` | cmd/lastro/main.go:148-159 | until both streams are drained some goroutine can take a step |
| `CaptureMutex.RunsEnd` | cmd/lastro/main.go:148-159 | no schedule takes more than four steps a chunk |
| `CaptureMutex.EveryScheduleEnds` | cmd/lastro/main.go:226-256 | every maximal run, under every schedule, drains both streams and ends all or nothing |
| `Trailers.UnsealsSealed` | cmd/lastro/main.go:253-256 | reading from the end recovers output and exit code, also negative, from every output |
| `Trailers.NoLeadingZero` | cmd/lastro/main.go:256 | the exit code is written without leading zeros |
| `Trailers.TrailerUnambiguous` | cmd/lastro/main.go:253-256 | the captured stream determines output and exit code |
| `Resources.ResolveShaTemplate` | cmd/lastro/main.go:300-318 | the path unchanged without a placeholder; refused without a 7 to 64 digit HEAD; else every placeholder replaced |
| `Resources.ResolvesToHash` | cmd/lastro/main.go:300-318 | a path joined by placeholders resolves, for HEAD in either case with white space around it, to the parts joined by the whole lower-case hash |
| `Resources.ResolveRefuses` | cmd/lastro/main.go:301-311 | a path without placeholder is left alone; one with it needs a HEAD, of seven bytes or more |
| `Resources.ReplacedClean` | cmd/lastro/main.go:317 | replacing by two or more hex digits leaves no placeholder anywhere, seams included |
| `Resources.ResolvedComplete` | cmd/lastro/main.go:294-318 | a resolved path contains no placeholder, for every path and HEAD |
| `Resources.SeamCounterexample` | cmd/lastro/main.go:309-311 | with a one-digit hash a placeholder would form across a seam, so the minimum length matters |
| `Resources.SplitIsSegments` | cmd/lastro/main.go:346-350 | splitting at slashes meets a bad segment if and only if the path has one |
| `Resources.ValidateResource` | cmd/lastro/main.go:329-352 | the loops accept exactly the grammar: lengths, characters, and no empty, "." or ".." segment |
| `Receipts.CaptureAll` | cmd/lastro/main.go:226-230 | the writer object fed all writes ends as the atomic run says |
| `Receipts.CmdRun` | cmd/lastro/main.go:186-291 | the exact conditions for a usage error, a child that did not start and a minted receipt, over everything the host may answer; a receipt is the signed span over output and trailer |
| `Receipts.FailuresRefuse` | cmd/lastro/main.go:186-288 | whatever goes wrong with the run or its record, there is no receipt |
| `Receipts.ResourceFits` | cmd/lastro/main.go:206-210 | every resource the grammar accepts is at most 234 bytes and names its executor, so the 256-byte checks never fire |
| `Receipts.MintThenVerify` | wire/validate.go:67-90 | every minted receipt parses back and VerifyReceipt accepts it with any chain-valid executor certificate for the key |
| `Receipts.ReceiptVerdict` | wire/validate.go:71-90 | accepted if and only if the span's own executor signed it under the span tag, the chain accepts the certificate, it has the executor role and that executor's key, and the resource begins with that key's fingerprint; otherwise the error of the first that fails |
| `Receipts.AcceptedReceipt` | wire/validate.go:67-90 | an accepted receipt re-encodes to the bytes its executor signed, and that executor's certificate is signed over its own bytes by as many different trusted CAs as it lists |
| `Receipts.RunThenVerify` | cmd/lastro/main.go:186-291 | whatever CmdRun mints parses, in one way, to a span that says of the run, field by field, what happened, and that verifies with any chain-valid executor certificate for the key |
| `Receipts.DigestPinsOutcome` | cmd/lastro/main.go:253-271 | equal digests mean equal output and exit code, unless the hash collides |

## Left out

- BLAKE2s (RFC 7693), Ed25519 (RFC 8032), X25519 (RFC 7748) and ChaCha20-Poly1305 (RFC 8439): abstract functions with the laws above; the laws are taken for inputs of any length, and constructing an AEAD from a 32-byte key never fails.
- Secrecy, unforgeability and collision resistance: not decided by this code.
- Error texts: errors the source builds as text are values of one `Error` datatype.
- Slices returned by parsers alias the input buffer in Go; here they are values.
- Parsers are split into a few reads of consecutive fields, and a count followed by items is one reader (`Items`), where the source inlines them.
- Splitting the command line at `--`, flag syntax, messages on the terminal and the contents of written files; what git, the key file, entropy, the clock, the child and the file system answer are parameters.
- Mutex fairness, pipe buffering in os/exec and the terminal copy of the output.
- The consumed-nonce ledger (check 11 of the grant chain), effect execution and replay tracking: the repository leaves them to callers.
- `cmd/interop`, key generation, `gitHead` and report rendering: sockets, files, processes and text, with no protocol logic of their own.
- `wire/method.go`: a fixed table, correct by comparison with the specification rather than by proof.
- `OverlayAddr`: a one-way function of the key that nothing modelled here reads back.
