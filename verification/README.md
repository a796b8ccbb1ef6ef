# krabitls in Dafny

A model of krabitls, a `no_std` TLS 1.3 client (RFC 8446), and proofs about it. The cryptography is
abstract: an AEAD is a pair of functions with `open(seal(x)) == x` and preserved length, the transcript
hash, HKDF and the signature check are functions that may fail. That a run gets through (the `Lockstep`,
`Duplex`, `EndToEnd` and honest-server theorems) is stated under one progress hypothesis: hash and extract
succeed, and so does expand up to 32 bytes, the most TLS asks of it here. Key agreement may refuse a share,
and theorems about runs that did complete, or about what is rejected, do not need the hypothesis.
Everything around them is modelled as the code does it: the bytes, the branches, the errors, the
narrowing casts, the 64-bit counters.

| file | what it models |
|---|---|
| `Bytes.dfy`, `Consts.dfy`, `Wire.dfy` | code points, big-endian fields, length-prefixed vectors, extensions, handshake messages |
| `Rfc8446.dfy`, `X690.dfy` | the standards' own definitions, spelled out in bits, bytes and labels: nonce, record, key schedule, signed content, ServerHello; DER lengths and integers. They call nothing of the model |
| `Aead.dfy`, `KeySchedule.dfy`, `Channel.dfy` | record protection, the HKDF labels and secrets, the record channel with its key generations |
| `Engine.dfy`, `Lockstep.dfy`, `Duplex.dfy` | the data phase: post-handshake reassembly, KeyUpdate, and two endpoints running against each other, one way and both ways at once |
| `ServerHello.dfy` | build features and the strict ServerHello parser |
| `ClientHello.dfy`, `HelloWriter.dfy` | ClientHello sizes, nested message and decoder; the writer |
| `ServerFlight.dfy`, `Reassembler.dfy`, `FlightRecords.dfy` | the server flight, its reassembly, flights as records under a record_size_limit |
| `Transcript.dfy`, `ClientFlight.dfy`, `FlightCheck.dfy` | the transcript, the client's second flight, the checks on the server's |
| `Handshake.dfy`, `WholeHandshake.dfy` | the connection's steps, and a whole handshake as the engine drives it |
| `LargeModulus.dfy` | one honest handshake in full, which fails on its leaf's 3072-bit RSA key |
| `EndToEnd.dfy` | the handshake and the conversation it opens, both ends |
| `PinnedRoots.dfy`, `PinnedHandshake.dfy` | the certificate chain walk against a pinned ledger; the handshake with it as trust strategy |
| `Tlv.dfy`, `TlvCert.dfy`, `CertFaults.dfy`, `CertExtensions.dfy`, `EcdsaDer.dfy` | DER: the TLV reader, the certificate walk and its refusals, the extensions against their written form, ECDSA signatures |

The main theorems, one per part:

- `Lockstep.ReceiverInLockstep`: whatever a peer legally sends, in whatever fragmentation and over any
  number of key generations, is delivered exactly, and both ends stay on the same keys.
- `Duplex.Conversation`, `Duplex.Settles`: the same with both ends sending at once, under every schedule, down
  to the last record under way.
- `EndToEnd.Connection`: from an honest server's first byte to the end of any conversation.
- `Channel.NonceReuseExactly`: a nonce repeats under a key exactly when a generation exceeds 2^64 records.
- `WholeHandshake.TranscriptIsTheWire`: the hashed bytes are the handshake messages on the wire, in order, and
  each secret binds the prefix it should.
- `WholeHandshake.HonestHandshakeCompletes`: exactly when an honest server gets through.
- `FlightCheck.VerifiedExactly`, `ClientFlight.FlightAccepted`: what the client accepts from a server and
  what a server accepts from the client, each check at its own transcript prefix.
- `FlightRecords.FlightRoundTrip`, `Handshake.FlightAlwaysSent`: cutting and rebuilding a flight, and the
  buffer arithmetic that makes sending it always possible.
- `Reassembler.ParseOfFlight`: two parsers of the same bytes agree.
- `ServerHello.ParsedExactly`, `ClientHello.DecodeUndoesSerialize`, `HelloWriter.WriteClientHello`: both
  hellos, exactly, for every feature combination.
- `PinnedRoots.AcceptedExactly`, `PinnedRoots.GrowingLedger`: the chain walk as a path predicate, and
  exactly when a larger ledger rejects.
- `PinnedHandshake.PinnedExactly`, `PinnedHandshake.CompletedOverTlv`: which chains a handshake completes with.
- `Tlv.ReadIsCanonical`, `TlvCert.ParseIsCanonical`, `EcdsaDer.SignatureBijection`: one encoding per value.

Constructor names follow the source's error enums except where two would clash: `OversizedRecord` is the
decryption `RecordTooLarge`.

A function that two ends share, such as the nonce, a label or the content a signature covers, would agree with
itself whatever it computed. So each is also compared with `Rfc8446.dfy` or `X690.dfy`, and the main theorems
are stated in those terms: `Aead.NonceExactly`, `Aead.OpenedExactly`, `Handshake.HandshakeKeysExactly`,
`Handshake.AppKeysExactly`, `ClientFlight.SignedContentExactly`, `ServerHello.ParsedExactly`, `EcdsaDer.SignatureExactly`.
Lemmas named `RefusedFor`, `FirstFault` and the like say which input gets which error.

A source loop is a Dafny method with that loop, a source object that is updated in place is a class, and
each is proved equal to a specification function; the theorems are about those functions.

Four properties one might expect do not hold of the code as it stands, and are stated with the exact
condition under which they do:

- An honest server does not always get through: `ServerPubkeyOwned` holds RSA moduli of at most 256 bytes,
  so a leaf with a 3072- or 4096-bit key fails after it has been verified, in builds that support those
  widths too. `LargeModulus.LargeModulusFails` is such a handshake in full, and
  `WholeHandshake.HonestHandshakeCompletes` is an if-and-only-if with that condition.
- With a certificate parser of the caller's own, adding an anchor can turn an acceptance into a rejection
  (`PinnedRoots.GrowingLedgerCanReject`); exactly when is `PinnedRoots.GrowingLedger`, and with the TLV
  certificate parser it never happens.
- On a 16-bit word `read_tlv` and the certificate walk accept some non-minimal lengths
  (`Tlv.SixteenBitLength`, `TlvCert.SixteenBitCertificate`); exactly when what they accept is canonical is
  `Tlv.ReadIsCanonical` and `TlvCert.ParseIsCanonical`.
- A record sealed with content type zero does not come back (`Aead.RecordRoundTrip`, an if-and-only-if).

Where code and comments differ the model follows the code: bytes after the certificate list in a
Certificate body, after the certificate itself in a DER buffer, and after the first signature_algorithms
extension of a CertificateRequest are ignored, as the code ignores them.

## Model

| member | source | states |
|---|---|---|
| Aead.AeadNonce | krabitls/src/aead.rs:11-18 | the XOR loop gives the nonce of section 5.3 of RFC 8446: each bit of the result differs from the IV's exactly where the sequence number, padded on the left to twelve bytes, has a one |
| Aead.XorInvolution | krabitls/src/aead.rs:14-16 | exclusive or stays within its bit width and undoes itself, so a nonce byte gives the sequence byte back |
| Aead.NonceInjective | krabitls/src/aead.rs:11-18 | under one IV, equal nonces mean equal 64-bit sequence numbers (section 5.3 of RFC 8446) |
| Aead.NonceExactly | krabitls/src/aead.rs:11-18 | the nonce computed is the one of section 5.3 of RFC 8446, bit by bit, and no other string is |
| Aead.XorBits | krabitls/src/aead.rs:14-16 | each bit of the exclusive or is set exactly where the two bits differ |
| Aead.SplitInnerPlaintext | krabitls/src/aead.rs:87-116 | the branch-free forward scan gives what the naive backward zero-stripping scan gives, on every input, including both size caps and the empty and all-zero errors |
| Aead.SplitInvertsPadding | krabitls/src/aead.rs:87-116 | the split returns (content, type) if and only if the input is content, that nonzero type and some number of zeros, within the caps (section 5.4 of RFC 8446) |
| Aead.SplitRefuses | krabitls/src/aead.rs:87-116 | the two refusals and nothing else: only zeros within 16640 bytes is empty, more than that or a nonzero byte past 16384 is oversized |
| Aead.EncryptRecord | krabitls/src/aead.rs:118-176 | writes header, ciphertext and tag in place at an offset of the output and nothing else, or refuses with the size error and leaves the buffer alone |
| Aead.FramingError | krabitls/src/aead.rs:22-55 | a record passes the header checks exactly when it is a legal header followed by exactly the number of bytes it announces |
| Aead.DecryptRecordInPlace | krabitls/src/aead.rs:22-71 | opens in place: on success the plaintext replaces the ciphertext, on an AEAD failure that region is zeroed, on a framing error nothing is written |
| Aead.OpenUndoesSeal | krabitls/src/aead.rs:22-176 | opening a sealed record gives content and type back, and its length is content + 22 |
| Aead.RecordRoundTrip | krabitls/src/aead.rs:22-176 | sealing, opening and splitting returns the pair that was sealed if and only if the content type is nonzero |
| Aead.SealedExactly | krabitls/src/aead.rs:118-176 | the record is the five literal header bytes, then ciphertext and tag of content and type under the nonce of section 5.3 with those five bytes as associated data (section 5.2 of RFC 8446) |
| Aead.SealErrorExactly | krabitls/src/aead.rs:130-150 | content over 16384 bytes is too large, otherwise a buffer under content + 22 too small, otherwise it is sealed |
| Aead.OpenedExactly | krabitls/src/aead.rs:22-71 | a record opens to a plaintext if and only if it is a legal header over ciphertext and tag that open under that nonce with the record's own header as associated data |
| Aead.FramingRefuses | krabitls/src/aead.rs:22-55 | which header bytes lead to which refusal, in order |
| KeySchedule.EncodeLabel | krabitls/src/hkdf.rs:83-114 | the bounded-buffer encoder produces exactly the HkdfLabel bytes, written out field by field, if and only if every length fits its field and all of it 64 bytes, and otherwise the first of its length errors |
| KeySchedule.InfoInjective | krabitls/src/hkdf.rs:83-114 | two encodings are equal only for the same output length, the same prefixed label and the same context |
| KeySchedule.PrefixesDisjoint | krabitls/src/hkdf.rs:61-133 | a TLS and a DTLS encoding never coincide, whatever the labels (section 5.9 of RFC 9147) |
| KeySchedule.ExpandLabel | krabitls/src/hkdf.rs:61-114 | output of the length asked for; with labels of at most 22 bytes and hash-sized contexts the only failure left is the backend's |
| KeySchedule.HandshakeSecret | krabitls/src/hkdf.rs:232-239 | no encoding error is possible: every failure is the backend's |
| KeySchedule.HandshakeTrafficSecrets | krabitls/src/hkdf.rs:243-251 | no encoding error is possible at a 32-byte digest |
| KeySchedule.TrafficKeys | krabitls/src/hkdf.rs:257-267 | a 12-byte IV, and no encoding error for key lengths up to 32 |
| KeySchedule.MasterSecret | krabitls/src/hkdf.rs:385-390 | no encoding error is possible |
| KeySchedule.ApplicationTrafficSecrets | krabitls/src/hkdf.rs:397-413 | no encoding error is possible at a 32-byte digest |
| KeySchedule.NextTrafficSecret | krabitls/src/hkdf.rs:417-423 | no encoding error is possible |
| KeySchedule.FinishedMac | krabitls/src/hkdf.rs:433-446 | a 32-byte MAC, and no encoding error |
| KeySchedule.ExpandLabelExactly | krabitls/src/hkdf.rs:61-133 | a derivation is one HKDF expansion of the HkdfLabel spelled out: length, "tls13 " and the name, context |
| KeySchedule.HandshakeScheduleExactly | krabitls/src/hkdf.rs:232-251 | early, handshake and both handshake traffic secrets are those of the diagram in section 7.1 of RFC 8446, label by label |
| KeySchedule.ApplicationScheduleExactly | krabitls/src/hkdf.rs:385-413 | so are the master secret and both application traffic secrets |
| KeySchedule.TrafficKeysExactly | krabitls/src/hkdf.rs:257-267 | record key and IV are those of section 7.3 of RFC 8446 |
| KeySchedule.NextSecretExactly | krabitls/src/hkdf.rs:417-423 | the next generation's secret is that of section 7.2 of RFC 8446 |
| KeySchedule.FinishedExactly | krabitls/src/hkdf.rs:433-446 | the MAC is the verify_data of section 4.4.4 of RFC 8446 |
| Channel.Connection.EncryptRecord | krabitls/src/connection.rs:1029-1043 | seals under the current send keys at the current sequence number and steps the number; on an error neither changes |
| Channel.Connection.DecryptRecordInPlace | krabitls/src/connection.rs:1048-1063 | opens, splits and steps the receive sequence number; on an error the number stays |
| Channel.Connection.EncryptKeyUpdate | krabitls/src/connection.rs:1069-1076 | sends the five KeyUpdate bytes as one handshake record |
| Channel.Connection.ApplyRecvKeyUpdate | krabitls/src/connection.rs:1081-1087 | next-generation receive secret and keys, sequence number zero; the send direction is untouched |
| Channel.Connection.ApplySendKeyUpdate | krabitls/src/connection.rs:1093-1099 | next-generation send secret and keys, sequence number zero; the receive direction is untouched |
| Channel.ReceiveUndoesSend | krabitls/src/connection.rs:1029-1063 | a mirrored direction reads what was sent and both end on the same next state |
| Channel.RotateExactly | krabitls/src/connection.rs:1081-1099 | a rotation is the traffic secret update of section 7.2 of RFC 8446, its key and IV, and the count from zero, and nothing else is |
| Channel.EmissionsInStep | krabitls/src/connection.rs:1029-1099 | over every run of sends and rotations, generations never go back and within one the sequence numbers are consecutive |
| Channel.NonceReuseExactly | krabitls/src/connection.rs:1029-1099 | over every run from any state, a (key generation, nonce) pair repeats if and only if some generation carries more than 2^64 records |
| Channel.RunRoundTrip | krabitls/src/connection.rs:1029-1099 | over every run of sends and rotations, a mirror that reads each record and rotates where the sender did recovers exactly the (content, type) pairs sealed and ends on the sender's state, if and only if none of them has type zero |
| Engine.OnRecordSplit | krabitls/src/client/engine.rs:891-956 | feeding two pieces one after the other is feeding their concatenation: fragmentation of post-handshake messages is invisible |
| Engine.PostHandshake.Feed | krabitls/src/client/engine.rs:891-956 | the staged loop (skip, header, KeyUpdate byte) computes the byte-at-a-time reference on every input and every carried-over state |
| Engine.OnRecordFills | krabitls/src/client/engine.rs:904-939 | the two fill loops stage exactly the bytes the reference consumes |
| Engine.TlsEngine.ProcessKeyUpdate | krabitls/src/client/engine.rs:964-1013 | rotates the receive keys, and when asked seals a reply under the old send keys before rotating those |
| Engine.TlsEngine.HandleInnerContent | krabitls/src/client/engine.rs:841-883 | dispatches application data, alerts and handshake content; a foreign record type inside a split message is refused |
| Engine.TlsEngine.DispatchDataRecord | krabitls/src/client/engine.rs:775-837 | one framed record: outer type, record_size_limit, decryption, dispatch; every error closes the connection |
| Engine.TakenExactly | krabitls/src/client/engine.rs:775-883 | a record off the wire is taken if and only if its outer type is 23, it is within the receive limit, it opens, and its content is data or close_notify between messages or handshake bytes that can be acted on |
| Engine.TakenEffect | krabitls/src/client/engine.rs:841-883 | data is handed out as it came, close_notify and nothing else closes, and only handshake bytes touch keys, reassembly or what is sent |
| Engine.RefusedFor | krabitls/src/client/engine.rs:775-883 | each refusal by its cause: outer type, limit, decryption, interleaving, short or fatal alert, unknown inner type |
| Lockstep.TicketIsSkipped | krabitls/src/client/engine.rs:917-926 | a NewSessionTicket of any length leaves the reassembly idle |
| Lockstep.BurstIsRead | krabitls/src/client/engine.rs:891-956 | any number of tickets and an optional KeyUpdate, concatenated, are read as exactly that |
| Lockstep.ReadExactly | krabitls/src/client/engine.rs:891-956 | every string of post-handshake bytes is whole tickets and a rest without one at its front, and is read as the rest says: nothing pending, a message under way, a KeyUpdate that ends its record, or one of the two refusals |
| Lockstep.FragmentsRun | krabitls/src/client/engine.rs:775-956 | the same bytes cut into records anywhere drive the engine to the same state |
| Lockstep.UpdateLockstep | krabitls/src/client/engine.rs:964-1013 | a KeyUpdate, however fragmented, moves both ends to the same next generation and is answered if and only if it asks, when HKDF expansions of up to 32 bytes succeed |
| Lockstep.ReceiverInLockstep | krabitls/src/client/engine.rs:775-1013 | for every script of data, ticket bursts and KeyUpdates, of any length and fragmentation and across any number of generations, the receiver never fails as long as HKDF expansions of up to 32 bytes succeed, delivers exactly the data sent and ends on the sender's keys and number (sections 4.6.3 and 5.3 of RFC 8446) |
| Lockstep.AnswersInLockstep | krabitls/src/client/engine.rs:964-1013 | a peer that reads the replies sent along the way ends on this side's new send keys, with nothing delivered and nothing to answer, when HKDF expansions of up to 32 bytes succeed |
| Duplex.ItemInFlight | krabitls/src/client/engine.rs:891-1013 | whatever an endpoint says, fragmented anywhere, goes out as records its peer can take one after the other, with the sender's rotations between them and exactly its data inside |
| Duplex.PacketTaken | krabitls/src/client/engine.rs:775-1013 | one record in flight moves the receiver as its packet says, whatever the receiver has sent meanwhile, and is answered only when it asks |
| Duplex.StepKeeps | krabitls/src/client/engine.rs:775-1013 | no legal step of a two-way conversation fails, and each keeps both directions: the records under way lead from the receiver's keys and reassembly to the sender's, and data delivered plus data under way is data sent |
| Duplex.Conversation | krabitls/src/client/engine.rs:775-1108 | under every schedule of sends by either side and single-record deliveries, with data, tickets, KeyUpdates and replies crossing in both directions, nothing fails, each end has received a prefix of what the other sent, and all of it on equal keys and numbers once nothing is under way, when HKDF expansions of up to 32 bytes succeed (sections 4.6.3 and 5.3 of RFC 8446) |
| Duplex.Settles | krabitls/src/client/engine.rs:964-1013 | from any point of such a conversation three rounds of reading empty both directions, since a reply never provokes a reply, and leave each end with exactly what the other sent and with equal keys both ways |
| ServerHello.Reader.TakeN | krabitls/src/lib.rs:1001-1008 | returns the next n bytes and moves past them, or reports truncation and stays |
| ServerHello.Reader.U16 | krabitls/src/lib.rs:1023-1026 | a big-endian two-byte read |
| ServerHello.Reader.VecU8 | krabitls/src/lib.rs:1033-1036 | a one-byte-prefixed vector |
| ServerHello.Reader.VecU16 | krabitls/src/lib.rs:1038-1041 | a two-byte-prefixed vector |
| ServerHello.Reader.VecU24 | krabitls/src/lib.rs:1043-1049 | a three-byte-prefixed vector |
| ServerHello.UnwrapRecord | krabitls/src/lib.rs:802-826 | the record and handshake headers, each with its own error |
| ServerHello.ReadShare | krabitls/src/lib.rs:900-946 | the key_share entry for every feature combination: group, exact key length, nothing after it |
| ServerHello.ReadExts | krabitls/src/lib.rs:872-967 | the extension loop: both extensions once, nothing else, each error where the code raises it |
| ServerHello.ParseServerHello | krabitls/src/lib.rs:802-981 | the cursor-based parser computes the specification function on every input |
| ServerHello.ExtsExactly | krabitls/src/lib.rs:872-967 | the extension block is accepted in exactly two byte strings per selection: the two orders |
| ServerHello.ParsedExactly | krabitls/src/lib.rs:802-981 | a record is accepted with a view if and only if it is one of the two literal ServerHello records of that view and the view is genuine: no retry random, no DOWNGRD sentinel, a session id of at most 32 bytes, suite 0x1301 or a built-in 0x1303, and a share of a group and length the build selects (sections 4.1.3 and 4.2.8 of RFC 8446) |
| ServerHello.FirstFault | krabitls/src/lib.rs:802-870 | a framed message with anything in its fields gets the error of the first wrong field in message order, the retry random and both downgrade sentinels among them |
| ServerHello.ExtsFirstFault | krabitls/src/lib.rs:872-967 | an extension block gets the error of its first extension that is unknown, a duplicate or malformed |
| ServerHello.ExtsMissing | krabitls/src/lib.rs:955-967 | with none at fault a missing share, then a missing version, is the error |
| ServerHello.EntryFault | krabitls/src/lib.rs:900-946 | a share entry is refused exactly for a spare byte or for a group and key the build does not select |
| ClientHello.AlpnExtTotal | krabitls/src/lib.rs:402-415 | the accumulating loop is six plus the encoded length of the name list |
| ClientHello.ExtensionsLength | krabitls/src/lib.rs:234-295 | the precomputed extension total is the length of the encoded extensions, for every feature combination and accepted option set |
| ClientHello.FixedLength | krabitls/src/lib.rs:234-247 | group and scheme counts computed from features are the lengths of the lists written |
| ClientHello.SharesFit | krabitls/src/lib.rs:259-295 | the precomputed client_shares length is the length of the encoded shares |
| ClientHello.HelloBody | krabitls/src/lib.rs:437-456 | the body is as long as ch_body_len says, and short enough for one record |
| ClientHello.Serialize | krabitls/src/lib.rs:460-503 | the record is as long as client_hello_len_with says |
| ClientHello.DecodeUndoesSerialize | krabitls/src/lib.rs:567-755 | for every build and every accepted option set a decoder that knows only the code points of RFC 8446 and the length prefixes recovers random, session id, suites, groups, schemes, SNI, record_size_limit, ALPN, shares and the order of the extensions; the lists are the standard's code points in the order of preference, cut to what is built in, with one share for each group |
| ClientHello.OptionsRefused | krabitls/src/lib.rs:578-607 | each refusal of the options by its cause, in order, down to the length of the whole record |
| HelloWriter.Sink.WriteU24 | krabitls/src/lib.rs:546-553 | three bytes, or an overflow error instead of truncation |
| HelloWriter.WriteSuites | krabitls/src/lib.rs:648-662 | ChaCha before AES, exactly the suites the list allows, under a length that counts them |
| HelloWriter.WriteGroups | krabitls/src/lib.rs:672-679 | supported_groups with a length that frames its contents |
| HelloWriter.WriteSchemes | krabitls/src/lib.rs:681-696 | signature_algorithms for every feature combination, framed exactly |
| HelloWriter.WriteSni | krabitls/src/lib.rs:698-708 | three nested lengths, none narrowed lossily |
| HelloWriter.WriteAlpn | krabitls/src/lib.rs:716-726 | the name loop, framed exactly |
| HelloWriter.WriteShares | krabitls/src/lib.rs:733-752 | key_share for every feature combination; a missing key is its own error |
| HelloWriter.WritePrefix | krabitls/src/lib.rs:632-665 | headers and fixed fields with lengths computed ahead; the narrowing casts keep the value |
| HelloWriter.PrefixThenExtensions | krabitls/src/lib.rs:632-665 | what is written ahead of the extensions is exactly the nested message's start |
| HelloWriter.WriteClientHello | krabitls/src/lib.rs:567-755 | refuses bad options before writing; otherwise writes exactly the nested message, of exactly the announced length, if and only if the keys are there and the sink has room, and names the error that comes first when not |
| ServerFlight.HsReader.Next | krabitls/src/server_flight.rs:277-303 | one framed message, cursor moved only on success |
| ServerFlight.ParseServerFlight | krabitls/src/server_flight.rs:121-186 | the cursor-based parser computes the specification, CertificateRequest optional |
| ServerFlight.ParsedExactly | krabitls/src/server_flight.rs:121-186 | content is accepted with a view if and only if it is the concatenation of messages of types 8, optionally 13, 11, 15 and 20, and the view is those messages |
| ServerFlight.CertificateRequestSigAlgs | krabitls/src/server_flight.rs:193-263 | the extension walk computes the specification, including that nothing after the first signature_algorithms is looked at |
| ServerFlight.RequestReads | krabitls/src/server_flight.rs:193-263 | any CertificateRequest gives back its context and the first scheme list it carries, or the empty list when it carries none |
| ServerFlight.SchemesExactly | krabitls/src/server_flight.rs:246-256 | a scheme list is accepted if and only if it spans its extension, is nonempty and of even length |
| ServerFlight.RequestExactly | krabitls/src/server_flight.rs:193-230 | context and extension block are returned if and only if the message is a framed CertificateRequest of exactly those |
| ServerFlight.SchemesFound | krabitls/src/server_flight.rs:231-263 | any block is extensions of other types and a rest; the schemes are those of a signature_algorithms that starts the rest, none when the rest is empty, and everything else is refused as truncated |
| ServerFlight.ExtractChain | krabitls/src/server_flight.rs:312-356 | the indexed walk computes the specification on every body and every bound |
| ServerFlight.ChainReads | krabitls/src/server_flight.rs:312-356 | every serialized list gives exactly its certificates in order when they fit the bound and CertChainTooLong otherwise, never a prefix (section 4.4.2 of RFC 8446) |
| ServerFlight.ChainCanonical | krabitls/src/server_flight.rs:312-356 | an accepted body is such a list of at most the bound, followed by bytes the code never looks at |
| Reassembler.ServerFlightReassembler.PushContent | krabitls/src/reassembler.rs:65-69 | all or nothing within the capacity |
| Reassembler.ServerFlightReassembler.Clear | krabitls/src/reassembler.rs:54-56 | an empty buffer |
| Reassembler.ServerFlightReassembler.FlightEndOffset | krabitls/src/reassembler.rs:99-121 | the offset walk finds the end of the first Finished, or nothing |
| Reassembler.ServerFlightReassembler.GetFlightBytes | krabitls/src/reassembler.rs:93-96 | the bytes through that Finished |
| Reassembler.ServerFlightReassembler.IsComplete | krabitls/src/reassembler.rs:82-84 | whether there is a complete flight |
| Reassembler.ServerFlightReassembler.PeekEeRecordSizeLimit | krabitls/src/reassembler.rs:136-186 | the peek computes the specification, errors included |
| Reassembler.FlightExactly | krabitls/src/reassembler.rs:93-121 | the flight is a message list if and only if that list ends in its only Finished and, written out, starts the buffer |
| Reassembler.FlightIsStable | krabitls/src/reassembler.rs:93-121 | once complete, the flight bytes never change under later pushes |
| Reassembler.ChunkingIrrelevant | krabitls/src/reassembler.rs:65-69 | a run of pushes sees only the concatenation of its chunks: same contents or same overflow |
| Reassembler.ParseOfFlight | krabitls/src/server_flight.rs:121-186 | on what reassembly hands over, the strict parser succeeds if and only if the message types are 8, 11, 15, 20 with an optional 13 second, and otherwise reports the first message out of order with the type that had to be there |
| Reassembler.LimitExactly | krabitls/src/reassembler.rs:154-186 | a record_size_limit is reported if and only if the block carries it exactly once with a two-byte value, none if and only if it carries none (section 4 of RFC 8449) |
| Reassembler.LimitCanonical | krabitls/src/reassembler.rs:154-186 | a peek that succeeds has read a well-formed extension block in full |
| Reassembler.ScanRefused | krabitls/src/reassembler.rs:154-186 | of the limits in a well-formed block the first that is not two bytes is truncated and a second is a duplicate |
| Reassembler.PeekRefused | krabitls/src/reassembler.rs:136-153 | the peek is refused without a complete flight or when another message than EncryptedExtensions starts it |
| FlightRecords.EncryptHandshakeFlight | krabitls/src/connection.rs:880-894 | the chunk loop writes the sealed pieces back to back with sequence numbers from zero, or reports the first piece that does not fit |
| FlightRecords.ChunksPartition | krabitls/src/connection.rs:886-892 | the pieces are nonempty, within the cap, as many as the ceiling says, and join up to the plaintext |
| FlightRecords.FlightFits | krabitls/src/connection.rs:886-893 | for every limit in [64, 16385] no inner plaintext exceeds the limit, and sealing succeeds if and only if the buffer holds n + ceil(n/(rsl-1))*22 bytes |
| FlightRecords.PiecesFill | krabitls/src/connection.rs:886-893 | every piece but the last fills the peer's limit, and the flight takes 22 bytes per piece more than its plaintext |
| FlightRecords.FloorAttained | krabitls/src/client/scratch.rs:94-100 | the floor is no larger than the longest flight under the smallest legal limit takes; a limit is legal from 64 to 16385 |
| FlightRecords.RecordsSize | krabitls/src/connection.rs:880-894 | 22 bytes of overhead per record, exactly |
| FlightRecords.FloorCovers | krabitls/src/client/scratch.rs:94-100 | client_auth_send_floor bounds the encrypted size of every flight up to the cap under every legal limit |
| FlightRecords.FloorSuffices | krabitls/src/client/scratch.rs:90-100 | a send buffer of the floor size never comes back too small |
| FlightRecords.FlightNonces | krabitls/src/connection.rs:880-894 | no two records of the flight share a nonce |
| FlightRecords.FlightReceiver.FeedInPlace | krabitls/src/connection.rs:740-779 | one received record: ChangeCipherSpec, handshake content, every error; on an error the number and the buffer stay |
| FlightRecords.CcsInvisible | krabitls/src/connection.rs:753-757 | ChangeCipherSpec records change nothing wherever they stand, in every run |
| FlightRecords.FedExactly | krabitls/src/connection.rs:740-779 | a record is taken if and only if it is a ChangeCipherSpec, which changes nothing, or opens to handshake bytes that still fit, which are appended and counted |
| FlightRecords.FeedRefused | krabitls/src/connection.rs:740-779 | each refusal by its cause: empty, outer type, decryption, inner type, overflow |
| FlightRecords.FlightRoundTrip | krabitls/src/connection.rs:740-779 | any interleaving of a flight's records with ChangeCipherSpec rebuilds exactly the plaintext with the receive number equal to the number of sealed records, or overflows if and only if the plaintext is longer than the reassembler |
| Transcript.TranscriptHash.UpdateRecord | krabitls/src/hkdf.rs:167-180 | feeds exactly the bytes the record header declares, or refuses a short record and feeds nothing |
| Transcript.TranscriptHash.Update | krabitls/src/hkdf.rs:185-187 | feeds exactly the message |
| Transcript.TranscriptHash.Snapshot | krabitls/src/hkdf.rs:191-193 | the digest of what has been fed, without disturbing it |
| Transcript.RecordBodyReads | krabitls/src/hkdf.rs:167-180 | a plaintext record contributes its message whatever is buffered behind it |
| ClientFlight.BuildClientCertificate | krabitls/src/client_flight.rs:143-184 | the field-by-field fill is the framed one-entry Certificate, with the error cases in order |
| ClientFlight.BuildClientEmptyCertificate | krabitls/src/client_flight.rs:190-210 | the framed empty Certificate, with the error cases in order |
| ClientFlight.BuildClientCertificateVerify | krabitls/src/client_flight.rs:215-241 | scheme and signature over the pad, context string, separator and digest, framed; nothing before the offset changes |
| ClientFlight.SignedContentExactly | krabitls/src/server_flight.rs:384-390 | both sides sign 64 spaces, the 33 characters of their own context string, a zero and the digest, by position (section 4.4.3 of RFC 8446); two digests, or the two sides, never sign the same bytes |
| ClientFlight.CertRefused | krabitls/src/client_flight.rs:143-165 | the certificate's refusals in order, with the cap of each RSA width |
| ClientFlight.ClientCertificateReads | krabitls/src/client_flight.rs:143-210 | the bodies the client builds decode to a one-certificate and an empty chain |
| ClientFlight.SigAlgsOffer | krabitls/src/client_flight.rs:294-302 | the scan finds the scheme if and only if it is one of the two-byte entries of an even-length list |
| ClientFlight.OffersExactly | krabitls/src/client_flight.rs:294-302 | the test is membership in the list of two-byte code points the string encodes; a string that encodes none offers nothing |
| ClientFlight.BuildClientFlight | krabitls/src/client_flight.rs:311-435 | each policy's in-place build; the transcript is extended by exactly the plaintext returned |
| ClientFlight.BuildSignedFlight | krabitls/src/client_flight.rs:390-416 | Certificate, then CertificateVerify over the transcript through it, then Finished over the transcript through that |
| ClientFlight.BuildRefused | krabitls/src/client_flight.rs:311-435 | each refusal of a policy by its cause, in order |
| ClientFlight.FlightBounded | krabitls/src/client_flight.rs:96-119 | every flight is at most the policy's MAX_FLIGHT_LEN, and a scratch of that size never yields BufferTooSmall |
| ClientFlight.BoundAttained | krabitls/src/client_flight.rs:96-119 | the announced lengths are exactly those of the longest flights |
| ClientFlight.FlightAccepted | krabitls/src/client_flight.rs:311-435 | a server that goes by RFC 8446 alone, parsing message by message and checking the echoed context, the signature over the literal content of section 4.4.3 at the transcript through Certificate and the verify_data of section 4.4.4 at the transcript before Finished, accepts every flight a policy builds |
| FlightCheck.VerifyServerFlight | krabitls/src/server_flight.rs:491-512 | the transcript updates and the two checks, in order, with every error |
| FlightCheck.VerifiedExactly | krabitls/src/server_flight.rs:369-512 | a flight is accepted if and only if it is its messages in legal order, its signature passes over the literal signed content of the transcript through Certificate, and its Finished is the verify_data of the transcript through CertificateVerify; the transcript then grows by exactly the flight |
| FlightCheck.CvExactly | krabitls/src/server_flight.rs:369-390 | a CertificateVerify body passes if and only if it is a scheme and an exactly framed signature the verifier accepts over that content |
| FlightCheck.DispatchExactly | krabitls/src/server_flight.rs:392-440 | a CertificateVerify passes if and only if its scheme and signature length belong to the prepared key's own family in this build and the signature verifies; every such scheme is one the ClientHello offers |
| FlightCheck.RefusedFor | krabitls/src/server_flight.rs:369-470 | each refusal of CertificateVerify and Finished by its cause |
| Handshake.AdvertisedExactly | krabitls/src/connection.rs:602-626 | the suite test is membership in the list the ClientHello carried |
| Handshake.SelectedOffered | krabitls/src/lib.rs:900-946 | a share is only accepted for a group the ClientHello offered |
| Handshake.HelloAnswersHello | krabitls/src/connection.rs:583-731 | an accepted ServerHello answers the ClientHello that was sent: decoded from its bytes, that message offers the selected suite and group and carries the echoed session id |
| Handshake.AnswerRefused | krabitls/src/connection.rs:583-684 | an answer that parses is refused for the first of: a session id that is not ours, a suite not sent, a share the agreement rejects |
| Handshake.HelloRefused | krabitls/src/connection.rs:583-692 | a ServerHello is refused for its answer first, then for a hash that fails; whatever is not refused for its answer has a message for the transcript |
| Handshake.HandshakeKeysExactly | krabitls/src/connection.rs:686-731 | the state after the ServerHello is the handshake half of section 7.1 of RFC 8446 for the agreed secret and digest, with the server's record keys from the server's secret, and no other state is |
| Handshake.AppKeysExactly | krabitls/src/connection.rs:865-873 | the application state is the other half: the client direction under the client's application secret and its key and IV, the server direction under the server's, both counting from zero |
| Handshake.KeyFitsExactly | krabitls/src/connection.rs:330-369 | which leaf keys the connection's copy holds |
| Handshake.Connecting.WriteClientHello | krabitls/src/connection.rs:434-495 | the record goes through the fixed scratch into the caller's buffer and the transcript grows by that message without the record header; on an error the transcript and the stage stay |
| Handshake.Connecting.ReadServerHello | krabitls/src/connection.rs:583-731 | echo, suite and share checks, then secrets and server keys at the digest of both hellos |
| Handshake.Connecting.FinalizeServerFlight | krabitls/src/connection.rs:802-832 | complete flight, verification, the owned key copy, in that order with each error; on success the transcript is extended by exactly flight_bytes |
| Handshake.FinalizedExactly | krabitls/src/connection.rs:802-832 | a buffer is taken if and only if it holds a complete flight that is authentic under the prepared verifier and a key that can be kept, and the transcript then ends in that flight |
| Handshake.Connecting.FinishHandshake | krabitls/src/connection.rs:846-931 | Finished in one record under the handshake keys at number zero, and application keys at the digest through the server's Finished |
| Handshake.FinishRefused | krabitls/src/connection.rs:846-931 | without a digest, or with less than 58 bytes of room, finishing is refused before application keys are derived |
| Handshake.Connecting.FinishHandshakeWithPolicy | krabitls/src/connection.rs:954-1016 | the policy's flight in records cut to the peer's limit, and application keys at the digest taken before the flight |
| Handshake.SameApplicationKeys | krabitls/src/connection.rs:846-1016 | two connections at the same stage with the same transcript, one finished plainly and one through a policy that moves its transcript on in between, reach the same application secrets and keys (section 7.1 of RFC 8446) |
| Handshake.FlightAlwaysSent | krabitls/src/connection.rs:966-994 | with scratch and send buffers sized as the policy announces, a flight that is built is sent, under every legal limit |
| WholeHandshake.TranscriptIsTheWire | krabitls/src/client/engine.rs:550-720 | over every completed handshake the hashed bytes are ClientHello, ServerHello and server flight in order; the handshake state is the schedule of section 7.1 of RFC 8446 for the agreed secret and the first two, with the cipher of the suite, and the application state its other half for everything through the server's Finished; without a CertificateRequest the client ends in one record, spelled out byte by byte, around the Finished of that transcript, with one in its policy's answer to that request's own context and schemes, and the transcript grows by exactly that flight (section 4.4.1 of RFC 8446) |
| WholeHandshake.PlainEndOnWire | krabitls/src/connection.rs:846-900 | the client's last record without a request: header, nonce of number zero, client handshake keys, and a Finished with the transcript's verify_data |
| Handshake.FinishReachesServer | krabitls/src/connection.rs:846-931 | the one-record Finished opens under the client's handshake keys at number zero and its MAC checks against the transcript through the server's Finished |
| Handshake.FlightReachesServer | krabitls/src/connection.rs:954-1016 | the policy's records, interleaved with any ChangeCipherSpec, rebuild at the server a flight that passes its context, signature and MAC checks |
| WholeHandshake.ShareFound | krabitls/src/connection.rs:633-684 | the ServerHello parser leaves the key in exactly the field the key agreement of the selected group reads, for every feature combination, so the shared secret is that agreement's result and a refused share is the all-zero error |
| WholeHandshake.HonestHelloRead | krabitls/src/connection.rs:583-731 | every legal answer to the ClientHello, in either extension order, is read and gives exactly the keys the server has, when hash, extract and expansions of up to 32 bytes succeed and the agreement accepts the server's share |
| WholeHandshake.HonestHandshakeCompletes | krabitls/src/client/engine.rs:497-720 | an honest server, described by what it sends and its own key schedule, gets through with a request or without, under every policy that can answer, for every cut of its flight into records, if and only if the leaf's key fits the connection's copy of it, when hash, extract and expansions of up to 32 bytes succeed |
| WholeHandshake.FinalizeAndFinishStep | krabitls/src/client/engine.rs:550-720 | the engine's step: peer limit, parse, the request decision by policy, chain, trust, leaf parse, verifier match and hostname, finalize, and the finish that the request calls for, with every error in order |
| WholeHandshake.RequestExactly | krabitls/src/client/engine.rs:583-606 | a request meets a policy that answers none with a refusal, and one that answers with exactly the request's context and schemes |
| WholeHandshake.FinishRefused | krabitls/src/client/engine.rs:550-720 | the first step that fails decides the error: peer limit, request, chain, verification, answer |
| WholeHandshake.ServerFlightArrives | krabitls/src/client/engine.rs:497-546 | for every cut of a flight into records, with ChangeCipherSpec among them and bytes after Finished, the bytes collected have the flight as flight_bytes and finalizing gives the verdict on the flight |
| WholeHandshake.CollectReads | krabitls/src/connection.rs:740-779 | records are fed one by one until the flight is complete and not further |
| WholeHandshake.PolicyBuilds | krabitls/src/client_flight.rs:311-435 | a policy that answers requests always builds its flight when its certificate is within the caps, its scheme offered, its signer signs, and hash, extract and expansions of up to 32 bytes succeed |
| WholeHandshake.CheckIdentity | krabitls/src/client/engine.rs:607-634 | chain extraction, strategy, empty chain, leaf parse, verifier match and hostname, each with its own error and in that order |
| WholeHandshake.LeafExactly | krabitls/src/client/engine.rs:607-634 | a leaf is taken if and only if the strategy trusts the chain and its first certificate parses to a key the prepared verifier matches, under the right name |
| WholeHandshake.LeafRefused | krabitls/src/client/engine.rs:607-634 | each refusal of a chain by its cause, in order |
| WholeHandshake.PeerLimitExactly | krabitls/src/client/engine.rs:560-568 | the limit kept is the one EncryptedExtensions names once, from 64 to 16385, or 16385 when it names none |
| WholeHandshake.OverLimit | krabitls/src/client/engine.rs:508-520 | a protected record over the receive limit is refused unread, and nothing else is refused for its length |
| WholeHandshake.CollectStops | krabitls/src/client/engine.rs:497-546 | once the flight is complete the records behind it are left alone |
| LargeModulus.LargeModulusFails | krabitls/src/connection.rs:330-369 | a client, a server, their keys and every record of an honest handshake with a 3072-bit RSA leaf, given out in full: every hypothesis of HonestHandshakeCompletes holds and the run fails |
| WholeHandshake.CompletedKeyFits | krabitls/src/connection.rs:330-369 | in every run that completes the trusted leaf's key fits the connection's copy, so an RSA modulus over 256 bytes never completes |
| WholeHandshake.ConnectedInLockstep | krabitls/src/connection.rs:902-1016 | endpoints that finished on the same transcript are in lockstep from the first application record on, when HKDF expansions of up to 32 bytes succeed |
| EndToEnd.PlainEndTaken | krabitls/src/connection.rs:846-931 | at the end of every completed handshake without a request, the server opens the one record and finds the MAC of its transcript |
| EndToEnd.PolicyEndTaken | krabitls/src/connection.rs:954-1016 | at the end of every completed handshake with one, the server rebuilds a flight that passes its context, signature and MAC checks, whatever ChangeCipherSpec records come between |
| EndToEnd.KeysConverse | krabitls/src/connection.rs:902-1016 | a client and a server that each derive application keys from one transcript can hold every two-way conversation |
| EndToEnd.Connection | krabitls/src/client/engine.rs:497-1108 | an honest server and a client whose key copy holds the leaf's key complete the handshake over the transcript of every message sent, the server takes the client's answer, the application keys are those of that transcript, and every conversation that follows, in both directions at once, delivers exactly what each side sends |
| PinnedHandshake.CompletedChain | krabitls/src/client/engine.rs:607-634 | with pinned roots as strategy, a handshake that completes, whatever the server did, had a Certificate message whose certificates in order are within both caps and have a trusted path, with a leaf of the right name whose key can be used and kept |
| PinnedHandshake.PinOfParsedKey | krabitls/src/backends/pinned_roots.rs:162-192 | with the TLV parser a certificate is pinned if and only if its own hash is, or the hash of the SubjectPublicKeyInfo the parser read |
| PinnedHandshake.CompletedOverTlv | krabitls/src/backends/pinned_roots.rs:258-332 | the TLV parser in that place: the climb of a completed handshake's chain ends where the octets or the parsed key are pinned, or under a stored root above the last certificate |
| PinnedHandshake.PinnedExactly | krabitls/src/client/engine.rs:497-720 | an otherwise honest server gets through if and only if its chain is such a one |
| PinnedRoots.AnchorMatches | krabitls/src/backends/pinned_roots.rs:162-192 | the two-pass loop is membership of the certificate or SPKI hash, with the SPKI asked for only when needed |
| PinnedRoots.VerifyChain | krabitls/src/backends/pinned_roots.rs:258-332 | the iterative walk with early exit computes the recursive verdict |
| PinnedRoots.AcceptedExactly | krabitls/src/backends/pinned_roots.rs:226-332 | a chain is accepted if and only if it is within the cap, its leaf is usable, and it is to be trusted, over the answers of parser, clock and ledger: up to some certificate each is in date, unpinned and signed by the next, which is a CA, not barred from signing, with a path length for the CAs below; and that one is in date and pinned, or the last and so issued by a stored anchor in date (sections 4.2.1.9 and 6.1.4 of RFC 5280) |
| PinnedRoots.IssuerExactly | krabitls/src/backends/pinned_roots.rs:226-250 | who may issue, in terms of the certificate's own constraints, and each refusal by its cause |
| PinnedRoots.PinExactly | krabitls/src/backends/pinned_roots.rs:162-192 | pinned is its hash or its SPKI's hash in the ledger; known not to be pinned needs the SPKI wherever one is pinned |
| PinnedRoots.RefusedFor | krabitls/src/backends/pinned_roots.rs:258-332 | the first thing wrong on the climb decides the error |
| PinnedRoots.AbovePinIgnored | krabitls/src/backends/pinned_roots.rs:277-332 | certificates above a pinned one never affect the verdict |
| PinnedRoots.LedgerOrderIrrelevant | krabitls/src/backends/pinned_roots.rs:162-221 | the verdict is the same under every permutation of the anchors |
| PinnedRoots.GrowingLedger | krabitls/src/backends/pinned_roots.rs:162-192 | a larger ledger rejects an accepted chain if and only if, on that climb, it must ask for an SPKI the parser cannot give before it meets a pin |
| PinnedRoots.GrowingLedgerKeeps | krabitls/src/backends/pinned_roots.rs:162-332 | with a parser that gives the SPKI of all it parses, adding anchors never changes an acceptance |
| PinnedRoots.GrowingLedgerCanReject | krabitls/src/backends/pinned_roots.rs:162-192 | without that, a caller-supplied parser, a ledger of 32-byte fingerprints, a chain and an added pin where it does |
| PinnedRoots.GrowingLedgerWithTlvParser | krabitls/src/backends/tlv_cert.rs:117-292 | the TLV parser is of that kind, so adding anchors is always safe with it |
| Tlv.ShiftInLoop | krabitls/src/backends/tlv.rs:58-65 | the shift loop computes the big-endian value modulo the word size |
| Tlv.ReadTlvLoop | krabitls/src/backends/tlv.rs:32-83 | the reader as written computes the specification, for 16-, 32- and 64-bit words |
| Tlv.ReadUndoesEncode | krabitls/src/backends/tlv.rs:32-83 | reading a minimally encoded TLV gives back tag, body and rest |
| Tlv.ReadIsCanonical | krabitls/src/backends/tlv.rs:32-83 | what is read re-encodes to what was consumed if and only if the word is wider than 16 bits or the length takes at most two octets (section 10.1 of ITU-T X.690) |
| Tlv.LengthExactly | krabitls/src/backends/tlv.rs:32-83 | the minimal length is that of sections 8.1.3 and 10.1 of ITU-T X.690: short below 128, else a count and as many octets, the first not zero |
| Tlv.SixteenBitLength | krabitls/src/backends/tlv.rs:58-71 | on a 16-bit word a concrete non-minimal length of three octets is accepted |
| TlvCert.SkipLoop | krabitls/src/backends/tlv_cert.rs:286-288 | the counted cursor loop skips exactly that many TLVs |
| TlvCert.LookupsAgree | krabitls/src/backends/tlv_cert.rs:117-323 | whenever the field walk accepts, spki_der returns the SPKI it read and extensions_slice the tail it scans |
| TlvCert.ParseUndoesEncode | krabitls/src/backends/tlv_cert.rs:117-196 | parsing an encoded certificate gives back its parts, whatever follows it |
| TlvCert.ParseIsCanonical | krabitls/src/backends/tlv_cert.rs:117-196 | at every word width, what the field walk accepts is one encoded certificate, possibly followed by bytes it ignores, if and only if the word is wider than 16 bits or no header it reads has more than two length octets |
| CertFaults.FirstFault | krabitls/src/backends/tlv_cert.rs:117-196 | a framed certificate with anything in its parts is refused for its first fault in the order of the encoding (unused bits, spare octets, version, algorithm mismatch, key bits) and with none gives exactly its fields |
| TlvCert.WalkExtensionsForSan | krabitls/src/backends/tlv_cert.rs:420-466 | the nested loops compute the specification |
| TlvCert.SanIsFirst | krabitls/src/backends/tlv_cert.rs:420-466 | on a well-formed list the result is the first SubjectAltName |
| TlvCert.WalkExtensionsForCa | krabitls/src/backends/tlv_cert.rs:327-369 | the nested loops compute the specification |
| TlvCert.NarrowIsEncoding | krabitls/src/backends/tlv_cert.rs:117-196 | with such headers the fields returned are that certificate's own, at every width |
| TlvCert.OverlongAccepted | krabitls/src/backends/tlv_cert.rs:117-196 | on a 16-bit word every certificate with a body of at least 128 bytes is also accepted under an outer frame that encodes no certificate |
| TlvCert.SixteenBitCertificate | krabitls/src/backends/tlv_cert.rs:117-196 | a concrete Ed25519 certificate that the whole 16-bit parser accepts and that is the encoding of no certificate |
| TlvCert.CaScanExactly | krabitls/src/backends/tlv_cert.rs:327-414 | the CA scan accepts a tail if and only if its extensions are well formed, every basicConstraints and keyUsage in it can be read and no other is critical; it then grants, field by field, what the last extension carrying that field says, and nothing that none says |
| CertExtensions.ExtensionsExactly | krabitls/src/backends/tlv_cert.rs:327-466 | the extensions read are those written, in order, with criticality as the BOOLEAN says, inside the first [3] behind parts of other tags; on 32- and 64-bit words nothing else is read |
| CertExtensions.KeyUsageExactly | krabitls/src/backends/tlv_cert.rs:394-401 | keyCertSign is bit 5 of the BIT STRING that is the whole value |
| CertExtensions.BasicExactly | krabitls/src/backends/tlv_cert.rs:373-392 | basicConstraints says what is written in it as far as it is there: cA by its first octet, the path length as a number |
| CertExtensions.PathLenExactly | krabitls/src/backends/tlv_cert.rs:404-416 | a path length is the number its octets write, accepted exactly when not negative and within 32 bits |
| CertExtensions.SanExactly | krabitls/src/backends/tlv_cert.rs:440-466 | the names are the content of the SEQUENCE that starts the value |
| EcdsaDer.Cursor.ReadTlv | krabitls/src/backends/ecdsa_verify.rs:82-105 | the cursor read computes the specification and moves past what it read |
| EcdsaDer.IntToPadded | krabitls/src/backends/ecdsa_verify.rs:112-124 | left-pads a minimal nonnegative INTEGER into its field and touches nothing else, or refuses and touches nothing |
| EcdsaDer.DerSigToP1363 | krabitls/src/backends/ecdsa_verify.rs:127-143 | fills the output with r and s exactly when the DER decodes at that width |
| EcdsaDer.DerInt | krabitls/src/backends/client_auth.rs:280-296 | appends the minimal INTEGER for every nonempty value, or fails exactly when it does not fit |
| EcdsaDer.DerEcdsaSig | krabitls/src/backends/client_auth.rs:302-311 | the encoder never fails within the signature capacity and gives the SEQUENCE of both |
| EcdsaDer.IntegerBijection | krabitls/src/backends/ecdsa_verify.rs:112-124 | for a fixed width, INTEGER contents and padded values correspond one to one |
| EcdsaDer.SignatureBijection | krabitls/src/backends/ecdsa_verify.rs:82-143 | for widths 1 to 52, so for 32 and 48, a DER string decodes to r and s if and only if it is the encoder's output on them |
| EcdsaDer.ContentExactly | krabitls/src/backends/client_auth.rs:280-296 | the content octets are the one minimal two's-complement form of the number (section 8.3 of ITU-T X.690), and are read back to its width |
| EcdsaDer.SignatureExactly | krabitls/src/backends/ecdsa_verify.rs:82-143 | a string decodes to r and s if and only if it is a SEQUENCE of the INTEGERs of those two numbers, which is what the encoder writes |

## Left out

- AEAD, hash, HKDF, key agreement and signature arithmetic: function values.
- Constant-time behaviour, zeroization, blinding, stack and flash use: not functional properties.
- Release against debug builds: the 64-bit sequence numbers wrap, as release builds do; the debug assertions are preconditions.
- Key-family classification of a certificate (`classify_spki_algorithm`, the RSA, ML-DSA and ECDSA key views) is one abstract partial function of the fields; of its arms only Ed25519 is written out.
- `der_cert.rs`, validity parsing, hostname and pin matching, `pin_or_self_signed.rs`: single comparisons over the `der` crate.
- Framing of the receive buffer, streams, transports, configuration and parameter builders: plumbing around the steps modelled here.
- DTLS: only its label prefix is modelled.
- The engine's Busy answer while a record waits to be sent only narrows when an endpoint may speak; the conversations of `Duplex.dfy` let either end speak, and start a KeyUpdate, at any time.
- Aead.EncryptRecord: a cipher backend that refuses to seal is not modelled, so its AeadFailed error is not either.
- Trust strategy, leaf parse, verifier match and hostname check of the engine are function values with the engine's order and errors; the strategy's and the hostname check's own error detail is not modelled. Pinned roots over the TLV parser are one strategy (`PinnedHandshake.dfy`).
- Two writes to one buffer: `WithClientAuth` builds into one scratch and the records into another; that they do not overlap is a precondition of `Handshake.Connecting.FinishHandshakeWithPolicy`.
- Handshake.Connecting.ReadServerHello: the key agreement is a function of group and share, not of an ephemeral secret held in the connection.
