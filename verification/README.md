# ConnectCoin P2C tools: a verified model

The tools build a TLS 1.3 ClientHello that carries a payment claim, capture the server's answer, pack five
handshake messages into a proof, search connections until a proof meets a work target, verify proofs, and publish
the result as a file. This project models those parts in Dafny and proves what they promise.

Each format has a declarative side, printers and well-formedness predicates (`Messages`, `Wire`, the printers of
`Der` and `Pss`), and decoding functions that are proved to accept exactly the printed forms. The parsers that thread a
mutable reader or a position are classes and methods with loops, each proved to compute its decoding function. The
capture, the search and the publication are machines over explicit steps; a class with the program's own variables is
proved to follow each machine, and the guarantees are proved over every run of it.

| file | models |
|---|---|
| `Bytes`, `Wire` | byte strings, big-endian integers, length-prefixed vectors, extension lists, the `Reader` cursor |
| `Domain`, `Signatures`, `Hashes` | canonical names, the signature mask, tagged hashes and the work target |
| `Messages`, `Protocol`, `ProofFormat`, `Parser`, `ProofBytes` | the proof format, its decoder, its theorems, `protocol.py` as it runs, the format at its byte offsets |
| `ClientHelloBuilder`, `ClientHelloBytes`, `ServerHelloParser` | the printer of ClientHello, every byte it sends, and the second ServerHello parser of `tls13.py` |
| `KeySchedule`, `Records` | HKDF, nonces, inner plaintext |
| `Reassembly`, `Capture`, `CaptureRun`, `Honest` | from socket bytes to five messages; the program over a socket; exactly which peers are captured |
| `Der`, `Pss` | the DER reader and the RSASSA-PSS key restrictions of `verify.py` |
| `Verify` | the order of checks of `verify_connection_proof` |
| `Search`, `SearchRun` | the proof search as a machine; the loop of `generator.py` |
| `Publish`, `PublishLimits`, `PublishRun` | interleaved writers over one directory; exactly when they are safe; `write` as one caller runs it |

SHA-256, HMAC, the AEAD, X25519 and the X.509 library are parameters: deterministic functions of their inputs, with
output lengths only. Socket bytes, chunk sizes, deadlines, clock readings, completions and failing system calls are
nondeterministic inputs. All exceptions of one parser are one outcome (`None`), since they are one class in the program;
the capture distinguishes where it raises.

Three points where the code says more or less than its documentation. An explicitly encoded default salt of 20 in PSS
parameters is accepted by the DER reader (it is one of the listed encodings); the documentation says that the pinned
provider rejects such a key elsewhere. The two size limits on ServerHello and on the whole proof can never be what refuses
a captured flight (`ServerHelloParser.FramingByIndex`, `Capture.ClosingFailsOnlyFor`), and the check of the signature mask
after the closing parse never fires. Publication is atomic exactly when no call in the directory has a destination that
a staging file could get: one shaped like a staging name that was not there at the start
(`PublishLimits.DestinationsSettledExactly`). One such overwriting call is enough to let a call for any other name publish the wrong
content (`PublishLimits.WrongContentPublished`), and a call for such a name can refuse to overwrite its own staging file
and publish nothing although no step failed (`PublishLimits.RefusesItself`).

## Model

| member | source | states |
|---|---|---|
| ProofFormat.AcceptsExactlyPrintedProofs | src/connectcoin_p2c_tools/protocol.py:347-391 | for all bytes, domains and challenges: accepted with fields p if and only if p is well formed for the claim and the bytes are p printed, so printing then parsing and parsing then printing are identities |
| ProofFormat.WorkPreimageUnambiguous | src/connectcoin_p2c_tools/protocol.py:376-379 | accepted proofs with equal work preimages have the same four messages, decoded fields, domain and challenge |
| ProofFormat.AcceptedProofsPrefixFree | src/connectcoin_p2c_tools/protocol.py:352-369 | no accepted proof is a proper prefix of another, even for other domains or challenges |
| ProofFormat.CertificateVerifySwaps | src/connectcoin_p2c_tools/hashes.py:47-55 | any other well-formed CertificateVerify for the same ClientHello keeps acceptance, the other messages and the work preimage, exactly when the total still fits |
| ProofFormat.ClientHelloBindsClaim | src/connectcoin_p2c_tools/protocol.py:142-167 | one ClientHello is accepted for at most one domain and challenge |
| Protocol.DecodeClientHelloSound | src/connectcoin_p2c_tools/protocol.py:162-246 | a decoded ClientHello is well formed for the claim and prints to the body |
| Protocol.DecodeClientHelloPrinted | src/connectcoin_p2c_tools/protocol.py:162-246 | a printed well-formed ClientHello decodes to itself |
| Protocol.DecodeServerHelloSound | src/connectcoin_p2c_tools/protocol.py:249-286 | a decoded ServerHello echoes the session id, selects what was offered, and prints to the body |
| Protocol.DecodeServerHelloPrinted | src/connectcoin_p2c_tools/protocol.py:249-286 | a printed well-formed ServerHello decodes to itself |
| Protocol.DecodeEntriesPrinted | src/connectcoin_p2c_tools/protocol.py:307-319 | certificate entries decode to themselves exactly when there are at most as many as allowed |
| Protocol.DecodeCertificateSound | src/connectcoin_p2c_tools/protocol.py:298-319 | a decoded Certificate has 1 to 8 entries of 1 to 16384 bytes and prints to the body |
| Protocol.TakeHandshakePrinted | src/connectcoin_p2c_tools/protocol.py:112-123 | a framed message is read back, with what follows, exactly when it fits the limit |
| Protocol.DecodeServerNameExact | src/connectcoin_p2c_tools/protocol.py:142-153 | a `server_name` body names a host alone exactly when it is that host printed |
| Wire.DecodeItemsPrinted | src/connectcoin_p2c_tools/protocol.py:132-138 | extension and key-share lists decode to what was printed |
| Wire.Reader.Read | src/connectcoin_p2c_tools/protocol.py:63-68 | returns the next bytes and advances, or leaves the position and fails when too few are left |
| Wire.ReadItems | src/connectcoin_p2c_tools/protocol.py:131-139 | the loop builds the dictionary of the list, and fails exactly on malformed lists and repeated types |
| Wire.ReadExtensions | src/connectcoin_p2c_tools/protocol.py:126-139 | the block must fill the reader; same dictionary |
| Parser.ReadHandshake | src/connectcoin_p2c_tools/protocol.py:112-123 | returns whole message and body of the expected type within the limit |
| Parser.ParseSni | src/connectcoin_p2c_tools/protocol.py:142-153 | succeeds exactly on the printed name of the expected domain |
| Parser.ReadShareList | src/connectcoin_p2c_tools/protocol.py:236-245 | the loop returns the groups exactly of lists of valid shares without a repeated group |
| Parser.ParseClientHello | src/connectcoin_p2c_tools/protocol.py:162-246 | computes the decoded client state |
| Parser.ParseServerHello | src/connectcoin_p2c_tools/protocol.py:249-286 | succeeds exactly when the decoder does |
| Parser.ParseEncryptedExtensions | src/connectcoin_p2c_tools/protocol.py:289-295 | succeeds exactly when the decoder does |
| Parser.ReadEntries | src/connectcoin_p2c_tools/protocol.py:307-319 | the loop returns the certificates of at most eight entries |
| Parser.ParseCertificateMessage | src/connectcoin_p2c_tools/protocol.py:322-328 | the chain of one bounded Certificate message |
| Parser.ParseCertificateVerify | src/connectcoin_p2c_tools/protocol.py:331-344 | scheme and signature of a decodable CertificateVerify |
| Parser.ParseProof | src/connectcoin_p2c_tools/protocol.py:347-391 | the program over one reader returns the messages, chain, scheme, signature and hashes of the decoded proof, and fails exactly when decoding does |
| ProofBytes.ParsedSpelledOut | src/connectcoin_p2c_tools/protocol.py:354-391 | the five returned messages are the proof after its version byte, in order, with their types, lengths and limits; both hashes, as literal preimages, are over the first four |
| ProofBytes.ParsedBinds | src/connectcoin_p2c_tools/protocol.py:162-170 | challenge, leaf certificate, scheme and signature stand at their offsets in the returned messages |
| ProofBytes.OpeningSpelledOut | src/connectcoin_p2c_tools/protocol.py:162-185 | the printed ClientHello body byte by byte |
| ProofBytes.ServerHelloSpelledOut | src/connectcoin_p2c_tools/protocol.py:249-266 | the printed ServerHello body byte by byte |
| ProofBytes.CertificateSpelledOut | src/connectcoin_p2c_tools/protocol.py:298-306 | the printed Certificate body byte by byte |
| ProofBytes.EntrySpelledOut | src/connectcoin_p2c_tools/protocol.py:307-319 | the printed certificate entry byte by byte |
| ProofBytes.CertificateVerifySpelledOut | src/connectcoin_p2c_tools/protocol.py:331-344 | the printed CertificateVerify body byte by byte |
| ProofBytes.KeyShareSpelledOut | src/connectcoin_p2c_tools/protocol.py:156-159 | a key share is acceptable exactly as one of two literal forms |
| ProofBytes.ClientHelloRules | src/connectcoin_p2c_tools/protocol.py:186-246 | which extensions and values a well-formed ClientHello has and may not have, in registry numbers, both directions |
| ProofBytes.ServerHelloRules | src/connectcoin_p2c_tools/protocol.py:249-286 | the same for ServerHello |
| ProofBytes.OtherRules | src/connectcoin_p2c_tools/protocol.py:289-344 | the same for the other three messages |
| Domain.CanonicalIsDottedLabels | src/connectcoin_p2c_tools/domain.py:4-16 | canonical names are exactly the dotted lists of canonical labels of at most 253 bytes |
| Domain.CanonicalIsRegular | src/connectcoin_p2c_tools/domain.py:4-16 | the same names without labels: at most 253 lower-case letters, digits, hyphens and dots, no hyphen or dot first, last or beside a dot, a dot in every 64 bytes |
| Signatures.AcceptedSchemesTable | src/connectcoin_p2c_tools/signatures.py:29-31 | the accepted schemes of each mask, in table order; never none |
| Signatures.SchemeAllowedByBit | src/connectcoin_p2c_tools/signatures.py:34-36 | a scheme is allowed exactly when the mask has its bit |
| ClientHelloBuilder.BuildClientHello | src/connectcoin_p2c_tools/tls13.py:106-177 | raises exactly on bad arguments; never longer than 442 bytes |
| ClientHelloBuilder.BuiltClientHelloParses | src/connectcoin_p2c_tools/tls13.py:106-177 | what is built is accepted by the proof parser, which recovers two ciphers, X25519 alone, the session id and exactly the schemes of the mask, in order |
| ClientHelloBytes.ClientHelloSpelledOut | src/connectcoin_p2c_tools/tls13.py:106-177 | the whole ClientHello as literal bytes around the domain, challenge, session id, key and the schemes of the mask |
| ClientHelloBytes.SentDictionary | src/connectcoin_p2c_tools/tls13.py:106-177 | what a receiver decodes: exactly extensions 0, 10, 13, 43, 50 and 51 with their literal data; the one group offered is that of the one key share |
| ServerHelloParser.ParseExtensionList | src/connectcoin_p2c_tools/tls13.py:272-287 | the index-based extension parser agrees with the cursor-based one on every input |
| ServerHelloParser.ParseServerHello | src/connectcoin_p2c_tools/tls13.py:290-332 | for every message, session id and mask: succeeds, with the same cipher and share, exactly when the proof parser accepts the message against the ClientHello that was sent |
| ServerHelloParser.FramingByIndex | src/connectcoin_p2c_tools/tls13.py:291-294 | the 2048-byte limit of the other parser never separates the two |
| ServerHelloParser.ServerHelloLength | src/connectcoin_p2c_tools/tls13.py:290-332 | every accepted ServerHello is 90 bytes and the session id |
| KeySchedule.HkdfExpand | src/connectcoin_p2c_tools/tls13.py:184-194 | the loop returns the first L bytes of T(1), T(2), ... of section 2.3 of RFC 5869, and fails exactly above 8160; the counter stays a byte |
| KeySchedule.EnoughBlocks | src/connectcoin_p2c_tools/tls13.py:190-194 | ceil(L / 32) blocks give that output |
| KeySchedule.ExpandIsChained | src/connectcoin_p2c_tools/tls13.py:184-194 | the output read back: every 32-byte block is the HMAC of the block before it, the info and its number |
| KeySchedule.ServerHandshakeKeysExact | src/connectcoin_p2c_tools/tls13.py:209-226 | key and IV are, if and only if, those of the ladder of section 7.1 of RFC 8446 as nested HMACs over literal bytes |
| Capture.KeysForExact | src/connectcoin_p2c_tools/tls13.py:217-226 | a 16-byte key for suite 0x1301 and a 32-byte key for 0x1303, from that ladder |
| KeySchedule.LabelInfoInjective | src/connectcoin_p2c_tools/tls13.py:197-202 | length, label and context can be read off the info string |
| Records.NonceInjective | src/connectcoin_p2c_tools/tls13.py:335-339 | under one IV different sequence numbers give different nonces |
| Records.NonceBits | src/connectcoin_p2c_tools/tls13.py:335-339 | bit by bit the nonce is the IV exclusive-ored with the big-endian sequence number in twelve bytes |
| Records.UnpadExact | src/connectcoin_p2c_tools/tls13.py:353-356 | unpadding returns a type and content exactly when the plaintext is that content, that nonzero type, and some number of zeros |
| Capture.RecordRoundTrip | src/connectcoin_p2c_tools/tls13.py:102-103 | a record as sent is read back whole, up to the refused versions and sizes |
| CaptureRun.RecvExact | src/connectcoin_p2c_tools/tls13.py:236-244 | exactly the next bytes, whatever the chunks; raises exactly if the socket broke or the peer closed too early |
| CaptureRun.RecvRecord | src/connectcoin_p2c_tools/tls13.py:247-256 | the record at the front of the stream, or the failure the bytes determine |
| CaptureRun.Buffer.PopHandshake | src/connectcoin_p2c_tools/tls13.py:259-269 | cuts the first complete message off the buffer in place |
| CaptureRun.ReadServerHello | src/connectcoin_p2c_tools/tls13.py:396-409 | computes the plaintext phase; the buffer never exceeds 65535 + 16640 bytes |
| CaptureRun.PopMessages | src/connectcoin_p2c_tools/tls13.py:446-460 | the inner loop over expected messages |
| CaptureRun.ReadFlight | src/connectcoin_p2c_tools/tls13.py:421-460 | computes the encrypted phase; the state at every loop head follows from the last by one record and keeps the invariant, with its bound on the buffer |
| CaptureRun.CaptureProof | src/connectcoin_p2c_tools/tls13.py:365-476 | unless the connection broke, the result is determined by the claim, the fresh values and the peer's bytes, however chunked |
| Reassembly.PopAllContinues | src/connectcoin_p2c_tools/tls13.py:443-460 | popping, receiving more and popping again equals popping once from everything |
| Reassembly.PopAllConserves | src/connectcoin_p2c_tools/tls13.py:443-460 | captured messages and leftover are exactly what was received; an unfinished buffer is below 65536 bytes |
| Reassembly.CompletedCapturesAgree | src/connectcoin_p2c_tools/tls13.py:443-460 | captures completed over prefixes of one stream captured the same messages |
| Capture.StepConsistent | src/connectcoin_p2c_tools/tls13.py:425-460 | every record step keeps: captured and leftover are the one-pass result, the sequence counts the decrypted records, nonce k is the nonce of k, an unfinished buffer is short |
| Capture.FlightGuarantees | src/connectcoin_p2c_tools/tls13.py:396-460 | every completed flight: one-pass reassembly, nothing lost, checked messages, no nonce used twice |
| Capture.FramingIsIrrelevant | src/connectcoin_p2c_tools/tls13.py:425-460 | two flights over prefixes of one handshake content captured the same messages, under any keys and framing |
| Capture.PlainReassembles | src/connectcoin_p2c_tools/tls13.py:396-409 | the ServerHello is exactly the handshake bytes of the records read |
| Capture.PlainFramingIsIrrelevant | src/connectcoin_p2c_tools/tls13.py:396-409 | two plaintext phases over one handshake stream read the same ServerHello |
| Capture.ClosingFailsOnlyFor | src/connectcoin_p2c_tools/tls13.py:462-476 | the closing parse refuses a flight if and only if its EncryptedExtensions or CertificateVerify is unacceptable; the scheme check after it never fires; at most 62005 bytes |
| Capture.CaptureOutcome | src/connectcoin_p2c_tools/tls13.py:365-476 | the same over every run of the capture |
| Honest.CapturedExactly | src/connectcoin_p2c_tools/tls13.py:365-476 | for all byte streams: captured as m if and only if m answers the ClientHello and the stream is framed records that carry m, under the keys of the transcript, within the buffer |
| Honest.CapturedWasServed | src/connectcoin_p2c_tools/tls13.py:365-476 | soundness: whatever is captured came as framed records carrying the ServerHello in clear and content that opens, record by record, to exactly the three messages and a leftover |
| Honest.ServedIsCaptured | src/connectcoin_p2c_tools/tls13.py:365-476 | completeness: messages that answer are captured however they are cut into records if and only if the content up to the record that completes them, less the messages complete before it, is at most 65536 bytes; else the capture fails for exactly that |
| Honest.ShortRecordsFit | src/connectcoin_p2c_tools/tls13.py:421-460 | with records of at most 2^14 bytes of content every answer fits |
| Honest.FlightOutcome | src/connectcoin_p2c_tools/tls13.py:421-460 | from any point of the encrypted phase: what becomes of records that carry a flight |
| Honest.PaddingIsIrrelevant | src/connectcoin_p2c_tools/tls13.py:342-356 | every amount of padding of an encrypted record opens to the same content |
| Honest.OpeningIsRead | src/connectcoin_p2c_tools/tls13.py:396-409 | every split of the ServerHello into records is read whole |
| Honest.OpenedIsCaptured | src/connectcoin_p2c_tools/tls13.py:421-460 | any split of any amount of encrypted content into records, from any reachable state, captures what one pass over the content does, when the records are short enough for the messages |
| Honest.PopAllPrefix | src/connectcoin_p2c_tools/tls13.py:443-460 | receiving only part of acceptable content never makes popping fail |
| Hashes.HexOrder | src/connectcoin_p2c_tools/hashes.py:58-63 | numeric order is lexicographic order of hexadecimal, for every length |
| Hashes.TargetIsLexicographic | src/connectcoin_p2c_tools/hashes.py:58-63 | a hash meets a target exactly when its display form is lexicographically at most the target |
| Hashes.DisplayRoundTrip | src/connectcoin_p2c_tools/hashes.py:15-34 | the two display conversions are inverse bijections |
| Hashes.ClaimMessageInjective | src/connectcoin_p2c_tools/hashes.py:37-44 | different transactions or inputs never share a claim preimage |
| Hashes.ClaimMessageLayout | src/connectcoin_p2c_tools/hashes.py:37-44 | 36 bytes that give back the displayed transaction id and, little-endian, the input index |
| Hashes.TaggedHashesSpelledOut | src/connectcoin_p2c_tools/hashes.py:5-12 | both tagged hashes over the literal tag bytes, hashed twice |
| Verify.ChallengeSpelledOut | src/connectcoin_p2c_tools/hashes.py:37-44 | the challenge of an envelope as a hash of literal tag and claim bytes |
| Der.AcceptsExactlyPrintedElements | src/connectcoin_p2c_tools/verify.py:193-217 | decoding accepts exactly concatenations of low-tag elements with minimal lengths, and is inverse to printing |
| Der.LengthOctets | src/connectcoin_p2c_tools/verify.py:204-213 | the length octets of every length spelled out |
| Der.DecodeDistributes | src/connectcoin_p2c_tools/verify.py:193-217 | after an accepted prefix decoding goes on as if it had not been there |
| Der.DerElements | src/connectcoin_p2c_tools/verify.py:193-217 | the loop computes the decoding |
| Der.SingleExact | src/connectcoin_p2c_tools/verify.py:220-224 | one element of the expected tag, and nothing else |
| Der.IntegerExact | src/connectcoin_p2c_tools/verify.py:236-245 | a bijection between minimal INTEGER elements and 0 to 2^31 - 1 |
| Pss.Sha256AlgorithmExact | src/connectcoin_p2c_tools/verify.py:227-233 | exactly two encodings, without and with NULL |
| Pss.FoldIsPolicy | src/connectcoin_p2c_tools/verify.py:272-295 | the fold over ordered tags with mutable defaults accepts exactly what looking fields up under the defaults of section 3.1 of RFC 4055 does |
| Pss.AcceptedParametersAreListed | src/connectcoin_p2c_tools/verify.py:270-295 | present parameters are accepted if and only if they are a listed spelling printed |
| Pss.SpellingsDiffer | src/connectcoin_p2c_tools/verify.py:270-295 | different spellings print different byte strings |
| Pss.AcceptedParametersNumber | src/connectcoin_p2c_tools/verify.py:270-295 | exactly 272 byte strings are accepted |
| Pss.PermittedAlgorithmsAreListed | src/connectcoin_p2c_tools/verify.py:265-295 | a key passes exactly with absent parameters or a listed SEQUENCE |
| Pss.KeyAlgorithmExact | src/connectcoin_p2c_tools/verify.py:257-264 | what is found is an algorithm if and only if the bytes print a certificate with it as key algorithm: an optional version, five elements, the key info, any rest |
| Pss.CheckFields | src/connectcoin_p2c_tools/verify.py:272-295 | the loop and the check after it compute the fold |
| Pss.CheckPssKeyRestrictions | src/connectcoin_p2c_tools/verify.py:248-299 | accepts exactly the printed certificates whose key algorithm is permitted |
| Verify.VerifiesExactly | src/connectcoin_p2c_tools/verify.py:346-375 | an envelope verifies if and only if its proof is a printed well-formed proof for its own claim, with an allowed scheme and enough work, whose chain and signature the library accepts |
| Verify.VerdictIsFirstFailure | src/connectcoin_p2c_tools/verify.py:352-375 | the verdict names the first of the ordered checks that fails; the displayed challenge and hashes can be read back |
| Verify.TargetMattersOnlyThroughWork | src/connectcoin_p2c_tools/verify.py:352-367 | the verdict depends on the target only through whether the work meets it |
| Verify.PreflightThenWork | src/connectcoin_p2c_tools/generator.py:222-236 | verifying at the all-`f` target and meeting the real one is verifying at the real one |
| Search.ShortcutIsVerification | src/connectcoin_p2c_tools/generator.py:213-245 | with or without the preflight behind it, a capture ends the search if and only if its candidate verifies at the real target, and then with that candidate |
| Search.EveryParsedHashCounts | src/connectcoin_p2c_tools/generator.py:214-220 | a capture's work hash is compared exactly when it parses, whether or not it later verifies |
| Search.CapturesAlwaysParse | src/connectcoin_p2c_tools/generator.py:214-217 | a completed capture for this claim always parses here |
| Search.CapturesNeverMalformed | src/connectcoin_p2c_tools/generator.py:214-236 | across capture, parser and verifier: a captured candidate is never refused as malformed, for its scheme or for its certificates' loading |
| Search.NoProofIsMissed | src/connectcoin_p2c_tools/generator.py:210-245 | over every run: a result exists exactly when some finished attempt's candidate verifies, and it is the first such one |
| Search.PreflightExactly | src/connectcoin_p2c_tools/generator.py:221-230 | over every run: the preflight is over exactly when some finished attempt's candidate passed it |
| Search.WorkOrder | src/connectcoin_p2c_tools/generator.py:217-220 | the order of work values is the order of their display forms |
| Search.EveryRunIsGood | src/connectcoin_p2c_tools/generator.py:167-253 | over every run: started = completed + pending within both limits, endpoints in turn, starts an interval apart with the next one due exactly an interval after the last, every attempt given the most time its limits allow, the best hash the least shown, a result verified and the context but for its proof |
| Search.NoBursts | src/connectcoin_p2c_tools/generator.py:183-199 | every closed window of W seconds holds at most floor(W * rate) + 1 starts |
| Search.EndpointsEven | src/connectcoin_p2c_tools/generator.py:186-187 | numbers of starts per endpoint differ by at most one |
| Search.GivingUpMeansAllCompleted | src/connectcoin_p2c_tools/generator.py:174-178 | the exhausted exit happens only with exactly max_attempts completed |
| SearchRun.Generator.StartOne | src/connectcoin_p2c_tools/generator.py:186-199 | the whole new state is that of one launch |
| SearchRun.Generator.StartDue | src/connectcoin_p2c_tools/generator.py:180-199 | the inner loop stays on the machine and ends with the pool full, the allowance used up, or a reading before the next start |
| SearchRun.Generator.ProcessOutcome | src/connectcoin_p2c_tools/generator.py:213-253 | what one outcome does to the best hash, the preflight flag and the result |
| SearchRun.Generator.CompleteOne | src/connectcoin_p2c_tools/generator.py:210-253 | the whole new state is that of one completion, found exactly when the candidate verifies |
| SearchRun.Generator.CompleteAll | src/connectcoin_p2c_tools/generator.py:209-253 | the loop over the done futures: all completed unless one of them brings a candidate that verifies |
| SearchRun.Generator.TakeTurn | src/connectcoin_p2c_tools/generator.py:167-253 | one turn of the outer loop: it times out or gives up exactly when it must, otherwise keeps starting until it may not, waits once, and completes every future that is done |
| SearchRun.Generator.Run | src/connectcoin_p2c_tools/generator.py:167-253 | any number of turns: a returned envelope verifies and is the context with a proof; no exit is passed over |
| Publish.EveryRunIsGood | src/connectcoin_p2c_tools/envelope.py:154-192 | the invariant over all interleavings of all numbers of writers with any step failing |
| Publish.EveryRunIsOrderly | src/connectcoin_p2c_tools/envelope.py:154-192 | for all destinations: names that were there stay, no two calls own one name, what was published without leave to overwrite stays |
| Publish.DestinationAlwaysComplete | src/connectcoin_p2c_tools/envelope.py:154-192 | at every moment a destination is its initial entry unchanged or one call's complete content |
| Publish.NoOverwriteKeepsEntries | src/connectcoin_p2c_tools/envelope.py:180-186 | over runs: once a name is there, calls that may not overwrite never change its entry or bytes |
| Publish.AtMostOneSucceeds | src/connectcoin_p2c_tools/envelope.py:180-186 | at most one such call succeeds for a name, none if it was taken, whatever the destinations |
| Publish.ExactlyOneSucceeds | src/connectcoin_p2c_tools/envelope.py:180-186 | exactly one if the name was free and every call for it published or was refused, beside calls for other names |
| Publish.WithoutFailuresOneWins | src/connectcoin_p2c_tools/envelope.py:154-192 | if no step of the calls for a free name fails exactly one wins and they leave nothing else new |
| Publish.PublicationIsAtomic | src/connectcoin_p2c_tools/envelope.py:174-186 | one step takes the name from what it was to the whole content and changes nothing else |
| Publish.UnrelatedNamesUntouched | src/connectcoin_p2c_tools/envelope.py:161-169 | other names keep entry and bytes |
| Publish.NoStagingLeft | src/connectcoin_p2c_tools/envelope.py:189-192 | a staging name left after all calls finished is one whose own unlink failed |
| Publish.FailuresAreSteps | src/connectcoin_p2c_tools/envelope.py:187-192 | a call fails or leaks only if one of its own steps failed |
| PublishLimits.DestinationsSettledExactly | src/connectcoin_p2c_tools/envelope.py:154-192 | every destination is at every moment of every run absent, as it was or one call's complete content, if and only if every destination shaped like a staging name was there at the start |
| PublishLimits.OneWinsExactly | src/connectcoin_p2c_tools/envelope.py:154-192 | calls that may not overwrite, for a free name, without failing steps: one always wins if and only if the name is not shaped like a staging name |
| PublishLimits.StagingNamesAreExposed | src/connectcoin_p2c_tools/envelope.py:161-169 | under a free staging name an unpublished empty file can be seen |
| PublishLimits.WrongContentPublished | src/connectcoin_p2c_tools/envelope.py:161-182 | an overwriting call for a free staging name can make a call for any other destination publish that call's content |
| PublishLimits.RefusesItself | src/connectcoin_p2c_tools/envelope.py:161-192 | a call for a free staging name can choose it for staging, be refused with no step failing, and publish nothing |
| PublishLimits.AllRefused | src/connectcoin_p2c_tools/envelope.py:161-192 | so can all calls for the name |
| PublishRun.Directory.Stage | src/connectcoin_p2c_tools/envelope.py:161-173 | writing, flushing and closing under interference ends staged exactly if none of its calls failed |
| PublishRun.Directory.PublishStaged | src/connectcoin_p2c_tools/envelope.py:177-186 | replace or link, failing exactly if the call does, and who owns the staging name afterwards |
| PublishRun.Directory.Write | src/connectcoin_p2c_tools/envelope.py:154-192 | under any interference ends finished with the reported outcome; without a failing call it publishes or is refused, and leaves no staging name |

## Left out

- X.509 loading, path building, validity times, key usage and signature verification: uninterpreted predicates.
- SHA-256, HMAC, AEAD and X25519: uninterpreted, output lengths only; injectivity is stated for what is hashed.
- Capture.ClosingFailsOnlyFor: assumes nothing about the peer; connecting, sending the ClientHello and the deadline arithmetic are one nondeterministic failure.
- CaptureRun.ReadFlight: the memory bound of the encrypted buffer is stated at the loop head; how far one record can exceed it for an instant depends on the AEAD's plaintext length, which is not part of this model.
- SearchRun.Generator.Run: the outer loop may run for ever, so it is modelled for any number of turns; sleeping, the length of a wait and the progress callback have no effect on the state and are not modelled, and real threads are futures that any wait may find done.
- Search.NoBursts: intervals are exact reals, not floating-point numbers.
- Search.EveryRunIsGood: DNS resolution is a positive number of endpoints; the root bundle check before the search is part of the uninterpreted library.
- Publish.DestinationAlwaysComplete: durability across power loss is not modelled, only what a directory shows; other programs that write the directory without following the protocol are not modelled.
- Publish.ExactlyOneSucceeds: random staging names are any free names of the shape that Python's `tempfile` gives them (eight of its 37 characters between the prefix and suffix); `tempfile` itself is not part of this model.
- PublishRun.Directory.Write: run beside calls whose destinations no staging file could get, which `PublishLimits.DestinationsSettledExactly` shows to be what atomic publication needs.
- JSON text, the schema, the field-by-field checks of the envelope beyond `ValidEnvelope`, the command line and error texts: branch-by-branch checks that would only add easy members.
- `_check_rsa_public_exponents` and `_verify_certificate_signature` beyond the PSS restrictions: comparisons on values of the uninterpreted library.
