# hpke-ng: a verified model of the HPKE stack

This project models the protocol logic of the `hpke-ng` crate (RFC 9180 HPKE) above its imported primitives, and proves
that the stack does what RFC 9180, section 5 of RFC 7748 and the two IETF HPKE drafts ask of it.

Check everything with `dafny verify dfyconfig.toml`.

## How the model is laid out

| file | models |
|---|---|
| `ByteStrings.dfy`, `Results.dfy` | octet strings, I2OSP/OS2IP, in-place copies; the crate's errors |
| `Primitives.dfy` | the imported KDF and AEAD, as records of uninterpreted functions with length and correctness laws |
| `Kdf.dfy` | `src/kdf.rs`: labeled extraction and expansion, whole and piecewise; the suite identifiers |
| `DomainSeparation.dfy` | every labeled call site of the crate, and why no two share an input |
| `Psk.dfy` | `src/psk.rs` and the mode octets |
| `MessageContext.dfy` | `src/context.rs`: the context object and its two one-directional wrappers |
| `Channel.dfy` | whole runs of a sender and a receiver over an arbitrary network |
| `KeySchedule.dfy` | the two specialised key schedules of `src/lib.rs` against the RFC's single one |
| `Binding.dfy` | what equal key schedule outputs say about the inputs |
| `DhKem.dfy` | `src/kem/dh.rs`: DHKEM over an abstract group, with the cached public key |
| `Montgomery.dfy`, `PrimeCurves.dfy` | the X25519/X448 and the NIST/secp256k1 instances of that group |
| `Hpke.dfy` | the setups and single-shot operations of `src/lib.rs`, over any KEM |
| `SessionBinding.dfy` | agreement forced by the exporter secret or an export, whatever the two ends' KEMs |
| `DhSessions.dfy` | DHKEM as such a KEM; the agreement forced down to keys and Diffie-Hellman outputs |
| `EndToEnd.dfy` | the agreement and safety theorems composed for every KEM of the crate |
| `PostQuantum.dfy` | `src/kem/pq.rs`: `LabeledDerive`, seed-backed keys and their zeroize life cycle |
| `ToyPrimitives.dfy` | concrete records satisfying every law assumed, with modular exponentiation for Diffie-Hellman |

Imperative code is imperative here: the nonce loop, the slot arrays, the clamps, the rejection loop, the context and the
private-key objects are methods and classes proved against functions, and the theorems are about those functions. The slot
budgets of the piecewise buffers are preconditions of the methods that fill them, and the DHKEM and key schedule methods
call those, so each caller is checked to stay within its budget.

## Main results

* **Channel safety** (`Channel.AcceptedIsPrefixOrForgery`, `EndToEnd.DhStack`). For every run and every network, the
  accepted list is a prefix of the sent list, or some accepted message is an explicit AEAD forgery. The receiver never
  loses step: refused messages change nothing, and the next genuine message is always accepted. All of it, with the
  counters and the distinct nonces, holds between the ends of every setup of every KEM of the crate.
* **No nonce reuse, and refinement of the RFC context** (`Channel.NoNonceReuse`, `Channel.RunRefinesRfc`), with the exact
  point where the 64-bit limit departs from the RFC's.
* **Setup agreement in all four modes**, **open undoes seal** and **safe sessions**, from the laws of the primitives alone:
  `EndToEnd.MontgomeryStack` and `EndToEnd.PrimeStack` for the two families of curves, `EndToEnd.PostQuantumStack` for
  X-Wing and ML-KEM.
* **Transcript binding**. Whatever the KEMs and AEADs of the two ends, equal exporter secrets or equal exports force one
  KEM, AEAD, mode, info, PSK and PSK identifier (`SessionBinding.ExporterBindsInputs`, `SessionBinding.ExportsBindInputs`);
  over one curve also one encapsulated key, one set of public keys and the same Diffie-Hellman outputs
  (`DhSessions.ExporterBindsBothEnds`, `DhSessions.ExportsBindBothEnds`). Otherwise two KDF calls that these setups made,
  at the same position, collide. Two extractions that differ only in a salt padded to another length are not called a
  collision, since HMAC pads its key with zeros; that leaves shared secrets of different lengths apart, and one KEM has
  one length. Nothing ever assumes that a hash is injective, and "some collision exists", which is always true, is never
  the claim.
* **Domain separation** of every labeled KDF call, and decodability of the `LabeledDerive` encoding.
* **DeriveKeyPair** finds the first acceptable candidate, by value, as the RFC's loop does
  (`PrimeCurves.DerivesFirstAcceptable`); **clamping** any octets, clamped or not, decodes the scalar RFC 7748 decodes
  (`Montgomery.X25519ClampDecodes`, `Montgomery.X448ClampDecodes`).
* **Exact answers**. Lemmas whose names end in `Exactly` say, for every input, when an operation succeeds, with which
  error it fails, and which call of a primitive its answer is, down to the octets of that call's input.
* **Key life cycle** of seed-backed keys under any sequence of operations.

Three statements one might expect are false of the code, and the exact condition is proved in their place:

* the u64 context does what the RFC's context does exactly below 2^64 - 1, or at it when Nn is 8 and the AEAD accepts the
  message, because the RFC encrypts before it raises its limit (`MessageContext.SealMatchesRfcExactly`); a run reaches that
  point (`Channel.LimitDepartsFromRfc`);
* the cached public key of a DHKEM private key does not stay right when the key is zeroized. It does exactly when: on the
  prime curves, the scalar was 1 (`PrimeCurves.CacheAfterZeroizeExactly`); on X25519, the public key was the one loaded from
  32 zero octets, because the imported ladder clamps the zeroed scalar at use (`Montgomery.X25519CacheAfterZeroizeExactly`);
  on X448, the public key was all zero (`Montgomery.X448CacheAfterZeroizeExactly`). Each has a key that fails;
* a post-quantum key reloaded from its octets decapsulates like the original exactly when the original was not zeroized
  (`PostQuantum.ReloadDecapsulatesAlikeExactly`).

`src/psk.rs:82` describes the PSK as the salt of the `secret` extraction. The code, like the RFC, uses the shared secret as
salt and the PSK as keying material (`src/lib.rs:252-257`); the model follows the code.

## Model

| member | source | states |
|---|---|---|
| `LabeledKdf.ExtractPieces` | src/kdf.rs:40-51 | absorbing the pieces one by one extracts from their concatenation |
| `LabeledKdf.ExpandPieces` | src/kdf.rs:53-71 | the 255-block bound is checked first, then the key length; otherwise HKDF-Expand of the concatenated pieces |
| `LabeledKdf.LabeledExtractWhole` | src/kdf.rs:103-110 | LabeledExtract of section 4 of RFC 9180 |
| `LabeledKdf.LabeledExtractPieces` | src/kdf.rs:127-143 | within the eight slots, the piecewise form equals LabeledExtract of the concatenation, for any split |
| `LabeledKdf.LabeledExpandWhole` | src/kdf.rs:146-158 | LabeledExpand of section 4 of RFC 9180 with its two refusals |
| `LabeledKdf.LabeledExpandPieces` | src/kdf.rs:161-183 | within the sixteen slots, the piecewise form equals LabeledExpand of the concatenation, for any split |
| `LabeledKdf.ExtractCallExactly` | src/kdf.rs:103-110 | the extract call a labeled extraction makes, its input read field by field: "HPKE-v1", then suite, label, keying material |
| `LabeledKdf.ExpandCallExactly` | src/kdf.rs:146-158 | the expand call a labeled expansion makes: the length as two octets, "HPKE-v1", then suite, label, context |
| `LabeledKdf.ExpandSucceedsExactly` | src/kdf.rs:62-70 | success exactly up to 255 blocks, with the length asked for and a two-octet length field that is never truncated |
| `LabeledKdf.Ciphersuite` | src/lib.rs:163-170 | the in-place copies build "HPKE", KEM, KDF and AEAD ids in this order |
| `LabeledKdf.KemSuite` | src/kem/mod.rs:21-26 | the in-place copies build "KEM" and the id |
| `DomainSeparation.SuiteIdsExactly` | src/lib.rs:161-170 | reading the suite identifiers field by field gives "HPKE" or "KEM" and each id at its place |
| `DomainSeparation.LabelsExactly` | src/lib.rs:179-211 | each label spells the text RFC 9180 gives it |
| `DomainSeparation.ExtractInputsSeparate` | src/kdf.rs:103-143 | an Extract input of any call site determines caller, label and keying material, and conversely |
| `DomainSeparation.ExpandInputsSeparate` | src/kdf.rs:146-183 | an Expand input of any call site determines length, caller, label and context, and conversely |
| `DomainSeparation.UnprefixedLabelsConfusedExactly` | src/kdf.rs:103-110 | without a length prefix two labels can be confused exactly when one is a prefix of the other |
| `PskInputs.NewPsk` | src/psk.rs:69-80 | accepts exactly a secret of 32 octets or more with a non-empty identifier, unswapped; tells the three errors apart; agrees with VerifyPSKInputs |
| `PskInputs.PskInputsExactly` | src/psk.rs:69-80 | what VerifyPSKInputs, which the constructor is compared with, accepts and raises in each mode |
| `PskInputs.ModeBytesExactly` | src/lib.rs:91-96 | bit 0 of the mode octet says that a PSK is in use, bit 1 that the sender is authenticated |
| `PskInputs.ModeByteInjective` | src/lib.rs:91-96 | the four modes have four octets |
| `MessageContext.Context.New` | src/context.rs:66-87 | a fresh context holds the given secrets at counter zero; only a wrong key length is refused |
| `MessageContext.XorInto` | src/context.rs:117-119 | the zipped loop XORs exactly the window, and leaves every other octet |
| `MessageContext.Context.ComputeNonce` | src/context.rs:108-121 | the in-place loop computes base_nonce XOR I2OSP(seq, Nn), and leaves the rest of the buffer zero |
| `MessageContext.TrailingXor` | src/context.rs:116-119 | XORing eight trailing octets is XORing the full-width encoding, for every nonce length from eight |
| `MessageContext.NonceIsBits` | src/context.rs:108-121 | a nonce is computed exactly when each octet differs from the base nonce's in the bits set in the counter's digit of that weight |
| `MessageContext.SealsExactly` | src/context.rs:168-176 | a seal returns what the AEAD gives under base nonce XOR counter exactly below the limit, and the counter moves then only; each refusal has its own error |
| `MessageContext.OpensExactly` | src/context.rs:184-192 | an open returns what the AEAD authenticates under that nonce exactly below the limit; anything else is refused and changes nothing |
| `MessageContext.ExportExactly` | src/context.rs:91-104 | an export is one call to HKDF-Expand on a spelled-out input, refused exactly above 255 blocks |
| `MessageContext.NoncesDistinct` | src/context.rs:108-121 | distinct 64-bit counters give distinct nonces |
| `MessageContext.Context.Seal` | src/context.rs:168-176 | one sealing step: limit checked first, counter advanced only with a returned ciphertext |
| `MessageContext.Context.Open` | src/context.rs:184-192 | one opening step: a message that does not authenticate leaves the state as it was |
| `MessageContext.Context.Export` | src/context.rs:91-104 | the labeled expansion of the exporter secret; the context is unchanged |
| `MessageContext.SenderContext.Seal` | src/context.rs:243-245 | the sender's wrapper is the context's sealing step |
| `MessageContext.SenderContext.Export` | src/context.rs:236-238 | the sender's wrapper exports what its context exports |
| `MessageContext.ReceiverContext.Open` | src/context.rs:261-263 | the receiver's wrapper is the context's opening step |
| `MessageContext.ReceiverContext.Export` | src/context.rs:254-256 | the receiver's wrapper exports what its context exports |
| `MessageContext.SealMatchesRfcExactly` | src/context.rs:168-176 | when a seal equals ContextS.Seal of section 5.2 of RFC 9180, exactly |
| `MessageContext.OpenMatchesRfcExactly` | src/context.rs:184-192 | when an open equals ContextR.Open of section 5.2 of RFC 9180, exactly |
| `Channel.StepKeepsInv` | src/context.rs:159-193 | what every step of a session keeps; histories only grow |
| `Channel.RunKeepsInv` | src/context.rs:159-193 | over every run the counters equal the numbers of successes, at most 2^64 - 1, and every message is under its own nonce |
| `Channel.NoNonceReuse` | src/context.rs:160-176 | the ciphertexts one sender ever returns are under pairwise distinct nonces |
| `Channel.AcceptedIsSentOrForged` | src/context.rs:184-192 | an accepted message is the sender's message of its position, sent before, or a forgery |
| `Channel.AcceptedIsPrefixOrForgery` | src/context.rs:159-193 | for every run and network the accepted list is a prefix of the sent list, or a forgery is named |
| `Channel.GenuineMessageIsAccepted` | src/context.rs:184-192 | after any history the genuine message of the receiver's position is accepted and decrypts to what was sent |
| `Channel.RefusedDeliveriesChangeNothing` | src/context.rs:184-192 | any number of refused deliveries leaves both ends as they were |
| `Channel.ReceiverCatchesUp` | src/context.rs:184-192 | from any reachable session, delivering outstanding messages in order makes the receiver accept them all |
| `Channel.EveryRunIsSafe` | src/context.rs:159-193 | every reachable session has all of this at once: prefix or forgery, counters, distinct nonces, delivery of what is outstanding |
| `Channel.ExportsAgree` | src/context.rs:91-104 | at any point of any run both ends export the same octets, exactly when the length is within 255 blocks |
| `Channel.ExportsInterleaveFreely` | src/context.rs:91-104 | exports anywhere in a run move no counter and change nothing sent or accepted |
| `Channel.RunRefinesRfc` | src/context.rs:159-193 | every run is a run of the RFC's contexts on the actions not refused at the 64-bit limit |
| `Channel.ShortRunsAreRfcRuns` | src/context.rs:159-193 | below the limit nothing is refused and the run is the RFC's run |
| `Channel.SendsReachEveryCounter` | src/context.rs:168-176 | every counter up to 2^64 - 1 is reached by that many sends |
| `Channel.LimitDepartsFromRfc` | src/context.rs:168-171 | in that run the next seal is refused and changes nothing, where the RFC's succeeds for any nonce over eight octets |
| `KeySchedule.KeySchedulePskFree` | src/lib.rs:175-213 | the Base and Auth schedule is the RFC's KeySchedule with default PSK inputs, and always succeeds |
| `KeySchedule.KeySchedulePsk` | src/lib.rs:238-283 | the PSK and AuthPSK schedule is the RFC's KeySchedule on a validated PSK, and always succeeds |
| `KeySchedule.ExpandAll` | src/lib.rs:191-212 | the three expansions and the context, with every error passed on |
| `KeySchedule.TailNeverFails` | src/lib.rs:191-212 | for a lawful suite, export-only included, none of those errors can occur and every length is exact |
| `KeySchedule.ScheduleIsTotal` | src/lib.rs:175-213 | the reference schedule fails only in VerifyPSKInputs, and its contexts are valid, at zero and ready to seal |
| `Binding.ScheduleAsksTheseQueries` | src/lib.rs:179-211 | the KDF calls of the binding theorems are the ones the schedule makes |
| `Binding.OutputBindsTranscript` | src/lib.rs:175-213 | for any two KEMs, each of key, base nonce and exporter secret binds KEM, AEAD, mode, info, PSK and PSK identifier, and the shared secret among those of one length; or two of the runs' own calls collide |
| `Binding.ExporterBindsTranscript` | src/lib.rs:238-283 | equal exporter secrets come from transcripts that agree in the same sense, or two of the runs' own calls collide |
| `Binding.OneLengthPerKem` | src/kem/mod.rs:38-39 | when the KEM determines the length of the shared secret, as every KEM here does, equal exporter secrets come from equal transcripts, or two of the runs' own calls collide |
| `Binding.ExportBindsTranscript` | src/context.rs:91-104 | equal exports come from transcripts that agree in that sense and equal exporter contexts, or two of the runs' own calls collide |
| `DhKem.CacheSurvivesReload` | src/kem/dh.rs:112-120 | loaded octets give a valid cache, and a constructed key reloads from its own octets to the same key, cache included |
| `DhKem.ExtractAndExpand` | src/kem/dh.rs:169-183 | through the expand slots, the RFC's ExtractAndExpand of the concatenated context; never fails |
| `DhKem.ExtractAndExpandPieces` | src/kem/dh.rs:186-204 | through both slot arrays, the RFC's ExtractAndExpand of both concatenations; never fails, so pieces dh1, dh2 give what dh1 \|\| dh2 gives |
| `DhKem.EncapWith` | src/kem/dh.rs:472-493 | equals the RFC's Encap, and AuthEncap when the sender's cache is right |
| `DhKem.Decap` | src/kem/dh.rs:413-426 | equals the RFC's Decap, which recomputes the public key, when the cache is right |
| `DhKem.AuthDecap` | src/kem/dh.rs:457-469 | equals the RFC's AuthDecap when the cache is right |
| `DhKem.CachedFormsRefineRfc` | src/kem/dh.rs:406-493 | the values of all four operations with the right cache are the RFC's, on every input |
| `DhKem.EncapDecapAgree` | src/kem/dh.rs:406-426 | decapsulation undoes encapsulation; encapsulation fails exactly on an all-zero output |
| `DhKem.AuthEncapDecapAgree` | src/kem/dh.rs:448-493 | the same for the authenticated operations, with both Diffie-Hellman outputs |
| `Montgomery.ClampInPlace` | src/kem/dh.rs:579-581 | the in-place masks are the clamp |
| `Montgomery.ClampIdempotent` | src/kem/dh.rs:575-581 | clamping twice is clamping once |
| `Montgomery.X25519ClampDecodes` | src/kem/dh.rs:642-647 | clamping any 32 octets of value v gives 2^254 + 8 floor((v mod 2^254) / 8) |
| `Montgomery.X448ClampDecodes` | src/kem/dh.rs:861-865 | clamping any 56 octets of value v gives 2^447 + 4 floor((v mod 2^447) / 4) |
| `Montgomery.X25519ScalarsExactly` | src/kem/dh.rs:642-647 | the clamped scalars are exactly 2^254 + 8k with k below 2^251 |
| `Montgomery.X448ScalarsExactly` | src/kem/dh.rs:861-865 | the clamped scalars are exactly 2^447 + 4k with k below 2^445 |
| `Montgomery.ClampedKeysExactly` | src/kem/dh.rs:575-581 | of the 32 or 56 octets of a curve, the clamped strings are exactly the integers RFC 7748 names for it |
| `Montgomery.SkFromBytes` | src/kem/dh.rs:636-649 | the wrong length is refused; otherwise the stored key is the scalar RFC 7748 decodes from the octets, clamped or not |
| `Montgomery.PkFromBytes` | src/kem/dh.rs:621-634 | the wrong length is refused; otherwise the value modulo 2^255 for X25519, the octets as they are for X448 |
| `Montgomery.MaskedValue` | src/kem/dh.rs:627-633 | masking the last octet of a public key takes its value modulo a power of two |
| `Montgomery.GroupParsesExactly` | src/kem/dh.rs:621-649 | the group DHKEM runs over parses both kinds of keys so, and refuses other lengths with the error of each |
| `Montgomery.ReceivedKeysAlikeExactly` | src/kem/dh.rs:627-633 | octets parse alike exactly when they differ at most in masked bits |
| `Montgomery.Generate` | src/kem/dh.rs:392-398 | the scalar RFC 7748 decodes from the random octets, with its public key, paired and with a valid cache |
| `Montgomery.DeriveKeyPair` | src/kem/dh.rs:400-404 | the scalar RFC 7748 decodes from the answer of two explicit KDF calls, with its public key, paired; derivation never fails |
| `Montgomery.MontgomeryGroupLawful` | src/kem/dh.rs:562-666 | lawful ladders with this clamping and masking make a lawful Diffie-Hellman group |
| `Montgomery.ReloadIsClamp` | src/kem/dh.rs:636-660 | writing a loaded key is exactly clamping; loading a written key gives it back |
| `Montgomery.ZeroScalarIsNotAKey` | src/kem/dh.rs:895-899 | the zeroized scalar is none that construction gives |
| `Montgomery.X25519CacheAfterZeroizeExactly` | src/kem/dh.rs:681-685 | after zeroizing, the cache is right exactly if it was the public key loaded from 32 zero octets |
| `Montgomery.X448CacheAfterZeroizeExactly` | src/kem/dh.rs:895-899 | after zeroizing, the cache is right exactly if the public key was all zero |
| `Montgomery.StaleCacheExists` | src/kem/dh.rs:123-127 | for each curve a key whose cache goes stale, and for X25519 one whose cache does not |
| `PrimeCurves.FirstAccepted` | src/kem/dh.rs:217-229 | the least counter, from a given one on, whose candidate is accepted |
| `PrimeCurves.MaskedCandidate` | src/kem/dh.rs:218-225 | one candidate: the expansion with its first octet masked in place |
| `PrimeCurves.DerivePCurveSk` | src/kem/dh.rs:210-231 | the octets of the first acceptable candidate, each being the masked answer of an explicit KDF call under its counter octet; the derivation error exactly when none of the 256 is acceptable |
| `PrimeCurves.LoopFindsFirst` | src/kem/dh.rs:206-231 | the RFC's while loop returns the scalar of that candidate, or its error |
| `PrimeCurves.CandidateByValue` | src/kem/dh.rs:217-227 | a candidate has the value of an explicit expansion under its counter octet, modulo the power of two the mask stands for, and is accepted exactly from 1 to order - 1 |
| `PrimeCurves.DerivesFirstAcceptable` | src/kem/dh.rs:206-231 | the search and the RFC's loop both give the first acceptable candidate, and fail exactly when there is none |
| `PrimeCurves.Generate` | src/kem/dh.rs:266-273 | the random scalar with its public key, paired and with a valid cache |
| `PrimeCurves.DeriveKeyPair` | src/kem/dh.rs:275-281 | the first acceptable candidate of the RFC as scalar, with its public key, paired; the second parse of the octets never fails |
| `PrimeCurves.PrimeGroupLawful` | src/kem/dh.rs:256-338 | a lawful curve with these length, tag and range checks makes a lawful Diffie-Hellman group |
| `PrimeCurves.ReceivedPointsExactly` | src/kem/dh.rs:302-312 | a received public key is accepted exactly when its octets are the uncompressed encoding of a point, and is written back unchanged |
| `PrimeCurves.LoadedKeyWritesBack` | src/kem/dh.rs:314-333 | octets load exactly when they encode 1 to order - 1, and are then written back unchanged |
| `PrimeCurves.CacheAfterZeroizeExactly` | src/kem/dh.rs:362-374 | after zeroizing, the cache is right exactly if the scalar was 1 |
| `PrimeCurves.StaleCacheExists` | src/kem/dh.rs:362-374 | the scalar 2 gives a key whose cache goes stale |
| `Hpke.SetupSender` | src/lib.rs:307-337 | the sender's setups: encapsulate, then the key schedule of the mode |
| `Hpke.SetupReceiver` | src/lib.rs:318-348 | the receiver's setups: decapsulate, then the key schedule of the mode |
| `Hpke.SetupsByMode` | src/lib.rs:305-349 | which KEM operation, mode and PSK inputs the base and PSK setups use, a failed KEM operation being passed on |
| `Hpke.AuthSetupsByMode` | src/lib.rs:571-620 | the same for the authenticated setups |
| `Hpke.SetupsProduceSealers` | src/lib.rs:571-606 | a sender's setup fails only in its encapsulation, with its error; otherwise it gives `enc` and the key schedule's context, ready to seal |
| `Hpke.SetupsProduceOpeners` | src/lib.rs:584-619 | a receiver's setup fails only in its decapsulation, with its error; otherwise it gives the key schedule's context, ready to open |
| `Hpke.SealSingle` | src/lib.rs:353-363 | single-shot seal is setup and one sealing step |
| `Hpke.OpenSingle` | src/lib.rs:366-375 | single-shot open is setup and one opening step |
| `Hpke.SendExport` | src/lib.rs:465-474 | the sender's single-shot export |
| `Hpke.ReceiverExport` | src/lib.rs:477-486 | the receiver's single-shot export |
| `Hpke.SealSingleExactly` | src/lib.rs:351-461 | in every mode, when a single-shot seal succeeds and what it returns: `enc` and the AEAD's answer under the schedule's key and base nonce |
| `Hpke.OpenSingleExactly` | src/lib.rs:351-461 | the same for a single-shot open on any octets: what the AEAD authenticates, or OpenError |
| `Hpke.ExportsExactly` | src/lib.rs:463-569 | in every mode and on both ends, when a single-shot export succeeds and the HKDF-Expand call it is |
| `Hpke.SetupsAgree` | src/lib.rs:305-349 | in every mode a successful sender setup has a receiver setup with the same context value |
| `Hpke.OpenUndoesSeal` | src/lib.rs:351-461 | in every mode, open returns the plaintext seal was given |
| `Hpke.SingleShotExportsAgree` | src/lib.rs:463-569 | in every mode the two ends export the same octets, exactly when the length is within 255 blocks |
| `Hpke.SessionsAreSafe` | src/lib.rs:305-349 | between the ends of any successful setup every run is safe in the sense of `Channel.EveryRunIsSafe` |
| `SessionBinding.ExporterBindsInputs` | src/lib.rs:571-620 | equal exporter secrets of a sender and a receiver over any two KEMs and AEADs force their key schedules to agree on every input, or a named collision |
| `SessionBinding.MismatchedEndsClash` | src/lib.rs:571-620 | ends that differ in KEM, AEAD, mode, info or PSK reach one exporter secret only by a named collision |
| `SessionBinding.ExportAsksThisQuery` | src/context.rs:91-104 | an export is the answer to the export call of the binding theorems, of the length asked for |
| `SessionBinding.ExportsBindInputs` | src/lib.rs:463-569 | equal exports of any two ends force one length, one exporter context and the same agreement, or a named collision |
| `DhSessions.DhKemLawful` | src/kem/dh.rs:380-470 | DHKEM over any lawful group is a KEM for all four modes |
| `DhSessions.KemContextsSeparate` | src/kem/dh.rs:484-490 | the fixed lengths tell base and authenticated contexts apart and delimit their parts |
| `DhSessions.SenderHashesItsTranscript` | src/kem/dh.rs:472-493 | an encapsulation hashes its outputs, `enc`, both public keys, and nothing else, in the RFC's order |
| `DhSessions.ReceiverHashesItsTranscript` | src/kem/dh.rs:413-469 | a decapsulation hashes its outputs, the octets received and the keys, in the same order |
| `DhSessions.EncapsulatesExactly` | src/kem/dh.rs:472-493 | in every mode an encapsulation fails exactly on an all-zero output, and otherwise gives the hash of its transcript and `enc` |
| `DhSessions.DecapsulatesExactly` | src/kem/dh.rs:413-469 | in every mode and for any octets, when a decapsulation succeeds, its error, and the hash it gives |
| `DhSessions.SharedSecretBindsKeys` | src/kem/dh.rs:169-204 | equal shared secrets come from equal keys and outputs, or the KEM's own calls collide |
| `DhSessions.ExporterBindsBothEnds` | src/lib.rs:571-620 | equal exporter secrets of any sender and receiver, over suites that may differ in AEAD, force agreement on everything hashed, or a named collision |
| `DhSessions.ExportsBindBothEnds` | src/lib.rs:463-569 | equal exports force the agreement of `DhSessions.ExporterBindsBothEnds`, one exporter context and one length, or a named collision |
| `DhSessions.MatchingEndsShareTranscript` | src/kem/dh.rs:413-493 | ends with matching keys and modes hash the same outputs and keys in the same order |
| `DhSessions.DecapBindsTranscript` | src/kem/dh.rs:413-469 | two decapsulations with one result, in any modes, hashed one transcript, or the KEM's own calls collide |
| `DhSessions.RawOctetsAreBound` | src/kem/dh.rs:413-469 | in every mode, different octets for one public key give different secrets, or the KEM's own calls collide |
| `DhSessions.WrongCacheIsNoticed` | src/kem/dh.rs:413-469 | in every mode, a wrong cache never gives the secret the recomputed public key gives, or the KEM's own calls collide |
| `PostQuantum.LabeledDerive` | src/kem/pq.rs:43-66 | the fields are absorbed in the draft's order; lengths over two octets are refused and leave the output alone |
| `PostQuantum.DeriveInputExactly` | src/kem/pq.rs:43-66 | the SHAKE input read field by field, the length prefix saying where the label ends |
| `PostQuantum.DeriveInputDecodes` | src/kem/pq.rs:28-66 | keying material, KEM and length are recovered from the encoding, and decoding accepts nothing else |
| `PostQuantum.DeriveInputsSeparate` | src/kem/pq.rs:192-197 | derivations of different KEMs, lengths or keying material never share a SHAKE input |
| `PostQuantum.DeriveLabelsConfusedExactly` | src/kem/pq.rs:43-66 | for arbitrary labels, inputs can coincide exactly when one frame ends with the other |
| `PostQuantum.ConfusableLabelsExist` | src/kem/pq.rs:43-66 | such labels exist, so separation rests on the one label in use |
| `PostQuantum.KeypairFromSeed` | src/kem/pq.rs:283-297 | the pair is the expansion of the seed and its public key |
| `PostQuantum.SkFromBytes` | src/kem/pq.rs:252-263 | a wrong length is refused; otherwise the key of that seed |
| `PostQuantum.OctetsParseExactly` | src/kem/pq.rs:240-270 | which octets the parsers of private, public and encapsulated keys accept, what they keep, and their errors |
| `PostQuantum.KemAnswersExactly` | src/kem/pq.rs:202-238 | encapsulation never fails; decapsulation reports a missing expanded key before a wrong length, and fails in no other way |
| `PostQuantum.DeriveKeyPair` | src/kem/pq.rs:182-200 | the seed is the labeled derivation of keying material of any length |
| `PostQuantum.PrivateKey.Zeroize` | src/kem/pq.rs:111-118 | the seed becomes zeros and the expanded key is dropped |
| `PostQuantum.PrivateKey.Decap` | src/kem/pq.rs:218-238 | a missing expanded key is reported before a wrong length |
| `PostQuantum.PrivateKey.ToBytes` | src/kem/pq.rs:276-278 | the octets are the seed |
| `PostQuantum.KeyHistory` | src/kem/pq.rs:106-126 | under any operations the cache is the seed's expansion until zeroized, and every answer is the uncached key's or the zeroized key's |
| `PostQuantum.ReloadDecapsulatesAlikeExactly` | src/kem/pq.rs:252-278 | a reloaded key decapsulates every well-formed ciphertext alike exactly when the original was not zeroized |
| `PostQuantum.PqKemLawful` | src/kem/pq.rs:395-517 | each scheme is a KEM for the unauthenticated modes, and its public keys survive the wire |
| `EndToEnd.LawfulKemStack` | src/lib.rs:305-620 | for any lawful KEM: both setups agree, exports agree, seal and open answer exactly as the AEAD does, open undoes seal, and every session is safe with its counters, nonces and deliveries |
| `EndToEnd.DhStack` | src/lib.rs:305-620 | the same for DHKEM in all four modes, from the laws of the group alone |
| `EndToEnd.MontgomeryStack` | src/kem/dh.rs:562-880 | the same for X25519 and X448, from the laws of the ladder alone |
| `EndToEnd.PrimeStack` | src/kem/dh.rs:695-751 | the same for P-256, P-384, P-521 and secp256k1, from the laws of the point arithmetic alone |
| `EndToEnd.PostQuantumStack` | src/kem/pq.rs:162-564 | the same for X-Wing and ML-KEM in the unauthenticated modes, for the key pair of any seed |

## Left out

- Curve arithmetic, point decoding, ML-KEM, X-Wing, SHA-2, HMAC, SHAKE and AEAD internals: imported crates; they are records of uninterpreted functions with stated laws.
- Computational security: binding and safety theorems name a collision or a forgery instead of bounding its probability.
- ML-KEM decapsulation failure: decapsulation of an honest ciphertext is taken to be correct always, where the real scheme may fail with negligible probability.
- SEC1 decoding: that the imported decoder takes the uncompressed encoding of each point and, of that form, nothing else is a law of the curve; which other forms it takes is left open, because the tag check refuses them.
- Ladders at the zero scalar: that the X25519 ladder clamps at use, that the X448 ladder takes zero to zero, and that small scalars have different public keys, are laws of the imported curves.
- Randomness: a generator is the choice of its output, universally quantified; its quality is not modelled.
- Constant-time comparison, scrubbing on drop and `Zeroizing` wrappers: no functional effect; only an explicit zeroize is modelled.
- Compile-time guarantees (sealed traits, one-directional contexts, mode tags): the sealing flag, the wrapper classes and the `requires` clauses on modes stand for them.
- The four copies of each setup and single-shot function: one method over a mode argument with one branch per copy, and one table row for the four.
- The tail shared word for word by the two key schedules is one method, `ExpandAll`.
- ML-KEM and X-Wing code is one class over scheme parameters; the macro-generated copies are not repeated, nor are the per-curve copies in `src/kem/dh.rs`.
- X448 masks: its two masks are the general three with 0xFF as the middle one, which changes nothing.
- DHKEM private keys are values, not objects: zeroizing one returns the changed value, so aliasing of a key between two owners is not captured.
- Test-only accessors, `set_seq_for_test`, `from_context` and the deterministic encapsulations: harness code; the counter setter would break the run invariants on purpose.
- `Debug`, `Display`, benchmarks, fuzz targets and known-answer tests: no protocol logic.
