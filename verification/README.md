# VOLE-ARC: verified model

VOLE-ARC issues an anonymous credential that can be shown a limited number of
times in each public bucket. A presentation carries a deterministic tag and a
proof that a hidden, signed credential produced it for a counter value below a
server-chosen limit; a verifier accepts each tag once per bucket.

This project models the parts of the repository that decide whether that works
and proves what they promise.

* **Circuits** (`Constraints`, `KeccakCircuit`, `ShakeCircuit`, `RangeCircuit`,
  `Messages`, `Circuits`). The builders emit wires, polynomial expressions and
  assertions; the witness generators emit bit strings. The main theorem,
  `Circuits.PresentationCircuitExact`, says that a bit string of the right
  length satisfies the emitted assertions exactly when it is the generated
  witness of secrets that satisfy the native relation. So every checkpoint and
  every carry is forced, and allocation order agrees on both sides.
* **Keccak and SHAKE256** (`Fips202`, `KeccakConstants`, `Permutation`,
  `Keccak`, `Words`). The lane-level code is proved against the bit-string
  definitions of FIPS 202, sections 3.2.1 to 3.2.5, 3.3, 4, 5.1 and 6.2. The
  permutation is proved to be a bijection with an explicit inverse.
* **Accounting** (`Protocol`, `Credentials`, `Issuance`, `Accounting`,
  `Attainment`). Clients with counter maps, crash and rollback, an issuer, any
  number of verifier replicas and one atomic store. `Accounting.ScopedAccounting` bounds the
  accepted presentations of one bucket in every interleaving, and
  `Attainment.HonestYield` says exactly what honest clients obtain.
* **Encodings** (`Bits`, `Nibbles`, `Wire`, `Counters`, `Framing`). Canonical
  envelopes with a cursor-based decoder, and injective transcript framing.

## Conventions

* A byte is a `bv8`, a GF(16) element a `bv4`. A `u32` is a natural number below
  2^32, with `!n` written as 2^32 - 1 - n. A `u64` lane is the string of its 64
  bits, least significant first; `^`, `!`, `&` act position by position and
  `rotate_left` is a rotation of the string.
* Numbers are encoded in little-endian bytes by cutting their bit string into
  bytes. `Bits.LeBytesStep` shows that this is the usual positional meaning.
* The extension field, the embedding of GF(16) and the MAYO map are parameters
  (`Constraints.System`). `Constraints.Lawful` states what is used of them:
  characteristic two, the embedding is additive and injective, and the quadratic
  forms restrict to the MAYO map. `Constraints.LawsHaveAModel` shows the laws
  are satisfiable.
* The proof backend is a parameter (`Protocol.ProofSystem`) with a completeness
  law (`Protocol.Complete`) and, where they are used, the laws that honest
  proving never fails (`Protocol.Willing`), that accepted proofs yield witnesses
  (`Protocol.Sound`) and that a proof fixes its statement
  (`Protocol.BindsStatements`); `Protocol.TransparentIsLawful` shows all hold
  together. Extraction, authentication and binding are hypotheses on a run
  (`Accounting.Hypotheses`), as in the accounting theorem of the paper;
  `Attainment.HypothesesAreMet` gives lawful runs that meet them.
* Random values are parameters, and so is the behaviour of storage during an
  insertion (`Protocol.Storage`). Hashing with the `sha3` crate and with the
  native code are the same function here, the FIPS 202 one.
* The Rust trait of parameter sets is sealed to MAYO1 and MAYO2
  (`Suite.Supported`). Most results ask only that the wrapped hash fits a rate
  block (`Suite.Fits`), and cover odd M.
* `BTreeMap` is a map iterated in ascending key order, `HashSet` a set.

## Model

| member | source | states |
|---|---|---|
| Bits.LeBytesRoundTrip | src/circuit.rs:184 | little-endian bytes read back to the number they were written from |
| Bits.OfLeBytesRoundTrip | src/wire.rs:123-125 | every byte string is the encoding of the number it decodes to |
| Bits.LeBytesStep | src/wire.rs:123-125 | the decoded number is the first byte plus 256 times the number of the remaining bytes |
| Bits.LeBytesBits | src/circuit.rs:184 | the bits of an encoded counter are the counter's own bits in order, so 32 witness bits spell the four message bytes |
| Bits.BytesBitsInjective | src/circuit.rs:195-200 | distinct byte strings have distinct bit strings |
| Fips202.Shake256Prefix | src/keccak.rs:112-133 | a shorter SHAKE256 output is a prefix of every longer output of the same message |
| Fips202.RoundsCompose | src/keccak.rs:80-85 | consecutive runs of rounds compose, which is what cutting 24 rounds into groups of four relies on |
| KeccakConstants.RhoOffsets | src/keccak.rs:37-39 | the offset table is the triangular-number walk of FIPS 202 Algorithm 2 modulo 64 |
| KeccakConstants.RhoPointsCover | src/keccak.rs:37-39 | that walk reaches every lane except the origin, so it fixes the whole table |
| KeccakConstants.RoundConstants | src/keccak.rs:9-34 | all 24 round constants are the bits the shift register of FIPS 202 Algorithm 5 produces |
| Permutation.Power192 | src/circuit.rs:318-345 | the 192nd power of the column-parity operator is the identity |
| Permutation.ThetaBijective | src/keccak.rs:47-57 | the column step has a two-sided inverse, its 191st power |
| Permutation.PiBijective | src/keccak.rs:58-66 | the lane moves form a permutation of the 1600 positions |
| Permutation.RhoBijective | src/keccak.rs:58-66 | lane rotations are undone by rotations the other way |
| Permutation.ChiOrder | src/keccak.rs:67-73 | four applications of the nonlinear row map are the identity |
| Permutation.IotaInvolution | src/keccak.rs:74 | adding a round constant twice is the identity |
| Permutation.KeccakFBijective | src/keccak.rs:78-85 | Keccak-f[1600] has an explicit two-sided inverse, so it is a permutation of states |
| Permutation.NativePermutationInjective | src/keccak.rs:78-85 | native states with equal permuted bits are equal |
| Keccak.Round | src/keccak.rs:46-76 | the bits of the lane-level round are the FIPS 202 round of the bits of its input |
| Keccak.ThetaLanesRefine | src/keccak.rs:47-57 | the lane-level column step computes theta bit for bit |
| Keccak.PermutedLanesRefine | src/keccak.rs:58-66 | the scattered rotations compute rho followed by pi bit for bit |
| Keccak.ChiLanesRefine | src/keccak.rs:67-73 | the lane-level row step computes chi bit for bit |
| Keccak.IotaLanesRefine | src/keccak.rs:74 | XOR into lane zero computes iota bit for bit |
| Keccak.Permute | src/keccak.rs:80-85 | the round loop computes Keccak-f[1600] |
| Keccak.AbsorbBlock | src/keccak.rs:88-94 | in-place lane XOR adds the block's bits to the first 1088 state bits and leaves the rest |
| Keccak.PadSingleBlock | src/keccak.rs:98-108 | the padded block is the message, the two padding bytes (merged when they meet) and zeros between |
| Keccak.PaddedBlockBits | src/keccak.rs:98-108 | those bytes spell the message, the SHAKE suffix 1111 and pad10*1 |
| Keccak.Shake256Native | src/keccak.rs:112-133 | for every message and output length the byte-level function computes SHAKE256 of FIPS 202 |
| Keccak.SqueezeNative | src/keccak.rs:123-132 | the chunked output loop, with its permutation after a full last chunk, yields the sponge output |
| Keccak.Shake256SingleBlock | src/circuit.rs:415-422 | for a one-block message the output is a prefix of a single permutation of the padded block |
| Keccak.StateBitsInjective | src/keccak.rs:137-139 | the circuit's bit layout loses nothing of the lanes |
| Words.StateBitIsShift | src/keccak.rs:137-139 | reading a bit of a lane is shifting and masking the 64-bit number it stands for |
| Words.FromLeBytes | src/keccak.rs:92 | the number read from eight little-endian bytes has their bits in order |
| Words.ToLeBytes | src/keccak.rs:126 | the eight little-endian bytes of a number have its bits in order |
| Words.RotateLeftIsShifts | src/keccak.rs:64 | rotating a lane is shifting its number left, truncating, and adding what was shifted out |
| Words.NotIsComplement | src/keccak.rs:71 | negating a lane complements its number |
| Constraints.Backend.WitnessBit | src/circuit.rs:259-261 | allocation hands out consecutive witness positions and asserts nothing |
| Constraints.BuildLiftNibbles | src/circuit.rs:274-290 | the accumulator loop builds the lifted wire of every group of four bits |
| Constraints.LiftGf16Value | src/circuit.rs:274-283 | a lifted wire carries the embedding of the GF(16) element its four bits spell |
| Constraints.QuadFormsHold | src/circuit.rs:639-640 | the quadratic assertion on lifted wires holds exactly when the MAYO equation holds on the spelled vectors |
| Constraints.ExprBitValue | src/circuit.rs:364-391 | over bit wires every polynomial evaluates to the embedded Boolean value of xor and and |
| KeccakCircuit.KeccakLinearExpr | src/circuit.rs:318-345 | the nested loops build the theta expression of every position |
| KeccakCircuit.PiRhoIndex | src/circuit.rs:347-362 | the table maps each position to the position its bit comes from |
| KeccakCircuit.PiRhoAt | src/circuit.rs:347-362 | reading through the table is rho followed by pi on any state |
| KeccakCircuit.KeccakRoundExpr | src/circuit.rs:364-391 | the loop builds the round expression of every position |
| KeccakCircuit.RoundExprsRefine | src/circuit.rs:364-391 | for every state, constant and witness, evaluating one symbolic round gives the FIPS 202 round of the evaluated state, hence the native one |
| KeccakCircuit.RoundExprsDegree | src/circuit.rs:364-391 | one symbolic round at most doubles the degree |
| KeccakCircuit.ExprRoundsDegree | src/circuit.rs:403-405 | r rounds from linear wires have degree at most 2^r |
| ShakeCircuit.InitialSpongeState | src/circuit.rs:299-316 | the in-place wire state is the message, the domain and padding ones, and zeros |
| ShakeCircuit.InitialWiresBits | src/circuit.rs:299-316 | those wires carry the padded block followed by a zero capacity |
| ShakeCircuit.AllocBits | src/circuit.rs:259-261 | a block of consecutive witness wires, and no assertion |
| ShakeCircuit.ShakeDegree16 | src/circuit.rs:393-413 | allocates six checkpoints, asserts four symbolic rounds between neighbours, and returns the last one |
| ShakeCircuit.ShakeAssertOutput | src/circuit.rs:424-435 | adds one equality per expected output wire |
| ShakeCircuit.ShakeHolds | src/circuit.rs:393-413 | the gadget's assertions hold exactly when checkpoint g is the native state after 4(g+1) rounds, for every g |
| ShakeCircuit.ShakeOutputBits | src/circuit.rs:412 | the returned wires then carry exactly the permuted state |
| ShakeCircuit.ShakeDegree | src/circuit.rs:393-413 | every assertion of the gadget has degree at most 16 |
| ShakeCircuit.WitnessBuffer.AppendKeccakCheckpoints | src/circuit.rs:247-257 | the generator appends the native states after rounds 4, 8, ..., 24, the only satisfying assignment |
| ShakeCircuit.WitnessBuffer.AppendBytesBits | src/circuit.rs:209-215 | appends the bits of every byte in order |
| ShakeCircuit.WitnessBuffer.AppendGf16Bits | src/circuit.rs:217-223 | appends the bits of every GF(16) element in order |
| ShakeCircuit.WitnessBuffer.AppendU32Bits | src/circuit.rs:225-227 | appends the 32 bits of the counter, lowest first |
| RangeCircuit.AppendLessThanCarries | src/circuit.rs:229-238 | the generator appends the ripple carries of value + !limit + 1 |
| RangeCircuit.CarryCompares | src/circuit.rs:229-238 | for every width, the carry out of the low j bits compares the numbers that the low j bits spell |
| RangeCircuit.CarryInvariant | src/circuit.rs:229-238 | the same in arithmetic: that carry is one exactly when value mod 2^j + !limit mod 2^j + 1 reaches 2^j, that is when value mod 2^j is at least limit mod 2^j |
| RangeCircuit.LastCarry | src/circuit.rs:230 | the last generated carry is one exactly when value >= limit |
| RangeCircuit.AssertU32LessThan | src/circuit.rs:480-509 | emits one carry equation per bit, with the terms of the complemented limit, and the zero test of the last carry |
| RangeCircuit.CarriesForced | src/circuit.rs:480-509 | the carry equations hold exactly for the generator's carries |
| RangeCircuit.LessThanHolds | src/circuit.rs:480-509 | for every width, all assertions hold exactly when the carries are the generator's and value < limit |
| Nibbles.UnpackPack | src/wire.rs:58-70 | unpacking the packed values returns them, and the packing is canonical |
| Nibbles.PackUnpack | src/wire.rs:132-148 | every byte string the decoder accepts is the packing of its result |
| Nibbles.PackNibbles | src/wire.rs:58-70 | the in-place loop computes the same bytes as the chunked packing |
| Nibbles.PackBits | src/circuit.rs:139-144 | the packed bytes spell the vector's bits, followed by four zero bits exactly when the count is odd |
| Nibbles.UnpackBits | src/circuit.rs:134-136 | nibbles taken from a hash output spell its leading bits |
| Messages.BuildSignedCredentialWires | src/circuit.rs:451-464 | the fill loop stops at the next byte boundary and adds only zero wires |
| Messages.CredentialWiresBits | src/circuit.rs:437-449 | the wire-level credential message evaluates to the bits of the byte-level one |
| Messages.SignedCredentialWiresBits | src/circuit.rs:451-464 | the same for the wrapped commitment, where the zero fill stands for the empty high nibble of an odd M |
| Messages.TagWiresBits | src/circuit.rs:466-478 | the same for the tag message, where 32 counter wires stand for four bytes |
| Messages.HashNibblesBits | src/circuit.rs:125-137 | the bits of a hashed vector are the first 4M bits of the permuted state |
| Circuits.MessageGadget | src/circuit.rs:415-422 | on wires that spell a byte message, the gadget accepts exactly the native checkpoints and outputs the native state |
| Circuits.GenerateIssueWitness | src/circuit.rs:518-533 | the generated issuance witness is the secrets followed by the native checkpoints |
| Circuits.BuildIssue | src/circuit.rs:537-546 | fails exactly on a target of the wrong length, and otherwise allocates 10112 bits and emits the issuance assertions |
| Circuits.IssueCircuitExact | src/circuit.rs:517-547 | a bit string satisfies the issuance circuit exactly when it is the generated witness of an opening of the target |
| Circuits.IssueComplete | src/circuit.rs:517-547 | a generated witness satisfies the circuit exactly when the target is the credential hash of its secrets |
| Circuits.GeneratePresentationWitness | src/circuit.rs:567-607 | the generated witness is signature, secrets, counter, carries and the checkpoints of the three hashes, in allocation order |
| Circuits.BuildPresentation | src/circuit.rs:611-650 | fails exactly on a zero limit or an oversized wrapper, and otherwise emits the five parts of the relation in order |
| Circuits.RangePartHolds | src/circuit.rs:626-631 | the range assertions hold exactly for the generated carries of a counter below the limit |
| Circuits.CredentialPartHolds | src/circuit.rs:633-635 | the first hash is forced, and its leading wires carry the commitment |
| Circuits.SignedPartHolds | src/circuit.rs:637-638 | given the first, the second hash is forced, and its leading wires carry the signed target |
| Circuits.TagPartHolds | src/circuit.rs:642-649 | the third hash is forced and the public tag is the tag of the secret, scope and counter |
| Circuits.PresentationCircuitExact | src/circuit.rs:566-651 | a bit string satisfies the presentation circuit exactly when it is the generated witness of its decoded secrets and these satisfy the native relation |
| Circuits.PresentationComplete | src/circuit.rs:566-651 | a generated witness satisfies the circuit exactly when its secrets satisfy the relation |
| Circuits.PresentationDegree | src/circuit.rs:610-651 | every assertion of the presentation circuit has degree at most 16 |
| Circuits.IssueDegree | src/circuit.rs:536-547 | every assertion of the issuance circuit has degree at most 16 |
| Wire.Decoder.Take | src/wire.rs:102-111 | reads exactly the next bytes and advances, or fails and stays |
| Wire.Decoder.TakeNibbles | src/wire.rs:132-148 | reads a canonical nibble vector of the given count or fails |
| Wire.Decoder.TakeFramed | src/wire.rs:127-130 | reads a length-prefixed byte string or fails |
| Wire.Decoder.Finish | src/wire.rs:150-156 | succeeds exactly when nothing is left |
| Wire.NewDecoder | src/wire.rs:78-100 | checks size, magic, version, artifact, suite and reserved bytes with the error of the first check that fails |
| Wire.ByteBuffer.Header | src/wire.rs:46-50 | appends the nine-byte envelope |
| Wire.ByteBuffer.PutBytes | src/wire.rs:52-56 | appends a byte string behind its 32-bit length |
| Wire.ParseFramedFormat | src/wire.rs:52-56 | a framed byte string parses back from any following input |
| Wire.FormatParseFramed | src/wire.rs:127-130 | whatever parses as framed is the framing of its result |
| Wire.ParseHeaderFormat | src/wire.rs:46-50 | an emitted envelope is accepted for its own artifact and suite |
| Wire.FormatParseHeader | src/wire.rs:78-100 | an accepted envelope is the emitted one |
| Wire.HeaderOutcome | src/wire.rs:78-100 | for every envelope, the first field that differs decides the error; an envelope of another artifact is WrongArtifact, of another suite WrongParameterSet |
| Wire.HeaderLayout | src/wire.rs:46-50 | the nine envelope bytes |
| Counters.AppendCounters | src/protocol.rs:823-826 | the encoder's loop emits the records in ascending key order |
| Counters.TakeCounters | src/protocol.rs:855-868 | the decoder's loop accepts exactly strictly ascending keys with nonzero counters |
| Counters.CountersRoundTrip | src/protocol.rs:823-826 | an encoded counter map parses back to itself |
| Counters.CountersCanonical | src/protocol.rs:855-868 | every accepted counter section is the encoding of the map it yields, with as many records as announced |
| Counters.AscendingUnique | src/protocol.rs:859-862 | a strictly ascending key sequence is determined by its set of keys |
| Counters.LessIsLexicographic | src/protocol.rs:859-861 | the key order is lexicographic on bytes: at the first difference the smaller byte comes first, in both directions |
| Counters.CountersLayout | src/protocol.rs:823-826 | record i stands at byte 36 * i, holds key and little-endian counter, and any two emitted keys ascend lexicographically |
| Counters.ZeroCounterRejected | src/protocol.rs:864-866 | a zero counter is rejected wherever it stands |
| Framing.HashFramed | src/context.rs:11-21 | the hasher loop hashes the concatenated framing |
| Framing.FramedInputInjective | src/context.rs:11-21 | the hashed bytes determine the domain and the component list, including its length |
| Framing.ScopedContextSeparates | src/context.rs:74-83 | equal bucket digests mean equal relying party, purpose and epoch (absent differs from empty) or an explicit hash collision |
| Framing.ScopesSeparate | src/circuit.rs:88-107 | equal scopes mean equal contexts or an explicit hash collision |
| Framing.IssuerContextInputInjective | src/protocol.rs:1037-1055 | the preimage determines application bytes, key hash, suite name and profile numbers although the name has no length |
| Framing.IssueStatementInjective | src/protocol.rs:1072-1084 | the issuance statement determines all its fields |
| Framing.PresentationStatementInjective | src/protocol.rs:1086-1101 | the presentation statement determines all its fields |
| Framing.StatementsDisjoint | src/protocol.rs:1072-1101 | the two kinds of statement never coincide |
| Framing.HashedMessagesDisjoint | src/circuit.rs:109-187 | the three in-circuit hash inputs never coincide |
| Framing.CredentialMessageInjective | src/circuit.rs:109-123 | the credential message determines scope, secret and hiding nonce |
| Framing.SignedCredentialMessageInjective | src/circuit.rs:146-160 | the wrapped message determines commitment and salt |
| Framing.TagMessageInjective | src/circuit.rs:175-187 | the tag message determines secret, scope and nonce |
| Framing.TagsSeparate | src/circuit.rs:189-193 | equal tags mean equal secret, scope and nonce or an explicit hash collision |
| Framing.TargetsSeparate | src/circuit.rs:125-173 | equal commitments open equally, and equal signed targets wrap the same commitment and salt, or there is an explicit collision |
| Protocol.AcceptedIsKnown | src/protocol.rs:266-274 | with a sound backend an accepted proof yields a satisfying witness of the circuit that was checked, and its secrets satisfy the native relation |
| Protocol.AcceptableExactly | src/protocol.rs:243-279 | with a lawful backend a tag has an acceptable proof exactly when a signed opening and a nonce below the limit stand behind it |
| Protocol.RefusalReason | src/protocol.rs:248-278 | a zero limit and nothing else is reported as such, every other refusal is a proof error, and an acceptance names its own scope and tag |
| Protocol.StatementOfInjective | src/protocol.rs:266-267 | the checked statement determines suite, issuer, the whole challenge with its binding, and the tag |
| Protocol.BoundToRequest | src/protocol.rs:1086-1101 | with a statement-binding backend one proof is accepted for one issuer, one challenge and one tag only |
| Protocol.TagStore.InsertIfAbsent | src/store.rs:12-23 | true exactly for the first insertion of a pair, which is stored afterwards; an error tells nothing and touches no other pair |
| Protocol.Verifier.Verify | src/protocol.rs:1023-1034 | proof errors, storage errors and duplicates in the source's order; a refusal other than a storage error leaves the store as it was, and an acceptance needs working storage, adds exactly its own absent pair, and grows the store by one |
| Credentials.Credential.Present | src/protocol.rs:727-794 | makes the source's checks in order and moves the bucket's counter only on success |
| Credentials.PresentEffect | src/protocol.rs:727-794 | a failure changes nothing; a success emits the tag of the current counter, which is below the limit, and moves only that counter, by one |
| Credentials.RunInvariant | src/protocol.rs:727-794 | over every run from any stored state, counters equal start plus successes, tags are those of consecutive nonces, and at most 4096 nonzero records exist |
| Credentials.FreshRun | src/protocol.rs:707-709 | from a fresh credential a counter is the number of successes and the tags are those of nonces 0, 1, ... in order |
| Credentials.CounterWithinLimit | src/protocol.rs:751-754 | a used counter never exceeds a limit some call in its bucket carried |
| Credentials.AllowanceExact | src/protocol.rs:751-754 | with a working prover one bucket yields exactly min(calls, limit - counter) presentations |
| Credentials.RaisingLimit | README.md:59-60 | raising a limit from L1 to L2 admits exactly the L2 - L1 following nonces |
| Credentials.PresentSucceedsExactly | src/protocol.rs:742-744 | the missing native signature check is redundant: presenting succeeds exactly for an authentic credential with room and allowance left |
| Credentials.PublicRefusal | src/protocol.rs:733-754 | which of the five public errors a refused call gives, and exactly when |
| Credentials.ProofRefusal | src/protocol.rs:780-787 | a proof error is given exactly for a credential that is not authentic and passes all other checks |
| Credentials.RateLimitExactly | src/protocol.rs:751-754 | on a fresh authentic credential call n succeeds below the limit and otherwise answers that the rate limit is reached |
| Credentials.NonceTagsSeparate | src/circuit.rs:189-193 | two nonces of one credential share a tag only by an explicit hash collision |
| Credentials.PresentedForOneRequest | src/protocol.rs:779 | what is proved under one challenge verifies under no other challenge, binding included, for no other tag and under no other issuer |
| Credentials.FreshAllowance | README.md:54-57 | n calls on a fresh authentic credential under limit L emit exactly the tags of the first min(n, L) nonces |
| Credentials.PresentedIsAccepted | src/protocol.rs:243-279 | an honest presentation passes proof-only verification under its own challenge, scope and tag |
| Credentials.ServedExactly | src/protocol.rs:1023-1034 | a verifier that checks what a run emits ends with exactly its earlier pairs and the pairs of the nonces used, in all buckets |
| Credentials.AcceptedIsGain | src/protocol.rs:1023-1034 | it accepts as many of them as its store gains pairs |
| Credentials.RollbackAddsNothing | src/protocol.rs:663-667 | a run from any earlier snapshot that passes no counter the first run reached changes neither store nor accepted count, and each of its presentations is a duplicate |
| Credentials.Credential.ToBytes | src/protocol.rs:805-828 | the encoder emits envelope, fixed fields, packed signature, count and sorted counters |
| Credentials.FromBytes | src/protocol.rs:842-887 | the decoder makes the source's checks with the source's errors and order |
| Credentials.CredentialLayout | src/protocol.rs:805-827 | where each field of the encoding stands |
| Credentials.CredentialRoundTrip | src/protocol.rs:805-887 | the decoder's answer to every encoding: the credential itself exactly when it is authentic and within the bounds, and otherwise the error that tells why not |
| Credentials.CredentialCanonical | src/protocol.rs:842-887 | every accepted byte string is the encoding of its result, which is authentic and within the bounds |
| Issuance.PendingToBytes | src/protocol.rs:462-470 | emits envelope, contexts and secrets, without the commitment |
| Issuance.PendingFromBytes | src/protocol.rs:478-498 | restores them and recomputes the commitment, with the source's errors |
| Issuance.IssuanceLayouts | src/protocol.rs:462-470 | where each field of the pending state and of the response stands |
| Issuance.PendingRoundTrip | src/protocol.rs:462-498 | stored state comes back with its commitment recomputed, so a consistent one comes back complete; another issuer's is refused |
| Issuance.PendingCanonical | src/protocol.rs:478-498 | every accepted byte string is the encoding of a consistent pending state |
| Issuance.CrashInvariant | src/protocol.rs:507-540 | finishing gives the same result with or without a crash in between |
| Issuance.FinishExactly | src/protocol.rs:513-529 | finishing succeeds exactly for a response to the own request, to the own issuer, with a preimage of the salted target; otherwise the first failing check names the error |
| Issuance.FinishIsAuthentic | src/protocol.rs:507-540 | a finished credential is authentic, has no counters, and carries what client and issuer sampled |
| Issuance.SignedIsOpened | src/protocol.rs:411-417 | with a sound backend the issuer signs only commitments of the right length that the extracted secrets open under the request's scope |
| Issuance.RequestableExactly | src/protocol.rs:391-417 | with a lawful backend a commitment has an acceptable request exactly when it has an opening under that credential context |
| Issuance.IssueRefusal | src/protocol.rs:397-430 | which error the issuer gives and exactly when, and what it returns otherwise |
| Issuance.RequestBound | src/protocol.rs:1072-1084 | with a statement-binding backend one request proof serves one issuer, one credential context and one commitment, and no presentation |
| Issuance.PrepareSucceeds | src/protocol.rs:168-210 | an honest client always obtains a request, and its pending state is consistent |
| Issuance.HonestIssuance | src/protocol.rs:391-430 | an honest request is never refused, and whatever the issuer signs finishes to an authentic credential |
| Issuance.ResponseToBytes | src/protocol.rs:632-640 | emits envelope, packed signature and salt |
| Issuance.ResponseFromBytes | src/protocol.rs:647-657 | reads them back with the source's errors in the source's order |
| Issuance.ResponseRoundTrip | src/protocol.rs:632-657 | a response with a signature of the suite's length decodes to itself, unless its encoding exceeds 32 MiB |
| Issuance.ResponseCanonical | src/protocol.rs:647-657 | every accepted byte string is the encoding of its result |
| Issuance.OneLineage | docs/DESIGN.md:119-121 | credentials from different responses to one request derive the same tag in every bucket for every nonce |
| Issuance.ReachableRoundTrip | src/protocol.rs:805-887 | every credential reachable by finishing and any run of presentations decodes from its own encoding |
| Accounting.VerifyIsCheckThenInsert | src/protocol.rs:1023-1034 | an uninterrupted verifier call is its proof step followed by its insert step, storage errors included |
| Accounting.RunKeepsInvariant | src/store.rs:6-23 | over every interleaving, accepted presentations were verified, are stored, and never share a scope and tag, and every issued entry got a response |
| Accounting.RunExtracts | paper/vole-arc.tex:506-514 | with a sound backend extraction succeeds for every answered request and accepted presentation of every run |
| Accounting.AcceptedIsRelated | paper/vole-arc.tex:575-581 | by the circuit theorem an accepted presentation has a signed opening, the tag of its nonce, and a nonce below its limit |
| Accounting.IssuedIsOpened | paper/vole-arc.tex:516-522 | by the circuit theorem an answered commitment is the hash of its extracted opening |
| Accounting.AcceptedIsIssued | paper/vole-arc.tex:581-584 | every accepted presentation belongs to an issued lineage |
| Accounting.SameSlotSameKey | paper/vole-arc.tex:589-592 | presentations with the same lineage and nonce in one bucket carry the same stored tag |
| Accounting.ScopedAccounting | paper/vole-arc.tex:555-572 | one bucket accepts at most q times the largest accepted limit, q counting lineages issued under the credential scope |
| Accounting.SoundAccounting | paper/vole-arc.tex:555-572 | the bound with a sound backend in place of the extraction hypothesis: only authentication and binding are left to assume |
| Accounting.BindingOrCollision | paper/vole-arc.tex:529-530 | two openings break binding only by an explicit collision of the commitment hash |
| Accounting.ScopedAccountingTotal | paper/vole-arc.tex:611-617 | the same bound for a whole bucket over all issued lineages, even if distinct policies share a scope |
| Attainment.Enrolled | src/protocol.rs:168-210 | in a lawful deployment every holder obtains a request, an answer and an authentic credential |
| Attainment.PresentsInOrder | src/protocol.rs:727-794 | call i below the limit succeeds, carries the tag of nonce i, and passes verification |
| Attainment.HonestYield | README.md:54-57 | when q holders enrol and present up to the limit, the bucket accepts exactly as many presentations as there are distinct tags among their nonces |
| Attainment.YieldAttainsBound | paper/vole-arc.tex:605-607 | without tag collisions that is q times the limit, which equals the accounting bound, for every q and every limit |
| Attainment.BoundIsAttained | paper/vole-arc.tex:555-572 | for every parameter set with M at most KN, as both supported ones have, and for any challenge and openings that bind and have distinct tags, some lawful deployment has a run that meets the hypotheses and attains the bound |
| Attainment.HypothesesAreMet | paper/vole-arc.tex:555-572 | for such a parameter set, one holder under limit one yields such a run without any condition on tags, so nothing proved from the hypotheses is empty |

## Left out

- The VOLE-in-the-head prover and verifier, proof bytes, MAYO key generation and
  preimage sampling are not part of this model; they are parameters with stated
  laws.
- Witness allocation in the backend never fails here, so the error results that
  only pass on its failure are absent.
- The quadratic assertion counts as degree two in the degree bound.
- Byte encodings of public keys, issuer keys, issue requests and presentations;
  they wrap keys and proofs of crates that are not part of this model, around the
  same envelope and framing.
- The hash of the expanded MAYO map enters the issuer context as a parameter.
- Probability bounds, zero knowledge and unlinkability: the accounting theorem is
  the combinatorial core, with the bad events of the paper as hypotheses.
- Zeroization, constant-time comparison, random number quality, display code.
- `Verifier::store_mut`, which lets a caller bypass the accounting, and crash
  durability of real stores; a store error is a step that accepts nothing,
  whether or not the pair became durable.
- Lanes are modelled as 64-bit strings, not as machine words. Shifts, rotations,
  complement and byte order are proved against numbers in `Words`; XOR and AND
  act position by position by definition.
