# DendrETH in Dafny

DendrETH follows Ethereum's beacon chain from other chains and proves sums of validator balances against it. This
project models the parts of it that hold logic of their own and proves what they are for. It stands beside the code:
nothing of the original is executed, and every statement holds for all inputs, all runs or all reachable states of
the model. Check it with `dafny verify dfyconfig.toml`.

- **The commitment mapper** (`CommitmentProducer`, `CommitmentPipeline`, `CommitmentProof`, `CommitmentBatches`,
  `CommitmentProgress`). Redis is a map from (depth, index) to a proof that is stale or holds a digest, the work
  queue two multisets of pending and leased jobs, and workers take the small steps lease, read, read, save, complete,
  with retries, errors, crashes and lease expiry anywhere. The producer's calls are one script that runs between the
  workers' steps. The result: after any history of drained batches the top node is the root of the list. It needs an
  even count and a list that did not get shorter (proved as an if and only if), leaf jobs before the lowest inner
  jobs of a batch, and no worker left over from an earlier batch; for the latter two the model says exactly when a
  node comes out wrong, and for each of them a run with two workers ends with an empty queue and a wrong root.
- **Merkle trees** (`Merkle`, `MerkleBuilders`). One reference tree over an arbitrary pair hash; the flat hasher
  list, the in-place loop with zero subtrees and both branch checks are compared with it.
- **256-bit arithmetic on two halves** (`WideArithmetic`, `Uint256`, `Uint256Division`, `Uint256Codec`, `Bytes`,
  `EosCommitment`). Results are written through objects that may be the operands themselves; shifts, carries,
  borrows, shift-subtract division, base conversion, field negation, codecs, and the split of the commitment into
  two field elements.
- **Circuit gadgets** (`Goldilocks`, `Bits`, `Limbs`, `SszBits`, `Sha256`, `Sha256Standard`, `Sha256Constants`). A
  circuit is evaluated on the values of its targets and a `connect` is a required equality. Limb arithmetic is
  compared with numbers, the SHA-256 circuit with a reference definition, and that definition with FIPS 180-4: its
  functions bit by bit, its padding, rounds and sums in numbers, and its tables with the roots of the primes.
- **The balance proof** (`BalanceTree`, `FinalCircuit`). Folding any full tree of range proofs is the direct
  computation on all validators; what the final circuit accepts against a state root is the sum of that state's own
  balances over its own active validators with the given credentials. `CommitmentJoin` runs the commitment mapper on
  the mapper's own circuits: what it stores is accepted by the final circuit exactly for an even count.
- **The relay's planner** (`Planner`), **the light-client store** (`LightClient`) and **the root rings** of the
  Cosmos and EOS contracts (`Rings`).

`Powers`, `Sequences` and `Wrappers` hold shared facts about powers of two, reversal and optional values.

Where the code decides against its surroundings the model follows the code:

- The depth-0 fallback is the root of the zero validator, while only the zero job of the lowest level replaces its
  children by zero chunks. An odd count therefore yields another root than the padded list has.
- `make_circuits` asserts that more than one padding bit is left, so it refuses lengths congruent to 447 modulo 512,
  which the standard can pad.
- `div_rem_biguint` accepts a remainder equal to the divisor, so the slot check also accepts the epoch before at the
  first slot of an epoch.
- `divmod256` does not end for a zero divisor. `negate_y_field` returns the field order itself for a nonzero multiple
  of it.
- `tostring256` subtracts one from its limit in 32 bits, so that a limit of zero is none, and writes its terminator
  behind the digits without looking at the room left; the contract asks for a buffer that holds what is written.
- The flag of the mapper's inner circuit is a free input. Nothing but the joined roots keeps a prover from blanking
  out more than a pair of validators, and they do.
- When the number of validators to take is lowered, the surplus stays in the store and in the root.
- The light client checks the next sync committee's branch at the depth and index of the finalized root, and applying
  an update never replaces the snapshot's own next committee. Where the fallback reads `sync_committee_bits` from an
  update, the bits of its aggregate are meant.
- A validator flagged as zero in a balance range is still summed. The total is right nevertheless: beyond the list
  the state's balances are zero, and inside it the flag cannot be set.
- `HeaderHashBeforeNum` counts round the ring for numbers that are not from 0 to 31, and is out of bounds only
  outside index - 32 to index + 31.

Hashes are parameters. Where a statement needs a pair hash without collisions it says so (`Injective`), and digests
are not bounded in length there, so that such a hash exists. The theorems about the final circuit also assume that no
hash is the zero leaf (`NeverZero`, `SoundLeaves`).

## Model

| member | source | states |
|---|---|---|
| `CommitmentProducer.CalculateIndexes` | beacon-light-client/plonky2/validators_commitment_mapper_tree/get_changed_validators.ts:240-260 | for every index and depth, `first` is the 2^(depth+1)-aligned start of the block that holds the index and `second` lies 2^depth further |
| `CommitmentProducer.SharesParent` | beacon-light-client/plonky2/validators_commitment_mapper_tree/get_changed_validators.ts:218-220 | the quotient comparison is true exactly when the parent enqueued last is the ancestor of this index |
| `CommitmentProducer.ParentsExact` | beacon-light-client/plonky2/validators_commitment_mapper_tree/get_changed_validators.ts:208-238 | for ascending indexes the parents of a level are exactly the ancestors of the changed indexes, each once, ascending |
| `CommitmentProducer.AdjacentTestIsMembership` | beacon-light-client/plonky2/validators_commitment_mapper_tree/get_changed_validators.ts:214-235 | comparing with the previous ancestor alone finds every duplicate when the indexes ascend |
| `CommitmentProducer.SentinelAligned` | beacon-light-client/plonky2/validators_commitment_mapper_tree/get_changed_validators.ts:214 | the start value 2^41 is a block start of every level, so the duplicate test is meaningful for the first index too |
| `CommitmentProducer.UnchangedMeansEqual` | beacon-light-client/plonky2/validators_commitment_mapper_tree/get_changed_validators.ts:311-327 | the field-by-field change test fails exactly for an equal validator at a known index |
| `CommitmentProducer.Producer.AddZeroTasks` | beacon-light-client/plonky2/validators_commitment_mapper_tree/get_changed_validators.ts:73-122 | the calls made before the first start: the zero validator, its leaf job, one zero job a level |
| `CommitmentProducer.ZeroValidatorIsZero` | beacon-light-client/plonky2/validators_commitment_mapper_tree/get_changed_validators.ts:75-89 | every field of the validator stored under the registry limit is zero |
| `CommitmentProducer.Producer.SaveChunk` | beacon-light-client/plonky2/validators_commitment_mapper_tree/get_changed_validators.ts:183-196 | validators are stored before the leaf jobs that read them are enqueued |
| `CommitmentProducer.Producer.SaveValidatorsInBatches` | beacon-light-client/plonky2/validators_commitment_mapper_tree/get_changed_validators.ts:176-206 | the calls made for a batch: chunks of leaf work, then the inner levels lowest first |
| `CommitmentProducer.BatchWrites` | beacon-light-client/plonky2/validators_commitment_mapper_tree/get_changed_validators.ts:176-196 | a batch writes its changed validators two hundred at a time, the last write with the rest |
| `CommitmentProducer.Producer.AddLevel` | beacon-light-client/plonky2/validators_commitment_mapper_tree/get_changed_validators.ts:214-236 | one mark and one job for each parent of the level, the mark first |
| `CommitmentProducer.Producer.AddInnerLevelProofs` | beacon-light-client/plonky2/validators_commitment_mapper_tree/get_changed_validators.ts:208-238 | the levels from the lowest up |
| `CommitmentProof.ReadIsCorrect` | beacon-light-client/plonky2/circuits_executables/src/crud.rs:274-324 | whatever usable proof a reader gets for a child, cached or from the zero chain, is the digest of that child in the current list |
| `CommitmentProof.UnchangedBlock` | beacon-light-client/plonky2/validators_commitment_mapper_tree/get_changed_validators.ts:158-162 | a block without changed validators has the same digest in the old list and in the grown one |
| `CommitmentProof.EmptyBlock` | beacon-light-client/plonky2/circuits_executables/src/crud.rs:290-300 | beyond the list every block is the zero subtree of its height, which is what the fallback returns |
| `CommitmentProof.ProduceKeeps` | beacon-light-client/plonky2/validators_commitment_mapper_tree/get_changed_validators.ts:183-235 | sending one more call of the script keeps the invariant |
| `CommitmentProof.QueueMoveKeeps` | beacon-light-client/plonky2/circuits_executables/bin/commitment_mapper.rs:100-113 | leasing in order, lease expiry and crashes keep the invariant |
| `CommitmentProof.ReadKeeps` | beacon-light-client/plonky2/circuits_executables/src/crud.rs:274-314 | every read, retry and fallback keeps the invariant |
| `CommitmentProof.MarkedChildIsRetried` | beacon-light-client/plonky2/circuits_executables/src/crud.rs:274-324 | a marked child is asked for six times in all, then the job is given up; the second child is counted anew |
| `CommitmentProof.SaveKeeps` | beacon-light-client/plonky2/circuits_executables/src/crud.rs:246-272 | saving a correct leaf or node keeps the invariant |
| `CommitmentProof.CompleteKeeps` | beacon-light-client/plonky2/circuits_executables/bin/commitment_mapper.rs:177-191 | completing a job after its save keeps the invariant: no stale node loses its outstanding work |
| `CommitmentProof.StepKeeps` | beacon-light-client/plonky2/circuits_executables/bin/commitment_mapper.rs:100-203 | every step of any worker or of the producer keeps the invariant |
| `CommitmentProof.TraceKeeps` | beacon-light-client/plonky2/circuits_executables/bin/commitment_mapper.rs:100-203 | the invariant holds in every state of every ordered interleaving |
| `CommitmentBatches.BatchMarks` | beacon-light-client/plonky2/validators_commitment_mapper_tree/get_changed_validators.ts:214-233 | every node over a changed validator is marked by the batch |
| `CommitmentBatches.BatchStarts` | beacon-light-client/plonky2/validators_commitment_mapper_tree/get_changed_validators.ts:130-174 | a settled store together with the script for the next list, of any length, starts the invariant for that list, continued by what was stored before where it is shorter |
| `CommitmentBatches.BatchOfMerged` | beacon-light-client/plonky2/validators_commitment_mapper_tree/get_changed_validators.ts:130-174 | for a list shorter than what is stored the producer makes the calls it would make for that list continued by the stored surplus: it never touches the surplus |
| `CommitmentBatches.DrainedIsSettled` | beacon-light-client/plonky2/circuits_executables/bin/commitment_mapper.rs:100-203 | a drained queue leaves every node right for the current list and the zero chain complete |
| `CommitmentBatches.CachedNodesAreCorrect` | beacon-light-client/plonky2/circuits_executables/bin/commitment_mapper.rs:100-203 | within a batch, for any number of workers and any ordered interleaving, a node above the leaves that is not marked and not still to be marked is the Merkle root of its block of the list the store is then about |
| `CommitmentBatches.HistorySettles` | beacon-light-client/plonky2/validators_commitment_mapper_tree/get_changed_validators.ts:130-174 | after any history of batches, with lists that grow or get shorter, the store is right for what was stored last |
| `CommitmentBatches.RootAfterHistory` | beacon-light-client/plonky2/circuits_executables/bin/commitment_mapper.rs:100-203 | from an empty store, after any history of drained batches, the top node is fresh and is the block root of what was stored, the root of the padded list when the count is even; without a shorter list in between that is the last list |
| `CommitmentBatches.RootIsListRootIffEven` | beacon-light-client/plonky2/circuits_executables/bin/commitment_mapper.rs:168-175 | the root the pipeline computes is the root of the list padded with zero chunks if and only if the number of validators is even |
| `CommitmentBatches.MergedRootExact` | beacon-light-client/plonky2/validators_commitment_mapper_tree/get_changed_validators.ts:130-174 | after a batch the root is that of the fetched list exactly when the list did not get shorter and has an even number of validators |
| `CommitmentProgress.CanAlwaysDrain` | beacon-light-client/plonky2/circuits_executables/bin/commitment_mapper.rs:100-203 | from every reachable state one worker can finish all outstanding work |
| `CommitmentProgress.EarlyReadExact` | beacon-light-client/plonky2/circuits_executables/bin/commitment_mapper.rs:156-175 | a worker that overtakes leaf jobs produces a right node exactly when both answers it reads, a stored leaf or the fallback, are the leaves of the new list |
| `CommitmentProgress.LateSaveExact` | beacon-light-client/plonky2/circuits_executables/bin/commitment_mapper.rs:177-191 | a worker left over from an earlier batch leaves a right node behind exactly when the digests it holds are the current ones |
| `CommitmentProgress.OvertakenLeafLosesUpdate` | beacon-light-client/plonky2/circuits_executables/bin/commitment_mapper.rs:100-203 | a concrete run with two workers: an inner job overtakes a leaf job, the queue drains, and the root kept as usable is that of the old list and, for an injective pair hash and a changed leaf, not that of the new one |
| `CommitmentProgress.LateSaverLosesUpdate` | beacon-light-client/plonky2/circuits_executables/bin/commitment_mapper.rs:100-203 | two runs in order, one a batch: a worker reads its children in the first and loses its lease, the batch is finished by another, the second batch drains, then the first worker saves; the root kept as usable is that of the first list and, for an injective pair hash and a changed leaf, not that of the second |
| `CommitmentProgress.EveryBatchCanFinish` | beacon-light-client/plonky2/circuits_executables/bin/commitment_mapper.rs:100-203 | from every settled store the batch of every next list has a run that drains it and leaves all workers free |
| `Merkle.RootDeterminesLeaves` | beacon-light-client/plonky2/circuits/src/build_final_circuit.rs:134-137 | with an injective pair hash two equal roots of the same height have equal leaves, position by position |
| `Merkle.PaddedRootDeterminesList` | beacon-light-client/plonky2/circuits/src/hash_tree_root.rs:24-59 | padded roots of equal height agree exactly when the padded lists agree |
| `Merkle.PathClimbs` | libs/typescript/ts-utils/ssz-utils.ts:6-26 | the sibling path of any node climbs to its ancestor for every index with the same low bits |
| `Merkle.ClimbingIsOnPath` | beacon-light-client/plonky2/circuits/src/is_valid_merkle_branch.rs:32-55 | with an injective hash whatever climbs to a node of the tree is the node below and its own sibling path |
| `Merkle.BranchVerifiesExactly` | beacon-light-client/plonky2/circuits/src/is_valid_merkle_branch.rs:32-55 | a branch of full height verifies, with position or generalized index, exactly for the leaf at that position and its sibling path |
| `MerkleBuilders.FlatHasherIsNode` | beacon-light-client/plonky2/circuits/src/hash_tree_root.rs:24-59 | hasher number n - 2^(k-d+1) + q of the flat list outputs node q at height d |
| `MerkleBuilders.FlatHashTreeRoot` | beacon-light-client/plonky2/circuits/src/hash_tree_root.rs:24-59 | the flat list of hashers over 2^k leaves, k at least 1, ends in the recursive Merkle root; the Poseidon circuit has the same two loops |
| `MerkleBuilders.ZeroHashes` | libs/typescript/ts-utils/ssz-utils.ts:33-46 | entry i is the root of a zero subtree of height i |
| `MerkleBuilders.HashLevelInPlace` | libs/typescript/ts-utils/ssz-utils.ts:55-62 | one in-place pass turns the nodes of a level at the front of the array into the nodes of the next |
| `MerkleBuilders.HashTreeRoot` | libs/typescript/ts-utils/ssz-utils.ts:33-73 | for any nonempty list the in-place fold and the zero-subtree climb give the root of the zero-padded list |
| `MerkleBuilders.VerifyMerkleProof` | libs/typescript/ts-utils/ssz-utils.ts:6-26 | accepts exactly when the leaf climbs to the root along the branch |
| `MerkleBuilders.CircuitMerkleBranch` | beacon-light-client/plonky2/circuits/src/is_valid_merkle_branch.rs:32-55 | the circuit form accepts the same, for indexes that fit in depth + 1 bits |
| `WideArithmetic.BitOrDisjoint` | contracts/eos/verifier-native/src/cpp/include/groth16/rapiduint256.hpp:86 | on disjoint bits or is addition |
| `Uint256.Gt256` | contracts/eos/verifier-native/src/cpp/include/groth16/rapiduint256.hpp:76-84 | the comparison of halves is the comparison of values |
| `Uint256.Shiftl256` | contracts/eos/verifier-native/src/cpp/include/groth16/rapiduint256.hpp:106-130 | multiplication by 2^value modulo 2^256, also in place |
| `Uint256.Shiftr256` | contracts/eos/verifier-native/src/cpp/include/groth16/rapiduint256.hpp:132-156 | division by 2^value, also in place |
| `Uint256.BitLenBounds` | contracts/eos/verifier-native/src/cpp/include/groth16/rapiduint256.hpp:158-178 | the bit length is the least k with n below 2^k |
| `Uint256.Bits256` | contracts/eos/verifier-native/src/cpp/include/groth16/rapiduint256.hpp:158-178 | the loop over the upper or the lower half returns the bit length of the value |
| `Uint256.Add256` | contracts/eos/verifier-native/src/cpp/include/groth16/rapiduint256.hpp:180-190 | addition modulo 2^256, carry by comparison, any aliasing |
| `Uint256.Minus256` | contracts/eos/verifier-native/src/cpp/include/groth16/rapiduint256.hpp:192-202 | exact difference, or difference plus 2^256, any aliasing |
| `Uint256Division.OrIsAdd` | contracts/eos/verifier-native/src/cpp/include/groth16/rapiduint256.hpp:204-208 | or-ing the next quotient bit into a quotient that is a multiple of twice that bit adds it, across the two halves |
| `Uint256Division.LoopTurn` | contracts/eos/verifier-native/src/cpp/include/groth16/rapiduint256.hpp:226-239 | one turn keeps copyd = r * adder, adder a power of two, the remainder below twice copyd and l = quotient * r + remainder |
| `Uint256Division.DivideLoop` | contracts/eos/verifier-native/src/cpp/include/groth16/rapiduint256.hpp:229-239 | the loop ends with quotient and remainder |
| `Uint256Division.DivMod256` | contracts/eos/verifier-native/src/cpp/include/groth16/rapiduint256.hpp:209-240 | for every nonzero divisor retDiv = l / r and retMod = l mod r, also when retDiv is l or a result is r; one object for both results keeps the value written last |
| `Uint256Division.ZeroDivisorNeverExits` | contracts/eos/verifier-native/src/cpp/include/groth16/rapiduint256.hpp:229 | for a zero divisor the loop condition is always true |
| `Uint256Division.NegatedIsInverse` | contracts/eos/verifier-native/src/cpp/include/groth16/rapiduint256.hpp:277-294 | the negated coordinate is an additive inverse, below the field order exactly when the coordinate is zero or no multiple of it |
| `Uint256Division.NegateYField` | contracts/eos/verifier-native/src/cpp/include/groth16/rapiduint256.hpp:277-294 | the output is that inverse; an output that is the coordinate itself is cleared first and stays zero |
| `Uint256Codec.NegateYFieldBytes` | contracts/eos/verifier-native/src/cpp/include/groth16/rapiduint256.hpp:329-342 | the same on big-endian buffers |
| `Bytes.ReadUint64Value` | contracts/eos/verifier-native/src/cpp/include/groth16/rapiduint256.hpp:36-41 | or-ing eight shifted bytes reads the big-endian number |
| `Uint256Codec.ReadU256BE` | contracts/eos/verifier-native/src/cpp/include/groth16/rapiduint256.hpp:43-52 | reads the big-endian number of 32 bytes |
| `Uint256Codec.WriteUint64BE` | contracts/eos/verifier-native/src/cpp/include/groth16/rapiduint256.hpp:308-318 | writes the big-endian bytes and leaves the rest of the buffer alone |
| `Uint256Codec.WriteU256BE` | contracts/eos/verifier-native/src/cpp/include/groth16/rapiduint256.hpp:319-328 | writes the 32 big-endian bytes of the value |
| `Bytes.BeRoundTrip` | contracts/eos/verifier-native/src/cpp/include/groth16/rapiduint256.hpp:36-52 | reading the written bytes gives the number back |
| `Uint256Codec.InSnarkFieldExact` | contracts/eos/verifier-native/src/cpp/include/groth16/rapiduint256.hpp:344-363 | the word-by-word comparison accepts exactly the numbers below the scalar field order |
| `Uint256Codec.FieldOrders` | contracts/eos/verifier-native/src/cpp/include/groth16/rapiduint256.hpp:329-363 | both field orders are the polynomials of the BN254 curve in its parameter |
| `Uint256Codec.ReverseString` | contracts/eos/verifier-native/src/cpp/include/groth16/rapiduint256.hpp:242-251 | reverses the prefix in place and nothing else |
| `Uint256Codec.ToString256` | contracts/eos/verifier-native/src/cpp/include/groth16/rapiduint256.hpp:252-275 | terminates; succeeds exactly when base and room allow, where a limit of zero is no limit; the text is the digits of the number, with the terminator behind them |
| `Bytes.ParseDigits` | contracts/eos/verifier-native/src/cpp/include/groth16/rapiduint256.hpp:252-275 | parsing those digits in the same base gives the number back; they are lower case, without superfluous leading zeros |
| `Bytes.DigitsLength` | contracts/eos/verifier-native/src/cpp/include/groth16/rapiduint256.hpp:252-275 | a number below base^n takes at most n digits |
| `Bytes.DecodeHexValue` | contracts/eos/verifier-native/src/cpp/include/groth16/rapiduint256.hpp:377-392 | decoding hexadecimal text gives bytes with the same value |
| `Bytes.DigitValues` | contracts/eos/verifier-native/src/cpp/include/groth16/rapiduint256.hpp:365-375 | the sixteen digit characters, upper and lower case, have the values 0 to 15 |
| `Bytes.LoneDigit` | contracts/eos/verifier-native/src/cpp/include/groth16/rapiduint256.hpp:377-392 | a lone last digit counts as if a zero followed it |
| `Bytes.HexRoundTrip` | contracts/eos/verifier-native/src/cpp/include/groth16/rapiduint256.hpp:377-392 | decoding encoded bytes gives them back |
| `EosCommitment.FromHex` | contracts/eos/verifier-native/src/cpp/include/groth16/rapiduint256.hpp:377-392 | the buffer holds the decoded bytes, the rest is untouched, invalid characters abort |
| `EosCommitment.FirstInput` | contracts/eos/verifier-native/src/cpp/verifier-native.cpp:116-150 | the first public input is 64 digits that decode to the commitment divided by eight |
| `EosCommitment.SecondInput` | contracts/eos/verifier-native/src/cpp/verifier-native.cpp:138-144 | the second is 64 digits that decode to the low three bits |
| `EosCommitment.InputsRecompose` | contracts/eos/verifier-native/src/cpp/verifier-native.cpp:113-152 | first * 8 + second is the commitment, and both pass the field check |
| `EosCommitment.SplitIsInjective` | contracts/eos/verifier-native/src/cpp/verifier-native.cpp:113-152 | different commitments give different input pairs |
| `EosCommitment.FullTextDecoded` | contracts/eos/verifier-native/src/cpp/include/groth16/groth16.hpp:31-91 | the input buffer is never cleared, but 64 digits overwrite all of it |
| `EosCommitment.CalculateVkX` | contracts/eos/verifier-native/src/cpp/include/groth16/groth16.hpp:31-91 | alternating between two accumulator halves computes ic[0] + (ic[1] * x[0] + ... + ic[n] * x[n-1]), each x[i] the buffer after its input, terms added from the left: if the result exists so does the whole computation, term by term, and any such computation gives the result; fails exactly when the counts differ, a text does not decode, an input is no field element, or a group operation fails |
| `EosCommitment.AccumulatedComputes` | contracts/eos/verifier-native/src/cpp/include/groth16/groth16.hpp:65-87 | every partial sum that exists has its computation: buffers, terms mul(ic[i + 1], x[i + 1]) and partial sums from the zero point on |
| `EosCommitment.ComputedIsAccumulated` | contracts/eos/verifier-native/src/cpp/include/groth16/groth16.hpp:65-87 | there is only one such computation |
| `EosCommitment.TwoInputs` | contracts/eos/verifier-native/src/cpp/verifier-native.cpp:116-152 | the case of the contract: two inputs of 64 digits are multiplied with ic[1] and ic[2] and added from the left |
| `Limbs.ValInjective` | beacon-light-client/plonky2/circuits/src/biguint.rs:93-105 | limb lists of equal length and value are equal |
| `Limbs.ConnectBiguint` | beacon-light-client/plonky2/circuits/src/biguint.rs:93-105 | satisfiable exactly when the values are equal, for operands of different limb counts |
| `Limbs.AddBiguint` | beacon-light-client/plonky2/circuits/src/biguint.rs:141-163 | the exact sum in one limb more |
| `Limbs.SubBiguint` | beacon-light-client/plonky2/circuits/src/biguint.rs:165-182 | the exact difference when it is not negative, otherwise plus the power of the base |
| `Limbs.MulBiguint` | beacon-light-client/plonky2/circuits/src/biguint.rs:184-208 | column-wise accumulation gives the exact product, the final carry is zero |
| `Limbs.IfBiguint` | beacon-light-client/plonky2/circuits/src/utils.rs:171-190 | selects one of two numbers of different limb counts |
| `Limbs.BiguintIsEqual` | beacon-light-client/plonky2/circuits/src/utils.rs:48-64 | true exactly for equal values |
| `Limbs.DivRemAccepts` | beacon-light-client/plonky2/circuits/src/biguint.rs:232-263 | the constraints are a = div * b + rem and rem at most b |
| `Limbs.AcceptedQuotient` | beacon-light-client/plonky2/circuits/src/biguint.rs:232-263 | for b above zero the accepted pairs are quotient and remainder, or the quotient less one with the remainder equal to b |
| `Limbs.GeneratorFits` | beacon-light-client/plonky2/circuits/src/biguint.rs:338-345 | when b has a nonzero top limb and no more limbs than a, the generator's limbs hold quotient and remainder and meet the constraints: a = div * b + rem with rem below b |
| `Limbs.GeneratedLimbs` | beacon-light-client/plonky2/circuits/src/biguint.rs:338-345 | a number that fits is written into the limbs provided with its value |
| `SszBits.BitsToBiguint` | beacon-light-client/plonky2/circuits/src/utils.rs:76-91 | the limbs hold the value of the bits |
| `SszBits.BiguintToBits` | beacon-light-client/plonky2/circuits/src/utils.rs:93-106 | the bits hold the value of the limbs |
| `SszBits.SszNumToBits` | beacon-light-client/plonky2/circuits/src/utils.rs:151-162 | the bits are the little-endian SSZ encoding, then zeros |
| `SszBits.SszNumFromBits` | beacon-light-client/plonky2/circuits/src/utils.rs:164-169 | reads the SSZ number |
| `SszBits.SszRoundTrip` | beacon-light-client/plonky2/circuits/src/utils.rs:147-169 | reading back what was written gives the same limbs for every limb count |
| `SszBits.SszOfBits` | beacon-light-client/plonky2/circuits/src/utils.rs:147-169 | read as an SSZ number, the bits of an n-byte number are that number with its bytes swapped |
| `SszBits.ByteSwapTwice` | beacon-light-client/typescript/src/utils/Utils.contract.ts:12-31 | the byte swap is its own inverse |
| `SszBits.Reverse64` | beacon-light-client/typescript/src/utils/Utils.contract.ts:12-31 | the loop computes the byte swap of a 64-bit value |
| `Sha256.RotRIsTwoShifts` | beacon-light-client/plonky2/circuits/src/sha256.rs:73-84 | rotation by an index table is rotation as the standard defines it by two shifts |
| `Sha256.Xor3IsBoolean` | beacon-light-client/plonky2/circuits/src/sha256.rs:103-124 | on bits the field polynomial is the exclusive or of three |
| `Sha256.ChIsBoolean` | beacon-light-client/plonky2/circuits/src/sha256.rs:215-239 | on bits the polynomial is the choice function |
| `Sha256.MajIsBoolean` | beacon-light-client/plonky2/circuits/src/sha256.rs:241-263 | on bits the polynomial is the majority function |
| `Sha256.Rotate32` | beacon-light-client/plonky2/circuits/src/sha256.rs:73-84 | the table of a right rotation |
| `Sha256.Shift32` | beacon-light-client/plonky2/circuits/src/sha256.rs:86-101 | the table of a right shift, zeros from the extra position |
| `Sha256.SmallSigma0Circuit` | beacon-light-client/plonky2/circuits/src/sha256.rs:168-188 | the circuit computes the standard's function |
| `Sha256.BigSigma1Circuit` | beacon-light-client/plonky2/circuits/src/sha256.rs:147-166 | the circuit computes the standard's function |
| `Sha256.WindowReads` | beacon-light-client/plonky2/circuits/src/sha256.rs:349-355 | the slots i, i+1, i+9 and i+14 modulo 16 hold the four schedule words the next one is made of |
| `Sha256.WindowMoves` | beacon-light-client/plonky2/circuits/src/sha256.rs:349-355 | overwriting slot i modulo 16 keeps the last sixteen schedule words in the window |
| `Sha256.FirstRounds` | beacon-light-client/plonky2/circuits/src/sha256.rs:322-347 | sixteen rounds of the standard, message words entering the window |
| `Sha256.LaterRounds` | beacon-light-client/plonky2/circuits/src/sha256.rs:349-378 | rounds 16 to 63 over the rolling window are the standard's rounds |
| `Sha256.PaddingLength` | beacon-light-client/plonky2/circuits/src/sha256.rs:283-286 | the block count leaves room for the standard's padding; the number of zero bits is the least |
| `Sha256.PadMessage` | beacon-light-client/plonky2/circuits/src/sha256.rs:288-298 | the laid out message is the padded message of section 5.1.1 of FIPS 180-4 |
| `Sha256.HashBlock` | beacon-light-client/plonky2/circuits/src/sha256.rs:311-388 | one block: all rounds and the addition to the state, as in section 6.2.2 |
| `Sha256.MakeCircuits` | beacon-light-client/plonky2/circuits/src/sha256.rs:277-398 | for every length below 2^64: refuses exactly the lengths congruent to 447 modulo 512, otherwise the digest is `Digest` of the message, which `Sha256Standard` and `Sha256Constants` compare with FIPS 180-4 word by word |
| `Sha256Constants.RoundConstants` | beacon-light-client/plonky2/circuits/src/sha256.rs:13-32 | each round constant is the first 32 bits of the fractional part of the cube root of the prime of its number: section 4.2.2 of FIPS 180-4 |
| `Sha256Constants.InitialState` | beacon-light-client/plonky2/circuits/src/sha256.rs:7-11 | each initial word is the first 32 bits of the fractional part of the square root of one of the first eight primes: section 5.3.3 |
| `Sha256Standard.SigmaBits` | beacon-light-client/plonky2/circuits/src/sha256.rs:126-213 | every bit of the four sigma functions is the exclusive or of the three bits at the standard's distances: section 4.1.2 |
| `Sha256Standard.ChoiceAndMajority` | beacon-light-client/plonky2/circuits/src/sha256.rs:215-263 | bit by bit, the choice by the first word and the majority of three |
| `Sha256Standard.PaddingIsMinimal` | beacon-light-client/plonky2/circuits/src/sha256.rs:283-298 | one bit, the fewest zeros that fill up a block of 512, and the length in 64 bits: section 5.1.1 |
| `Sha256Standard.DigestIsStandard` | beacon-light-client/plonky2/circuits/src/sha256.rs:300-398 | there is a state for every block, from the initial words on, each reached from the one before by a schedule, 64 rounds and an addition that are spelled out modulo 2^32 as in section 6.2.2; the digest is the words of the last one |
| `BalanceTree.IsActiveValidator` | beacon-light-client/plonky2/circuits/src/is_active_validator.rs:19-39 | active exactly when activation is at most the epoch and the epoch is below exit |
| `BalanceTree.CountsBetweenActivationAndExit` | beacon-light-client/plonky2/circuits/src/validator_balance_circuit.rs:164-173 | nobody counts before activation, from exit on, or with other credentials, and everybody else does |
| `BalanceTree.TotalIsSum` | beacon-light-client/plonky2/circuits/src/validator_balance_circuit.rs:146-180 | the reference total is the last of partial sums that grow by the 64-bit SSZ balance of each validator with the credentials whose activation epoch is at most the epoch and whose exit epoch is above it |
| `BalanceTree.PackedBalances` | beacon-light-client/plonky2/circuits/src/validator_balance_circuit.rs:150-162 | a chunk as an SSZ number is its four balances, the first one lowest, in words of 64 bits |
| `BalanceTree.IfHash` | beacon-light-client/plonky2/circuits/src/validator_balance_circuit.rs:120-143 | selects between the validator's root and zero, element by element |
| `BalanceTree.FlagBlanksLeaf` | beacon-light-client/plonky2/circuits/src/validator_balance_circuit.rs:120-143 | a flagged position commits to four zeros, every other one to its validator's root |
| `BalanceTree.SumBalances` | beacon-light-client/plonky2/circuits/src/validator_balance_circuit.rs:146-180 | the running sums end, modulo 2^64, in partial sums that grow by a validator's 64-bit balance exactly when its credentials are the given ones, its activation epoch is at most the epoch and its exit epoch above it |
| `BalanceTree.ValidatorBalanceVerification` | beacon-light-client/plonky2/circuits/src/validator_balance_circuit.rs:83-196 | one range: total, balances root and commitment are those of the direct computation, whose total `TotalIsSum` spells out |
| `BalanceTree.InnerLevel` | beacon-light-client/plonky2/circuits/src/build_balance_inner_level_circuit.rs:87-131 | satisfiable exactly when credentials and epoch agree; both roots are hashed, the sums added modulo 2^64 |
| `BalanceTree.RootOfConcat` | beacon-light-client/plonky2/circuits/src/build_balance_inner_level_circuit.rs:87-112 | the root of a list of double length is the pair hash of the roots of its halves |
| `BalanceTree.TotalOfConcat` | beacon-light-client/plonky2/circuits/src/build_balance_inner_level_circuit.rs:114-121 | the total over two ranges together is the sum of the totals |
| `BalanceTree.FoldIsDirect` | beacon-light-client/plonky2/circuits/src/build_balance_inner_level_circuit.rs:87-140 | whatever full tree of ranges was folded, total and both roots are the direct computation on all validators together |
| `BalanceTree.ProveTree` | beacon-light-client/plonky2/circuits/src/build_balance_inner_level_circuit.rs:123-131 | the fold can be carried out exactly when all ranges are about the same credentials and epoch |
| `BalanceTree.ZeroValidatorNeverCounts` | beacon-light-client/plonky2/circuits/src/validator_balance_circuit.rs:164-173 | the validator used for padding is active in no epoch |
| `BalanceTree.PaddingAddsNothing` | beacon-light-client/plonky2/circuits/src/validator_balance_circuit.rs:146-180 | positions from n on add nothing exactly when nobody there counts with a nonzero balance |
| `FinalCircuit.MulElements` | beacon-light-client/plonky2/circuits/src/build_commitment_mapper_inner_level_circuit.rs:89-104 | multiplication by the flag keeps or clears all elements |
| `FinalCircuit.MulBits` | beacon-light-client/plonky2/circuits/src/build_commitment_mapper_inner_level_circuit.rs:97-118 | multiplication by the flag keeps or clears all bits |
| `FinalCircuit.MapperInner` | beacon-light-client/plonky2/circuits/src/build_commitment_mapper_inner_level_circuit.rs:89-126 | both trees are hashed in step over the two children, or over two zeros when the flag is set |
| `FinalCircuit.MapperRootsAreRoots` | beacon-light-client/plonky2/circuits/src/build_commitment_mapper_inner_level_circuit.rs:89-126 | when only lowest pairs are blanked out, both roots are Merkle roots over the same slots |
| `FinalCircuit.ShaFlagsAtBottom` | beacon-light-client/plonky2/circuits/src/build_commitment_mapper_inner_level_circuit.rs:89-126 | the flag is a free input, yet a mapper tree whose SHA-256 root is the root of some tree of its height has it set on pairs of validators alone |
| `FinalCircuit.PoseidonFlagsAtBottom` | beacon-light-client/plonky2/circuits/src/build_commitment_mapper_inner_level_circuit.rs:89-126 | the same from the Poseidon root |
| `FinalCircuit.JoinForcesLeaves` | beacon-light-client/plonky2/circuits/src/build_final_circuit.rs:134-137 | joining the Poseidon roots forces the balance tree and the mapper tree to hold the same leaves, position by position |
| `FinalCircuit.VerifySlotIsInRange` | beacon-light-client/plonky2/circuits/src/build_final_circuit.rs:274-284 | what the slot check demands of the quotient and remainder a prover supplies |
| `FinalCircuit.SlotEpochExact` | beacon-light-client/plonky2/circuits/src/build_final_circuit.rs:274-284 | some remainder passes exactly for the slot's epoch or, at the first slot of an epoch, the epoch before |
| `FinalCircuit.ConnectedBranch` | beacon-light-client/plonky2/circuits/src/build_final_circuit.rs:312-330 | the branch constraint for the three fixed indexes |
| `FinalCircuit.FinalCircuit` | beacon-light-client/plonky2/circuits/src/build_final_circuit.rs:94-219 | accepts exactly when the roots join, the three branches lead to the state root and the slot is in range |
| `FinalCircuit.AcceptedRootsAreState` | beacon-light-client/plonky2/circuits/src/build_final_circuit.rs:139-173 | the accepted branches pin both roots, the size and the slot to the fields of the state |
| `FinalCircuit.AcceptedSumIsStateSum` | beacon-light-client/plonky2/circuits/src/build_final_circuit.rs:94-219 | the main theorem: for every mapper tree, wherever its flags are set, an accepted sum is the sum, modulo 2^64, of the state's own balances over the state's own validators with these credentials that are active in the proved epoch |
| `FinalCircuit.HonestProofIsAccepted` | beacon-light-client/plonky2/circuits/src/build_final_circuit.rs:94-219 | completeness: proofs of the state's own roots for the slot's epoch are accepted with the state's own sibling paths |
| `CommitmentJoin.TreeIsNode` | beacon-light-client/plonky2/circuits/src/build_commitment_mapper_inner_level_circuit.rs:89-126 | the pipeline with the mapper circuits as its hashes: every block is the pair of roots of a tree of mapper proofs that blanks out the pairs beyond the list |
| `CommitmentJoin.StoredRootIsMapperTree` | beacon-light-client/plonky2/circuits_executables/bin/commitment_mapper.rs:156-203 | after any history of drained batches the top of the store is the output of such a full tree |
| `CommitmentJoin.MapperRootExact` | beacon-light-client/plonky2/circuits_executables/bin/commitment_mapper.rs:168-175 | its SHA-256 root is the validators root of the state that holds the list exactly for an even number of validators |
| `CommitmentJoin.MapperTreeIsAcceptedIffEven` | beacon-light-client/plonky2/circuits/src/build_final_circuit.rs:94-219 | from the pipeline to the final circuit: against the root of that state, and beside a balance proof with the same commitment, there are branches, quotient and remainder the final circuit accepts exactly for an even number of validators |
| `Planner.ClosestExisting` | relay/implementations/beacon-api.ts:136-196 | the first existing block from the slot on, none exactly when there is none up to the limit |
| `Planner.FindClosestValidBlock` | relay/workers/poll-updates/get_light_client_input_from_to.ts:74-127 | terminates; returns the first block from `to` on whose next existing block, no later than the head, has three times its signers above twice the committee of 512, while every earlier block from `to` on falls short; it fails only when every block up to the head does |
| `Planner.FirstWithEnough` | relay/workers/poll-updates/get_light_client_input_from_to.ts:106-119 | the first signed block in numbers, with the threshold of two thirds of 512 |
| `Planner.TooFew` | relay/workers/poll-updates/get_light_client_input_from_to.ts:106-123 | in numbers, when nothing is signed: every block falls short of that threshold |
| `Planner.TargetIsBelowHead` | relay/utils/orchestrator.ts:75-93 | the target is never beyond the head: near the head its last multiple of the jump, far behind it the first slot of the last epoch of the next period |
| `Planner.GetNextSlot` | relay/utils/orchestrator.ts:69-102 | searches from the target of the current period |
| `Planner.InsertSplits` | relay/utils/orchestrator.ts:22-24 | a new interval is sorted in after all that start no later |
| `Planner.PathIsGapFree` | relay/utils/orchestrator.ts:26-33 | the jobs that fire in one pass form a gap-free, strictly increasing chain from the on-chain slot |
| `Planner.NoJobStartsAtEnd` | relay/utils/orchestrator.ts:26-33 | one pass is enough: no live job starts where it ends |
| `Planner.QueueingProlongs` | relay/utils/orchestrator.ts:47-64 | queueing an interval at the chain's end keeps the chain and prolongs it |
| `Planner.Relay.AddUpdate` | relay/utils/orchestrator.ts:14-67 | adds one interval from the chain's end to a later slot below the head, or leaves the queue alone and says why |
| `Planner.Relay.AskForUpdates` | relay/on_chain_publisher.ts:269-278 | the caller's loop ends; the chain of live intervals is prolonged, gap-free and ends where nothing more can be queued |
| `LightClient.IsValidMerkleBranch` | beacon-light-client/typescript/src/utils/Utils.contract.ts:94-117 | accepts exactly when `depth` siblings are there and lead to the root |
| `LightClient.ParticipantKeys` | beacon-light-client/typescript/src/main/BeaconLightClient.contract.ts:96-108 | one key for each position that holds one, in committee order: the key of position i stands behind those of the participants before it |
| `LightClient.SelectedKeyAt` | beacon-light-client/typescript/src/main/BeaconLightClient.contract.ts:96-108 | entry number "ones before i" of the selection is key i, or zero beyond the committee |
| `LightClient.OnesIsCount` | beacon-light-client/typescript/src/main/BeaconLightClient.contract.ts:96-108 | the number of participants is the number of positions that hold one |
| `LightClient.FinalityBranchExact` | beacon-light-client/typescript/src/main/BeaconLightClient.contract.ts:52-68 | with an injective hash a branch of depth 6 and index 105 passes exactly for leaf 41 of 64 and its sibling path |
| `LightClient.ValidInNumbers` | beacon-light-client/typescript/src/main/BeaconLightClient.contract.ts:23-126 | validity in numbers: a newer slot of the same or the next period of 8192 slots, branches of six siblings at index 105 where they are due and none elsewhere, 512 keys for a later period, a participant, the signature of the right committee on the right header |
| `LightClient.Validate` | beacon-light-client/typescript/src/main/BeaconLightClient.contract.ts:23-126 | accepts exactly the updates that are valid against the snapshot |
| `LightClient.SelectBest` | beacon-light-client/typescript/src/main/BeaconLightClient.contract.ts:172-185 | a pending update of maximal participation; the placeholder only when nobody takes part |
| `LightClient.QuorumIsTwoThirds` | beacon-light-client/typescript/src/main/BeaconLightClient.contract.ts:149-170 | a quorum is at least twice as many participants as absentees, with a finalized header |
| `LightClient.BeaconLightClient.Apply` | beacon-light-client/typescript/src/main/BeaconLightClient.contract.ts:128-147 | header and, one period on, current committee are replaced; the slot rises, the period by at most one |
| `LightClient.BeaconLightClient.Process` | beacon-light-client/typescript/src/main/BeaconLightClient.contract.ts:149-189 | rejects exactly the invalid updates and changes nothing then; applies on a quorum or, after the timeout, the best pending update; every pending update stays valid against the snapshot |
| `LightClient.HistoryAdvances` | beacon-light-client/typescript/src/main/BeaconLightClient.contract.ts:128-189 | over a whole run slots strictly rise and periods rise by at most the number of applied updates |
| `Rings.LookBack` | contracts/cosmos/verifier/src/contract.rs:203-213 | stepping back k slots, at most 31, finds the k-th entry before the last of the unbounded history |
| `Rings.RingGrows` | contracts/cosmos/verifier/src/contract.rs:126-138 | writing the next slot keeps the byte array in step with the history |
| `Rings.ChainGrows` | contracts/cosmos/verifier/src/contract.rs:113-125 | every accepted update was verified against the optimistic root accepted just before it |
| `Rings.CosmosVerifier.constructor` | contracts/cosmos/verifier/src/contract.rs:42-67 | the ring starts with the given header in the first slot |
| `Rings.CosmosVerifier.ExecuteUpdate` | contracts/cosmos/verifier/src/contract.rs:95-164 | accepted: one more entry of the history, its three roots in the 32 bytes of the next slot and every other byte as before; rejected: nothing changes |
| `Rings.CosmosVerifier.AllHeadersOrdered` | contracts/cosmos/verifier/src/contract.rs:228-245 | the last 32 roots of the history, newest first, zeros where it is shorter |
| `Rings.CosmosVerifier.AllFinalizedOrdered` | contracts/cosmos/verifier/src/contract.rs:260-277 | the last 32 finalized roots, newest first |
| `Rings.CosmosVerifier.AllExecStateOrdered` | contracts/cosmos/verifier/src/contract.rs:292-309 | the last 32 execution state roots, newest first |
| `Rings.CosmosVerifier.HeaderBefore` | contracts/cosmos/verifier/src/contract.rs:203-213 | looking back by 0 to 31 returns that entry; out of bounds exactly outside index - 32 to index + 31 |
| `Rings.Ordered` | contracts/cosmos/verifier/src/contract.rs:228-309 | the stepping loop of the three ordered queries |
| `Rings.VectorBack` | contracts/eos/verifier-native/src/cpp/verifier-native.cpp:155-167 | the same for vectors indexed from zero |
| `Rings.EosVerifier.constructor` | contracts/eos/verifier-native/src/cpp/verifier-native.cpp:20-62 | the vectors start with the given header in slot zero |
| `Rings.EosVerifier.Update` | contracts/eos/verifier-native/src/cpp/verifier-native.cpp:64-168 | accepted: one more row of the history, verified against the root before it and written to the next slot of all four vectors; rejected: nothing changes |

## Left out

- Pairings, elliptic curves, BLS, Groth16 and plonky2 proving and verification: foreign code, here abstract functions
  and predicates. A recursive proof stands for the constraints of its circuit.
- Poseidon: an abstract pair hash; its flat Merkle builder has the same loops as the SHA-256 one and is the same
  method. The validator's own roots, Poseidon and SHA-256, are abstract functions of its fields.
- Redis, BullMQ, HTTP, EOS tables and CosmWasm storage: only the map, queue and record they implement. Sleeps,
  logging, metrics, JSON and command lines are omitted, and job bytes are a datatype.
- Number of levels: a parameter, 40 as deployed; the worker's branch for job data of another length is not modelled.
- Target serialization, generators and gates other than the division generator's values, public-input getters and
  circuit data files.
- `add_many_u32`, `mul_u32`, `sub_u32`, `split_le`, `le_sum` and `list_le_u32_circuit`: primitives with their numeric
  contract. The limit on the number of addends of one column and the width of a column's carry are not modelled.
- Limbs.CmpBiguint: the comparison of values, because the library's list comparison is a primitive here.
- FinalCircuit.MapperInner: asks for elements below the field order and 256-bit digests, which the public inputs of
  a proof always are.
- BalanceTree.ValidatorBalanceVerification: asks for a power of two of at least eight validators; the builder panics
  for other numbers that are no power of two, and its flat tree needs two balance chunks.
- MerkleBuilders.HashTreeRoot: asks for at least one leaf; for none the logarithm in the code is not a number. Exact
  logarithms replace the floating-point ones.
- Uint256Division.DivMod256: asks for a nonzero divisor, because the loop does not end for zero.
- Uint256Division.NegateYField: asks, for a nonzero coordinate, for a field order that is not zero and not the output
  itself, because the division does not end otherwise.
- Uint256Codec.ToString256: asks for a buffer that holds the characters written; writes beyond it are not modelled.
- EosCommitment.CalculateVkX: the point table and the group operations, which may fail, are parameters.
- CommitmentJoin.TreeIsNode: how a validator becomes the targets of its circuit is a parameter.
- EOS `update`: the 192 bytes that are hashed contain eight bytes that the code leaves uninitialised, so the hash
  input is not modelled; the model starts from the commitment.
- LightClient.Validate: signing roots, domains and committee hashing are parameters; key lengths are not checked.
- LightClient.SelectBest: the order in which a set is enumerated is left open.
- Planner.Relay.AddUpdate: the job list does not change while it is read, and a job that failed stays failed.
- Cosmos `CurrentSlot` query, which reads four of eight bytes, and the unordered `get_all` queries, which list slots
  1 to 31.
- `Utils.merkle_root` of the light client: its helper takes the arguments in another order than it is given.
- The balance side of the job producer, gas pricing, transaction publishing, deployment scripts and tests.
