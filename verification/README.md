# A verified model of the HotStuff replica and of its secp256k1 arithmetic

The project models two parts of the repository in Dafny and proves what they promise.

**The consensus core.** `HotStuffCore` and its default pace maker `PMHighTail` are modelled twice. `Core.dfy`
has the program's own form: heap-allocated blocks whose fields change in place, loops that walk `parents[0]`,
a commit queue, and handlers with `modifies` clauses. Every handler is proved to take exactly the step that
`CoreSpec.dfy` defines as a function from state to state. What each step does is stated once more in `Laws.dfy`, field
by field, with blocks, heights and ancestors only: what is committed, which proposals get a vote, what a proposer signs,
where the tail goes, what is reported. `Network.dfy` puts these steps together into runs:
any number of replicas, at most a third (rounded down from `(n - 1) / 3`) faulty, messages in any order, and a
growing set of signatures. The main results are statements about every run: agreement, the unreachable
"safety breached" exception, one certified block per height, the order of decided, locked and highest certified
blocks, and when exactly an honest proposal is deliverable everywhere. Two concrete runs show that the two
conditions these results name are needed.

**The bundled secp256k1 arithmetic.** Fast forms are proved equal to plain ones: multiplication and squaring in
five 52-bit limbs, normalization, inversion and square roots by addition chains, batch inversion, the recodings of
scalars into windowed digits, Strauss's and Pippenger's multi-scalar multiplication, the constant-time and the
blinded comb multiplication, the batching on top of them, ECDSA signing and verification, and the strict DER
encoding of signatures.

## Files

| file | what it holds |
|---|---|
| `Wrappers.dfy` | values that may be missing |
| `BlockTree.dfy` | blocks, certificates, the ancestor relation |
| `CoreSpec.dfy` | the handlers as functions of the replica's state |
| `Ballots.dfy` | the safety argument over the set of signatures that exist |
| `ReplicaInv.dfy` | what every step of an honest replica keeps |
| `HighTail.dfy` | the pace maker's choice of parents |
| `Network.dfy` | runs and the theorems about them |
| `Laws.dfy` | what every handler does in any state of a run, without the specification's own helper functions |
| `RunLaws.dfy` | the same in runs: votes cast, blocks committed, proposals made, tails, decisions |
| `Certificates.dfy`, `Proposals.dfy` | vote collection, and which proposals verify |
| `Scenarios.dfy` | reachable states, built step by step |
| `RepeatedProposal.dfy`, `OffBranch.dfy` | two runs: a certificate that loses a signature, and what breaks without the branch premise |
| `Core.dfy` | the handlers over heap objects, proved to take the steps of `CoreSpec.dfy` |
| `Words.dfy` | 64- and 128-bit words and the bitwise operators |
| `Field5x52.dfy`, `FieldOps52.dfy` | the 5x52 field: multiplication, squaring, normalization, comparison |
| `Residues.dfy`, `FieldInverse.dfy` | residues and Fermat's theorem, addition chains, batch inversion |
| `Group.dfy` | abelian groups, multiples, linear combinations |
| `WnafFixed.dfy`, `Pippenger.dfy` | fixed windows and the bucket method |
| `WnafVar.dfy`, `Strauss.dfy` | sparse windows and the interleaved method |
| `EcmultConst.dfy`, `EcmultGen.dfy`, `MultiVar.dfy` | constant-time, generator and batched multiplication |
| `Ecdsa.dfy`, `Der.dfy` | signatures and their encoding |

## Hypotheses

- Hashes are injective: a block is its content (`BlockTree.Blk` is an inductive datatype). A certificate is part of
  that content; one that was decoded from bytes holds signatures for exactly the replicas in its bitmap, which is
  `CoreSpec.CertShape`.
- Signatures of honest replicas are not forged: a signature is a term naming its signer and block, and a certificate
  can only hold signatures that were cast (`Network.SignaturesExist`).
- At most `(n - 1) / 3` replicas are faulty; they may sign anything (`Network.Event.Forge`).
- `on_deliver_blk` does not check that the block a certificate names lies on the carrying block's own branch
  (`Network.OnOwnBranch`), and reads `parents[0]` unchecked. Both are premises for blocks from others
  (`Network.Deliverable`). For the blocks of honest proposers they are proved (`Network.HonestBlocksOnOwnBranch`,
  `Proposals.ProposalDeliverableExactly`). The branch premise is needed: see the second finding.
- A handler runs to its end before the next one starts, and a registered callback runs inside the handler that
  resolves its promise.
- Points of the curve are elements of an arbitrary abelian group in which the group order times any point is zero.
  The theorems on inverses, square roots and signatures take the primality of the field modulus or of the group order
  as a premise (`Residues.Prime`); Fermat's theorem is proved from it.
- `ecmult_const` multiplies a point of full order, which in a group of prime order is any point but infinity.

## Findings

- `on_propose` replaces the running certificate of the block it stores but keeps the set of voters. They stay in step
  exactly if the block had no counted votes (`Certificates.ReproposalLosesParts`), and the certificate that a later
  vote completes verifies exactly if they are in step, while `hqc` is raised with it all the same
  (`Certificates.CompleteVerifies`). In any run the next proposal of an honest replica is deliverable exactly if `hqc`
  is genesis or its certificate has a quorum of signatures; nothing else can be wrong with it
  (`Proposals.ProposalDeliverableExactly`). In runs in which no proposed block has counted votes it always is
  (`Proposals.ProposalsAreDeliverable`). `RepeatedProposal.RepeatedProposalRun` is a run of four replicas in which it is
  not: a faulty replica signs the very block that an honest replica proposes next.
- Delivery does not check that a block's certificate is for a block on its own branch, and the voting rule accepts such
  a block by the height of its certificate alone. `OffBranch.AgreementNeedsPremise` is a run with one faulty replica out
  of four in which, with only the checks the program makes, two honest replicas commit different blocks at height 1.
  With the premise `Network.Agreement` holds in every run; step by step, a vote the rule accepts is one the safety
  argument allows exactly if the block's certificate lies on its own branch (`Network.VoteSafeOnBranch`).
- `fe_verify` admits elements of magnitude 2048. There folding the top limb back can overflow the first word, and only
  that word. Normalization is right exactly if `n[0] + (n[4] >> 48) * 0x1000003D1` is below `2^64`
  (`FieldOps52.FirstWordFits`), and always for magnitudes up to 2047 (`FieldOps52.SmallMagnitudeFits`); otherwise the
  result differs by `2^64`, which is never a multiple of the prime (`FieldOps52.FeNormalize`, `FieldOps52.LostShows`).
  `FieldOps52.Magnitude2048Overflows` gives an element with a wrong result. The zero tests are wrong exactly for the
  elements with `n[0] + (n[4] >> 48) * 0x1000003D1 == 2^64` and nothing in the other limbs below bit 256
  (`FieldOps52.LooksZero`, `FieldOps52.ZeroTestRight`), which they take for zero; `FieldOps52.ZeroTestFails` gives one.
  `fe_equal` never meets such an element and is right for every magnitude it admits (`FieldOps52.FeEqual`).
- `ecmult_multi_var` rounds the number of points up to batches in a `size_t`. It divides by zero exactly if one of the
  sums for the number of batches wraps (`MultiVar.DivisibleExactly`). Otherwise all points are taken exactly if the
  counts of points and of batches add up without wrapping, as they do for up to `2^63` points
  (`MultiVar.TakenExactly`); if they wrap, the batches are empty, and it reports success with the generator's term
  alone. Such counts exist exactly if the scratch space has room for a point but for fewer than `2^32`
  (`MultiVar.HugeCountsSkipped`).
- `der_read_len` returns a `size_t` as an `int`. `ecdsa_sig_parse` accepts a sequence of two integers exactly if its
  contents have fewer than `2^31` octets (`Der.Readable`, `Der.SigParse`); a longer one is refused in whatever way it
  is read (`Der.LongIsRefused`), and `Der.LongSignature` gives such sequences.
- `ecmult_wnaf` gives digits for the scalar modulo the order exactly if the length is enough, which only a debugging
  build checks: no bit of the magnitude lies above the length, and its topmost bit is clear or the last window is cut
  short (`WnafVar.LongEnough`, `WnafVar.EcmultWnaf`). One spare bit is enough (`WnafVar.SpareIsEnough`).
  `WnafVar.TooShort` gives a scalar and a length that is not: thirteen in four bits comes out as minus three.

## Model

| member | source | states |
|---|---|---|
| BlockTree.WalkDecidesAncestor | hotstuff/include/hotstuff/liveness.h:66-72 | The walk by height ends at `a` exactly when `a` is an ancestor of `b`. |
| BlockTree.AncestorsComparable | hotstuff/src/consensus.cpp:133-136 | Two ancestors of one block lie on one branch. |
| CoreSpec.ProposeGrows | hotstuff/src/consensus.cpp:154-185 | Proposing forgets nothing, whatever it ends with. |
| Ballots.QuorumsMeet | hotstuff/src/hotstuff.cpp:574-578 | Any two sets of `n - (n - 1) / 3` replicas share an honest one. |
| Ballots.OneCertifiedPerHeight | hotstuff/src/consensus.cpp:174-212 | Strictly rising votes allow one certified block per height. |
| Ballots.CertifiedExtendsCommitted | hotstuff/src/consensus.cpp:94-151 | A certified block at or above a block committed by three consecutive certificates extends it. |
| Ballots.CastKeepsBallotInv | hotstuff/src/consensus.cpp:174-212 | A signature allowed by the voting rule keeps the safety invariant over all signatures; a faulty one does too. |
| ReplicaInv.InitInv | hotstuff/src/consensus.cpp:33-45 | The initial state satisfies the invariant. |
| ReplicaInv.CommitReachesExec | hotstuff/src/consensus.cpp:133-140 | The commit walk always ends at the executed block. |
| ReplicaInv.CommitInv | hotstuff/src/consensus.cpp:131-151 | After a commit the decided blocks are again exactly the ancestors of the executed block. |
| ReplicaInv.UpdateInv | hotstuff/src/consensus.cpp:94-152 | The three-step rule never throws and keeps the invariant. |
| ReplicaInv.DecidedBelowLock | hotstuff/src/consensus.cpp:100-111 | Decided blocks lie strictly below the lock, and the lock strictly below `hqc`. |
| ReplicaInv.DeliverInv | hotstuff/src/consensus.cpp:59-84 | Delivering a justified block keeps the invariant. |
| ReplicaInv.ReceiveVoteInv | hotstuff/src/consensus.cpp:223-248 | Counting an existing vote keeps the invariant. |
| ReplicaInv.VotingRuleIsSafe | hotstuff/src/consensus.cpp:192-212 | What the voting rule accepts meets what the safety argument asks of an honest signature. |
| ReplicaInv.ReceiveProposalInv | hotstuff/src/consensus.cpp:187-221 | Handling a proposal keeps the invariants and fails only for an undelivered block. |
| ReplicaInv.SelfVoteFollowsRule | hotstuff/src/consensus.cpp:174-180 | The proposer's vote for its own block, not checked against the lock, always satisfies the rule others vote by. |
| ReplicaInv.ProposeInv | hotstuff/src/consensus.cpp:154-185 | Proposing on a branch through `hqc` keeps the invariants and never breaches safety. |
| HighTail.UpdateKeepsTail | hotstuff/include/hotstuff/liveness.h:74-82 | After an update of `hqc` the chosen tail is again delivered and equal to or a descendant of `hqc`. |
| HighTail.ReceiveKeepsTail | hotstuff/include/hotstuff/liveness.h:91-99 | So it is after a received proposal. |
| Network.StepKeepsInv | hotstuff/src/consensus.cpp:59-248 | Every step of a run keeps the global invariant, and no replica forgets anything. |
| Network.ReplicaStep | hotstuff/include/hotstuff/liveness.h:62-108 | One replica's step, pace maker included: own proposals too leave the tail on a branch through `hqc`. |
| Network.NoSafetyBreach | hotstuff/src/consensus.cpp:137-140 | In no run does an honest replica raise "safety breached". |
| Network.Agreement | hotstuff/src/consensus.cpp:94-221 | At any two moments of any run the committed blocks, and the decisions, of any two honest replicas are prefixes of one another. |
| Network.CommitsOncePerHeight | hotstuff/src/consensus.cpp:141-150 | Every replica commits one block per height, in order, and has committed exactly the decided blocks. |
| Network.CommitsOnlyGrow | hotstuff/src/consensus.cpp:141-150 | What a replica committed stays committed, in place. |
| Network.VoteSafeOnBranch | hotstuff/src/consensus.cpp:192-212 | A vote the rule accepts meets what the safety argument asks exactly if the block's certificate lies on its own branch. |
| Network.HonestBlocksOnOwnBranch | hotstuff/src/consensus.cpp:154-171 | Whatever an honest replica signs carries a certificate for a certified block on its own branch. |
| Network.OneCertificatePerHeight | hotstuff/src/consensus.cpp:174-212 | At any moment of any run two certified blocks of one height are the same. |
| Network.DecidedLockHqcOrdered | hotstuff/src/consensus.cpp:86-111 | In every reachable state the early returns on decided blocks skip no raise, and the next proposal extends `hqc`. |
| Laws.MajorityExactly | hotstuff/src/hotstuff.cpp:574-578 | The quorum is the number of replicas less the largest `f` with `3 f < n`. |
| Laws.HonestQuorum | hotstuff/src/hotstuff.cpp:574-578 | The honest replicas alone make a quorum, in every valid configuration. |
| Laws.InitExactly | hotstuff/src/consensus.cpp:33-45 | Every field of a new replica; genesis is delivered and decided, and everyone has voted for it. |
| Laws.DecidedSkipsNothing | hotstuff/src/consensus.cpp:94-111 | Whatever the early returns on decided blocks skip is decided, or no higher than the lock. |
| Laws.UpdateExactly | hotstuff/src/consensus.cpp:94-152 | For every delivered block: when `hqc`, its certificate, the lock and the executed block change and to what; after three certificates for consecutive blocks the last block and all its ancestors are decided, and nothing else is newly decided. |
| Laws.ProposalExactly | hotstuff/src/consensus.cpp:187-221 | A delivered block is accepted exactly if it is above the last vote and is certified above the updated lock or extends it; then `vheight` rises, and unless voting is disabled the vote is sent. |
| Laws.FetchExactly | hotstuff/include/hotstuff/entity.h:246-248 | Fetching stores a new block undelivered and leaves everything else alone. |
| Laws.DeliverExactly | hotstuff/src/consensus.cpp:59-84 | Delivery succeeds exactly if all parents are delivered and the certified block is stored; the block takes its parents' place among the tails, and nothing else changes. |
| Laws.VoteExactly | hotstuff/src/consensus.cpp:223-248 | A new vote short of the quorum is counted and joins the running certificate if it is for the same block; the vote that fills the quorum raises `hqc` to the block if that is higher. |
| Laws.OtherVotes | hotstuff/src/consensus.cpp:223-232 | Any other vote changes nothing, and throws exactly for an undelivered block. |
| Laws.ProposedBlock | hotstuff/src/consensus.cpp:154-172 | Whatever block a proposer signs has the given parents, commands and extra and the certificate of `hqc`, in every state. |
| Laws.SignExactly | hotstuff/src/consensus.cpp:174-180 | The own vote throws exactly if the block is not above `vheight`; otherwise it raises `vheight` and counts once. |
| Laws.ProposeExactly | hotstuff/src/consensus.cpp:154-185 | Proposing on a branch through `hqc`: when it throws and what, the signed block field by field, and the new `vheight`, lock, decisions, tails, voters and `hqc`. |
| Laws.TailAfterUpdateExactly | hotstuff/include/hotstuff/liveness.h:74-82 | When `hqc` moves, the tail moves to a highest block among it and the tails that extend it; otherwise it stays. |
| Laws.ReceiveTailExactly | hotstuff/include/hotstuff/liveness.h:91-99 | A received proposal that extends `hqc` and is higher than the tail becomes the tail; any other leaves it; the tail ends at least as high as a proposal that extends `hqc`. |
| Laws.DecisionsExactly | hotstuff/src/consensus.cpp:141-150 | One decision for each command of each block, in order: its index, height, command and block. |
| RunLaws.HandlerOfEvent | hotstuff/src/consensus.cpp:59-248 | Which handler each event of a run applies to the replica's state; its exception is recorded, and the other replicas do not notice. |
| RunLaws.ProposalHandled | hotstuff/src/consensus.cpp:187-221 | In every run: when an honest replica handles a delivered proposal it votes exactly by the rule, and the committed blocks grow by exactly the ancestors of a block three consecutive certificates deep. |
| RunLaws.ProposalMade | hotstuff/src/consensus.cpp:154-185 | In every run: a proposal carries the given commands and extra on the replica's tail; it is signed and becomes the tail exactly if its height is above `vheight`. |
| RunLaws.TailKeepsUp | hotstuff/include/hotstuff/liveness.h:91-99 | In every run the tail is at least as high as every proposal handled since `hqc` last rose that extends `hqc`. |
| RunLaws.DecisionsOfRun | hotstuff/src/consensus.cpp:141-150 | In every reachable state the decisions reported are one for each command of each committed block: the entry at the block's offset plus `i` has index `i`, the block's height and its `i`-th command. |
| Certificates.VerifyCert | hotstuff/src/crypto.cpp:31-44 | The loop accepts exactly the certificates with enough signatures, all of those in the bitmap valid, and throws exactly when it reaches a replica it does not know. |
| Certificates.CollectVote | hotstuff/src/consensus.cpp:223-248 | A valid vote keeps the running certificate sound, and in step with the voters counted exactly if it was. |
| Certificates.CompleteVerifies | hotstuff/src/consensus.cpp:242-247 | The certificate that a vote completes passes verification exactly if it was in step with the voters; `hqc` rises with it either way. |
| Certificates.VoteCollection | hotstuff/src/consensus.cpp:223-248 | Over any sequence of valid votes, duplicates and late ones included, the certificate completes exactly once, when the quorum is first reached. |
| Certificates.SelfVoteAfterReset | hotstuff/src/consensus.cpp:169-180 | After a reset the certificate is in step with the counted voters exactly if there were none. |
| Certificates.ReproposalLosesParts | hotstuff/src/consensus.cpp:161-180 | Proposing keeps certificate and voters in step exactly if the block had no counted votes. |
| RepeatedProposal.RepeatedProposalRun | hotstuff/src/consensus.cpp:154-248 | A run after which the next proposal of an honest replica, whatever its content, fails the checks made before delivery. |
| Proposals.StepKeepsCerts | hotstuff/src/consensus.cpp:59-248 | Every step keeps all certificates sound, and, without a proposal of a block with counted votes, full as well. |
| Proposals.ProposalDeliverableExactly | hotstuff/src/hotstuff.cpp:248-262 | In every run an honest replica's next proposal passes every check made before delivery exactly if its certificate is genesis's or has a quorum of signatures, and always lies above its certificate on its branch. |
| Proposals.ProposalsAreDeliverable | hotstuff/src/hotstuff.cpp:248-262 | In runs in which no proposed block has counted votes it always passes. |
| OffBranch.AgreementNeedsPremise | hotstuff/src/consensus.cpp:59-84 | With only the checks the program makes before delivery, two honest replicas out of four can commit different blocks. |
| Scenarios.TailExists | hotstuff/include/hotstuff/liveness.h:74-82 | The callback on `hqc` always finds a tail. |
| ReplicaCode.PMHighTail.CheckAncestry | hotstuff/include/hotstuff/liveness.h:66-72 | Decides whether one delivered block is an ancestor of another. |
| ReplicaCode.PMHighTail.OnHqcUpdate | hotstuff/include/hotstuff/liveness.h:74-82 | Ends at a highest block among `hqc` and the tails that extend it. |
| ReplicaCode.PMHighTail.OnReceiveProposal | hotstuff/include/hotstuff/liveness.h:91-99 | The tail becomes the received block if it extends `hqc` and is higher. |
| ReplicaCode.HotStuffCore.UpdateHqc | hotstuff/src/consensus.cpp:86-92 | Takes the specified step and tells the pace maker exactly when `hqc` rises. |
| ReplicaCode.HotStuffCore.CommitQueue | hotstuff/src/consensus.cpp:131-136 | The loop collects the branch above the executed block and returns where it ends. |
| ReplicaCode.HotStuffCore.Commit | hotstuff/src/consensus.cpp:131-151 | Takes the specified step, or throws with nothing changed; what is decided afterwards, and what is reported for each command, are `Laws.UpdateExactly` and `Laws.DecisionsExactly`. |
| ReplicaCode.HotStuffCore.Update | hotstuff/src/consensus.cpp:94-152 | Takes the specified step, which `Laws.UpdateExactly` gives field by field. |
| ReplicaCode.HotStuffCore.AddBlk | hotstuff/include/hotstuff/entity.h:246-248 | Stores a block, or finds the one already stored. |
| ReplicaCode.HotStuffCore.OnDeliverBlk | hotstuff/src/consensus.cpp:59-84 | Takes the specified step and fills in parents, height and certified block. |
| ReplicaCode.HotStuffCore.OnReceiveVote | hotstuff/src/consensus.cpp:223-248 | Takes the specified step, which `Laws.VoteExactly` and `Laws.OtherVotes` give field by field. |
| ReplicaCode.HotStuffCore.Opinion | hotstuff/src/consensus.cpp:192-212 | The branches and the walk decide exactly the voting rule: above the last vote, and certified above the lock or extending it. |
| ReplicaCode.HotStuffCore.OnReceiveProposal | hotstuff/src/consensus.cpp:187-221 | Takes the specified step, vote included, which `Laws.ProposalExactly` gives field by field, and moves the tail as the callbacks do. |
| ReplicaCode.HotStuffCore.OnPropose | hotstuff/src/consensus.cpp:154-185 | Takes the specified step, which `Laws.ProposeExactly` gives field by field; the block signed has these parents and commands, the certificate of `hqc` and this extra, and becomes the tail. |
| ReplicaCode.HotStuffCore.ProposeNext | hotstuff/src/hotstuff.cpp:119-122 | Proposing on the pace maker's parents takes the step a run takes; the block signed carries the commands on the former tail and becomes the tail. |
| Words.AndAllOnes | hotstuff/secp256k1/src/field_5x52_impl.h:64-73 | A conjunction of words is all ones exactly if each is. |
| Words.XorComplement | hotstuff/secp256k1/src/field_5x52_impl.h:176-180 | An exclusive or is all ones exactly for the complement. |
| FieldMul52.ProductOfValues | hotstuff/secp256k1/src/field_5x52_int128_impl.h:36-39 | The product of two elements is the weighted sum of the nine columns. |
| FieldMul52.CarryChain | hotstuff/secp256k1/src/field_5x52_int128_impl.h:41-152 | The carry chain of the source changes the value by a multiple of the prime. |
| FieldMul52.FeMulInner | hotstuff/secp256k1/src/field_5x52_int128_impl.h:18-153 | No word or double word overflows, the result is the product modulo the prime, and its magnitude is 1; the result may overwrite the first operand. |
| FieldMul52.FeSqrInner | hotstuff/secp256k1/src/field_5x52_int128_impl.h:155-275 | The same for squaring with doubled operands. |
| FieldMul52.SquareColumns | hotstuff/secp256k1/src/field_5x52_int128_impl.h:172-251 | Each column of a square from half the products. |
| FieldMul52.FeMul | hotstuff/secp256k1/src/field_5x52_impl.h:418-432 | Operands of magnitude up to 8 meet the bounds of the multiplication. |
| FieldMul52.FeSqr | hotstuff/secp256k1/src/field_5x52_impl.h:434-445 | The same for squaring. |
| FieldOps52.AtLeastPrime | hotstuff/secp256k1/src/field_5x52_impl.h:71-73 | The test on limbs holds exactly for values at or above the prime. |
| FieldOps52.CanonicalUnique | hotstuff/secp256k1/src/field_5x52_impl.h:54-163 | Canonical limbs are determined by the value, so both forms of normalization agree limb by limb. |
| FieldOps52.Pass | hotstuff/secp256k1/src/field_5x52_impl.h:57-69 | One pass leaves reduced limbs, at most a few bits above bit 256, and subtracts a multiple of the prime, besides the carry the first word may lose. |
| FieldOps52.LostShows | hotstuff/secp256k1/src/field_5x52_impl.h:61-62 | A lost carry always changes the residue. |
| FieldOps52.SmallMagnitudeFits | hotstuff/secp256k1/src/field_5x52_impl.h:61-62 | Up to magnitude 2047 no carry is lost. |
| FieldOps52.FinalPass | hotstuff/secp256k1/src/field_5x52_impl.h:75-86 | A single final reduction suffices. |
| FieldOps52.FeNormalize | hotstuff/secp256k1/src/field_5x52_impl.h:54-95 | For every element `fe_verify` admits: canonical, and the value modulo the prime exactly if the first word does not overflow. |
| FieldOps52.FeNormalizeWeak | hotstuff/secp256k1/src/field_5x52_impl.h:97-119 | Magnitude 1, and the same value modulo the prime under the same condition. |
| FieldOps52.FeNormalizeVar | hotstuff/secp256k1/src/field_5x52_impl.h:121-163 | The same as the unconditional form, with a branch. |
| FieldOps52.ZeroMasks | hotstuff/secp256k1/src/field_5x52_impl.h:168-185 | The two masks detect exactly the raw values zero and the prime. |
| FieldOps52.OverflowResidues | hotstuff/secp256k1/src/field_5x52_impl.h:57-69 | Of the elements that overflow, exactly those that look zero have the lost carry for their residue, and none is zero modulo the prime. |
| FieldOps52.ZeroTestRight | hotstuff/secp256k1/src/field_5x52_impl.h:165-186 | A zero test is right exactly if the limbs do not look zero after the overflow; it then takes `2^64` for zero. |
| FieldOps52.ZeroTestFails | hotstuff/secp256k1/src/field_5x52_impl.h:165-186 | An element on which the zero tests are wrong. |
| FieldOps52.FeNormalizesToZero | hotstuff/secp256k1/src/field_5x52_impl.h:165-186 | For every element `fe_verify` admits: true exactly for zero modulo the prime and for the elements that look zero. |
| FieldOps52.FeNormalizesToZeroVar | hotstuff/secp256k1/src/field_5x52_impl.h:188-227 | The same, with the early exit on the low limb. |
| FieldOps52.FeCmpVar | hotstuff/secp256k1/src/field_5x52_impl.h:267-284 | Compares canonical elements as numbers. |
| FieldOps52.FeNegate | hotstuff/secp256k1/src/field_5x52_impl.h:372-387 | The negative, without underflow, one magnitude up. |
| FieldOps52.FeAdd | hotstuff/secp256k1/src/field_5x52_impl.h:402-416 | The sum; magnitudes add. |
| FieldOps52.FeEqual | hotstuff/secp256k1/src/field_impl.h:24-29 | Equality modulo the prime, whatever the representations, for every magnitude admitted. |
| FieldOps52.Magnitude2048Overflows | hotstuff/secp256k1/src/field_5x52_impl.h:54-62 | An element of the largest magnitude `fe_verify` admits whose residue the first pass changes. |
| Residues.Fermat | hotstuff/secp256k1/src/field_impl.h:136-143 | Fermat's little theorem, for any prime modulus. |
| Residues.InverseIsPower | hotstuff/secp256k1/src/field_impl.h:136-143 | The power `p - 2` is the inverse. |
| FieldInverse.ProductResidue | hotstuff/secp256k1/src/field_5x52_impl.h:418-432 | What the limb routines compute is the product of residues. |
| FieldInverse.ChainEnds | hotstuff/secp256k1/src/field_impl.h:205-223 | The exponents assembled at the end are `p - 2` and `(p + 1) / 4`. |
| FieldInverse.ChainBlocks | hotstuff/secp256k1/src/field_impl.h:145-203 | The blocks of ones of the addition chain. |
| FieldInverse.FeInv | hotstuff/secp256k1/src/field_impl.h:136-224 | Raises to exactly `p - 2`, which inverts every nonzero element. |
| FieldInverse.RootOfSquare | hotstuff/secp256k1/src/field_impl.h:39-47 | A square has the root the chain computes. |
| FieldInverse.PrefixProducts | hotstuff/secp256k1/src/field_impl.h:272-277 | The first pass leaves the running products. |
| FieldInverse.Unwind | hotstuff/secp256k1/src/field_impl.h:279-287 | The second pass turns each running product into the inverse of its last factor. |
| FieldInverse.FeSqrt | hotstuff/secp256k1/src/field_impl.h:38-134 | Succeeds on exactly the squares; the root is itself a square. |
| FieldInverse.FeInvAllVar | hotstuff/secp256k1/src/field_impl.h:263-288 | Every result is the inverse of its input if no input is zero; otherwise every result is zero. |
| Group.CombinePlus | hotstuff/secp256k1/src/ecmult_impl.h:644-650 | Linear combinations of points add coefficient by coefficient. |
| WnafFixed.WeightedCarry | hotstuff/secp256k1/src/ecmult_impl.h:609-627 | Borrowing between neighbouring windows keeps the sum. |
| WnafFixed.LastWindow | hotstuff/secp256k1/src/ecmult_impl.h:591-598 | The shorter last window loses nothing. |
| WnafFixed.NextDigit | hotstuff/secp256k1/src/ecmult_impl.h:607-614 | One more window keeps the encoding, odd or even. |
| WnafFixed.ClearDigit | hotstuff/secp256k1/src/ecmult_impl.h:615-627 | Clearing a digit of one into the digit below keeps the encoding. |
| WnafFixed.RecodeFixed | hotstuff/secp256k1/src/ecmult_impl.h:572-632 | The weighted digits less the skew are the scalar; every digit is zero or odd and below `2^w` in size. |
| Pippenger.FillBuckets | hotstuff/secp256k1/src/ecmult_impl.h:675-701 | Each bucket holds the signed sum of the points whose digit belongs to it, less the skews in the first. |
| Pippenger.LastStep | hotstuff/secp256k1/src/ecmult_impl.h:708-723 | Running sums and one doubling give the odd-weighted sum of the buckets. |
| Pippenger.AddWindow | hotstuff/secp256k1/src/ecmult_impl.h:703-723 | A window shifts the coefficients up and adds the digits, less the skew. |
| Pippenger.UpperWeighted | hotstuff/secp256k1/src/ecmult_impl.h:672-724 | Windows taken from the top down build the weighted sum. |
| Pippenger.PippengerWnaf | hotstuff/secp256k1/src/ecmult_impl.h:651-726 | The plain sum of scalar multiples, for any number of points and any window, zero scalars and points at infinity included. |
| WnafVar.DigitOfChunk | hotstuff/secp256k1/src/ecmult_impl.h:295-300 | The carry out of a chunk and the odd digit it leaves. |
| WnafVar.FullLength | hotstuff/secp256k1/src/ecmult_impl.h:277-280 | With length 256 every scalar fits after the sign is taken off. |
| WnafVar.TopBitRead | hotstuff/secp256k1/src/ecmult_impl.h:295-300 | The carry out of a full window is the topmost bit read. |
| WnafVar.SumIsScalar | hotstuff/secp256k1/src/ecmult_impl.h:263-312 | The digit sum is the scalar modulo the order exactly if the length is enough, and then it is the scalar or the scalar less the order. |
| WnafVar.SpareIsEnough | hotstuff/secp256k1/src/ecmult_impl.h:258-259 | One bit more than the magnitude has is enough. |
| WnafVar.TooShort | hotstuff/secp256k1/src/ecmult_impl.h:263-312 | A scalar and a length for which the digits sum to another residue. |
| WnafVar.EcmultWnaf | hotstuff/secp256k1/src/ecmult_impl.h:263-312 | For every length up to 256 and every scalar: digits are zero or odd and small and lie at least `w` apart; they sum to the scalar modulo the order exactly if the length is enough, which scalar, length and window decide. |
| Strauss.OddMultiplesTable | hotstuff/secp256k1/src/ecmult_impl.h:75-113 | The table of odd multiples. |
| Strauss.TableGetIsMultiple | hotstuff/secp256k1/src/ecmult_impl.h:162-183 | A table look-up by a digit gives that multiple. |
| Strauss.DoubleAndAdd | hotstuff/secp256k1/src/ecmult_impl.h:445-481 | The doubling loop builds the combination of all points and the generator. |
| Strauss.StraussWnaf | hotstuff/secp256k1/src/ecmult_impl.h:338-486 | The plain sum of scalar multiples plus the generator's, for any number of points. |
| Strauss.Ecmult | hotstuff/secp256k1/src/ecmult_impl.h:488-506 | `na * A + ng * G`. |
| EcmultConst.SkewedIsOdd | hotstuff/secp256k1/src/ecmult_const_impl.h:64-92 | The number encoded is odd and short, and carries the scalar modulo the order. |
| EcmultConst.MakeOdd | hotstuff/secp256k1/src/ecmult_const_impl.h:78-92 | The scalar operations produce that number without overflow, minus one included. |
| EcmultConst.EncodeStep | hotstuff/secp256k1/src/ecmult_const_impl.h:96-112 | An even window borrows from the digit below. |
| EcmultConst.FinishEncoding | hotstuff/secp256k1/src/ecmult_const_impl.h:113-116 | When the words run out nothing is left but a top digit of one. |
| EcmultConst.WnafConst | hotstuff/secp256k1/src/ecmult_const_impl.h:51-118 | All digits odd and below `2^w` in size; their weighted sum less the skew is the scalar modulo the order. |
| EcmultConst.DoubleNonzero | hotstuff/secp256k1/src/ecmult_const_impl.h:193-195 | The doubling formula is never given the point at infinity. |
| EcmultConst.PartialMultiple | hotstuff/secp256k1/src/ecmult_const_impl.h:189-200 | Partial results are nonzero multiples too small to wrap around the order. |
| EcmultConst.EcmultConst | hotstuff/secp256k1/src/ecmult_const_impl.h:120-255 | `q * A` for every scalar `q` below `2^size`. |
| EcmultGen.OffsetsAdd | hotstuff/secp256k1/src/ecmult_gen_impl.h:72-78 | The offsets of the rows telescope, and all 64 cancel. |
| EcmultGen.BuildTable | hotstuff/secp256k1/src/ecmult_gen_impl.h:55-86 | Entry `i` of row `j` is `i * 16^j * G` plus the row's offset. |
| EcmultGen.GenFrom | hotstuff/secp256k1/src/ecmult_gen_impl.h:124-156 | Scanning the rows gives `a * G` whatever blinding value is in force. |
| EcmultGen.Context.Gen | hotstuff/secp256k1/src/ecmult_gen_impl.h:124-156 | `a * G` in every valid context. |
| EcmultGen.Context.Blind | hotstuff/secp256k1/src/ecmult_gen_impl.h:159-208 | Blinding again, any number of times, keeps the initial point the negative of the blinding value. |
| EcmultGen.Context.Build | hotstuff/secp256k1/src/ecmult_gen_impl.h:21-92 | Builds once; a context already built is left alone. |
| MultiVar.WindowsInverse | hotstuff/secp256k1/src/ecmult_impl.h:732-820 | The two window tables are inverse to each other. |
| MultiVar.RoomAtWindow | hotstuff/secp256k1/src/ecmult_impl.h:844-852 | Which counts fit the scratch space at their own window. |
| MultiVar.PippengerMaxPoints | hotstuff/secp256k1/src/ecmult_impl.h:939-973 | The largest count such that it and every smaller one fit the scratch space at their own windows. |
| MultiVar.StraussMaxPoints | hotstuff/secp256k1/src/ecmult_impl.h:561-563 | Exactly the counts that fit. |
| MultiVar.PippengerArraysFill | hotstuff/secp256k1/src/ecmult_impl.h:844-887 | The six arrays of a batch add up to the scratch size less one `int` for each entry. |
| MultiVar.StraussArraysFill | hotstuff/secp256k1/src/ecmult_impl.h:508-543 | The six arrays of a batch add up to the scratch size. |
| MultiVar.AllocationsFit | hotstuff/secp256k1/src/scratch_impl.h:47-86 | In a frame of that size, with the room added for alignment, no allocation fails. |
| MultiVar.BatchCounts | hotstuff/secp256k1/src/ecmult_impl.h:1000-1011 | The batches cover all points, and none exceeds the maximum. |
| MultiVar.RunBatches | hotstuff/secp256k1/src/ecmult_impl.h:1014-1024 | The batches together give the plain sum, with the generator in the first only; they fail exactly if the callback refuses an index. Batches of size zero take nothing. |
| MultiVar.PippengerBatch | hotstuff/secp256k1/src/ecmult_impl.h:854-927 | Asks for its indices in order, and gives their sum plus the generator's term; fails exactly if the scratch or the callback refuses; runs past its frame exactly if the size wraps to one that fits. |
| MultiVar.StraussBatch | hotstuff/secp256k1/src/ecmult_impl.h:517-554 | The same by interleaving. |
| MultiVar.LargestIs | hotstuff/secp256k1/src/ecmult_impl.h:939-973 | The count the search ends with is the largest below which all fit. |
| MultiVar.RoundUpWraps | hotstuff/secp256k1/src/ecmult_impl.h:1000-1011 | The rounded quotient is zero exactly if the sum wraps. |
| MultiVar.EcmultMultiVar | hotstuff/secp256k1/src/ecmult_impl.h:976-1025 | Divides by zero exactly where the rounding wraps; otherwise succeeds exactly if the scratch space has room for a batch of the kind chosen and the callback answers; every index taken is asked for exactly once, in order, the generator is added once, and the result is the plain sum. |
| MultiVar.TakenExactly | hotstuff/secp256k1/src/ecmult_impl.h:1000-1011 | All points are taken exactly if the counts of points and batches add up without wrapping, and always up to `2^63` points. |
| MultiVar.HugeCountsSkipped | hotstuff/secp256k1/src/ecmult_impl.h:1000-1024 | Counts of which nothing is taken exist exactly if the scratch space has room for a point but for fewer than `2^32`. |
| MultiVar.DivisibleExactly | hotstuff/secp256k1/src/ecmult_impl.h:1000-1011 | Nothing is divided by zero exactly if the rounded sums fit a `size_t`. |
| Ecdsa.TwoCases | hotstuff/secp256k1/src/ecdsa_impl.h:238-267 | The two-case test holds exactly if the coordinate modulo the order is `r`. |
| Ecdsa.OrderAndField | hotstuff/secp256k1/src/ecdsa_impl.h:31-47 | The constants of the source: the difference of field and order, and that two orders exceed the field. |
| Ecdsa.SigVerify | hotstuff/secp256k1/src/ecdsa_impl.h:201-269 | Accepts exactly what SEC 1, section 4.1.4 accepts. |
| Ecdsa.SigSign | hotstuff/secp256k1/src/ecdsa_impl.h:271-311 | A low signature that verifies with the matching key and message, and a recovery id that gives the parity of the recomputed point. |
| Ecdsa.SigningEquation | hotstuff/secp256k1/src/ecdsa_impl.h:294-297 | Modulo the order, `s k = m + r d`. |
| Ecdsa.RecomputedMultiple | hotstuff/secp256k1/src/ecdsa_impl.h:214-218 | With the matching public key the recomputed point is `((m + r d) / s) G`. |
| Ecdsa.UndoS | hotstuff/secp256k1/src/ecdsa_impl.h:296-305 | Dividing by `s` gives the nonce back, and its negative for the negated `s`. |
| Ecdsa.SignedAccepted | hotstuff/secp256k1/src/ecdsa_impl.h:201-311 | Every signature verifies, high or low. |
| Der.UnsignedUnique | hotstuff/secp256k1/src/ecdsa_impl.h:114-125 | An accepted nonnegative integer is the shortest encoding of its value. |
| Der.ReadLen | hotstuff/secp256k1/src/ecdsa_impl.h:49-97 | For inputs of any size: the shortest definite length that stands there, truncated to an `int`, or -1 when there is none. |
| Der.ReadScalar | hotstuff/secp256k1/src/ecdsa_impl.h:122-142 | The value of the integer, or zero if it is negative or not below the order. |
| Der.ParseInteger | hotstuff/secp256k1/src/ecdsa_impl.h:99-143 | Accepts exactly the integers without redundant octets, as long as the `int` read for their length. |
| Der.TakenWhole | hotstuff/secp256k1/src/ecdsa_impl.h:99-143 | With fewer than `2^31` octets left, what is accepted is the whole integer that stands there and nothing else. |
| Der.LongIsRefused | hotstuff/secp256k1/src/ecdsa_impl.h:145-175 | A sequence is refused, in whatever way it is read, exactly if its contents have `2^31` octets or more. |
| Der.LongSignature | hotstuff/secp256k1/src/ecdsa_impl.h:145-175 | Sequences of two integers that are refused. |
| Der.SigParse | hotstuff/secp256k1/src/ecdsa_impl.h:145-175 | For inputs of any size: accepts exactly the sequences of two integers whose contents have fewer than `2^31` octets. |
| Der.Strip | hotstuff/secp256k1/src/ecdsa_impl.h:178-184 | Stripping leading zeros leaves the shortest encoding. |
| Der.EncodeOctets | hotstuff/secp256k1/src/ecdsa_impl.h:190-197 | The octets written are the encoding of the two scalars. |
| Der.SigSerialize | hotstuff/secp256k1/src/ecdsa_impl.h:177-199 | Writes the encoding if it fits and reports its size either way; nothing else changes. |
| Der.RoundTrip | hotstuff/secp256k1/src/ecdsa_impl.h:145-199 | Every pair of scalars has an encoding of at most 72 octets that stands for that pair. |
| Der.EncodingIsUnique | hotstuff/secp256k1/src/ecdsa_impl.h:99-199 | Accepted input without an overflow is octet for octet what the serializer writes. |
| Der.SerializeThenParse | hotstuff/secp256k1/src/ecdsa_impl.h:145-199 | Parsing what was serialized gives the scalars back, for all scalars. |

## Left out

- Networking, event loops, timers, worker threads and configuration: input and output.
- Promises: registered callbacks run when the promise resolves; `qc_waiting` and `on_qc_finish` only release waiting parties and are not modelled.
- Round-robin rotation, impeachment and time-outs: liveness, which safety does not use.
- `prune`, which nothing calls, and the two-step and endomorphism builds.
- The ordering handlers, clients and scripts around the replica.
- Block heights are unbounded; the program keeps them in 32 bits.
- Network.StepKeepsInv: a block whose certificate names an unknown replica is never delivered; the exception of `get_pubkey` on the way (`Certificates.VerifyCert`) is not an event of a run.
- ReplicaCode.HotStuffCore.OnDeliverBlk: a delivery that throws leaves the parents found so far, and the height, in the undelivered block; the model writes them only on success, and nothing reads them before.
- ReplicaCode.HotStuffCore.OnDeliverBlk: requires a parent, because `parents[0]` is read unchecked, and that the certified block, if it is stored, is delivered; the program takes any fetched block.
- The byte encodings of blocks, votes and certificates.
- Scalars, points, Jacobian coordinates and the scratch allocator are given by what they compute; `scalar_inverse` is the power `n - 2`. Their implementations are not part of this model.
- The 10x26 field, the assembly field code, the conversions to and from bytes and storage, and conditional moves.
- FieldMul52.FeMulInner: the sums of products are 128-bit values as a whole; that each single addition inside a sum fits follows because all terms are nonnegative.
- MultiVar.PippengerBatch: what happens once the arrays run past a frame granted for a wrapped size is not modelled; no batch of `ecmult_multi_var` gets there (`MultiVar.FittingNeverOverruns`).
- EcmultGen.Context.Blind: the hash that draws the blinding value is a parameter, and rescaling the initial point does not change it as a group element.
