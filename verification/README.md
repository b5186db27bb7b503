# A verified model of the Handshake light client core

The repository is a light client for the Handshake name system. Its Rust core
decides four things on its own, without trusting whoever it talks to: which
header chain is the best one, whether a proof from the name tree is true,
whether a DNSSEC answer or denial is authentic, and where one message on a
stream ends and the next begins. This project models that logic in Dafny and
proves what the decisions mean.

Code that works step by step is modelled by classes and methods with loops
(`Cursor`, `Reader`, `FrameDecoder`, `MemoryHeaderStore`, `HeaderChain`,
`TtlCache`, the verifier folds, the codecs, the answer loop). Each such method
is proved equal to a specification function, or to a property stated outright;
the theorems are lemmas about those functions, and so hold of the methods. What
a specification function computes is in turn pinned without naming it: formats
by the octets at each place, numbers by inequalities, orders by the first
difference, verdicts by all that it takes to reach them, and errors by the first
thing that is wrong.
What the client cannot see into is a function parameter: hash functions,
signature checks, the network, the clock. A theorem that needs a hash to be
collision-free asks for it only on the octet strings that are actually hashed.

| file | what is in it |
|---|---|
| `Bytes.dfy` | octets, hashes, `Option` and `Result` |
| `Urkel.dfy`, `UrkelWire.dfy`, `ProofLayout.dfy` | proofs of the name tree: verifier, tree semantics, wire format, and the octets of both |
| `Pow.dfy` | compact targets, proof of work, work and target |
| `BlockHeaders.dfy`, `HeaderRules.dfy` | block headers, their validation and the difficulty retarget |
| `ChainSpec.dfy`, `ChainExamples.dfy`, `Chain.dfy` | the header chain as transitions, inputs on which it surprises, and the store and chain that carry the transitions out |
| `Cache.dfy`, `CacheRecency.dfy` | the bounded cache with expiry, and which entries it gives up |
| `Order.dfy` | orders on octet strings and names, and rings over them |
| `DnsName.dfy`, `DnsWire.dfy`, `DnsMessages.dfy`, `NameLayout.dfy`, `MessageLayout.dfy`, `MessageFaults.dfy` | names as text and on the wire, whole messages, the octets of both, and why they are refused |
| `Base32.dfy`, `Base32Forms.dfy` | unpadded base32hex, both ways, and which texts decode to one hash |
| `Denial.dfy`, `Zones.dfy`, `DenialProofs.dfy`, `DenialComplete.dfy` | NSEC and NSEC3: bitmaps, coverage, a zone with its cuts, name errors |
| `SignedData.dfy`, `ChainOfTrust.dfy`, `TrustVerdicts.dfy` | canonical signed octets, the chain of trust, and its verdicts and errors pair by pair |
| `Packets.dfy`, `PacketCodec.dfy`, `Frames.dfy`, `FrameStream.dfy`, `FrameFaults.dfy`, `PacketLayout.dfy`, `PacketFaults.dfy` | peer packets, frames, the stream decoder on honest and on arbitrary octets, the octets of packets and frames, and why they are refused |
| `DnsQueries.dfy`, `SecureAnswers.dfy`, `AnswerPaths.dfy` | one query with its checks, the CNAME-following answer loop, and every way to an answer or a failure |

## What the proofs found

* The frame decoder's cap refuses some honest streams: a frame of the largest
  size, all but its last octet, followed by a piece that holds that octet and
  more. `FrameStream.StreamIsDelivered` gives the exact condition,
  `FrameStream.HonestStreamRefused` an instance.
* A batch of headers and the same headers one by one leave the same chain
  exactly when the greatest new work beats the old tip in at most one header;
  on a tie the batch keeps the last, single inserts the first
  (`ChainSpec.BatchEqualsSequential`; two siblings of equal work are the
  instance `ChainExamples.SiblingsInBatchDiffer`).
* A second genesis header keeps the chain's invariant exactly when it is not
  the network's, has bits without work, is known already, or has at least the
  work of the best tip (`ChainSpec.LateGenesis`); the code does not compare the
  work. `ChainExamples.LateGenesisBreaksInv` is an instance.
* The retarget always finds its window, but for a window whose scaled work
  exceeds 2^255 it gives no bits that decode to a target.
* The byte-wise target accepts compact bits whose mantissa shifts to zero,
  such as 0x01000001, which the number-wise decoder rejects
  (`Pow.MantissaCanShiftToZero`); everywhere else the two agree.
* The NSEC name error never looks at the type bitmap, so a parent zone's
  delegation record denies names of the child zone that may well exist:
  `DenialProofs.DelegationDeniesChild` is an instance, and
  `DenialProofs.NsecNameErrorExact` says that this is the only way to be wrong.
* A hash can have two base32hex texts, upper and lower case apart: its encoding
  and, when its octets are 0, 1 or 3 above a multiple of five (as the 20 octets
  of SHA-1 are), the encoding with a zero digit appended
  (`Base32Forms.DecodesIff`).
* A delegation signer of an unknown digest type that carries the tag and
  algorithm of a zone key makes the whole delegation an error if it is tried
  before the signer that names the key, and changes nothing if it is tried
  after it (`TrustVerdicts.UnknownDigestHides`; the exact condition is
  `TrustVerdicts.DelegationVerdict`).
* One bad frame ends a connection: its octets stay in the buffer, and every
  later feed fails (`FrameFaults.BadFrameSticks`).
* A decoded packet is the packet sent exactly if it has no address in the
  IPv4-mapped block and is not of an unknown type other than 30.
* In `validate_dnssec_chain` the key that a delegation signer names and the key
  that signs the key set are separate witnesses, and stay so in
  `ChainOfTrust.SecureIffConnected`.

## Model

| member | source | states |
|---|---|---|
| Urkel.Count | rust/crates/hns-urkel/src/lib.rs:318-333 | the count is the length of the longest common run of the prefix and the key from a depth on: all bits before it agree, the next one, if both have it, differs |
| Urkel.Has | rust/crates/hns-urkel/src/lib.rs:314-316 | a prefix matches exactly if all its bits lie within the key and agree with it |
| Bytes.BitsAreNumbered | rust/crates/hns-urkel/src/lib.rs:393-397 | bit i of a string is found by dividing octet i/8 by 128, 64, down to 1, and is 0 past the end |
| Urkel.InternalPreimageInjective | rust/crates/hns-urkel/src/lib.rs:399-412 | the octets hashed for an inner node determine both children and the prefix |
| Urkel.LeafPreimageInjective | rust/crates/hns-urkel/src/lib.rs:414-416 | the octets hashed for a leaf determine key and value hash |
| Urkel.TagsDiffer | rust/crates/hns-urkel/src/lib.rs:399-416 | no inner node and no leaf are hashed from the same octets |
| Urkel.InnerLayout | rust/crates/hns-urkel/src/lib.rs:399-412 | an inner node is hashed from tag 1, left hash, right hash; with a prefix from tag 2, its size in two octets, low one first, its octets, left hash, right hash |
| Urkel.LeafLayout | rust/crates/hns-urkel/src/lib.rs:414-416 | a leaf is hashed from tag 0, key, value hash |
| Urkel.Climb | rust/crates/hns-urkel/src/lib.rs:234-254 | the bottom-up fold with its falling depth succeeds exactly when the nodes form a top-down path for the key from depth 0, and then gives the hash at the top of that path |
| Urkel.Verify | rust/crates/hns-urkel/src/lib.rs:205-275 | accepts exactly the proofs that are sane and whose path leads from the root to their body; and, in octets, exactly those within bounds for which hashes of laid-out nodes lead from the root, right wherever the key has a bit set, down to the laid-out body |
| Urkel.AcceptsIff | rust/crates/hns-urkel/src/lib.rs:205-275 | the two descriptions of acceptance agree: one by the hashing functions, one by octets at their places and bits by number |
| Urkel.OneNodeProof | rust/crates/hns-urkel/src/lib.rs:205-255 | a proof of one node and a value is accepted exactly if the root is the hash of tag 1 and the two hashes, the leaf left if the key's first octet is below 128 and right otherwise |
| Urkel.MisfitBreaksPath | rust/crates/hns-urkel/src/lib.rs:236-252 | a node that underflows the depth or whose prefix does not match rules out every path through it, so the early exits of the fold are right |
| Urkel.PathsAgree | rust/crates/hns-urkel/src/lib.rs:205-255 | two ways down from one hash, for one key, end in bodies that make the same claim |
| Urkel.AcceptedProofsAgree | rust/crates/hns-urkel/src/lib.rs:205-255 | no root and key admit two accepted proofs with different claims: neither two values, nor a value and an absence |
| Urkel.HonestProofAccepted | rust/crates/hns-urkel/src/lib.rs:205-255 | completeness: for every tree that fits 256 bits and every key, the proof read off the lookup path is accepted against the tree's hash and claims what lookup finds |
| Urkel.AcceptedProofIsTrue | rust/crates/hns-urkel/src/lib.rs:205-255 | soundness: an accepted proof against a tree's hash claims exactly what lookup of the key in the tree gives |
| Urkel.LookupFindsLeaves | rust/crates/hns-urkel/src/lib.rs:205-255 | lookup in a tree with its leaves in place finds a value exactly if the tree holds that leaf |
| Urkel.AcceptedProofDecidesMembership | rust/crates/hns-urkel/src/lib.rs:205-255 | an accepted proof of a value means the tree has that leaf, an accepted proof of absence that it has none at the key |
| UrkelWire.Cursor.ReadBytes | rust/crates/hns-urkel/src/lib.rs:378-386 | takes exactly the octets asked for off the front of what is left, or fails and moves nothing |
| UrkelWire.Cursor.ReadPrefix | rust/crates/hns-urkel/src/lib.rs:356-376 | reads one or two octets of size and then the bits, as the grammar says |
| UrkelWire.DecodeNodes | rust/crates/hns-urkel/src/lib.rs:131-144 | the node loop reads what the grammar of nodes reads under the bitmap |
| UrkelWire.DecodeBody | rust/crates/hns-urkel/src/lib.rs:146-176 | the body of each proof type is read, and nothing may follow it |
| UrkelWire.Decode | rust/crates/hns-urkel/src/lib.rs:111-188 | the decoder is the parser of the wire grammar, errors included |
| UrkelWire.WrittenProofIsRead | rust/crates/hns-urkel/src/lib.rs:111-188 | every proof the format can carry, written out, is decoded unchanged |
| UrkelWire.ReadProofIsWritten | rust/crates/hns-urkel/src/lib.rs:111-188 | whatever octets decode are the decoded proof written out, with their own bitmap |
| UrkelWire.ReadIffWritten | rust/crates/hns-urkel/src/lib.rs:111-188 | octets decode to a proof exactly if they are that proof written with a bitmap that marks its prefixes |
| ProofLayout.ProofIff | rust/crates/hns-urkel/src/lib.rs:111-188 | octets decode to a proof exactly if type and depth, count, bitmap, nodes and body stand at their places, prefixes in their one- or two-octet form, and nothing is left; what fails is too large above 262 144 octets and malformed otherwise |
| UrkelWire.WrittenProofIsSmall | rust/crates/hns-urkel/src/lib.rs:111-120 | no proof of the format is over the size limit |
| UrkelWire.ParsedIsSane | rust/crates/hns-urkel/src/lib.rs:257-275 | whatever the decoder accepts passes the sanity check |
| UrkelWire.ServedProofIsAccepted | rust/crates/hns-urkel/src/lib.rs:111-255 | serve the proof for any key, send it, decode it: it verifies and claims what the tree holds |
| Pow.DecodeCompact | rust/crates/hns-core/src/pow.rs:105-132 | an error for a sign bit; else mantissa times 256 to the exponent, less three octets at the end, and an error exactly if that is zero or does not fit 256 bits |
| Pow.CompactIsScaled | rust/crates/hns-core/src/pow.rs:105-132 | in all cases of the exponent, shifting left or right, the decoded target is the mantissa scaled and cut to whole octets |
| Pow.EncodeCompact | rust/crates/hns-core/src/pow.rs:157-181 | the bits written decode to the greatest target that any bits decode to without exceeding the one given; zero gives zero |
| Pow.EncodingIsBestBelow | rust/crates/hns-core/src/pow.rs:105-181 | encoding is the best approximation from below: it decodes to at most the target, and nothing that decodes lies strictly between |
| Pow.CompactIsNormal | rust/crates/hns-core/src/pow.rs:157-181 | the exponent written is the number of octets of twice the target, and the mantissa is the target scaled down to it, rounded down |
| Pow.CompactRoundTrip | rust/crates/hns-core/src/pow.rs:105-181 | for 0 < t < 2^256 the encoding decodes to t' with t' ≤ t and 2^15 (t - t') < t', and t' has the same encoding |
| Pow.CompactMonotone | rust/crates/hns-core/src/pow.rs:157-181 | encoding is monotone as a 32-bit number |
| Pow.DecodedTargetIsExact | rust/crates/hns-core/src/pow.rs:105-181 | a target that some bits decode to is nonzero, below 2^256, and survives encoding and decoding whole |
| Pow.TargetBytesFromCompact | rust/crates/hns-core/src/pow.rs:187-216 | the octets written into the buffer are the big-endian form of the decoded target; the two decoders differ only on mantissas that shift to zero |
| Pow.MantissaCanShiftToZero | rust/crates/hns-core/src/pow.rs:187-216 | bits 0x01000001 give a zero target octet by octet, and an error as a number |
| Pow.LexLeIsNumeric | rust/crates/hns-core/src/pow.rs:183-185 | octet order on strings of one length is numeric order |
| Pow.VerifyPow | rust/crates/hns-core/src/pow.rs:183-185 | true exactly when the hash, as a 256-bit number, is at most the target of the bits |
| Pow.WorkTargetGalois | rust/crates/hns-core/src/pow.rs:134-155 | work and target are adjoint: w ≤ work(t) exactly if t ≤ target(w) |
| Pow.WorkIsFloor | rust/crates/hns-core/src/pow.rs:134-155 | work is 2^256 over the target plus one, rounded down, and the target for some work is 2^256 over the work, rounded down, minus one |
| Pow.WorkIsPositive | rust/crates/hns-core/src/pow.rs:134-141 | every nonzero target below 2^256 has work from 1 to below 2^256 |
| Pow.WorkAntitone | rust/crates/hns-core/src/pow.rs:134-141 | a larger target has no more work |
| Pow.TargetAntitone | rust/crates/hns-core/src/pow.rs:143-155 | more work has no larger target |
| Pow.WorkRoundTrip | rust/crates/hns-core/src/pow.rs:134-155 | target to work and back never shrinks, and leaves the work unchanged |
| HeaderRules.MiddleByTime | rust/crates/hns-chain/src/lib.rs:737-749 | the block chosen is the one that a stable sort by time puts second of the three |
| HeaderRules.ValidatedSitsAboveParent | rust/crates/hns-chain/src/lib.rs:488-528 | a validated header stands one above its stored parent, with more work |
| HeaderRules.AddKeepsLinked | rust/crates/hns-chain/src/lib.rs:488-528 | filing a validated header keeps every stored header linked to a stored parent one below |
| HeaderRules.AncestorFound | rust/crates/hns-chain/src/lib.rs:751-767 | walking back from a stored header meets a stored header at every lower height |
| HeaderRules.SuitableFound | rust/crates/hns-chain/src/lib.rs:737-749 | from height 2 on the suitable block exists and is an ancestor at most two below |
| HeaderRules.AcceptanceIsStable | rust/crates/hns-chain/src/lib.rs:488-528 | the verdict on a header whose parent is stored does not change when more headers are stored |
| HeaderRules.WindowFound | rust/crates/hns-chain/src/lib.rs:688-706 | from height 146 on the window search never fails, spans 142 to 146 blocks, and holds positive work |
| HeaderRules.ScaledWorkBounds | rust/crates/hns-chain/src/lib.rs:708-735 | the scaled work lies between the window's work over 576 and over 36, rounded down |
| HeaderRules.BitsForWorkDecode | rust/crates/hns-chain/src/lib.rs:708-735 | the bits for an amount of work decode to a target exactly if the work is at most 2^255, and then to one from 1 to the proof-of-work limit |
| HeaderRules.RetargetIff | rust/crates/hns-chain/src/lib.rs:708-735 | over any window in order the bits are those of the seconds clamped, the work scaled and rounded down, and the target of that work or the limit, and of nothing else |
| HeaderRules.RetargetIsWellDefined | rust/crates/hns-chain/src/lib.rs:688-735 | for every stored parent at height 146 or more: the window is found and spans 142 to 146 blocks; its work times 600 over its seconds, clamped to 21 600 and 345 600 and rounded down, lies between a 576th and a 36th of its work, and the bits are the ones that amount asks for, which exist exactly up to 2^256 and decode, to a target within the limit, exactly up to 2^255 |
| ChainSpec.Walk | rust/crates/hns-chain/src/lib.rs:782-799 | the parent walk of a stored header has one entry per height and ends in it |
| ChainSpec.RebuiltEntries | rust/crates/hns-chain/src/lib.rs:782-799 | the rebuilt index has exactly the heights 0 to that of the tip, each with the header the walk meets there |
| ChainSpec.AppendIsRebuild | rust/crates/hns-chain/src/lib.rs:519-525 | the index of a child is its parent's with one entry added |
| ChainSpec.BitsRequiredIff | rust/crates/hns-chain/src/lib.rs:679-749 | the bits expected of a child are the limit below height 146, and from there on those of the retarget between the second by time of the three walk entries ending 144 below the parent and of the three ending at it |
| ChainSpec.AcceptedIff | rust/crates/hns-chain/src/lib.rs:488-528 | a header is accepted exactly if its parent is stored, it has the bits required, and its hash as a number is at most its target, and then has the parent's height and work plus one and its own work |
| ChainSpec.RejectedIff | rust/crates/hns-chain/src/lib.rs:488-528 | exactly when a header is turned away for an unknown parent, for wrong bits, with the right ones named, for a hash above its target, and for bits without a target |
| ChainSpec.StoredHeaderInOrder | rust/crates/hns-chain/src/lib.rs:473-609 | under the invariant every stored header hashes to its key and either is the genesis or stands one above a stored parent, with the parent's work plus its own, a hash at most its target, and, on mainnet, the bits that the retarget between the middle blocks at the parent and 144 below it requires |
| ChainSpec.CanonicalInOrder | rust/crates/hns-chain/src/lib.rs:473-609 | under the invariant the tip is heaviest, and the index holds exactly the parent walk from it |
| ChainSpec.InsertIff | rust/crates/hns-chain/src/lib.rs:488-528 | an insert succeeds exactly for a new acceptable header, files just that, and makes it the tip exactly if it has more work; otherwise nothing changes |
| ChainSpec.GenesisIff | rust/crates/hns-chain/src/lib.rs:473-486 | the first genesis succeeds exactly if it is the network's, where that is demanded, and its bits have work; it is then the whole chain |
| ChainSpec.GenesisStartsInv | rust/crates/hns-chain/src/lib.rs:473-486 | the first genesis establishes the invariant, whether it is accepted or not |
| ChainSpec.LateGenesis | rust/crates/hns-chain/src/lib.rs:473-486 | a later genesis keeps the invariant exactly if it is not the one the network demands, its bits have no work, its hash is stored already, or its work is at least that of the tip |
| ChainExamples.LateGenesisBreaksInv | rust/crates/hns-chain/src/lib.rs:473-486 | under the permissive policy a second genesis of less work is accepted and breaks the invariant |
| ChainSpec.InsertKeepsInv | rust/crates/hns-chain/src/lib.rs:488-528 | a single insert keeps the invariant, forgets nothing, never lowers the best work, and changes nothing when it fails |
| ChainSpec.BatchKeepsInv | rust/crates/hns-chain/src/lib.rs:530-609 | a batch insert keeps the invariant, forgets nothing, and changes nothing when it fails |
| ChainSpec.TipsCompared | rust/crates/hns-chain/src/lib.rs:577-587 | the tip a batch picks and the tip single inserts end with have the same work, and are the same header exactly if there is no tie |
| ChainSpec.BatchEqualsSequential | rust/crates/hns-chain/src/lib.rs:488-609 | a batch and single inserts of its new headers succeed or fail alike, store the same headers and best work, and leave the same chain exactly if there is no tie |
| ChainExamples.SiblingsInBatchDiffer | rust/crates/hns-chain/src/lib.rs:577-602 | two children of the genesis with equal work: the batch is accepted and leaves another chain than single inserts |
| ChainSpec.RunsKeepInv | rust/crates/hns-chain/src/lib.rs:473-609 | every state of every run, of one genesis and any mix of good and bad inserts, keeps the invariant and all earlier headers |
| Chain.MemoryHeaderStore.PutHeader | rust/crates/hns-chain/src/lib.rs:93-100 | stores a new header, refuses a known hash and then changes nothing |
| Chain.MemoryHeaderStore.PutHeaders | rust/crates/hns-chain/src/lib.rs:26-31 | exactly the headers before the first that is known by then are stored, and it fails exactly if there is such a one; distinct new headers are all stored; nothing stored is ever changed |
| Chain.MemoryHeaderStore.PromoteCanonicalTip | rust/crates/hns-chain/src/lib.rs:110-118 | one index entry and the tip change, or nothing if the header is unknown |
| Chain.MemoryHeaderStore.PromoteCanonicalTips | rust/crates/hns-chain/src/lib.rs:35-40 | exactly the headers before the first that is not stored get their entries, the last of them is the tip, and it fails exactly if there is such a one |
| Chain.MemoryHeaderStore.ReplaceCanonicalChain | rust/crates/hns-chain/src/lib.rs:120-137 | the index becomes exactly that of the given chain, or nothing changes if it is empty or holds an unknown header |
| Chain.HeaderChain.BestHeader | rust/crates/hns-chain/src/lib.rs:611-620 | under the invariant it never fails, gives a header unless none is stored, and that header is stored and as heavy as any |
| Chain.HeaderChain.CanonicalChainTo | rust/crates/hns-chain/src/lib.rs:782-799 | the loop over parents, turned round, is the walk from genesis |
| Chain.HeaderChain.PromoteBestHash | rust/crates/hns-chain/src/lib.rs:639-642 | the index is rebuilt to the walk of the new tip |
| Chain.HeaderChain.AddGenesis | rust/crates/hns-chain/src/lib.rs:473-486 | carries out the genesis transition on the store |
| Chain.HeaderChain.FindAncestor | rust/crates/hns-chain/src/lib.rs:751-767 | the backward loop finds the ancestor at a height, with both errors |
| Chain.HeaderChain.ValidateDifficulty | rust/crates/hns-chain/src/lib.rs:654-706 | the difficulty rule over stored and pending headers alike, errors in the order of the checks |
| Chain.HeaderChain.ValidateOne | rust/crates/hns-chain/src/lib.rs:488-506 | all rules for one header, the first broken one reported |
| Chain.HeaderChain.ValidateBeside | rust/crates/hns-chain/src/lib.rs:530-571 | a header whose parent is stored or pending, with work looked up by bits, gets the verdict that plain validation gives on stored and pending headers together |
| Chain.HeaderChain.AddHeader | rust/crates/hns-chain/src/lib.rs:488-528 | the fast path, appending to the index, and the slow path, rebuilding it, both carry out the transition that always rebuilds |
| Chain.HeaderChain.ValidateBatch | rust/crates/hns-chain/src/lib.rs:530-571 | the loop with pending headers and cached work accepts what validating the headers one after the other accepts |
| Chain.HeaderChain.FindHeaviest | rust/crates/hns-chain/src/lib.rs:578-583 | the loop finds the last header of greatest work |
| Chain.HeaderChain.MoveTip | rust/crates/hns-chain/src/lib.rs:588-606 | appending the batch up to its heaviest header, when it extends the tip, and rebuilding otherwise both leave the rebuilt index of that header |
| Chain.HeaderChain.AppendedIsRebuilt | rust/crates/hns-chain/src/lib.rs:588-602 | appending a run of children to the index of its parent is a full rebuild |
| Chain.HeaderChain.AddHeaders | rust/crates/hns-chain/src/lib.rs:530-609 | the batch, with append or rebuild, carries out the batch transition on the store |
| Cache.TtlCache.PruneExpired | rust/crates/hns-cache/src/lib.rs:62-66 | a key stays exactly if its entry is still live, with its entry and in its old order |
| Cache.TtlCache.Promote | rust/crates/hns-cache/src/lib.rs:78-80 | the key leaves the list and nothing else does; the others keep their order; distinct keys stay distinct |
| Cache.TtlCache.EvictOverLimit | rust/crates/hns-cache/src/lib.rs:68-76 | the eviction loop drops oldest entries until the limit holds |
| Cache.TtlCache.Put | rust/crates/hns-cache/src/lib.rs:31-38 | insert carries out its transition and keeps the invariant: distinct keys in the list, the same keys in the map, no more than the limit |
| Cache.TtlCache.Lookup | rust/crates/hns-cache/src/lib.rs:40-46 | lookup carries out its transition, answers from it, and keeps the invariant; that the transition makes a found key the last to be given up is CacheRecency.HeldIff |
| Cache.TtlCache.Len | rust/crates/hns-cache/src/lib.rs:48-51 | the number of live entries, never over the limit |
| Cache.TtlCache.Reset | rust/crates/hns-cache/src/lib.rs:57-60 | no lookup of any key at any time finds anything afterwards, and the invariant holds whatever the state was |
| Cache.InsertKeepsInv | rust/crates/hns-cache/src/lib.rs:31-38 | inserting keeps the invariant |
| Cache.InsertWithin | rust/crates/hns-cache/src/lib.rs:31-38 | the same insert keeps a smaller cache within a larger one |
| Cache.GetWithin | rust/crates/hns-cache/src/lib.rs:40-46 | so does the same lookup, and what the smaller finds the larger finds |
| Cache.Inclusion | rust/crates/hns-cache/src/lib.rs:31-81 | on the same operations a cache of capacity m holds a subset of the entries of one of capacity n ≥ m, values and expiries included, its list a subsequence of the other's, and both keep their invariants |
| Cache.EntriesAreLatest | rust/crates/hns-cache/src/lib.rs:31-81 | after any run every entry is the one last inserted under its key |
| Cache.AnswersAreLatest | rust/crates/hns-cache/src/lib.rs:40-46 | a lookup answers only with the value last inserted under the key, and only before it expires |
| CacheRecency.HeldIff | rust/crates/hns-cache/src/lib.rs:31-81 | after any run, a key inserted or found by one operation and not used by later ones is held exactly if its time was not up at any of them, nothing cleared the cache, and at no point were as many keys held that have been used since as the cache can hold |
| CacheRecency.FoundAgain | rust/crates/hns-cache/src/lib.rs:31-81 | what a lookup has found is found again, while it lives, after any operations that name fewer other keys than the cache can hold |
| Order.BytesAreOrdered | rust/crates/hns-dnssec/src/lib.rs:1640-1653 | octet order is a strict total order |
| Order.OctetOrderIs | rust/crates/hns-dnssec/src/lib.rs:1640-1653 | one string is less than another exactly if it has the smaller octet where they first differ, or ends there |
| Order.CanonicalOrderIs | rust/crates/hns-dnssec/src/lib.rs:1823-1840 | one name is less than another exactly if, from the last label on, it has the smaller label where they first differ, or ends there (section 6.1 of RFC 4034) |
| Order.NamesAreOrdered | rust/crates/hns-dnssec/src/lib.rs:1823-1840 | canonical name order is a strict total order (section 6.1 of RFC 4034) |
| Order.RingPartition | rust/crates/hns-dnssec/src/lib.rs:1640-1653 | in a sorted list closed into a ring, an element lies on no arc, anything else on exactly one |
| Order.ArcIsEmpty | rust/crates/hns-dnssec/src/lib.rs:1640-1653 | nothing of the ring lies on the arc between an element and its successor |
| DnsName.ParseAscii | rust/crates/hns-core/src/dns.rs:167-190 | the loop over labels reads a name as the specification of the text form does, errors included |
| DnsName.FromAsciiJoined | rust/crates/hns-core/src/dns.rs:167-190 | labels joined with dots are read back, unless they are too long for a name |
| NameLayout.TextIsReadIff | rust/crates/hns-core/src/dns.rs:167-190 | a name is read from text exactly if the text is labels joined by dots, with dots behind and spaces around it, within the length limit, and capital letters are turned small |
| NameLayout.TextFailsIff | rust/crates/hns-core/src/dns.rs:167-190 | a text is refused as too long exactly if labels stand in it that take more than 253 octets, and as no name exactly if no labels stand in it |
| DnsName.SuffixIsName | rust/crates/hns-core/src/dns.rs:167-190 | every ancestor of a valid name is valid and survives its text form |
| DnsName.CanonicalCompare | rust/crates/hns-dnssec/src/lib.rs:1823-1840 | the loop from the last label compares in canonical order |
| DnsName.AncestorsFirst | rust/crates/hns-dnssec/src/lib.rs:1817-1840 | in canonical order a name comes before everything below it |
| DnsName.AncestorsNest | rust/crates/hns-dnssec/src/lib.rs:1817-1821 | of two ancestors of a name the longer is below the shorter |
| DnsWire.CodesAgree | rust/crates/hns-core/src/dns.rs:275-316 | a code survives being turned into a record type and back, and such types are canonical |
| DnsWire.ParseWire | rust/crates/hns-core/src/dns.rs:103-161 | the loop with compression pointers ends, and reads what the recursive reading of labels and pointers reads, with every error |
| DnsWire.ParsedNameIsValid | rust/crates/hns-core/src/dns.rs:103-161 | whatever is read, wherever pointers led, is a valid lower-case name, and the reader has moved on within the message |
| DnsWire.EncodeWire | rust/crates/hns-core/src/dns.rs:192-202 | a name is appended to the output label by label, or an overlong label fails it |
| DnsWire.ParseWrittenName | rust/crates/hns-core/src/dns.rs:103-202 | a valid name written anywhere in a message is read back from there |
| NameLayout.NameIsReadIff | rust/crates/hns-core/src/dns.rs:103-161 | a name is read exactly if runs of labels, each behind its length, stand at the place and at those pointed to, by at most 16 pointers of 14 bits, a zero ends the last, 253 octets are not exceeded, and capital letters are turned small; reading goes on behind the zero or the first pointer |
| MessageFaults.NameFailsIff | rust/crates/hns-core/src/dns.rs:103-161 | a name is refused, with one of four errors, exactly if labels and pointers lead to a place where reading gets stuck: the end of the message, an octet that starts neither, a label with a wrong octet or beyond 253 octets, a pointer out of the message or the seventeenth |
| NameLayout.WrittenIsLaid | rust/crates/hns-core/src/dns.rs:192-202 | a name is written as its labels, each behind its length, and a zero |
| DnsMessages.ReadQuestions | rust/crates/hns-core/src/dns.rs:447-535 | the question loop reads as many questions as the header counts, one behind the other |
| DnsMessages.ReadRecords | rust/crates/hns-core/src/dns.rs:583-596 | so does the record loop |
| DnsMessages.Parse | rust/crates/hns-core/src/dns.rs:495-535 | the parser, limits and trailing octets included |
| DnsMessages.EncodeQuestions | rust/crates/hns-core/src/dns.rs:462-467 | questions are appended in order, or the first that cannot be written fails it |
| DnsMessages.EncodeRecords | rust/crates/hns-core/src/dns.rs:354-366 | records are appended in order, or the first that cannot be written fails it |
| DnsMessages.Encode | rust/crates/hns-core/src/dns.rs:537-568 | the encoder, with limits and the length cap at the end |
| DnsMessages.ParseWrittenRecord | rust/crates/hns-core/src/dns.rs:320-366 | a canonical record written anywhere is read back from there |
| MessageLayout.RecordIff | rust/crates/hns-core/src/dns.rs:320-352 | a record is read exactly if name, type, class, lifetime, length and data stand one behind the other, numbers with the high octet first |
| MessageLayout.MessageIff | rust/crates/hns-core/src/dns.rs:495-535 | a message is parsed exactly if six header fields stand in the first twelve octets, within the limits, and questions, answers, authorities and additional records follow in that order up to the end |
| MessageFaults.MessageFailsIff | rust/crates/hns-core/src/dns.rs:495-535 | a message is refused exactly for a short header, for counts over the limits, for the first question or record that fails, or for octets behind the last one, each with its error |
| MessageLayout.AssignedCodes | rust/crates/hns-core/src/dns.rs:275-316 | which fifteen numbers stand for types with names of their own |
| DnsMessages.CanonicalRoundTrip | rust/crates/hns-core/src/dns.rs:495-568 | every canonical message encodes if it is short enough, and parses back to itself (section 4.1 of RFC 1035) |
| DnsMessages.ParsedMessageReencodes | rust/crates/hns-core/src/dns.rs:495-568 | whatever parses, compressed or not, is canonical, re-encodes exactly if its plain form fits, and that parses to the same message |
| Base32.EncodeNoPad | rust/crates/hns-core/src/resource.rs:184-203 | the encoder with its 32-bit buffer writes the digits of the input |
| Base32.DecodeNoPad | rust/crates/hns-dnssec/src/lib.rs:1718-1740 | the decoder with its 32-bit buffer reads digits, and fails on any other character |
| Base32.ShiftIn | rust/crates/hns-core/src/resource.rs:184-203 | bits lost off the top of the 32-bit buffer are never pending ones |
| Base32.TopDigit | rust/crates/hns-core/src/resource.rs:184-203 | shift and mask give the top five pending bits whatever is stale above them |
| Base32.DecodeEncoded | rust/crates/hns-dnssec/src/lib.rs:1718-1740 | decoding what was encoded gives back every octet string (section 7 of RFC 4648, no padding) |
| Base32Forms.DecodesIff | rust/crates/hns-dnssec/src/lib.rs:1718-1740 | a text decodes to given octets exactly if, in lower case, it is their encoding or, where a digit more does not make an octet more, their encoding followed by a zero digit |
| Base32Forms.DecodesAsNumber | rust/crates/hns-dnssec/src/lib.rs:1718-1740 | a text decodes exactly if it consists of the 32 digits and, read as a number of base 32, is the octets as a number of base 256 with only zero bits to spare |
| Denial.ValidateBitMaps | rust/crates/hns-dnssec/src/lib.rs:1742-1762 | accepts exactly sequences of complete windows of 1 to 32 octets with rising numbers |
| Denial.BitMapsContain | rust/crates/hns-dnssec/src/lib.rs:1764-1788 | an error exactly on malformed maps; else true exactly if some window lists the type, though the scan stops at the first window of the right number |
| Denial.NoEarlierWindow | rust/crates/hns-dnssec/src/lib.rs:1742-1788 | once a window is passed no later one can list its types |
| Denial.BitMapsAre | rust/crates/hns-dnssec/src/lib.rs:1742-1788 | bitmaps are accepted exactly if they are windows of number, length and 1 to 32 octets with rising numbers, and list the types whose bits are set, by number |
| Denial.HashName | rust/crates/hns-dnssec/src/lib.rs:1073-1107 | the loop is the salted, iterated hash of the wire form, with every error |
| Denial.Nsec3HashIff | rust/crates/hns-dnssec/src/lib.rs:1073-1107 | a name hashes to the last of a row of digests, the first of its wire form and the salt, each next of the one before and the salt; only algorithm 1, up to 2500 times, and for labels that fit |
| Denial.NsecIff | rust/crates/hns-dnssec/src/lib.rs:398-417 | NSEC data are a name and type bitmaps that are valid and not empty; one error for all else |
| Denial.Nsec3Iff | rust/crates/hns-dnssec/src/lib.rs:425-470 | NSEC3 data are algorithm, flags, iterations in two octets, salt and next hash each behind its length, and type bitmaps |
| Denial.FlagsAre | rust/crates/hns-dnssec/src/lib.rs:477-483 | opt-out is the last bit of the second octet; a record is usable exactly if its first octet is 1 and its second 0 or 1 |
| Denial.ParametersAre | rust/crates/hns-dnssec/src/lib.rs:1664-1668 | two NSEC3 records have the same parameters exactly if their data agree in the first octet and from the third to the end of the salt |
| Denial.NsecRingPartition | rust/crates/hns-dnssec/src/lib.rs:1790-1806 | over any sorted ring of names every name is an owner or covered by exactly one record, never both |
| Denial.Nsec3RingPartition | rust/crates/hns-dnssec/src/lib.rs:1640-1653 | the same for hashes of one length |
| Denial.CoveredNameIsAbsent | rust/crates/hns-dnssec/src/lib.rs:1790-1806 | a name covered by a record between neighbours is not in the zone |
| Denial.CoveredHashIsAbsent | rust/crates/hns-dnssec/src/lib.rs:1640-1653 | a hash covered by a record between neighbours is not in the ring |
| DenialProofs.NextCloserIs | rust/crates/hns-dnssec/src/lib.rs:1680-1694 | the next closer name is the ancestor one label below the encloser, despite the way through text |
| DenialProofs.WildcardChildIs | rust/crates/hns-dnssec/src/lib.rs:1808-1815 | the wildcard name is a star below the encloser, an error exactly if that is too long |
| DenialProofs.CollectProofs | rust/crates/hns-dnssec/src/lib.rs:1558-1578 | the loop keeps exactly the usable NSEC3 records with owner hashes of the right length, or the first error |
| DenialProofs.ProofsAre | rust/crates/hns-dnssec/src/lib.rs:1558-1578 | the proofs of a set are exactly its usable records named by a hash right below the zone |
| DenialProofs.AuthorityIs | rust/crates/hns-dnssec/src/lib.rs:1670-1678 | a record is authoritative exactly if its bitmap has no bit for type 39 and none for type 2 without one for type 6 |
| DenialProofs.FoundProof | rust/crates/hns-dnssec/src/lib.rs:1580-1610 | a proof that is found passes its test and has the expected parameters |
| Zones.NoCutNoHiddenChild | rust/crates/hns-dnssec/src/lib.rs:1670-1678 | a name right below a name of the zone that is no cut either belongs to the zone or does not exist at all: why an authoritative encloser is asked for |
| Zones.BelowIsContiguous | rust/crates/hns-dnssec/src/lib.rs:1817-1840 | what lies in canonical order between a name and something below it is below it too |
| DenialProofs.MatchedNameIsInside | rust/crates/hns-dnssec/src/lib.rs:1612-1678 | a name matched by an honest, authoritative record, barring a hash collision, is in the zone and no cut |
| DenialProofs.CoveredNameIsOutside | rust/crates/hns-dnssec/src/lib.rs:1624-1638 | a name covered by an honest record that is not opt-out is not in the zone |
| DenialProofs.ClosestEncloserSound | rust/crates/hns-dnssec/src/lib.rs:1506-1556 | for honest records of a zone with delegations, redirections and opt-out: an accepted proof means the encloser is in the zone and no cut, and, if the next closer record is not opt-out, no name from the query up to below the encloser exists, in this zone or another (section 8.3 of RFC 5155) |
| DenialProofs.Nsec3NameErrorSound | rust/crates/hns-dnssec/src/lib.rs:848-895 | for such records `Secure` means that the encloser is in the zone and no cut, and that neither the wildcard nor any name from the query up to below the encloser exists anywhere (section 8.4 of RFC 5155) |
| DenialProofs.Nsec3WildcardAnswerSound | rust/crates/hns-dnssec/src/lib.rs:1045-1071 | if the wildcard is in the zone, `Secure` means that neither the query nor any name between it and the encloser exists anywhere |
| DenialProofs.ValidateNsecNameRange | rust/crates/hns-dnssec/src/lib.rs:756-782 | the scan is secure exactly if a covering record comes before any malformed one |
| DenialProofs.NsecNameErrorSound | rust/crates/hns-dnssec/src/lib.rs:784-820 | for honest records `Secure` means that query and wildcard are not in the zone, and exist elsewhere only where a record that covers them belongs to a cut above them |
| DenialProofs.HiddenBelowOwner | rust/crates/hns-dnssec/src/lib.rs:756-820 | a name that exists although an honest record covers it lies below the owner of that record, and the owner is a cut |
| DenialProofs.NsecNameErrorExact | rust/crates/hns-dnssec/src/lib.rs:784-820 | `Secure` proves a name absent, from every space of names the records are honest for, exactly if no record that covers it belongs to a cut above it |
| DenialProofs.DelegationDeniesChild | rust/crates/hns-dnssec/src/lib.rs:756-820 | one delegation record, and a query below the delegation that exists: the verdict is `Secure` |
| DenialComplete.Nsec3NameErrorIs | rust/crates/hns-dnssec/src/lib.rs:848-895 | with the hash ring of a whole zone as evidence the verdict is decided by the zone's names: `Bogus` unless the encloser is in the zone, no cut, above the query, and has no next closer name; then insecure if that proof is opt-out, an error if the wildcard's name is too long, `Bogus` if the zone has the wildcard, insecure if its proof is opt-out, `Secure` in the one case left |
| DenialComplete.Nsec3NameErrorIff | rust/crates/hns-dnssec/src/lib.rs:848-895 | without opt-out `Secure` comes exactly if the encloser is above the query, in the zone and no cut, and neither the next closer name nor the wildcard exists anywhere |
| DenialComplete.Nsec3WildcardAnswerIs | rust/crates/hns-dnssec/src/lib.rs:1045-1071 | with the hash ring of a whole zone a wildcard answer is `Bogus` exactly if the query is not below the encloser or the next closer name is in the zone, else insecure or `Secure` as the ring is opt-out or not |
| DenialComplete.NsecNameErrorIs | rust/crates/hns-dnssec/src/lib.rs:784-820 | with full NSEC rings the verdict is decided by the ring's names: `Bogus` unless the query is below the encloser and missing, an error if the wildcard's name is too long, then `Bogus` or `Secure` as the wildcard is there or not |
| SignedData.SignedOctets | rust/crates/hns-dnssec/src/lib.rs:1109-1131 | sorting, the search for duplicates, and output give the canonical octets, with every error |
| SignedData.CanonicalDataIff | rust/crates/hns-dnssec/src/lib.rs:1359-1454 | names in NS, CNAME, SOA, SRV and NSEC data are written in full in small letters, everything else stays as it is, and signatures have no canonical form (section 6.2 of RFC 4034) |
| SignedData.SignedOwnerIff | rust/crates/hns-dnssec/src/lib.rs:1328-1357 | the owner signed is the name in small letters, or a star and as many of its last labels as the signature counts |
| SignedData.WiresAre | rust/crates/hns-dnssec/src/lib.rs:1285-1326 | each record signed is owner, type, class, original lifetime and length, high octets first, and data |
| SignedData.SortSorts | rust/crates/hns-dnssec/src/lib.rs:1119-1119 | sorting puts the data in order and loses, adds and repeats none |
| SignedData.RisingIffNoTwins | rust/crates/hns-dnssec/src/lib.rs:1120-1124 | comparing neighbours finds every duplicate: sorted data are strictly rising exactly if no neighbours are equal |
| SignedData.SignedDataShape | rust/crates/hns-dnssec/src/lib.rs:1109-1131 | the octets are the signature's own data, then every record exactly once, in strictly rising order of canonical data (section 6.3 of RFC 4034) |
| SignedData.AssembleIff | rust/crates/hns-dnssec/src/lib.rs:1109-1131 | octets are assembled exactly within the period of the signature, and exactly if they are its own data followed by every record of a set of one type, class and owner once, laid out octet by octet, in strictly rising order of canonical data |
| SignedData.AssembleFailsIff | rust/crates/hns-dnssec/src/lib.rs:1109-1131 | signing fails exactly outside the period, for an empty set or one of another type, for its owner, for the first record that fails, by its type, class, owner or data, or for two records with the same data, each with its error |
| SignedData.AssembleSucceeds | rust/crates/hns-dnssec/src/lib.rs:1109-1131 | exactly the sets of one type, class and owner, well-formed and without duplicates, within the validity period, can be signed |
| SignedData.OrderDoesNotMatter | rust/crates/hns-dnssec/src/lib.rs:1109-1131 | all orderings of a set succeed together and give the same octets |
| ChainOfTrust.KeyTag | rust/crates/hns-dnssec/src/lib.rs:486-497 | the octets, those at even places 256-fold, are summed to 32 bits, and the tag is the sum of the two halves, less 65536 if that is too much |
| ChainOfTrust.TagIff | rust/crates/hns-dnssec/src/lib.rs:486-497 | the tag used throughout is the one so described, for record data of any length |
| ChainOfTrust.TagOfSomeKey | rust/crates/hns-dnssec/src/lib.rs:486-497 | key data 1, 0, 3, 8, 255, 255 sum to 0x10407 and have the tag 0x0408 |
| ChainOfTrust.HasKeyIff | rust/crates/hns-dnssec/src/lib.rs:283-313 | the keys of a set are its key records read as flags, protocol 3, algorithm and key, and all of these can be read |
| ChainOfTrust.HasSignerIff | rust/crates/hns-dnssec/src/lib.rs:320-339 | the delegation signers of a set are its records read as tag, algorithm, kind of digest and a digest that is not empty |
| ChainOfTrust.HasSignatureIff | rust/crates/hns-dnssec/src/lib.rs:342-390 | the signatures beside a set are those of its owner and class, read field by field, what they sign of themselves ending with the signer written out |
| ChainOfTrust.VerifyDsIff | rust/crates/hns-dnssec/src/lib.rs:520-533 | a delegation signer names a key exactly if it is a zone key of the same algorithm and tag, and the digest, of a known type, of the owner written out and the key data is the one recorded |
| ChainOfTrust.VerifyRrsigIff | rust/crates/hns-dnssec/src/lib.rs:1133-1157 | a signature holds exactly if the key is a zone key of its algorithm and tag, the algorithm is known, the time is within its period, and the primitive accepts it over the canonical octets of the set |
| ChainOfTrust.ValidateDelegationLink | rust/crates/hns-dnssec/src/lib.rs:535-564 | the nested loops stop at the first named key or the first error |
| ChainOfTrust.DelegationHasAnchor | rust/crates/hns-dnssec/src/lib.rs:535-564 | a secure delegation has a key that a delegation signer names, by algorithm, tag and digest; with known digest types only, such a key is enough |
| TrustVerdicts.DelegationVerdict | rust/crates/hns-dnssec/src/lib.rs:535-564 | the exact condition: the first pair of key and signer, keys outermost, that names the key or belongs to it but has a digest that cannot be computed decides between `Secure` and that error; without such a pair the delegation is bogus |
| TrustVerdicts.UnknownDigestHides | rust/crates/hns-dnssec/src/lib.rs:535-564 | two delegation signers and a key: with the good signer first the verdict is `Secure`, with the one of an unknown digest type first it is an error |
| ChainOfTrust.InsecureIffNoSigner | rust/crates/hns-dnssec/src/lib.rs:535-564 | a delegation is insecure exactly if it has no signer record, and otherwise secure or bogus or an error |
| ChainOfTrust.ValidateRrsetSignature | rust/crates/hns-dnssec/src/lib.rs:677-726 | the nested loops with their deferred error: one success wins, else the first error, else bogus |
| ChainOfTrust.SecureIffSigned | rust/crates/hns-dnssec/src/lib.rs:677-726 | secure exactly if keys and signatures parse and a zone key of the set, of the algorithm and tag of a signature by the owner over that type, made it within its period over the canonical octets |
| TrustVerdicts.SignatureVerdict | rust/crates/hns-dnssec/src/lib.rs:677-726 | if no key made a signature, the first check to fail, signatures outermost, gives the error, and it fails for an unknown algorithm, a fault of key or signature, or a set that cannot be signed; if none fails the set is bogus |
| ChainOfTrust.ValidateDnssecChain | rust/crates/hns-dnssec/src/lib.rs:594-660 | the loop over links, with its current owner and keys, gives the first status that is not secure, or that of the target |
| ChainOfTrust.SecureIffConnected | rust/crates/hns-dnssec/src/lib.rs:594-660 | secure means: in every zone a zone key that a delegation signer names by algorithm, tag and digest, and a key, maybe another, that signed the keys; in every parent a key that signed the child's delegation signers; in the last zone a key that signed the target; with known digest types only, also the other way round |
| ChainOfTrust.AnchorIsGenuine | rust/crates/hns-dnssec/src/lib.rs:520-533 | a key named by the digest of a genuine key is that key, unless the digest collides on the two |
| Packets.VarintRoundTrip | rust/crates/hns-p2p/src/lib.rs:1501-1545 | a varint is read back, whatever follows it |
| Packets.CharLengthIff | rust/crates/hns-p2p/src/lib.rs:1306-1332 | a character of the agent is one to four octets that spell a code point in its shortest form, and no surrogate |
| Packets.ReadVarintIsWritten | rust/crates/hns-p2p/src/lib.rs:1501-1545 | the octets a varint is read from are the ones its value is written as: there is no second form |
| Packets.AddressRoundTrip | rust/crates/hns-p2p/src/lib.rs:1345-1395 | an address is read back, an IPv4-mapped one as IPv4 |
| Packets.VersionRoundTrip | rust/crates/hns-p2p/src/lib.rs:1288-1332 | a version packet is read back up to its remote address |
| Packets.HeaderRoundTrip | rust/crates/hns-core/src/header.rs:23-62 | a block header is read back from its 236 octets |
| Packets.PayloadRoundTrip | rust/crates/hns-p2p/src/lib.rs:1227-1284 | a payload as written is read as the packet's normal form, which is the packet itself exactly if it is canonical |
| Packets.NormalIffCanonical | rust/crates/hns-p2p/src/lib.rs:1210-1284 | exactly the packets without mapped addresses and without unknown types other than 30 are their own normal form |
| Packets.DecodedPacketReencodes | rust/crates/hns-p2p/src/lib.rs:1227-1284 | every packet read can be written again and is then read back, unless it was of an unknown type other than 30 |
| PacketLayout.PayloadIff | rust/crates/hns-p2p/src/lib.rs:1250-1284 | a payload is decoded exactly as what stands in it, by the number of its type: every field at its place, numbers with the low octet first, lists behind their counts, within their limits |
| PacketFaults.PayloadFailsIff | rust/crates/hns-p2p/src/lib.rs:1250-1284 | a payload is refused exactly for its size, short or long, a count over the limit, a number in a longer form than it needs, or a text that is none, each with its error |
| PacketLayout.HeaderAt | rust/crates/hns-core/src/header.rs:23-62 | the eleven fields of a block header stand at fixed places in 236 octets |
| PacketLayout.RoomIsZero | rust/crates/hns-p2p/src/lib.rs:1345-1361 | what is written where addresses leave room is zeros |
| PacketLayout.FrameIff | rust/crates/hns-p2p/src/lib.rs:1182-1207 | a frame is decoded exactly if magic, type and length stand in the first nine octets and the payload behind them, and waited for exactly if more is needed |
| PacketFaults.FrameFailsIff | rust/crates/hns-p2p/src/lib.rs:1182-1207 | a frame is refused exactly for its magic, its length, or a whole payload that is refused, in this order |
| PacketLayout.FeedIff | rust/crates/hns-p2p/src/lib.rs:964-986 | a feed delivers exactly the frames that stand in the buffered and new octets, and refuses exactly above 8 000 009 of them |
| PacketFaults.FeedFailsIff | rust/crates/hns-p2p/src/lib.rs:964-986 | a feed fails exactly above the cap, and then changes nothing, or if a frame that is refused follows good ones, and then keeps all octets |
| PacketCodec.Reader.ReadBytes | rust/crates/hns-core/src/bytes.rs:65-77 | takes exactly the octets asked for off the front of what is left, or fails |
| PacketCodec.Reader.ReadVarint | rust/crates/hns-p2p/src/lib.rs:1501-1527 | reads the number, and refuses a longer form than needed |
| PacketCodec.Reader.ReadAddress | rust/crates/hns-p2p/src/lib.rs:1362-1395 | reads the fixed layout and skips its padding |
| PacketCodec.Reader.ReadVersion | rust/crates/hns-p2p/src/lib.rs:1306-1332 | reads the fields in order, the agent only if it is UTF-8 |
| PacketCodec.Reader.ReadAddressList | rust/crates/hns-p2p/src/lib.rs:1411-1422 | the loop reads exactly the counted items, the count within its limit |
| PacketCodec.Reader.ReadHashList | rust/crates/hns-p2p/src/lib.rs:1457-1469 | the same for the hashes of a locator |
| PacketCodec.Reader.ReadHeaderList | rust/crates/hns-p2p/src/lib.rs:1485-1498 | the same for headers |
| PacketCodec.Reader.ReadBody | rust/crates/hns-p2p/src/lib.rs:1250-1277 | each packet type is read by its own rules |
| PacketCodec.ReadPayload | rust/crates/hns-p2p/src/lib.rs:1250-1284 | decodes a payload; only an unknown packet may leave octets unread |
| PacketCodec.WriteCounted | rust/crates/hns-p2p/src/lib.rs:1399-1483 | the loop pushes the count and every item in order, or refuses too many |
| PacketCodec.WritePayload | rust/crates/hns-p2p/src/lib.rs:1227-1248 | encodes a payload, with the limits of each packet |
| PacketFaults.WriteFailsIff | rust/crates/hns-p2p/src/lib.rs:1165-1248 | a packet is not written exactly if its agent has over 255 octets or its list over 1000 addresses, 50 000 hashes or 2000 headers, and not framed exactly for the same reasons or if its payload has over 8 000 000 octets |
| Frames.FrameDecoder.Feed | rust/crates/hns-p2p/src/lib.rs:964-986 | delivers every complete frame and keeps the rest; over the cap nothing changes; on a bad frame the octets stay |
| FrameStream.FrameIsRead | rust/crates/hns-p2p/src/lib.rs:1165-1207 | a frame is decoded whatever follows it |
| FrameStream.FrameIsAwaited | rust/crates/hns-p2p/src/lib.rs:1182-1207 | any part of a frame short of the whole is waited for |
| FrameStream.DrainBetween | rust/crates/hns-p2p/src/lib.rs:964-986 | what is buffered after m octets, extended to n, yields the frames completed in between and leaves what n octets leave |
| FrameStream.StreamIsDelivered | rust/crates/hns-p2p/src/lib.rs:964-986 | frames cut anywhere and fed piece by piece arrive in order and leave nothing behind, exactly if no feed is over the cap; they are the packets sent exactly if all are canonical |
| FrameStream.SmallPiecesFit | rust/crates/hns-p2p/src/lib.rs:964-967 | pieces that leave room for the longest frame less one octet are never refused |
| FrameStream.HonestStreamRefused | rust/crates/hns-p2p/src/lib.rs:964-967 | two frames, cut before the last octet of the first, are refused by the cap |
| FrameFaults.DecisionStands | rust/crates/hns-p2p/src/lib.rs:1182-1207 | once octets decode to a frame or to an error, more octets behind them change nothing |
| FrameFaults.DrainGoesOn | rust/crates/hns-p2p/src/lib.rs:964-986 | draining a buffer with more octets behind it is draining it and going on with what was left, for any octets |
| FrameFaults.PiecesAreAsWhole | rust/crates/hns-p2p/src/lib.rs:964-986 | whatever the octets, feeding them in pieces to a drained buffer gives what feeding them at once gives, errors included, while no feed is over the cap |
| FrameFaults.DeliveredIsGood | rust/crates/hns-p2p/src/lib.rs:964-986 | what is delivered piece by piece is always a prefix of the good frames at the front of the whole, and all of them if no feed fails |
| FrameFaults.BadFrameSticks | rust/crates/hns-p2p/src/lib.rs:964-986 | a feed that fails on a frame leaves the buffer such that every later feed fails, with the same error or over the cap |
| DnsQueries.QueryIsAnswered | rust/crates/hns-resolver/src/lib.rs:2419-2530 | whatever the transport does, a response that is used answers the question asked, is not truncated, and is canonical |
| DnsQueries.QueryOctets | rust/crates/hns-resolver/src/lib.rs:2476-2507 | the octets of a query: id, counts, the name written out, type, class 1, and an OPT record offering 1232 octets with DO set |
| DnsQueries.QueryIff | rust/crates/hns-resolver/src/lib.rs:2419-2530 | a message is the answer exactly if UDP brings it whole, with the id, flags and question asked for, or UDP fails in a way to be tried again and TCP does |
| DnsQueries.QueryFailsIff | rust/crates/hns-resolver/src/lib.rs:2419-2530 | a query fails exactly if it cannot be written, UDP fails for good, or UDP brings no answer and TCP fails or brings none, each with its error |
| DnsQueries.QueryIsUnderstood | rust/crates/hns-resolver/src/lib.rs:2476-2507 | every valid name fits a query, and parsing the query gives exactly the question asked |
| SecureAnswers.ClosestEncloserCandidates | rust/crates/hns-resolver/src/lib.rs:2400-2417 | the loop through text forms never fails on a valid name and gives the candidates |
| SecureAnswers.CandidatesAre | rust/crates/hns-resolver/src/lib.rs:2400-2417 | the candidates are exactly the proper ancestors of the name within the zone |
| SecureAnswers.ResolveNameError | rust/crates/hns-resolver/src/lib.rs:2358-2398 | the first candidate the verifier accepts settles it, an error before that is final |
| SecureAnswers.NameErrorDenies | rust/crates/hns-resolver/src/lib.rs:2358-2398 | a name error returned was accepted below some ancestor within the zone |
| SecureAnswers.ResolveSecureAnswer | rust/crates/hns-resolver/src/lib.rs:2160-2261 | the loop with its response, owner and records follows the chain as specified, errors included; when that gives an answer is AnswerPaths.SecureAnswerIff |
| SecureAnswers.SecureAnswerIsExplained | rust/crates/hns-resolver/src/lib.rs:2160-2398 | any answer returned is a chain of at most eight single CNAME records from the name asked for, each owned by the target before, accepted, and leading into the zone, ended by an accepted set of the asked type with no CNAME beside it, or by an accepted denial of the last owner |
| SecureAnswers.ChainInOneResponse | rust/crates/hns-resolver/src/lib.rs:2160-2261 | a valid chain within one response is followed to its set exactly if it has no more than eight links, and refused otherwise |
| AnswerPaths.AnswerIff | rust/crates/hns-resolver/src/lib.rs:2160-2398 | an answer is returned exactly if a path of fewer steps than rounds leads to it: through signed single CNAMEs into the zone and through questions asked where the response is not about the owner, to a signed set or to an accepted denial, each of them spelled out; a path too long fails |
| AnswerPaths.FailureIff | rust/crates/hns-resolver/src/lib.rs:2160-2398 | the loop fails exactly if a path leads to a place where the verifier or the transport fails, with that error, or to a dead end, or uses up the rounds, with the one error for both |
| AnswerPaths.SecureAnswerIff | rust/crates/hns-resolver/src/lib.rs:2160-2398 | the same from the first response on, where eight steps are allowed |
| AnswerPaths.Selections | rust/crates/hns-resolver/src/lib.rs:2320-2398 | the records shown to the verifier are selected one by one, in order, by owner and type or by type |

## Left out

- The SQLite stores, their transactions and schema: the in-memory store stands for what a store means, the SQL engine cannot be seen.
- Cryptographic primitives (BLAKE2b, SHA, RSA, ECDSA, Ed25519) and block-header hashing are arbitrary functions; the faults found in a key or signature before it is checked are one unknown function too.
- Sockets, transports, DNS seeds, peer scoring and peer sessions, the foreign-function layer, HTTP tunnelling, traces: plumbing and policy.
- The Kotlin application, the fuzz targets, `hns-gateway` and `hns-dane`: policy settled by reading a branch.
- Clocks are parameters; the cache's two readings within one insert are two parameters.
- Widths of heights and counts: heights are unbounded, and a count read as 64 bits is not cut to the width of a 32-bit machine.
- ChainSpec.RunsKeepInv: a run has one genesis, at its start; ChainSpec.LateGenesis says exactly which later one would be harmless.
- DnsName.ParseAscii: only the ASCII white space is trimmed, not the rest of Unicode's; names are octets, not characters.
- SignedData.SignedOctets: the standard library's sort is a function proved to sort; the parameters of SVCB and HTTPS data are put in canonical form by an unknown function.
- ChainOfTrust.SecureIffConnected: nothing is said about who holds the keys; the key a delegation signer names is not claimed to be the one that signed.
- DenialProofs.NsecNameErrorSound: the encloser supplied is not claimed to be the real one, as the code does not check that; where a delegation's own record covers a name of the child zone nothing is claimed, which `DenialProofs.NsecNameErrorExact` shows to be all that can be.
- DenialProofs.Nsec3NameErrorSound: the record that matches the encloser may be opt-out, only the next closer record and the wildcard's are tested for it; the other verdicts are settled for whole rings only, by DenialComplete.Nsec3NameErrorIs.
- The NSEC and NSEC3 validators for missing types, missing DS records, wildcards without data and unsigned referrals: they use the same proofs with other case splits.
- SecureAnswers.SecureAnswerIsExplained: transport and verifier are functions of the exchange and of what is shown to them; the loop for child zones, which differs in the verifier's inputs alone, and the choice of servers are not repeated.
- The validation of SVCB parameters, resource decoding beyond base32hex, and the resolver's cache keys.
