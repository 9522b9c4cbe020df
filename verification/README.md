# Verified model of the signing agent

A Dafny 4.11 model of the parts of the signing agent where index arithmetic, concurrency or rounding make the code hard
to get right, with proofs of what those parts promise. `dafny verify dfyconfig.toml` checks everything.

## What is modelled

- **Merkle trees** (`Bits`, `MerkleSpec`, `MerkleTree`, `MerkleProofs`, `MerkleBinding`). `MerkleSpec` defines the root top down, split at
  half the width, without mentioning an array. `MerkleTree` has the code: the bottom-up build in one flat array, proof
  extraction by index arithmetic, copying, and verification by folding over (flag, sibling) pairs. `MerkleProofs`
  connects them: every honest proof is accepted, and an accepted proof names a leaf or exposes a double-hash collision.
  `MerkleBinding` says what a root fixes.
- **Multiply-add** (`LimbArithmetic`). Both variants of `muladd` from both BIG headers, with every intermediate a signed
  64-bit word. The headers differ only in the number of bits in a limb, which is a parameter.
- **Hex codec and key encoding** (`HashCodec`, `BlsScalar`), related through the numbers that byte strings and numerals
  denote.
- **Message caches** (`MessageCache`, `CacheAgreement`). The lazily pruned local map and the key-value store with
  expiry, both checked against one definition of the current message of an ID over a history of operations.
- **Feed pipeline** (`FeedSource`, `FeedHub`, `FeedHubService`, `FeedDelivery`, `FeedAgent`, `ClientFeed`). Step machines whose atomic
  steps are the critical sections and the channel operations; a run is a list of events with the states between them,
  and the theorems hold for every run. `FeedHubService` is the hub object; its methods are proved to be the machine's
  steps. `FeedAgent` is source and hub in one machine.
- **Action handling** (`ActionSync`, `ActionHandling`). The check-lock-sign-unlock-mark protocol among any number of
  sessions, and the code of one session: the synchronizer, the service's `act`, the auto-approver and its retry loop.
  `HandlingIsSession` connects the two: what the code does for one action is one whole session of the protocol.

### What is taken as given

- SHA-256, HKDF and JSON parsing are arbitrary functions. A parsed message is malformed, a cache entry only (an ID and an
  expiry, but not a whole action), or an action. HTTP and signing calls are requests that succeed or fail and take time
  as arbitrary functions of their number say.
- `math.Log2` in floating point is the exact floor logarithm. It is for any tree that fits in memory.
- Time is counted in whole seconds. A scan of the key-value store returns every key that is alive once.
- A hub runs at most once, and a client is registered at most once with a fresh channel.
- A key written to the store with a time to live that is not positive never expires, as with the store's client.
- One action is in flight per synchronizer, whose `mutex` field is shared, and a lock does not lapse while its session
  signs.
- A cell is what a Go pointer to a byte slice refers to. Two cells are the same only if they are the same pointer, as in
  the check that the asset is the tree's own element.

### What turned out not to hold, and when it does

- The caches do not agree for every message: the time left, in nanoseconds, wraps in 64 bits, and the local cache drops
  what decodes as a cache entry but not as an action, which the store shows. `AgreementExactly` says when they agree;
  `OverflowBreaksAgreement` and `EntryOnlyBreaksAgreement` show one message of either kind for which they do not. The
  comment that the distributed `GetMessages` clears out invalid messages does not match its code, which leaves them.
- For the same reason an unexpired broadcast may never be replayed: `FarExpiryNotReplayed`. `ReplayedExactly` says when
  it is.
- Shutting down a feed client can leave `Listen` waiting for ever. `StuckExactly` says in which interleavings,
  `LatePingHangs` shows one, `ShutsDownCleanly` gives conditions on pings and the hub under which it does not happen.
- A client whose ping fails before it was registered is registered all the same and stays, although nothing of it is left
  to unregister: `LateRegistrationStays`. `AfterUnregistering` says exactly which clients leave the hub.
- An action may be signed twice, because the marker is not checked again under the lock: `SigningTwiceHappens`. Which
  check lets a session come to sign is `MaySignExactly`; a second signer must have checked early, or without an answer,
  or late: `SecondSignerCheckedEarly`.
- A Merkle root determines neither how many leaves there are nor the height of the tree: `RepeatedLastLeafKeepsRoot`,
  `ParentsAsLeavesKeepRoot`. `RootBinding` says exactly which lists share a root, collisions aside; lists of one length
  do only if they are equal (`FindCollision`). In the same way a proof may
  start above or below the leaves: `SoundnessAbove`, `SoundnessBelow`.
- The builder's error message asks for non-empty leaves; the code rejects nil ones only, and not even those when there is
  a single leaf. The model does the same. Likewise the seed length error names an upper bound that the code does not
  check.
- The derived scalar may be zero, which EIP-2333 excludes: `ZeroScalarHappens`. `ZeroScalars` says for which key
  material, and how much of it, and `SecretKeyBytes` what is passed on then.
- An action without signing messages makes the auto-approver panic: `HandleAction` says when, and that the lock is
  released and the marker written before.

## Model

| member | source | states |
|---|---|---|
| `Bits.PowerOfTwoTest` | crypto/merkle.go:68-70 | `n & (n-1)` is zero exactly for powers of two, `&` being defined bit by bit |
| `MerkleTree.NextPowerOfTwo` | crypto/merkle.go:66-75 | the result is a power of two in [n, 2n), or zero for zero |
| `MerkleTree.NextPowerIs` | crypto/merkle.go:66-75 | it is the only power of two in that range |
| `MerkleTree.Fit` | crypto/merkle.go:82-84 | copying into a half of the zeroed block truncates or pads with zeros, and keeps 32-byte strings as they are |
| `MerkleTree.HashMerkleBranches` | crypto/merkle.go:80-88 | the parent is the double hash of left then right, each copied into 32 bytes |
| `MerkleTree.ParentCell` | crypto/merkle.go:125-141 | nil above a missing left child, the left child paired with itself when the right is missing, else both |
| `MerkleTree.FillParents` | crypto/merkle.go:121-143 | the in-place pass leaves in every slot the value the tree has there; each slot is written before it is read |
| `MerkleTree.BuildMerkleTreeStore` | crypto/merkle.go:92-148 | which inputs fail and how; one leaf gives the leaf and its hash; otherwise the array stores the whole tree over the leaf hashes |
| `MerkleSpec.Height` | crypto/merkle.go:104-108 | the tree has the least height whose width holds the leaves |
| `MerkleSpec.LevelLayout` | crypto/merkle.go:121-142 | levels follow each other directly; the parent of slot i is in slot P + i/2 |
| `MerkleSpec.NodeIsSubRoot` | crypto/merkle.go:124-142 | a node built bottom up is the top-down root over the leaves below it, and is nil when there are none |
| `MerkleSpec.LevelPrefix` | crypto/merkle.go:124-142 | level k has exactly ceil(n / 2^k) nodes and they form a prefix of the level |
| `MerkleSpec.ArrayHoldsNodes` | crypto/merkle.go:121-144 | slot LevelStart(k) + j of the flat array is node j of level k |
| `MerkleSpec.LastSlotIsRoot` | crypto/merkle.go:90-92 | the last slot is the top-down Merkle root of all leaves, for any number of leaves |
| `MerkleTree.NextLevel` | crypto/merkle.go:200-202 | `c`, `pos` and `leafLength` stay the level's start, the path node's index in it and the level's width |
| `MerkleTree.TreeHeight` | crypto/merkle.go:171-176 | the array's length determines the height |
| `MerkleTree.ProofStep` | crypto/merkle.go:184-199 | the flag says on which side the sibling is; a missing right sibling is replaced by the path node; no step exactly when the index is out of range |
| `MerkleTree.WalkEnds` | crypto/merkle.go:183-205 | after the loop the index is in range exactly if the position is a leaf slot, and then the proof is complete |
| `MerkleTree.PathTo` | crypto/merkle.go:168-205 | from a leaf slot of a tree: the leaf, one (flag, sibling) pair for every level, then the last array element; from any other slot an index leaves its range |
| `MerkleTree.AncestorValue` | crypto/merkle.go:201-201 | halving the position k times gives the position divided by 2^k |
| `MerkleTree.FlagsOf` | crypto/merkle.go:168-196 | the flag for level k is the byte 1 if the k-th bit of the position is 0, else the byte 0 |
| `MerkleTree.GenerateProofFromTree` | crypto/merkle.go:154-208 | which inputs fail and how, for any position and array; in a tree the proof is the path of that leaf with the flag bytes its position spells, and an index is out of range exactly for positions that are not leaf slots |
| `MerkleTree.CopyProof` | crypto/merkle.go:211-220 | succeeds exactly when no item is nil and copies item by item; else reports the first nil item |
| `MerkleTree.Fold` | crypto/merkle.go:243-252 | the loop computes the climb along the recognised steps; pairs with another flag are skipped |
| `MerkleTree.Verify` | crypto/merkle.go:224-260 | for any argument list: accepts exactly when the last element is the root and the climb (or, for two elements, the single hash) reaches it; which error it is otherwise |
| `MerkleTree.OneStep` | crypto/merkle.go:240-257 | with one pair, byte by byte: flag 0 hashes the sibling first, flag 1 second, twice each; any other flag is skipped |
| `MerkleProofs.PathNodeExists` | crypto/merkle.go:124-142 | every node above an existing leaf is there |
| `MerkleProofs.StepIsHonest` | crypto/merkle.go:184-199 | what the generator reads off the array is the sibling in the top-down tree, and is never nil |
| `MerkleProofs.HonestClimb` | crypto/merkle.go:243-252 | climbing along honest steps visits the nodes above the leaf |
| `MerkleProofs.HonestPosition` | crypto/merkle.go:184-201 | the flags of an honest proof spell out the leaf's position |
| `MerkleProofs.Completeness` | crypto/merkle.go:150-260 | a proof for any leaf of a built tree has no nil item, its copy is accepted for the last array element, and its flags name the leaf |
| `MerkleProofs.ProveAndVerify` | crypto/merkle_test.go:82-127 | build, generate, copy, verify always succeeds for every position of every non-empty list of non-nil leaves |
| `MerkleProofs.SmallRoots` | crypto/merkle.go:80-144 | the roots of two and of three leaves, written out as hashes |
| `MerkleProofs.Extract` | crypto/merkle.go:80-88 | from a climb that ends in a node of the tree: the leaf it started at, or two different 64-byte inputs with equal double hash |
| `MerkleProofs.Soundness` | crypto/merkle.go:224-260 | an accepted proof with one recognised flag per level proves the leaf at the position its flags name, or yields a collision |
| `MerkleProofs.RootBlock` | crypto/merkle.go:80-88 | a root above the leaves is the double hash of its two halves' roots |
| `MerkleBinding.ExpandStarts` | crypto/merkle.go:130-134 | the leaf slots with duplicates filled in begin with the leaves |
| `MerkleBinding.ExpandKeepsRoot` | crypto/merkle.go:130-134 | filling in the duplicates keeps the root, so lists that fill the slots alike share it |
| `MerkleBinding.FindDifference` | crypto/merkle.go:92-144 | lists of any two lengths with the same root at one height fill the slots alike, or a collision is returned |
| `MerkleBinding.FindCollision` | crypto/merkle.go:92-144 | two leaf lists of one length with the same root are equal, or a collision is returned |
| `MerkleBinding.ParentsKeepRoot` | crypto/merkle.go:124-142 | the nodes one level up, taken as leaves, have the same root one level lower |
| `MerkleBinding.LiftKeepsRoot` | crypto/merkle.go:124-142 | so have the nodes any number of levels up |
| `MerkleBinding.RootBinding` | crypto/merkle.go:92-144 | for lists of any two lengths and heights: the roots are equal if the slots of the lower tree are filled as the higher tree's nodes at that height fill them, and only if, or here is a collision |
| `MerkleBinding.SoundnessAbove` | crypto/merkle.go:224-260 | an accepted proof with fewer flags than levels proves the inner node its flags name, or yields a collision |
| `MerkleBinding.SoundnessBelow` | crypto/merkle.go:224-260 | an accepted proof with more flags than levels proves that what the extra steps climb to is the leaf the others name, or yields a collision |
| `MerkleBinding.RepeatedLastLeafKeepsRoot` | crypto/merkle.go:130-134 | repeating the last leaf of an odd list leaves the root as it was |
| `MerkleBinding.ParentsAsLeavesKeepRoot` | crypto/merkle.go:80-88 | the assets whose hashes are the parents of the leaves, half as many, have the same root |
| `LimbArithmetic.Mask` | crypto/include/big_384_58.h:593-608 | `&` with a mask of ones is the residue modulo a power of two, for negative words too |
| `LimbArithmetic.Truncate` | crypto/include/big_384_58.h:580-581 | a cast to a word keeps the value modulo 2^64, and exactly if it fits |
| `LimbArithmetic.HalvesOf` | crypto/include/big_384_58.h:593-596 | mask and shift split a limb into two half limbs that recompose it |
| `LimbArithmetic.ProductsFit` | crypto/include/big_384_58.h:597-599 | partial products and the sum of the cross products leave room in a word |
| `LimbArithmetic.MulAddHalf` | crypto/include/big_384_58.h:589-613 | no word overflows, and top * 2^B + r' == x*y + c + r with 0 <= r' < 2^B |
| `LimbArithmetic.Recompose` | crypto/include/big_256_56.h:589-613 | the four partial products, regrouped by weight, are the whole product |
| `LimbArithmetic.MulAddWide` | crypto/include/big_256_56.h:577-582 | the double-width variant gives the same equation for any non-negative carry and accumulator |
| `LimbArithmetic.ExactUnique` | crypto/include/big_384_58.h:576-613 | the equation has one solution |
| `LimbArithmetic.MulAddVariantsAgree` | crypto/include/big_384_58.h:574-613 | the two variants, given the same words, return and store the same words |
| `HashCodec.String` | crypto/hash.go:26-31 | swapping in place and encoding prints the digits of the bytes in reverse |
| `HashCodec.DigitsAre` | crypto/hash.go:30-30 | the digit of value k is the k-th of either alphabet, lower case when printed |
| `HashCodec.PrintedAt` | crypto/hash.go:24-31 | each of the 64 digits of the printed form, from the byte it shows; the last byte comes first |
| `HashCodec.PrintedValue` | crypto/hash.go:24-31 | the printed form is the 64-digit lower-case numeral of the hash read little-endian |
| `HashCodec.HexDecodeInto` | crypto/hash.go:99-104 | decoding succeeds exactly on digits, and then writes their bytes at the right end |
| `HashCodec.Decode` | crypto/hash.go:82-113 | over-long and non-hex input is rejected, exactly, and leaves the destination untouched |
| `HashCodec.DecodedValue` | crypto/hash.go:80-113 | the little-endian value of the result is the hex numeral's value |
| `HashCodec.DecodeAfterPrint` | crypto/hash.go:24-113 | decoding the printed form of any hash returns it |
| `HashCodec.PrintAfterDecode` | crypto/hash.go:68-113 | printing a decoded string gives it in lower case, left-padded with zeros to 64 |
| `HashCodec.NewHashFromStr` | crypto/hash.go:71-78 | succeeds exactly on decodable strings, with the decoded hash |
| `HashCodec.SetBytes` | crypto/hash.go:35-44 | sets exactly 32 bytes, or fails and changes nothing |
| `ByteStrings.EndiannessOfTwo` | crypto/blsv2.go:69-86 | which of two bytes counts for more in either reading |
| `BlsScalar.CurveOrderIs` | crypto/blsv2.go:46-46 | the curve order is x^4 - x^2 + 1 for the curve's parameter x |
| `BlsScalar.MinimalBytes` | crypto/blsv2.go:75-75 | the shortest big-endian form of a number |
| `BlsScalar.ToBytes` | crypto/blsv2.go:73-78 | a number that fits, in big-endian form of the given length |
| `BlsScalar.ReverseBytes` | crypto/blsv2.go:80-87 | reverses strings of even length; in odd ones the middle byte stays zero |
| `BlsScalar.DeriveMasterSK` | crypto/blsv2.go:51-71 | fails exactly on short seeds and when the key material is not complete, else is the key material modulo the curve order |
| `BlsScalar.ScalarFits` | crypto/blsv2.go:73-78 | a scalar below the curve order fits 32 bytes, so the copy is in range |
| `BlsScalar.SecretKeyBytes` | crypto/blswrapper.go:38-47 | the bytes passed to key generation are 32, decode little-endian to the scalar, and are all zero exactly if the key material denotes a multiple of the curve order |
| `BlsScalar.BigEndianBound` | crypto/blsv2.go:69-69 | key material of k bytes denotes a number below 256^k |
| `BlsScalar.FixedBytes` | crypto/blsv2.go:69-69 | every number below 256^k is denoted by a key material of k bytes |
| `BlsScalar.BigEndianInjective` | crypto/blsv2.go:69-69 | and by one only |
| `BlsScalar.KeyMaterials` | crypto/blsv2.go:60-70 | the key materials of one scalar are as many as the numbers that leave it as their residue |
| `BlsScalar.ResidueCount` | crypto/blsv2.go:70-70 | exactly how many numbers below a bound leave a given residue |
| `BlsScalar.ScalarDistribution` | crypto/blsv2.go:60-70 | of all 48-byte key materials, each scalar comes from floor(2^384 / r) or, for the residues of the last round, one more |
| `BlsScalar.ZeroScalarHappens` | crypto/blsv2.go:69-70 | all-zero key material gives the zero scalar |
| `BlsScalar.ZeroScalars` | crypto/blsv2.go:60-70 | which key materials give it, exactly, and how many |
| `MessageCache.ExpirationExact` | internal/hub/message/cache.go:16-18 | the 64-bit arithmetic gives the true time left exactly when that fits the nanosecond range |
| `MessageCache.LocalCache.AddMessage` | internal/hub/message/local_cache.go:19-32 | stores a message that parses and is unexpired under its ID, else nothing |
| `MessageCache.LocalCache.GetMessages` | internal/hub/message/local_cache.go:35-52 | lists every unexpired action once and clears out exactly the rest |
| `MessageCache.LocalCache.RemoveMessage` | internal/hub/message/local_cache.go:55-61 | removes that ID and no other |
| `MessageCache.KVStore.Scan` | internal/hub/message/distributed_cache.go:41-43 | the keys alive under a prefix, each once |
| `MessageCache.DistributedCache.AddMessage` | internal/hub/message/distributed_cache.go:24-35 | sets the ID's key with the time left, if positive |
| `MessageCache.DistributedCache.GetMessages` | internal/hub/message/distributed_cache.go:38-58 | lists every message alive under the cache's prefix once |
| `MessageCache.DistributedCache.RemoveMessage` | internal/hub/message/distributed_cache.go:61-64 | deletes that ID's key and no other |
| `MessageCache.KeyInjective` | internal/hub/message/distributed_cache.go:66-68 | the key is the prefix `transaction:` and the ID, so different IDs have different keys |
| `CacheAgreement.StoreShowsCurrent` | internal/hub/message/distributed_cache.go:24-64 | after any history the store shows exactly the latest unexpired unremoved message of each ID whose own expiries fit |
| `CacheAgreement.LocalShowsCurrent` | internal/hub/message/local_cache.go:19-61 | after any history the local map shows that message if it decodes as an action, for each ID whose own expiries are judged right |
| `CacheAgreement.CachesAgree` | internal/hub/message/cache.go:34-47 | the caches agree on an ID whose expiries fit exactly if its current message decodes as an action |
| `CacheAgreement.UnfaithfulDiffers` | internal/hub/message/cache.go:16-18 | after the addition of a cache entry that is not an action, or of one whose time left wraps to another positive one, the caches differ at some instant |
| `CacheAgreement.FaithfulAgrees` | internal/hub/message/cache.go:16-18 | without such additions the caches show the same at every instant |
| `CacheAgreement.AgreementExactly` | internal/hub/message/cache.go:16-18 | the caches agree all along a history of any messages if and only if it has no such addition |
| `CacheAgreement.OverflowBreaksAgreement` | internal/hub/message/cache.go:16-18 | an expiry for which the store forgets at once what the local map keeps |
| `CacheAgreement.EntryOnlyBreaksAgreement` | internal/hub/message/local_cache.go:40-50 | a message that is a cache entry only is shown by the store and not by the local map |
| `CacheAgreement.OrderIrrelevant` | internal/hub/message/local_cache.go:40-50 | the collection of messages returned does not depend on the order of iteration |
| `CacheAgreement.AnswersAgree` | internal/hub/message/distributed_cache.go:38-58 | what the two `GetMessages` return is the same collection |
| `FeedHub.ChannelDiscipline` | internal/hub/feed_hub.go:97-161 | in every run nothing is sent on a closed Feed and no Feed is closed twice |
| `FeedHub.DisciplineKept` | internal/service/agent_service.go:84-112 | each step keeps it, the auto-approver's own stop after a failed start included |
| `FeedHub.FeedsCloseExactly` | internal/hub/feed_hub.go:114-161 | in every run a registered client's Feed is open while it is registered and closed, once, from then on; the auto-approver's also once it was stopped |
| `FeedHub.SentWhileOpen` | internal/hub/feed_hub.go:97-190 | what is sent is sent on an open Feed and stays; closing happens at most once |
| `FeedHub.PanicsExactly` | internal/hub/feed_hub.go:97-190 | from any state a step panics if and only if it sends on or closes a closed Feed |
| `FeedHub.PhaseExactly` | internal/hub/feed_hub.go:70-85 | where the hub is, in terms of the events so far |
| `FeedHub.CanRegister` | internal/hub/feed_hub.go:97-111 | a fresh client can register at any time and is then sent to |
| `FeedHub.CanLeave` | internal/hub/feed_hub.go:114-124 | a registered client can leave at any time and finds its Feed closed |
| `FeedHub.CanRemove` | internal/hub/message/local_cache.go:55-61 | an ID can be removed at any time, which changes nothing else |
| `FeedHub.CanFail` | internal/service/agent_service.go:98-103 | the hub may fail to start; stopping the auto-approver then closes its Feed |
| `FeedHubService.Service.RegisterClient` | internal/hub/feed_hub.go:97-111 | replays the cache's current messages, then adds the client: the machine's registration step |
| `FeedHubService.Service.StartHub` | internal/hub/feed_hub.go:169-170 | the hub is running |
| `FeedHubService.Service.UnregisterClient` | internal/hub/feed_hub.go:114-124 | closes the Feed of a registered client and forgets it, and does nothing for another: the machine's step |
| `FeedHubService.Service.Deliver` | internal/hub/feed_hub.go:177-189 | caches the message, then sends it once to every registered client |
| `FeedHubService.Service.CleanUpClients` | internal/hub/feed_hub.go:152-167 | closes every registered client's Feed once and forgets them all |
| `FeedHubService.Service.GetExternalFeedClients` | internal/hub/feed_hub.go:138-150 | the number of registered clients that are not internal |
| `FeedDelivery.StepSeenBy` | internal/hub/feed_hub.go:97-190 | what one step sends to one client |
| `FeedDelivery.Delivery` | internal/hub/feed_hub.go:97-190 | in every run a client is sent its snapshot, then exactly the broadcasts made while it is registered, in order |
| `FeedDelivery.LiveOnce` | internal/hub/feed_hub.go:184-187 | each such broadcast arrives once, right after the ones before it |
| `FeedDelivery.CacheContents` | internal/hub/feed_hub.go:101-182 | in every run the hub's cache is the local cache after the run's cache operations |
| `FeedDelivery.SurvivorIsCached` | internal/hub/message/local_cache.go:19-61 | what was put under an ID and not displaced since is in the hub's cache |
| `FeedDelivery.CachedSurvived` | internal/hub/message/local_cache.go:19-61 | and nothing else is |
| `FeedDelivery.SnapshotExactly` | internal/hub/feed_hub.go:101-107 | in every run: the snapshot lists an ID, once, if and only if a broadcast under it was cached, not removed, not superseded and not found expired, and then lists that broadcast's message |
| `FeedDelivery.SnapshotIsCurrent` | internal/hub/feed_hub.go:101-107 | for an ID whose own expiries are judged right that is its latest unexpired unremoved message, if it decodes as an action |
| `FeedDelivery.UnstoredLeavesCache` | internal/hub/message/local_cache.go:25-31 | a broadcast whose time left is computed as not positive leaves the cache as it is |
| `FeedDelivery.CachedOnce` | internal/hub/feed_hub.go:101-107 | an earlier broadcast that was cached, is neither removed nor superseded and was unexpired at every registration since is in the snapshot exactly once |
| `FeedDelivery.ReplayedExactly` | internal/hub/message/cache.go:16-18 | an unexpired first broadcast of an ID is replayed if and only if its time left, as computed on arrival, was positive |
| `FeedDelivery.FarExpiryNotReplayed` | internal/hub/message/cache.go:16-18 | a run in which an unexpired, unremoved, unsuperseded broadcast is not replayed |
| `FeedDelivery.HandledStaysGone` | internal/service/action_service.go:62-75 | in every run, after its removal an ID is not replayed to later clients unless a broadcast under it was cached again |
| `FeedSource.WebsocketSource.Dial` | internal/hub/feed_source.go:137-147 | one dial; the state becomes open exactly on success |
| `FeedSource.WebsocketSource.Connect` | internal/hub/feed_source.go:62-78 | true exactly when left open, else closed; at most ceil(limit / interval) dials, and exactly that many if they fail and take no time |
| `FeedSource.WebsocketSource.Disconnect` | internal/hub/feed_source.go:110-117 | closed, and reconnecting is off |
| `FeedSource.Conservation` | internal/hub/feed_source.go:82-107 | messages read are those handled, then at most one in the channel, then at most one held; the channel is closed once; a hub that ended has handled all |
| `FeedSource.PipePanicsExactly` | internal/hub/feed_source.go:83-103 | a step panics if and only if it sends on the closed channel or closes it again |
| `FeedSource.EndsExactly` | internal/hub/feed_source.go:90-101 | listening has ended if and only if a read failed with reconnecting off, or reconnecting was given up |
| `FeedSource.CanReconnect` | internal/hub/feed_source.go:97-103 | after a read error with reconnecting on, a successful dial brings the source back to reading, with nothing lost |
| `FeedSource.CanGiveUp` | internal/hub/feed_source.go:76-101 | or it gives up and closes the channel, once |
| `FeedSource.CanDeliver` | internal/hub/feed_hub.go:172-176 | a message the listener holds can be delivered, and then everything read is handled |
| `FeedSource.CanStop` | internal/hub/feed_hub.go:163-175 | once listening ended the hub can handle the rest and stop |
| `FeedSource.NoReconnectStays` | internal/hub/feed_source.go:110-117 | `shouldReconnect` never returns to true |
| `FeedSource.ReconnectOffExactly` | internal/hub/feed_source.go:110-117 | it is false exactly after a request to disconnect |
| `FeedSource.DisconnectedStaysClosed` | internal/hub/feed_source.go:110-117 | the request closes the source until a reconnect already under way succeeds |
| `FeedSource.ReadErrorEnds` | internal/hub/feed_source.go:91-96 | once it is false a read error ends listening for good, without a dial |
| `FeedAgent.HandledIsBroadcast` | internal/hub/feed_hub.go:172-187 | in every run of source and hub together the messages taken from the channel are the messages broadcast |
| `FeedAgent.HubSide` | internal/hub/feed_hub.go:70-85 | seen from the hub, such a run is a run of the hub |
| `FeedAgent.PipeSide` | internal/hub/feed_source.go:62-117 | seen from the source, it is a run of the pipeline |
| `FeedAgent.PhasesMatch` | internal/hub/feed_hub.go:70-85 | both sides agree on where the hub is |
| `FeedAgent.EndToEnd` | internal/hub/feed_hub.go:163-191 | in every such run, when the hub has stopped, a client that stayed was sent its snapshot and then every message read from the websocket since it registered |
| `FeedAgent.CanPassOn` | internal/hub/feed_source.go:90-103 | whenever the source reads and nothing is on its way, the next message can get to every client |
| `FeedAgent.CanShutDown` | internal/hub/feed_hub.go:88-94 | and the agent can be stopped: every client then finds its Feed closed |
| `ClientFeed.AlwaysConsistent` | internal/feed/client.go:64-116 | in every interleaving the Feed is closed at most once, and the connection exactly once, when `Start` ends |
| `ClientFeed.StuckExactly` | internal/feed/client.go:77-110 | `Listen` waits for a `Start` that is gone if and only if a ping failed while it waited, or it read the state before the failure was recorded |
| `ClientFeed.StuckForGood` | internal/feed/client.go:100-110 | nothing releases it then |
| `ClientFeed.LatePingHangs` | internal/feed/client.go:77-110 | a run in which that happens |
| `ClientFeed.ShutsDownCleanly` | internal/feed/client.go:64-116 | if no ping fails after the hub closed the Feed, and the hub does not close it between a ping failure and its record, it never happens |
| `ClientFeed.CanEnd` | internal/feed/client.go:89-110 | when the hub closes the Feed both processes can end, with the connection closed once |
| `ClientFeed.PingFailureLeavesHub` | internal/feed/client.go:81-88 | a registered client whose ping failed has left the hub, with its Feed closed, when `Start` is done |
| `ClientFeed.AfterUnregistering` | internal/feed/client.go:86-86 | where unregistering leaves the client, exactly: one registered only later stays until the hub closes its Feed |
| `ClientFeed.LateRegistrationStays` | internal/service/agent_service.go:219-225 | a run in which a client is registered after its `Start` has ended |
| `ActionSync.LocksAlwaysMatch` | internal/action/syncronizer.go:58-73 | in every run a signing session holds its action's lock, and a holder has locked for that action |
| `ActionSync.SigningExclusion` | internal/action/syncronizer.go:46-73 | no two sessions are in the signing section for one action at once |
| `ActionSync.HoldersAreSigning` | internal/action/syncronizer.go:58-73 | while unlocking succeeds the lock holders are exactly the sessions between lock and unlock |
| `ActionSync.SessionFollowsScript` | internal/service/action_service.go:44-60 | in every state of every run a session has made exactly the calls its place in the script has: it unlocks only once it locked, once, and writes the marker after that, whatever signing returned |
| `ActionSync.CanFinish` | internal/action/syncronizer.go:68-73 | a session that locked can always unlock and then write the marker, by its own steps alone |
| `ActionSync.LiveMarkerStopsSigning` | internal/action/syncronizer.go:47-51 | an answered check made while the marker is live never leads to signing |
| `ActionSync.MarkerLiveExactly` | internal/action/syncronizer.go:70-71 | after its last write a marker is live until its time has passed, for ever if that is not positive |
| `ActionSync.NoMarkerUnwritten` | internal/action/syncronizer.go:48-48 | an action whose marker was never written has none |
| `ActionSync.ClockExactly` | internal/action/syncronizer.go:71-71 | the clock shows the seconds that passed |
| `ActionSync.MarkerLasts` | internal/action/syncronizer.go:70-71 | a marker stays live for its whole lifetime, whoever writes it again |
| `ActionSync.MarkerCanExpire` | internal/action/syncronizer.go:70-71 | a marker with a lifetime can run out |
| `ActionSync.SecondSignerCheckedEarly` | internal/action/syncronizer.go:47-73 | who signs although the marker was written checked before that, got no answer, or checked after it expired |
| `ActionSync.CanSign` | internal/action/syncronizer.go:47-65 | a session whose check let it pass can come to sign, whatever happened since |
| `ActionSync.MayBeRefused` | internal/action/syncronizer.go:58-62 | or it may be refused the lock and never signs |
| `ActionSync.MaySignExactly` | internal/action/syncronizer.go:47-51 | after its check a session can still come to sign if and only if the check was not answered or the marker was not live |
| `ActionSync.SigningTwiceHappens` | internal/action/syncronizer.go:47-73 | a run in which two sessions sign one action, one after the other |
| `ActionHandling.MarkersDiffer` | internal/action/syncronizer.go:75-77 | the marker is the prefix `action_v2:` and the ID, so different actions have different markers |
| `ActionHandling.MarkerWritten` | internal/action/syncronizer.go:70-71 | writing one makes it alive for its time and does nothing to the markers of others |
| `ActionHandling.CacheKeepsMarkers` | internal/action/syncronizer.go:75-77 | no operation of the message cache writes, removes or revives a marker |
| `ActionHandling.MarkersKeepCache` | internal/action/syncronizer.go:70-77 | writing a marker does not change what the cache shows |
| `ActionHandling.Syncronizer.ShouldHandleAction` | internal/action/syncronizer.go:47-55 | false exactly when the marker is found; else the mutex is named after the action |
| `ActionHandling.Syncronizer.AcquireLock` | internal/action/syncronizer.go:58-65 | takes the lock named last, or pauses and fails |
| `ActionHandling.Syncronizer.Release` | internal/action/syncronizer.go:68-73 | unlocks and then writes the marker whatever unlocking returned |
| `ActionHandling.ActionService.SignAndRemove` | internal/service/action_service.go:62-77 | one signing request of the kind asked for; the message leaves the cache exactly if it succeeds |
| `ActionHandling.ActionService.Act` | internal/service/action_service.go:44-78 | all requests made, in order, for every outcome, all about this action; one signing request, an approval or a rejection as asked, exactly if the session ran; which error is returned |
| `ActionHandling.HandlingIsSession` | internal/autoapprover/auto_approver.go:96-122 | the synchronizer calls for one action are those of one whole session of the protocol |
| `ActionHandling.RetryTimer.Retry` | internal/autoapprover/retry_timer.go:25-28 | sleeps for the interval, which grows by its first value each time |
| `ActionHandling.SleptClosedForm` | internal/autoapprover/retry_timer.go:25-28 | k growing sleeps take r * k(k+1)/2 |
| `ActionHandling.AttemptLimit` | internal/autoapprover/auto_approver.go:124-142 | the least number of attempts whose sleeps between them reach the limit |
| `ActionHandling.AutoApprover.ApproveAction` | internal/autoapprover/auto_approver.go:124-142 | terminates at the first success or within that many attempts, exactly that many if all fail and take no time, with sleeps r, 2r, ... between them |
| `ActionHandling.TotalSleep` | internal/autoapprover/auto_approver.go:124-142 | the sleeps together take less than the limit plus the last sleep |
| `ActionHandling.AttemptLogParts` | internal/autoapprover/auto_approver.go:124-142 | k attempts sign the same message k times, with sleeps r, 2r, ... between them, and only the last may succeed |
| `ActionHandling.AutoApprover.HandleAction` | internal/autoapprover/auto_approver.go:96-122 | one whole session, or the bare attempts without load balancing, all about this action; every signature is of its first message; panics exactly if it may sign an action without messages, having released the lock |
| `ActionHandling.AutoApprover.HandleMessage` | internal/autoapprover/auto_approver.go:76-94 | a pending unexpired action is handled; anything else has no effect but to record a parse error |

## Left out

- cgo bodies: BLS, M-Pin, ECIES and the AMCL prototypes are foreign calls; only `muladd` has a body in the headers.
- HTTP client, router, handlers, configuration, logging, token refresh and the key stores: plumbing or calls to other systems.
- Liveness: a client that never drains its Feed blocks the hub in its critical section; only safety is proved.
- Goroutine bodies `startHub`, `Listen` and `Start` are step machines, not loops; the hub's critical sections are methods.
- MerkleProofs.Soundness: needs one recognised flag per level, as `Verify` does not check the number; `SoundnessAbove` and `SoundnessBelow` say what fewer and more prove.
- MerkleTree.PathTo: in arrays whose length is not a tree's only the kind of error is stated.
- LimbArithmetic.MulAddHalf: the carry and the accumulator together leave room for two limbs, as the callers' normalised values do; signed overflow beyond that has no meaning in C.
- BlsScalar.ReverseBytes: the middle byte of an odd-length string is not copied; the only caller passes 32 bytes.
- ActionHandling.AutoApprover.ApproveAction: the interval is positive; with zero the loop only ends by the clock. The 64-bit range of durations in seconds is not modelled.
- FeedSource.WebsocketSource.Connect: a disconnect during a connect is a step of the pipeline machine, not of this method.
- ActionSync.LocksAlwaysMatch: a lock whose lease ends while its session signs is excluded by assumption.
- MessageCache.KVStore.Set: expiry is exact to the nanosecond; the rounding of times below a millisecond by the store's client is not modelled.
- Data races: fields written without the lock (`isRunning`, `readyState`, `shouldReconnect`, `lastError`) change in one step.
