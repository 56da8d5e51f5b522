# SPEX protocol core, modelled and verified in Dafny

SPEX is a messaging protocol with canonical CBOR payloads, an append-only key log, a store-and-forward
bridge, an MLS-style group state and hash-addressed chunk transport. This project models the parts of it
whose correctness is not visible from any single function, and proves what they promise for all inputs and
all runs.

`dafny verify dfyconfig.toml` checks everything. Each file is a component:

| file | component |
|---|---|
| `Numbers.dfy`, `Sums.dfy`, `Sorting.dfy`, `KeySort.dfy` | integers and powers of two, big-endian bytes, sums, one stable sort and its use on map keys |
| `Ieee754.dfy` | binary16/32/64 as exact integers in units of 2^-1074, the encoder's conversions |
| `Cbor.dfy`, `CborWriter.dfy` | the canonical encoder as a function, and as the code that pushes bytes into a buffer |
| `CborDecode.dfy`, `CborTheorems.dfy`, `CborOrder.dfy` | a reference decoder after section 3 of RFC 8949, and the encoder proved against it |
| `Merkle.dfy`, `MerkleFrontier.dfy` | the recursive tree over all leaves, and the binary-counter frontier that computes its root |
| `CheckpointLog.dfy`, `LogBinding.dfy`, `Revocation.dfy` | log entries, the log with its cached root, binding, revocation rules |
| `Envelope.dfy` | envelope fields and the map visitor that reads them |
| `Inbox.dfy`, `RateLimit.dfy`, `PowPolicy.dfy` | the bridge: cursor pages, sliding-window limiter, adaptive proof of work |
| `Members.dfy`, `MlsExtensions.dfy`, `MlsGroup.dfy`, `GroupReplica.dfy`, `ClientThread.dfy` | member lists, context extensions, the group replica with gap recovery as functions and as the object, and the client's mirror of it |
| `Chunks.dfy` | splitting, manifests, recovery and reassembly |
| `PeerScore.dfy` | peer reputation over whole runs |

## Conventions

- SHA-256 is a parameter `h` of type `HashFn`: any function with 32-byte results. It is never assumed
  injective. A binding result says that two things are equal, or that `Collide(h, A, B)` holds: two different
  inputs, one from each of two finite sets that the lemma names, have one digest.
- Clocks, random keys, the database and the network are parameters: a table is a sequence or a map, a
  handler is one or more steps, and a run is any interleaving of steps.
- An object the source updates in place is a class; its methods are proved against a function of the old
  state, and the theorems are about that function. A loop in the source is a loop here.
- Integers that can wrap are written with their wrap-around (the cut of the proof-of-work step count to 32
  bits, the signed 64-bit timestamps, the 32-bit product in score recovery).

## Findings

Properties that do not hold in full generality are kept as the code has them, with the exact condition.

- The comment on `f64_to_f16_bits` says round-to-nearest-even; the code truncates. `HalfTestExact` shows that
  the back-conversion test makes up for it: it succeeds exactly on the numbers binary16 can hold.
- Map keys with one encoding are not rejected. Bytes are independent of entry order exactly up to the order
  among such repeats (`MapBytesIff`, `RepeatedKeysKeepOrder`).
- An envelope reads back as itself exactly when no extension uses the key of a fixed field
  (`EnvelopeRoundTrip`); one with extension 0 reads back with another thread id (`ExtensionReplacesThreadId`).
- A walk of the inbox misses stored items exactly when, at its last page, the next item alone exceeds the byte
  budget (`FinishedWalkIff`, `SmallPagesLoseItems`); the shipped client never asks for such pages
  (`ClientWalkIsExact`). Expiry is compared as signed seconds, which is right exactly while expiry and clock are
  on one side of second 2^63 (`NewRowLifetimeIff`).
- The request limiter can be exceeded by the number of overlapping requests less one, and no more
  (`WindowLimit`, `OverlapReachesTheBound`, `OverlapReachesTheByteBound`). Its timestamps are compared as signed
  seconds too, so a window near second 2^63 has no limit at all (`UnsafeWindowHasNoLimit`).
- The required proof of work is monotone up to a volume and reputation exactly when their step count is below
  2^32 (`MonotoneIff`, `WrappedVolumeIsCheap`).
- A commit with an unsupported hash id is refused after the protocol suite and flags were written
  (`RefusalUntouchedIff`, `RefusedCommitLeavesItsSuite`).
- A group never lists a member twice (`MembersNeverRepeat`), but a new thread keeps repeated invites, so it
  mirrors its group exactly when no member was invited twice (`CreationMirrorsIff`, `RepeatedInviteDiverges`).
  The client removes one occurrence and the group all; from one list these agree exactly when every removed
  member is listed for removal as often as it occurs (`RemovalsAgreeIff`).
- A payload with two equal chunks cannot be reassembled: its manifest is invalid (`RoundTripIff`,
  `RepeatedChunkRejected`).
- Key rotation appends a revocation without the checks of the checked append; logs stay sound exactly when
  every rotation happens to meet them (`RunSoundIff`, `FirstRotationIsUnsound`).

## Model

| member | source | states |
|---|---|---|
| `Ieee754.BackConversionIsBinary16` | spex-core/src/cbor.rs:251-266 | the back-conversion gives every 16-bit pattern its IEEE 754 binary16 meaning, subnormals, infinities and NaN included |
| `Ieee754.WidenExact` | spex-core/src/cbor.rs:189-213 | every narrower float has a binary64 pattern with the same value |
| `Ieee754.TruncateWidened` | spex-core/src/cbor.rs:218-249 | the truncating conversion undoes widening on every binary16 number |
| `Ieee754.RoundWidened` | spex-core/src/cbor.rs:204-209 | the round-to-nearest-even conversion undoes widening on every binary32 number |
| `Ieee754.HalfTestExact` | spex-core/src/cbor.rs:196-202 | truncate-and-compare succeeds exactly on the numbers that some binary16 pattern equals |
| `Ieee754.SingleTestExact` | spex-core/src/cbor.rs:204-209 | narrow-and-compare succeeds exactly on the numbers that some binary32 pattern equals |
| `KeySort.SortContents` | spex-core/src/cbor.rs:123-128 | sorting map entries permutes them |
| `KeySort.SortLengthFirst` | spex-core/src/cbor.rs:123-128 | of two sorted entries the earlier has the shorter key, or keys of one length that are equal or first differ by a smaller byte |
| `KeySort.SortStable` | spex-core/src/cbor.rs:123-128 | entries with one key keep their order |
| `Cbor.EncodeCanon` | spex-core/src/cbor.rs:89-148 | a value and its canonical form (maps sorted at every level, one NaN) have the same bytes |
| `Cbor.CanonIsCanonical` | spex-core/src/cbor.rs:113-133 | the canonical form of any value is canonical |
| `Cbor.CanonOfCanonical` | spex-core/src/cbor.rs:113-133 | a canonical value is its own canonical form |
| `CborTheorems.HeadInverse` | spex-core/src/cbor.rs:166-187 | for every major type and 64-bit argument a reference reader gets both back and stops at the suffix |
| `CborTheorems.HeadIsShortest` | spex-core/src/cbor.rs:166-187 | no head that a reader takes for the same argument is shorter |
| `CborTheorems.FloatRoundTrip` | spex-core/src/cbor.rs:189-213 | every binary64 pattern decodes to itself, the sign of zero included, and every NaN to one NaN |
| `CborTheorems.NarrowestFloat` | spex-core/src/cbor.rs:189-213 | the encoder picks the narrowest of the three widths that holds the number exactly |
| `CborTheorems.NaNBytes` | spex-core/src/cbor.rs:190-194 | every NaN is written as f9 7e 00 |
| `CborTheorems.RoundTrip` | spex-core/src/cbor.rs:89-187 | decoding an encoding followed by any bytes gives the canonical form of the value and exactly those bytes |
| `CborTheorems.PrefixFree` | spex-core/src/cbor.rs:89-187 | no encoding is a proper prefix of another |
| `CborTheorems.SameBytesIffSameCanon` | spex-core/src/cbor.rs:89-187 | encoding is injective exactly up to canonical form |
| `CborTheorems.AcceptsExactlyTheImage` | spex-core/src/cbor.rs:79-87 | strict decoding accepts a byte string if and only if some value encodes to it, and returns its canonical form |
| `CborTheorems.DecodedIsCanonical` | spex-core/src/cbor.rs:79-87 | what strict decoding returns is canonical and re-encodes to the input |
| `CborTheorems.NotCborIff` | spex-core/src/cbor.rs:79-82 | bytes are rejected as no CBOR exactly when no item can be read at their start |
| `CborTheorems.TrailingBytesRejected` | spex-core/src/cbor.rs:83-85 | an encoding followed by anything is rejected as not canonical |
| `CborTheorems.WideHeadRejected` | spex-core/src/cbor.rs:83-85 | an integer, string, array, map or tag behind a head wider than needed is rejected as not canonical, at every width |
| `CborTheorems.WideFloatRejected` | spex-core/src/cbor.rs:83-85 | a float in a wider form than needed, or another NaN, is rejected as not canonical |
| `CborTheorems.UnsortedMapRejected` | spex-core/src/cbor.rs:83-85 | a readable map with entries out of order is rejected as not canonical |
| `CborOrder.SortCharacterized` | spex-core/src/cbor.rs:123-128 | the sort is the only ordered sequence that lists each key's entries in the original order |
| `CborOrder.CanonicalMapOrder` | spex-core/src/cbor.rs:113-133 | in a canonical map encoded keys go from shorter to longer and, at one length, by the first differing byte |
| `CborOrder.EncodedMapOrder` | spex-core/src/cbor.rs:113-133 | every map is read back from its encoding with its entries in that order |
| `CborOrder.MapBytesIff` | spex-core/src/cbor.rs:113-133 | two maps have the same bytes if and only if under each encoded key they list the same value encodings in the same order |
| `CborOrder.RepeatedKeysKeepOrder` | spex-core/src/cbor.rs:113-133 | swapping two neighbours with one key, in any map, changes the bytes if and only if their values have different bytes |
| `CborOrder.ReorderedSameBytes` | spex-core/src/cbor.rs:113-133 | reordering the entries of maps at any depth, keys distinct, never changes the bytes |
| `CborWriter.EncodeU64` | spex-core/src/cbor.rs:166-187 | appends the shortest head for the argument and nothing else |
| `CborWriter.EncodeLength` | spex-core/src/cbor.rs:161-164 | appends the head of a length, or fails and leaves the buffer |
| `CborWriter.EncodeInteger` | spex-core/src/cbor.rs:150-159 | appends the head of a signed integer; fails exactly outside -2^64 to 2^64 - 1 |
| `CborWriter.EncodeFloatInto` | spex-core/src/cbor.rs:189-213 | the cascade of width tests appends the encoding of the float |
| `CborWriter.EncodeValue` | spex-core/src/cbor.rs:89-148 | the recursive writer appends exactly the encoding, and succeeds exactly on encodable values |
| `CborWriter.EncodeMap` | spex-core/src/cbor.rs:113-133 | encoding each entry apart, sorting and writing gives the encoding of the map |
| `CborWriter.CanonicalBytes` | spex-core/src/cbor.rs:62-66 | a fresh buffer ends up holding the encoding, or an error is returned |
| `MerkleTree.PerfectPairs` | spex-core/src/log.rs:156-174 | joining neighbours level by level gives the perfect tree's digest |
| `MerkleTree.TreePairs` | spex-core/src/log.rs:176-185 | the tree over an even number of leaves has the digest of the tree over their pairs |
| `MerkleFrontier.CarryRepresents` | spex-core/src/log.rs:156-174 | the carry turns the frontier of a leaf list into the frontier of that list and one more leaf |
| `MerkleFrontier.FoldRootIsRoot` | spex-core/src/log.rs:176-185 | folding any frontier gives the root of the recursive tree (lowest set bit of the count, newer block on the left) over all leaves |
| `MerkleFrontier.SlotContents` | spex-core/src/log.rs:130-174 | slot l is filled exactly when bit l of the count is set and holds the perfect tree over its block |
| `MerkleFrontier.NoBitBeyond` | spex-core/src/log.rs:130-174 | every set bit of the count has a slot |
| `MerkleFrontier.MerkleState.CarryUp` | spex-core/src/log.rs:156-171 | the carry loop finds its left sibling at every set bit and leaves the frontier one store short of the carried one |
| `MerkleFrontier.MerkleState.AppendLeaf` | spex-core/src/log.rs:156-174 | the state then holds one more leaf, and the returned root is the root over all of them |
| `MerkleFrontier.MerkleState.Root` | spex-core/src/log.rs:176-185 | the loop from the highest slot down computes the fold |
| `CheckpointEntries.EntryCanonical` | spex-core/src/log.rs:13-120 | the value built for an entry is canonical as built |
| `CheckpointEntries.EntryReadsAs` | spex-core/src/log.rs:13-120 | a reader of the hashed bytes finds kind 0, 1 or 2 under key 0 and each field under its number in the map under key 1 |
| `CheckpointEntries.EntryBytesInjective` | spex-core/src/log.rs:23-120 | the bytes an entry is hashed as determine its kind and every field |
| `CheckpointLogs.FromEntries` | spex-core/src/log.rs:146-153 | the rebuilt state holds exactly the leaf digests of the entries, in order, or an entry does not encode |
| `CheckpointLogs.CheckpointLog.RebuildMerkleState` | spex-core/src/log.rs:315-318 | the cache is in step with the entries afterwards |
| `CheckpointLogs.CheckpointLog.EnsureMerkleState` | spex-core/src/log.rs:307-312 | a cache lost by deserialization is noticed by its count and rebuilt; one in step is kept |
| `CheckpointLogs.CheckpointLog.AppendWithRoot` | spex-core/src/log.rs:235-241 | appends the entry and returns the root over the whole extended log; a failure keeps the entries; the cache invariant holds either way |
| `CheckpointLogs.CheckpointLog.MerkleRoot` | spex-core/src/log.rs:244-252 | equals the root rebuilt from all entries, whether or not the cache was used |
| `CheckpointLogs.SmallRoots` | spex-core/src/log.rs:176-195 | the roots of logs of none to three entries are written out as hash inputs, prefixes and child order included |
| `CheckpointLogs.CheckpointLog.Clone` | spex-core/src/log.rs:197-203 | a clone has the same entries and a cache in step |
| `CheckpointLogs.Import` | spex-core/src/log.rs:285-290 | an imported log has the exported entries and a rebuilt cache |
| `LogBinding.TreeInjective` | spex-core/src/log.rs:176-185 | the shape of the tree gives away the number and order of its leaves |
| `LogBinding.TreesBind` | spex-core/src/log.rs:189-195 | trees of any two shapes with one digest are equal, or two different hash inputs collide |
| `LogBinding.LeavesBind` | spex-core/src/log.rs:321-327 | equal leaf digests mean equal entries, or two different leaf inputs collide |
| `LogBinding.RootBindsLog` | spex-core/src/log.rs:244-252 | logs of any lengths with equal roots are equal, or two different inputs hashed for them collide |
| `LogBinding.CompareMeans` | spex-core/src/log.rs:255-277 | behind and ahead are proper prefixes, diverged is a common prefix followed by different entries |
| `LogBinding.RootsCompareLogs` | spex-core/src/log.rs:255-267 | roots are equal exactly when the logs compare as identical, or two inputs collide |
| `Revocations.AppendRevocationEntryChecked` | crates/spex-client/src/lib.rs:2147-2193 | gives the verdict on the entry and appends it exactly with the verdict to do so; any other outcome leaves the log |
| `Revocations.VerdictIff` | crates/spex-client/src/lib.rs:2153-2188 | each of the five answers holds exactly under its condition on the log: user, issued key, earlier revocation, and a recovery entry with the named hash no older than the limit |
| `Revocations.RunBacked` | crates/spex-client/src/lib.rs:2176-2188 | in the log of every run a revocation that names a recovery key follows a recovery entry of that user with that hash |
| `Revocations.AppendRotationCheckpoint` | crates/spex-client/src/lib.rs:620-647 | the stored log gains the revocation and the new key together, or is unchanged |
| `Revocations.RunSoundIff` | crates/spex-client/src/lib.rs:2147-2193 | over every run, each revocation follows a matching key entry and is the first for its key, if and only if each rotation that took effect left an issued, unrevoked key |
| `Revocations.CheckedRunsAreSound` | crates/spex-client/src/lib.rs:2147-2193 | without rotations every run is sound |
| `Revocations.SoundIsUnique` | crates/spex-client/src/lib.rs:2167-2175 | a sound log revokes each key of a user at most once |
| `Revocations.FirstRotationIsUnsound` | crates/spex-client/src/lib.rs:620-647 | a rotation on an empty log revokes a key that was never recorded |
| `Revocations.RevokedForever` | spex-core/src/log.rs:230-241 | the log of a prefix of a run is a prefix of the log, so issued and revoked keys stay so |
| `Revocations.SecondRevocationIsIdle` | crates/spex-client/src/lib.rs:2167-2175 | once revoked, the same key is answered as already revoked on every later log |
| `Envelopes.UintKeyOrder` | spex-core/src/types.rs:251-267 | encoded unsigned keys sort as numbers, so the field map is written in numeric order |
| `Envelopes.CanonMapValue` | spex-core/src/types.rs:251-267 | the canonical form of a field map is the same map with canonical values |
| `Envelopes.VisitMap` | spex-core/src/types.rs:208-248 | the visitor loop reads fixed fields, extensions and missing fields as the field-by-field definition does |
| `Envelopes.VisitReads` | spex-core/src/types.rs:208-248 | visiting a well-typed list with integer keys collects exactly the fixed fields and extensions of the map it lists, later entries replacing earlier ones |
| `Envelopes.ReadIff` | spex-core/src/types.rs:208-248 | a value is read exactly when it is a map with entries of the right types and with keys 0 to 4; the signature is there exactly with key 5 |
| `Envelopes.EnvelopeRoundTrip` | spex-core/src/types.rs:208-267 | canonical bytes read back as the envelope, extension values canonical, if and only if extension keys avoid 0 to 5 |
| `Envelopes.ExtensionReplacesThreadId` | spex-core/src/types.rs:251-267 | an envelope with thread id 1 and extension 0 set to 9 reads back with thread id 9 and no extension |
| `Inbox.StoredIff` | crates/spex-bridge/src/lib.rs:1262-1305 | storing is refused exactly for an item, time to live or expiry out of range; otherwise item, inbox and the asked-for or default time to live are kept |
| `Inbox.NewRowLifetimeIff` | crates/spex-bridge/src/lib.rs:1262-1305 | a stored item is visible in no other inbox, and in its own for exactly its time to live if and only if expiry and clock are on one side of second 2^63 |
| `Inbox.NormalizeLimit` | crates/spex-bridge/src/lib.rs:1186-1200 | the page limit is between 1 and 500: an asked-for limit in that range is kept, a larger one capped, and none or zero means 100 |
| `Inbox.NormalizeMaxBytes` | crates/spex-bridge/src/lib.rs:1186-1200 | a positive budget up to the bridge's is kept; none, zero or a larger one means the bridge's |
| `Inbox.FitBudgets` | crates/spex-bridge/src/lib.rs:1235-1252 | a page keeps its item and its byte budget |
| `Inbox.FitIs` | crates/spex-bridge/src/lib.rs:1239-1252 | a page is the longest prefix within both budgets |
| `Inbox.FetchOneMore` | crates/spex-bridge/src/lib.rs:1225-1234 | fetching one row beyond the limit decides the same page as fetching all rows |
| `Inbox.SelectedIff` | crates/spex-bridge/src/lib.rs:1227-1234 | the selected rows are exactly the stored rows of that inbox past the cursor with no expiry or a later one |
| `Inbox.PageRowsBelong` | crates/spex-bridge/src/lib.rs:1227-1254 | every row of a page is such a row |
| `Inbox.OtherRowsDoNotMatter` | crates/spex-bridge/src/lib.rs:1227-1234 | a row of another inbox, an expired or a passed one never changes a page, wherever it stands |
| `Inbox.TakeRows` | crates/spex-bridge/src/lib.rs:1235-1252 | the loop returns that prefix, its last id, and whether rows are left |
| `Inbox.LoadInboxItems` | crates/spex-bridge/src/lib.rs:1203-1259 | the query over the table answers the page of all visible rows past the cursor, or nothing for an unknown inbox |
| `InboxWalk.RunInv` | crates/spex-transport/src/inbox.rs:262-284 | under every interleaving of inserts, clock and pages the rows returned so far are ascending, unique, and all visible rows up to the cursor |
| `InboxWalk.FinishedWalkIff` | crates/spex-transport/src/inbox.rs:262-284 | for every limit and byte budget a finished walk returned unexpired rows once each and in id order, and all rows stored and unexpired at its last page if and only if none was left there or the next one fits the budget |
| `InboxWalk.WalkRowsBelong` | crates/spex-transport/src/inbox.rs:262-284 | everything a walk returned is a row of its inbox that had not expired when it began |
| `InboxWalk.FinishedWalkIsExact` | crates/spex-transport/src/inbox.rs:262-284 | with a budget that holds every item a finished walk missed nothing |
| `InboxWalk.ClientWalkIsExact` | crates/spex-transport/src/inbox.rs:251-289 | a finished walk of the shipped client returned every row stored and unexpired at its last page |
| `InboxWalk.SmallPagesLoseItems` | crates/spex-bridge/src/lib.rs:1239-1254 | a finished run with a budget of one byte misses an item of two |
| `InboxWalk.ScanInbox` | crates/spex-transport/src/inbox.rs:251-289 | the client loop ends on every table and clock, and its result is a finished walk |
| `RateLimit.SnapshotSees` | crates/spex-bridge/src/lib.rs:914-949 | a snapshot inside a window counts every accepted row of that window |
| `RateLimit.SnapshotOneMore` | crates/spex-bridge/src/lib.rs:924-931 | one more row adds one request and its bytes to snapshots of its identity while it is in the window, and to no others |
| `RateLimit.QuietIdentityAdmitted` | crates/spex-bridge/src/lib.rs:924-963 | an identity without a row in the window is admitted exactly when the limits allow a first request of its size, whatever others did |
| `RateLimit.WindowLimit` | crates/spex-bridge/src/lib.rs:500-566 | in every safe window, with at most k overlapping requests of an identity, at most limit + k - 1 requests and the byte limit plus k - 1 bodies are accepted; for k = 1 both limits hold exactly |
| `RateLimit.UnsafeWindowHasNoLimit` | crates/spex-bridge/src/lib.rs:914-929 | in every window that is not safe some run without overlap accepts any number of requests |
| `RateLimit.OverlapReachesTheBound` | crates/spex-bridge/src/lib.rs:500-566 | for every limit and k some run reaches the request bound |
| `RateLimit.OverlapReachesTheByteBound` | crates/spex-bridge/src/lib.rs:500-566 | for every k some run reaches the byte bound, whenever bodies of that length can use up the byte limit |
| `PowPolicy.RequiredFrom` | crates/spex-bridge/src/lib.rs:966-982 | k more iterations and k times more memory are required exactly from 20 requests or 262144 bytes for each of k steps and each 25 points of reputation on |
| `PowPolicy.MonotoneIff` | crates/spex-bridge/src/lib.rs:966-982 | up to a volume and reputation, more volume or less reputation never lowers the requirement, if and only if their step count is below 2^32 |
| `PowPolicy.WrappedVolumeIsCheap` | crates/spex-bridge/src/lib.rs:975-981 | at 2^32 steps the requirement is the minimum again |
| `PowPolicy.AdmittedPowIsModest` | crates/spex-bridge/src/lib.rs:951-982 | a request within the default limits needs at most six times the base memory and eight iterations, and monotonicity holds there |
| `PowPolicy.ReputationStaysInRange` | crates/spex-bridge/src/lib.rs:1017-1048 | in every history, lost updates included, a reputation is within -20 and 100 and saves at most four steps |
| `PowPolicy.ReputationMoves` | crates/spex-bridge/src/lib.rs:1034-1037 | an accepted request raises the score by one and a refused one lowers it by one, except at 100 and -20 |
| `PowPolicy.SecondCheckIsRedundant` | spex-core/src/validation.rs:47-68 | after the bridge's requirement the protocol's own check cannot fail, and each verdict holds exactly under its condition on the four parameters, the length and the output |
| `Members.AddAllToNoneIff` | crates/spex-mls/src/lib.rs:203-207 | adding a list member by member to an empty group gives the list if and only if it has no repeats |
| `Members.RemoveAllIsRetainAllIff` | crates/spex-client/src/lib.rs:1815-1830 | removing one occurrence for each listed member equals removing all if and only if each is listed as often as it occurs |
| `MlsGroup.RefusalUntouchedIff` | crates/spex-mls/src/lib.rs:183-199 | a commit with a wrong epoch or an unsupported hash id leaves the group unchanged exactly when its epoch is wrong or it brings no new suite and flags; otherwise exactly those two fields change |
| `MlsGroup.RefusedCommitLeavesItsSuite` | crates/spex-mls/src/lib.rs:190-199 | in any group a next commit with another suite and hash id 2 is refused and leaves that suite behind |
| `MlsGroup.OrderErrorsChangeNothing` | crates/spex-mls/src/lib.rs:183-252 | in any state, for any commit and any recovery call, an order error leaves the group unchanged |
| `MlsGroup.MembersNeverRepeat` | crates/spex-mls/src/lib.rs:203-210 | a group that starts without repeated members never has any, over every run of calls with any commits |
| `MlsGroup.MembersAfter` | crates/spex-mls/src/lib.rs:203-210 | after an applied commit the members are exactly the old and added ones that are not removed |
| `MlsGroup.AppliedIff` | crates/spex-mls/src/lib.rs:183-202 | a commit is applied exactly for the next epoch, hash id 1 or none, and a configuration hash of at most 255 bytes |
| `MlsGroup.AppliedContext` | crates/spex-mls/src/lib.rs:190-219 | each context field is the commit's or the old one, and the two extensions read back as those fields |
| `MlsGroup.AppliedSecret` | crates/spex-mls/src/lib.rs:211-217 | the secrets are at the new epoch: the commit's own, or the digest of the old secret and the epoch as eight bytes |
| `MlsGroup.SecretsDiffer` | crates/spex-mls/src/lib.rs:598-604 | along a chain without supplied secrets the secrets of two epochs are digests of different inputs, and differ unless those collide |
| `MlsGroup.GapMeans` | crates/spex-mls/src/lib.rs:408-425 | current, next and stale are the equal, following and earlier epochs, and a gap lists exactly the epochs strictly between, ascending |
| `MlsGroup.CallStaysOnChain` | crates/spex-mls/src/lib.rs:183-252 | a call with commits of one chain moves the replica along the chain or refuses and changes nothing |
| `MlsGroup.RecoverGap` | crates/spex-mls/src/lib.rs:229-252 | recovery succeeds exactly when the sorted commits are the missing epochs |
| `MlsGroup.RecoveryInAnyOrder` | crates/spex-mls/src/lib.rs:229-252 | the missing commits close the gap in any order |
| `MlsGroup.ReplicaIsChainState` | crates/spex-mls/src/lib.rs:183-252 | after any calls with commits of one chain the replica is in the state of applying commits 1 to its epoch in order |
| `MlsGroup.ReplicasAgree` | crates/spex-mls/src/lib.rs:183-252 | two replicas of a chain at one epoch are identical |
| `GroupReplica.Create` | crates/spex-mls/src/lib.rs:156-180 | a group exists exactly for a supported hash id, at epoch 0, without members, with built extensions and a secret derived from the given or the default seed |
| `MlsExtensions.ProtoSuiteReadsIff` | crates/spex-mls/src/lib.rs:1023-1059 | an extension is read as a suite and flags if and only if it is the one built from them |
| `MlsExtensions.CfgHashReadsIff` | crates/spex-mls/src/lib.rs:1062-1076 | an extension is read as a hash id and hash if and only if it is the one built from them |
| `MlsExtensions.ProtoSuiteBytes` | spex-core/src/mls_ext.rs:10-22 | the suite extension byte by byte |
| `MlsExtensions.CfgHashBytes` | spex-core/src/mls_ext.rs:26-38 | the configuration hash extension byte by byte |
| `GroupReplica.Group.ApplyCommit` | crates/spex-mls/src/lib.rs:183-221 | the field-by-field update gives the outcome and the state of the commit function, partial updates included |
| `GroupReplica.Group.AddMember` | crates/spex-mls/src/lib.rs:255-261 | the commit made for the member is offered to the group and returned |
| `GroupReplica.Group.ApplyCommitWithRecovery` | crates/spex-mls/src/lib.rs:229-252 | gap detection, sorting and the apply loop give the outcome and state of recovery |
| `ClientThread.ThreadState.ApplyCommitWithEvents` | crates/spex-client/src/lib.rs:1787-1839 | members, epoch and emitted events are those of the thread function, or nothing changes |
| `ClientThread.EventsReplay` | crates/spex-client/src/lib.rs:1795-1838 | replaying the events over the old members gives the new ones, with one rekey, last |
| `ClientThread.MirrorStep` | crates/spex-client/src/lib.rs:1795-1838 | an applied commit keeps thread and group equal and duplicate-free; both refuse the same commits as out of order |
| `ClientThread.MirrorRun` | crates/spex-client/src/lib.rs:1795-1838 | the same over every applied commit sequence |
| `ClientThread.RemovalsAgreeIff` | crates/spex-client/src/lib.rs:1815-1830 | from any one list the client's removals agree with the group's if and only if each removed member is listed as often as it occurs |
| `ClientThread.BuildGroup` | crates/spex-client/src/lib.rs:951-969 | the group is the one joined by the listed members one after another |
| `ClientThread.CreateThread` | crates/spex-client/src/lib.rs:1842-1873 | the thread lists the invited members and its creator, at the epoch of the group built for them |
| `ClientThread.CreationMirrorsIff` | crates/spex-client/src/lib.rs:1842-1873 | a new thread has the members of its group if and only if no member was invited twice |
| `ClientThread.RepeatedInviteDiverges` | crates/spex-client/src/lib.rs:1842-1873 | a thread created by "a" with "b" invited twice lists three members and its group two |
| `ClientThread.ThreadFollowsGroup` | crates/spex-client/src/lib.rs:1787-1873 | from creation without repeated invites, over every applied commit sequence, thread and group agree |
| `Chunks.ReassembleChunks` | crates/spex-transport/src/chunking.rs:49-67 | the loop joins the chunk data in index order |
| `Chunks.ValidateManifest` | crates/spex-transport/src/transport.rs:570-592 | returns the first fault: a payload without chunks, a repeated index, or a repeated hash |
| `ChunkTheorems.FaultlessIff` | crates/spex-transport/src/transport.rs:570-592 | there is no fault if and only if indices and hashes are pairwise distinct and a payload has chunks |
| `Chunks.RecoverChunksFromStore` | crates/spex-transport/src/transport.rs:355-377 | the loop recovers a chunk per descriptor or returns the first fault |
| `Chunks.ReassembleWithManifest` | crates/spex-transport/src/transport.rs:380-420 | indexing by hash, picking, joining and the length check give the reassembly function |
| `Chunks.ReassemblePayloadFromStore` | crates/spex-transport/src/transport.rs:423-430 | recovery followed by reassembly |
| `ChunkTheorems.FirstMismatch` | crates/spex-transport/src/transport.rs:387-396 | the reported mismatch is the first delivered chunk that does not match its own hash |
| `ChunkTheorems.FirstOfHash` | crates/spex-transport/src/transport.rs:387-396 | of several chunks with one hash the first is used |
| `ChunkTheorems.FirstUnserved` | crates/spex-transport/src/transport.rs:398-411 | the reported fault is the first descriptor without a chunk or with one of another index |
| `ChunkTheorems.FirstUnheld` | crates/spex-transport/src/transport.rs:355-377 | the reported fault is the first descriptor the store cannot serve |
| `ChunkTheorems.ReassembledIs` | crates/spex-transport/src/transport.rs:380-420 | a success is the index-ordered data of one hash-checked chunk per descriptor, of the announced length |
| `ChunkTheorems.ManifestBindsPayload` | crates/spex-transport/src/transport.rs:380-420 | two successes on one manifest, from any chunk lists, give the same bytes, or two delivered blocks collide |
| `ChunkTheorems.ManifestBindsStores` | crates/spex-transport/src/transport.rs:423-430 | the same for any two stores |
| `ChunkTheorems.PiecesJoin` | crates/spex-transport/src/chunking.rs:30-43 | the pieces join to the data; all but the last have the chunk size |
| `ChunkTheorems.AssembledIsPayload` | crates/spex-transport/src/chunking.rs:30-67 | the chunks of a payload in any arrangement join to the payload |
| `ChunkTheorems.RoundTripIff` | crates/spex-transport/src/transport.rs:230-240 | chunking, describing and delivering in any order with repeats gives back the payload if no two chunks have one hash, and a repeated-hash fault otherwise |
| `ChunkTheorems.StoreRoundTripIff` | crates/spex-transport/src/transport.rs:423-430 | the same through a store |
| `ChunkTheorems.RoundTripAmongOthers` | crates/spex-transport/src/transport.rs:380-420 | delivered among any other self-consistent chunks the payload comes back, or a chunk with the same hash under another index came first and is reported, or two blocks collide |
| `ChunkTheorems.RepeatedChunkRejected` | crates/spex-transport/src/transport.rs:570-592 | a payload with two equal pieces is rejected for a repeated hash, whatever is delivered |
| `PeerScores.DecayIsMaximal` | crates/spex-transport/src/p2p.rs:1363-1373 | short of overflow the recovered score is the highest up to 20 that the whole seconds allow |
| `PeerScores.OverflowRecoversNothing` | crates/spex-transport/src/p2p.rs:1363-1373 | a product of 2^31 recovers nothing |
| `PeerScores.RecoveryWithinRate` | crates/spex-transport/src/p2p.rs:1363-1373 | over every run, all that recovery gave back is at most the rate times the time up to the last recovery, however reports split that time |
| `PeerScores.ScoreIsAccounted` | crates/spex-transport/src/p2p.rs:791-820 | over every run, the score is what recovery and capped successes gave less 8, 30 and 18 for each timeout, invalid payload and inconsistent response, at most 20, and successes gave at most six each |
| `PeerScores.SuccessGives` | crates/spex-transport/src/p2p.rs:810-820 | a success gives exactly six, up to 20 |
| `PeerScores.UnforgivenScore` | crates/spex-transport/src/p2p.rs:791-807 | without a rate and successes the score is minus the cost of the reports |
| `PeerScores.CountersExact` | crates/spex-transport/src/p2p.rs:791-807 | the counters are the numbers of reports of each kind |
| `PeerScores.ReputationIff` | crates/spex-transport/src/p2p.rs:1341-1349 | a peer is banned exactly while a banning report is recent, else on probation exactly while a probation report is recent and nothing since banned or cleared |
| `PeerScores.RepeatOffenderIsBanned` | crates/spex-transport/src/p2p.rs:1145-1162 | once a counter reached its threshold every later penalty of any kind ends in a ban |
| `PeerScores.PeersAreIndependent` | crates/spex-transport/src/p2p.rs:1130-1141 | however reports interleave, a peer's entry is the run of its own reports |
| `PeerScores.PeerTable.ApplyPenalty` | crates/spex-transport/src/p2p.rs:1130-1175 | the in-place update gives the table after the report, and the reported transition is the change of classification |
| `PeerScores.PeerTable.ReportSuccessfulInteraction` | crates/spex-transport/src/p2p.rs:810-820 | the in-place update gives the table after a success |

## Left out

- The CBOR decoder library is replaced by a reference decoder; its recursion limit, bignum tags and simple values other than false, true and null are not modelled.
- Serialization of logs and envelopes through serde, JSON, base64 and hex is the identity on values.
- Ieee754.F64ToF32Bits: states the language's narrowing cast as round-to-nearest-even; the cast itself is not source code.
- SHA-256, Ed25519, Argon2id and ChaCha20-Poly1305 are opaque or absent; message encryption and grant signatures are not part of this model.
- SQLite, axum, tokio and libp2p: table contents and the order of handler steps are modelled, I/O errors in the middle of a handler only as a request that never writes its row.
- GroupReplica.Create: a configuration hash of more than 255 bytes is excluded; the source panics on it. ClientThread.CreateThread and ClientThread.BuildGroup have the same limit, and the source passes them a digest of 32 bytes.
- PowPolicy.JudgePuzzle treats the Argon2id comparison as a given truth value.
- MlsGroup.ReplicaIsChainState: epochs do not overflow 64 bits, and commits of the chain have supported hash ids and configuration hashes of at most 255 bytes.
- PeerScores.ScoreIsAccounted: the score itself and the counters do not overflow 32 bits; the clock is read once per report, also for a peer seen for the first time.
- PeerScores.DecayIsMaximal: states sufficiency only; past the overflow the score may still be right because of the cap at 20.
- Chunks.ReassembleChunks: the source sorts with an unstable sort; chunks with equal indices, which a valid manifest excludes, are kept in delivery order here.
- Revocations.RunSoundIff: the log is changed only by the four steps named there, not through its public field.
- Grants, contact cards and invites: field maps that are encoded like checkpoint entries, with signatures over them.
- `aead_ad.rs` and the proof-of-work input: concatenations of fixed-width fields.
- The wrappers around the mls-rs library, which pass commits and external commits to it.
- State files and their encryption, the command line, telemetry counters and the abuse-log export.
