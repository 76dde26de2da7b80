# Momo in Dafny

Momo is a content-addressed distributed store. This project models the parts of it that carry its hardest logic and proves what they promise, for every input and every run. `dafny verify dfyconfig.toml` checks all of it.

| module | what it models |
|---|---|
| `MomoFs`, `MomoTree`, `MomoRewrite`, `MomoRename` | the directory tree over the store: manifests stored under keys derived from paths, so that a directory rename re-keys every descendant |
| `MomoLog`, `MomoStack` | the writes the filesystem issues, and the filesystem running on the content-addressed store |
| `Oprf` | the threshold OPRF: Shamir shares, blinded evaluation, Lagrange interpolation at zero, batch inversion with aliased prefix products |
| `Crush` | replica placement: eligibility, stable sort by score, failure-domain pass, degraded fallback |
| `Lease`, `LeaseRuns` | the lease quorum protocol, one node and a whole cluster with delayed, lost and reordered messages |
| `Cas` | names, reference counts, tombstones, sweeps and blobs of the store |
| `AuditLog` | the hash-chained audit log |
| `Stream`, `Envelope` | the chunked streaming AEAD (format 4) and the end-to-end envelope around it |
| `Versioning`, `VersionKeys`, `Listing`, `ObjectLock`, `Strings` | version records under composite keys, their replication, deletion and listing, and object lock |
| `RawStore` | the bump allocator on a raw device and its recovery |
| `Codecs`, `FileList`, `Heartbeat`, `ObjectMeta`, `Bytes` | three binary formats and the big-endian integers they use |
| `Bandwidth` | the token bucket and the throttled writer |

Conventions. A bbolt bucket is a map, and a transaction changes it all or not at all. Names and keys are byte strings, one character per byte. SHA-256 is an injective table. AES-256-GCM is an ideal AEAD as in section 2 of RFC 5116: a text opens exactly if it was sealed under that nonce and additional data. The Ristretto group is a torsion-free module over a field, and its decoder refuses the identity. Clocks, random draws and the outcome of I/O are parameters, and so is the number of calls that a stack holds. Where the program updates things in place the model is a class or a method with loops, and each such method is proved against a function of the old state; the theorems are about those functions and about runs of them.

Where a promise holds only under a condition, the condition is stated as an if-and-only-if that a caller can check:

- A rename on a well-formed tree leaves a well-formed tree exactly if it is safe or onto a parent that agrees (`MomoRename.RenameOutcome`). Safe: the source is absent, or the target's parent exists and the target is free and not below the source (for a directory) or another path (for a file). Onto a parent: a directory renamed to its own parent, when all it holds is found there, too, as for an empty directory. A directory renamed to a directory below it never comes back: it uses up any stack. Every other rename comes back if the stack holds the subtree.
- The lease protocol is safe exactly for odd cluster sizes of at least three (`LeaseRuns.SafeSizes`), given that every node sees all others alive and that a release only meets its own grant. `StrayReleaseSplits` and `PartialViewSplits` show that neither condition can be dropped. A lease counts as given up once its release is announced; `AnnouncedStillKept` shows a moment in which it is still in the holder's map and another node has won.
- A client gets the content key from any quorum of daemons exactly if none of them holds a zero share and the tag is not hashed to the identity (`Oprf.Flow`): such a daemon answers with the identity, which the decoder of the group refuses. The dealer only excludes zero coefficients, not zero shares; with the sharing [a, -a] no quorum with the first daemon succeeds (`ZeroShareFails`).
- As many different nodes as the factor asks for, or as the map has eligible entries, can be had for every factor exactly if no node of positive weight is listed twice (`Crush.SatisfiableExactly`), and then Placement answers with that many.
- A heartbeat comes back exactly if it fits the payload limit and no address is longer than 65535 bytes (`Heartbeat.HeartbeatRoundTrip`).
- Writing to the audit log keeps it accepted exactly if the clock key is above all keys in it.
- Cutting a stream is noticed exactly if it has fewer than 2^32 chunks, because the chunk count is 32 bits wide.
- A stream is refused by its own decoder exactly if the chunk size was set above 4112, up to the allowed 4128, and the plaintext is longer than 4112 bytes: the decoder takes at most 4128 sealed bytes. The comments on the constant say that it also covers the length prefix and the nonce; the code compares the sealed length alone with it.
- Replicas that receive the same version records agree in every order exactly if no record is stored behind the range of another under a composite key that is shorter than the other's prefix (`Versioning.ReplicasConverge`): the loops over the records of a key slice the next composite key to the length of the prefix, and a shorter one makes the transaction fail. `LongKeyLost` is such an input.
- A replicated version record keeps exactly one latest record per key under the condition of `Versioning.ReplicatedKeepsLatest`.
- While COMPLIANCE retention runs, a run keeps the version, its content and its retention exactly if it has no accepted lock write with an empty mode and no stored record for that version with other content (`Versioning.WriteOnceReadMany`). `EmptyModeLoses`, `MarkerLoses` and `RecordReplaces` are the gaps.
- A version under legal hold stays in every run, whoever deletes and with whatever bypass, exactly if no accepted lock write clears the hold and no record with other content is stored over it (`Versioning.LegalHoldKeeps`). GOVERNANCE retention is as good as COMPLIANCE as long as nobody uses the bypass (`GovernanceWithoutBypass`).
- Reopening a raw store is sound exactly if no live extent starts at offset 0 or another live extent lies above it, because recovery skips offset 0. Otherwise one more Put changes what Get returns (`ReopenLoses`).
- An object metadata entry with a nonempty shard key comes back exactly if the key is all zero bytes and there are no replicas, because the encoder emits the key's length in zero bytes before the key.

## Model

| member | source | states |
|---|---|---|
| MomoTree.RemoveEntry | src/momofs/momofs.go:860-868 | filtering the slice in place leaves exactly the other entries, in order |
| MomoTree.FindEntry | src/momofs/momofs.go:850-857 | an entry of the name, or none exactly if no entry has it |
| MomoTree.FindsFirst | src/momofs/momofs.go:850-857 | the entry found is the first of its name |
| MomoFs.FS.WriteManifest | src/momofs/momofs.go:267-278 | the manifest is stored under its path unless it is too large, and then nothing changes |
| MomoFs.FS.Mkdir | src/momofs/momofs.go:442-473 | the error of every case; success adds one empty directory, with every field of its entry, to a well-formed tree, keeps it well formed and changes no other path |
| MomoFs.FS.Create | src/momofs/momofs.go:477-538 | the error of every case; data above the size limit is refused and changes nothing; success gives the path an entry with this mode, time, size and hash and with the owner of the file it replaces, keeps the tree well formed and changes no other path |
| MomoTree.ReplacedInPlace | src/momofs/momofs.go:513-533 | a replaced entry keeps its place among the others, a new one comes last |
| MomoFs.FS.Remove | src/momofs/momofs.go:599-643 | only files and empty directories go, their reference with them; the tree stays well formed and no other path changes |
| MomoFs.FS.Link | src/momofs/momofs.go:798-845 | the new path resolves to the same content as the old one; the tree stays well formed and no other path changes |
| MomoFs.FS.RewriteSubtree | src/momofs/momofs.go:759-794 | the recursion, whatever the position of the two roots, and the writes it issues, up to the end of the stack |
| MomoFs.FS.Rename | src/momofs/momofs.go:647-752 | on a well-formed tree: it does not come back if it is circular, and otherwise only if the stack is too small; the tree stays well formed if and only if the rename is safe or onto a parent that agrees; a safe one that fails changes nothing, one that succeeds makes dst/s resolve exactly as src/s did for every suffix s and leaves all else alone; and both kinds put references only of stored content |
| MomoFs.FS.Run | src/momofs/momofs.go:442-845 | any sequence of operations keeps the tree well formed and its writes right, until a manifest too large to write cuts an operation short, the process dies in a rename, or a rename that is neither safe nor onto a parent that agrees is executed and breaks it |
| MomoRename.RenameKeeps | src/momofs/momofs.go:647-752 | a safe rename that ran to its end keeps unique names, a manifest for each directory entry and a matching reference for each file entry, and moves every suffix |
| MomoRename.TargetLost | src/momofs/momofs.go:647-752 | a file renamed to itself, or a directory over another one that is not its parent, leaves the target listed and not stored |
| MomoRename.BelowBreaks | src/momofs/momofs.go:647-752 | a directory renamed below itself leaves a broken tree whenever it comes back |
| MomoRename.ParentOutcome | src/momofs/momofs.go:647-752 | a directory renamed to its own parent leaves a well-formed tree if and only if what it holds agrees with what the parent holds |
| MomoRename.EmptyOntoParent | src/momofs/momofs.go:647-752 | an empty directory agrees |
| MomoRename.CircularCrashes | src/momofs/momofs.go:759-794 | renamed to a directory below it, a directory exhausts a stack of any size |
| MomoRename.OthersEnd | src/momofs/momofs.go:759-794 | every other directory rename comes back if the stack holds the subtree |
| MomoRewrite.RewriteMoves | src/momofs/momofs.go:759-794 | every manifest and file reference below the old root arrives at the same place below the new one, nothing stays behind and nothing else changes |
| MomoRewrite.RewriteClimbs | src/momofs/momofs.go:759-794 | beside or above, the recursion finds every manifest it reads, even where it has overwritten the old subtree |
| MomoRewrite.RewriteEnds | src/momofs/momofs.go:759-794 | the recursion ends unless it walks into its own writes |
| MomoRewrite.RewriteEndless | src/momofs/momofs.go:759-794 | with a chain of directories down to the new root it never does: each turn finds the chain one step further down |
| MomoLog.RewriteRight | src/momofs/momofs.go:776-788 | while a subtree moves, a reference without bytes is put only for content that is stored |
| MomoStack.LogBacked | src/momofs/momofs.go:198-278 | the right writes of a filesystem are proper operations of the store, and with any garbage collection in between the store holds exactly the tree |
| MomoStack.FileReadsBack | src/momofs/momofs.go:541-570 | reading a file of the tree from the store gives the bytes its hash stands for |
| MomoStack.ListedReadsBack | src/momofs/momofs.go:541-570 | after any run of good operations every file listed in a directory reads back from the store, and its bytes have the hash and the size of its entry |
| MomoStack.DirReadsBack | src/momofs/momofs.go:226-248 | reading a directory gives its manifest |
| MomoStack.LinksCounted | src/momofs/momofs.go:796-831 | the reference count of a hash covers every path that links to it |
| Oprf.GenerateShares | src/crypto/oprf.go:27-55 | share i is the dealer's polynomial at i + 1; bad thresholds are refused |
| Oprf.EvalByPowers | src/crypto/oprf.go:41-48 | summing powers gives the Horner value of the polynomial |
| Oprf.PrefixProducts | src/crypto/oprf.go:249-254 | the running products of the scalars, each in its own cell |
| Oprf.BackwardPass | src/crypto/oprf.go:256-267 | walking back over the aliased prefix cells leaves in each the inverse of its own scalar |
| Oprf.BatchInvert | src/crypto/oprf.go:240-270 | one inversion gives every separate inverse if no scalar is zero, and zero everywhere if one is |
| Oprf.VerifyUnique | src/crypto/oprf.go:282-291 | accepts exactly the evaluations with pairwise different share indexes |
| Oprf.LagrangeAtZero | src/crypto/oprf.go:185-235 | the coefficients are the Lagrange basis at zero of distinct points |
| Oprf.UnitSum | src/crypto/oprf.go:185-235 | the Lagrange basis at zero sums to one for distinct points |
| Oprf.Reconstruct | src/crypto/oprf.go:124-167 | interpolating any polynomial of degree below the number of distinct points gives its constant term |
| Oprf.Blind | src/crypto/oprf.go:93-102 | an empty tag is refused; otherwise the tag's element is scaled by the blind |
| Oprf.EvaluateShare | src/crypto/oprf.go:107-117 | a daemon answers with its share times the blinded element, or refuses malformed input and the identity |
| Oprf.Finalize | src/crypto/oprf.go:172-181 | the key is the digest of the element scaled by the inverse of the blind |
| Oprf.CombineUnblind | src/crypto/oprf.go:124-167 | the error cases, and: honest evaluations from any quorum give the key of f(0), whatever the blind, if and only if none of them is the identity |
| Oprf.Flow | src/crypto/oprf.go:27-181 | end to end: any at least t distinct daemons yield the content key of the secret f(0) if no share among them is zero and the tag is not hashed to the identity, and an encoding error otherwise |
| Oprf.FirstShareZero | src/crypto/oprf.go:27-55 | the sharing [a, -a] of any secret gives the first daemon a zero share |
| Oprf.ZeroShareFails | src/crypto/oprf.go:124-167 | with that sharing no quorum with the first daemon gets a key, whatever the tag and the blind |
| Crush.SortStable | src/common/crush.go:133-135 | sorts in place into the stable descending order |
| Crush.SortedIsStable | src/common/crush.go:130-135 | rows of equal score keep their declaration order |
| Crush.ScoreTable | src/common/crush.go:71-126 | exactly the nodes of positive weight, in declaration order, and whether a domain is configured |
| Crush.DomainPass | src/common/crush.go:152-165 | the first pass takes the best row of each domain, in order, up to k |
| Crush.FillPass | src/common/crush.go:170-183 | the fallback completes the selection with the best remaining rows |
| Crush.TopRows | src/common/crush.go:145-151 | without domains the best k scores are selected, which is what the passes would select |
| Crush.Placement | src/common/crush.go:48-186 | answers exactly for a positive factor, a hash and an eligible node, with eligible nodes, and with the selection if none is listed twice |
| Crush.DuplicatesFallShort | src/common/crush.go:71-96 | with a node listed twice no answer of different nodes reaches the number of eligible entries |
| Crush.SatisfiableExactly | src/common/crush.go:71-185 | for every factor min(rf, eligible entries) different nodes of positive weight exist if and only if none is listed twice, and then the selection is that many |
| Crush.PickedIsOptimal | src/common/crush.go:137-144 | the greedy selection equals brute force: no set of its size has more domains, and none with as many has a greater total score |
| Crush.PlacementIsOptimal | src/common/crush.go:68-185 | min(rf, eligible) distinct nodes of positive weight, optimal in domains and then in score, best score first |
| Crush.PlacementOrder | src/common/crush.go:152-185 | the answer lists first nodes of different domains by score, as many as there are domains, and then the others by score |
| Crush.RowsInOrder | src/common/crush.go:71-126 | the score table follows the order of the cluster map |
| Crush.MinimalMovement | src/common/crush.go:71-183 | with one node more, the others placed were placed before and at most one gives way; a node that is not selected can go without any change, order included |
| Lease.MajorityQuorum | src/p2p/lease.go:296-301 | a strict majority of the other nodes, zero for none |
| Lease.LeaseManager.HandleLeaseRequest | src/p2p/lease.go:137-165 | denied with expiry 0 while a grant of the key is in force, otherwise recorded and granted |
| Lease.LeaseManager.HandleLeaseGrant | src/p2p/lease.go:168-188 | an answer reaches the waiting call unless its channel is full |
| Lease.LeaseManager.HandleLeaseRelease | src/p2p/lease.go:191-201 | the grant of the key goes, whoever it was for |
| Lease.LeaseManager.CleanupExpired | src/p2p/lease.go:98-116 | a grant or lease stays, unchanged, if and only if it has not expired |
| Lease.CleanupSpares | src/p2p/lease.go:98-116 | a sweep anywhere in the cluster takes no unexpired lease from its holder |
| Lease.LeaseStays | src/p2p/lease.go:98-342 | through any event of the cluster a holder keeps its lease if and only if it does not give it up and its time does not run out |
| Lease.LeaseManager.BeginAcquire | src/p2p/lease.go:205-257 | the partition guard, the quorum over the other alive peers, the fresh id and the pending call |
| Lease.LeaseManager.Collect | src/p2p/lease.go:263-286 | one received answer counts if granted, and the quorum turns the call into a held lease |
| Lease.LeaseManager.ReleaseByKey | src/p2p/lease.go:327-342 | one held lease of the key is given up if there is one, and no other |
| Lease.AwaitQuorum | src/p2p/lease.go:259-274 | won exactly if quorum grants arrive before a timeout or a stop |
| Lease.QuorumsMeet | src/p2p/lease.go:296-301 | for odd sizes of at least three any two quorums share a voter |
| Lease.StepKeeps | src/p2p/lease.go:98-342 | every step of the cluster keeps the invariant: counted grants come from distinct voters, and an unexpired, unreleased vote is in force at its voter |
| Lease.NoTwoHolders | src/p2p/lease.go:137-301 | no run of an odd cluster of at least three nodes ever has two unexpired leases for one key whose release was not announced |
| LeaseRuns.EvenSplits | src/p2p/lease.go:296-301 | for every even size, a run that ends with two holders |
| LeaseRuns.AloneTwice | src/p2p/lease.go:296-301 | a single node can hold the same key twice |
| LeaseRuns.SafeSizes | src/p2p/lease.go:137-301 | two holders are unreachable if and only if the size is odd and at least three |
| LeaseRuns.StrayReleaseSplits | src/p2p/lease.go:191-201 | a late release of another lease leads to two holders |
| LeaseRuns.PartialViewSplits | src/p2p/lease.go:205-225 | two nodes that see different peers alive both win |
| LeaseRuns.AnnouncedStillKept | src/p2p/lease.go:304-324 | between the announcement of a release and its end at the holder, two nodes can have the lease in their maps |
| Cas.CASStore.Put | src/storage/storage.go:385-529 | success, under exactly the stated conditions, maps the name with the given time and path and adds one reference to the hash and to no other; failure leaves the metadata alone, but may leave the blob |
| Cas.CASStore.Get | src/storage/storage.go:532-613 | the tombstone, mapping, bytes and metadata are consulted in this order |
| Cas.CASStore.Delete | src/storage/storage.go:824-910 | the name goes with its path and time, its tombstone comes, its hash loses one reference, and an orphaned blob goes with its metadata if the backend manages; all other hashes stay as they were |
| Cas.CASStore.ApplyTombstone | src/storage/gc.go:194-279 | an older or equal tombstone changes nothing, a newer one removes the name |
| Cas.CASStore.SweepOrphanedBlobs | src/storage/gc.go:85-129 | exactly the reached 24-byte entries without references go |
| Cas.CASStore.SweepExpiredTombstones | src/storage/gc.go:132-167 | a name keeps its tombstone if and only if that is not older than the retention |
| Cas.GetReadsView | src/storage/storage.go:532-613 | Get is a lookup in the plain name-to-content map and in the labels of the names, sizes, paths and times included |
| Cas.PutRefines | src/storage/storage.go:385-529 | a Put sets its name in the plain map or, failing, changes nothing there; the invariant stays |
| Cas.RemovalRefines | src/storage/storage.go:824-910 | a Delete removes its name from the plain map only; no other name loses its bytes |
| Cas.TombstoneRefines | src/storage/gc.go:194-279 | so does a tombstone, applied or ignored |
| Cas.SweepRefines | src/storage/gc.go:85-129 | a sweep leaves the plain map alone |
| Cas.ExpiryRefines | src/storage/gc.go:132-167 | so does the expiry of tombstones |
| Cas.StepRelabels | src/storage/storage.go:488-529 | every operation changes the path and the time of the name it sets or removes, and of no other |
| Cas.StepCounts | src/storage/storage.go:463-486 | a successful Put adds one to the count of its hash, the removal of a name takes one from that of the name's hash, and all other counts stay |
| Cas.RunRefines | src/storage/gc.go:65-279 | every run keeps reference counts at least the number of names, names and tombstones apart and mapped bytes present, and Get answers from the plain map and its labels, whose every change is the one of the operation |
| Cas.TombstonesSettle | src/storage/gc.go:194-279 | receiving tombstones ends with per-name maxima, those names unmapped and each count reduced once per name lost |
| Cas.TombstonesConverge | src/storage/gc.go:194-279 | the same tombstones in any order and repetition give one state |
| AuditLog.Log.WriteAuditLog | src/storage/storage.go:1233-1288 | the entry is chained to the last one and stored under its time |
| AuditLog.Log.VerifyAuditLog | src/storage/storage.go:1292-1342 | accepts exactly the logs whose every entry is linked and hashed |
| AuditLog.WriteAccepted | src/storage/storage.go:1233-1342 | a write keeps an accepted log accepted if and only if its key is above all others |
| AuditLog.RunAccepted | src/storage/storage.go:1233-1342 | every run at strictly increasing times is accepted, and row i holds report i and its time |
| AuditLog.ForwardIsLater | src/storage/storage.go:1251-1288 | from 1970 on the keys rise exactly if the clock does |
| AuditLog.SameEndSameLog | src/storage/storage.go:1292-1342 | accepted logs with the same last hash are equal entry by entry |
| Stream.Cipher.SetStreamChunkSize | src/crypto/crypto.go:76-82 | sizes from 512 to 4128 are set, others leave the old one |
| Stream.Cipher.EncryptStream | src/crypto/streaming.go:125-196 | a header with the chunk size in use, which is the configured one where it is allowed, the seed, one frame per chunk, all but the last chunk full, and a footer with the wrapped count |
| Stream.FramesAre | src/crypto/streaming.go:159-218 | chunk i is sealed without additional data under the seed and i, and the count under the footer's index and additional data |
| Stream.FullChunks | src/crypto/streaming.go:159-189 | every chunk but the last has exactly the chunk size |
| Stream.Cipher.SealFrame | src/crypto/streaming.go:201-218 | a frame sealed under the nonce rebuilt in the shared buffer |
| Stream.Cipher.DecryptStreamV4 | src/crypto/streaming.go:248-325 | the decoder's status and output for any bytes |
| Stream.Cipher.OpenFrame | src/crypto/streaming.go:296-315 | a text is tried as the next chunk and then as the footer |
| Stream.Cipher.DecryptStream | src/crypto/streaming.go:224-242 | dispatch on the version byte; other versions and chunk sizes out of range are refused, shorter headers fail to read |
| Stream.OnlyWholeStream | src/crypto/streaming.go:248-325 | whatever bytes follow, success means the stream's own frames and footer were read and the whole plaintext emitted; otherwise a prefix of it was |
| Stream.AcceptsExactly | src/crypto/streaming.go:248-325 | the accepted bytes are exactly those beginning with all frames and the footer |
| Stream.CutStream | src/crypto/streaming.go:201-325 | the first m frames with the footer are accepted exactly if the number dropped is a multiple of 2^32 |
| Stream.CutAnywhere | src/crypto/streaming.go:248-325 | cut at the end of a frame a stream is reported as truncated, cut within one as a failed read, and exactly the chunks of the whole frames are emitted |
| Stream.OtherFrame | src/crypto/streaming.go:248-325 | any other text in place of frame m is reported as tampering after exactly m chunks |
| Stream.BadLength | src/crypto/streaming.go:274-289 | a frame length of zero or above the limit is refused as malformed |
| Stream.TruncationNoticed | src/crypto/streaming.go:248-325 | truncation is always noticed if and only if there are fewer than 2^32 chunks |
| Stream.ChunksJoin | src/crypto/streaming.go:159-189 | the chunks are the plaintext |
| Stream.StreamRoundTrip | src/crypto/streaming.go:125-325 | a stream decrypts to its plaintext, and is refused if and only if the chunk size was set above 4112 and the plaintext is longer than 4112 bytes |
| Envelope.WriteEnvelopeHeader | src/crypto/envelope.go:102-124 | the self-describing header, or only the magic for an oversized key |
| Envelope.EncryptEnvelope | src/crypto/envelope.go:66-99 | the refused inputs, and the header with the wrapped key before the stream |
| Envelope.DecryptEnvelope | src/crypto/envelope.go:130-194 | the outcome of every malformed header, and the content under the unwrapped key |
| Envelope.EnvelopeRoundTrip | src/crypto/envelope.go:66-194 | every plaintext and key id of up to 256 bytes comes back |
| Envelope.EnvelopeAcceptsExactly | src/crypto/envelope.go:130-194 | behind its own headers only the whole content is accepted |
| VersionKeys.RangeIsKey | src/storage/versioning.go:51-53 | the composite keys that begin with the prefix of a key are those of its versions |
| VersionKeys.WalkStops | src/storage/versioning.go:174-192 | the walk over the versions of a key sees all of them, and it fails if and only if the first composite key behind them is shorter than the prefix |
| Versioning.VersionStore.PutVersion | src/storage/versioning.go:173-198 | all records of the key lose the flag and the new one is stored, or the failed walk is rolled back |
| Versioning.VersionStore.RecordVersion | src/storage/versioning.go:120-170 | a local record or delete marker becomes the latest of its key, or nothing changes if the walk fails |
| Versioning.VersionStore.PutVersionRecord | src/storage/versioning.go:204-242 | an identical record changes nothing, one at least as new takes the flag, another is stored without it, and a failed walk is rolled back |
| Versioning.VersionStore.LatestVersion | src/storage/versioning.go:267-287 | the record no other of its key is newer than, by time and then by id, or the error of a failed walk |
| Versioning.VersionStore.DeleteVersion | src/storage/versioning.go:444-495 | missing versions are refused; a data version under legal hold is refused at any time, bypass or not, under COMPLIANCE exactly before the deadline, under GOVERNANCE exactly before the deadline without bypass; removing the latest re-points the flag to the newest left, or is rolled back if the walk fails |
| Versioning.VersionStore.MutateVersionLock | src/storage/objectlock.go:142-173 | a lock write is merged, validated, checked and stored, or leaves the record alone; a retention write keeps the hold and a hold write the retention |
| Versioning.ReplicatedKeepsLatest | src/storage/versioning.go:219-242 | exactly when a replicated record keeps one latest record per key |
| Versioning.DeleteKeepsLatest | src/storage/versioning.go:444-495 | deletion keeps exactly one latest record per key that has any |
| Versioning.ReplicaSettles | src/storage/versioning.go:204-242 | a replica whose records do not obstruct one another ends with all of them and the flag on the newest of each key |
| Versioning.ReplicasConverge | src/storage/versioning.go:204-287 | the same records in any order and repetition give equal tables if and only if none obstructs another |
| Versioning.LongKeyLost | src/storage/versioning.go:272 | a key of 40 bytes and a later key of one byte: one order stores both records, the other only one |
| Versioning.RunKeepsLatest | src/storage/versioning.go:120-495 | every mixed run keeps exactly one latest record per key that has any, failed walks included |
| Versioning.WriteOnceReadMany | src/storage/objectlock.go:142-254 | under COMPLIANCE retention until D, a run before D keeps the version, its content and its retention, bypass or not, if and only if it has no accepted lock write without a mode and stores no record for the version with other content |
| Versioning.EmptyModeLoses | src/storage/objectlock.go:198-200 | a lock write with an empty mode and a nonzero deadline is accepted, and then the version can be deleted |
| Versioning.MarkerLoses | src/storage/versioning.go:219-242 | a replicated delete marker with the id of the version is stored over it and can be deleted whatever the lock |
| Versioning.RecordReplaces | src/storage/versioning.go:219-242 | a replicated record with the id of the version replaces its content before the deadline, under an unchanged lock |
| Versioning.LegalHoldKeeps | src/storage/objectlock.go:48-254 | under legal hold every run keeps the version, its content and its hold, at any time and with any bypass, if and only if it has no accepted lock write that clears the hold and stores no record for the version with other content |
| Versioning.GovernanceWithoutBypass | src/storage/objectlock.go:186-254 | as long as nobody uses the bypass, GOVERNANCE retention keeps a version under the same if-and-only-if as COMPLIANCE |
| Versioning.BypassLoses | src/storage/objectlock.go:228-254 | with the bypass, and only with it, a version under GOVERNANCE retention is deleted before its deadline |
| ObjectLock.DeniesExactly | src/storage/objectlock.go:52-62 | what a hold, each mode and no mode deny, to whom and until when |
| ObjectLock.ComplianceWrites | src/storage/objectlock.go:176-210 | the verdict on every write during COMPLIANCE retention |
| ObjectLock.GovernanceWrites | src/storage/objectlock.go:176-210 | during GOVERNANCE retention a well-formed write is refused exactly if it shortens the deadline without bypass |
| ObjectLock.FreeWrites | src/storage/objectlock.go:176-210 | without running retention every well-formed write is accepted |
| ObjectLock.ComplianceKept | src/storage/objectlock.go:193-210 | an accepted write during COMPLIANCE retention keeps it, no shorter, if and only if the written mode is not empty |
| ObjectLock.EmptyModeUnlocks | src/storage/objectlock.go:193-210 | an empty mode with a nonzero deadline is accepted and unlocks the version |
| Listing.ScanVersionEntries | src/storage/versioning.go:355-381 | exactly the versions of the bucket under the prefix |
| Listing.SortVersionEntries | src/storage/versioning.go:404-414 | sorts in place by key ascending and newest first |
| Listing.SortedFacts | src/storage/versioning.go:404-414 | keys ascend, within a key times descend and then ids, and the entries are the same |
| Listing.ResumeAfterMarker | src/storage/versioning.go:388-401 | behind the marked entry, or from the first larger key |
| Listing.Paginate | src/storage/versioning.go:417-433 | at most maxKeys entries, with markers at the last one if more follow |
| Listing.ListVersions | src/storage/versioning.go:334-349 | a page of the one sorted listing of the table |
| Listing.ResumePruned | src/storage/versioning.go:383-401 | if the marked version is gone, exactly the entries of larger keys are left |
| Listing.PageInOrder | src/storage/versioning.go:334-433 | any page holds versions of the bucket under the prefix, in S3 order |
| Listing.PageFrom | src/storage/versioning.go:334-433 | a page is the next maxKeys entries, or all if that is not positive, and the markers of a truncated page resume right behind it |
| Listing.FollowMarkers | src/storage/versioning.go:334-433 | following the markers ends and yields all versions, once each and in order, for every maxKeys of at least 1 |
| RawStore.RawBlobStore.CopyIn | src/storage/raw_blobstore.go:151-172 | the chunked loop writes the content at the offset and nothing below it |
| RawStore.RawBlobStore.PutBlob | src/storage/raw_blobstore.go:114-194 | the status of every case; success appends an extent, and live extents stay disjoint, below the next offset and filled with their bytes |
| RawStore.RawBlobStore.GetBlob | src/storage/raw_blobstore.go:197-240 | reads the extent, which on a valid store holds exactly the nonempty bytes that were put |
| RawStore.RawBlobStore.DeleteBlob | src/storage/raw_blobstore.go:245-271 | forgets one blob and keeps the others |
| RawStore.Recover | src/storage/raw_blobstore.go:68-88 | the greatest end among the entries the scan counts |
| RawStore.RecoverySound | src/storage/raw_blobstore.go:68-88 | recovery is sound if and only if no live extent starts at 0 or another lies above it |
| RawStore.RawBlobStore.Reopen | src/storage/raw_blobstore.go:35-100 | reopening keeps the store valid under exactly that condition |
| RawStore.RawBlobStore.ReopenLoses | src/storage/raw_blobstore.go:68-172 | from every store that does not meet it, reopening and one more Put change what Get returns for a blob put before |
| FileList.EncodeFileMetadataList | src/server/query_handler.go:166-208 | the buffer holds the count and the entries within the length limits |
| FileList.DecodeFileMetadataList | src/server/query_handler.go:211-310 | the parsed list, or the error of the first entry that fails |
| FileList.FileListRoundTrip | src/server/query_handler.go:166-310 | the length-filtered list comes back if and only if no entry has a line break, path characters in its hash, a refused name or a size out of range |
| FileList.FilteredExactly | src/server/query_handler.go:166-180 | the entries within the length limits, in their order |
| FileList.FileLayout | src/server/query_handler.go:190-206 | name, hash, size, path and time one behind the other, the strings behind their lengths |
| Heartbeat.Encode | src/p2p/types.go:191-210 | the buffer holds the count and the peers |
| Heartbeat.Decode | src/p2p/types.go:213-250 | the parsed peers, or the error of malformed data |
| Heartbeat.PeerLayout | src/p2p/types.go:191-210 | id, length and address of a peer |
| Heartbeat.HeartbeatRoundTrip | src/p2p/types.go:191-250 | a heartbeat comes back if and only if it fits the payload limit and no address is longer than 65535 bytes; one above the limit is refused |
| Heartbeat.LongAddressLost | src/p2p/types.go:191-250 | a heartbeat of one peer with an address of 65536 bytes comes back as that peer without an address |
| ObjectMeta.Encode | src/storage/storage.go:62-96 | the fixed part, the clock, the padded shard key and the replicas |
| ObjectMeta.Decode | src/storage/storage.go:101-171 | the two legacy forms and the current one, with the error of truncated data |
| ObjectMeta.NotLegacy | src/storage/storage.go:101-121 | no encoded entry is taken for a legacy form, whatever its clock |
| ObjectMeta.MetaLayout | src/storage/storage.go:62-96 | the parts of an entry in their order, with the zero bytes in front of the shard key |
| ObjectMeta.LegacyRecord | src/storage/storage.go:101-109 | a 24-byte record decodes to its size, count and deletion time |
| ObjectMeta.LegacyDecimal | src/storage/storage.go:110-115 | the decimal text of any number decodes to that size with one reference |
| ObjectMeta.MetaRoundTrip | src/storage/storage.go:62-171 | an entry comes back if and only if its shard key is empty, or all zero bytes without replicas |
| Codecs.ManyBack | src/server/query_handler.go:229-308 | a list of values written one behind the other is read back if and only if all of them are acceptable |
| Bandwidth.BandwidthLimiter.Refill | src/server/bandwidth.go:31-38 | tokens earned since the last call, at most the burst |
| Bandwidth.BandwidthLimiter.TakeTurn | src/server/bandwidth.go:42-51 | after the refill the budget is taken, and no more, exactly if it is there |
| Bandwidth.BandwidthLimiter.WaitN | src/server/bandwidth.go:42-64 | the first turn that finds the budget takes it, earlier ones take nothing |
| Bandwidth.WaitIsExact | src/server/bandwidth.go:52-53 | the computed wait is the least after which the budget is there |
| Bandwidth.RateBound | src/server/bandwidth.go:25-64 | bytes granted between two attempts, both included, never exceed the burst and the rate times the time in between |
| Bandwidth.Chunk | src/server/bandwidth.go:119-125 | a chunk is 64 KiB, or the whole bytes of a smaller burst, and at least one byte |
| Bandwidth.WriteThrottled | src/server/bandwidth.go:114-140 | the chunks concatenate to the data, or to a proper prefix when the budget ends |

## Left out

- MomoFs.FS.Rename: promises nothing after a manifest grew too large, where the program stops half way, nor about what is left when the process dies.
- MomoFs.FS.Create: the size limit of manifests is an arbitrary predicate on manifests, not their JSON length. It takes every cleaned path as one the store accepts, and so do Link and Rename of a file: a name in the root directory of nothing but white space, which the store refuses with EINVAL, is not part of this model.
- MomoFs caches, the fallback to natively written objects, SetAttr, ReadDir, Open and ReadAt, and path cleaning.
- MomoStack.LogBacked: takes the store's operations as not failing, and the keys of the paths in use as distinct.
- Oprf.CombineUnblind: takes share indexes below 2^63 and a nonzero blind, as the program's integers and random scalars are.
- Crush.Placement: takes score as an arbitrary function of the node, so the hash, logarithm and floating-point scoring are not modelled.
- Lease transport, payload encoding and the wall clock: messages are delivered at most once (releases any number of times), and all nodes share one clock.
- Cas.CASStore.Put: models Put without distributed metadata (vector clock, shard key, replicas), and reference counts as unbounded integers.
- Cas.CASStore.Get: takes a blob as present or absent; verified and degraded reads are not part of this model.
- Cas.CASStore.Delete: a failed blob deletion leaves the bytes in place, and bbolt itself does not fail.
- Quarantine, RepointNamespace, DropBlob, degraded reads and the metadata cache of the store.
- That garbage collection removes every orphan: the sweep only looks at 24-byte entries, which are no longer written.
- AuditLog.Log.WriteAuditLog: fields are identified with what JSON keeps of them, and JSON with its injective content.
- Stream.Cipher.DecryptStream: hands versions 2 and 3 to older decoders, which are not part of this model.
- Key derivation, tenant keys and IsEnvelope.
- Versioning.VersionStore.PutVersion: takes bucket names and object keys without NUL bytes, which separate them in the composite key; stored records are never corrupt.
- RawStore.RawBlobStore.PutBlob: the device is an array, so a growing file is one that is large enough.
- FileList.DecodeFileMetadataList: the path check of names is an arbitrary set of accepted names.
- RPC, query, lease and load payloads: fixed layouts that would only add easy round trips.
- Bandwidth rounding of durations and floats: the bucket is over real numbers; a burst below one byte never grants a chunk.
- Gossip, metadata ring, rebalancing, volume store, transports, FUSE, S3 client, configuration and command line.
