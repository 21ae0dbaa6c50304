# A model of the transparency log and of the relay's mailboxes

This project models two parts of the system and proves what they are for.

**The transparency log** (`kt/`). An append-only log of entries under two Merkle trees: an RFC 9162
log tree over all entries, and a sparse Merkle map from each label to its latest entry. The log signs
heads over both roots; clients check answers against a head, mirrors hold a whole copy and refuse a log
that contradicts itself, and in the handle log every label belongs to whoever claimed it.

**The relay's mailboxes** (`server/server.js`, the in-memory coordinator). Envelopes queued for routing
ids, with owners, flags, totals, admission of new mailboxes, acknowledgements, expiry and flushing.

## How it is modelled

- Every SHA-256 value is a free term (`Digests.dfy`), one constructor for each kind of input, so equal
  digests have equal inputs and the kinds never meet; a sibling handed to a verifier is any digest.
  A signature is a term that names what it is over. Ed25519's verification, JSON.parse, JSON.stringify,
  the label of an account and the commitment to a recovery key are parameters, and a contract says what
  it needs of them.
- Labels are bit sequences. The map's depth is a parameter D of every map theorem; the log uses 256.
- Objects that update their fields are classes with those fields; loops are loops. A read or a write
  of a file may be short wherever the source allows for it; what the disk does in an operation (how much
  each write puts, which of fsync, truncation and rename throws) is a parameter of it.
- A directory is the list of all the states it has been in (`FileStore.Directory`): bytes land one at a time,
  a head file is replaced at once. A crash leaves any one of them, so what an operation promises of a crash is said
  of every state it adds. The heads the log's key has signed stand beside the files, and outlive them.
- The relay keeps a history of its events, a frame put on the wire among them. A flush runs the calls that
  arrive in its waits, and its contract says of every event since it began who did it.
- The clock is a parameter of each operation, read once in it, but at each gate of a publish; times are whole
  milliseconds and tokens are reals.

| files | what they model |
|---|---|
| Digests, Options, JsMaps, Tokens, Totals | terms, JavaScript maps in insertion order, refill arithmetic, sums over queues |
| LogTree, PowerTest, LogVerify, MerkleLog | kt/lib/merkle.js: the RFC recursions, the verifier loops, the memoising prover |
| SparseMap, CompactMap, MapVerify, PrefixText | kt/lib/smt.js: the full-depth tree, the compact tree that refines it, proofs, buckets, prefixes |
| Base64, StrongKeys, RecordCodec, RecordText, OwnerRule | kt/lib/handles.js: canonical base64url, strong keys, the record codec and its JSON text, the owner rule |
| FileStore, LogState, KtLog, Answers, LogLives | kt/lib/log.js and kt/tools/repair.js: the files, the log's state, its heads and starts, its answers and their reader, its lives from crash to crash |
| MirrorState, Mirror, MirrorLives | kt/lib/mirror.js: loading, syncing, committing; its syncs and crashes one after another |
| LineCodec | a codec for lines, showing that what the log and the mirror ask of JSON can be met |
| RateLimits, PublishGates | kt/server.js: token buckets; the gates of a publish and the publish behind them |
| Admission, Mailbox, EntryKeys, RelayState, FlushOrder, Coordinator | server/server.js: the in-memory coordinator |

## What turned out not to hold as it reads

- `verifyConsistency` tests for a power of two on 32 bits. Completeness holds exactly for the first sizes the
  test does not misread, among them every size below 2^32 (`PowerTest.ExactInWord`); 2^32 + 1 is misread
  (`PowerTest.MisreadExample`), and `LogVerify.VerifyConsistency` states the exact condition.
- An acknowledgement names an envelope by a key built from ids joined with `:` and `#`, and with those
  characters in an id it can find another one (`EntryKeys.ConfusedExamples`). `EntryKeys.CandidateExact`
  says exactly which: an attributed envelope of another id exactly if the id that is acknowledged is its id, `:` and
  its sender; a sealed one exactly if one of the two ids is the other with `#` and a slot number, the one in
  its own key or the one that is tried. So an attributed acknowledgement without `:` is never confused, nor a sealed one
  where neither id has `#` (`EntryKeys.Unconfused`).
- `setIntro` keeps the unowned total exact unless the owner list keeps nobody (a cap of zero, or a negative age): then it
  forgets the owner it has just claimed, and the total is exact only if the mailbox was owned before or holds
  nothing. `Coordinator.MemoryCoordinator.SetIntro` states that as an if-and-only-if while the clock runs forward, and
  `Coordinator.BooksGoWrong` is a relay where it fails. The flag cap must be at least one, or its
  eviction loop does not end.
- The mirror means a misshapen answer never to poison it. A consistency proof that is an array of strings is taken
  for a proof whatever they say (a null or a number in it is an ordinary error), so one that a cache cut short poisons the mirror
  of an honest log (`Mirrors.CutProof`). With an honest head and faithful pages a sync poisons exactly if the proof has the right shape and
  is not the log's own (`Mirrors.Mirror.Sync`, `Mirrors.ProofDecides`). An older head poisons too.
- A mirror that crashes in its very first commit leaves entries without a head, which `load` refuses
  (`Mirrors.Mirror.Load` says exactly when a directory without a head opens).
- `waitMs` answers 0 for a key without a bucket even when the reserve can never be met; it is the least wait exactly
  where 1 + reserve is at most the bucket, and where it is more no wait is enough (`RateLimits.RateLimiter.WaitMs`,
  `RateLimits.NoWaitExample`).
- A publish that a gate refuses is meant to leave no trace. A limiter that is full drops another key's bucket to make room
  for a new key, and the refund does not bring it back: nobody can ever tell exactly if no key was dropped or the one that was had a
  full bucket (`PublishGates.UnpaidExact`); `PublishGates.SpentAgain` is a refusal after which a spent bucket is full.
- A bucket is meant to count publishes exactly, and a publish that throws to have written nothing. Where the entry is
  written and its head is not, the gates are given back all the same: a bucket counts what the log grew by exactly if that did not
  happen (`PublishGates.CountsExact`).
- `append` leaves the file as it was unless the truncation throws as well. Then the process goes on, and the next
  entry, which is acknowledged, is spliced onto the torn line: unless the tear is empty, or the two lines
  parse as one, no later start succeeds, and a repair finds nothing to cut (`LogLives.TornThenAppended`, `FileStore.SplicedLine`).

## Model

| member | source | states |
|---|---|---|
| `LogTree.PathComplete` | kt/lib/merkle.js:100-115 | the audit path of a leaf, folded the way RFC 9162 section 2.1.3.2 folds it, gives the root of the tree |
| `LogTree.PathSound` | kt/lib/merkle.js:151-173 | a path and leaf that fold to the root of a tree are its leaf at that index and its audit path |
| `LogTree.PathLength` | kt/lib/merkle.js:100-115 | the audit path in a tree of at most 2^b leaves has at most b hashes |
| `LogTree.SubProofComplete` | kt/lib/merkle.js:128-142 | the consistency proof of a prefix folds to the roots of both trees |
| `LogTree.SubProofSound` | kt/lib/merkle.js:176-211 | whatever folds to the true second root is the proof, and the first root it gives is the true one |
| `LogTree.MthInjective` | kt/tools/verify_vectors.py:94-101 | two trees of one size with one root have the same leaves |
| `LogTree.AsDefined` | kt/lib/merkle.js:60-142 | the root, the path and the proof satisfy the equations of sections 2.1.1, 2.1.3.1 and 2.1.4.1 of RFC 9162, k the largest power of two below the size |
| `LogTree.SevenLeaves` | kt/lib/merkle.js:60-142 | the seven-leaf tree of section 2.1.5 of RFC 9162: its root, its paths and its proofs, hash by hash |
| `LogVerify.VerifyInclusion` | kt/lib/merkle.js:151-173 | the loop over fn, sn and r accepts exactly what the recursion over the tree accepts |
| `LogVerify.VerifyConsistency` | kt/lib/merkle.js:176-211 | the loop accepts exactly the consistent pairs of roots, except a first size that its 32-bit power-of-two test misreads |
| `LogVerify.InclusionExact` | kt/lib/merkle.js:151-173 | against a true root, only the leaf at the index, with its audit path |
| `LogVerify.ConsistencyExact` | kt/lib/merkle.js:176-211 | against a true second root, for 0 < m <= n: only the true root at m, with the proof, both ways |
| `LogVerify.ConsistencyFromEmpty` | kt/lib/merkle.js:176-181 | from size 0 the empty proof and only it, whatever the roots |
| `PowerTest.ExactInWord` | kt/lib/merkle.js:182 | the test n & (n - 1) decides powers of two below 2^32 |
| `PowerTest.Pow2Passes` | kt/lib/merkle.js:182 | a power of two passes it at every size |
| `PowerTest.MisreadExample` | kt/lib/merkle.js:182 | 2^32 + 1 passes it and is no power of two |
| `MerkleLogs.MerkleLog.Append` | kt/lib/merkle.js:52-57 | one leaf more, last, and the memo still true |
| `MerkleLogs.MerkleLog.HashRange` | kt/lib/merkle.js:65-87 | the memoised hash of a range is the RFC hash of those leaves, and what it remembers stays so |
| `MerkleLogs.MerkleLog.RootAt` | kt/lib/merkle.js:90-93 | the root at any size the log had, null for any other |
| `MerkleLogs.MerkleLog.InclusionProof` | kt/lib/merkle.js:100-115 | the audit path of the RFC, null out of range |
| `MerkleLogs.MerkleLog.InclusionProofs` | kt/lib/merkle.js:122-125 | the batched paths are the ones asked for one at a time |
| `MerkleLogs.MerkleLog.ConsistencyProof` | kt/lib/merkle.js:128-142 | the consistency proof of the RFC, null out of range |
| `MerkleLogs.MemoBound` | kt/lib/merkle.js:65-87 | the memo holds fewer entries than the log has leaves |
| `SparseMap.CanonInjective` | kt/tools/verify_vectors.py:183-195 | two maps with one root hold the same labels with the same entries |
| `SparseMap.SubExact` | kt/lib/smt.js:228-236 | the labels listed below a path are exactly the ones of the map, each with its entry |
| `SparseMap.SubAscending` | kt/lib/smt.js:228-236 | and they are in label order |
| `SparseMap.ChainIsCanon` | kt/lib/smt.js:76-82 | the chain of one label is the hash of the full-depth tree that holds only it |
| `SparseMap.MapRootIsCanon` | kt/tools/verify_vectors.py:183-195 | the reference recursion over the entries gives the same root |
| `SparseMap.TwoBits` | kt/lib/smt.js:56-101 | a map of depth two with one label, hash by hash |
| `CompactMap.WfIsCanon` | kt/lib/smt.js:84-101 | a compact tree that holds a map has the hash of the full-depth tree, so the order of insertion is not seen |
| `CompactMap.WfUnique` | kt/lib/smt.js:239-258 | there is one compact tree for a map |
| `CompactMap.ChainHash` | kt/lib/smt.js:76-82 | the loop computes the chain |
| `CompactMap.SplitSingle` | kt/lib/smt.js:239-258 | the split of two labels that share a prefix ends and gives the tree of both |
| `CompactMap.Insert` | kt/lib/smt.js:239-258 | the new tree holds the map with the label set |
| `CompactMap.Collect` | kt/lib/smt.js:228-236 | all the leaves in order, or a stop exactly past the bound |
| `CompactMap.SparseMerkleMap.Set` | kt/lib/smt.js:124-128 | one label set, a label of the wrong length refused, the tree still that of the map |
| `CompactMap.SparseMerkleMap.Root` | kt/lib/smt.js:103-113 | the root of the full-depth tree over the current map |
| `CompactMap.SparseMerkleMap.Proof` | kt/lib/smt.js:134-162 | for any label: what the map holds for it, and exactly its non-empty siblings with their bitmap |
| `CompactMap.SparseMerkleMap.Bucket` | kt/lib/smt.js:179-220 | null exactly past the bound, else every label with the prefix, the hash below it and the siblings of its path |
| `MapVerify.VerifyMapProof` | kt/lib/smt.js:264-277 | accepts exactly the proofs whose siblings are all used and fold to the root |
| `MapVerify.MapProofSound` | kt/lib/smt.js:264-277 | a proof that verifies against the root of a map states what the map holds for the label, presence or absence |
| `MapVerify.MapProofComplete` | kt/lib/smt.js:134-162 | the proof the map gives for any label verifies |
| `MapVerify.BucketRoot` | kt/lib/smt.js:320-327 | the hash of the subtree that holds exactly these ascending leaves |
| `MapVerify.VerifyBucket` | kt/lib/smt.js:336-355 | accepts exactly well-formed ascending leaves that climb to the root by the siblings |
| `MapVerify.BucketExact` | kt/lib/smt.js:336-355 | against the root of a map, that is exactly the full list of its labels with the prefix and its siblings, both ways |
| `PrefixText.PrefixHex` | kt/lib/smt.js:286-291 | the loop over the bits writes the digits of the masked prefix |
| `PrefixText.ParsePrefix` | kt/lib/smt.js:298-305 | the reader takes exactly the right number of digits with the unused bits zero |
| `PrefixText.ParseSpelled` | kt/lib/smt.js:286-305 | reading what was written gives the prefix |
| `PrefixText.SpelledParse` | kt/lib/smt.js:286-305 | whatever is read is a prefix written in those digits, in either case: one spelling in lower case |
| `PrefixText.TenBits` | kt/lib/smt.js:286-291 | ten bits are three digits, most significant bit first, the unused bits zero: an example |
| `Base64.DecodeEncode` | kt/lib/handles.js:237-246 | decoding unpadded base64url (section 5 of RFC 4648) gives back what was encoded |
| `Base64.B64UrlExactIs` | kt/lib/handles.js:237-246 | a string is taken exactly when it is the encoding of n bytes, and as those bytes |
| `Base64.Vectors` | kt/lib/handles.js:237-246 | the vectors of section 10 of RFC 4648, unpadded |
| `StrongKeys.BelowPExact` | kt/lib/handles.js:149-153 | the scan decides whether the little-endian number is below 2^255 - 19 |
| `StrongKeys.BelowFromTopExact` | kt/lib/handles.js:183-188 | the first byte from the top that differs decides the little-endian comparison |
| `StrongKeys.BelowLExact` | kt/lib/handles.js:183-188 | the scan decides whether the number is below the listed order |
| `StrongKeys.OrderLIs` | kt/lib/handles.js:146 | the listed bytes are the order of the base point, 2^252 + 27742317777372353535851937790883648493 |
| `StrongKeys.StrongSpelling` | kt/lib/handles.js:155-168 | a strong key has one spelling: no other strong key has its y modulo p and its sign |
| `StrongKeys.StrongEdExact` | kt/lib/handles.js:117-168 | a strong Ed25519 key is 32 bytes whose y is below 2^255 - 19 and none of the five small-order values |
| `StrongKeys.StrongXExact` | kt/lib/handles.js:117-168 | a strong X25519 key is 32 bytes without the top bit, below 2^255 - 19 and none of its five small-order values |
| `StrongKeys.SmallOrderRoots` | kt/lib/handles.js:117-146 | the five listed values are the y of the points of order 1, 2, 4 and 8 of the curve |
| `RecordCodec.ParseExact` | kt/lib/handles.js:260-305 | the parser accepts exactly the one encoding of a record in range, as that record |
| `RecordCodec.ParsedText` | kt/lib/handles.js:260-322 | what parses, written out: each member within its range, and the text to the last character |
| `RecordCodec.TooLargeExact` | kt/lib/handles.js:260-270 | too large exactly past 1 KiB, before anything else is looked at |
| `RecordText.ReadBack` | kt/lib/handles.js:308-322 | JSON.parse of a record as JSON.stringify wrote it gives back its members, for every record, where JSON.parse is the reader of the shape of a record |
| `RecordText.ParseEncode` | kt/lib/handles.js:260-322 | parsing what was encoded gives the record back, for every record in range |
| `RecordText.EncodeInjective` | kt/lib/handles.js:308-322 | two records with one encoding are one record |
| `RecordText.EncodeParse` | kt/lib/handles.js:260-305 | what parses is the encoding of a record in range, so parsing and encoding are inverse to each other |
| `RecordCodec.OneEncoding` | kt/lib/handles.js:294-305 | two byte strings that parse to one record are one byte string |
| `RecordCodec.FromMembersExact` | kt/lib/handles.js:271-293 | the members spell a record exactly when it is in range and they are its members |
| `RecordCodec.EncodedSize` | kt/lib/handles.js:308-322 | every record in range is within the 1 KiB cap |
| `OwnerRule.HistoryShape` | kt/lib/handles.js:389-422 | the versions of a label are 1, 2, ..., k, its first entry is a claim and no other is |
| `OwnerRule.StepExact` | kt/lib/handles.js:389-422 | a claim is accepted exactly as a first entry of version 1, an update exactly with the owner and the commitment of the entry before, a recover exactly with a key the commitment before is of, each as the next version; the label is then the owner's of the record, under its commitment |
| `OwnerRule.StepReasons` | kt/lib/handles.js:389-422 | a refusal names the first of the conditions that fails, the version last |
| `OwnerRule.CheckExact` | kt/lib/handles.js:336-375 | what is checked of an entry alone, written out: its shape, its record, a strong key and a signature by it over the label, version and value hash; of a recover the same by the recovery key |
| `OwnerRule.CheckReasons` | kt/lib/handles.js:358-375 | and why an entry is refused: its shape, the cap, the encoding of its record, the signature of the owner, that of the recovery key, in that order |
| `OwnerRule.HistoryExact` | kt/lib/handles.js:389-422 | a history of many labels is accepted exactly if every entry fits those before it, no table being kept: a claim is the first of its label and version 1; any other is one version above the last of its label, an update with that one's owner and commitment, a recover with the key its commitment is of |
| `OwnerRule.OwnerChange` | kt/lib/handles.js:389-422 | an accepted entry is signed by the owner it leaves; owner or commitment change only by a recover whose key the commitment before it is of, signed by that key |
| `OwnerRule.RecoveryStaysOpen` | kt/lib/handles.js:376-388 | whatever updates follow, a checked recover that opens the commitment is accepted exactly when it is the next version |
| `OwnerRule.StaleToHolders` | kt/lib/handles.js:376-388 | only an entry the owner or the recovery key signed is told its version is stale |
| `OwnerRule.HoldProjects` | kt/lib/log.js:1264-1269 | the table holds each label as its own entries leave it, whatever came between |
| `OwnerRule.HoldExact` | kt/tools/verify_vectors.py:887-914 | a run over many labels is accepted exactly when the entries of each label are |
| `OwnerRule.OverlayAgrees` | kt/lib/mirror.js:611-626 | the overlay laid on the table is the table of a direct run, with the same acceptance and the same first refusal |
| `OwnerRule.UpdatesKeep` | kt/lib/handles.js:397-404 | updates keep owner and commitment, and count versions |
| `FileStore.ReadAll` | kt/lib/log.js:367-410 | for every file, window and short read: the lines of the plain newline split with their byte ranges, or its refusal |
| `FileStore.LinesExact` | kt/lib/log.js:387-398 | each byte range holds its line and nothing else; the lines lie end to end, to the end of a file read whole |
| `FileStore.StopsExact` | kt/lib/log.js:387-410 | where a read ends, and what stands there: the end of the file, bytes without a newline, a newline at once, or a line that does not parse |
| `FileStore.AppendAddsOne` | kt/lib/log.js:475-507 | a line appended to a whole file adds exactly that entry, last |
| `FileStore.TornIsUnterminated` | kt/lib/log.js:402-406 | a line cut short is read as a last line without a newline, the others as before |
| `FileStore.Directory.Append` | kt/lib/log.js:475-507 | under any short writes: the whole line and its range exactly when every byte was put and synced, else the file as it was or, exactly where the truncation throws too, a part of the line; at every moment of it the disk is what it was with some of the line |
| `FileStore.PutsExact` | kt/lib/log.js:481-489 | short writes put every byte exactly if none puts nothing before all is put |
| `FileStore.Directory.ReadValue` | kt/lib/log.js:425-433 | the bytes of a range under any short reads, or an error past the end |
| `FileStore.LastNewline` | kt/tools/repair.js:40-51 | the windows from the end find the last newline, or -1 |
| `FileStore.Directory.Repair` | kt/tools/repair.js:53-117 | the file is cut after its last newline, and only if something follows it; nothing else on the disk changes |
| `FileStore.RepairKeeps` | kt/tools/repair.js:86-117 | every complete line is read as before, and the torn last line is gone |
| `FileStore.RepairUndoes` | kt/tools/repair.js:86-117 | what an append cut short left behind is all that is removed |
| `FileStore.SplicedLine` | kt/lib/log.js:440-457 | a line written after one cut short is read as one line with it, and a repair cuts nothing |
| `LogState.PositionsExact` | kt/lib/log.js:1184-1186 | the index of a label is exactly where its entries are, ascending |
| `LogState.LatestIs` | kt/lib/log.js:1149-1152 | the map names the last of them and its version |
| `LogState.KtAcceptsExact` | kt/lib/log.js:1095-1165 | what the key-transparency log accepts next, written out: the index, the value hash, the label of the account, its signature or none where none was yet and the boundary allows, and a version above every earlier one of the label |
| `LogState.HandleAcceptsExact` | kt/lib/log.js:1204-1246 | what the handle log accepts next, written out: the index, the value hash, a whole hour, a signature of 64 bytes, and an entry that fits those before it under the owner rule |
| `LogState.KtVerdictExact` | kt/lib/log.js:1279-1357 | each answer to a publish request of the key-transparency log, exactly where it is given, its conditions written out |
| `LogState.HandleVerdictExact` | kt/lib/log.js:1321-1357 | a publish request of the handle log is allowed exactly if its entry fits those before it under the owner rule, and refused for the own reason of the rule |
| `LogState.SignedByAccount` | kt/lib/log.js:1095-1111 | a replayed entry that carries a signature is signed by the account its label is of |
| `LogState.EntryIs` | kt/lib/log.js:1334-1353 | the entry of a publish, member by member: the next index, the request's own members, the digest of its value, and the time, or the hour it is in |
| `LogState.LeafBinds` | kt/lib/log.js:142-186 | a leaf binds the label, the version, the value hash, the time and, in the key-transparency log, the fingerprint: two entries have one leaf exactly if they agree on these |
| `LogState.UnsignedPrefix` | kt/lib/log.js:1095-1111 | entries without a signature come before the first signed one |
| `LogState.AllowedAccepted` | kt/lib/log.js:1321-1357 | a request allowed on the wire is never refused when it is applied |
| `LogState.AllowedExact` | kt/lib/log.js:1204-1246 | in the handle log the wire and the replay ask exactly the same |
| `LogState.HeadReproduces` | kt/lib/log.js:925-930 | entries that give the log root of a head at its size are the entries it is the head of |
| `LogState.ReplayedRule` | kt/lib/log.js:1204-1246 | every replayed handle entry was accepted by the owner rule in its order |
| `LogState.ReplayedFits` | kt/lib/log.js:1204-1246 | and each fits the entries before it, which says the rule of the entries alone |
| `LogState.RuleVersion` | kt/lib/log.js:1264-1269 | the version in the state of the rule is that of the latest entry of the label |
| `KtLogs.KtLog.WriteHead` | kt/lib/log.js:555-587 | the new head or the old one, and no state of the disk in between |
| `KtLogs.KtLog.WithValue` | kt/lib/log.js:425-435 | the value of an entry, read again from the range of its line, is the one it was published with |
| `KtLogs.LineStays` | kt/lib/log.js:1143-1146 | and the range stays that entry's whatever is appended after it |
| `KtLogs.KtLog.Check` | kt/lib/log.js:1154-1164 | accepts exactly the next entry: index, label, value hash, signature, version or owner rule; once a signature has held, none without one |
| `KtLogs.KtLog.StateOf` | kt/lib/log.js:1264-1269 | owner and commitment from the table with the version of the latest entry are the state of the rule |
| `KtLogs.KtLog.Apply` | kt/lib/log.js:1154-1246 | checks, with the mark on the first signed entry, then the file, then memory: entries, trees, index and table stay in step, and no entry comes of a refusal or a failed write; the disk passes through states with some of the line and no others |
| `KtLogs.KtLog.Sth` | kt/lib/log.js:1360-1368 | a head of both trees at the current size, the cached one exactly while it is younger than the interval and nothing was added |
| `KtLogs.KtLog.RecordHead` | kt/lib/log.js:1120-1130 | the head and the boundary written down or the old head file kept; a boundary once set stays |
| `KtLogs.KtLog.KeepAlive` | kt/lib/log.js:1058-1064 | rewritten exactly when forced or due, of the same entries at that time; the heads signed are the old ones and the new one, and every state of the disk on the way is the log's own |
| `KtLogs.KtLog.Publish` | kt/lib/log.js:1321-1357 | the entry has the next index, the members of the request, the digest of its value and the time, or its hour; acknowledged exactly when the request is allowed, its line is written and a head of it recorded; every other outcome leaves the old or the new history; every state of the disk on the way survives as one of the two, and the heads signed only grow |
| `KtLogs.KtLog.CheckAgainstLastHead` | kt/lib/log.js:881-984 | the checks of a start against the head file: size, root, the signature of the key on head and boundary, and no unsigned entry past the boundary; one that refuses leaves the disk as it was |
| `KtLogs.KtLog.Open` | kt/lib/log.js:812-852 | a start against a head reproduces its entries; on its own disk the log starts with its whole history, forks nothing and keeps the boundary, through states that are all its own; a start that is refused leaves the disk as it was, head file included |
| `KtLogs.BoundaryMeans` | kt/lib/log.js:881-984 | the boundary a start stands on is one the key signed, where one was recorded, else where the first signed entry is, or the size |
| `KtLogs.CrashInWrite` | kt/lib/log.js:475-507 | any part of a line on the end of the file is the old history, the new one, or a torn line whose repair is the old one |
| `KtLogs.AppendSurvives` | kt/lib/log.js:475-507 | and these are the states an append goes through, so a crash at any of them leaves one of the three |
| `KtLogs.KtLog.ValidIsOwn` | kt/lib/log.js:1321-1357 | between calls, what the process leaves passes for its own disk; within a call Publish, KeepAlive and Open say it of every state |
| `KtLogs.HeadsConsist` | kt/lib/log.js:853-880 | of any two heads the key has signed, the larger extends the smaller by a proof that verifies |
| `LogLives.Live` | kt/lib/log.js:1048-1368 | a life of the process, crashed at a given change of the disk or after its last step, and that very state repaired: the entries it stored and those it acknowledged are those of the plain run of its finished steps, with at most the entry of the step cut off; every acknowledged one is kept; and every head that was signed before, or that its start or a finished step handed out, is among the signed it leaves, each a head of the entries of that step |
| `LogLives.Serve` | kt/lib/log.js:853-984 | over any number of such lives the history only grows, every entry ever acknowledged stands in it, and no two of all the heads fork, those signed before and those handed out by any start or finished step of any life |
| `LogLives.TornThenAppended` | kt/lib/log.js:436-498 | an entry written after a tear whose truncation threw too: unless the tear is empty, or it and the next line parse as one, no start succeeds, repaired or not |
| `KtLogs.KtLog.Lookup` | kt/lib/log.js:1398-1408 | the latest entry of a label or its absence, in a form that passes the checks of a reader |
| `KtLogs.KtLog.Fit` | kt/lib/log.js:1425-1434 | the longest page within the bytes, and at least one entry |
| `KtLogs.KtLog.History` | kt/lib/log.js:1447-1464 | the entries of a label from the start asked for, in order, each proved; it is empty only past the end, and stops before the count and the end only where the bytes do; with their true number |
| `KtLogs.KtLog.Walk` | kt/lib/log.js:1447-1464 | pages fetched from the first entry on, each from where the one before ended, join to all the entries of the label in order, however they are cut |
| `Answers.PageIsSlice` | kt/lib/log.js:1447-1464 | a page is the entries from the start asked for, one after another, and ends where they do, at the count, or where the next is past the bytes |
| `KtLogs.KtLog.Range` | kt/lib/log.js:1553-1567 | a page of the log from a start, never empty while there is something |
| `KtLogs.KtLog.EntriesAt` | kt/lib/log.js:1536-1550 | the entries asked for, in that order, each proved; refused exactly when one is not below the head |
| `KtLogs.KtLog.Buckets` | kt/lib/log.js:1485-1526 | whole buckets that pass the checks of a reader, or refused exactly past the bounds |
| `Answers.LookupSound` | kt/lib/log.js:1398-1408 | under a true head, a lookup that passes is the latest entry of the label, or its absence |
| `Answers.IncludedExact` | kt/lib/log.js:1378-1380 | under a true head, an entry is included exactly as the one at its index with its audit path |
| `Answers.VerifyBucketAnswer` | kt/lib/log.js:1762-1805 | the checks of the reader, bucket by bucket and leaf by leaf |
| `Answers.BucketMeans` | kt/lib/log.js:1762-1805 | an accepted bucket lists every label with the prefix and no other, each with the record at its latest index |
| `Answers.PassesExact` | kt/lib/log.js:1762-1805 | the checks of the reader written out, both ways |
| `Answers.BucketNames` | kt/lib/log.js:1762-1805 | each leaf of an accepted bucket names the last entry of its label below the head, and in the handle log carries that entry's record |
| `Mirrors.ReadUpTo` | kt/lib/mirror.js:391-431 | the windowed reader stops with as many entries as the head covers, having consumed exactly their lines |
| `MirrorState.UptoClean` | kt/lib/mirror.js:393-444 | whatever follows the verified lines is not read |
| `Mirrors.Mirror.Load` | kt/lib/mirror.js:340-465 | a load that succeeds is the state its head describes; on its own directory it succeeds, cutting exactly what follows the verified part; before a first head only an empty file opens |
| `Mirrors.OpenTwice` | kt/lib/mirror.js:433-444 | after any crash the directory opens to the verified entries, and a second load changes nothing |
| `Mirrors.Restart` | kt/lib/mirror.js:340-465 | a directory of the mirror's own, whatever a crash left after its verified part, opens to the verified entries and is cut to exactly their bytes; without a head, exactly if nothing is in it |
| `Mirrors.SyncAndCrash` | kt/lib/mirror.js:545-785 | a sync cut off after a given number of changes of its directory, and that very state loaded: the next mirror holds what was verified before or all of what the sync verified, with a head of those entries, and opens wherever there was a head |
| `MirrorLives.Follow` | kt/lib/mirror.js:545-785 | any number of syncs, with whatever the log and the transport bring, each finished or cut off and loaded again: what each did is as a sync alone says, and only a crash before the first head leaves a directory that does not open |
| `MirrorLives.HeldGrows` | kt/lib/mirror.js:545-785 | over all of them what is held only grows |
| `MirrorLives.MirrorHeadsConsist` | kt/lib/mirror.js:568-602 | of any two heads the mirror ever stood at, the larger extends the smaller by a proof that verifies, whatever the log served |
| `MirrorLives.HonestNeverPoisons` | kt/lib/mirror.js:539-699 | an honest log poisons no mirror in any of them, whatever crashes |
| `MirrorLives.RollbackPoisons` | kt/lib/mirror.js:521-602 | a version no higher than an earlier one of its label, in pages under a signed head proved to extend the last one, poisons the mirror |
| `MirrorLives.StalePoisons` | kt/lib/mirror.js:568-602 | an older head of the key, or a proof for the right sizes that does not verify, poisons the mirror whoever brought it |
| `MirrorLives.WholeIsJudged` | kt/lib/mirror.js:568-699 | a signed head proved to extend the last one, with all its entries: poisoned exactly if they break what a mirror holds or give other roots |
| `MirrorLives.AnyTransport` | kt/lib/mirror.js:539-699 | the answers of a log over a transport that fails, misshapes or cuts off are honest, or honest but for the proof |
| `MirrorLives.LogDelivers` | kt/lib/log.js:1360-1567 | what an honest log answers a mirror that holds some of its entries is what makes its sync adopt |
| `MirrorLives.PoisonStays` | kt/lib/mirror.js:539-546 | a poisoned mirror fails every sync and stays as it is until it is started again |
| `Mirrors.Mirror.Append` | kt/lib/mirror.js:521-537 | refused as the doing of the log exactly if the index is not the next, or an entry of the label has a version as high, or the hour is not whole; else the entry is held, and the trees follow |
| `MirrorState.AppendsExact` | kt/lib/mirror.js:521-537 | appended exactly if the index is the next, no entry of the label has a version as high, and, in the handle log, the time is a whole hour |
| `Mirrors.Mirror.HeldIs` | kt/lib/mirror.js:521-537 | what a mirror at rest holds: entries whose roots are its head, with indexes in order, value hashes that match; versions that rise label by label, or, in the handle log, entries that each fit those before them under the owner rule |
| `Mirrors.Mirror.HoldToRule` | kt/lib/mirror.js:494-519 | the owner rule against the own table and versions, exactly as on a direct run |
| `Mirrors.Mirror.FetchPages` | kt/lib/mirror.js:604-685 | the entries from the held size to that of the head, with the overlay of the rule; faithful pages never diverge, and full ones are all taken |
| `Mirrors.Mirror.Adopt` | kt/lib/mirror.js:686-692 | appended, held to both signed roots and to the rule; an honest delta always passes |
| `Mirrors.Mirror.Commit` | kt/lib/mirror.js:699-785 | entries and head both land, or the directory keeps its old verified part and memory goes back to it or is to be reread; every state on the way is the old verified part and head with some of the entries after it, or the new part with the new head |
| `Mirrors.WriteAll` | kt/lib/mirror.js:125-131 | every byte put exactly when no write throws, else a part of them |
| `Mirrors.Mirror.Ready` | kt/lib/mirror.js:547-551 | a sync builds only on the state the last verified head describes |
| `Mirrors.Mirror.CheckProof` | kt/lib/mirror.js:568-602 | under a larger head, where something is held: asked for again exactly if the proof has not the right shape, and a contradiction exactly if it has and does not verify |
| `Mirrors.Mirror.Sync` | kt/lib/mirror.js:545-785 | pages under a proved head that break what a mirror holds, in index, version, hour or rule, are a contradiction; an adopted head is the signed roots of exactly the entries held, which only grow; every state of the directory on the way is the old verified part or the new one with some of the entries between; an honest log over a faithful or failing transport never poisons; with an honest head and faithful pages a sync poisons exactly if the proof has the right shape and is not the log's; and when everything arrives and the disk writes, the head is adopted |
| `Mirrors.CutProof` | kt/lib/mirror.js:578-588 | there is always a proof to cut, and any part of it is a wrong proof of the right shape |
| `Mirrors.ProofDecides` | kt/lib/mirror.js:578-588 | against an honest log with faithful pages, a proof of the right shape that is not the log's own contradicts, and without one the sync is honest |
| `MirrorState.ServedHolds` | kt/lib/log.js:1553-1567 | what an honest log serves is a history a mirror accepts, with the same leaves |
| `MirrorState.ServedDescribes` | kt/lib/log.js:1360-1368 | and the heads of the log are heads of it |
| `MirrorState.OverlaidAgrees` | kt/lib/mirror.js:611-692 | the overlay over what is held accepts exactly what the whole history does |
| `RateLimits.RateLimiter.TakeN` | kt/server.js:301-320 | lets a charge through exactly when the refilled bucket holds a token above the reserve; only the key, now the most recent, and the least recent one, past the cap, change |
| `RateLimits.TakeWritten` | kt/server.js:301-320 | the bucket a take leaves, in numbers: what it had and elapsed / windowMs x perWindow, never past perWindow, less the charge if a token above the reserve was there |
| `RateLimits.RateLimiter.Refund` | kt/server.js:262-265 | one token back, never past the brim |
| `RateLimits.RateLimiter.WaitMs` | kt/server.js:286-292 | the least whole wait after which a take above the reserve succeeds; where the reserve is past the bucket no wait is enough, and a key without a bucket is answered 0 |
| `RateLimits.RateLimiter.Sweep` | kt/server.js:322-326 | forgets exactly the keys idle for more than two windows and two minutes, the others keeping their order, and nobody can tell when no bucket owes more than a window |
| `RateLimits.WindowBound` | kt/server.js:253-327 | over any run of takes, refunds and sweeps, of any keys, the charges of a token or more on a key that are let through and not given back are at most perWindow x (1 + d / windowMs) over an interval d, as long as the key is not dropped to make room |
| `RateLimits.DroppedExample` | kt/server.js:247-252 | a key that is dropped spends its window over again |
| `RateLimits.NoWaitExample` | kt/server.js:286-292 | a wait of 0 where no wait is enough: an example |
| `RateLimits.DebtKept` | kt/server.js:301-320 | charges of at most perWindow never leave a debt of more than a window |
| `PublishGates.PassGates` | kt/server.js:759-796 | all gates charged exactly when all let the publish through, else each one tried is as a refill would leave it but for the key it dropped, and the rest untouched; buckets and their order; a refusal names the seconds of RetryAfter |
| `PublishGates.GatesWritten` | kt/server.js:771-796 | the gates, their keys and reserves: the address, the account (a handle's recoveries apart), for a first publish the address and all new accounts, and the total, of which any other publish leaves a share |
| `PublishGates.CheckedExact` | kt/server.js:742-747 | what is asked before any gate, written out: sizes, version and the signature |
| `PublishGates.RetryAfter` | kt/server.js:762-771 | the seconds a refusal names: the least whole number, of one or more, after which the gate lets a take through |
| `PublishGates.UnpaidUnseen` | kt/server.js:752-771 | which is the same, to every later look at a key that was not dropped, as not having tried |
| `PublishGates.UnpaidExact` | kt/server.js:301-320 | nobody ever sees that a gate was tried exactly if no key was dropped for it, or the one dropped had a full bucket |
| `PublishGates.SpentAgain` | kt/server.js:301-320 | a refused publish that fills a spent bucket: an example |
| `PublishGates.CheckedTwice` | kt/server.js:742-747 | what is refused before any gate is asked, the publish would refuse with the same answer |
| `PublishGates.Post` | kt/server.js:747-805 | a request that is not signed, or past the cap, asks no gate; any other is published exactly if all its gates let it through; each gate is paid exactly if the publish is answered as stored, and otherwise given back, where the entry was written and its head was not too |
| `PublishGates.GateIsPublishes` | kt/server.js:752-761 | a bucket counts one for a publish that is answered as stored and nothing for any other |
| `PublishGates.CountsExact` | kt/server.js:797-804 | it counts what the log grew by exactly if no entry was written without its head |
| `PublishGates.Serve` | kt/server.js:446-553 | however publishes and sweeps follow one another, each turn ends as a publish alone says; the turns answered as stored are what the total counts, at most perWindow x (1 + d / windowMs) over d milliseconds; the log holds the entries of these and of the turns whose head was lost |
| `Admission.NewMailboxGate.Take` | server/server.js:1164-1171 | refilled to the minute rate, a token spent exactly when there is one |
| `Admission.TakeBounded` | server/server.js:1156-1180 | what was spent and what is left never come to more than a full bucket and the time passed |
| `Admission.SeenMailboxes.Touch` | server/server.js:1252-1260 | the id is the latest, the times of the others stay, and past the cap the least recent one alone is forgotten |
| `Coordinator.MemoryCoordinator.AdmissionBound` | server/server.js:1655-1731 | while the clock runs forward, the routing ids that ever had an entry added are no more than a full bucket and the rate per 60000 ms pay for, over every run of sends, acknowledgements, flushes and sweeps |
| `Coordinator.MemoryCoordinator.ClaimOwner` | server/server.js:1354-1364 | the owner is the latest on the list, the others keep their order and times, and only those past the cap or the age go, oldest first; the bytes of a new owner leave the unowned total, and the totals stay recounts |
| `Coordinator.MemoryCoordinator.TrimOwned` | server/server.js:1400-1408 | owners past the cap or the age are forgotten oldest first, and their bytes come back; while the clock runs forward those left are within both |
| `Coordinator.MemoryCoordinator.SetIntro` | server/server.js:1430-1446 | the flag is set last, the least recent ones gone where room was needed and no others; its owner enrolled and the owner list otherwise as a claim leaves it; refused exactly for a new flag past the address budget; while the clock runs forward every total stays a recount exactly if the owner cap and age keep anybody, or the mailbox was owned, or holds nothing |
| `Coordinator.BooksGoWrong` | server/server.js:1430-1446 | a relay that keeps no owners, one envelope and a flag on its mailbox: the totals are wrong |
| `Coordinator.MemoryCoordinator.ForgetIntro` | server/server.js:1457-1462 | the flag is gone and, if it was in force, the bytes are unowned again |
| `Coordinator.MemoryCoordinator.TrimIntro` | server/server.js:1469-1480 | flags past one age become shadows and past two are forgotten, each by its own age while the clock runs forward |
| `RelayState.LapsedExact` | server/server.js:1469-1480 | flag by flag: what the walk leaves, where flags are in order of age |
| `RelayState.LapsedFlagIs` | server/server.js:1469-1480 | what age makes of one flag: past two ages gone, past one a shadow, its bits and time as they were |
| `RelayState.WithLastOrder` | server/server.js:1430-1446 | a new flag is last and of the others the most recent stay, one less than the cap; one that is there only moves |
| `RelayState.TrimmedIs` | server/server.js:1400-1408 | a trim forgets the fewest of the oldest that it must |
| `RelayState.ApplyIs` | server/server.js:1605-1749 | what an event does to what a mailbox holds: one more at the end, that one less, those of an age, or nothing, and nothing to another mailbox |
| `Coordinator.MemoryCoordinator.Retain` | server/server.js:1605-1620 | what expired is gone and every total moves by exactly that; no empty queue stays |
| `Coordinator.MemoryCoordinator.RemoveKey` | server/server.js:1734-1749 | the entry at the key, if any, and only it, for a reason that allows it; every total settled |
| `Coordinator.MemoryCoordinator.Enqueue` | server/server.js:1655-1731 | the verdict is the first limit reached, in their order, and nothing else refuses; a stored entry is one more under a free key of its own, within every cap, and the mailbox is the latest remembered; a token is spent exactly on an admitted first contact within the budgets of what nobody owns, and the gate is not asked otherwise |
| `Coordinator.MemoryCoordinator.VerdictExact` | server/server.js:1655-1731 | each verdict of the store exactly where its limit is the first reached, over what the relay holds and in numbers |
| `Coordinator.MemoryCoordinator.FlagRules` | server/server.js:1450-1453 | a flag binds while its age is at most twice the owners' age, in force or in its shadow: too large, too little work, or held already; without one a send is asked for nothing |
| `Coordinator.FlagBinds` | server/server.js:1430-1790 | once a flag is set and while it lasts, a send with less work is refused with its very bits |
| `Coordinator.MemoryCoordinator.DeliverEnqueue` | server/server.js:1751-1846 | a send, its envelope with the sender, id, size and time given: the rules of a flagged mailbox, in force or in its shadow, then the budget of the address, then the verdict of the store, each answer exactly where it applies; what the rules or a budget refuse leaves the gate, the memory of mailboxes and the store as they were |
| `Coordinator.MemoryCoordinator.Ack` | server/server.js:1848-1887 | takes out the first envelope that answers, which is one it names exactly if the keys are not confused; none is left named if it finds none; an offline sender gets one receipt, from the recipient, of that id and time, unless it is held already or the verdict refuses it |
| `Coordinator.MemoryCoordinator.ExpireFor` | server/server.js:1890-1897 | what outlived the age, in one mailbox, and nothing else |
| `Coordinator.MemoryCoordinator.Flush` | server/server.js:1899-1928 | the frames are exactly the entries held when each one's turn comes, in arrival order, page by full page; all that happens meanwhile is what the calls in the waits do and, after its frame, a receipt leaving; an acknowledgement that does nothing finds nothing it names, a send answered as queued is held, and after a sweep nothing is past the age; it stops only where the socket refuses a frame or does not drain |
| `FlushOrder.FlushLosesNothing` | server/server.js:1899-1928 | what a flush found and is gone was taken out by a call that ran in a wait, an acknowledgement that names it or is confused about it or a sweep past its age, or is a receipt it sent |
| `FlushOrder.FramesAreSent` | server/server.js:1904-1922 | the frames in the history of a flush are exactly what it sent, in that order, whatever ran in its waits |
| `FlushOrder.WaitsHeeded` | server/server.js:1899-1928 | every call of every wait stands at a place of the history where what it did is what happened, and answered what was held then |
| `FlushOrder.AckIs` | server/server.js:1848-1887 | such an acknowledgement: answered yes exactly if it took an envelope; no only where nothing it names was held; its receipt is to the sender |
| `FlushOrder.SendIs` | server/server.js:1751-1846 | such a send: added with its own members and answered as queued, or queued because the key is held |
| `FlushOrder.PagedIs` | server/server.js:1904-1928 | a page ends as soon as its frames are as many, or as many bytes, as a page may have |
| `FlushOrder.FlushedIs` | server/server.js:1899-1928 | at each turn an entry is sent exactly if it is held then, and no sent receipt is held |
| `FlushOrder.WalkOrder` | server/server.js:1899-1928 | what a flush sent is in order, each once, and is exactly what was held at its turn |
| `FlushOrder.PassedOver` | server/server.js:1904-1922 | an entry a flush passed over had left before its turn: acknowledged, or past the age |
| `Coordinator.MemoryCoordinator.Sweep` | server/server.js:1938-1952 | nothing older than the age stays anywhere, only that leaves, and owners and flags are trimmed by their ages |
| `RelayState.Retained` | server/server.js:1734-1749 | an envelope that is no longer held was taken by an acknowledgement that names it, or is confused about it, or is past the age; a receipt was sent or is past the age |
| `Coordinator.MemoryCoordinator.Accounted` | server/server.js:1267-1950 | and that holds of every run of the relay |
| `RelayState.TrimmedFresh` | server/server.js:1400-1408 | on a list that is oldest first, what a trim leaves is within the cap and the age, and a list that is so already is left alone |
| `RelayState.NobodyKept` | server/server.js:1400-1408 | with a cap of zero or a negative age a trim forgets everybody, the owner just claimed included |
| `RelayState.NewestKept` | server/server.js:1400-1408 | a trim never forgets the owner just claimed, where the cap is at least one |
| `EntryKeys.CandidateNames` | server/server.js:2482-2487 | what an acknowledgement finds under a key it tries is what it names exactly if the two are not confused |
| `EntryKeys.NamedIsCandidate` | server/server.js:2454-2487 | every envelope it names is under one of the keys it tries, any sealed slot included |
| `EntryKeys.CandidateExact` | server/server.js:2454-2487 | the keys tried for an id are those of the envelopes with that id and those confused with it, and no other, slot by slot |
| `EntryKeys.KeysWritten` | server/server.js:2454-2487 | the keys as they are written, of envelopes, slots and receipts, and those an acknowledgement tries, in order |
| `EntryKeys.Unconfused` | server/server.js:2454-2487 | no acknowledgement of an attributed envelope is confused by an id without a colon, and none of a sealed one where neither id has a hash sign |
| `EntryKeys.ConfusedExamples` | server/server.js:2454-2487 | the two ways an acknowledgement finds another envelope: examples |

## Left out

- SHA-256, Ed25519, ChaCha20-Poly1305 and HKDF: digests and signatures are terms or parameters, and no value is sealed or opened.
- The Redis coordinator, HTTP and WebSocket handling, metrics, push, static pages and TLS: the in-memory coordinator carries the same mailbox logic.
- Push tokens, introduction keys and the live sockets of the relay: single-field bookkeeping beside the mailboxes; whether a recipient is online is a parameter.
- The stamp of a flagged mailbox and the byte budget of an address are parameters of a send: how a stamp is hashed and a budget refilled is not modelled.
- JSON.parse and JSON.stringify of a line: parameters that are asked for one round trip, which `LineCodec` shows can be had; of a record, the reader of its one shape is modelled (`RecordText`), and any other text is left to a parameter.
- The restored-snapshot age policy of a start, the read-only opening, and reading the environment: single-branch policy.
- The resident value of an entry: in the model an entry keeps its value, where the source drops it and reads it back by its byte range (`KtLogs.KtLog.WithValue` says that this gives the same).
- The witness's co-signature: it is made over the head a sync adopts and written in the same file as that head.
- Fetch time limits, response sizes and waiting on 429 in the mirror: a fetch brings a body, a body of the wrong shape, or an error.
- Directory fsync, and file errors other than short writes, a failing write, fsync, truncation or rename.
- The size of a page a mirror asks for: a page may bring any number of entries.
- KtLogs.KtLog.Publish: promises nothing about the process after a write cut short whose truncation throws too; AppendSurvives says what a start then finds, and LogLives.TornThenAppended what it finds if the process appends once more.
- KtLogs.KtLog.Apply: the same, since it is the write it makes.
- KtLogs.KtLog.Open: takes a file of fewer than 2^32 lines, the size of a JavaScript array; the age policy for a restored snapshot and the start without a key are not in it.
- KtLogs.KtLog.CheckAgainstLastHead: does not ask how old the last head is, a policy of one branch that refuses a start.
- FileStore.Directory.ReadValue: gives the bytes; KtLogs.KtLog.WithValue parses them and gives the value.
- KtLogs.KtLog.WriteHead: the temporary file, its short writes, its fsync and the rename are one flag, since the old file stands until the rename.
- Answers.VerifyBucketAnswer: takes an answer that is read: the signature of its head, the spelling of its prefixes and the shape of its JSON are checked before.
- FileStore.LastNewline: takes each read to return the whole window, as a read of a regular file does; the source does not look at the bytes a shorter read would leave out.
- Mirrors.ReadUpTo: takes each read to return the whole window or the rest of the file; the source stops reading at a shorter one that ends at a line.
- RateLimits.WindowBound: for a key that is never dropped to make room; DroppedExample shows why.
- PublishGates.Post: starts from a body that was read and parsed; the floor of free disk and the count of bodies in flight are policy before it, and the head it answers with is `KtLogs.KtLog.Sth`.
- LogLives.Live: a head that is signed in a step the process does not finish reaches nobody, and is promised nothing.
- MerkleLogs.MerkleLog.Append: refuses past the largest JavaScript array, where the source's push throws.
- Coordinator.MemoryCoordinator.Flush: what runs in a wait is sends, acknowledgements and sweeps; a second flush of the same mailbox at the same time is not among them. Of a send it says when the answer is that it is queued, and not which limit refuses one: DeliverEnqueue does.
- Coordinator.MemoryCoordinator.AdmissionBound: an upper bound only; a token spent on a send that the store then refuses is not given back.
