# VaultS3 in Dafny

A Dafny model of three cores of VaultS3, an S3-compatible object store, with proofs about
them. `dafny verify dfyconfig.toml` checks the whole project.

**Erasure-coded objects** (`internal/erasure`). A put cuts an object into k data shards and m
parity shards under a fresh generation and commits by switching `meta.json`; a get streams the
data shards, checks a CRC per stripe, and can switch over in mid-read to a reader that rebuilds
one stripe at a time; a healer rewrites bad shards.

| file | what it holds |
|---|---|
| `code.dfy` | the column code and its law, the layout of an object over shards, decode after encode; two codes that satisfy the law |
| `stripes.dfy` | stripe checksums: the running summer, the reader's check, what acceptance means |
| `reads.dfy` | the degraded stream with its reused buffers, the shard stream with its takeover, what is read after a failure, whole gets as any run of Read and Seek calls |
| `streamwrite.dfy` | the two-pass streaming write, and that it equals the buffering one |
| `heal.dfy` | the heal pass, and put, loss and get end to end |
| `commit.dfy` | the commit protocol as a transition system: coded puts, plain puts, deletes, heal passes and gets in any interleaving, any storage call failing |
| `alone.dfy` | what each operation of that protocol achieves when nothing interferes |
| `faulty.dfy` | what each operation leaves and reports when nothing interferes and storage calls fail |

**Placement and metadata shards** (`internal/cluster`).

| file | what it holds |
|---|---|
| `hashring.dfy` | the consistent-hash ring, its stability and its independence of history |
| `shardmap.dfy` | the shard map and its succession rule over a replicated log, founder-gated bootstrap, the planner |
| `reconcile.dfy` | the reconciler that changes one server at a time |
| `routing.dfy` | routing a write to the one group that owns its bucket |
| `fsm.dfy` | batched application of the log against entry-by-entry application |

**Smaller stateful pieces.**

| file | what it holds |
|---|---|
| `bucketcrypto.dfy` | bucket key managers over a shared key store, over whole runs; the second key store |
| `fuse.dfy` | the FUSE block cache and reads through it |
| `wildcard.dfy` | the wildcard matcher against what its patterns are meant to match |
| `policy.dfy` | policy evaluation, the policies of a key, and the conversion of the shared key policy |

## What is assumed

- The code works on byte columns, and any k symbols of a column determine the rest
  (`ColumnCode.Lawful`). `CodeInstances` shows that this can be met.
- A checksum is a fold over bytes. Where bytes are trusted after a check, the assumption is
  that damage of a stripe changes its checksum (`ShardFiles.Trust`; for an object without
  recorded checksums, that what can be read in full is undamaged). In `commit.dfy` a version has
  a check of whole shards and of stripes, which its own shards pass; damaged ones fail the
  first, and their stripes that pass the second are as written.
- One storage call is one atomic step. It succeeds or fails without effect; a put may also
  report failure although it took effect, a delete does not (`internal/storage/filesystem.go:302-334`),
  and an existence check that fails answers that nothing is there (`internal/storage/filesystem.go:336-339`).
  An opened shard stays readable when it is removed or replaced. A new write's generation is unused.
- Hashes of virtual nodes do not collide and node ids are not empty. The ciphers are ideal:
  opening succeeds exactly with the key and nonce that sealed, and drawn keys are new
  (`Envelope.Ideal`, met by `Envelope.Toy`).
- A range request of the FUSE client fails or returns exactly the range, and a handle knows the
  object's size.

## What turned out not to hold

Each of these is stated with the input family that shows it and the condition that excludes it.

- **A late failure of the `meta.json` put loses the object.** `internal/storage/filesystem.go:66-75`
  can report an error after the rename, when the directory sync fails. The put then removes the
  shards of what has just become the current version: `CommitSafety.LateSwitchLosesObject`, from
  every state in order with a put about to switch. Every other put may fail late; without
  that one outcome `CommitSafety.NeverTorn` holds.
  Exactly the shards whose delete failed remain (`CommitSafety.LateSwitchExactly`).
- **A failed existence check of `meta.json` misleads writers and readers.** A plain put then
  reports success while the old version is read on (`OneWriter.BlindPut`), a delete reports
  success while the object stays (`OneWriter.BlindDelete`), and a get turns to a plain copy that
  an earlier put failed to drop (`OneWriter.StaleCopyServed`). `OneWriter.OldOrNew` and
  `OneWriter.GoneOrNot` hold over every run with these failures in it: success means the goal is
  reached if and only if the writer's check did not fail while a version stood in its way, and a
  read is old or new unless its check failed beside a stale copy, which `OneWriter.LookExactly`
  shows to be exact. `CommitSafety.NeverTorn` holds regardless.
- **A stream whose takeover failed crashes on the next read** before the end of the object: its
  readers are closed and nothing stands in for them (`ObjectReads.ShardStream.Read`). A takeover
  fails only when fewer than k other shards open (`ObjectReads.ShardStream.RecoverAndRead`).
- **After a failed fill a degraded stream serves stale bytes, checked or not.** The old stripe
  stays marked as loaded although its buffers hold another one. `StaleReads.StaleRun` is a run in
  which a byte that has failed its check is returned; `StaleReads.ReadBack` says for every disk
  exactly when reading back is right. Other properties of streams are stated up to the first
  failed read.
- **The guard on `remaining` in the streaming write never fires.** A body that is too short is
  caught by the parity pass, hence exactly when m is at least 1 (`StreamWrite.PutStreaming`). A
  configured engine replaces m = 0 by 2 (`internal/erasure/config.go:12-14`), so there a short
  body is always refused.
- **A routed write can be taken more than once.** After any error the router goes on to the next
  member, also when the first took the write and its answer was late or lost:
  `Routing.TakenAgain`. `Routing.AtMostOnceExactly` says exactly when that does not happen. That
  only the bucket's one shard takes it holds always.
- **A node that fails to store its first shard map can found a rival group**
  (`Bootstrapping.LostFirstMapFoundsRival`); without that one failure the founding configuration
  is unique (`Bootstrapping.OneFoundingConfiguration`), whatever other entries fail to be stored.
- **The reconciler removes a server while a wanted one is missing** exactly when the address of
  the first missing one does not resolve (`Reconciling.RemovesWhileMissing`).
- **A planner's proposal is accepted by the rule** exactly when the version counter is not at
  its 64-bit maximum (`Planning.ProposalIsLegal`).
- **A blob decrypts before its bucket is shredded** exactly when its key version fits the 32
  bits of the header (`KeyRuns.DecryptsUntilShredded`), and unencrypted data passes through
  exactly when it lacks the magic prefix (`Envelope.PassThrough`).
- **Enabling or rotating after something else wrote a bucket's algorithm** keeps the keys exactly
  when that is AES256 or there is none (`ConfigKeyStore.OtherAlgorithmLosesKey`). Removing the
  default encryption clears it; with another algorithm in its place the bucket never gets a
  current key again (`ConfigKeyStore.NeverCurrent`).
- **A wildcard pattern can miss what it is meant to match.** The scan compares characters before
  it looks for a star, so a star of the pattern that meets a star of the value stands for that
  one character only. Whatever matches is meant to (`Wildcards.MatchesSound`); all patterns are
  right on a value if and only if the value has no star (`Wildcards.ValueExactly`), and a pattern
  is right on all values if and only if it has no star or is one (`Wildcards.PatternExactly`).
  Every statement covers the requests it is meant to if and only if action and resource have no
  star (`IamPolicies.CoversAsDocumented`).
- **A request can have two answers** when an applicable Deny has one failing and one unproven
  condition, since maps are walked in any order: `IamPolicies.WhenTwoAnswers` says exactly when.
- **Converting the shared key policy keeps the access of keys that had no policy of their own**
  (`KeyPolicies.PendingKeeps`, where the shared policy can be read and no copy overwrites another
  policy of theirs). The comment at `internal/api/keys.go:342-349` promises it for each
  existing key. A key that has its own policy is passed over, and a session is resolved from its
  user alone; they keep their access exactly when other policies have the statements of the shared one
  (`KeyPolicies.OwnPolicyKeeps`, `KeyPolicies.SessionKeeps`, with the inputs
  `KeyPolicies.HandAttachedLoses` and `KeyPolicies.SessionGains`). The condition with no
  hypothesis on names is `KeyPolicies.WithdrawnExactly`.

A plain put racing a coded put on one key is not linearizable, since each can remove the other's
copy; `NeverTorn` is what holds there.

Under "Converting the shared key policy", and in the rows below, the access of a key is whether it
is refused outright, and if not the set of statements it is decided on.

## Model

| member | source | states |
|---|---|---|
| `ColumnCode.EncodedColumn` | internal/erasure/encoder.go:44-57 | every byte column of the encoded blocks is a codeword of the column code |
| `ColumnCode.EncodedSlice` | internal/erasure/encoder.go:35-40 | encoding a slice of the blocks gives the slice of the encoding, so encoding can go stripe by stripe |
| `ColumnCode.ParitySlice` | internal/erasure/encoder.go:35-40 | the parity of a stripe is the stripe of the parity |
| `ColumnCode.ReconstructExact` | internal/erasure/encoder.go:107-109 | any k surviving blocks of any stripe bring back all of them, byte for byte |
| `Layout.PerShardBounds` | internal/erasure/streamwrite.go:38-38 | the shard length is the least one with which k shards hold the object |
| `Layout.Locate` | internal/erasure/degraded.go:191-192 | dividing an object position by the shard length gives the data shard and the offset in it |
| `Layout.ShardRun` | internal/erasure/stream.go:134-154 | a run of bytes of a data shard is the run of the object at the located position |
| `Layout.ConcatSplit` | internal/erasure/encoder.go:61-99 | joining the data shards and cutting to the size gives the object, padding gone |
| `Layout.DecodeEncode` | internal/erasure/encoder.go:44-99 | whatever is missing, as long as k shards survive, decoding gives all shards and the object back |
| `CodeInstances.XorLawful` | internal/erasure/encoder.go:19-29 | the assumed law is met by XOR parity for every k with m = 1 |
| `CodeInstances.ReplicaLawful` | internal/erasure/encoder.go:19-29 | and by replication for k = 1 with every m |
| `Checksums.StripeSummer.Write` | internal/erasure/shard.go:126-143 | feeds the bytes to the running sums, across any number of stripe boundaries |
| `Checksums.StripeSummer.Encoded` | internal/erasure/shard.go:146-153 | however the bytes were divided over writes, the sums are the CRCs of the aligned stripes |
| `Checksums.CheckStripes` | internal/erasure/shard.go:90-112 | the loop accepts exactly data whose stripe CRCs are recorded from that offset on, or for which nothing is recorded |
| `Checksums.AcceptanceIsPrefix` | internal/erasure/shard.go:90-112 | data is accepted if and only if its CRC list is a prefix of the shard's from there on, so one differing stripe or surplus bytes are refused |
| `Checksums.CrcOne` | internal/erasure/shard.go:126-143 | a checksum takes each byte once, in order, from the initial value |
| `Checksums.SumsAt` | internal/erasure/shard.go:126-153 | entry j of a list belongs to the bytes from j stripes on, one stripe of them or what is left |
| `Checksums.RefusesExactly` | internal/erasure/shard.go:81-112 | data is refused if and only if checksums are recorded for every shard with a stripe length in range, it starts on a stripe boundary, and one of its stripes has another checksum than recorded there, or none recorded |
| `Checksums.AcceptsTrueStripes` | internal/erasure/shard.go:90-112 | the shard as a whole and each aligned stripe alone are accepted |
| `DegradedReads.DegradedStream.ReadBlock` | internal/erasure/degraded.go:144-173 | one turn of the reading loop: without a reader nothing; else the shard's buffer takes what the reader delivers, whether or not it passes its check, a buffer that is too small is replaced and left to the stripe that uses it, and the shard is kept exactly when the whole part arrived and passes, else dropped for good |
| `DegradedReads.DegradedStream.AfterTurn` | internal/erasure/degraded.go:144-173 | so a block that is kept is the true one, a good shard is never dropped, and a block of the old stripe holds what was read if and only if it shares the reused buffer |
| `DegradedReads.DegradedStream.Gather` | internal/erasure/degraded.go:138-177 | collects blocks in reading order until k are there, every one the true one; succeeds when k readers are sure to deliver and only when k may; a failure leaves fewer than k readers and says of every block of the old stripe what it holds |
| `DegradedReads.DegradedStream.Fill` | internal/erasure/degraded.go:125-185 | the stripe at the offset is recovered exactly; it succeeds when k readers are sure to deliver it and only when k may, so always with at most m bad shards; a failure leaves fewer than k readers, and every block of the old stripe that shares a buffer which was read into, by a good shard or a bad one, holds what was read |
| `DegradedReads.DegradedStream.Recovery` | internal/erasure/degraded.go:179-183 | rebuilding from the gathered blocks, shared or owned, yields the true stripe of every data shard |
| `DegradedReads.DegradedStream.Read` | internal/erasure/degraded.go:187-220 | before any failure the object's bytes at the position, at least one if any was asked for, and the end exactly past the size; inside the stripe in memory what its block holds by now; outside, success when k readers are sure and failure when fewer than k are left |
| `DegradedReads.DegradedStream.Seek` | internal/erasure/degraded.go:222-239 | lands at the offset from the start, from the position or from the end; refused, with the position kept, if and only if that is negative or the base is invalid |
| `StaleReads.ReadBack` | internal/erasure/degraded.go:125-220 | for every object, disk and two positions: after a failed read, a read back inside the stripe in memory is right if and only if its block was rebuilt, or its buffer was not read into, or what the failed fill delivered equals what was there; every read outside that stripe fails from then on |
| `StaleReads.StaleRun` | internal/erasure/degraded.go:153-183 | on a concrete disk with one lost shard and one bad byte, a right read and a failed one are followed by one that returns the byte which has just failed its check |
| `ObjectReads.OpenDegraded` | internal/erasure/degraded.go:68-122 | with at most m bad shards the degraded stream opens, also without the excluded one |
| `ObjectReads.WholeTrust` | internal/erasure/engine.go:373-391 | a shard whose recorded length and whole-shard check pass is the one written |
| `ObjectReads.ReadWholeShard` | internal/erasure/engine.go:373-391 | returns a shard only if it is the one written; every good shard is returned |
| `ObjectReads.ReconstructWhole` | internal/erasure/engine.go:332-368 | the decoded object is the one written; cannot fail with at most m bad shards |
| `ObjectReads.MemReader.Read` | internal/erasure/engine.go:538-540 | reads of the reconstructed object return its bytes at the position |
| `ObjectReads.ShardStream.Load` | internal/erasure/stream.go:101-124 | loads and verifies one stripe of one data shard, or proves that shard bad |
| `ObjectReads.ShardStream.Read` | internal/erasure/stream.go:126-157 | up to the first failure the object's bytes at the position on every path, takeover included, and no failure with at most m bad shards; after a failed takeover a read crashes if and only if the position is before the end |
| `ObjectReads.ShardStream.RecoverAndRead` | internal/erasure/stream.go:163-184 | the reader that takes over goes on at the same offset with the same bytes; no takeover is possible only when fewer than k other shards open, and exactly then if the bad shard is steadily bad |
| `ObjectReads.ShardStream.Seek` | internal/erasure/stream.go:186-208 | the same, whichever reader is in charge |
| `GetObject.OpenCoded` | internal/erasure/engine.go:277-309 | what is opened serves the object from position 0; with at most m bad shards something is opened |
| `GetObject.Drive` | internal/erasure/stream.go:126-208 | any run of Read and Seek calls is answered as the object itself would answer, each seek landing at its offset from its base, up to the first failed read, and none fails with at most m bad shards |
| `GetObject.GetCoded` | internal/erasure/engine.go:273-309 | the same for a whole get over missing, short, corrupt and unreliable shards |
| `GetObject.TailRead` | internal/erasure/stream.go:186-208 | after such a run, a seek to n bytes before the end and a read give a non-empty front of the last n bytes |
| `GetObject.SkipRead` | internal/erasure/degraded.go:222-239 | a read, a step from where it ended and another read: the second starts that much further on |
| `StreamWrite.StoreData` | internal/erasure/streamwrite.go:81-91 | one data shard: the next bytes of the body and zero padding, with their stripe sums, for any arrival of the body |
| `StreamWrite.WriteData` | internal/erasure/streamwrite.go:71-95 | pass one writes exactly the data shards of the declared object, or at least one short file when the body ends early, and counts planned bytes down to zero either way |
| `StreamWrite.ParityReader.Fill` | internal/erasure/streamwrite.go:157-187 | the next stripe of parity; refuses if and only because a data file is short |
| `StreamWrite.ParityReader.Read` | internal/erasure/streamwrite.go:189-201 | delivers the parity shard in order, in pieces of any size |
| `StreamWrite.StoreParity` | internal/erasure/streamwrite.go:97-112 | succeeds if and only if no data file is short, and then stores the whole parity shard with its sums |
| `StreamWrite.PutStreaming` | internal/erasure/streamwrite.go:35-119 | succeeds exactly when the body delivers the declared size or there is no parity, and then with split-then-encode of the declared bytes |
| `StreamWrite.PutBuffered` | internal/erasure/engine.go:128-165 | stores split-then-encode of the body with the sums of every shard |
| `StreamWrite.BothPaths` | internal/erasure/streamwrite.go:35-119 | the streaming write and the buffering write store the same files and the same checksums for every object, code, stripe length and arrival of the body |
| `Heal.Survey` | internal/erasure/heal.go:152-167 | finds exactly shards that are not good, and reads all others as written |
| `Heal.Rebuild` | internal/erasure/heal.go:181-193 | the rebuilt shards are the ones originally written |
| `Heal.WriteBack` | internal/erasure/heal.go:195-205 | each missing shard is written once, in order, with its original bytes, going on past writes that fail with or without effect; the failures reported are the writes that reported failure, so none on working storage; the object stays readable after each write |
| `Heal.OneMended` | internal/erasure/heal.go:195-205 | replacing one bad shard by its original never costs readability |
| `Heal.HealObject` | internal/erasure/heal.go:138-212 | every shard that does not hold its bytes, and none that is good, is written back once with the bytes it was created with, if there are at most m; the failures are those of the writes, so on working storage all are mended; good shards are untouched, and every state on the way reads as the same object |
| `Heal.HealTwice` | internal/erasure/heal.go:138-212 | on working storage, over at most m bad shards, nothing fails, every shard is as written after the first pass, and the second writes nothing |
| `RoundTrip.WriteDescribes` | internal/erasure/engine.go:139-165 | the `meta.json` of either write path is what the readers rely on, and has checksums they use for every stripe length up to 64 MiB |
| `RoundTrip.DamageIsRefused` | internal/erasure/shard.go:90-112 | so of a written shard, bytes read from a stripe boundary on are accepted if and only if each of their stripes has the checksum of that stripe of the shard |
| `RoundTrip.LostIsTrusted` | internal/erasure/engine.go:332-368 | what remains after losing any m shards is still enough |
| `RoundTrip.PutLoseGet` | internal/erasure/engine.go:99-309 | put by either path, lose any m shards, read with any calls: every byte comes back and nothing fails |
| `CommitSafety.WritingOk` | internal/erasure/engine.go:151-165 | writing a shard of an uncommitted generation keeps everything in order |
| `CommitSafety.AbortingOk` | internal/erasure/engine.go:158-170 | cleaning up after a failed write touches only its own uncommitted generation |
| `CommitSafety.SwitchOk` | internal/erasure/engine.go:218-243 | the switch makes a completely written version current and rules out that the previous one is ever current again |
| `CommitSafety.RetireOk` | internal/erasure/engine.go:248-260 | removing shards of a superseded version keeps everything in order |
| `CommitSafety.PlainOk` | internal/erasure/engine.go:178-210 | the steps of a plain put, its failing existence check included, keep everything in order |
| `CommitSafety.DeleteOk` | internal/erasure/engine.go:393-418 | the steps of a delete, its failing existence check included, keep everything in order |
| `CommitSafety.HealReadOk` | internal/erasure/heal.go:152-193 | a heal pass that runs beside writers collects only true shards of the version it started with |
| `CommitSafety.HealWriteOk` | internal/erasure/heal.go:195-205 | and puts back only what that version's write made |
| `CommitSafety.GetOpenOk` | internal/erasure/engine.go:277-309 | a get sticks to the version it opened, through every fallback, and what it returns is that version, also when it is recovered stripe by stripe |
| `CommitSafety.Undisturbed` | internal/erasure/engine.go:99-260 | what any operation knows survives a step of any other |
| `CommitSafety.StepKeepsInv` | internal/erasure/engine.go:99-418 | every step of every operation, failing or not, keeps the invariant |
| `CommitSafety.RunKeepsInv` | internal/erasure/engine.go:99-418 | so does every run |
| `CommitSafety.NeverCurrentAgain` | internal/erasure/engine.go:212-260 | a generation that was committed and is no longer current is never current again, however the run goes on |
| `CommitSafety.NeverTorn` | internal/erasure/engine.go:99-418 | in every interleaving with any failures, and with damage to any shard, committed, being written or already open, when `meta.json` exists each shard it names that no damage has hit is there with the bytes of the one write that made its generation, and every completed get returned one whole committed version or one stored plain content |
| `CommitSafety.PiecedIs` | internal/erasure/degraded.go:125-220 | bytes pieced together stripe by stripe, from shards that are damaged elsewhere and from what was served before a takeover, are the object |
| `CommitSafety.LateSwitchLosesObject` | internal/erasure/engine.go:167-170 | from every state in order with a put about to switch, a late failure followed by the cleanup leaves `meta.json` naming a version without shards, which is in order only if damage had hit every one before |
| `CommitSafety.LateSwitchExactly` | internal/erasure/engine.go:167-170 | however the cleanup goes, exactly the shards whose delete failed remain, so the store is in order if and only if every delete of a shard that is not damaged fails |
| `OneWriter.OneVersion` | internal/erasure/engine.go:277-309 | a read never mixes generations |
| `OneWriter.StepKeepsCast` | internal/erasure/engine.go:178-309 | each step of one writer or deleter beside any readers and healers, any check failing, leaves only allowed values readable and keeps exact account of a check that failed the writer |
| `OneWriter.OldOrNew` | internal/erasure/engine.go:178-309 | with one writer, stopped anywhere, for plain and coded alike: the store holds the whole old or the whole new value; every completed get returned one of the two unless a reader's check failed beside a stale plain copy; and reported success means the new value if and only if the writer's check did not fail while an old version was there |
| `OneWriter.GoneOrNot` | internal/erasure/engine.go:393-418 | with one deleter every completed get returned the object or a plain copy beside it, and reported success means nothing is left to read if and only if its check did not fail while `meta.json` was there |
| `OneWriter.BlindPut` | internal/erasure/engine.go:193-210 | from every state in order with a version present, a plain put at its check reports success at once if and only if the check fails, and the old version is read on |
| `OneWriter.BlindDelete` | internal/erasure/engine.go:393-398 | a delete whose check fails reports success and the object stays readable |
| `OneWriter.StaleCopyServed` | internal/erasure/engine.go:235-271 | a put that fails to drop the plain copy reports success, and a get whose check then fails returns that copy |
| `OneWriter.LookExactly` | internal/erasure/engine.go:262-271 | a get whose check fails beside a plain copy, and which nothing overtakes, returns an allowed value if and only if that copy is one |
| `AloneRuns.LeadsIsRun` | internal/erasure/engine.go:99-418 | what an operation leads to alone is a run of the whole system with every other operation where it was |
| `AloneRuns.PutAlone` | internal/erasure/engine.go:151-243 | a put that nothing disturbs succeeds and leaves exactly its version: all its shards, none of the version it replaced, no plain copy |
| `AloneRuns.FailedPutLeavesNoTrace` | internal/erasure/engine.go:158-161 | a put that fails at any shard, with or without effect, and cleans up leaves storage as it was |
| `AloneRuns.PlainAlone` | internal/erasure/engine.go:178-210 | a plain put alone leaves exactly the plain content |
| `AloneRuns.DeleteAlone` | internal/erasure/engine.go:393-418 | a delete alone leaves nothing |
| `AloneRuns.GetAlone` | internal/erasure/engine.go:262-309 | a get alone: with a current version it returns that version or fails, never the plain copy; it returns it when at most m shards are bad and fails when none is left; without one it returns the plain content and fails if there is none |
| `AloneRuns.OvertakenGet` | internal/erasure/engine.go:292-309 | a get whose version was replaced and removed while it was opening shards goes on to return the whole new version |
| `AloneRuns.HealAlone` | internal/erasure/heal.go:138-212 | a heal pass alone over at most m bad shards restores every shard, changes nothing else, and reports a repair exactly when one was bad |
| `FaultyRuns.PutReports` | internal/erasure/engine.go:151-260 | for every fate of every storage call, a put alone: it succeeds if and only if each shard and then `meta.json` are reported as stored, and then every shard is in place and of the replaced version and the plain copy what could not be removed is left; a failed one leaves other versions and the plain copy alone and of its own shards exactly those whose removal failed; `meta.json` changes without success only by a late failure |
| `FaultyRuns.PlainReports` | internal/erasure/engine.go:178-210 | a plain put alone: it succeeds if and only if the content was stored and the `meta.json` it sees was removed; exactly the shards whose removal succeeded are gone |
| `FaultyRuns.DeleteReports` | internal/erasure/engine.go:393-418 | a delete alone: it succeeds if and only if its `meta.json`, each shard it could learn of and the plain copy were removed; nothing changes when `meta.json` cannot be removed, and what else cannot be removed stays |
| `FaultyRuns.GetReports` | internal/erasure/engine.go:262-275 | a get whose check fails or finds nothing returns the plain copy if that opens; one that sees `meta.json` and cannot read it fails and does not turn to the plain copy |
| `FaultyRuns.FastGet` | internal/erasure/engine.go:273-290 | a get that reads `meta.json` and opens the data shards, which are as written, returns the version whatever all other calls would do |
| `FaultyRuns.NeverFollows` | internal/erasure/stream.go:163-184 | once a get has handed out bytes of a version it never turns to another one, whatever happens to storage and to its calls meanwhile |
| `FaultyRuns.HealNothing` | internal/erasure/heal.go:138-150 | a heal pass that cannot read `meta.json` or finds none does nothing |
| `FaultyRuns.HealWrites` | internal/erasure/heal.go:195-205 | otherwise exactly the missing shards whose write took effect, reported or not, have the rebuilt bytes, and nothing else changes |
| `FaultyRuns.EndsOnce` | internal/erasure/engine.go:99-418 | an operation alone under given fates ends in one way |
| `HashRings.SameMembersSameRing` | internal/cluster/hashring.go:35-73 | the sorted ring and its owner map are determined by the node set |
| `HashRings.HashRing.AddNode` | internal/cluster/hashring.go:35-51 | the ring becomes the ring of the larger set |
| `HashRings.HashRing.DropPoints` | internal/cluster/hashring.go:63-72 | the rebuild loop keeps exactly the points of other nodes, in order |
| `HashRings.HashRing.RemoveNode` | internal/cluster/hashring.go:54-73 | the ring becomes the ring of the smaller set |
| `HashRings.HashRing.Search` | internal/cluster/hashring.go:94-94 | binary search finds the first point at or after the hash |
| `HashRings.HashRing.Collect` | internal/cluster/hashring.go:104-116 | the walk collects first occurrences clockwise |
| `HashRings.HashRing.GetNodes` | internal/cluster/hashring.go:85-117 | min(n, nodes) distinct members, each the next one met going clockwise from the hash of those not yet taken: the first n of the key's preference list |
| `HashRings.HashRing.SyncMembership` | internal/cluster/proxy.go:104-160 | the ring holds exactly the live members afterwards |
| `HashRings.PreferenceIsComplete` | internal/cluster/hashring.go:85-117 | a preference list names every node exactly once |
| `HashRings.PrefersNearest` | internal/cluster/hashring.go:85-117 | a preference list is ordered by the first point of each node clockwise from the hash, wrapping after the last |
| `HashRings.RemovalIsStable` | internal/cluster/hashring.go:54-117 | removing a node deletes just that node from every preference list; adding one just inserts it |
| `HashRings.HoldersAreStable` | internal/cluster/failover.go:99-118 | a holder set loses nobody but the node that left, and at most its last member to one that joined |
| `HashRings.Apply` | internal/cluster/proxy.go:104-160 | after any sequence of joins, leaves and syncs the ring is that of the resulting set |
| `HashRings.TwoHistories` | internal/cluster/hashring.go:35-117 | two rings with different histories and equal members place every key alike |
| `ShardMaps.Validate` | internal/cluster/shardmap.go:203-240 | accepts exactly well-formed maps |
| `ShardMaps.ValidateSuccession` | internal/cluster/shardmap.go:163-198 | accepts exactly a valid map with a higher version and the same epoch, shard count and founders |
| `ShardMaps.WrongMaps` | internal/cluster/shardmap.go:203-240 | a map is refused for a wrong count, a zero epoch, an empty founder or member list, an empty id or one listed twice |
| `ShardMaps.CommittedExactly` | internal/cluster/fsm.go:191-215 | an entry becomes the committed map if and only if it is a valid map and the first, or newer with the same epoch, shard count and founders; no other entry changes it |
| `ShardMaps.ShardForBucket` | internal/cluster/shardmap.go:69-74 | the shard is the remainder of the bucket's hash by the shard count, and 0 for a single shard |
| `ShardMaps.BucketHasMembers` | internal/cluster/shardmap.go:69-74 | in a valid map it exists and has a member list to turn to |
| `ShardMaps.EveryShardServes` | internal/cluster/shardmap.go:69-74 | every shard is that of some hash |
| `ShardMaps.CommittedValid` | internal/cluster/fsm.go:191-215 | whatever is proposed, the committed map is valid |
| `ShardMaps.PrefixesAgree` | internal/cluster/fsm.go:191-215 | over every log, any two prefixes agree on epoch, shard count and founders, and versions only grow |
| `ShardMaps.ReplayIsHarmless` | internal/cluster/fsm.go:191-215 | applying an entry again, accepted or refused before, changes nothing |
| `Bootstrapping.StartOk` | internal/cluster/shardgroup.go:168-267 | a start from a store that is behind, or has missed entries, bootstraps only as a founder and with the committed founder list |
| `Bootstrapping.StartExactly` | internal/cluster/shardgroup.go:168-267 | a listed member that does not run the group runs it afterwards, founder or not, with state on disk or without, unless it is to found it and an address does not resolve; it founds it exactly as a founder without state |
| `Bootstrapping.CatchesUp` | internal/cluster/fsm.go:191-215 | a node that applies its way to the end of the log holds the committed map |
| `Bootstrapping.FounderStarts` | internal/cluster/shardgroup.go:208-267 | for every valid map a founder that has applied it founds the group once, with the listed servers; a stop and a start do not found it again, a lost disk and a start do |
| `Bootstrapping.StepKeepsInv` | internal/cluster/shardgroup.go:168-329 | kept by every step: appends, applies, entries a node fails to store, restarts, snapshots, starts, stops and lost disks, save a lost first map |
| `Bootstrapping.OneFoundingConfiguration` | internal/cluster/shardgroup.go:208-267 | all bootstraps of a shard, anywhere and at any time, use one server list, and only its members perform them, as long as no node without a map fails to store the first one it accepts |
| `Bootstrapping.LostFirstMapFoundsRival` | internal/cluster/fsm.go:191-215 | in every state a node that fails to store its first map, the last of the log, founds a group of its own one rival proposal later, which all others refuse |
| `Bootstrapping.BootstrapsOnce` | internal/cluster/shardgroup.go:208-267 | a node that keeps its disk bootstraps a shard at most once, through any restarts and stops |
| `Planning.CheckOverlaps` | internal/cluster/shardsupervisor.go:124-133 | true exactly when the lists share a node |
| `Planning.PlanShard` | internal/cluster/shardsupervisor.go:98-122 | the ring's choice, unless it is empty or shares no member with the current set, and then the current set |
| `Planning.Plan` | internal/cluster/shardsupervisor.go:98-122 | a well-formed membership that leaves each shard a previous member; changed exactly when some set differs |
| `Planning.ProposalIsLegal` | internal/cluster/shardsupervisor.go:50-88 | the proposal succeeds the map it was made from if and only if the version can still grow, and differs in members and version only |
| `Planning.FreshIsCommitted` | internal/cluster/shardsupervisor.go:50-88 | a proposal made from the current map becomes the committed map |
| `Planning.StaleIsRefused` | internal/cluster/shardsupervisor.go:50-88 | a proposal planned from an outdated map is never accepted |
| `Planning.NeverAbandoned` | internal/cluster/shardsupervisor.go:50-133 | over any planner-driven log, each shard keeps a member from one committed map to the next |
| `Planning.BuildShardMap` | internal/cluster/shardmap.go:83-115 | the first map exists exactly for positive counts and a non-empty ring, holds the ring's choice for every shard, founders equal members, and may open the log exactly if its version is not zero |
| `Reconciling.Round` | internal/cluster/shardsupervisor.go:225-307 | the loops perform the one chosen change, if the call succeeds |
| `Reconciling.FindSurplus` | internal/cluster/shardsupervisor.go:276-299 | the first unwanted server other than the leader, and the leader only when it is the last one |
| `Reconciling.OneServerAtATime` | internal/cluster/shardsupervisor.go:225-307 | a round changes at most one server, none if the call fails, drops no wanted one and never empties the group |
| `Reconciling.QuorumsMeet` | internal/cluster/shardsupervisor.go:211-217 | majorities of two configurations one server apart intersect |
| `Reconciling.AddsFirst` | internal/cluster/shardsupervisor.go:247-273 | with resolvable addresses nothing is removed before every wanted member is in |
| `Reconciling.AttemptExactly` | internal/cluster/shardsupervisor.go:225-307 | a round adds the first missing member if and only if its address resolves, else removes one if and only if there is a surplus server and more than one in all, and does nothing without wanted members |
| `Reconciling.RemovesWhileMissing` | internal/cluster/shardsupervisor.go:248-305 | with a wanted member missing, a server is removed if and only if that member's address does not resolve and there is a surplus server to remove |
| `Reconciling.Progress` | internal/cluster/shardsupervisor.go:225-307 | an unfinished round shrinks (missing, surplus) lexicographically by one |
| `Reconciling.Converges` | internal/cluster/shardsupervisor.go:225-307 | after as many successful rounds as there are servers to add and remove, the group is exactly the wanted set |
| `Reconciling.Stays` | internal/cluster/shardsupervisor.go:225-307 | and no later round changes it |
| `Routing.BucketStays` | internal/cluster/shardmap.go:69-74 | every map of the log gives a bucket the same shard |
| `Routing.LogHasMembers` | internal/cluster/shardrouter.go:228-240 | and that shard has members in each of them |
| `Routing.HandleExactly` | internal/cluster/shardrpc.go:96-191 | a receiver takes a write if and only if its map gives the bucket this shard, it runs and leads the group, and the apply commits; it names a leader if and only if it follows one it knows |
| `Routing.TakenOnlyByOwner` | internal/cluster/shardrpc.go:96-191 | a receiver with any stale map takes a write only for the bucket's one shard, and only as its leader, whatever it then reports |
| `Routing.TourOwned` | internal/cluster/shardrouter.go:228-269 | every group that takes a write on its way round the members is that of the bucket's one shard |
| `Routing.TourOrderly` | internal/cluster/shardrouter.go:228-269 | no node is asked twice, and the first request reported as accepted is the last |
| `Routing.TourReachesAll` | internal/cluster/shardrouter.go:228-269 | a tour without success has turned to every member |
| `Routing.TourGenuine` | internal/cluster/shardrouter.go:228-269 | every reply of a tour is what that node answers at that moment |
| `Routing.RedirectFollowed` | internal/cluster/shardrouter.go:228-269 | the first node of the order is asked first, and a leader it names next |
| `Routing.RouteExactly` | internal/cluster/shardrouter.go:201-222 | a leader applies the write itself, a follower that knows its leader asks it, and another node asks the leader it remembers first, else the first member |
| `Routing.AtMostOnceExactly` | internal/cluster/shardrouter.go:249-267 | a write is taken at most once if and only if no request that was taken and reported as failed is followed by one that is taken again |
| `Routing.TakenAgain` | internal/cluster/shardrouter.go:249-267 | a first member that takes the write unseen and a second that accepts it take it twice, and the caller sees one success |
| `Routing.FrankNetwork` | internal/cluster/shardrouter.go:201-269 | where every peer that takes a write says so and is heard, a write is taken exactly once on success and not at all on failure |
| `Routing.RoutedWrite` | internal/cluster/shardrouter.go:201-269 | with maps of any age, peers that change between requests and lost answers: only the bucket's one shard takes the write, once per unseen taking and once more on success; the shard has members, and failure comes after every one of them was turned to |
| `Routing.ShardRouter.Write` | internal/cluster/shardrouter.go:201-222 | sends the requests and reports the outcome of the route that these properties are about; the hint is the node that accepted |
| `Routing.ShardRouter.WriteViaMembers` | internal/cluster/shardrouter.go:228-269 | the loop with its remembered leader, tried nodes and redirects makes exactly that tour, and remembers the node that accepted |
| `Fsm.ApplyEach` | internal/cluster/fsm.go:55-67 | a loop of single applies takes the log entry by entry: a configuration change is answered nil; one that does not decode or does not belong in a shard gets an error and leaves the store; any other changes the store exactly by the operation it names and is answered nil if that succeeds, else with the store's code |
| `Fsm.BatchIsSequence` | internal/cluster/fsm.go:160-166 | a run written in one transaction leaves the store and the responses of writing it one by one |
| `Fsm.ReferenceObeys` | internal/cluster/fsm.go:55-113 | the fold that both are compared with treats every kind of entry so |
| `Fsm.FSM.ApplyRun` | internal/cluster/fsm.go:160-177 | a run of object writes, batched or replayed after a failed batch, ends as the single writes do |
| `Fsm.FSM.ApplyBatch` | internal/cluster/fsm.go:115-180 | a batch does the same, with the applied index at its last entry |
| `Fsm.ApplyAll` | internal/cluster/fsm.go:115-180 | and so does every way of cutting a log into batches, whichever batch writes fail |
| `Fsm.ReplicasAgree` | internal/cluster/fsm.go:55-180 | two replicas, one fed entry by entry and one in batches cut anywhere with any batch writes failing, agree on store, responses and applied index |
| `Fsm.ShardHoldsObjectsOnly` | internal/cluster/fsm.go:268-271 | a shard's store is what its object commands alone produce |
| `Envelope.UnwrapWrap` | internal/bucketcrypto/bucketcrypto.go:67-81 | a wrapped key is the nonce followed by the sealed key, and unwrapping undoes it |
| `Envelope.HeaderVersion` | internal/bucketcrypto/bucketcrypto.go:337-341 | the header carries the version modulo 2^32, most significant byte first |
| `Envelope.BlobParts` | internal/bucketcrypto/bucketcrypto.go:318-344 | a sealed blob parses back into its header, nonce and ciphertext |
| `Envelope.PassThrough` | internal/bucketcrypto/bucketcrypto.go:348-374 | stored data decrypts to itself if and only if it lacks the magic prefix |
| `Envelope.DecryptAnswers` | internal/bucketcrypto/bucketcrypto.go:348-374 | each answer with its place in the order of checks: no magic, too short, another format, no such key, a key that does not unwrap or is short, no room for a nonce, a seal that does not open, the plaintext |
| `KeyManagers.Manager.Dek` | internal/bucketcrypto/bucketcrypto.go:272-287 | whatever is cached and whatever other managers did, the key is what unwrapping the store's current entry gives |
| `KeyManagers.Manager.EnableBucket` | internal/bucketcrypto/bucketcrypto.go:224-229 | stores version 1 and makes it current, unless there is a current key; every other version and bucket is kept |
| `KeyManagers.Manager.Rotate` | internal/bucketcrypto/bucketcrypto.go:233-239 | stores the next version and makes it current; every other version and bucket is kept |
| `KeyManagers.Manager.ShredBucket` | internal/bucketcrypto/bucketcrypto.go:261-264 | the store forgets every key of the bucket and keeps those of all others |
| `KeyManagers.Manager.Encrypt` | internal/bucketcrypto/bucketcrypto.go:318-344 | seals under the store's current key, or passes through without one |
| `KeyManagers.Manager.Decrypt` | internal/bucketcrypto/bucketcrypto.go:348-374 | answers by the store alone, error cases included |
| `KeyRuns.RunKeepsInv` | internal/bucketcrypto/bucketcrypto.go:224-264 | over any run of enable, rotate, shred and encrypt a blob's key is stored under its version until the shred and under no version afterwards |
| `KeyRuns.DecryptsUntilShredded` | internal/bucketcrypto/bucketcrypto.go:224-374 | a blob decrypts to its plaintext before its bucket is shredded if and only if its version fits 32 bits, and to nothing after, even when version 1 is used again |
| `KeyRuns.Drive` | internal/bucketcrypto/bucketcrypto.go:224-344 | several managers with caches of their own, taking turns over one store in any order, leave the store and the blobs of the run |
| `KeyRuns.DriveAndDecrypt` | internal/bucketcrypto/bucketcrypto.go:224-374 | and any of them then reads any blob as that theorem says |
| `ConfigKeyStore.OperationsAgree` | internal/bucketkeys/bucketkeys.go:25-89 | on configurations only the manager has written, each operation is the operation on the keys they hold, and no bucket is pending |
| `ConfigKeyStore.PendingExactly` | internal/bucketkeys/bucketkeys.go:25-89 | a bucket told to encrypt is pending if and only if it has no key; storing a key ends that and a shred, and after a shred it has no key, is not pending and says that it was shredded |
| `ConfigRuns.RunMaps` | internal/bucketkeys/bucketkeys.go:25-89 | so is every run of operations from empty configurations |
| `ConfigRuns.StoreDecryptsUntilShredded` | internal/bucketkeys/bucketkeys.go:25-89 | over every run the configuration store keeps the promise of the one in memory: a blob decrypts before the shred if and only if its version fits 32 bits, and never after |
| `ConfigKeyStore.EnableKeepsKeys` | internal/bucketkeys/bucketkeys.go:25-68 | enabling keeps every stored key if and only if there is a current version or no other key 1 |
| `ConfigKeyStore.RotateKeepsKeys` | internal/bucketkeys/bucketkeys.go:25-68 | rotating keeps every stored key if and only if the version it writes is free |
| `ConfigKeyStore.OtherAlgorithmLosesKey` | internal/bucketkeys/bucketkeys.go:25-68 | when something else has written the algorithm, the next enable or rotate keeps every key if and only if it is AES256 or there is no key |
| `ConfigKeyStore.NeverCurrent` | internal/bucketkeys/bucketkeys.go:25-68 | with an algorithm other than AES256 and none, no rotation makes a version current, and each overwrites key 1 again |
| `ConfigRuns.RunThenOtherAlgorithm` | internal/s3/bucket.go:1117-1137 | the same condition after every run of the manager |
| `FuseReads.BlockCache.Get` | internal/fuse/cache.go:45-56 | a hit returns the block and makes it the most recent; list, map and byte count stay in step |
| `FuseReads.BlockCache.Put` | internal/fuse/cache.go:59-82 | the new order is what fits of the new block and the old order; the count is the sum of the blocks and within budget |
| `FuseReads.BlockCache.Invalidate` | internal/fuse/cache.go:85-100 | exactly the object's blocks are gone and the order of the others is kept |
| `LruOrder.EvictsOnlyAsNeeded` | internal/fuse/cache.go:72-81 | eviction keeps the longest run of most recently used blocks that fits |
| `LruOrder.LargerHoldsMore` | internal/fuse/cache.go:45-100 | over every run of reads and invalidations a larger cache holds all that a smaller one does |
| `FuseReads.Block` | internal/fuse/mount.go:351-366 | a block comes from the cache or the server, is the object's, and leaves the cache consistent |
| `FuseReads.Read` | internal/fuse/mount.go:327-378 | returns exactly object[off .. min(off + len, size)) for every consistent cache and any evictions on the way, or fails because a fetch did; the cache order afterwards is that of using the blocks in turn |
| `IamPolicies.EvaluateConditions` | internal/iam/conditions.go:83-102 | the loops answer what some order of the block allows: all conditions known and met, one that fails, or an operator that is not known or a key without a value |
| `IamPolicies.EvaluateDetailed` | internal/iam/conditions.go:24-72 | the nested loops reach one of the decisions the statements in order allow |
| `IamPolicies.DecisionExactly` | internal/iam/conditions.go:24-72 | a refusal by Deny if and only if some Deny that covers the request has conditions that all hold or cannot be told; else every such Deny has a failing condition, and the request is allowed if and only if an Allow covers it whose conditions all hold |
| `IamPolicies.EvaluatePlain` | internal/iam/conditions.go:27-68 | one statement without conditions, for each combination of the four pattern lists: it grants or refuses if and only if no exception matches, or without exceptions some pattern does, for action and resource alike; with neither list nothing |
| `IamPolicies.EvaluateConditional` | internal/iam/conditions.go:47-68 | one statement with one condition: on an operator that is not known or a key without a value an Allow does not grant and a Deny refuses, else the operator decides |
| `IamPolicies.DecidesBySet` | internal/iam/conditions.go:24-72 | the possible decisions are described, both ways, by which statements may refuse, can pass and grant |
| `IamPolicies.OnlyTheSetMatters` | internal/iam/conditions.go:24-72 | order, repetition and division into policies do not matter |
| `IamPolicies.WhenTwoAnswers` | internal/iam/conditions.go:24-102 | the decision depends on map order if and only if an applicable Deny is mixed and every applicable Deny has a failing condition |
| `Wildcards.Heads` | internal/iam/policy.go:192-216 | what a pattern is meant to match: a plain character itself, `?` any one, a star any run, and `x/*` also `x` |
| `Wildcards.WildcardMatch` | internal/iam/policy.go:209-239 | the loop with its one point to return to never matches what it is not meant to, and all that it is meant to if the value or the pattern has no star |
| `Wildcards.ScanSound` | internal/iam/policy.go:217-238 | a scan that succeeds has matched what it is meant to |
| `Wildcards.ScanComplete` | internal/iam/policy.go:217-238 | where value or pattern has no star, returning to the last star only finds every match there is |
| `Wildcards.MatchWildcard` | internal/iam/policy.go:195-205 | and so does the matcher with its fast paths, also for the bare star |
| `Wildcards.ValueExactly` | internal/iam/policy.go:195-239 | all patterns are right on a value if and only if the value has no star |
| `Wildcards.PatternExactly` | internal/iam/policy.go:195-239 | a pattern is right on all values if and only if it has no star or is just one |
| `IamPolicies.CoversAsDocumented` | internal/iam/policy.go:178-185 | every statement covers a request as its patterns are meant if and only if neither action nor resource has a star |
| `IamPolicies.DecidedAsDocumented` | internal/iam/conditions.go:24-72 | and then the decision is the documented one, whatever the policies |
| `KeyPolicies.AccessExactly` | internal/s3/auth.go:217-270 | which statements count: for a session those of the policies that reach its source user, for a key of an existing user also those of the policy it was issued with, for a key of a missing user none |
| `KeyPolicies.RefusalExactly` | internal/s3/auth.go:244-304 | who is refused outright: a missing user, a group or policy that exists and cannot be read, a policy that does not parse, the key's own included |
| `KeyPolicies.Store.GiveCopy` | internal/api/keys.go:392-402 | the key's copy of the shared document is written or refreshed, or nothing changes |
| `KeyPolicies.Store.Convert` | internal/api/keys.go:388-407 | one key: the copy before the key that points at it, stopping anywhere |
| `KeyPolicies.DetachPolicy` | internal/api/keys.go:317-340 | every occurrence of the shared policy is dropped, the others keep their order, and the user is marked as key-managed if it had that policy, no group and no address range, or was before |
| `KeyPolicies.Store.SplitLegacyKeyPolicy` | internal/api/keys.go:350-415 | wherever a store call fails, the store is at a point of the conversion; on success every key has its copy and the shared policy is detached and gone; without failing calls and unreadable records it succeeds |
| `KeyPolicies.AttemptsAreOne` | internal/api/keys.go:342-415 | any number of attempts, each stopped anywhere, leave the store where a single one could have stopped |
| `KeyPolicies.CopyingSame` | internal/api/keys.go:388-407 | while copies are made no key or session of the user changes its access, unless a copy is written over a policy it is granted |
| `KeyPolicies.CopyingExactly` | internal/api/keys.go:388-407 | in general its access is the same if and only if it is refused outright for something not written over, or every statement written over so far is still among its statements |
| `KeyPolicies.StandingSame` | internal/api/keys.go:409-414 | nor does it change as long as the shared policy reaches it through a group or as its own |
| `KeyPolicies.WithdrawnExactly` | internal/api/keys.go:409-414 | once it does not, a key or session of any user has the same access if and only if it is refused outright as before, or every statement of a deleted or overwritten policy is among the statements it keeps |
| `KeyPolicies.PendingKeeps` | internal/api/keys.go:388-407 | a key without a policy of its own keeps its access, given that the shared policy can be read and no copy is written over a policy it is granted |
| `KeyPolicies.OwnPolicyKeeps` | internal/api/keys.go:388-391 | a key with its own policy keeps it if and only if that policy or another of the user's has every statement of the shared one |
| `KeyPolicies.SessionKeeps` | internal/s3/auth.go:217-243 | a session keeps it if and only if the user's other policies have every statement of the shared one, and one refused for an unusable policy stays refused only if another is unusable |
| `KeyPolicies.SessionGains` | internal/s3/auth.go:217-243 | a session gains access when the shared policy refused it, by a sure Deny or by not parsing, and the user's other policies allow |
| `KeyPolicies.HandAttachedLoses` | internal/api/keys.go:388-414 | a key with its own policy, of a user to whom the shared name was attached by hand, loses the statements of that policy |
| `KeyPolicies.AliceRefused` | internal/iam/conditions.go:24-72 | a request that this key was allowed before is refused after |
| `KeyPolicies.AttemptsExactly` | internal/api/keys.go:342-415 | over any number of attempts, at every stop: the same access while the shared policy reaches the key, and from then on exactly under the condition checked before the first attempt |
| `KeyPolicies.AttemptsKeepDecisions` | internal/api/keys.go:342-415 | and then every request is answered as before, however the policies are loaded; for a key without a policy of its own, under the conditions of `PendingKeeps`, at every stop |
| `KeyPolicies.OthersSame` | internal/s3/auth.go:245-270 | a key of another user changes nothing unless it is granted one of the names that are written |

## Left out

- GetObject.OpenCoded: opens one version; the one retry after a concurrent overwrite is in the commit protocol (`AloneRuns.OvertakenGet`), where versions come and go.
- StreamWrite.PutStreaming: stores with storage that works; failing storage calls and their cleanup are in the commit protocol, where a write is a sequence of calls with any outcomes.
- StreamWrite.PutBuffered: as `PutStreaming`.
- CommitSafety.NeverTorn: a reader that recovers stripe by stripe may use, in the model, a shard that the real one has given up, so gets the code fails may complete here; all that complete are covered.
- HTTP handlers, the admin API, the CLI, configuration and background scheduling: field copying and timing.
- Raft, BoltDB, the filesystem engine and the Reed-Solomon arithmetic: used through the contracts under "What is assumed".
- MD5, base64 and big-endian packing of checksum lists, JSON, xxhash and the CRC polynomial: checksums are lists of 32-bit sums of an arbitrary fold, hashes are numbers.
- Byte buffers are values. The one place where the source's buffer sharing shows, the degraded stream, models which block shares which buffer explicitly.
- Objects with shards of unequal recorded sizes, or with a checksum stripe other than the reader's, are outside `ShardFiles.Describes`, and so are coded objects of length zero.
- Shard path strings and shard names (two digits, so indexes below 100), and keys that collide inside the `.ec/` tree: one key with its own namespace.
- Closing readers, the `Verify` call of the decoder, and the ETag.
- `heal.dfy` walks one version; the scan over buckets and `isDegraded` are not modelled.
- `sort.Slice` is a function with a proof that it sorts; locks are not modelled, each ring, cache and manager call is one step.
- The settling of the first map in `internal/cluster/shardmapper.go`, the start and stop loop of the supervisor, and routed reads (`Call`): their decisions are covered by `Bootstrapping`, where groups start and stop at any time.
- `applyCommand` beyond object writes, the shard map and the gate of a shard's state machine; entries Raft does not hand to `Apply`.
- A configuration that cannot be read, which the configuration key store takes for an empty one.
- Two concurrent rotations of one bucket, which may both write version v + 1: key operations are taken one at a time.
- The FUSE metadata cache, writes and directory listing, and objects that change size under an open handle.
- The condition operators are arbitrary functions of their inputs, and so is the matcher in what is proved of evaluation for every matcher; a policy's `?` and star are taken byte by byte. Unreadable user, group-membership and key records beyond unreadable groups and policies.
- The narrowing policy of a scoped session, the external authorizer and the user's IP allowlist, which the conversion does not touch.
- Login, request signing, IP checks, replica repair and backups.
