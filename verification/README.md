# Models of the guest components

A Dafny model of five parts of the confidential-containers guest components, with proofs:

1. **The attestation event log** (`AaelEvent`, `Tcg2`, `Ccel`, `EventLogMachine`, `EventLogRuns`,
   `EventLogStore`, `Evidence`). `extend_entry` keeps a hardware register and a log file in step by
   way of a write-ahead log; `EventLog::new` recovers. `EventLogMachine` is a machine whose steps are
   the effects that survive a crash: one byte of a file, one register extension, one creation or
   deletion of a file. A crash may come between any two steps, recovery's own included.
   `EventLogRuns` says what whole runs leave in the log. `EventLogStore` has the same code as methods
   over files and shows that they take exactly the machine's steps. `Ccel` is the parser that joins
   the firmware's log with the agent's, and `Evidence` puts the parts together: in every run, what a
   verifier replays from the evidence gives the register.
2. **The streaming layer cipher** (`LayerCipher`, `BlockCipher`) and the list of wrapped keys
   (`KeyWrap`). `LayerCipher` is one machine, independent of chunking; `BlockCipher` has the
   readers that rewrite the caller's buffer in place.
3. **The concurrent layer pull** (`ImageMeta`, `LayerStore`, `LayerPull`) as interleaved task steps.
4. **Scope lookup** for signature policies and credentials (`ScopeLookup`, `Policy`): string loops
   against a definition of the best match that has no loops.
5. **The cached RPC client** (`RpcClient`) under any number of callers, and the **dm-verity** layout
   arithmetic (`DmVerity`).

The hash, the keystream, the MAC, base64 and the key wrappers are arbitrary functions: they are
fields of `Platform`, `Crypto`, `Base64` and `KeyWrapper`, so every result holds for all of them
under the stated laws. Strings of the event log are their UTF-8 bytes; `ByteCodec` defines which
byte strings are UTF-8, and proves that they are the encodings of scalar values. `Results` and
`Arithmetic` hold what several modules share.

## Hypotheses of the event log results

- Every call uses the PCR given to `new`, and restarts keep it. The write-ahead log records no PCR,
  and the register number in the entry comes from `self.pcr`.
- An error after the write-ahead log was begun counts as a crash.
- `RunSafe` supposes of each call that extending moves the register (`H(r ++ d) != r`) and that the
  offset fits in 64 bits. `RegisterMustMove` shows what goes wrong otherwise. It supposes no absence
  of collisions: if a shortened record leads to the expected register value, recovery extends the
  register with the shortened event and logs it, and `RunSafe` says that only then is the logged text
  not the whole text of its call.
- `TornHarmless`, `CallAtomic` and `StuckIff` do suppose that no shortened text of the same event
  collides with the whole one (`NoCollision`).
- `RunReplays` and `RunEvidenceReplays` suppose that the tagged text of every call is shorter than
  2^32 bytes: beyond that the cast to `u32` makes the entry ill-formed (`TextEntryWellFormedIff`).

## Where the code does less than one might expect

- `StuckIff`: a crash can leave the agent unable to start again, without the advice to delete the
  record, in exactly two situations.
  - The record was cut short but can still be read. For an event in ASCII that is any crash after the
    offset and the expected value were written (`AsciiTornStuckIff`). Deleting the record by hand is
    then safe (`TornDeletionSafe`).
  - The record is complete but its event cannot be read back, because only the content of an event is
    checked for newlines while its domain or operation may push one past the second space of the
    text (`NewlineInOperationDoesNotReparse`; `Reparses` is the exact condition on the fields, see
    `ReparseIff` and `RecoveryStartsIff`).
- `HandDeletionSafeIff`: deleting a record by hand, in whatever state, leaves log and register in step
  exactly if the register has not been extended for it yet or the last byte of its entry is already in
  the log. The record itself, the register and the end of the log tell which (`SafeToDelete`).
- `RejectedOnlyOnce`: a failed HMAC check is reported by one read; the next read is a clean end.
- `ReadsEverythingIff`: a read into a buffer without room is taken for the end of the stream, also
  with data left (`AesCtrBlockCipher.Read`, `AesCtrBlockCipher.PollRead`); reading to the end brings
  everything exactly if the last read had room or nothing was left.
- `CachedDiffIdNotChecked`, `DiffIdsMatchIff`: a layer cache hit is not compared with the image's diff id.
- `NamespacesDistinctIff`: a candidate is listed twice exactly when the host is itself written
  `*.something` without a port.
- `ScanBeyondIff`: the recovered layer index wraps around exactly when the largest machine word is a
  directory name.
- `RestartKeepsInvIff`: new paths stay apart from old ones over a restart exactly if some directory
  present has at least the index of every path handed out. Otherwise a path handed out before comes up
  again as the store goes on allocating (`LostPathIsReused`).
- `ScanSucceedsIff`: a start fails exactly when some directory entry is not the name of an index. A
  comment in the program says that such an entry does no harm; the model follows the code.
- `FreshClientDiscardedIff`: a caller that found its connection closed drops another one exactly when
  a connection was made since its own was the newest. `FreshClientDiscarded` is a run where this happens.
- `OverflowIff`: the first addition in rounding up the hash offset overflows for one accepted offset
  per block size; wrapping around, the quotient is still right.

## Model

| member | source | states |
|---|---|---|
| AaelEvent.PrintParsed | attestation-agent/attestation-agent/src/eventlog/mod.rs:288-316 | printing undoes a successful parse, for every text |
| AaelEvent.ParseSucceedsIff | attestation-agent/attestation-agent/src/eventlog/mod.rs:291-310 | a text parses exactly when two spaces split it with no newline after the second |
| AaelEvent.ReparseIff | attestation-agent/attestation-agent/src/eventlog/mod.rs:258-316 | the printed text of an event that the constructor accepts parses exactly under a condition on its fields, with or without spaces in them |
| AaelEvent.ReparseIsIdentityIff | attestation-agent/attestation-agent/src/eventlog/mod.rs:288-316 | the same event comes back exactly when domain and operation have no space |
| AaelEvent.NewlineInOperationDoesNotReparse | attestation-agent/attestation-agent/src/eventlog/mod.rs:277-310 | a concrete event the constructor accepts and the parser refuses |
| Tcg2.ToLeBytes | attestation-agent/attestation-agent/src/eventlog/tcg2.rs:83-98 | the serializing loop prints the entry of the standard |
| Tcg2.SerializedEvent | attestation-agent/attestation-agent/src/eventlog/mod.rs:103-109 | every byte of a serialized event, in literals: register, type 6, one digest with its identifier, lengths, tag and text; and that the digest is the hash of the event data |
| Tcg2.ReparsePreservesEntry | attestation-agent/attestation-agent/src/eventlog/mod.rs:103-109 | an event read back has the same log entry, digest and text as the one printed |
| Tcg2.TextEntryWellFormedIff | attestation-agent/attestation-agent/src/eventlog/tcg2.rs:128-164 | the entry of a text is well-formed exactly when its tagged length fits in 32 bits |
| Tcg2.TaggedReadsBack | attestation-agent/attestation-agent/src/eventlog/tcg2.rs:112-137 | the event data is the tag, the length cut to 32 bits and the text |
| Tcg2.EntryPrefix | attestation-agent/attestation-agent/src/eventlog/tcg2.rs:83-98 | well-formed entries are self-delimiting |
| Tcg2.PrintInjective | attestation-agent/attestation-agent/src/eventlog/tcg2.rs:83-98 | a log is the printout of at most one list of well-formed entries |
| Ccel.StopFlagValue | attestation-agent/attester/src/utils.rs:120-126 | the 64-bit comparison with the two stop values is all bytes 0xFF or all zero |
| Ccel.SkipDigests | attestation-agent/attester/src/utils.rs:143-164 | a digest list ends where it starts or at least 34 and at most 64 bytes past the input |
| Ccel.SkipOneDigest | attestation-agent/attester/src/utils.rs:143-164 | the bytes 0B 00, 0C 00, 0D 00 and 12 00 skip 34, 50, 66 and 34 bytes, any other two are refused |
| Ccel.DigestsByBytes | attestation-agent/attestation-agent/src/eventlog/tcg2.rs:50-57 | a well-formed digest prints as the identifier that belongs to its length, then itself |
| Ccel.SkipEntry | attestation-agent/attester/src/utils.rs:131-175 | every entry moves the index on by at least 16 and leaves it below length + 2^32 |
| Ccel.SkipHeader | attestation-agent/attester/src/utils.rs:88-114 | the index after the first entry is 28 or below length + 2^32 |
| Ccel.TrimHeader | attestation-agent/attester/src/utils.rs:88-114 | the checks on the first entry, every index a machine word |
| Ccel.TrimDigests | attestation-agent/attester/src/utils.rs:143-164 | the digest loop computes the walk over the list, every slice in range |
| Ccel.TrimEntry | attestation-agent/attester/src/utils.rs:131-175 | one turn of the loop computes where the entry ends |
| Ccel.TrimCcel | attestation-agent/attester/src/utils.rs:88-177 | the loop ends on every input, no index overflows or leaves the input, and it computes Trim with the same errors |
| Ccel.Trim | attestation-agent/attester/src/utils.rs:116-129 | a success is a prefix of the input that ends just before a stop flag |
| Ccel.TrimPrinted | attestation-agent/attester/src/utils.rs:88-177 | trimming a header, any printed entries, a stop flag and any trailing bytes gives exactly header and entries |
| Ccel.TrimSound | attestation-agent/attester/src/utils.rs:88-177 | whatever is accepted is a header, well-formed entries, a stop flag and a rest |
| Ccel.TrimAcceptsIff | attestation-agent/attester/src/utils.rs:88-177 | acceptance with a result is exactly membership in that grammar |
| Ccel.ReadEventlog | attestation-agent/attester/src/utils.rs:179-203 | there is no evidence log exactly without either log, an error exactly when the firmware log does not trim, else header or firmware part, agent log and end flag |
| Ccel.FixedHeader | attestation-agent/attester/src/utils.rs:73-79 | the bytes of the fixed header |
| Ccel.RetrimEventlog | attestation-agent/attester/src/utils.rs:179-203 | trimming the evidence log again gives the firmware's entries or the fixed header, then the agent's entries |
| Ccel.RetrimFirmwareOnly | attestation-agent/attester/src/utils.rs:179-203 | with no agent log, trimming again changes nothing |
| EventLogMachine.ReadWalRecord | attestation-agent/attestation-agent/src/eventlog/mod.rs:172-214 | a complete record reads back as what was written |
| EventLogMachine.WalRecordLayout | attestation-agent/attestation-agent/src/eventlog/mod.rs:172-181 | a record is the offset in big endian, the expected value and the text |
| ByteCodec.Utf8Iff | attestation-agent/attestation-agent/src/eventlog/mod.rs:206-207 | the texts that a record can be read with are exactly the encodings of lists of Unicode scalar values |
| EventLogMachine.ReadTornRecord | attestation-agent/attestation-agent/src/eventlog/mod.rs:194-214 | a record cut short reads, if at all, as the same offset and value with a shorter text |
| EventLogMachine.WriteKeepsFront | attestation-agent/attestation-agent/src/eventlog/mod.rs:67-83 | writing the next byte of an entry over whatever follows the offset keeps all that is already right |
| EventLogMachine.NextKeepsInv | attestation-agent/attestation-agent/src/eventlog/mod.rs:111-255 | every step of calls, crashes, recovery and deletion keeps the invariant |
| EventLogMachine.DeletionSafe | attestation-agent/attestation-agent/src/eventlog/mod.rs:160-162 | in every reachable state, deleting a record that cannot be read leaves log and register those of one list of texts |
| EventLogMachine.TornHarmless | attestation-agent/attestation-agent/src/eventlog/mod.rs:119-162 | after a crash while the record was written, recovery changes nothing |
| EventLogMachine.CallAtomic | attestation-agent/attestation-agent/src/eventlog/mod.rs:216-255 | whatever follows a call, log and register are as before it or hold exactly its one event more, and the latter if it returned |
| EventLogMachine.UninterruptedCall | attestation-agent/attestation-agent/src/eventlog/mod.rs:228-255 | a call without a crash appends the serialized event, extends the register with its digest and leaves no record |
| EventLogMachine.FinishReaches | attestation-agent/attestation-agent/src/eventlog/mod.rs:111-255 | from any reachable point the process, left alone, stops in the quiet state of the list it works towards |
| EventLogMachine.RecoveryExactlyOnce | attestation-agent/attestation-agent/src/eventlog/mod.rs:119-158 | recovery interrupted any number of times ends in the state of an uninterrupted call, even over arbitrary bytes past the offset |
| EventLogMachine.RecoveryStartsIff | attestation-agent/attestation-agent/src/eventlog/mod.rs:126-148 | recovery from a complete record gets under way exactly when the event reparses |
| EventLogMachine.StuckIff | attestation-agent/attestation-agent/src/eventlog/mod.rs:119-162 | the agent can never start again exactly from a readable record cut short or a complete one that does not reparse |
| EventLogMachine.AsciiTornStuckIff | attestation-agent/attestation-agent/src/eventlog/mod.rs:172-214 | for ASCII events, exactly once offset and expected value were written |
| EventLogMachine.TornDeletionSafe | attestation-agent/attestation-agent/src/eventlog/mod.rs:160-162 | deleting any record cut short restores the invariant |
| EventLogMachine.HandDeletionSafeIff | attestation-agent/attestation-agent/src/eventlog/mod.rs:246-255 | deleting any record by hand leaves log and register in step exactly under a check on record, register and the end of the log |
| EventLogMachine.RegisterMustMove | attestation-agent/attestation-agent/src/eventlog/mod.rs:131-151 | if an extension leaves the register as it was, a crash so many bytes into its call makes recovery log a shortened event that was never measured |
| EventLogRuns.RunSafe | attestation-agent/attestation-agent/src/eventlog/mod.rs:111-255 | over every run, whenever no record is left, log and register are those of one list of texts: one for each call that was measured, in order, and whole unless a shortened text collides |
| EventLogRuns.ReturnedIsLogged | attestation-agent/attestation-agent/src/eventlog/mod.rs:216-255 | every call that returned, or whose recovery came to its end, is among the calls logged from then on |
| EventLogStore.FileWriter.Write | attestation-agent/attestation-agent/src/eventlog/mod.rs:67-75 | write_all takes the machine's steps byte by byte and moves the cursor at the end |
| EventLogStore.EventLog.WriteWalCache | attestation-agent/attestation-agent/src/eventlog/mod.rs:172-181 | creates and fills the record in the machine's steps, register and log untouched |
| EventLogStore.EventLog.ExtendEntry | attestation-agent/attestation-agent/src/eventlog/mod.rs:228-255 | takes exactly the machine's steps from Begin to its end |
| EventLogStore.PlanRecovery | attestation-agent/attestation-agent/src/eventlog/mod.rs:119-142 | the checks of recovery decide as the machine does; an unreadable record, an unreadable event and a register that does not match have an error each |
| EventLogStore.CarryOut | attestation-agent/attestation-agent/src/eventlog/mod.rs:144-158 | the effects of recovery are the machine's steps to its end |
| EventLogStore.OpenEventLog | attestation-agent/attestation-agent/src/eventlog/mod.rs:111-170 | fails without effect exactly when the machine's recovery stays down, else runs it to the end |
| EventLogStore.TraceKeepsInv | attestation-agent/attestation-agent/src/eventlog/mod.rs:111-255 | every intermediate state of these methods keeps the invariant |
| Evidence.LogIsPrintout | attestation-agent/attestation-agent/src/eventlog/tcg2.rs:83-98 | the log of a list of texts is the printout of their entries |
| Evidence.LogDeterminesTexts | attestation-agent/attestation-agent/src/eventlog/tcg2.rs:83-164 | the log determines the list of events it was written for |
| Evidence.RunReplays | attestation-agent/attestation-agent/src/eventlog/mod.rs:216-255 | in every run, whenever no record is left, however the log is read as well-formed entries, replaying their digests gives the register, and each is an agent entry in the right register with the hash of its own data |
| Evidence.RunEvidenceReplays | attestation-agent/attester/src/utils.rs:179-203 | in every such state trimming the evidence log leaves the agent's log untouched, and it replays to the register |
| LayerCipher.ApplyTwice | ocicrypt-rs/src/blockcipher/aes_ctr.rs:159-178 | applying the keystream twice at the same position is the identity |
| LayerCipher.ChunkIndependent | ocicrypt-rs/src/blockcipher/aes_ctr.rs:143-247 | output and state before the end depend only on the bytes read, not on chunks, faults or waits |
| LayerCipher.DoneIsFinal | ocicrypt-rs/src/blockcipher/aes_ctr.rs:149-151 | once done, nothing changes |
| LayerCipher.WholeStream | ocicrypt-rs/src/blockcipher/aes_ctr.rs:143-247 | the whole life of a stream, its end and anything after it included |
| LayerCipher.RejectedOnlyOnce | ocicrypt-rs/src/blockcipher/aes_ctr.rs:149-175 | a failed check is reported once, then the stream ends cleanly |
| LayerCipher.AcceptsIff | ocicrypt-rs/src/blockcipher/aes_ctr.rs:158-175 | decryption accepts at its first end exactly when the MAC of what it read is the expected one |
| LayerCipher.NonceRecorded | ocicrypt-rs/src/blockcipher/aes_ctr.rs:66-106 | after init, looking the nonce up gives the nonce in use |
| LayerCipher.InitIff | ocicrypt-rs/src/blockcipher/aes_ctr.rs:53-108 | init succeeds exactly with good lengths and, to decrypt, an HMAC; the public nonce comes before the private one and both before a random one |
| LayerCipher.HandlerIff | ocicrypt-rs/src/blockcipher/mod.rs:166-204 | exactly when the handler accepts, the cipher's name included |
| LayerCipher.Replies | ocicrypt-rs/src/blockcipher/aes_ctr.rs:143-185 | what each outcome of the inner reader gives, before and after the end |
| LayerCipher.RoundTrip | ocicrypt-rs/src/blockcipher/mod.rs:164-213 | encrypting, finalizing and decrypting gives the plaintext and accepts, for every chunking on both sides |
| BlockCipher.ApplyInPlace | ocicrypt-rs/src/blockcipher/aes_ctr.rs:159-178 | the keystream over a part of a buffer, the rest untouched |
| BlockCipher.AesCtrBlockCipher.Start | ocicrypt-rs/src/blockcipher/aes_ctr.rs:52-109 | init, with each error and the recorded nonce |
| BlockCipher.AesCtrBlockCipher.FinalizedLbco | ocicrypt-rs/src/blockcipher/aes_ctr.rs:128-141 | publishes the MAC exactly when reading is done |
| BlockCipher.AesCtrBlockCipher.Read | ocicrypt-rs/src/blockcipher/aes_ctr.rs:143-185 | the blocking read is one step of the stream machine, in place in the buffer; without room in the buffer it ends the stream and leaves the data |
| BlockCipher.AesCtrBlockCipher.PollRead | ocicrypt-rs/src/blockcipher/aes_ctr.rs:187-247 | the asynchronous read is the same step, after the filled part; waiting changes nothing |
| BlockCipher.ReadsEverythingIff | ocicrypt-rs/src/blockcipher/aes_ctr.rs:153-156 | reading to the end brings all of the inner reader's data exactly if the last read had room or nothing was left |
| BlockCipher.Drain | ocicrypt-rs/src/blockcipher/mod.rs:256-259 | reading to the end through buffers of any sizes puts out what the stream machine does for all of the data |
| BlockCipher.EncryptThenDecrypt | ocicrypt-rs/src/blockcipher/mod.rs:245-273 | handler, drain, finalize, handler and drain again give the plaintext back, for all buffer sizes, chunks and waits |
| BlockCipher.LayerBlockCipherHandler.Encrypt | ocicrypt-rs/src/blockcipher/mod.rs:164-184 | key and cipher type enter the options, also when init then fails |
| BlockCipher.LayerBlockCipherHandler.Decrypt | ocicrypt-rs/src/blockcipher/mod.rs:186-204 | checks the cipher type and starts decryption |
| KeyWrap.SplitJoin | ocicrypt-rs/src/encryption.rs:95-113 | splitting at commas undoes joining of parts without commas |
| KeyWrap.JoinSplit | ocicrypt-rs/src/encryption.rs:95-113 | joining undoes splitting, for every string |
| KeyWrap.PreWrapKey | ocicrypt-rs/src/encryption.rs:77-98 | succeeds exactly when the wrapper gives a non-empty blob, and then splitting the result gives the old parts and one more, the new encoding |
| KeyWrap.ChainSplits | ocicrypt-rs/src/encryption.rs:77-113 | after any chain of wraps from the empty string, splitting gives the wrapped blobs in order |
| KeyWrap.PreUnwrapKey | ocicrypt-rs/src/encryption.rs:100-131 | the loop returns the first payload, stopping at text that does not decode |
| KeyWrap.FirstDecides | ocicrypt-rs/src/encryption.rs:112-131 | for any text, the first part that is not decoded and passed over decides: a payload, or the decoding error; if there is none, all errors are reported in order |
| KeyWrap.FirstThatUnwraps | ocicrypt-rs/src/encryption.rs:113-130 | the payload is that of the first blob that unwraps, and there is a failure exactly when none does |
| KeyWrap.WrapThenUnwrap | ocicrypt-rs/src/encryption.rs:77-131 | both together, for any chain of recipients |
| LayerStore.GetLayerIndex | image-rs/src/layer_store.rs:18-41 | the scan of the directory, with its error |
| LayerStore.IndexNameIff | image-rs/src/layer_store.rs:31-35 | an entry is the name of an index exactly if it is decimal digits within a machine word, perhaps after a plus sign |
| LayerStore.DecimalName | image-rs/src/layer_store.rs:54-55 | the name of an index is its decimal digits without leading zeros |
| LayerStore.LastComponent | image-rs/src/layer_store.rs:54-55 | the name is the last component of the path, under the directory |
| LayerStore.ScanSucceedsIff | image-rs/src/layer_store.rs:28-35 | it succeeds exactly when every entry is the name of an index |
| LayerStore.ScanBeyondIff | image-rs/src/layer_store.rs:25-40 | the recovered index is beyond all present exactly when the largest machine word is not among them |
| LayerStore.ScanIsPastLargest | image-rs/src/layer_store.rs:25-40 | it is one past an index present, whatever the listing order |
| LayerStore.Store.NewLayerStorePath | image-rs/src/layer_store.rs:52-56 | the path of the shared counter's old value |
| LayerStore.StepKeepsInvIff | image-rs/src/layer_store.rs:20-56 | a new name is no directory and was never handed out, and this stays so exactly under a condition on each step |
| LayerStore.RestartKeepsInvIff | image-rs/src/layer_store.rs:20-41 | a restart keeps new names apart from old ones exactly if some directory has at least every index handed out |
| LayerStore.PathsDistinct | image-rs/src/layer_store.rs:20-56 | over any interleaving of clones and restarts, all paths handed out differ from each other and from the directories present at the start |
| LayerStore.LostPathIsReused | image-rs/src/layer_store.rs:20-56 | after any other restart, some path handed out before it is handed out again |
| ImageMeta.CreateImageMeta | image-rs/src/image.rs:492-521 | the loop keeps the first occurrence of each digest with its diff id |
| ImageMeta.UniqueLayers | image-rs/src/image.rs:506-519 | the kept layers are the first with their digests, in order, without repeats, with all digests, each beside its own diff id |
| ImageMeta.LayerPaths | image-rs/src/image.rs:529-534 | the mount lists the layers' paths last to first |
| LayerPull.StepKeepsInv | image-rs/src/pull.rs:120-218 | every step of every layer task keeps the invariant of a pull |
| LayerPull.PullReturnsInOrder | image-rs/src/pull.rs:120-153 | for every interleaving a successful pull has one right meta per descriptor in manifest order, the bound holds, and new layers have store paths of their own |
| LayerPull.NoSlotNoSuccess | image-rs/src/pull.rs:147-149 | with no slot a pull never succeeds |
| LayerPull.CanSucceedIff | image-rs/src/pull.rs:120-153 | a pull of any layers can come to success exactly if there is a slot or nothing to pull |
| LayerPull.DiffIdsMatchIff | image-rs/src/pull.rs:163-217 | the result carries the image's diff ids exactly when the cached metas do |
| LayerPull.CachedDiffIdNotChecked | image-rs/src/pull.rs:163-165 | after a pull of any layer, a pull that lists it with any other diff id succeeds with the first one's meta |
| LayerPull.MetaStore.RecordPull | image-rs/src/image.rs:432-444 | every meta of the pull is in the database under its digest, the last one with a digest winning, all other keys are as before, and there are no more |
| LayerPull.CacheSound | image-rs/src/image.rs:432-439 | over all pulls, a key is its meta's digest and the meta passed the diff-id check in the pull that made it |
| LayerPull.CacheKeeps | image-rs/src/image.rs:432-439 | no later pull changes what the cache has of a digest |
| LayerPull.EarlierLayersHit | image-rs/src/image.rs:432-439 | every layer of an earlier pull is a cache hit ever after, with the meta of that pull |
| LayerPull.ResultCarriesDigests | image-rs/src/image.rs:422-444 | every entry carries its descriptor's digest, and the count never fails |
| ScopeLookup.GetImageNamespaces | image-rs/src/signature/image/mod.rs:60-112 | the loops end and list exactly the image's paths, from registry and repository down, then exactly the wildcard domains of its host, each from long to short |
| ScopeLookup.RegistryCandidates | image-rs/src/signature/image/mod.rs:60-112 | what that is for a registry without a slash, with and without a port |
| ScopeLookup.AuthKeysForKey | image-rs/src/auth/auth_config.rs:102-119 | truncation in place lists the same ancestors |
| ScopeLookup.AncestorsAre | image-rs/src/signature/image/mod.rs:81-89 | the listed names are exactly the prefixes that stop before a slash, and the name |
| ScopeLookup.AncestorsDescend | image-rs/src/auth/auth_config.rs:102-119 | they are listed longest first |
| ScopeLookup.WildcardsAre | image-rs/src/signature/image/mod.rs:100-109 | the wildcards are exactly those of the host's label suffixes |
| ScopeLookup.NamespacesAre | image-rs/src/signature/image/mod.rs:68-112 | the candidates are exactly ancestors and wildcards of the host without its port |
| ScopeLookup.NamespacesDistinctIff | image-rs/src/signature/image/mod.rs:68-112 | no candidate is listed twice, with the exact exception |
| Policy.SpecificityTotal | image-rs/src/signature/policy/mod.rs:103-130 | no two applying scopes are equally specific |
| Policy.MostSpecificScope | image-rs/src/signature/policy/mod.rs:103-130 | the requirements are those of the most specific scope present, the default exactly when there is none |
| Policy.OrganizationScope | image-rs/src/signature/policy/mod.rs:103-130 | a scope for an organization on a registry is found for its images |
| Policy.CredentialFromAuthConfig | image-rs/src/auth/auth_config.rs:22-56 | the credential of the longest key that is a path of the image, else of a key naming the registry, else anonymous |
| Policy.KeyNamesRegistry | image-rs/src/auth/auth_config.rs:68-76 | a key with a scheme names the part up to its first slash |
| Policy.DockerHub | image-rs/src/auth/auth_config.rs:68-85 | the names of Docker Hub are one registry |
| Policy.DecodedIs | image-rs/src/auth/auth_config.rs:90-101 | user and password are those on either side of the first colon, without newlines around the password; without a colon there is an error |
| RpcClient.NextKeepsInv | api-server-rest/src/client/ttrpc_client.rs:45-91 | every step of every caller, cancellation included, keeps the invariant |
| RpcClient.ConnectsConserved | api-server-rest/src/client/ttrpc_client.rs:45-91 | connects less emptyings is one or none as a client is cached, connects are at most one more than LocalClosed replies, requests sent at most two per call |
| RpcClient.SecondOnlyAfterClosed | api-server-rest/src/client/ttrpc_client.rs:72-85 | a second request is sent only after a LocalClosed reply to the same caller |
| RpcClient.ConnectExclusive | api-server-rest/src/client/ttrpc_client.rs:53-57 | at most one caller connects at a time, with the cell empty |
| RpcClient.NeverStuck | api-server-rest/src/client/ttrpc_client.rs:45-91 | while a call has not ended some caller can go on |
| RpcClient.ReplyDecides | api-server-rest/src/client/ttrpc_client.rs:72-90 | a reply makes the call succeed exactly if it is an answer; a first LocalClosed does not end it, any other does, with an error |
| RpcClient.SuccessWasAnswered | api-server-rest/src/client/ttrpc_client.rs:72-90 | a call that succeeded was answered |
| RpcClient.EndsOnlyBy | api-server-rest/src/client/ttrpc_client.rs:45-91 | a call ends only by a reply, a failed connect or its cancellation |
| RpcClient.SendsOnCached | api-server-rest/src/client/ttrpc_client.rs:45-72 | a request goes out on the connection in the cell, or on the one just made for it |
| RpcClient.FreshClientDiscardedIff | api-server-rest/src/client/ttrpc_client.rs:75-76 | in every run, emptying the cell drops another connection than the caller's own exactly when one was made since its own was the newest |
| RpcClient.FreshClientDiscarded | api-server-rest/src/client/ttrpc_client.rs:75-76 | a concrete run in which this happens |
| DmVerity.IsValidBlockSize | image-rs/src/verity/dmverity.rs:80-87 | accepts exactly the powers of two from 2^9 to 2^19 |
| DmVerity.Validate | image-rs/src/verity/dmverity.rs:29-78 | accepts exactly good hashes and layouts, with the error of the first check that fails |
| DmVerity.CaseOfNameFree | image-rs/src/verity/dmverity.rs:29-52 | the two algorithms are accepted in capitals too, another is refused |
| DmVerity.LayoutSound | image-rs/src/verity/dmverity.rs:136-186 | data below 2^51 bytes, sectors exact, hashes at the offset and past the data |
| DmVerity.OverflowIff | image-rs/src/verity/dmverity.rs:144-145 | the exact offsets for which rounding up overflows, and that wrapping gives the right block |
| DmVerity.LastBlockAccepted | image-rs/src/verity/dmverity.rs:69-78 | such an offset is accepted |

## Left out

- RpcClient: the readers-writer lock is modelled by its exclusion only, as steps of a state machine over values; fairness and wake-up order are not.
- BlockCipher.AesCtrBlockCipher.Read: shares the body of its one poll with PollRead, where the program writes it twice.
- EventLogRuns.RunSafe: a crash keeps a prefix of the bytes written so far; writes reordered by a disk cache are not modelled, nor is a missing log file as distinct from an empty one.
- EventLogRuns.RunSafe: PCRs other than the configured one, and going on in-process after a failed log write, which the write-ahead log does not cover.
- LayerPull.PullReturnsInOrder: the path counter does not wrap within a pull; decryption, decompression and unpacking are one step with the digest it reports.
- LayerStore.PathsDistinct: asks that the counter does not wrap and, at each restart, for the directory that `RestartKeepsInvIff` names.
- Policy.CredentialFromAuthConfig: the choice among several keys that name the same registry is left open, as hash-map order leaves it; base64 and UTF-8 decoding are one arbitrary function.
- DmVerity.Validate: option parsing (`parse_tarfs_options`, JSON, base64) and the device-mapper calls are not modelled; lower-casing is that of ASCII.
- KeyWrap.WrapThenUnwrap: one wrapper per position and one for unwrapping; the search over several wrapper schemes depends on hash-map order.
- The JSON form of the cipher options between encryption and decryption, and the base64 of the evidence log.
- AES, HMAC, SHA, JWE and base64 internals, which are arbitrary functions here.
- Attester hardware access, TPM and sysfs code, and the mapping of PCRs to registers, which is one number of the platform.
- Keystream exhaustion after 2^128 blocks.
- Equality of the mounted view before and after dropping repeated layers, which is not claimed.
- Tar unpacking, registry rewrite rules, token clients, servers, routers and command lines.
