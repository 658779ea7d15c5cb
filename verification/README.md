# Verified model of the Merkle vault's stateful core

This project models, in Dafny, the parts of the Merkle secrets vault that hold its state and its
string and address algorithms, and proves properties over all inputs, all runs or all reachable
states. `dafny verify dfyconfig.toml` checks everything.

| file | what it models |
|---|---|
| `AuditChain.dfy` | audit entries, the writer, the chain verifier with its three walks |
| `AuditEvidence.dfy` | what each verdict means: exact conditions, tamper evidence as a reduction to hash collisions |
| `AuditVault.dfy` | the entry table, the pinned head, the in-memory head, and the commit protocol under faults |
| `AuditLedger.dfy` | the whole protocol refined to an append-only ledger of (id, event) records |
| `AuditSnapshot.dfy` | a snapshot reader interleaved with writers |
| `AuditRebaseline.dfy` | changes of the audit key, the re-baseline command, and the verification query after them |
| `FtsQuery.dfy` | the FTS5 query sanitiser against a lexer |
| `LikePattern.dfy` | glob to `LIKE … ESCAPE` compilation against LIKE's semantics |
| `SecretSearch.dfy` | listing with limit pushdown; ranked search and paging |
| `SecretVersions.dfy` | secret and version upserts, cascading deletes, ordered loads |
| `SecretRows.dfy` | the `secrets` table over runs, when a put is accepted, the constraints every run keeps |
| `Base64.dfy`, `NestedMap.dfy` | the keystore's codec and the two shapes of its table |
| `KeystoreIndex.dfy`, `Keystore.dfy` | the sentinel index and the file keystore with faults in every persist |
| `Migration.dfy` | copy-only migration and its re-run |
| `UseTokens.dfy`, `PendingChallenges.dfy`, `RevealFlow.dfy` | token accounting, the one-shot registry, the reveal lifecycle |
| `Egress.dfy` | the egress address predicate and its two users |
| `Common.dfy` | result types and sequence helpers |

## How the outside world enters

- BLAKE3 and its keyed form are two arbitrary functions (`AuditChain.Crypto`). No injectivity is
  assumed: results that depend on the hash say "or here are two different messages, taken from the two
  logs, with the same digest". A forged head MAC is excluded by an explicit hypothesis
  (`AuditEvidence.HeadNotForged`) where one is needed.
- The hashed JSON text is represented by the record it encodes, and each MAC input by its fields.
- A SQLite transaction is one atomic step that either applies or leaves the tables unchanged, and a
  table read in `ORDER BY` order is a sequence. Its constraints (primary keys, unique indexes, foreign
  keys) are modelled.
- JSON, and JSON inside age, are function pairs with a round-trip law (`KeystoreIndex.Lawful`,
  `Keystore.Opens`). Base64 is modelled in full.
- Clocks, fresh ids, randomness, DNS answers and failures are parameters of the operations.
- Mutable objects are classes. Each class's methods are proved to perform the step of a value-level
  transition function, and the results about runs are proved of that function.

## Results worth knowing

- The commit protocol needs no bound on the number of entries: when the signed sequence column is
  exhausted, the saturated number is already taken, so the table refuses and the chain stays sound.
  It also survives a commit that is durable but reported as an error, which the listed fault cases of
  the source do not mention.
- A keyed Intact verdict means exactly "the issued history up to the position the head names". It does
  not mean the newest such position: an old row set with its own old head is also accepted.
- Sanitising preserves the token sequence exactly when no phrase directly touches a word that gets
  wrapped; with `"x"a-b` the closing and the added quote read as an escaped quote. Idempotence holds for
  every string anyway.
- Following `has_more` visits every match exactly when there are at most `LastEnd(limit)` of them, the
  first multiple of the limit at or above 2^32 - 1, because the total saturates.
- Re-running a failed migration always reaches the same stored entries. The listing is the exception:
  it is the uninterrupted one, in the same order, exactly when the failed store did not write a new
  account's entry without its index line, since the re-run skips accounts that are present.
- After any history of audit keys, one completed re-baseline makes the verification query pass on every
  snapshot of every continuation, quarantining exactly the rows stored before it. The baseline's tag
  covers an entry count that must fit the signed column, so an anchor at sequence number 2^63 - 1 would
  not authenticate when read back.
- A store or delete the file keystore acknowledged survives every crash, fault and reopening until the
  account is touched again. One that failed to persist is kept in memory and becomes durable with the
  next acknowledged change to any account.
- A put whose version id belongs to another secret does not load it under the new parent.
- Putting an existing secret again never changes its namespace, category or creation time.

## Where the code and its documentation differ

The model follows the code in each case.

- `crates/merkle-adapter-sqlite/src/audit.rs:106,146` speak of `BEGIN IMMEDIATE`; the code calls
  `pool.begin()`. Both are one atomic step here.
- `crates/merkle-adapter-keychain/src/file.rs:37` documents `<path>.tmp`; line 180 replaces the
  extension, so two keystores with one stem share a temporary file (`Keystore.TmpNameSharedIff`).
- `crates/merkle-domain-access-mediation/src/reveal_request.rs:44` draws `* → Expired`; line 159 refuses
  it from a terminal state.
- `crates/merkle-application/src/queries/verify_chain.rs:27-29` describes replaying entries through the
  writer; the code loads them verbatim.
- `crates/merkle-adapter-keychain/src/migrate.rs:24` calls the operation idempotent; see the result on
  listings above.

## Model

| member | source | states |
|---|---|---|
| AuditChain.SliceEntries | crates/merkle-domain-audit-compliance/src/verifier.rs:218-244 | the entries from the first `from_id` through the first `to_id` at or after it, both included, or to the end of the log |
| AuditChain.WalkEntries | crates/merkle-domain-audit-compliance/src/verifier.rs:605-640 | the loop stops at the first faulty entry with that entry's fault and count, or ends in the tip's state |
| AuditChain.VerifyRange | crates/merkle-domain-audit-compliance/src/verifier.rs:528-664 | the walk reports the earliest failing check, at the first faulty entry, with its counts |
| AuditChain.VerifyFromBaseline | crates/merkle-domain-audit-compliance/src/verifier.rs:399-492 | the anchored walk reports the earliest failing check and counts the quarantined prefix |
| AuditEvidence.WalkPassesIff | crates/merkle-domain-audit-compliance/src/verifier.rs:605-640 | the entry-by-entry walk passes exactly for a gap-free genesis-anchored chain with its tags |
| AuditEvidence.FullIntactIff | crates/merkle-domain-audit-compliance/src/verifier.rs:511-517 | a full pass is Intact iff key accepted, chain and tags hold, head authentic and equal to the tip |
| AuditEvidence.FullOutcome | crates/merkle-domain-audit-compliance/src/verifier.rs:246-371 | every outcome of a full pass that is not about an entry: key, genesis anchor, head, in order |
| AuditEvidence.FullBlames | crates/merkle-domain-audit-compliance/src/verifier.rs:605-640 | a full pass blames the first unsound entry |
| AuditEvidence.ChainedVerdict | crates/merkle-domain-audit-compliance/src/verifier.rs:286-371 | on a sound chain the verdict is the head-commitment check's, in its order |
| AuditEvidence.EmptyLogIntactIff | crates/merkle-domain-audit-compliance/src/verifier.rs:566-594 | an emptied log passes only if the surviving head itself claims the genesis position |
| AuditEvidence.RangeIntactIff | crates/merkle-domain-audit-compliance/src/verifier.rs:528-664 | a range of any log is Intact iff every entry of its inclusive window links, hashes and carries its tag; otherwise the first that does not is blamed, with its id and count |
| AuditEvidence.RangeReport | crates/merkle-domain-audit-compliance/src/verifier.rs:553-663 | the rest of the report: counts, head shown, and tags reported as checked only if they were |
| AuditEvidence.RangesOfIntactLog | crates/merkle-domain-audit-compliance/src/verifier.rs:519-534 | every range of an intact log is intact |
| AuditEvidence.ChainsAgree | crates/merkle-domain-audit-compliance/src/audit_entry.rs:87-171 | two chains with one digest at a position agree on all content below it, or collide |
| AuditEvidence.TamperEvident | README.md:208-211 | a keyed Intact verdict means the rows equal the issued history up to the pinned position, field by field |
| AuditEvidence.IssuedPrefixIntact | crates/merkle-domain-audit-compliance/src/verifier.rs:295-353 | every issued prefix with its own head verifies |
| AuditEvidence.IntactIffIssuedPrefix | crates/merkle-domain-audit-compliance/src/verifier.rs:348-353 | exactly the issued prefixes are accepted |
| AuditEvidence.HashOnlyContent | crates/merkle-domain-audit-compliance/src/verifier.rs:537-562 | without a key a trusted head still pins all content |
| AuditEvidence.BaselineIntactIff | crates/merkle-domain-audit-compliance/src/verifier.rs:666-714 | the anchored pass is Intact iff structure holds everywhere and tags from the anchor on, and quarantines exactly the prefix |
| AuditEvidence.BaselineOutcome | crates/merkle-domain-audit-compliance/src/verifier.rs:399-492 | every outcome of the anchored pass, in order, with the entry blamed |
| AuditEvidence.BaselineReport | crates/merkle-domain-audit-compliance/src/verifier.rs:456-491 | its counts, head and quarantine |
| AuditEvidence.FullIsBaselinePlusPrefixTags | crates/merkle-domain-audit-compliance/src/verifier.rs:668-678 | against a genuine anchor the full pass is the anchored pass plus the tags below it |
| AuditEvidence.BaselineKeepsContentEvidence | crates/merkle-domain-audit-compliance/src/audit_baseline.rs:36-39 | even quarantined rows are the issued ones, or a collision is exposed |
| AuditVault.SeqColumnRoundTrip | crates/merkle-adapter-sqlite/src/mappers.rs:318-320 | a sequence number survives the signed column iff it is at most 2^63 - 1 |
| AuditVault.HeadColumnRoundTrip | crates/merkle-adapter-sqlite/src/mappers.rs:344-373 | so does a pinned head; beyond that it is pinned at the last number |
| AuditVault.AuditStore.CommitAuditEntry | crates/merkle-adapter-sqlite/src/audit.rs:147-178 | entry and MAC-authenticated head change together or not at all |
| AuditVault.AuditStore.AppendAuditEntry | crates/merkle-adapter-sqlite/src/audit.rs:108-137 | the legacy append pins the head without its MAC |
| AuditVault.AuditStore.UpdatePinnedHead | crates/merkle-adapter-sqlite/src/audit.rs:339-370 | only the head singleton is replaced |
| AuditVault.AuditStore.SetAuditBaseline | crates/merkle-adapter-sqlite/src/audit.rs:420-457 | only the baseline singleton is replaced, with saturated numbers |
| AuditVault.AuditAgent.RestoreAuditChain | crates/merkle-application/src/context.rs:305-313 | the in-memory head becomes the persisted one |
| AuditVault.AuditAgent.AuditCommit | crates/merkle-application/src/commands/unseal_vault.rs:446-467 | append, persist, and roll the in-memory head back when persisting fails; on success the last row has the id and event passed in |
| AuditVault.CommitOutcome | crates/merkle-domain-audit-compliance/src/writer.rs:147-224 | a commit that goes through extends the stored chain by one entry with the given id and event, and pins its head |
| AuditVault.StepKeepsValid | crates/merkle-adapter-sqlite/src/audit.rs:139-178 | every step under every fault keeps the stored chain valid and append-only |
| AuditVault.RunKeepsValid | crates/merkle-application/src/context.rs:287-313 | over every run: sequence numbers 0..n-1, links, pinned head equal to the last row with its MAC |
| AuditVault.ReachableLogIsIntact | crates/merkle-application/src/queries/verify_chain.rs:51-71 | verification passes in every reachable non-empty vault |
| AuditVault.CommitAcceptedIff | crates/merkle-adapter-sqlite/src/migrations/001_initial.sql:40-54 | an append is accepted iff memory is in sync, the column is not exhausted, id and digest are new |
| AuditVault.HashClashIsCollision | crates/merkle-adapter-sqlite/src/migrations/001_initial.sql:52-52 | a refusal on the unique digest exposes a hash collision |
| AuditVault.SyncAfterRestore | crates/merkle-application/src/context.rs:289-299 | a restore brings memory in sync and fault-free commits keep it so |
| AuditVault.UnrestoredBootCannotAppend | crates/merkle-application/src/context.rs:292-295 | without the restore every append to a non-empty log is refused and changes nothing |
| AuditVault.AppendThenUpdateGap | crates/merkle-adapter-sqlite/src/audit.rs:98-104 | append-then-update passes through a state rejected with a head-MAC mismatch, then ends where the single transaction ends |
| AuditLedger.RunRefinesLedger | crates/merkle-domain-audit-compliance/src/writer.rs:147-224 | over every run and fault, the stored rows are field by field those of the durable commits, in order, each with its own id and event; which commits are durable is read off the actions |
| AuditSnapshot.RunKeepsHistory | crates/merkle-adapter-sqlite/src/audit.rs:459-474 | all committed states are valid and their rows only grow |
| AuditSnapshot.SnapshotIsOneCommittedState | crates/merkle-adapter-sqlite/src/audit.rs:475-496 | an isolated snapshot is one committed state, so its head matches its last entry and verification passes |
| AuditSnapshot.TornVerdict | crates/merkle-adapter-sqlite/src/audit.rs:462-466 | the exact verdict on entries paired with a later head |
| AuditSnapshot.SeparateReadsVerdict | crates/merkle-ports/src/storage.rs:221-230 | three reads give entries and the head of a committed state at or after them; the verdict is exact, and Intact iff no append came in between |
| AuditSnapshot.TornReadReachable | crates/merkle-adapter-sqlite/src/audit.rs:462-466 | a run of separate reads that returns no entries with the head of the first one |
| AuditRebaseline.EpochsKeepValid | crates/merkle-domain-audit-compliance/src/audit_baseline.rs:4-12 | whatever keys were used, the stored chain is sound and can be continued under any key |
| AuditRebaseline.BaselineStoredIff | crates/merkle-adapter-sqlite/src/audit.rs:424-427 | a baseline survives its columns iff the anchor is below sequence number 2^63 - 1 |
| AuditRebaseline.SetAuditBaseline | crates/merkle-application/src/commands/set_audit_baseline.rs:51-98 | marker, then a baseline at it made from the pinned head under the current key; what each failure leaves |
| AuditRebaseline.RunKeepsBaselines | crates/merkle-application/src/commands/set_audit_baseline.rs:11-13 | a baseline pinned from a head stays genuine in every later committed state |
| AuditRebaseline.QueryIntactIff | crates/merkle-application/src/queries/verify_chain.rs:59-71 | on any snapshot and key: answers iff a head is pinned, and is Intact iff chain, tags (from the anchor on, if any), anchor and authenticated head all hold |
| AuditRebaseline.QueryTamperEvident | crates/merkle-application/src/queries/verify_chain.rs:44-71 | an Intact query on any rows means they have the issued content up to the pinned position, or the hash is broken |
| AuditRebaseline.SnapshotQueryPasses | crates/merkle-application/src/queries/verify_chain.rs:44-71 | with one key the query passes on every isolated snapshot of every run whose baselines come from the command |
| AuditRebaseline.UnanchoredPassesIff | crates/merkle-application/src/queries/verify_chain.rs:63-71 | after a key change the full pass accepts the log iff all old tags hold under the new key too |
| AuditRebaseline.RebaselineRestoresVerification | crates/merkle-application/src/commands/set_audit_baseline.rs:1-13 | after any history of keys a completed re-baseline makes the query pass for every continuation, quarantining exactly the older rows |
| FtsQuery.CopyPhrase | crates/merkle-adapter-sqlite/src/secrets.rs:44-59 | the inner loop consumes exactly the phrase through its closing quote |
| FtsQuery.SanitizeFts5Query | crates/merkle-adapter-sqlite/src/secrets.rs:27-78 | the scan terminates and renders the lexed query with hyphenated quote-free words promoted to phrases |
| FtsQuery.LexRender | crates/merkle-adapter-sqlite/src/secrets.rs:30-77 | lexing loses no character |
| FtsQuery.LexSanitize | crates/merkle-adapter-sqlite/src/secrets.rs:40-76 | re-lexing the output gives the promoted tokens with touching phrases fused, for every string |
| FtsQuery.Idempotent | crates/merkle-adapter-sqlite/src/secrets.rs:19-27 | sanitising twice is sanitising once, for every string |
| FtsQuery.MeaningPreservedIff | crates/merkle-adapter-sqlite/src/secrets.rs:23-26 | the output lexes to the promoted tokens iff no phrase touches a promotable word |
| FtsQuery.GrowsByTwoPerPromotion | crates/merkle-adapter-sqlite/src/secrets.rs:69-75 | two characters per promotion, and unchanged iff there is none |
| FtsQuery.SanitizeWord | crates/merkle-adapter-sqlite/src/secrets.rs:62-75 | a word up to a separator is wrapped iff it has a hyphen and no quote |
| FtsQuery.SanitizeSeparator | crates/merkle-adapter-sqlite/src/secrets.rs:35-43 | whitespace, colons and parentheses are copied and end a word |
| FtsQuery.SanitizeQuoted | crates/merkle-adapter-sqlite/src/secrets.rs:44-61 | a quoted span is copied as it is |
| FtsQuery.ColumnFilter | crates/merkle-adapter-sqlite/src/secrets.rs:23-26 | the documented column filter: only the hyphenated term after the colon is wrapped |
| FtsQuery.TouchingExample | crates/merkle-adapter-sqlite/src/secrets.rs:45-49 | a query on which the token sequence is not preserved |
| LikePattern.CompileIsSinglePass | crates/merkle-adapter-sqlite/src/secrets.rs:361-365 | the four sequential replacements equal one per-character escape |
| LikePattern.CompilePreservesMeaning | crates/merkle-adapter-sqlite/src/secrets.rs:320-367 | LIKE with the escape matches exactly when the glob does, `*` being its only wildcard |
| LikePattern.StarFreeGlobIsLiteral | crates/merkle-adapter-sqlite/src/secrets.rs:357-360 | without a star a pattern names one handle up to ASCII case |
| LikePattern.FoldIff | crates/merkle-adapter-sqlite/src/secrets.rs:320-323 | what "up to ASCII case" means |
| SecretSearch.ListSecrets | crates/merkle-adapter-sqlite/src/secrets.rs:301-415 | succeeds iff every fetched row is readable, and returns the first `limit` rows of the fully filtered set |
| SecretSearch.LimitPushdown | crates/merkle-adapter-sqlite/src/secrets.rs:332-340 | the limit may be applied by SQL or after the tag filter with the same result |
| SecretSearch.SearchSecrets | crates/merkle-adapter-sqlite/src/secrets.rs:509-573 | page contents, saturated total, `has_more`, and offset + rank - 1 as the global index |
| SecretSearch.FollowPages | crates/merkle-companion-contract/src/lib.rs:324-350 | paging terminates without overflow and visits every match once in order, iff there are at most `LastEnd(limit)` |
| SecretSearch.OnePerPageExample | crates/merkle-adapter-sqlite/src/secrets.rs:526-532 | 2^32 matches paged one by one: the last is not reached |
| SecretVersions.SecretStore.PutSecret | crates/merkle-adapter-sqlite/src/secrets.rs:218-245 | the secret's row and all its versions change together, and a failed put changes nothing |
| SecretVersions.SecretStore.DeleteSecret | crates/merkle-adapter-sqlite/src/secrets.rs:418-436 | the secret and its versions go, or NotFound changes nothing |
| SecretVersions.PutAbsorbs | crates/merkle-adapter-sqlite/src/secrets.rs:84-124 | a put keeps first payloads, takes the new deprecations, and leaves other secrets alone |
| SecretVersions.PutLoadsAllIff | crates/merkle-adapter-sqlite/src/secrets.rs:229-237 | everything put is loaded iff no version id belongs to another secret |
| SecretVersions.SharedIdExample | crates/merkle-adapter-sqlite/src/secrets.rs:102-108 | a put that succeeds without its version being loaded |
| SecretVersions.LoadedVersions | crates/merkle-adapter-sqlite/src/secrets.rs:213-245 | after any run the load is the union since the last delete, first payload and last deprecation each |
| SecretVersions.RunKeepsNumbersUnique | crates/merkle-adapter-sqlite/src/migrations/001_initial.sql:38-38 | version numbers stay unique per secret over every run |
| SecretVersions.LoadVersionsForSecret | crates/merkle-adapter-sqlite/src/secrets.rs:280-298 | exactly the secret's versions, in ascending version number |
| SecretVersions.OrderedLoadUnique | crates/merkle-adapter-sqlite/src/secrets.rs:284-288 | that order determines the answer |
| SecretRows.RowAfterRun | crates/merkle-adapter-sqlite/src/secrets.rs:175-206 | after any run a secret has a row iff it was put since its last delete; namespace, category and creation time are the first put's, handle, metadata and current version the last's |
| SecretRows.DeleteFindsIff | crates/merkle-adapter-sqlite/src/secrets.rs:424-433 | a delete finds the secret iff it was put since its last delete |
| SecretRows.PutAcceptedIff | crates/merkle-adapter-sqlite/src/migrations/001_initial.sql:11-38 | a put is accepted iff its handle is free, its namespace or row exists, and every inserted version has a free number |
| SecretRows.RunKeepsConstraints | crates/merkle-adapter-sqlite/src/migrations/001_initial.sql:11-38 | handles stay unique and all references resolve over every run |
| SecretRows.FoundByHandleIff | crates/merkle-adapter-sqlite/src/secrets.rs:247-277 | after any run a handle finds exactly the secret last put under it |
| Base64.EncodeRoundTrip | crates/merkle-adapter-keychain/src/file.rs:162-167 | decoding undoes encoding for every byte string |
| Base64.DecodeIsCanonical | crates/merkle-adapter-keychain/src/file.rs:425-428 | only canonical text is accepted |
| Base64.UrlFormInjective | crates/merkle-domain-access-mediation/src/use_token.rs:84-89 | different bytes have different URL-safe texts |
| Base64.UrlFormLength | crates/merkle-domain-access-mediation/src/use_token.rs:85-88 | 32 bytes give 43 characters |
| Base64.AlphabetIsTable | crates/merkle-adapter-keychain/src/file.rs:162-167 | the standard and URL-safe alphabets, tables 1 and 2 of RFC 4648 |
| Base64.Vectors | crates/merkle-adapter-keychain/src/file.rs:162-167 | padded test vectors of section 10 of RFC 4648 |
| Base64.GroupVector | crates/merkle-domain-access-mediation/src/use_token.rs:84-89 | an unpadded one across a group |
| NestedMap.BuildNested | crates/merkle-adapter-keychain/src/file.rs:160-167 | any iteration order builds the nested form of the flat map |
| NestedMap.Flatten | crates/merkle-adapter-keychain/src/file.rs:419-431 | loads iff every value decodes, and then to exactly the flat map |
| NestedMap.NestsUnique | crates/merkle-adapter-keychain/src/file.rs:160-167 | the nested form is determined by the flat map |
| NestedMap.FlattensToUnique | crates/merkle-adapter-keychain/src/file.rs:422-431 | the flat map is determined by the nested form |
| KeystoreIndex.IndexAdd | crates/merkle-adapter-keychain/src/index.rs:59-65 | appended iff absent, with the change reported |
| KeystoreIndex.IndexRemove | crates/merkle-adapter-keychain/src/index.rs:70-74 | all occurrences removed in order, with the change reported |
| KeystoreIndex.StoreAgrees | crates/merkle-adapter-keychain/src/file.rs:254-272 | a store keeps the service's index decodable, duplicate-free and equal to its accounts |
| KeystoreIndex.DeleteAgrees | crates/merkle-adapter-keychain/src/file.rs:293-316 | so does a delete, with its outcome |
| KeystoreIndex.StoreKeepsConsistentIff | crates/merkle-adapter-keychain/src/file.rs:258-270 | which stores keep all services' indexes in agreement, exactly |
| KeystoreIndex.DeleteKeepsConsistentIff | crates/merkle-adapter-keychain/src/file.rs:302-314 | which deletes do, exactly |
| KeystoreIndex.SentinelOverwriteExample | crates/merkle-adapter-keychain/src/file.rs:255-259 | storing to a sentinel directly can list an account that does not exist |
| Keystore.TmpNameDiffersIff | crates/merkle-adapter-keychain/src/file.rs:180-180 | the temporary name differs from the keystore's iff the path ends in a file name, not in an empty component, `.` or `..` |
| Keystore.TmpNameOf | crates/merkle-adapter-keychain/src/file.rs:180-180 | what follows the last dot is replaced by `age.tmp`, and without one it is appended |
| Keystore.TmpNameSharedIff | crates/merkle-adapter-keychain/src/file.rs:180-180 | two names share a temporary name iff they share a stem |
| Keystore.WrittenLoads | crates/merkle-adapter-keychain/src/file.rs:157-170 | what persist writes loads back as the same map |
| Keystore.FileKeystore.Persist | crates/merkle-adapter-keychain/src/file.rs:157-225 | stopped anywhere, the next open sees the old map; completed, the new one; no other file is touched |
| Keystore.FileKeystore.StoreSecret | crates/merkle-adapter-keychain/src/file.rs:242-273 | the store step, including the change kept in memory when the persist fails |
| Keystore.FileKeystore.DeleteSecret | crates/merkle-adapter-keychain/src/file.rs:291-317 | the delete step and its outcome |
| Keystore.FileKeystore.List | crates/merkle-adapter-keychain/src/file.rs:320-329 | the decoded index, which covers the stored accounts in a consistent map |
| Keystore.FileKeystore.Open | crates/merkle-adapter-keychain/src/file.rs:119-148 | loads what the file holds, refuses one that does not decode, starts empty without one |
| Keystore.RunKeepsConsistent | crates/merkle-adapter-keychain/src/index.rs:13-15 | over every run of stores, deletes, faults, crashes and reopenings, index and map agree in memory and on disk |
| Keystore.ListAfterRun | crates/merkle-adapter-keychain/src/file.rs:319-329 | so list returns each stored account once and nothing else |
| Keystore.RetrieveAfterRun | crates/merkle-adapter-keychain/src/file.rs:278-285 | over every run, the value held is the last one stored and not deleted since the file was opened, or else the file's |
| Keystore.FileIsLastAcknowledged | crates/merkle-adapter-keychain/src/file.rs:157-225 | the file is the whole memory as of the last acknowledged change |
| Keystore.AcknowledgedSurvives | crates/merkle-adapter-keychain/src/file.rs:242-317 | an acknowledged store or delete holds in memory and file through every continuation that leaves the account alone |
| Migration.MigrateAccounts | crates/merkle-adapter-keychain/src/migrate.rs:25-43 | completes iff nothing is unreadable or fails; then the destination-wins union, entries and listing, with exactly the new accounts returned once each; after a failure exactly `Left` |
| Migration.LeftBetween | crates/merkle-adapter-keychain/src/migrate.rs:16-18 | failed or not, no destination value changes and every addition is the source's |
| Migration.RerunReachesUnion | crates/merkle-adapter-keychain/src/migrate.rs:20-24 | a re-run from any failure reaches the same entries |
| Migration.RerunCompletesIff | crates/merkle-adapter-keychain/src/os.rs:84-131 | failing and re-running equals one uninterrupted run, listing included, iff the failed store did not leave a new account unlisted |
| Migration.UnlistedExample | crates/merkle-adapter-keychain/src/os.rs:84-97 | one account, one such failure: after the re-run it is stored and not listed |
| Migration.MigrateAndResume | crates/merkle-adapter-keychain/src/migrate.rs:20-24 | failing and re-running, as documented: same entries always, same listing iff nothing was left unlisted |
| UseTokens.TokenRegistry.RegisterUseToken | crates/merkle-application/src/context.rs:350-353 | the token is stored under its text, replacing an equal key |
| UseTokens.TokenRegistry.ConsumeUseToken | crates/merkle-application/src/context.rs:364-386 | the checks in order; a failure leaves the registry unchanged |
| UseTokens.TokenRegistry.CloseSessionState | crates/merkle-application/src/context.rs:244-250 | all tokens are revoked and counted, saturating |
| UseTokens.TokensConserved | crates/merkle-domain-access-mediation/src/use_token.rs:20-26 | live before + registered = live after + used + discarded unused, for every key and run |
| UseTokens.UsesBoundedByRegistrations | crates/merkle-domain-access-mediation/src/use_token.rs:126-132 | no key is used more often than registered |
| UseTokens.NoReplay | crates/merkle-application/src/context.rs:362-363 | after a use, no later run without a new registration uses the key again |
| UseTokens.UseSucceedsIff | crates/merkle-application/src/context.rs:364-386 | after any run, a use succeeds iff the key's current registration, neither replaced nor revoked, is unused, for this handle and unexpired |
| UseTokens.UseOutcome | crates/merkle-application/src/context.rs:364-386 | each error of a use, exactly, in terms of the key's current registration |
| UseTokens.KeysIdentifyTokens | crates/merkle-domain-access-mediation/src/use_token.rs:84-89 | keys are equal iff the token bytes are |
| PendingChallenges.PendingChallengeRegistry.Register | crates/merkle-adapter-oob/src/pending.rs:39-43 | the new sender replaces and closes an old one |
| PendingChallenges.PendingChallengeRegistry.Resolve | crates/merkle-adapter-oob/src/pending.rs:49-55 | the sender is removed and used, or nothing happens |
| PendingChallenges.PendingChallengeRegistry.Cancel | crates/merkle-adapter-oob/src/pending.rs:59-61 | the sender is dropped |
| PendingChallenges.PendingChallengeRegistry.Len | crates/merkle-adapter-oob/src/pending.rs:63-67 | the number of receivers still waiting, which balances the calls made so far |
| PendingChallenges.EveryFateExplained | crates/merkle-adapter-oob/src/pending.rs:30-61 | every receiver has one fate, and a resolution reaches it only for its own id while it is the latest registration |
| PendingChallenges.SettledStays | crates/merkle-adapter-oob/src/pending.rs:45-48 | a settled receiver never changes, so it gets at most one resolution |
| PendingChallenges.PendingCount | crates/merkle-adapter-oob/src/pending.rs:63-67 | pending = registrations - evictions - resolves and cancels that hit |
| PendingChallenges.SendersAreWaiting | crates/merkle-adapter-oob/src/pending.rs:30-61 | over every run, as many senders are registered as receivers are waiting |
| RevealFlow.EvaluateMonotone | crates/merkle-domain-access-mediation/src/decision.rs:81-113 | stronger evidence or a laxer policy is never denied where the weaker was allowed, nor by an earlier rule |
| RevealFlow.EvaluateIff | crates/merkle-domain-access-mediation/src/decision.rs:81-113 | allowed, and each denial reason, exactly, case by case over the inputs' own fields |
| RevealFlow.RevealRequest.Issue | crates/merkle-domain-access-mediation/src/reveal_request.rs:98-108 | the transition, or an error that changes nothing |
| RevealFlow.RevealRequest.ResolveWith | crates/merkle-domain-access-mediation/src/reveal_request.rs:121-150 | the transition with the id correlation, or an error that changes nothing |
| RevealFlow.RevealRequest.ExpireNow | crates/merkle-domain-access-mediation/src/reveal_request.rs:158-170 | the transition, or an error that changes nothing |
| RevealFlow.RunInvariant | crates/merkle-domain-access-mediation/src/reveal_request.rs:12-28 | which fields are recorded in which state, and that recorded ids agree, over every run |
| RevealFlow.RecordedForGood | crates/merkle-domain-access-mediation/src/reveal_request.rs:126-149 | terminal states are absorbing and recorded values never change, over any continuation |
| RevealFlow.OutcomeExplained | crates/merkle-domain-access-mediation/src/reveal_request.rs:143-149 | approved iff the settling call was a resolve whose inputs met all three rules, spelled out |
| RevealFlow.SettledOnce | crates/merkle-domain-access-mediation/src/reveal_request.rs:126-131 | exactly one call settles a request |
| RevealFlow.OpenUntilSettled | crates/merkle-domain-access-mediation/src/reveal_request.rs:98-170 | the whole state machine from the calls alone: open until the first settling call, holding the first challenge |
| RevealFlow.CallOutcome | crates/merkle-domain-access-mediation/src/reveal_request.rs:98-170 | which calls succeed after any run, their result, and the error of those that do not |
| Egress.ForbiddenV4IffBlocks | crates/merkle-adapter-external-services/src/destination_policy.rs:166-211 | the octet tests are membership in a fixed union of CIDR blocks |
| Egress.ForbiddenV6IffBlocks | crates/merkle-adapter-external-services/src/destination_policy.rs:226-242 | the segment masks are membership in a fixed union of CIDR blocks |
| Egress.MappedExactly | crates/merkle-adapter-external-services/src/destination_policy.rs:148-151 | the mapped form is recognised exactly and undone |
| Egress.Nat64Exactly | crates/merkle-adapter-external-services/src/destination_policy.rs:215-224 | the NAT64 form is recognised exactly and undone |
| Egress.VerdictSharedByEmbeddings | crates/merkle-adapter-external-services/src/destination_policy.rs:144-164 | one verdict for an IPv4 address and both its IPv6 forms |
| Egress.ForbiddenIpIffBlocks | crates/merkle-adapter-external-services/src/destination_policy.rs:144-164 | the whole predicate as block membership |
| Egress.CheckAddresses | crates/merkle-adapter-external-services/src/destination_policy.rs:89-103 | accepts iff no address is forbidden, else names the first |
| Egress.ScreenAgreesWithPreflight | crates/merkle-adapter-external-services/src/dns_guard.rs:64-74 | the answer at exactly the permitted positions, in order; fails iff there are none; the whole answer iff the pre-flight accepts it |

## Left out

- The CLI, the MCP server, prompts, output, metrics, configuration and process lifecycle: no deep invariant.
- The companion socket, peer credentials, the HTTP client, URL parsing and DNS itself: plumbing around the modelled predicates.
- The internals of BLAKE3, XChaCha20, Argon2id, age, Ed25519 and ECIES: foreign code, taken as functions.
- FTS5 matching and BM25 scores: a given match set in a given order.
- How an audit key comes to change: a run is a sequence of epochs with given keys.
- The audit webhook, filtered audit queries and the serialisation-failure outcome of the verifier, which its source calls infallible.
- NUL characters in LIKE patterns and handles, at which SQLite's matcher stops.
- Time stamps and expiry dates are compared as numbers, not as text.
- UseTokens.TokenRegistry.ConsumeUseToken: the token is a value inside the registry map, so consuming it is a map update rather than a mutation through a reference.
- Keystore.FileKeystore.Persist: file permissions and directory creation are not modelled; a failure there is a fault before the create.
- Paths: a keystore is named by the last component of its path, in one directory.
- A keychain that stores other bytes than it was given: a failing store wrote the entry as given or not at all.
- Tempfile reaping, port forwards and backups act on the operating system; namespaces, devices, policies and restore plans are separate tables that none of the modelled operations writes.
