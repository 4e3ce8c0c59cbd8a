# Verification of stored state in Graphica / arcxa

This project models the parts of the repository in which stored state has to keep its meaning while
it is moved, cached or rewritten, and proves what they promise.

* **Index migration** (`IndexFormat`, `MigrationProtocol`, `MigrationDatabase`).  Old-format index
  entries (`key -> set of event ids`) are rewritten into composite keys (`key|id -> empty`) in atomic
  write batches, with a persisted status.  Every write may fail, which is also how a crash shows.
  The committed states of any number of attempts form a run; over every run the logical index never
  changes, and a run that reaches "complete" ends in exactly what one uninterrupted rewriting gives,
  stated entry by entry.  An error always has a cause: a missing family or exactly one failed write.
* **Embedding cache** (`Lru`, `LruInclusion`, `EmbedTraffic`, `EmbeddingCache`, `ModelService`).  The
  map and the recency deque agree in every run exactly when the capacity is at least 1; a smaller
  cache is included in a larger one on every trace; the service is transparent exactly when inference
  respects the key normalization; under embed traffic the deque is the most recent distinct keys; the
  counters are the numbers of lookups that found, or did not find, their key.
* **Data source catalog** (`SourceTypes`, `Text`, `Credentials`, `CredentialMigration`, `CatalogModel`,
  `CatalogProperties`, `CatalogReading`, `CatalogStore`).  When the secrets that promotions write are unused and read by
  no other record, each record keeps its login through every turn, store failure, save failure and
  restart, exactly unless it lived on the empty login and its credential keys are now read from the
  store; for any promotion whatever the login of the promoted record and of every other one survives
  under an exact condition.  A restart is invisible when writes succeed and no update is rejected; in
  every run without rejected updates, failed writes and restarts included, an operational source was
  verified since its last saved connection change, and since unsaved ones exactly unless a restart
  undid one.  After every run whatever, a source is listed exactly when a saved registration of it has
  no later saved deletion, and what each request leaves to be read is stated field by field.
  Where the code breaks one of these, a lemma shows the input and another gives the exact condition.
* **Row-storage refactor** (`RowStorage`, `Deduplicator`, `ExecutionContext`).  New step execution
  simulates the old one, also through the compatibility wrapper; the streaming deduplicator keeps
  exactly the first row of each key.
* **Smaller parts** (`Turtle`, `ColumnUris`, `RowGroups`, `ConnectorStore`, `Pooling`).  Among them: the
  connector store over every run of successful and failed upserts, in memory and after reopening.

Foreign calls are inputs: JSON decoding, the key order of a database iterator, tokenization and
inference, lower-casing, white space and alphanumeric tests, connectors, and the outcome of each write
or secret-store call.  Where a law of such an input is needed it is a named predicate (`Faithful`,
`Sane`, `Respects`, `RoundTrips`).

Results that say the code falls short of what one would expect of it:

* status detection samples five entries of one family, so a database with old entries can count as
  migrated (`SamplingMissesOldData`); `MigrateDatabase` states when the database ends up clean;
* an old entry whose key holds the separator is skipped, and loses its ids when a composite key equal
  to it is put (`SeparatorEntryKeptIff`);
* a cache of capacity 0 keeps entries its deque does not know (`ZeroCapacityOverflows`);
* a source that resolved with an empty login stops resolving once its unusable credential keys are
  promoted (`ApiKeySourceStopsResolving`, `FreshPromotionKeepsLoginIff`); a secret that exists already
  replaces the inline credentials (`PromotionKeepsLoginIff`), so two ids with the same last segment
  share one login (`SharedRefKeepsLoginIff`, `SharedSuffixMixesLogins`); the migration leaves the
  status of such a source alone (`MigratedStatusAndLogin`);
* a written secret can change the login of another record (`BystanderKeepsLoginIff`): a failed
  existence check overwrites a secret for all its readers (`FailedCheckOverwrites`), and a reference
  that differs in its scheme only gets a stranger's login (`SchemeAliasLeaksLogin`);
* a registration that cannot be saved leaves its secret in the store (`FailedRegistrationKeepsSecret`);
* a rejected catalog update has already edited the record in memory, so memory and disk part
  (`RejectedUpdateMirrorsIff`) and an untested endpoint keeps its Active status (`StaleActiveIff`,
  `RejectedUpdateStaysQueryable`), although the status comment says Active means ready for use; the
  next synchronization mark or accepted update of other fields, or a turn of the credential migration,
  makes that permanent (`RejectedEndpointPersistsIff`, `RejectedEndpointMigrates`);
* an update whose disk write fails is undone by a restart, and with it the loss of the Active status
  (`FailedSaveRevivesActive`, `RestartAfterFailedUpdate`, `VerifiedIffNotUndone`);
* a step output whose `_rows` is no array makes old and new execution differ (`NonArrayRowsDiverge`,
  `StepSimulatesIff`), and an output that brings its own `_row_count` can make the count wrong
  (`StepCountsIff`);
* table datasets of different sources can share a URI (`TableDatasetsCollideIff`);
* a connector whose upsert was reported as failed is served from memory, and the next successful
  upsert of any connector makes it durable (`ReopenShowsLastWritten`, `AgreementIff`).

The comments of the migration speak of a `Vec` of ids and of a dual-write mode; the code decodes a
set and has no such mode, and the model follows the code.

## Model

| member | source | states |
|---|---|---|
| IndexFormat.SplitComposite | arcxa-migrations/src/lib.rs:230-243 | splitting a composite key at its first separator gives back key and id, for every separator-free key and any id |
| IndexFormat.SplitMeaning | arcxa-migrations/src/lib.rs:230-243 | a stored key splits into key and id exactly when it is the key, its first separator byte (124), and the id |
| IndexFormat.CompositeInjective | arcxa-migrations/src/lib.rs:122-130 | composites of distinct pairs never collide and never equal a separator-free (old) key |
| IndexFormat.RewritePreservesMeaning | arcxa-migrations/src/lib.rs:119-133 | rewriting any set of old entries leaves the ids indexed under every separator-free key unchanged |
| IndexFormat.RewriteCompose | arcxa-migrations/src/lib.rs:104-151 | rewriting in two installments equals rewriting once |
| IndexFormat.RewriteOldKeys | arcxa-migrations/src/lib.rs:108-133 | rewriting removes exactly the rewritten old entries and no other |
| IndexFormat.SeparatorEntryKeptIff | arcxa-migrations/src/lib.rs:113-130 | an entry whose key holds the separator keeps its value exactly when that is empty already or no rewritten old entry has that composite key |
| IndexFormat.RewriteConverts | arcxa-migrations/src/lib.rs:104-151 | rewriting a family converts it entry by entry: a non-empty decodable value under a separator-free key is gone and every composite key of its ids is there and empty, every other entry is there, and nothing else is |
| MigrationProtocol.RunIsPartialRewrite | arcxa-migrations/src/lib.rs:93-216 | in every committed state of every run each family is the initial one with exactly its missing old entries rewritten |
| MigrationProtocol.RunPreservesIndex | arcxa-migrations/src/lib.rs:93-216 | over every run of starts, batch commits, crashes and resumptions the logical index of every family is the same |
| MigrationProtocol.RunCompleteIsClean | arcxa-migrations/src/lib.rs:182-208 | once a run has written "complete" no migratable family ever holds an old entry again |
| MigrationProtocol.CompletedRunIsOneRewrite | arcxa-migrations/src/lib.rs:162-216 | a completed run, however often interrupted, ends in the family one uninterrupted rewriting gives, and a new-format reader finds the initial ids |
| MigrationProtocol.SamplingMissesOldData | arcxa-migrations/src/lib.rs:42-49 | with all four families present, five new-format entries hide an old entry from the status detection, so the database counts as migrated and is not clean |
| MigrationProtocol.DetectionIffSampled | arcxa-migrations/src/lib.rs:42-90 | without a status cell a database counts as old exactly when one of the first five entries of `record_idx` has a non-empty decodable value, and as complete exactly when none has; a family of at most five entries is never misjudged |
| MigrationProtocol.StatusRoundTrips | arcxa-migrations/src/lib.rs:31-66 | a status that was set is read back, "migrating" and "complete" are the texts of those states, and any unknown text reads as the old format |
| MigrationDatabase.QueueEntry | arcxa-migrations/src/lib.rs:120-133 | the queued operations put every composite key, delete the old key, and are counted one per id |
| MigrationDatabase.RewriteOneMore | arcxa-migrations/src/lib.rs:120-133 | applying one entry's operations extends the rewriting by exactly that key |
| MigrationDatabase.Database.MigrateEntry | arcxa-migrations/src/lib.rs:119-141 | the commit guard keeps: a count that is a multiple of 1000 means an empty batch and everything handled is committed |
| MigrationDatabase.Database.MigrateColumnFamily | arcxa-migrations/src/lib.rs:93-159 | on success every old entry has been rewritten, the count is the number of composite keys they stand for, and a finished family writes nothing and counts 0; every committed state is a protocol step, no other family changes, and an error means a missing family or one failed write |
| MigrationDatabase.Database.GetMigrationStatus | arcxa-migrations/src/lib.rs:31-52 | the detected status, with unknown texts read as old format and a missing cell decided by sampling |
| MigrationDatabase.Database.HasOldFormatSample | arcxa-migrations/src/lib.rs:69-90 | true exactly if one of the first five entries of the first family has a non-empty decodable value |
| MigrationDatabase.Database.MigrateDatabase | arcxa-migrations/src/lib.rs:162-216 | whatever fails, the committed states form a protocol run and no other family changes; with all families there the call fails exactly when a write failed, so an interrupted migration is resumed; success converts the four families entry by entry, and leaves the database clean exactly if the status was not already complete or it was clean before |
| MigrationDatabase.Database.DecodeNewFormat | arcxa-migrations/src/lib.rs:220-243 | the decoded map holds, under each key, exactly the ids of its composite keys |
| Lru.RunKeepsInv | arcxa-model-service/src/cache.rs:63-76 | for capacity at least 1 every sequence of operations keeps the deque duplicate-free, its keys equal to the map's, and its size within the capacity |
| Lru.InvariantIffPositiveCapacity | arcxa-model-service/src/cache.rs:67-76 | that invariant holds after every sequence exactly when the capacity is at least 1 |
| Lru.ZeroCapacityOverflows | arcxa-model-service/src/cache.rs:67-76 | with capacity 0 one put leaves an entry the deque does not know |
| Lru.PutProps | arcxa-model-service/src/cache.rs:63-76 | a put moves its key to the front, a full cache drops exactly its least recent key, all other values stay |
| Lru.CountersCount | arcxa-model-service/src/cache.rs:42-60 | after any trace the hits are the number of lookups since the last clear that found their key in the state they met, and the misses the number of the others |
| Lru.FoundIsLastPut | arcxa-model-service/src/cache.rs:42-76 | whatever the capacity, a lookup that finds something finds the value last put under its key since the last clear |
| Lru.PutIsFound | arcxa-model-service/src/cache.rs:63-76 | for capacity at least 1 the value just put is found |
| LruInclusion.Inclusion | arcxa-model-service/src/cache.rs:42-98 | on the same trace the smaller cache's recency list is a subsequence of the larger one's, with equal values and no more hits |
| LruInclusion.HitsAreIncluded | arcxa-model-service/src/cache.rs:42-60 | every lookup a cache of capacity m answers, one of capacity n >= m answers with the same value |
| EmbedTraffic.TransparentIffRespects | arcxa-model-service/src/main.rs:68-133 | for every history and eviction pattern the service answers as uncached inference does, exactly when inference respects the key normalization |
| EmbedTraffic.RecencyIsMostRecent | arcxa-model-service/src/main.rs:68-133 | when inference never fails, or fails by cache key, the deque after any history is the n most recently requested distinct keys, newest first, of the requests inference can answer |
| EmbedTraffic.MostRecentMeaning | arcxa-model-service/src/cache.rs:125-140 | that list holds exactly the requested keys, once each, by decreasing time of last request |
| EmbeddingCache.Cache.Get | arcxa-model-service/src/cache.rs:42-60 | returns the entry of the normalized key and touches it, or counts a miss and inserts nothing |
| EmbeddingCache.Cache.Put | arcxa-model-service/src/cache.rs:63-76 | evicts if full and new, inserts, and touches the key |
| EmbeddingCache.Cache.GetOrCompute | arcxa-model-service/src/cache.rs:79-90 | computes only on a miss and stores only a success |
| EmbeddingCache.Cache.UpdateLru | arcxa-model-service/src/cache.rs:125-140 | removes the first occurrence, pushes to the front, trims to the capacity |
| EmbeddingCache.Cache.EvictLru | arcxa-model-service/src/cache.rs:143-150 | drops the last key from deque and map |
| EmbeddingCache.Cache.Clear | arcxa-model-service/src/cache.rs:93-98 | empties map, deque and counters |
| EmbeddingCache.Cache.Stats | arcxa-model-service/src/cache.rs:101-117 | the hit rate times the number of lookups is the number of hits, and it is 0 without lookups |
| ModelService.Service.EmbedText | arcxa-model-service/src/main.rs:58-102 | answers from the cache exactly when the key is there, and says so, else by inference; with respected keys this is what inference gives; the cache stays in the state of its request history |
| ModelService.Service.EmbedBatch | arcxa-model-service/src/main.rs:104-148 | answers each text in order as a single request after those before it would be, stopping at the first error; with respected keys this is the uncached answer |
| ModelService.ServedIsUncached | arcxa-model-service/src/main.rs:104-148 | after any history a batch is answered as without a cache if inference respects the cache keys |
| ModelService.UncachedMeaning | arcxa-model-service/src/main.rs:118-137 | the uncached answer has every embedding in its place, or is the error of the first text that has one |
| Text.TrimProps | arcxa-coordinator/src/catalog_impl.rs:291-294 | trimming leaves no outer white space, is idempotent, and keeps visible text |
| Text.TrimExact | arcxa-coordinator/src/catalog_impl.rs:291-294 | trimming takes away the white space around a text and nothing else |
| Text.AfterLastColonProps | arcxa-coordinator/src/catalog_impl.rs:277 | the last segment of an id is found behind any prefix |
| Credentials.StorePathDropsScheme | arcxa-core/src/secrets/refs.rs:6-16 | a reference is stored under its path without the scheme, so schemes alias |
| Credentials.LoginMeaning | arcxa-coordinator/src/catalog_impl.rs:519-559 | a map of keys gives exactly the login it stands for: the first complete of three key pairs, else the first token under the name token, none exactly when there is neither; all keys but username and password are passed along |
| Credentials.UsernameAndPassword | arcxa-coordinator/src/catalog_impl.rs:523-526 | whatever else a map holds, its username and password are the login |
| Credentials.ResolutionOrder | arcxa-coordinator/src/catalog_impl.rs:417-472 | which keys decide the login: the connection's own, else those of the secret at the path or else under the reference, else the metadata, else the empty login for connectors that need none |
| Credentials.EffectiveRefMeaning | arcxa-coordinator/src/catalog_impl.rs:276-294 | white space around a reference is ignored, and a blank one stands for the path of the id's last segment |
| Credentials.DefaultPathsDistinctIff | arcxa-coordinator/src/catalog_impl.rs:276-279 | sources without a reference share a secret exactly when their ids end in the same segment |
| Credentials.PromotedIff | arcxa-coordinator/src/catalog_impl.rs:281-347 | a record is promoted exactly when it holds credentials and the secret was found or written; otherwise nothing changes |
| Credentials.PromotionMoves | arcxa-coordinator/src/catalog_impl.rs:310-347 | a promotion that writes changes one path, stores the connection's credentials or else exactly the credential keys of the metadata, and keeps everything else of the record |
| Credentials.FilterKeepsLogin | arcxa-coordinator/src/catalog_impl.rs:238-243 | dropping the keys that are no credential keys does not change the login that LoginMeaning gives |
| Credentials.PromotedHasNoInline | arcxa-coordinator/src/catalog_impl.rs:340-346 | a promoted record keeps no credential key, and promoting it again changes nothing |
| Credentials.PromotionKeepsLoginIff | arcxa-coordinator/src/catalog_impl.rs:281-347 | for every source with inline credentials, every store and every outcome of the store calls: an existing secret is kept and read, otherwise the inline credentials are, and the login survives exactly when the secret that will be read gives the login the source had |
| Credentials.FreshPromotionKeepsLoginIff | arcxa-coordinator/src/catalog_impl.rs:310-346 | a source that writes its secret keeps its login exactly when it did not live on the empty login |
| Credentials.BystanderKeepsLoginIff | arcxa-coordinator/src/catalog_impl.rs:296-347 | for every promotion, other record, store and outcome of the store calls: the other record keeps its login exactly when nothing is written, it does not read the written path, or the written credentials give the login it has |
| Credentials.FailedCheckOverwrites | arcxa-coordinator/src/catalog_impl.rs:298-322 | when the existence check fails, the put overwrites an existing secret, and any record that reads its path keeps its login exactly when the inline credentials give the same one as the old secret |
| Credentials.SchemeAliasLeaksLogin | arcxa-core/src/secrets/refs.rs:6-16 | with no failing call and an empty store, a record that lived on the empty login and refers to the same path by another scheme resolves to the promoted record's credentials |
| Credentials.SharedRefKeepsLoginIff | arcxa-coordinator/src/catalog_impl.rs:291-308 | of two sources with the same effective reference, the second resolves to the first one's credentials and keeps its login exactly when those give it |
| Credentials.ApiKeySourceStopsResolving | arcxa-coordinator/src/catalog_impl.rs:438-471 | a source with only an api key resolved before its promotion and fails afterwards |
| Credentials.SharedSuffixMixesLogins | arcxa-coordinator/src/catalog_impl.rs:276-308 | two ids with the same last segment end up with the first one's login, and the second keeps its own exactly when the two credentials give the same login |
| CredentialMigration.MigrationKeepsLogins | arcxa-coordinator/src/catalog_impl.rs:349-472 | when the written secrets are unused and read by no other record: after every sequence of loop turns, store failures, save failures and restarts each record, in memory and on disk, resolves to its initial username and password, exactly unless it lived on the empty login and its credential keys are now read from the store |
| CredentialMigration.StepKeepsOk | arcxa-coordinator/src/catalog_impl.rs:362-390 | every turn keeps each record original or promoted with its own secret in place |
| CredentialMigration.SecondPassIsIdle | arcxa-coordinator/src/catalog_impl.rs:362-367 | after a pass whose store writes got through a further pass changes nothing |
| CatalogProperties.CapabilitiesMeaning | arcxa-coordinator/src/catalog_impl.rs:587-666 | exactly which kinds of source can test, query, read, write and infer, and when parameters, TLS, incremental reading and cancellation are supported; all operations but testing need an Active source, and for Oracle a ready driver |
| CatalogProperties.RunKeepsMirrored | arcxa-coordinator/src/catalog_impl.rs:1386-1560 | over every accepted run memory and disk hold the same ids with equal enriched records |
| CatalogProperties.RestartIsInvisible | arcxa-coordinator/src/catalog_impl.rs:206-231 | after every accepted run each source reads the same before and after a reload |
| CatalogProperties.EnrichIdempotent | arcxa-coordinator/src/catalog_impl.rs:668-672 | enriching an enriched record changes nothing |
| CatalogProperties.RejectedUpdateMirrorsIff | arcxa-coordinator/src/catalog_impl.rs:1462-1511 | a rejected update leaves memory and disk in agreement exactly when its patch changes nothing |
| CatalogProperties.OperationalMeansVerified | arcxa-coordinator/src/catalog_impl.rs:638-647 | in every run without rejected updates a source reporting an operational capability was verified after its last registration and last saved connection change, and after unsaved ones too exactly when no restart undid an unverified one |
| CatalogProperties.ActiveMeansVerified | arcxa-coordinator/src/catalog_impl.rs:1458-1518 | the same for the Active status in runs without a restart, unsaved changes counted |
| CatalogProperties.ActiveMeansVerifiedSaved | arcxa-coordinator/src/catalog_impl.rs:1523-1534 | restarts and failed writes included, a source Active in memory or on disk was verified after its last saved registration or connection change |
| CatalogProperties.VerifiedIffNotUndone | arcxa-coordinator/src/catalog_impl.rs:1514-1534 | a source Active after any run without rejected updates was verified after its last change, unsaved ones counted, exactly when no unsaved change of it was followed by a restart and by no verification |
| CatalogProperties.FailedSaveRevivesActive | arcxa-coordinator/src/catalog_impl.rs:1514-1534 | a saved test, a connection change whose write fails, and a restart leave the source Active although its last requested change is newer than its verification; VerifiedIffNotUndone says exactly in which runs |
| CatalogProperties.RestartAfterFailedUpdate | arcxa-coordinator/src/catalog_impl.rs:1514-1534 | after an accepted connection change whose write fails the source is not Active, and after a restart it is exactly when it was on disk |
| CatalogProperties.RunKeepsIds | arcxa-coordinator/src/catalog_impl.rs:1408-1423 | whatever writes fail, memory and disk hold the same ids |
| CatalogProperties.StaleActiveIff | arcxa-coordinator/src/catalog_impl.rs:1489-1517 | an update leaves Active on an edited endpoint exactly when it is rejected, the source was Active and the patch changes the endpoint |
| CatalogProperties.RejectedUpdateStaysQueryable | arcxa-coordinator/src/catalog_impl.rs:1475-1511 | a rejected new connection is nevertheless reported queryable |
| CatalogProperties.RejectedEndpointPersistsIff | arcxa-coordinator/src/catalog_impl.rs:1763-1787 | after a rejected update, a synchronization mark or an accepted update of other fields makes the untested endpoint Active across restarts, exactly when the source was Active and the patch changed the endpoint |
| CatalogProperties.RejectedEndpointMigrates | arcxa-coordinator/src/catalog_impl.rs:369-390 | after a rejected update, a saved turn of the credential migration puts the rejected configuration on disk with the status the source had, so that it is Active and changed after a restart exactly when it was Active and the patch changed it |
| CatalogProperties.MigratedStatusAndLogin | arcxa-coordinator/src/catalog_impl.rs:374-382 | the credential migration keeps every status, and the login is still the tested one exactly when the promotion is safe |
| CatalogReading.ListedIff | arcxa-coordinator/src/catalog_impl.rs:1386-1560 | after every run, with rejected updates, failed writes and restarts, a source is listed in memory and on disk exactly when some saved registration of it has no later saved deletion |
| CatalogReading.OtherSourcesStay | arcxa-coordinator/src/catalog_impl.rs:1449-1560 | a request changes no record of another source, except that a restart shows the records on disk |
| CatalogReading.UnconcernedReadsSame | arcxa-coordinator/src/catalog_impl.rs:1440-1447 | over every run without a restart a source that no request is about reads the same |
| CatalogReading.DiskAndSecretsStay | arcxa-coordinator/src/catalog_impl.rs:206-231 | a request whose write fails leaves the disk alone, a restart shows the disk and forgets the secret store, and only registration, migration and configuration touch the secrets |
| CatalogReading.RegisteredReads | arcxa-coordinator/src/catalog_impl.rs:1386-1438 | a saved registration reads as given, unverified and with a normalized configuration, its credentials in place or promoted |
| CatalogReading.FailedRegistrationKeepsSecret | arcxa-coordinator/src/catalog_impl.rs:1392-1423 | a registration that cannot be saved changes no record, and its secret stays in the store |
| CatalogReading.RejectsIff | arcxa-coordinator/src/catalog_impl.rs:1489-1511 | an update is rejected exactly for a wrong type, an empty title, a connection with neither reference nor credentials, or an invalid configuration |
| CatalogReading.UpdatedReads | arcxa-coordinator/src/catalog_impl.rs:1449-1539 | after an update every field of the patch reads as given and every other as before; only an accepted change of connection, metadata or type makes the source unverified, and only an accepted update reaches the disk |
| CatalogReading.SyncedReads | arcxa-coordinator/src/catalog_impl.rs:1763-1787 | a synchronization mark changes what is read in the synchronization time only |
| CatalogReading.StatusReads | arcxa-coordinator/src/catalog_impl.rs:1789-1828 | a status change shows the status, and the error under `last_error`, and leaves the rest |
| CatalogReading.TestedReads | arcxa-coordinator/src/catalog_impl.rs:1624-1657 | a test that can be carried out shows its result and Active or Error, any other changes nothing |
| CatalogReading.MigratedReads | arcxa-coordinator/src/catalog_impl.rs:362-390 | a migration turn leaves the promoted source, the secrets of the promotion, and the rest of the record |
| CatalogReading.EnrichMeaning | arcxa-coordinator/src/catalog_impl.rs:668-672 | reading shows the type of the configuration and the derived capabilities, and all else as stored |
| CatalogStore.DataSourceCatalog.constructor | arcxa-coordinator/src/catalog_impl.rs:206-218 | opening loads exactly the records on disk |
| CatalogStore.DataSourceCatalog.PromoteInlineCredentials | arcxa-coordinator/src/catalog_impl.rs:281-347 | the record, the secrets and the outcome of one promotion, with failing store calls |
| CatalogStore.DataSourceCatalog.MigrateInlineCredentials | arcxa-coordinator/src/catalog_impl.rs:349-415 | the loop is one migration event per record of the catalog, with the outcomes its calls meet |
| CatalogStore.DataSourceCatalog.SetSecretStoreRegistry | arcxa-coordinator/src/catalog_impl.rs:729-736 | configures the store and migrates every record |
| CatalogStore.MigrationIsPass | arcxa-coordinator/src/catalog_impl.rs:358-390 | a sequence of such events is a pass of the credential migration over records and secrets, and changes no status, test result or capability in memory |
| CatalogStore.RestartIsStep | arcxa-coordinator/src/catalog_impl.rs:206-231 | a restart of the catalog is the restart of the credential migration: memory shows the records on disk |
| CatalogStore.DataSourceCatalog.RegisterSource | arcxa-coordinator/src/catalog_impl.rs:1386-1438 | stores an unverified, enriched record in both places, or nothing in either if the write fails |
| CatalogStore.DataSourceCatalog.UpdateSource | arcxa-coordinator/src/catalog_impl.rs:1449-1539 | the new state for accepted, rejected and unsaved updates, and when it succeeds |
| CatalogStore.DataSourceCatalog.DeleteSource | arcxa-coordinator/src/catalog_impl.rs:1541-1560 | a saved deletion takes exactly this source out of memory and disk and an unsaved one nothing; it succeeds exactly if the source was there and the write got through |
| CatalogStore.DataSourceCatalog.TestConnection | arcxa-coordinator/src/catalog_impl.rs:1624-1657 | sets Active or Error exactly when the source, a connector and a login exist and the test was carried out |
| CatalogStore.DataSourceCatalog.MarkSyncedAt | arcxa-coordinator/src/catalog_impl.rs:1763-1787 | records the synchronization time of an existing source |
| CatalogStore.DataSourceCatalog.UpdateStatus | arcxa-coordinator/src/catalog_impl.rs:1789-1828 | sets the status, records an error message in the metadata, and persists the enriched record |
| RowStorage.StepSimulatesIff | arcxa-core/workflow-migration-example.rs:14-59 | one step keeps old and new execution in agreement exactly when its output is mergeable |
| RowStorage.RowsMeaning | arcxa-core/workflow-migration-example.rs:80-103 | stored rows are read back whatever the working data holds, and without a storage those under `_rows` are |
| RowStorage.StepMerges | arcxa-core/workflow-migration-example.rs:14-59 | old and new execution put every other field of an output into the working data and leave the fields it does not have |
| RowStorage.StepCountsIff | arcxa-core/workflow-migration-example.rs:29-103 | new execution keeps `_row_count` the number of rows exactly unless the output brings another count |
| RowStorage.NonArrayRowsDiverge | arcxa-core/workflow-migration-example.rs:42-47 | a non-array `_rows` hides the rows from old steps and not from new ones |
| RowStorage.WrapperSimulatesIff | arcxa-core/workflow-migration-example.rs:224-249 | the wrapper keeps the agreement exactly under the stated condition on what the step leaves under `_rows` |
| RowStorage.WorkflowSimulates | arcxa-core/workflow-migration-example.rs:14-249 | in every workflow of well-behaved steps, merged or wrapped, each of which may depend on the rows and metadata it sees, every step sees the same in both executions, and rows and metadata agree at the end; a wrapped step leaves an array of rows, or none where there were none |
| RowStorage.WorkflowCounts | arcxa-core/workflow-migration-example.rs:94-249 | in every workflow of well-behaved steps that bring no count, `_row_count` is the number of stored rows |
| ExecutionContext.Executor.GetRows | arcxa-core/workflow-migration-example.rs:80-91 | the stored rows, else the rows in the working data, else an error |
| ExecutionContext.Executor.StoreRows | arcxa-core/workflow-migration-example.rs:94-103 | rows go to the storage, the count to the metadata, `_rows` disappears |
| ExecutionContext.Executor.ExecuteStepOld | arcxa-core/workflow-migration-example.rs:14-26 | the field-by-field merge loop is the old execution |
| ExecutionContext.Executor.ExecuteStepNew | arcxa-core/workflow-migration-example.rs:29-59 | separating the rows and merging the rest is the new execution |
| ExecutionContext.Executor.ExecuteWrapped | arcxa-core/workflow-migration-example.rs:224-249 | materialize, run, extract is the wrapped execution |
| ExecutionContext.Executor.ExecuteDeduplicator | arcxa-core/workflow-migration-example.rs:159-180 | on success the context shows the deduplicated rows and their number, on failure nothing changes |
| Deduplicator.Deduplicate | arcxa-core/workflow-migration-example.rs:164-176 | the streaming pass computes the deduplication, and fails exactly if some key cannot be built |
| Deduplicator.DedupKeepsFirsts | arcxa-core/workflow-migration-example.rs:169-176 | the result is the stable subsequence of exactly the first row of each key |
| Deduplicator.FirstsMeaning | arcxa-core/workflow-migration-example.rs:169-176 | those positions are increasing, and are exactly the positions of rows whose key did not occur before |
| Deduplicator.DedupIdempotent | arcxa-core/workflow-migration-example.rs:169-176 | deduplicating twice is deduplicating once |
| Deduplicator.DedupConcat | arcxa-core/workflow-migration-example.rs:169-176 | on a concatenation the second part adds its rows with new keys |
| Turtle.EscapeIsPerCharacter | arcxa-coordinator/src/catalog_to_dataset.rs:193-199 | the five successive replacements are one substitution per character |
| Turtle.EscapeRoundTrips | arcxa-coordinator/src/catalog_to_dataset.rs:193-199 | the result always fits a quoted literal, and reading the literal gives the input back |
| ColumnUris.SourceUrisDistinctIff | arcxa-coordinator/src/catalog_to_dataset.rs:60-63 | column URIs under the source are pairwise distinct exactly when the tables with columns have distinct tokens |
| ColumnUris.SourceColumnsCollideIff | arcxa-coordinator/src/catalog_to_dataset.rs:60-63 | columns of any two sources share a URI exactly when source token, table token and position agree |
| ColumnUris.TableUrisDistinctIff | arcxa-coordinator/src/catalog_to_dataset.rs:102-135 | with a dataset per table two columns collide exactly if table token, column token and position agree |
| ColumnUris.TableColumnsCollideIff | arcxa-coordinator/src/catalog_to_dataset.rs:102-135 | columns under table datasets of any two sources share a URI exactly when the datasets do and column token and position agree |
| ColumnUris.TableDatasetsCollideIff | arcxa-coordinator/src/catalog_to_dataset.rs:100-105 | table datasets of any two sources share a URI exactly when source and table tokens agree, or one source token plus the start of its table token is the other source token |
| ColumnUris.DecimalParses | arcxa-coordinator/src/catalog_to_dataset.rs:63 | the decimal position holds no underscore and is recoverable |
| ColumnUris.SanitizeProps | arcxa-coordinator/src/catalog_to_dataset.rs:180-190 | sanitizing keeps the length, leaves only safe characters, replaces others by an underscore, is idempotent, and changes nothing exactly when all were safe |
| ColumnUris.MintSourceColumns | arcxa-coordinator/src/catalog_to_dataset.rs:59-63 | the nested loops mint one URI per column, table by table |
| ColumnUris.MintTableColumns | arcxa-coordinator/src/catalog_to_dataset.rs:102-135 | the same with a dataset per table |
| RowGroups.BuildRowGroupChunks | arcxa-core/examples/workflow_storage_profile.rs:651-679 | the loop terminates with the row groups, and with one empty chunk for no rows |
| RowGroups.GroupsAreFull | arcxa-core/examples/workflow_storage_profile.rs:666-678 | every group but the last is full, and the last is not empty |
| RowGroups.GroupsHoldTheRows | arcxa-core/examples/workflow_storage_profile.rs:651-767 | the groups hold every row once and in order, nulls included |
| RowGroups.ChunkToRows | arcxa-core/examples/workflow_storage_profile.rs:682-767 | the in-place transposition gives the rows RowsMeaning describes cell by cell, and fails exactly on a schema mismatch or an unsupported type |
| RowGroups.RowsMeaning | arcxa-core/examples/workflow_storage_profile.rs:682-767 | each row has exactly the field names as keys, and under the name of a field the cell of that row in that field's column, the last one if a name is repeated |
| RowGroups.CellReadsBack | arcxa-core/examples/workflow_storage_profile.rs:698-756 | every cell is recoverable from its JSON value, and null stands exactly for a null or non-finite cell |
| RowGroups.UnreadableIff | arcxa-core/examples/workflow_storage_profile.rs:682-760 | a chunk cannot be read exactly when the number of columns, a column's type or its support is wrong |
| RowGroups.ReadChunks | arcxa-core/examples/workflow_storage_profile.rs:620-634 | reading chunk after chunk concatenates their rows |
| RowGroups.WriteThenRead | arcxa-core/examples/workflow_storage_profile.rs:526-634 | splitting and reading back equals transposing the unsplit columns, failures included |
| ConnectorStore.PersistBatch | arcxa-evidence-ingestion/src/store.rs:174-191 | the batch leaves exactly the given connectors under the prefix and every other key untouched |
| ConnectorStore.LoadState | arcxa-evidence-ingestion/src/store.rs:160-172 | loads exactly the prefixed entries, or fails if one does not decode |
| ConnectorStore.Store.Open | arcxa-evidence-ingestion/src/store.rs:59-88 | a database with connectors is taken as it is; an empty one takes the legacy file over |
| ConnectorStore.Store.Upsert | arcxa-evidence-ingestion/src/store.rs:90-97 | from any state, memory gets the connector; a success makes database and memory agree and touches no other key, a failure leaves the database as it was |
| ConnectorStore.ReopenShowsLastWritten | arcxa-evidence-ingestion/src/store.rs:59-101 | after any sequence of successful and failed upserts memory shows the last connector of every attempt, loading gives the last connectors of all attempts up to the last successful one, failed ones included, other keys are untouched, and once one succeeded no legacy file is looked at |
| ConnectorStore.LastWrittenIsLast | arcxa-evidence-ingestion/src/store.rs:90-97 | an id maps to the last connector written under it |
| ConnectorStore.UnwrittenStays | arcxa-evidence-ingestion/src/store.rs:90-97 | an id under which nothing was written maps to what was there |
| ConnectorStore.AgreementIff | arcxa-evidence-ingestion/src/store.rs:90-97 | after such a run memory and database agree exactly when the failed attempts since the last success changed nothing |
| Pooling.MeanPooling | arcxa-model-service/src/model.rs:226-252 | every component is the mean over the active rows, and 0 without any |
| Pooling.OnlyActiveRowsMatter | arcxa-model-service/src/model.rs:237-245 | rows the mask leaves out do not matter |
| Pooling.ActiveMeaning | arcxa-model-service/src/model.rs:237-245 | exactly the rows with a positive mask are pooled, each once and in order |
| Pooling.MeanIsSumOverCount | arcxa-model-service/src/model.rs:237-249 | sums of parts add up, the sum of one row is the row, and the mean times the number of rows is the sum |
| Pooling.MeanIsBetween | arcxa-model-service/src/model.rs:247-249 | each component lies between the smallest and the largest active component |
| Pooling.Normalize | arcxa-model-service/src/model.rs:131-135 | the squares of the result sum to 1 and its direction is kept, unless the vector is zero |

## Left out

- RocksDB, Kafka, gRPC, HTTP, ODBC pools, ONNX and the tokenizer: foreign code; storage is a map with atomic writes.
- The families `primary`, `time_idx` and `time_travel_idx`, which the migration opens and never touches.
- JSON text: encoding and decoding are given functions.
- Concurrent requests: the cache, the catalog and the connector store are modelled for sequential use, so lock order and interleavings with a running connection test or credential migration are not covered.
- MigrationDatabase.Database.MigrateColumnFamily: counts in unbounded integers, so the wrap-around of the 64-bit counter is not modelled, and no bound on the batch size is claimed because the code keeps none.
- IndexFormat.RewritePreservesMeaning: speaks of separator-free keys only, since the code skips old keys that contain the separator, and a composite put can overwrite such an entry (SeparatorEntryKeptIff has the exact condition); ids are their UTF-8 bytes.
- A secret registry without a default store, and read failures of the secret store: resolution is modelled with no store or with a readable one.
- Creation and update timestamps of data sources, the synchronization to RDF, and the changes of discovery service or connectors while a catalog runs.
- Database keys that are not UTF-8, which make loading fail in the catalog and in the connector store.
- The file backend of the connector store, its runtime status, and the tiers of the row storage.
- ExecutionContext.Executor.StoreRows: has no failure, because the constructor of the row storage always succeeds (arcxa-core/src/orchestration/workflow/row_storage.rs, lines 118-124); for the same reason ExecuteStepNew has no discarded error.
- ColumnUris.MintSourceColumns: gives the URIs; the Turtle text around them is not part of this model.
- Numeric escapes when reading a Turtle literal: escaping never writes them.
- Pooling.Normalize: works over the reals with the square root as an input, so 32-bit rounding is not modelled.
- Evidence event assembly, listing and searching sources, schema inference, query execution and the command-line clients: they would add mostly easy members.
