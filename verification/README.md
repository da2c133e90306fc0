# Verified models of the application template's algorithms and protocols

The application template is mostly wiring around a handful of self-contained
algorithms and protocols. This project models those in Dafny and proves what
they are for.

- **Model generator** (`internal/database/gen`). Physical foreign keys and
  logical relations are merged under string keys, has-one and pure
  many-to-many relations are inferred from unique constraints, joins are
  resolved, field names are checked, and each table's struct gets its relation
  fields. The passes are proved to give one answer for every order of the input
  and of Go's maps, to give every logical relation what it asks for, to fill each
  struct with distinct names, and to emit fields that join exactly the rows their
  relations link, has-one fields at most one. Table aliases are proved distinct and
  dependent on the set of names only, with the unbounded search bounded by a
  pigeonhole argument. Modules `Relations`, `KeyedMaps`, `Ordering`,
  `Permutations`, `Text`, `MergeLaws`, `PhysicalOrder`, `Schema`, `Joins`, `Junctions`,
  `JunctionKeys`, `Emission`, `Pipeline`, `Structs`, `JoinNames`, `FinalRelations`,
  `FieldMeaning`, `Overrides`, `JunctionFields`, `EmptyTarget`, `RenamedKey`,
  `Aliases`, `QuotedList`.
- **Leader-elected scheduler** (`pkg/scheduler`). Start, Stop, the heartbeat and
  the Redis lock are steps; any number of schedulers share one key. Modules
  `RedisLock`, `Scheduler`, `Leader`.
- **Event bus** (`pkg/event`). Subscriber slices edited in place, the snapshot
  Publish takes, and the wait group that Close waits for. Modules `Subscribers`,
  `EventBus`, `BusClose`.
- **Binary frame** (`internal/protocol`). The 20-byte header and the CRC-32 of
  section 8 of RFC 1952. Modules `LinearSteps`, `Crc`, `CrcPolynomial`, `Frame`.
- **Caches**. The two-level cache with its background warm-ups and the
  cache-aside user service. Modules `MultiCache`, `UserService`, `UserLaws`.
- **Smaller cores**. Lifecycle hooks, the in-process TTL lock and money
  conversion. Modules `Lifecycle`, `MemoryLock`, `Amount`.

Where the code works in place the model does too: columns and relations are
arrays that are overwritten, subscriber slices are arrays with spare room that
are appended to, sorted and spliced, and the lock provider, the bus, the cache,
the user service, the application and the memory locker are classes. Code that
runs in several threads is a step machine whose runs are all the interleavings.

Some properties do not hold of the code as one might first state them. In each
case the code is modelled as it is, an input on which the property fails is
given, and the property is proved under the exact condition:

- A has-one field whose relation names no target column (an endpoint such as
  `users.+` passes validation) joins every row. The field is sound exactly when a
  target column is named: `EmptyTarget.ProfilesJoinAll`, `Joins.HasOneExact`.
- A table with overlapping unique constraints can be taken for a pure
  many-to-many junction although its foreign keys are no key. Detection is right
  for a table, whatever the relations, exactly when each composite constraint
  that smaller ones leave covering all business columns still contains a
  constraint: `JunctionKeys.OverlapMisread`, `JunctionKeys.JunctionsExact`.
- The join of a many-to-many relation whose junction is also one of its ends
  names a field the junction's struct does not have. Each half is right exactly
  when the foreign key has its own field name, the junction is not that end, or
  the end is called Parent: `JoinNames.JoinNamesExact`,
  `JoinNames.EmployeesMisnamed`.
- A detected junction is joined by the names of its two tables even when its
  foreign keys were given other field names. Each half of the join is right
  exactly when the key has no other name and does not point back at the junction:
  `JunctionFields.DetectedJoin`, `RenamedKey.GrantedMisnamed`.
- A lock loss noticed before `cron.Start` is not followed by a stop, and a later
  Stop may leave cron running: `Scheduler.GapLeak`, `Scheduler.StopStopsCron`,
  `Leader.GapSplitBrain`.
- A changed message type, message id or reserved byte is not noticed:
  `Frame.HeaderByteFound`.
- A warm-up can restore a value that was overwritten or deleted, even one that
  ends before L2 is written. The guard each step must meet is exact:
  `MultiCache.WarmUpOverwrites`, `MultiCache.DeleteUndone`,
  `MultiCache.FreshExact`.
- A lock caller that sampled the clock early and entered late can be granted the
  key on a sample before an earlier holder's expiry. In a given state no caller
  can, exactly when that holder has released or the key's entry expires no sooner
  than it: `MemoryLock.LateEntrant`, `MemoryLock.SawExpiryExactly`.
- The overflow guard of the money parser admits totals above 64 bits, and the
  least amount prints as text that is refused: `Amount.ParseExact`,
  `Amount.GuardTooWeak`, `Amount.PrintParse`.

The comment at `pkg/event/event.go:20` calls the zero priority normal; in the
code it is the lowest, and the model follows the code.

## Model

| member | source | states |
|---|---|---|
| `Relations.SplitCompositeColumns` | internal/database/gen/relation.go:163-173 | the loop yields the trimmed, non-empty parts between plus signs, in order |
| `Relations.ColumnsRead` | internal/database/gen/relation.go:163-173 | however a composite is spaced, it denotes the names between its plus signs, blank parts left out |
| `Relations.ColumnChars` | internal/database/gen/relation.go:190-217 | a validated column list can hold none of the characters that separate the parts of a key |
| `Relations.KeyInjective` | internal/database/gen/relation.go:219-224 | two validated relations share a key exactly when they have the same endpoints and the same junction table |
| `Relations.TrackStep` | internal/database/gen/relation.go:295-314 | a relation is refused by the field record exactly when an earlier one already claims one of its struct fields |
| `Relations.OccupySlots` | internal/database/gen/relation.go:309-314 | the inner loop accepts, in any map order, exactly when every slot is free or its own, and then records them all |
| `Relations.CheckClaims` | internal/database/gen/relation.go:294-317 | the loop reports the first invalid, self-clashing or clashing relation in key order |
| `Relations.MergeRelations` | internal/database/gen/relation.go:262-318 | physical relations overridden by logical ones with the same key, checked and listed in key order, whatever order maps are visited in |
| `Relations.ValidateMerged` | internal/database/gen/relation.go:288-318 | sorting the keys and checking each relation gives the list or the first error, independently of map order |
| `Ordering.CollectSorted` | internal/database/gen/relation.go:288-292 | collecting map keys in any order and sorting gives one list |
| `KeyedMaps.CombinePermutation` | internal/database/gen/relation.go:263-286 | filing relations with distinct keys into a map gives the same map in every order |
| `KeyedMaps.OverwritePermutation` | internal/database/gen/relation.go:263-266 | filing the physical relations gives the same map in every order, repeated ones included |
| `MergeLaws.MergePermutation` | internal/database/gen/relation.go:262-318 | the merge result and its success are the same for every order of both inputs, repeated physical foreign keys included |
| `MergeLaws.MergeAccepts` | internal/database/gen/relation.go:294-317 | valid relations with distinct keys that fill different slots always merge, and exactly they are listed |
| `MergeLaws.MergeAppendPermutation` | internal/database/gen/model.go:151-159 | the same for the second merge, whose one list is two lists joined |
| `MergeLaws.CheckMeans` | internal/database/gen/relation.go:294-317 | a merge that passes has no two relations claiming one field of one struct |
| `MergeLaws.CheckHolds` | internal/database/gen/relation.go:294-317 | and conversely relations without clashes always pass |
| `MergeLaws.OverrideKeepsKey` | internal/database/gen/relation.go:269-284 | an override leaves a relation under the key it was filed under |
| `MergeLaws.MergeResult` | internal/database/gen/relation.go:262-318 | a successful merge lists valid relations, distinct keys ascending, and loses none |
| `MergeLaws.MergeIdempotent` | internal/database/gen/relation.go:262-318 | merging a successful result again, on either side, is the identity |
| `Overrides.MergeOverrides` | internal/database/gen/relation.go:262-318 | for each logical relation one merged relation has its key; its field, reverse field, type and junction are those the logical one gives, else those of the last physical relation with the key |
| `Overrides.MergeKeepsPhysical` | internal/database/gen/relation.go:262-318 | a physical relation that no logical one overrides is listed as the last of its key was |
| `Schema.ApplyUniqueConstraints` | internal/database/gen/model.go:287-321 | the columns are tagged in place, smaller groups first and ties by name, whatever order the map yields them in |
| `Schema.TagGroup` | internal/database/gen/model.go:306-320 | the inner loops tag exactly the members of one group, in place, and nothing else |
| `Schema.TagExact` | internal/database/gen/model.go:287-321 | a column is tagged by the first constraint naming it in order of size and name, single ones on the primary key aside, and carries its name exactly when it is composite |
| `Schema.Untouched` | internal/database/gen/model.go:287-321 | a column that no constraint tags is left as it was |
| `Schema.SingleTagExact` | internal/database/gen/model.go:287-341 | after tagging, a column reads as unique alone exactly when a single-column constraint off the primary key names it |
| `Schema.CollectUniqueness` | internal/database/gen/model.go:323-341 | for each table, the columns unique alone and the primary key columns |
| `Schema.AnnotateHasOne` | internal/database/gen/relation.go:322-342 | in place, has-one is set exactly on one-column relations whose source column is unique alone or the whole primary key |
| `Joins.BuildJoinClause` | internal/database/gen/naming.go:96-108 | the clause pairs the columns in order, as many as both sides have |
| `Joins.ParseRendered` | internal/database/gen/naming.go:96-108 | a clause is unambiguous: reading it gives back its column pairs |
| `Joins.ClauseMeans` | internal/database/gen/naming.go:96-108 | the emitted text, read back, is the pairing of the two column lists |
| `Joins.ReverseIsConverse` | internal/database/gen/naming.go:110-113 | the reverse clause joins exactly the row pairs that the belongs-to clause joins |
| `Joins.HasOneExact` | internal/database/gen/relation.go:322-342 | a relation marked has-one joins each target row to at most one source row in every instance keeping the constraints, if and only if it names a target column |
| `Joins.HasOneHolds` | internal/database/gen/naming.go:110-113 | the if half, for one instance and one target row |
| `Joins.EmptyListJoinsAll` | internal/database/gen/relation.go:146-173 | an empty column list gives a clause that joins two rows to one, in an instance without NULLs keeping every constraint |
| `Junctions.GroupForeignKeys` | internal/database/gen/relation.go:357-364 | the plain foreign keys of each table, in list order |
| `Junctions.SameStringSet` | internal/database/gen/relation.go:450-461 | true exactly for equal non-empty sets |
| `Junctions.FkColumnsAreCompleteKey` | internal/database/gen/relation.go:421-448 | true exactly when the columns are the primary key or all the columns carrying one group tag |
| `Junctions.CheckJunction` | internal/database/gen/relation.go:366-397 | a table is a pure junction exactly when it has two foreign keys to different tables, no other business column and its foreign key columns are a complete key |
| `Junctions.JunctionOrder` | internal/database/gen/relation.go:366-397 | the range over the map meets exactly the junction tables, each once |
| `Junctions.DetectPureM2MTables` | internal/database/gen/relation.go:351-419 | one many-to-many relation per junction table and the keys of both its foreign keys suppressed; only the order depends on the map |
| `Junctions.ApplySkipReverse` | internal/database/gen/relation.go:525-537 | exactly the suppressed relations get skip-reverse |
| `Junctions.FindLast` | internal/database/gen/relation.go:484-492 | the last foreign key that points at the given columns of the given table |
| `Junctions.LastMatchMeans` | internal/database/gen/relation.go:482-492 | the foreign key found is the last relation in list order that starts at the junction and points at the columns |
| `Junctions.ResolveOne` | internal/database/gen/relation.go:482-506 | a many-to-many relation without a join gets the names of its junction's two foreign keys, or the error |
| `Junctions.ResolveM2MJoins` | internal/database/gen/relation.go:463-509 | every join resolved, or the first error |
| `JunctionKeys.KeyExact` | internal/database/gen/relation.go:421-448 | columns tell all rows apart in every instance keeping the constraints exactly when they contain a declared constraint |
| `JunctionKeys.DetectionExact` | internal/database/gen/relation.go:421-448 | over arbitrary columns, the answer "complete key" means a key in every instance if and only if no composite constraint lost too much to earlier tags |
| `JunctionKeys.MisreadExact` | internal/database/gen/relation.go:384-397 | over columns that leave no business column, it does if and only if no composite constraint left with all of them lost too much |
| `JunctionKeys.JunctionsExact` | internal/database/gen/relation.go:351-419 | for every list of relations that makes the table a junction, its foreign keys are a key in every instance, if and only if that condition holds |
| `JunctionKeys.JunctionIsKey` | internal/database/gen/relation.go:351-419 | one detected junction's foreign keys are a key exactly when they contain a declared constraint, and always under that condition |
| `JunctionKeys.SeparateSound` | internal/database/gen/model.go:287-321 | constraints that share no column lose nothing, so an accepted junction's foreign keys contain one |
| `JunctionKeys.OverlapMisread` | internal/database/gen/relation.go:351-419 | a schema and two foreign keys on which the detector reports a junction whose foreign keys are no key |
| `Emission.WriteM2MFields` | internal/database/gen/naming.go:340-354 | the fields of both ends of a many-to-many relation in one struct |
| `Emission.WriteRelationFields` | internal/database/gen/naming.go:276-299 | the fields of one struct, in relation order, both ends of self relations included; `FieldMeaning` says what each field means |
| `FieldMeaning.EveryFieldMeant` | internal/database/gen/naming.go:276-354 | behind every relation field of every struct of a successful run stands a final relation with that struct's table as an end: the field has its model, name and kind, its junction and its join or the join with the halves changed over, and a belongs-to, has-one or has-many clause pairs two rows exactly when the paired columns of the relation hold equal cells |
| `FieldMeaning.EverySourceShown` | internal/database/gen/naming.go:286-289 | every final relation has that field in its source table's struct: belongs-to for a foreign key, many-to-many otherwise |
| `FieldMeaning.EveryTargetShown` | internal/database/gen/naming.go:290-298 | and in its target table's struct, unless its reverse field is suppressed: has-one exactly when marked so, has-many otherwise, or many-to-many with the halves of the join changed over |
| `FieldMeaning.FieldFrom` | internal/database/gen/naming.go:276-354 | the same of the fields emitted for any list of valid relations |
| `FieldMeaning.SwapHalves` | internal/database/gen/naming.go:356-362 | swapping a join changes its two halves over, whatever the second one holds |
| `FieldMeaning.SourceName` | internal/database/gen/relation.go:226-247 | a forward field has the name given, else the plural of its model for many-to-many, Parent within one table, the singular of its model otherwise |
| `FieldMeaning.TargetName` | internal/database/gen/relation.go:226-259 | a reverse field has the name given, else Child or Children within one table by its kind, the plural of its model otherwise |
| `Emission.EmitDistinct` | internal/database/gen/naming.go:276-354 | relations whose claims do not clash fill a struct with distinct names |
| `Emission.LoadMeta` | internal/database/gen/model.go:381-399 | the lazily filled table record always agrees with the columns |
| `Emission.CheckOneSide` | internal/database/gen/model.go:422-448 | the first missing column or clashing field of one side |
| `Emission.ValidateRelationColumns` | internal/database/gen/model.go:375-451 | the first error over all relations, source side before target side |
| `Emission.CheckRelationsMeans` | internal/database/gen/model.go:375-451 | a passing check has passed for every relation |
| `JunctionFields.CheckedExactly` | internal/database/gen/model.go:375-451 | the column check passes exactly when every table and every foreign key column exists and no relation field takes the name of a column's field or of BaseModel |
| `JunctionFields.ColumnsExist` | internal/database/gen/model.go:160-168 | every column that a foreign key of the final list names is a column of its table |
| `Emission.EmitAvoidsColumns` | internal/database/gen/model.go:375-451 | no emitted relation field has the name of a column field or of BaseModel |
| `Pipeline.ValidateRelations` | internal/database/gen/relation.go:175-188 | succeeds exactly on valid relations with distinct keys, else the first error |
| `Pipeline.InferRelations` | internal/database/gen/model.go:148-159 | annotate, detect, suppress and merge, whatever order maps are visited in |
| `Pipeline.GenerateRelations` | internal/database/gen/model.go:97-168 | the passes as run over Go maps give the one order-free result |
| `Pipeline.InferredPermutation` | internal/database/gen/model.go:148-159 | the second merge gives one answer for every order of relations and of junction tables |
| `Relations.EndpointsForced` | internal/database/gen/relation.go:219-224 | whatever has the key of a valid relation has its endpoints, however its own names are spelled |
| `PhysicalOrder.MergeAnyOrder` | internal/database/gen/relation.go:262-318 | for relations as the database delivers them, repeated or malformed ones included, the merge has one outcome for every order |
| `Pipeline.GeneratePermutation` | internal/database/gen/model.go:97-168 | the final list, and whether generation succeeds, is the same for every order of logical relations and of physical ones as the database delivers them |
| `Pipeline.StructFieldsDistinct` | internal/database/gen/model.go:97-168 | after a successful run every struct's relation fields are pairwise distinct and differ from column fields and BaseModel |
| `Structs.MergeKeeps` | internal/database/gen/relation.go:262-318 | a property kept by overriding holds of every merged relation if it holds of the inputs |
| `Structs.GenerateKeeps` | internal/database/gen/model.go:97-168 | such a property of the inferred relations reaches the final list |
| `Structs.GeneratedBacked` | internal/database/gen/relation.go:322-342 | every final relation is has-one if and only if its source column is unique |
| `Structs.ReverseFieldExact` | internal/database/gen/naming.go:276-299 | behind every has-one or has-many field stands a final relation whose reverse clause it carries, and it is has-one if and only if that relation's source column is unique |
| `Structs.HasOneFieldSound` | internal/database/gen/model.go:97-168 | every emitted has-one field joins at most one row in every instance keeping the constraints, if and only if its relation names a target column |
| `EmptyTarget.OneGenerates` | internal/database/gen/model.go:97-168 | one valid relation between two tables generates itself, annotated, when the column check passes |
| `EmptyTarget.OpenEndedJoinsAll` | internal/database/gen/relation.go:146-173 | for every source with a unique column and every target, a relation to no target column is accepted and its has-one field joins one target row to two source rows in an instance keeping the constraints |
| `EmptyTarget.ProfilesJoinAll` | internal/database/gen/model.go:97-168 | such as profiles.user_id to users.+ |
| `JoinNames.JoinNamesExact` | internal/database/gen/relation.go:463-509 | a resolved join is built from two foreign keys whose fields the junction's struct has; each half is that field's name if and only if the key has a field name, the junction is not that end, or the end is called Parent; the two fields coincide exactly when both ends are the same columns of one table |
| `FinalRelations.MergeKeys` | internal/database/gen/relation.go:262-318 | a successful merge lists exactly the keys of its two inputs |
| `FinalRelations.FinalKeys` | internal/database/gen/model.go:97-168 | the final relations have exactly the keys of the physical relations, the logical ones and the detected junctions, each once |
| `Overrides.LogicalWins` | internal/database/gen/model.go:97-168 | for each logical relation exactly one final relation has its key, with the ends, field, reverse field, type and junction it gives, else those of the last physical relation with the key, if any |
| `Overrides.PhysicalKept` | internal/database/gen/model.go:97-168 | a physical relation that no logical one overrides is in the final list once, with the names it came with |
| `Overrides.GivenFieldShown` | internal/database/gen/naming.go:276-299 | a field name that a logical relation gives is the name of a field of its source table's struct, of the right model, kind, junction and meaning |
| `JunctionFields.GivenReverseShown` | internal/database/gen/naming.go:276-299 | a reverse name that a logical relation gives is a field of its target table's struct in the same way, unless a junction absorbs it |
| `JunctionFields.SkippedExactly` | internal/database/gen/model.go:151-159 | a final relation's reverse field is suppressed exactly when it is a foreign key of a table detected as a junction |
| `JunctionFields.JunctionLinked` | internal/database/gen/relation.go:395-416 | every detected junction has a many-to-many relation through it in the final list, between exactly what its two foreign keys point at, in table order |
| `JunctionFields.DetectedJoin` | internal/database/gen/relation.go:399-414 | a detected many-to-many relation joins by the names of the two tables; the junction's struct has both foreign keys' fields, and each half is the field's name if and only if the key was given no other name and does not point back at the junction, or the table is called Parent |
| `RenamedKey.RenamedKeyMisnamed` | internal/database/gen/relation.go:399-414 | for every junction of two columns whose first foreign key was given another field name, generation succeeds with a detected join naming a field the junction's struct does not have |
| `RenamedKey.GrantedMisnamed` | internal/database/gen/model.go:97-168 | such as role_user with role_id called Granted |
| `FinalRelations.FinalJoin` | internal/database/gen/model.go:148-164 | every many-to-many relation of the final list that was not detected has a join described exactly in that way |
| `JoinNames.SideExact` | internal/database/gen/relation.go:497-505 | the same for one half, against the default names of the struct writer |
| `JoinNames.SelfJunctionMisnamed` | internal/database/gen/relation.go:497-505 | for every table that links to itself and is its own junction, the relations merge and resolve and the join names no field of its struct |
| `JoinNames.EmployeesMisnamed` | internal/database/gen/relation.go:463-509 | such as employees with a manager and a project |
| `Structs.ExpandTablesForRelations` | internal/database/gen/model.go:455-473 | each mentioned table is appended once, in order of first mention |
| `Structs.ExpandShape` | internal/database/gen/model.go:455-473 | the requested tables come first unchanged, and every table added differs from all others |
| `Structs.ModelsGenerated` | internal/database/gen/model.go:97-168 | both ends and the junction of every final relation are among the tables generated |
| `Aliases.TryPrefixes` | internal/database/gen/alias.go:33-40 | the first free longer prefix, or all of them are taken |
| `Aliases.TrySegments` | internal/database/gen/alias.go:41-59 | the first free lengthening of all segments, or all of them are taken |
| `Aliases.TrySuffixes` | internal/database/gen/alias.go:60-65 | the unbounded loop ends with the first free numbered alias |
| `Aliases.Pigeonhole` | internal/database/gen/alias.go:60-65 | the search never rejects more candidates than extensions plus aliases in use |
| `Aliases.SuffixInjective` | internal/database/gen/alias.go:60-65 | different numbers give different candidates |
| `Aliases.SearchFinds` | internal/database/gen/alias.go:29-66 | the search returns the first free candidate |
| `Aliases.LengthenAlias` | internal/database/gen/alias.go:29-66 | the three stages in order give the first free candidate |
| `Aliases.UniqueAliases` | internal/database/gen/alias.go:11-27 | the loop over the sorted names fills the alias map |
| `Aliases.AliasesDistinct` | internal/database/gen/alias.go:11-27 | exactly the given tables get aliases, and no two share one |
| `Aliases.ShortAlias` | internal/database/gen/naming.go:42-64 | the short alias is the first letter of each segment, or the first two letters of a name without underscores |
| `Aliases.AliasShape` | internal/database/gen/alias.go:11-66 | every alias is made of some leading letters of each segment of its table's name, in order, and perhaps a number from 2 on, for names of more than underscores |
| `Aliases.AssignIdempotent` | internal/database/gen/alias.go:11-27 | a repeated name keeps its alias and changes nothing |
| `Aliases.AliasesBySet` | internal/database/gen/alias.go:11-27 | the aliases depend only on the set of names |
| `QuotedList.SplitQuotedList` | internal/database/gen/typemap.go:150-173 | the byte loop reads the values the scanner reads |
| `QuotedList.WrittenReads` | internal/database/gen/typemap.go:150-173 | every list is read back from its quoted form, whatever quote-free text of at least one character stands between values |
| `QuotedList.CommaListReads` | internal/database/gen/typemap.go:150-173 | in particular every comma-separated list, empty values and values of quotes included |
| `QuotedList.NothingBetween` | internal/database/gen/typemap.go:158-166 | with nothing between them two values are read as one |
| `RedisLock.ChooseTTL` | pkg/scheduler/redislock.go:24-30 | the last positive TTL option, else the default |
| `RedisLock.Provider.constructor` | pkg/scheduler/redislock.go:44-60 | a provider starts without a lock |
| `RedisLock.Provider.Acquire` | pkg/scheduler/redislock.go:63-75 | set-if-absent as the server's state allows, with lost requests and lost replies; after a yes the key is this provider's at every time before the TTL is over and anyone's from then on |
| `RedisLock.Provider.Renew` | pkg/scheduler/redislock.go:78-89 | lock lost exactly when the call got through and the stored, unexpired token is another's; after a yes the key is this provider's for exactly the TTL from now, and a renewal that took no effect changes nothing |
| `RedisLock.Provider.Release` | pkg/scheduler/redislock.go:92-101 | deletes only its own token, leaving the key free, changes nothing otherwise, and forgets the lock unless the call failed |
| `RedisLock.ObtainedFor` | pkg/scheduler/redislock.go:63-75 | an acquisition that took effect makes the key the token's for exactly the TTL, even when its reply was lost |
| `RedisLock.RefreshedFor` | pkg/scheduler/redislock.go:78-89 | so does a renewal, counted from its own time |
| `RedisLock.UnlockedFree` | pkg/scheduler/redislock.go:92-101 | a release that took effect leaves the key free at every time |
| `Scheduler.NextKeeps` | pkg/scheduler/scheduler.go:75-164 | every step of Start, Stop and the heartbeat keeps the invariant tying thread positions, flags and counts together |
| `Scheduler.ReleaseSafe` | pkg/scheduler/scheduler.go:139-153 | in every run Release happens at most once, after one successful Acquire, with the heartbeat over and no Renew after it, and with cron off unless the lock was lost before cron.Start |
| `Scheduler.ReadyBalanced` | pkg/scheduler/scheduler.go:89-98 | between calls every Acquire not still owned has been released, and a failed Init has released, stopped cron and ended the heartbeat |
| `Scheduler.StopAgain` | pkg/scheduler/scheduler.go:157-164 | once nothing is owned, only Stop is possible and a whole Stop returns the very same state |
| `Scheduler.LossStopsCron` | pkg/scheduler/scheduler.go:125-129 | after line 88 cron runs exactly when the heartbeat has not stopped it, or did so before cron.Start |
| `Scheduler.LossFinal` | pkg/scheduler/scheduler.go:125-129 | a loss noticed once cron.Start was reached keeps cron off for the rest of the run |
| `Scheduler.StopStopsCron` | pkg/scheduler/scheduler.go:157-164 | after Stop cron is on exactly when the loss came before cron.Start and the flag was cleared after line 88, with no failed Init |
| `Scheduler.GapLeak` | pkg/scheduler/scheduler.go:84-88 | a run in which Stop leaves cron running without the lock |
| `Leader.HoldingStep` | pkg/scheduler/scheduler.go:75-164 | only a granted Acquire makes a holder, only Release unmakes one, and Renew is only called by holders |
| `Leader.NextKeeps` | pkg/scheduler/redislock.go:63-101 | a step keeps at most one holder, whose token is stored and unexpired, if and only if it is timely |
| `Leader.OneLeader` | pkg/scheduler/scheduler.go:75-164 | in every run of any number of schedulers with timely renewals, at most one cron runs, its token is the stored one, cron is off at every Release, and no heartbeat sees a loss |
| `Leader.PunctualIsTimely` | pkg/scheduler/scheduler.go:100-137 | if time never gets to a holder's TTL after the server last answered it yes, no stored entry of a holder ever runs out, lost replies included |
| `Leader.OneLeaderByRenewal` | pkg/scheduler/scheduler.go:75-164 | in every such run at most one scheduler runs cron, its token is stored for at least its TTL from that yes, and its cron is off at every Release |
| `Leader.GapSplitBrain` | pkg/scheduler/scheduler.go:84-88 | without timely renewal two schedulers can run cron although the first has noticed its loss |
| `Subscribers.StableSortUnique` | pkg/event/bus.go:146-149 | descending priority with registration order inside each priority determines the list |
| `Subscribers.StableSortMembers` | pkg/event/bus.go:146-149 | such a list is a permutation of the registrations |
| `Subscribers.Append` | pkg/event/bus.go:145 | one element more, in place when there is room, else in new storage |
| `Subscribers.SortStable` | pkg/event/bus.go:147-149 | the in-place sort is the stable descending sort |
| `Subscribers.Splice` | pkg/event/bus.go:162 | the in-place shift removes exactly one position |
| `Subscribers.Remove` | pkg/event/bus.go:159-165 | exactly the given registration goes; a second call changes nothing |
| `Subscribers.SubscribeSorts` | pkg/event/bus.go:145-149 | sorting the sorted list with a new element sorts the registrations with the new one |
| `Subscribers.RemoveSorts` | pkg/event/bus.go:155-167 | removing from the sorted list sorts the remaining registrations |
| `EventBus.Bus.Subscribe` | pkg/event/bus.go:125-152 | refused when closed, then when the name holds 1000; else the newest live registration, with every list again the stable sort of its registrations |
| `EventBus.Bus.SubscribeWildcard` | pkg/event/bus.go:170-197 | refused when closed, then for a malformed pattern; no limit |
| `EventBus.Bus.Unsubscribe` | pkg/event/bus.go:155-167 | exactly that registration is no longer live, and the list is the sort of the rest |
| `EventBus.Bus.UnsubscribeWildcard` | pkg/event/bus.go:200-212 | the same for patterns |
| `EventBus.Bus.Publish` | pkg/event/bus.go:60-81 | refused exactly when closed; else a snapshot in new storage of the name's list and then of each matching pattern's list once, in the order the range met them, with one count per async target |
| `EventBus.SnapshotDelivers` | pkg/event/bus.go:66-74 | the deliveries of a snapshot are the name's registrations and each matching pattern's registrations once, whatever the order of the range |
| `EventBus.DeliveredExactly` | pkg/event/bus.go:66-74 | a subscriber is in the snapshot exactly when it is live under the event's name or under a matching pattern |
| `EventBus.AsyncPlaces` | pkg/event/bus.go:75-80 | the count added to the wait group is the number of places in the snapshot that hold an async subscriber |
| `EventBus.SnapshotSurvives` | pkg/event/bus.go:60-85 | the snapshot is unchanged by any later sequence of calls on the bus |
| `EventBus.DeliveryPermutation` | pkg/event/bus.go:70-74 | the order in which the map yields patterns does not change which deliveries are made |
| `BusClose.NextKeeps` | pkg/event/bus.go:54-100 | every step keeps the count equal to the outstanding deliveries and lets none be enlisted once closed |
| `BusClose.WaitGroupExact` | pkg/event/bus.go:75-100 | in every run the count is the deliveries registered and not finished, Done never takes it below zero, and none is registered after closed is set |
| `BusClose.CloseWaitsExactly` | pkg/event/bus.go:226-233 | Wait can return exactly when no async handler is running or left to start |
| `BusClose.QuietAfterClose` | pkg/event/bus.go:226-233 | once a Close has returned no async handler runs and none ever starts |
| `BusClose.RefusedAfterClose` | pkg/event/bus.go:60-64 | a Publish that looks after Close is refused |
| `Crc.BitLinear` | internal/protocol/custom_protocol.go:92 | the CRC step distributes over exclusive-or |
| `Crc.BitInverse` | internal/protocol/custom_protocol.go:92 | the CRC step can be undone, so it is injective |
| `Crc.TableStep` | internal/protocol/custom_protocol.go:92 | the table-driven form of RFC 1952 takes in a byte as eight bit steps do |
| `CrcPolynomial.StepMultiplies` | internal/protocol/custom_protocol.go:92 | a bit step multiplies the register, as a polynomial, by x and takes the remainder by the IEEE generator x^32 + x^26 + x^23 + x^22 + x^16 + x^12 + x^11 + x^10 + x^8 + x^7 + x^5 + x^4 + x^2 + x + 1 |
| `CrcPolynomial.FeedRemainder` | internal/protocol/custom_protocol.go:92 | the register after any bytes has degree below 32 and differs from the message, with the start value added to its highest 32 coefficients, by a multiple of the generator |
| `CrcPolynomial.CheckValue` | internal/protocol/custom_protocol.go:92 | the checksum of the digits 1 to 9 is the standard check value 0xCBF43926 |
| `LinearSteps.BurstChanges` | internal/protocol/custom_protocol.go:190-194 | any reversible linear check register tells apart inputs that differ within four consecutive places |
| `Crc.BurstDetected` | internal/protocol/custom_protocol.go:190-194 | payloads differing only within four consecutive bytes have equal CRC-32 exactly when they are equal |
| `Frame.Len32Exact` | internal/protocol/custom_protocol.go:88 | truncating lengths to 32 bits confuses exactly those equal modulo 2^32 |
| `Frame.Len32Counts` | internal/protocol/custom_protocol.go:88 | the length field is zero for nothing and counts up by one with each byte |
| `Frame.HeaderRoundTrip` | internal/protocol/custom_protocol.go:99-127 | a written header is read back field by field and the payload follows it |
| `Frame.HeaderOnto` | internal/protocol/custom_protocol.go:206-232 | every 20 bytes are the bytes of the header read from them |
| `Frame.FrameAccepted` | internal/protocol/custom_protocol.go:73-130 | a frame of any length passes every check and yields its payload |
| `Frame.AcceptedExactly` | internal/protocol/custom_protocol.go:133-198 | the checks pass on exactly the frames Encode could write, up to the reserved byte |
| `Frame.PayloadBurstFound` | internal/protocol/custom_protocol.go:187-194 | any change within four consecutive payload bytes is reported as an invalid checksum |
| `Frame.HeaderChangeFound` | internal/protocol/custom_protocol.go:167-194 | a changed header is accepted exactly when only type, message id and reserved bytes differ |
| `Frame.HeaderByteFound` | internal/protocol/custom_protocol.go:167-194 | one changed header byte is accepted exactly when it is one of those six |
| `Frame.HeaderByteNamed` | internal/protocol/custom_protocol.go:167-194 | and otherwise it is reported by the check of its own field |
| `Frame.ResizeFound` | internal/protocol/custom_protocol.go:182-185 | other bytes after the header are a size error exactly when their number differs modulo 2^32 |
| `Frame.PrefixRefused` | internal/protocol/custom_protocol.go:133-185 | every proper prefix of a frame under 2^32 payload bytes is refused |
| `Frame.ExtensionRefused` | internal/protocol/custom_protocol.go:182-185 | every extension under 2^32 payload bytes is refused |
| `Frame.ReadHeader` | internal/protocol/custom_protocol.go:206-232 | the eight reads give the fields at their fixed offsets |
| `Frame.Encode` | internal/protocol/custom_protocol.go:73-130 | the codec's error, or the frame with the CRC-32 of its payload |
| `Frame.ExampleFrame` | internal/protocol/custom_protocol.go:73-130 | one frame byte by byte: magic number, version, type, message id, codec, reserved, length and checksum, each big-endian, then the payload |
| `Frame.Decode` | internal/protocol/custom_protocol.go:133-198 | the first failing check's error, or the codec's answer on the payload |
| `Frame.ParseHeader` | internal/protocol/custom_protocol.go:201-239 | size and magic are checked; the header returned, written out again, is the data's first 20 bytes |
| `Frame.SendAndReceive` | internal/protocol/custom_protocol.go:73-239 | with a codec that round-trips, Decode after Encode returns the value and ParseHeader the exact fields, for any length |
| `MultiCache.ReturnedWasSet` | pkg/cache/multi.go:24-80 | under any interleaving, failure and eviction, a value Get returns was earlier set under that key |
| `MultiCache.FoundInL1` | pkg/cache/multi.go:24-58 | a value that a Set or a warm-up left in L1 is what every Get returns until something touches it there |
| `MultiCache.FoundInL2` | pkg/cache/multi.go:24-58 | a value that a Set left in L2 is what a Get that reaches L2 returns until something touches it there, and it is then on its way back to L1 |
| `MultiCache.OrderlyKept` | pkg/cache/multi.go:50-73 | disciplined steps keep at most one write of a key under way, and no warm-up beside it |
| `MultiCache.FreshExact` | pkg/cache/multi.go:24-73 | from an orderly and fresh state a step leaves every copy of a key the latest value if and only if it meets its guard: no pending warm-up of another value at a write, level writes that take effect, and no L2 hit on an old value between the levels |
| `MultiCache.FreshKept` | pkg/cache/multi.go:24-73 | disciplined steps meet the guard for every key |
| `MultiCache.ReturnedIsLast` | pkg/cache/multi.go:24-73 | in a disciplined run Get returns the latest value set or nothing |
| `MultiCache.FreshExactly` | pkg/cache/multi.go:24-73 | from an orderly state, every disciplined continuation, writes included, returns only the then latest value if and only if L1, the pending warm-ups and, with no write under way, L2 hold no stale copy |
| `MultiCache.WarmUpOverwrites` | pkg/cache/multi.go:37-43 | a warm-up that outlives a Set leaves the old value in L1 |
| `MultiCache.DeleteUndone` | pkg/cache/multi.go:56-58 | a Get between the two levels of a Delete brings the deleted value back |
| `UserService.Generate` | pkg/cache/keygen.go:21-34 | the prefix and parts joined with colons |
| `UserService.KeysApart` | internal/cache/user.go:13-47 | distinct ids have distinct keys, and no email's key is an id's key |
| `UserService.UserCache.GetUserByID` | internal/cache/user.go:20-22 | the entry under the id's key if the cache answers and has it |
| `UserService.Service.GetByID` | internal/service/user.go:75-89 | answers as the uncached service, from the cache if it has the entry, leaves a public copy behind after a repository read and otherwise changes nothing, and keeps the cache coherent and free of passwords |
| `UserService.Service.Create` | internal/service/user.go:46-72 | changes the rows and answers as the uncached service, keeping the cache coherent |
| `UserService.Service.Update` | internal/service/user.go:124-149 | changes the rows and answers as the uncached service, dropping exactly the cache entries of the id and of the email |
| `UserService.Service.Delete` | internal/service/user.go:152-167 | the same for deletion, whose effect `UserLaws.DeleteMeans` states |
| `UserService.Service.InvalidateUserCache` | internal/service/user.go:170-175 | exactly the id's entry and, for a non-empty email, the email's entry are gone |
| `UserService.CachedAnswer` | internal/service/user.go:193-215 | the response made from a public copy is the response made from the row |
| `UserService.MissedInvalidation` | internal/service/user.go:170-175 | without the invalidation the cache stays coherent exactly when it held nothing for the row or already its new public form |
| `UserService.Converse` | internal/service/user.go:46-175 | over every sequence of calls and every loss of cache entries, each answer is the uncached one; with the database down a read may instead get the answer it would get with the database up |
| `UserLaws.CreateMeans` | internal/service/user.go:46-72 | refused as existing exactly when some user shown has the email; a created user is then shown under its new id with the request's email, name and phone, status 1 and both times now, its stored password is the hash, the email is taken and no other id is affected |
| `UserLaws.CreateTwice` | internal/service/user.go:46-72 | a second Create with the same email is refused as existing |
| `UserLaws.UpdateMeans` | internal/service/user.go:124-149 | succeeds exactly when the database does; then each value given is the one shown, every other field and the stored password are kept, the update time is now and no other id is affected |
| `UserLaws.UpdateMissing` | internal/service/user.go:124-128 | updating nobody answers not found and changes nothing |
| `UserLaws.DeleteMeans` | internal/service/user.go:152-167 | answers deleted exactly when a user was shown and the database works; then that id is not found, every other id shows what it did, and any other answer changes nothing |
| `UserLaws.DeletedForGood` | internal/service/user.go:75-167 | in every conversation, once a user was deleted no later GetByID of that id ever answers with a user, whatever the cache held, kept or lost |
| `UserLaws.EmailsUniqueAt` | internal/service/user.go:46-167 | in every conversation no two live users ever share an email |
| `Lifecycle.SoundNext` | internal/app/lifecycle.go:74-100 | a due stop keeps the trace sound: no stop succeeds twice and no paired hook is stopped before it was started |
| `Lifecycle.App.AddHook` | internal/app/lifecycle.go:30-33 | the hook comes last with neither flag set |
| `Lifecycle.App.StopHookAt` | internal/app/lifecycle.go:74-100 | OnStop is called exactly when it is due, and the hook counts as stopped only on success |
| `Lifecycle.App.RollbackStartedHooks` | internal/app/lifecycle.go:54-62 | exactly the due hooks below the failed one are stopped, in falling order, all errors collected |
| `Lifecycle.App.StopHooks` | internal/app/lifecycle.go:64-72 | one falling pass over the due hooks; without an error exactly the stop-only and started hooks with an OnStop are stopped |
| `Lifecycle.App.StartHooks` | internal/app/lifecycle.go:35-52 | hooks start in rising order up to the first failure, which is followed by the rollback of those before it |
| `Lifecycle.RunLifecycle` | internal/app/lifecycle.go:35-100 | one start and any number of stops, with arbitrary outcomes, leave a sound trace made of rising starts, a falling rollback and one falling phase for each stop, and an error-free last stop leaves exactly the right hooks stopped |
| `MemoryLock.ApplyOptions` | pkg/lock/locker.go:48-57 | the last TTL if positive, else the default |
| `MemoryLock.MemoryLocker.TryLock` | pkg/lock/memory.go:31-55 | granted exactly when the key has no unexpired entry at the sampled time |
| `MemoryLock.MemoryLocker.Unlock` | pkg/lock/memory.go:65-81 | only the holder's own entry is removed |
| `MemoryLock.EntryStands` | pkg/lock/memory.go:31-81 | an entry stands until its holder releases it or a caller that saw it expired is granted the key |
| `MemoryLock.NoOverlap` | pkg/lock/memory.go:31-81 | of two grants the earlier was released, or some grant up to the later one was sampled at or after its expiry |
| `MemoryLock.NoOverlapInTime` | pkg/lock/memory.go:31-81 | when the later grant is made the earlier was released or has expired |
| `MemoryLock.SawExpiryExactly` | pkg/lock/memory.go:41-48 | in any later state, every caller that could be granted the key comes after a holder's release or samples at or after its expiry, if and only if it has released or the key's entry expires no sooner |
| `MemoryLock.NextHolderSawExpiry` | pkg/lock/memory.go:41-48 | between successive grants the later caller's own sample is at or after the expiry, or the earlier was released |
| `MemoryLock.OrderedSamplesSawExpiry` | pkg/lock/memory.go:41-48 | and between any two grants when no grant of the key in between was sampled later |
| `MemoryLock.LateEntrant` | pkg/lock/memory.go:41-48 | a run in which a late entrant is granted on a sample before an earlier holder's expiry |
| `MemoryLock.StaleReleaseHarmless` | pkg/lock/memory.go:65-81 | a superseded holder's Release changes nothing |
| `Amount.ComputedExact` | pkg/payment/amount.go:58-66 | past the guard, the 64-bit result is the denoted value exactly when that fits 64 bits |
| `Amount.ParseExact` | pkg/payment/amount.go:21-66 | an accepted text parses to its exact value if and only if that fits 64 bits |
| `Amount.FittingAccepted` | pkg/payment/amount.go:21-66 | an amount whose magnitude fits is never refused |
| `Amount.GuardTooWeak` | pkg/payment/amount.go:58-61 | a text one fen above the largest amount passes the guard and parses to the least amount |
| `Amount.ShowInjective` | pkg/payment/amount.go:26-46 | a text can be read as an amount in one way only |
| `Amount.AcceptedExactly` | pkg/payment/amount.go:31-60 | the checks pass on exactly the texts of amounts within the guard |
| `Amount.PrintParse` | pkg/payment/amount.go:11-66 | parsing the printed text returns the amount, for every int64 but the least and only for those |
| `Amount.PrintedShape` | pkg/payment/amount.go:11-17 | the printed text is a sign for negative amounts only, the yuan without a leading zero, a point and two digits |
| `Amount.PaddedParses` | pkg/payment/amount.go:22 | white space around an amount does not change what it means |
| `Amount.PrintInjective` | pkg/payment/amount.go:11-17 | different amounts print differently |
| `Amount.AllDigits` | pkg/payment/amount.go:68-78 | true exactly for non-empty digit strings |
| `Amount.YuanStringToFen` | pkg/payment/amount.go:21-66 | the wrapped 64-bit value of the amount the trimmed text shows, zero for nothing, refused otherwise |

## Left out

- SQL introspection, migrations, file writing and formatting: columns, unique groups and foreign keys are inputs.
- Loading relations from YAML and parsing endpoints: relations are inputs; their validation is modelled.
- Singular, plural and camel-case naming: arbitrary functions, so every property holds for any naming.
- The type-mapping tables, default normalisation and everything in the generated source other than relation fields: case lists and library patterns.
- Generation without table expansion (`NoExpand`): `Structs.ModelsGenerated` is about the default.
- Texts of errors and log lines: errors are told apart by kind only.
- Strings are sequences of characters: `ToAlias` and the alias stages cut names at bytes, so the model matches them on the ASCII names that table validation admits.
- Map values filled by loops are Dafny maps reassigned by methods; aliasing between Go maps and slices is modelled only for the subscriber slices, the tagged columns and the annotated relations.
- Threads of the scheduler, of Close and of the two-level cache are steps on values rather than classes, because their properties are about every interleaving.
- One Start per scheduler: a second Start on the same object is not modelled, nor are Start and Stop called from two threads at once, which the unguarded `lockOwned` field rules out.
- The running of jobs, the five-second stop timeout and cron's own behaviour: cron is on or off.
- Lock tokens are taken as never repeated, as 16 random bytes are.
- Sync handlers, handler errors and panics of the event bus: a handler is running until it calls Done.
- `filepath.Match`: an arbitrary matching function, as is the check for malformed patterns.
- The JSON and binary codecs: an abstract codec, assumed to round-trip where a round trip is stated.
- The TTLs of cache entries: entries vanish at any time.
- `MultiCache.Exists` and `Close`: they add nothing to what Get and the warm-up steps show.
- Overlapping calls of the user service, a database failure whose change took effect, and cache deletes that fail: calls run one after the other; `UserService.MissedInvalidation` says what a failed delete costs.
- Listing users and checking credentials: they read the repository only.
- UserService.Service.Create: takes a new row id as never used before, as an autoincrement column gives it.
- Hook names and log output of the lifecycle: hooks are told apart by position.
- HTTP, TCP and UDP servers, middleware, rate limiting, payment and storage drivers, configuration and the semaphore in internal/utils: wiring or flat checks.
