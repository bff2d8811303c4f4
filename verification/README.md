# Civio: sync protocol, sessions and ledger, verified

A Dafny model of the four places where Civio decides something: the sync
protocol between cloud and edge with its Merkle verifier, the database with its
triggers and foreign-key actions, the OTP/token service, and the two small pieces
of arithmetic and map merging that the service rests on. Each is written in the
form the repository gives it (loops and in-place updates are methods on classes,
queries and checks are functions), and each method is proved against a function
on states; the properties are lemmas about that function and about every run.

`dafny verify dfyconfig.toml` checks the project. One module per file:

| part | modules |
|---|---|
| Merkle roots | `Bytes` (order, sorting, hex), `PairTree` (rounds, tree, expanded row), `Merkle`, `CommunityRoot` |
| Sync protocol | `DeltaLog` (delta query, retention), `EdgeNode` (the edge), `SyncRuns` (all interleavings), `SyncTimes` (the seven-day rules), `Ack` (roots meet rows), `CloudEvents` (runs of the database are runs of the protocol) |
| Database | `Users`, `Ledger`, `Schema` (statements as state changes), `Database` (the same as methods), `DatabaseRuns`, `Outcomes` (which statements commit) |
| Sessions | `Otp`, `Tokens`, `Auth` (the service), `AuthRuns` |

## How to read it

**Merkle.** SHA-256 is a parameter, any function from byte strings to 32-byte
digests. No such function is collision-free, so that is never assumed of it as a
whole: where it is needed it is asked of exactly the inputs that the two
computations hash, and `MerkleRoot` returns, as a ghost result, that this is the
set it hashed. A row's canonical JSON is a parameter too (`canon`). Leaves, nodes
and the empty table are kept apart by one condition: no row is serialized as one of
the node inputs hashed in the two computations, or as the empty string next to an
empty table; it is enough that no serialized row is 64 bytes long, or empty
(`LengthsKeepApart`). Both hypotheses matter, and two lemmas say why: a row that is
serialized as two digests passes for a node (`NodeLookalikeKeepsRoot`), and a table
of odd size keeps its root when its greatest-hash row is repeated
(`RepeatedRowKeepsRoot`). The construction section of docs/04-sync-protocol.md
mentions neither the duplicated last hash nor the empty table; its reference code
has both, and the code is followed.

**Sync.** A run is any interleaving of cloud writes, pruning, pulls, pulls that
stop half-way, and full syncs. Every write to a synced row emits its event with the
bumped version in the same transaction (docs/01-architecture.md:70-90). The edge
records a batch's version after the batch and does not wait for the ack, so a lost
ack is a pull like any other. The protocol's text leaves some things open, and
some of its rules fail when they are taken alone:

- Crash safety needs UPSERT to clear the deleted mark. If it kept the mark, a
  repeated batch could delete a row that a clean run keeps
  (`KeepingTheMarkIsNotCrashSafe`).
- The stale-version rule of section 4, taken literally, misses pruned events exactly
  when pruning has left the community no event at all while one lies beyond the
  request's version (`StaleRuleMisses`), and it turns away an edge that is up to date
  when only the next event is retained (`StaleRuleRefusesUpToDate`). An edge that is
  not in that gap is called covered here. A pull of a covered edge always settles it
  (`PulledEdgeIsReplay`); for any other edge the last events of its crashed pulls on
  each row decide, and the conditions are exact (`PullSettlesExactly`,
  `DrainedExactly`, with `EmptyLogLosesWrites` and `EmptyLogLeavesCrashedBatch` as
  failing runs).
- Sections 1 and 5 close that gap. If only events older than seven days are pruned
  and an edge that lags longer does a full sync, every pull settles
  (`TimelyPullSettles`). Lag is counted from the oldest event the edge has not
  recorded; having been offline for at most seven days amounts to it when the last
  pull left nothing pending (`OfflineAWeekIsOnTime`). A rule that the cloud can check
  by itself does as well: answer from an empty log only an edge at the current version
  (`RepairedPullSettles`).
- The text keeps tombstoned rows on the edge and hashes each row. The edge's root is
  taken here over the rows it serves, those without a deleted mark. Over all kept rows
  the ack is accepted exactly when, besides, no row carries a mark
  (`KeptRowsAckExactly`), so an edge that has applied a deletion and serves the
  cloud's rows exactly would be refused (`DeletionIsRefused`).

**Database.** A statement commits with all its triggers and cascades or aborts and
changes nothing. A statement here writes one row, plus what its cascades write; an
UPDATE or DELETE of the ledger may name any rows. Deltas are counted in units of
0.0001, so NUMERIC(18, 4) is exact. Statements that would rewrite the ledger have that
effect in the model, and only the triggers' verdict stops them. Dropping the repeats of
an idempotency key is harmless exactly when no repeat is acceptable whose key's first
request was not (`DropRepeatsAgrees`); back-to-back retries that repeat the request as
it was meet that (`RetriesChangeNothing`), `ChangedRetryCanSucceed` is a changed retry
that does not, and once a key has committed nothing under it ever commits again,
whatever happens in between (`KeyCommitsOnce`). An inserted row keeps the updated_at it
comes with, the default being the caller's to fill in: the trigger fires on UPDATE only.

**Sessions.** Each service call is one atomic step; `verify_otp` is a get and then a
set, and two calls interleaved between the two are not modelled. A token is its
claims, and the service keeps the set of tokens it has signed: a token outside it
has a bad signature. uuid4 draws are fresh, the number `randbelow` draws is a
parameter. Whether the JWT library accepts a token in its very last second, and what
it makes of claims that this service never sets, is left open as a parameter
(`Library`) of every lemma. Times are in microseconds and truncated to seconds where
the code does; lifetimes are configurable, 300 seconds, 15 minutes and 7 days by
default.

## Model

| member | source | states |
|---|---|---|
| PairTree.CeilLog2IsLeast | docs/04-sync-protocol.md:202-208 | the round count is the least h with n <= 2^h |
| PairTree.TreeSplit | docs/04-sync-protocol.md:198-209 | the tree over n leaves splits at the largest power of two below n; a shorter right side is lifted by pairing it with itself |
| PairTree.RoundKeepsSubtree | docs/04-sync-protocol.md:202-208 | pairing neighbours, last one duplicated, keeps the root of the recursive tree, one level lower |
| PairTree.RoundKeepsNodes | docs/04-sync-protocol.md:202-208 | the pairs of a round are exactly the bottom layer of that tree: every node of the tree is hashed in some round and nothing else is |
| PairTree.RoundKeepsTree | docs/04-sync-protocol.md:202-208 | a round keeps root and nodes, and takes exactly one off the remaining number of rounds |
| PairTree.ExpandKeepsLeaves | docs/04-sync-protocol.md:203-204 | writing all duplications out gives a row that starts with the leaves and holds no other value |
| PairTree.SubtreeInjective | docs/04-sync-protocol.md:202-209 | equal roots of two trees, of any sizes, force equal heights and equal expanded rows, if no two of their nodes collide and no node equals a leaf |
| PairTree.ExpandDeterminesSubtree | docs/04-sync-protocol.md:202-209 | the root is a function of the expanded row |
| PairTree.TreesAgree | docs/04-sync-protocol.md:202-209 | roots agree if and only if the expanded rows do, and then the sets of leaves are the same |
| PairTree.RepeatedLastKeepsTree | docs/04-sync-protocol.md:203-204 | an odd row of three or more leaves keeps its root when its last leaf is repeated |
| Bytes.Sort | docs/04-sync-protocol.md:201 | the sorted arrangement of the same byte strings |
| Bytes.SortedUnique | docs/04-sync-protocol.md:201 | there is only one such arrangement |
| Bytes.LeqIsLexicographic | docs/04-sync-protocol.md:201 | the order sorted by is the lexicographic order of byte strings: a prefix first, else the smaller byte where the two first differ |
| Bytes.HexInjective | docs/04-sync-protocol.md:209 | hex text determines the bytes |
| Bytes.HexThenUnhex | docs/04-sync-protocol.md:200-209 | the text of a digest consists of the digits 0-9 and a-f, and reading them, the high half of a byte first, gives the bytes back |
| Bytes.UnhexThenHex | docs/04-sync-protocol.md:200-209 | every such text of even length is the text of the bytes it reads as |
| Merkle.MerkleRoot | docs/04-sync-protocol.md:198-209 | the reference code computes the recursive tree's root over the sorted row hashes, in exactly ceil(log2 n) rounds, hashing exactly the serialized rows and the tree's nodes (or the empty string) |
| Merkle.LevelLoop | docs/04-sync-protocol.md:202-208 | its level loop computes the recursive tree in ceil(log2 n) rounds and hashes exactly the tree's nodes |
| Merkle.Round | docs/04-sync-protocol.md:203-208 | one pass of the loop is one round: the last hash of an odd level duplicated, neighbours hashed in order |
| Merkle.RootIgnoresOrder | docs/04-sync-protocol.md:201 | the root depends on the multiset of row hashes alone |
| Merkle.RootIsOfMultiset | docs/04-sync-protocol.md:198-209 | the root depends on the multiset of rows alone |
| Merkle.TrustworthySeparates | docs/04-sync-protocol.md:194-208 | no collision among the hashed inputs and no row serialized as a hashed node input imply what the tree argument needs: nodes are told apart from each other and from leaves |
| Merkle.LengthsKeepApart | docs/04-sync-protocol.md:194-208 | no row is taken for a node or for the empty table when no serialized row is 64 bytes long, or empty |
| Merkle.RootsAgree | docs/04-sync-protocol.md:198-209 | two tables have the same root if and only if their expanded sorted leaf rows are equal, or both are empty |
| Merkle.EmptyRootDiffers | docs/04-sync-protocol.md:199-200 | no non-empty table has the empty table's root |
| Merkle.EqualRootsSameRows | docs/04-sync-protocol.md:194-209 | equal roots imply the same set of rows, whatever the two sizes and with duplicates allowed |
| Merkle.RootDecidesTable | docs/04-sync-protocol.md:194-212 | for tables without duplicate rows: equal roots if and only if equal sets of rows |
| Merkle.RepeatedRowKeepsRoot | docs/04-sync-protocol.md:203-204 | with duplicates the root does not decide: an odd table of three or more rows keeps its root when its greatest-hash row is repeated |
| Merkle.NodeLookalikeKeepsRoot | docs/04-sync-protocol.md:194-208 | nor without the length condition: a row serialized as two digests has the root of the two rows under that node |
| CommunityRoot.SortEntries | docs/04-sync-protocol.md:170-185 | sorting the "name:root" entries orders them by name, whatever the roots |
| CommunityRoot.LeastEntryFirst | docs/04-sync-protocol.md:174-184 | the string hashed for a community is the least label with its root, then the string of the other tables, and empty for none |
| CommunityRoot.LabelIsNameAndColon | docs/04-sync-protocol.md:175-182 | an entry is labelled by the table name and a colon |
| CommunityRoot.SortedConcatDecides | docs/04-sync-protocol.md:174-184 | the sorted concatenation determines the root of every table, and conversely |
| CommunityRoot.CommunityRootDecides | docs/04-sync-protocol.md:170-185 | community roots agree if and only if every synced table has the same rows on both sides |
| DeltaLog.QueryDelta | docs/04-sync-protocol.md:112-115 | the query returns the first 500 pending versions in order |
| DeltaLog.CutSkipsNothing | docs/04-sync-protocol.md:112-117 | what was pending is the batch followed by what is pending from the batch's last version, and the batch has all of it up to 500: the cut skips nothing and repeats nothing |
| DeltaLog.StaleRuleIsSafe | docs/04-sync-protocol.md:226-236 | when the community has an event left and the request is not stale, no pruned event is missed |
| DeltaLog.CoveredMissesNothing | docs/04-sync-protocol.md:226-236 | a request that is not stale misses nothing if and only if the community has an event left or nothing beyond the version was pruned; the answer then is the unpruned log's |
| DeltaLog.RepairedRuleIsSafe | docs/04-sync-protocol.md:226-228 | the rule misses nothing once an empty log answers only an edge at the current version |
| DeltaLog.StaleRuleMisses | docs/04-sync-protocol.md:226-236 | a request passes the rule and yet misses a pruned event if and only if the community has no event left and one lies beyond the request's version |
| DeltaLog.StaleRuleRefusesUpToDate | docs/04-sync-protocol.md:226-228 | the rule refuses an up-to-date edge when only the next event is retained |
| EdgeNode.AbsorbOne | docs/04-sync-protocol.md:119-123 | an event of a batch, applied once more beforehand, changes nothing |
| EdgeNode.AbsorbAll | docs/04-sync-protocol.md:119-123 | neither does any list of the batch's events, in any order and number |
| EdgeNode.CrashedPrefixIsAbsorbed | docs/04-sync-protocol.md:109-129 | any prefix of a batch, then the batch again, possibly longer, ends as one clean application |
| EdgeNode.KeepingTheMarkIsNotCrashSafe | docs/04-sync-protocol.md:120-123 | an UPSERT that kept the deleted mark would not be crash-safe |
| EdgeNode.RowsAreKept | docs/04-sync-protocol.md:122-123 | no batch removes a mirrored row |
| EdgeNode.ReplayedRow | docs/04-sync-protocol.md:119-123 | what any list of events leaves of a row: it is there if it was or was ever upserted, holds the data last upserted, tombstones or not, and is marked if and only if a tombstone came last |
| EdgeNode.LiveFollowsWrites | docs/04-sync-protocol.md:119-123 | the unmarked rows follow the same events as the cloud's tables, deletions included |
| EdgeNode.WriteAllLeaves | docs/04-sync-protocol.md:119-123 | what a list of events leaves of a row is decided by the last event on that row |
| EdgeNode.SameEffectExactly | docs/04-sync-protocol.md:119-123 | two lists of events leave the same tables if and only if their last events on each row agree, or agree with what was there |
| EdgeNode.StagingRebuilds | docs/04-sync-protocol.md:60-68 | staging a snapshot that lists the rows of the tables, in any order, rebuilds exactly those tables |
| EdgeNode.Edge.constructor | docs/04-sync-protocol.md:36-39 | an edge starts with no rows at version 0 |
| EdgeNode.Edge.ApplyDelta | docs/04-sync-protocol.md:119-123 | stopping after any number of steps leaves exactly that prefix applied; the version moves only after the whole batch |
| EdgeNode.Edge.CatchUp | docs/04-sync-protocol.md:100-123 | on an idle log n pending events are applied exactly once, in version order, in ceil(n/500) non-empty pulls, and nothing is pending then |
| EdgeNode.Edge.FullSync | docs/04-sync-protocol.md:44-98 | live rows and version change only if all pages arrived and the root of what was staged is the expected one, then to exactly what was staged; otherwise both stay and the edge is resyncing |
| SyncRuns.BatchIsSpan | docs/04-sync-protocol.md:112-117 | a batch is exactly the events between the version asked for and the version it ends at |
| SyncRuns.AnswerIsHistory | docs/04-sync-protocol.md:226-236 | a covered edge is answered as the unpruned log would answer it |
| SyncRuns.StepKeepsInv | docs/04-sync-protocol.md:100-129 | every step keeps: cloud tables are the replay of all events, the edge's base is a replay up to its version, and crashed pulls have touched only events of the next batch |
| SyncRuns.RunKeepsInv | docs/04-sync-protocol.md:36-157 | that holds in every reachable state |
| SyncRuns.PulledEdgeIsReplay | docs/04-sync-protocol.md:109-129 | in every run, with lost acks, crashes and repeated pulls, a covered edge after a completed pull is the replay of all events up to its version and serves the cloud's tables at that version |
| SyncRuns.ServesExactly | docs/04-sync-protocol.md:109-129 | in any state of a run, what crashed pulls have applied since the version was recorded decides, row by row and exactly, whether the edge serves the tables of its version, and whether it serves those of the present |
| SyncRuns.PullSettlesExactly | docs/04-sync-protocol.md:109-129 | after any pull the edge serves the tables of its version if and only if it was covered, or the last event of its crashed pulls on each row left the row as the last recorded version had it |
| SyncRuns.DrainedEdgeServesCloud | docs/04-sync-protocol.md:100-129 | once a pull leaves nothing pending, a covered edge serves exactly the cloud's current rows |
| SyncRuns.DrainedExactly | docs/04-sync-protocol.md:100-129 | when nothing is pending after a pull, the edge serves the cloud's current rows if and only if it was covered, or its crashed pulls left every row as the missed events would |
| SyncRuns.RepairedPullSettles | docs/04-sync-protocol.md:226-228 | under the repaired rule every pull settles, and serves the present once nothing is pending |
| SyncRuns.CommittedEdgeServesSnapshot | docs/04-sync-protocol.md:62-68 | a committed full sync serves the cloud's tables at the snapshot's version, whatever was held before and written meanwhile |
| SyncRuns.EmptyLogLeavesCrashedBatch | docs/04-sync-protocol.md:226-236 | a run that meets the rule of section 4 in which, after a completed pull, the edge serves a row that the cloud has deleted |
| SyncRuns.EmptyLogLosesWrites | docs/04-sync-protocol.md:226-236 | a run that meets the rule of section 4 in which nothing crashes, nothing is pending, and the edge lacks a row of the cloud |
| SyncTimes.MissingAreOld | docs/04-sync-protocol.md:234-236 | in every run with retention for seven days, an event missing from the log was written more than seven days before |
| SyncTimes.OnTimeMissesNothing | docs/04-sync-protocol.md:234-236 | an edge that lags at most seven days has missed nothing |
| SyncTimes.TimelyPullSettles | docs/04-sync-protocol.md:36-42 | with retention for seven days, every pull of an edge that lags at most seven days settles it, and serves the present once nothing is pending |
| SyncTimes.OfflineAWeekIsOnTime | docs/04-sync-protocol.md:36-42 | an edge lags at most seven days while its last pull that left nothing pending is at most seven days ago |
| Ack.AckDetectsDrift | docs/04-sync-protocol.md:127-136 | with the edge's root over the rows it serves, the cloud accepts an ack if and only if these are the cloud's rows |
| Ack.RootsDecideRows | docs/04-sync-protocol.md:170-212 | community roots agree if and only if the two sides hold the same rows, whatever a row consists of |
| Ack.KeptRowsAckExactly | docs/04-sync-protocol.md:119-136 | with the root over all kept rows, marks included, an ack is accepted if and only if the edge serves the cloud's rows and no row it keeps is marked deleted |
| Ack.DeletionIsRefused | docs/04-sync-protocol.md:119-136 | a run after which that root is refused although nothing is pending and the edge serves exactly the cloud's rows |
| Ack.AcceptedSyncServesSnapshot | docs/04-sync-protocol.md:62-68 | whatever rows arrived, lost, repeated or altered, the roots agree if and only if the edge would serve exactly the snapshot |
| Ack.DrainedEdgeIsAcknowledged | docs/04-sync-protocol.md:125-133 | in every run a covered edge with nothing pending after a pull is acknowledged |
| CloudEvents.EventPerBump | docs/01-architecture.md:70-90 | a statement emits one event of a community for each time its version trigger fires for it, cascades included |
| CloudEvents.EventsFollow | docs/01-architecture.md:70-90 | applied to the mirrored rows of a community, a statement's events do what the statement did to the rows, if it moved none away |
| CloudEvents.StatementEmits | docs/04-sync-protocol.md:30-34 | from any state of a protocol run, a statement continues the run by enabled writes under the very versions the trigger counts, and cloud tables and version agree with the database again |
| CloudEvents.DatabaseRunEmits | docs/04-sync-protocol.md:30-34 | every run of the database that keeps a community and its rows is a run of the protocol's cloud side, with version k as its k-th event |
| Users.GetByMobileFindsAtMostOne | civio-cloud/src/repositories/user_repo.py:19-25 | under the unique constraint the query finds exactly the row that fits, or none fits; never several |
| Users.HoldersAreOnePerCommunity | civio-cloud/src/repositories/user_repo.py:27-37 | list_by_mobile returns every holder, in pairwise distinct communities, as many as communities hold the mobile |
| Ledger.BalanceAdds | civio-cloud/src/migrations/versions/61aa11b09d9f_initial_schema.py:735-747 | a balance over two stretches of the ledger is the sum of the two |
| Ledger.ShownIsBalance | civio-cloud/src/migrations/versions/61aa11b09d9f_initial_schema.py:735-747 | the view shows every group's sum, and has no row only where the sum is 0 |
| Ledger.LastChangeIsMax | civio-cloud/src/migrations/versions/61aa11b09d9f_initial_schema.py:735-747 | the latest creation time in a group is that of one of its entries and at least that of each |
| Ledger.ViewIsExact | civio-cloud/src/migrations/versions/61aa11b09d9f_initial_schema.py:735-747 | the view has a row for exactly the groups with an entry; the row shows their sum, and as last_change_at the creation time of the latest of them |
| Ledger.BalanceOfOne | civio-cloud/src/migrations/versions/61aa11b09d9f_initial_schema.py:742 | an entry counts with its delta, once, in the group of its scope, community and user |
| Ledger.BalancesSumToTotal | civio-cloud/src/migrations/versions/61aa11b09d9f_initial_schema.py:592 | the balances of all groups sum to all deltas ever appended, exactly |
| Ledger.ViewSumsToTotal | civio-cloud/src/migrations/versions/61aa11b09d9f_initial_schema.py:735-747 | so do the rows of the view |
| Ledger.ScopeOwnerKeepsIndex | civio-cloud/src/migrations/versions/61aa11b09d9f_initial_schema.py:603-606 | ck_scope_owner makes the COALESCE key injective on the groups, even for the zero UUID |
| Ledger.IndexBreaksOnZeroUser | civio-cloud/src/migrations/versions/61aa11b09d9f_initial_schema.py:748-752 | without it the index breaks if and only if one scope of one community has entries both without a user and with the zero UUID |
| Ledger.DropRepeatsAgrees | civio-cloud/src/migrations/versions/61aa11b09d9f_initial_schema.py:592-611 | dropping later repeats of non-null keys changes nothing if and only if no repeat is acceptable whose key's first request was not |
| Ledger.RetriesChangeNothing | civio-cloud/src/migrations/versions/61aa11b09d9f_initial_schema.py:592-611 | requests retried as they were end in the ledger of the requests without repeats |
| Ledger.NullKeysAreNeverMerged | civio-cloud/src/migrations/versions/61aa11b09d9f_initial_schema.py:596 | every acceptable request with a null key is in the ledger, as often as made and in order |
| Database.Tables.constructor | civio-cloud/src/migrations/versions/61aa11b09d9f_initial_schema.py:34-66 | a new database is empty |
| Database.Tables.BumpCommunityVersion | civio-cloud/src/migrations/versions/61aa11b09d9f_initial_schema.py:787-800 | adds one to the community's counter and stamps it; no other community changes |
| Database.Tables.InsertCommunity | civio-cloud/src/migrations/versions/61aa11b09d9f_initial_schema.py:34-66 | commits or aborts on the unique domain as the state function says |
| Database.Tables.DeleteCommunity | civio-cloud/src/migrations/versions/61aa11b09d9f_initial_schema.py:533-534 | aborts if and only if a row refers to the community (ON DELETE RESTRICT) |
| Database.Tables.InsertUser | civio-cloud/src/migrations/versions/61aa11b09d9f_initial_schema.py:192-235 | insert with its constraints and version bump, or abort unchanged |
| Database.Tables.UpdateUser | civio-cloud/src/migrations/versions/61aa11b09d9f_initial_schema.py:192-235 | update with its constraints, stamp and bump of the new row's community, or abort unchanged |
| Database.Tables.DeleteUser | civio-cloud/src/migrations/versions/61aa11b09d9f_initial_schema.py:503-540 | SET NULL on the ledger fires the forbidding trigger and aborts all; otherwise ledger rows lose the user, the endpoints cascade, each with its bump, and the user's own bump follows |
| Database.Tables.DeleteEndpointsOf | civio-cloud/src/migrations/versions/61aa11b09d9f_initial_schema.py:533-534 | removes exactly the user's endpoints and bumps each one's community once per row |
| Database.Tables.InsertUnit | civio-cloud/src/migrations/versions/61aa11b09d9f_initial_schema.py:147-189 | as InsertUser, for units |
| Database.Tables.UpdateUnit | civio-cloud/src/migrations/versions/61aa11b09d9f_initial_schema.py:147-189 | as UpdateUser, for units |
| Database.Tables.DeleteUnit | civio-cloud/src/migrations/versions/61aa11b09d9f_initial_schema.py:147-189 | deletes the row and bumps its community; nothing for a missing row |
| Database.Tables.InsertEndpoint | civio-cloud/src/migrations/versions/61aa11b09d9f_initial_schema.py:503-540 | as InsertUser, for sip_endpoints with its two unique constraints and two references |
| Database.Tables.UpdateEndpoint | civio-cloud/src/migrations/versions/61aa11b09d9f_initial_schema.py:503-540 | as UpdateUser, for sip_endpoints |
| Database.Tables.DeleteEndpoint | civio-cloud/src/migrations/versions/61aa11b09d9f_initial_schema.py:503-540 | deletes the row and bumps its community; nothing for a missing row |
| Database.Tables.AppendLedger | civio-cloud/src/migrations/versions/61aa11b09d9f_initial_schema.py:584-611 | appends one row, or aborts on the delta's width, ck_scope_owner, the idempotency key or a reference |
| Database.Tables.UpdateLedger | civio-cloud/src/migrations/versions/61aa11b09d9f_initial_schema.py:712-731 | aborts unchanged if a row matches; otherwise overwrites what matches, which is nothing |
| Database.Tables.DeleteLedger | civio-cloud/src/migrations/versions/61aa11b09d9f_initial_schema.py:712-731 | aborts unchanged if a row matches; otherwise removes what matches, which is nothing |
| Database.Tables.ForbidLedgerMutation | civio-cloud/src/migrations/versions/61aa11b09d9f_initial_schema.py:712-731 | the row trigger aborts if and only if some row matches |
| Database.Tables.RefreshBalances | civio-cloud/src/migrations/versions/61aa11b09d9f_initial_schema.py:735-752 | recomputes the view, or aborts on its unique index |
| DatabaseRuns.RunKeepsWf | civio-cloud/src/migrations/versions/61aa11b09d9f_initial_schema.py:34-611 | in every reachable state all modelled unique, check and reference constraints hold, cascades included |
| Outcomes.OutcomeExactly | civio-cloud/src/migrations/versions/61aa11b09d9f_initial_schema.py:34-611 | for every statement on a sound database: it commits if and only if what it would leave behind, cascades included, meets all unique, reference, width and ownership constraints, its id is new and it hits no ledger row; otherwise it aborts for the first of these that fails |
| Outcomes.InsertsExactly | civio-cloud/src/migrations/versions/61aa11b09d9f_initial_schema.py:34-540 | an INSERT commits if and only if its id is new, its parents exist and no row has the same values in all columns of a unique constraint: the same mobile or unit code in another community does not stand in the way |
| DatabaseRuns.LedgerOnlyGrows | civio-cloud/src/migrations/versions/61aa11b09d9f_initial_schema.py:712-731 | over every run, updates, deletions and cascades included, the earlier ledger is contained, row for row unchanged, in the later one |
| DatabaseRuns.CommitsOnlyAppend | civio-cloud/src/migrations/versions/61aa11b09d9f_initial_schema.py:712-731 | although statements write what they ask for, a committed one leaves every ledger row as it was, and only an INSERT adds one |
| DatabaseRuns.AppendOnlyAbortsExactly | civio-cloud/src/migrations/versions/61aa11b09d9f_initial_schema.py:712-731 | the triggers abort a statement if and only if its writes would change or remove a row that is there, or are an UPDATE that finds its rows as it would leave them; an UPDATE changes a row if and only if it hits one that differs |
| DatabaseRuns.DeleteUserAbortsExactly | civio-cloud/src/migrations/versions/61aa11b09d9f_initial_schema.py:607-608 | deleting a user aborts, changing nothing, if and only if SET NULL would rewrite a ledger row, which is if and only if the user owns one; otherwise the user goes with every endpoint and the ledger stays |
| DatabaseRuns.SetNullBreaksScopeOwner | civio-cloud/src/migrations/versions/61aa11b09d9f_initial_schema.py:603-608 | the SET NULL that the trigger stops would leave an entry that violates ck_scope_owner |
| DatabaseRuns.LedgerOwnersStay | civio-cloud/src/migrations/versions/61aa11b09d9f_initial_schema.py:607-608 | whoever owns a ledger row is there in every later state and can never be deleted |
| DatabaseRuns.RefreshAlwaysCommits | civio-cloud/src/migrations/versions/61aa11b09d9f_initial_schema.py:744-752 | in every reachable state refreshing the view commits |
| DatabaseRuns.ViewIsOfPrefix | civio-cloud/src/migrations/versions/61aa11b09d9f_initial_schema.py:735-747 | the view is always that of the ledger as it was at the last refresh, a prefix of the present one |
| DatabaseRuns.ViewShowsLatest | civio-cloud/src/migrations/versions/61aa11b09d9f_initial_schema.py:735-747 | at any point of a run the view has exactly the groups that had an entry at the last refresh, each with the creation time of its latest entry then |
| DatabaseRuns.BalanceIsViewPlusRecent | civio-cloud/src/migrations/versions/61aa11b09d9f_initial_schema.py:735-747 | at any point the true balance of a group is what the view shows plus the deltas appended since the last refresh |
| DatabaseRuns.AppendsAreLedgerAppends | civio-cloud/src/migrations/versions/61aa11b09d9f_initial_schema.py:584-611 | a sequence of INSERTs does to the database exactly what the ledger's append function does to the ledger |
| DatabaseRuns.RetriedAppendsChangeNothing | civio-cloud/src/migrations/versions/61aa11b09d9f_initial_schema.py:596 | back-to-back appends with any number of retries leave the database as one attempt per key would |
| DatabaseRuns.KeyCommitsOnce | civio-cloud/src/migrations/versions/61aa11b09d9f_initial_schema.py:596 | once an append under a key has committed, every later ledger of the run holds that one entry under the key, every later append under it aborts and changes nothing, and an unchanged retry aborts on the unique constraint |
| DatabaseRuns.ChangedRetryCanSucceed | civio-cloud/src/migrations/versions/61aa11b09d9f_initial_schema.py:596 | a retry with changed contents can succeed where the first attempt was refused |
| DatabaseRuns.ChangedRowsAreStamped | civio-cloud/src/migrations/versions/61aa11b09d9f_initial_schema.py:754-782 | every row a statement changes, communities changed by the version trigger included, carries its time |
| DatabaseRuns.FiredPerRow | civio-cloud/src/migrations/versions/61aa11b09d9f_initial_schema.py:787-806 | the version trigger fires for a community once for every row of it that is new, changed or gone in the state after the statement, cascades included, and once for an UPDATE that leaves its row as it was |
| DatabaseRuns.VersionCountsWrites | civio-cloud/src/migrations/versions/61aa11b09d9f_initial_schema.py:787-806 | a community's counter grows by exactly the number of its users, units and sip_endpoints rows that differ between the states before and after, plus one for an UPDATE that changes nothing |
| DatabaseRuns.VersionCountsRun | civio-cloud/src/migrations/versions/61aa11b09d9f_initial_schema.py:787-806 | over a run the counter grows by exactly the row differences from state to state, plus the UPDATEs that change nothing |
| DatabaseRuns.DeleteUserCounts | civio-cloud/src/migrations/versions/61aa11b09d9f_initial_schema.py:787-806 | deleting a user counts the user's row and every endpoint cascaded from it, each in its own community |
| DatabaseRuns.OnlyMovesGoUnseen | civio-cloud/src/migrations/versions/61aa11b09d9f_initial_schema.py:787-800 | a statement changes a community's rows without moving its counter if and only if it takes a row to another community |
| DatabaseRuns.SameVersionSameRows | civio-cloud/src/migrations/versions/61aa11b09d9f_initial_schema.py:787-806 | two states of a run with the same version of a community have the same users, units and sip_endpoints rows in it |
| DatabaseRuns.RecreatedCommunityRepeatsVersion | civio-cloud/src/migrations/versions/61aa11b09d9f_initial_schema.py:34-66 | a run that deletes a community, makes it anew and reaches an earlier version over other rows |
| Otp.PrintThenParse | civio-cloud/src/core/security.py:145-150 | a drawn number prints to exactly L digits and parses back to itself |
| Otp.ParseThenPrint | civio-cloud/src/core/security.py:145-150 | every code of L digits is printed from exactly the number it parses to |
| Otp.GenerateOtpIsBijection | civio-cloud/src/core/security.py:145-150 | for L in 4..10, generate_otp is a bijection between 0..10^L-1 and the digit strings of length L |
| Otp.PaddedDigits | civio-cloud/src/core/security.py:150 | the k-th character of a code from the right is the digit of 10^k of the drawn number |
| Otp.OtherLengthsAreRefused | civio-cloud/src/core/security.py:146-149 | lengths outside 4..10 are refused, and no other |
| Tokens.BuildToken | civio-cloud/src/core/security.py:81-107 | builds standard and extra claims, or refuses with the overlap of reserved names |
| Tokens.BuiltTokenDecodes | civio-cloud/src/core/security.py:81-142 | a token is built if and only if no extra claim is reserved; before expiry it decodes to exactly what was put in, with exp - iat the lifetime, and after expiry to TokenExpired |
| Tokens.DecodesExactly | civio-cloud/src/core/security.py:127-142 | a token decodes to a payload if and only if it consists of exactly that payload's claims and its time has not passed |
| Tokens.ExpiredExactly | civio-cloud/src/core/security.py:135-136 | a token is reported expired if and only if its expiry has passed |
| Tokens.OverlapIsReported | civio-cloud/src/core/security.py:95-100 | a refused build names exactly the reserved names among the extra claims |
| Auth.AuthService.constructor | civio-cloud/src/services/auth_service.py:41-54 | a service starts with its users, no challenge and no token |
| Auth.AuthService.SendOtp | civio-cloud/src/services/auth_service.py:55-94 | stores one challenge with the code, all holders of the mobile and the fixed expiry, or reports an unknown mobile |
| Auth.AuthService.VerifyOtp | civio-cloud/src/services/auth_service.py:96-138 | every branch in order, with its outcome and its whole effect on users, challenges and tokens |
| Auth.AuthService.Refresh | civio-cloud/src/services/auth_service.py:140-159 | every refusal in order; otherwise a new pair and nothing else changes |
| Auth.AuthService.IssueTokens | civio-cloud/src/services/auth_service.py:169-177 | one access and one refresh token of the user, both added to the issued set |
| Auth.NoTokenServesBoth | civio-cloud/src/services/auth_service.py:141-143 | no token is accepted by both refresh and get_current_user, in whatever states |
| Auth.AuthorisedExactly | civio-cloud/src/core/dependencies.py:35-80 | a request is authorised if and only if it bears an issued access token, not past, of a user who is VERIFIED now; a role gate passes if and only if the role is listed too, and otherwise says which role was refused |
| Auth.VerifiedUserExactly | civio-cloud/src/core/dependencies.py:42-60 | loading a token's user succeeds, and fails in each way it can, exactly as the token's claims and the users table say: bad token, wrong type, invalid subject, no such user, not verified |
| Auth.RefreshedExactly | civio-cloud/src/services/auth_service.py:140-159 | a refresh yields a pair if and only if it presents an issued refresh token, not past, of a user who is VERIFIED now, and the pair is that user's |
| Auth.SendOtpExactly | civio-cloud/src/services/auth_service.py:55-94 | no code is sent if and only if nobody holds the mobile; otherwise one challenge is stored, with exactly the holders, a six-digit code, no attempt and the configured lifetime, and no other changes |
| Auth.AccessTokenCarries | civio-cloud/src/services/auth_service.py:169-177 | for the configured minutes the access token of a pair says whose it is and the user's community and role, and after that it is expired |
| Auth.RefreshTokenCarries | civio-cloud/src/services/auth_service.py:169-177 | for the configured days the refresh token of a pair says whose it is and nothing else, and after that it is expired |
| Auth.RoleNames | civio-cloud/src/models/enums.py:37-42 | the names under which roles are carried |
| Auth.AccessTokenWorks | civio-cloud/src/core/dependencies.py:35-62 | an issued access token authorises its user for its lifetime, while the user is VERIFIED |
| Auth.RefreshTokenWorks | civio-cloud/src/services/auth_service.py:140-159 | an issued refresh token yields a pair for its user for its lifetime, while the user is VERIFIED |
| AuthRuns.ServiceOnlyPromotes | civio-cloud/src/services/auth_service.py:161-167 | the only change the service makes to a user is PENDING to VERIFIED, by a successful verification of that user |
| AuthRuns.RunKeepsUnique | civio-cloud/src/migrations/versions/61aa11b09d9f_initial_schema.py:234 | no step of the service breaks the unique constraint on mobiles |
| AuthRuns.RunKeepsChallenge | civio-cloud/src/services/auth_service.py:55-138 | in every run: a stored challenge is what one send stored but for its attempts, which are exactly the wrong codes so far; at most five wrong codes and one pair per challenge; none after the pair |
| AuthRuns.AttemptsBounded | civio-cloud/src/services/auth_service.py:103-117 | a challenge sees at most five wrong-code comparisons, its count is that number, and its expiry instant is the one set at send time |
| AuthRuns.RefusedExactly | civio-cloud/src/services/auth_service.py:96-117 | which refusal a verification gets, exactly: from the wrong codes so far, of which five are allowed, and from what has become of the one user; and how many tries it reports as left |
| AuthRuns.PairComesFromSend | civio-cloud/src/services/auth_service.py:56-138 | at most one pair per challenge, for the one user who held the mobile at send time, with the code sent, before expiry, VERIFIED when issued |
| AuthRuns.PairExactly | civio-cloud/src/services/auth_service.py:96-138 | a verification yields a pair if and only if the challenge is stored and unexpired, the code is the one sent, fewer than five wrong codes came before, and the mobile's one holder at send time exists and is not revoked |
| AuthRuns.BurnedStaysGone | civio-cloud/src/services/auth_service.py:104-137 | a challenge that is used up is gone: every later verification finds none |
| AuthRuns.StoredUntilUsedUp | civio-cloud/src/services/auth_service.py:96-138 | a sent challenge is found in the store if and only if its lifetime since it was sent lasts and no call has used it up |
| AuthRuns.CodesHaveRequestShape | civio-cloud/src/schemas/auth.py:37 | every stored code is six digits, as the verify request demands |
| AuthRuns.AmbiguousExactly | civio-cloud/src/services/auth_service.py:119-127 | a correct code with attempts left is ambiguous if and only if the mobile was held in two or more communities at send time, and the count is theirs |
| AuthRuns.TokensHaveOrigin | civio-cloud/src/services/auth_service.py:140-177 | every issued token comes from a verification of its subject or from a refresh with an earlier token of that subject which itself has an origin |
| AuthRuns.OriginIsVerification | civio-cloud/src/services/auth_service.py:96-177 | following those refreshes back ends at a successful verification of the same subject |
| AuthRuns.AuthorisedHasVerified | civio-cloud/src/core/dependencies.py:35-62 | whoever is authorised has verified an OTP earlier in the run |
| AuthRuns.PairServes | civio-cloud/src/services/auth_service.py:138-177 | from the step that issues a pair and for its lifetimes, the access token authorises its subject and the refresh token yields a new pair, whenever the subject is VERIFIED |
| AuthRuns.IssuedStays | civio-cloud/src/core/security.py:81-107 | no step takes an issued token back |
| AuthRuns.RunKeepsIdsUnique | civio-cloud/src/core/security.py:93 | in every run no two issued tokens share a jti |
| AuthRuns.RevokedStaysOut | civio-cloud/src/services/auth_service.py:140-167 | once a user is REVOKED and no outside step changes that, no later call issues a token for the user or authorises a request as the user, whatever tokens and challenges remain |

## Left out

- PulledEdgeIsReplay: asks for a covered edge, since the property fails for others (EmptyLogLeavesCrashedBatch); PullSettlesExactly gives the exact condition, TimelyPullSettles and RepairedPullSettles the rules under which every pull meets it.
- DrainedEdgeServesCloud: asks the same; DrainedExactly gives the exact condition, EmptyLogLosesWrites a run that fails it.
- DrainedEdgeIsAcknowledged: asks the same, and takes both roots at the same moment, since the documentation does not say which version the expected root is of.
- AckDetectsDrift: for the root over the rows the edge serves; KeptRowsAckExactly is the other reading.
- SameVersionSameRows: asks that no row of the community is moved to another one (OnlyMovesGoUnseen: moves are the only statements that go unseen) and that the community is not deleted and made anew (RecreatedCommunityRepeatsVersion shows why).
- DatabaseRunEmits: asks the same of the run, for the same reasons.
- RetriedAppendsChangeNothing: asks that a retry repeats the request and that nothing comes in between; DropRepeatsAgrees is the exact condition, KeyCommitsOnce the statement for runs.
- RootDecidesTable: asks for tables without duplicate rows (rows have primary keys) and for collision-freeness on the hashed inputs; EqualRootsSameRows needs no such tables.
- AttemptsBounded: for atomic calls; calls interleaved between `redis.get` and `redis.set` are not modelled.
- GenerateOtpIsBijection: says which codes are possible, nothing about how likely each is.
- BuiltTokenDecodes: says nothing about the very second of expiry, nor about extra claims with a name the JWT library checks (iss, aud, nbf, at_hash); float rounding of `timestamp()` is not modelled.
- VerifyOtp: codes are compared as ASCII text; a code of other digits, on which `compare_digest` raises, is not modelled. The promotion's `updated_at` and version bump are in the database part, not in this users table.
- SHA-256, canonical JSON, HMAC, bcrypt, JWT signing and randomness are parameters or absent.
- A code lifetime of 0 seconds, which Redis refuses to store.
- Page checksums, request signatures, retry backoff and the transport of the sync protocol.
- `sync_version` columns on rows, and the autoincrement ids and payloads of `sync_events`.
- Upserts of partial rows, and a tombstone for a row the edge never had beyond its being ignored.
- `friend_mappings`: it has no community_id, so the shared version trigger has nothing to read there.
- Rows that other tables hold on users, units and communities (announcements, tasks, calls, consents, payments), whose references would only add further ways to abort.
- TRUNCATE and superuser DDL on the ledger; direct writes to `current_version`; changes of primary keys; statements that write several rows of the other tables at once.
- `balance_after`, billing, call policy, CDR consumers and the outbox, which no code computes yet.
- `BaseRepository.list` paging, which has no ORDER BY to say anything about.
- Routing, CORS, logging, settings loading, exception handlers and deployment scripts.
