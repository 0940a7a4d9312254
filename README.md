# vcdb: Subversion log ingestion, modelled in Dafny

vcdb reads the XML log of a Subversion repository and stores it in three
relational tables:

- `repositories`: one row per repository uri;
- `changes`: one row per commit, keyed by a change id that is unique across
  repositories;
- `paths`: one row per path a commit touched, keyed by (change id, path), with
  an action: added, copied, deleted, edited or moved.

This project models the core of that ingestion:

- the change-id scheme `change_id_for` and the table records (`vcdb/common.py`);
- the normalization of `logentry` and `path` elements into Change and Path rows,
  with the fixed tables of Subversion kind and action codes;
- the registration of a repository by uri (`repository_for`);
- the loop of `update_repository`:
  - it upserts each change and each path row by primary key;
  - it then turns every copy whose source the same commit deletes into a move,
    and drops that deleted row.

Modules, one file each:

- `Wrappers` (`wrappers.dfy`): `Option` and `Result`.
- `Common` (`common.dfy`): change ids, path kinds and actions, and the three records.
- `Subversion` (`subversion.dfy`): the pure normalizers.
- `KeyOrder` (`key_order.dfy`): the primary-key order in which copies are examined.
- `MoveReconciliation` (`reconcile.dfy`): the reconciliation loop as a function, and what it guarantees.
- `Store` (`store.dfy`): the tables as maps keyed by primary key. It also specifies,
  as functions, what `repository_for` and `update_repository` do to them, and
  proves idempotence of re-ingestion.
- `Ingestion` (`session.dfy`): the database session as a class whose fields are
  the tables. Its methods are `repository_for`, the merge loop, the
  reconciliation loop and `update_repository`, written as the imperative code
  they are. Each is proved against its `Store` or `MoveReconciliation` function.
- `Scenarios` (`scenarios.dfy`): worked cases. They cover a move, a copy, an add
  next to an unrelated delete, a malformed path element, and a two-commit log
  ingested into an empty database.

Five Python `assert` statements of the core can fire, and each becomes a
`Failure` result carrying an `Error`:

- the two of `change_id_for`: the repository id outside 1..99, for example at
  the 100th repository, and a change id longer than 19 characters;
- the two code tables of `path_from_path_element`: an unknown kind, and an
  unknown action code;
- the duplicate-uri assert of `repository_for`.

`VcdbError` for a base path without a base revision is handled the same way.
`assert deleted_path_count == 0` in the reconciliation loop can never fire: the
DELETE matches at most one row (`MoveReconciliation.DeletedSourceKeys`). The
`is not None` guards on arguments are not modelled, because every argument of
the model is present.

What the code does that a reader might not expect:

- A `copyfrom-rev` without a `copyfrom-path` is accepted. The copy gets a base
  change but no base path, so it can never become a move.
- The paths table is keyed by the pair (`change_id`, `path`)
  (`vcdb/common.py:112`), so the repository id is not part of the key.
- Two copies that name the same deleted source raise no error. The copy examined
  first takes the deleted row and becomes a move. The other stays a copy, because
  its DELETE then matches nothing.
- The path rows of a commit are merged into the table first, and reconciliation
  runs on the table afterwards. It therefore also sees rows of that change that
  were already stored, for example by an earlier run.
- A run that fails does not leave the database untouched: `repository_for` has
  already committed the new repository row. Only the change and path rows of the
  run stay uncommitted.

## Model

| member | source | states |
|---|---|---|
| Common.ChangeIdFor | vcdb/common.py:59-65 | fails with RepositoryIdOutOfRange exactly when the id is outside 1..99, and otherwise fails (ChangeIdTooLong) exactly when the commit id is longer than 16 characters; a success has length 2 + 1 + the commit id's length, at most 19, its first two characters are digits whose decimal value is the repository id, then `-`, then the commit id verbatim |
| Common.DecimalValueOfZeroPadded | vcdb/common.py:63 | zero-padding a number to a width that can hold it loses nothing: its decimal value is the number |
| Common.ChangeIdRoundTrip | vcdb/common.py:63 | a change id parses back into its repository id and commit id |
| Common.ChangeIdInjective | vcdb/common.py:63 | distinct (repository id, commit id) pairs give distinct change ids |
| Common.KindCode | vcdb/common.py:117-119 | the column encoding of a kind: `d` or `f`, `d` exactly for a directory |
| Common.ActionCode | vcdb/common.py:120-122 | the column encoding of an action: one of `a c d e m` |
| Common.ActionCodeInjective | vcdb/common.py:120-122 | distinct actions are encoded as distinct letters |
| Subversion.NativeCodeTables | vcdb/subversion.py:18-27 | the kind table maps exactly `dir` and `file`, to directory and file; the action table maps exactly `A D M R`, to added, deleted, edited, edited, and never yields copied or moved |
| Subversion.PathFromPathElement | vcdb/subversion.py:31-63 | an unknown kind, then an unknown action, is an error naming the code; a `copyfrom-path` without `copyfrom-rev` is BasePathWithoutBaseRevision; when both codes are known and a base revision is given whose change id fails, the error is change_id_for's; success exactly when both codes are known and either the base revision gives a valid change id or there is neither base revision nor base path; the row has the path text verbatim and the change's change id and repository id, is a copy exactly when a base revision is given, otherwise carries the mapped action, never a move, has a base change id exactly when a base revision is given, equal to change_id_for of the change's repository and that revision, and the base path verbatim |
| Subversion.PathRowStoresTableLetters | vcdb/subversion.py:18-27 | a row built from an element is stored with the letters the tables of vcdb/subversion.py give for the element's native kind and action codes, and with `c` whenever the element has a base revision |
| Subversion.BaseRevisionWithoutBasePathIsAccepted | vcdb/subversion.py:47-59 | a `copyfrom-rev` without `copyfrom-path` is accepted: the row has a base change id and no base path |
| Subversion.WithoutLastCharacter | vcdb/subversion.py:72-73 | the text handed to the timestamp parser followed by the last character of the raw text is the raw text; the empty text stays empty |
| Subversion.ChangeFromLogEntry | vcdb/subversion.py:66-84 | succeeds exactly when change_id_for of the repository and revision does, failing with its error otherwise; the change id is that id, revision, author and message are copied verbatim, the repository id is the repository's, and the timestamp text is the raw date without its last character |
| Subversion.NormalizePaths | vcdb/subversion.py:187-190 | the rows of all path elements in document order: success exactly when every element normalizes, with one row per element, equal to that element's row; a failure carries the error of an element all of whose predecessors normalize |
| Subversion.NormalizePathsStopsAtFailure | vcdb/subversion.py:187-190 | once a prefix of the elements fails, the whole entry fails with the same error |
| Subversion.NormalizePathsFailsAt | vcdb/subversion.py:187-190 | the first element that fails after a successful prefix decides the error of the entry |
| KeyOrder.FirstExists | vcdb/subversion.py:191-196 | every non-empty set of (change id, path) keys has a least key in primary-key order, the copy examined next |
| KeyOrder.FirstUnique | vcdb/subversion.py:191-196 | that least key is unique |
| MoveReconciliation.DeletedSourceKeys | vcdb/subversion.py:197-201 | the DELETE matches exactly the key (change, base path) when that row exists and is a deletion, and nothing otherwise; so at most one row |
| MoveReconciliation.ExamineCopyMatched | vcdb/subversion.py:196-203 | examining a copy whose deleted source exists keeps the loop invariant: only deletions of the change are gone, only copies of the change changed, and only to moves, every move's source is gone, every removed row is some move's source, the counts agree, and examined copies have no deleted source left |
| MoveReconciliation.ExamineCopyUnmatched | vcdb/subversion.py:196-205 | examining a copy without a deleted source keeps the loop invariant |
| MoveReconciliation.ReconcileInvariant | vcdb/subversion.py:191-205 | after the whole loop the invariant holds between the rows before and after |
| MoveReconciliation.ReconcileTouchesOnlyCopiesAndDeletions | vcdb/subversion.py:191-205 | rows of other changes and added, edited or moved rows are unchanged; a row disappears only if it is a deletion of the change; a row changes only if it is a copy of the change, and then into the same row with action moved |
| MoveReconciliation.ReconcileMovesMatchRemovals | vcdb/subversion.py:196-205 | every new move had a deleted source in the change, which is gone; every removed row is the base path of some new move; the number of new moves equals the number of removed rows |
| MoveReconciliation.ReconcileIsComplete | vcdb/subversion.py:196-205 | afterwards no copy of the change has a deleted source in the change |
| MoveReconciliation.ReconcileUnambiguous | vcdb/subversion.py:196-205 | when no two copies share a deleted source the order does not matter: a copy becomes a move exactly when its base path is a deleted row of the change, otherwise it stays as it was, and a deletion disappears exactly when some copy names it |
| MoveReconciliation.ReconcileWithoutSourcesChangesNothing | vcdb/subversion.py:196-205 | when no copy of the change has a deleted source, the rows stay as they are |
| MoveReconciliation.ReconcileIdempotent | vcdb/subversion.py:191-205 | reconciling the same change again changes nothing |
| MoveReconciliation.ReconcileIsLocal | vcdb/subversion.py:191-205 | the result is the rows of other changes, unchanged, together with the reconciliation of the change's own rows alone |
| Store.RepositoryFor | vcdb/subversion.py:150-164 | fails with DuplicateRepository exactly when more than one row has the uri; with one row the tables are unchanged; with none the row (last id + 1, uri, no last change) is added under that id; a returned repository has the uri and is a row of the result; changes and paths are untouched |
| Store.AtMostOneRepositoryPerUri | vcdb/subversion.py:154-162 | on valid tables at most one row has a given uri, so the duplicate branch is never taken |
| Store.RepositoryForKeepsUriUnique | vcdb/subversion.py:154-164 | on valid tables registration succeeds, keeps them valid (ids positive, within the last id, uris unique), and afterwards exactly the returned repository has the uri |
| Store.RepositoryForIsStable | vcdb/subversion.py:154-164 | registering the same uri again returns the same repository and changes nothing |
| Store.MergePathsOverwrites | vcdb/subversion.py:187-190 | merged rows win over the rows already stored under the same key |
| Store.MergedRowsBelongToChange | vcdb/subversion.py:187-190 | merging rows of one change adds only keys of that change |
| Store.StoreEntryRows | vcdb/subversion.py:186-205 | storing an entry leaves the rows of other changes unchanged and gives its change the reconciliation of its old rows overwritten by its new ones |
| Store.StoreEntryElsewhere | vcdb/subversion.py:186-205 | the rows and change row of any other change survive storing an entry |
| Store.StoreEntryFixpoint | vcdb/subversion.py:186-205 | storing an entry into tables that already hold what storing it produced changes nothing |
| Store.IngestEntryElsewhere | vcdb/subversion.py:184-205 | the rows and change row of any other change survive an entry |
| Store.IngestEntryFixpoint | vcdb/subversion.py:184-205 | an entry whose change already holds what ingesting it produced leaves the tables unchanged |
| Store.IngestKeepsRepositories | vcdb/subversion.py:183-205 | the loop over log entries never touches the repositories table |
| Store.IngestAppend | vcdb/subversion.py:183 | ingesting a concatenated log is ingesting its front, then its back |
| Store.IngestPrefix | vcdb/subversion.py:183 | a successful run succeeded on every prefix |
| Store.IngestStopsAtFailure | vcdb/subversion.py:183-205 | once an entry fails, the run fails with its error: later entries are never looked at |
| Store.IngestElsewhere | vcdb/subversion.py:183-205 | entries of other changes leave the rows and change row of a change as they were |
| Store.IngestFixpoint | vcdb/subversion.py:183-205 | tables that every entry leaves unchanged are left unchanged by the run |
| Store.IngestSuffix | vcdb/subversion.py:183 | a run continues from the tables its successful first entries produced |
| Store.IngestLastStep | vcdb/subversion.py:183-205 | a run up to and including entry n is the run up to entry n followed by entry n |
| Store.RunSplitsAt | vcdb/subversion.py:183-205 | a successful run is the run before entry i, entry i, then the run after it |
| Store.OtherEntriesHaveOtherChangeIds | vcdb/subversion.py:184 | with distinct revisions no other entry has the change id of entry i |
| Store.EntryIsFixpointOfRun | vcdb/subversion.py:183-205 | after a run over a log of distinct revisions that started without rows of its changes, each entry of the log leaves the final tables unchanged |
| Store.ReingestIsIdempotent | vcdb/subversion.py:183-206 | re-running the loop over the same log gives the same tables, when the revisions are distinct and the first run started without rows of the log's changes |
| Store.RebuildIsIdempotent | vcdb/subversion.py:167-206 | for a log with distinct revisions, update_repository from an empty database, then again over the same log, gives the tables of the first run |
| Ingestion.Session.constructor | vcdb/common.py:146-151 | a session sees and has committed the given tables |
| Ingestion.Session.Commit | vcdb/subversion.py:160 | the committed state becomes the session's view, which is unchanged |
| Ingestion.Session.RepositoryFor | vcdb/subversion.py:150-164 | result and new view are those of Store.RepositoryFor; the new row, if any, is committed, otherwise the committed state is unchanged |
| Ingestion.Session.ReconcileMoves | vcdb/subversion.py:191-205 | the loop leaves the paths table as MoveReconciliation.Reconcile of the old one, and nothing else changes |
| Ingestion.Session.MergePathElements | vcdb/subversion.py:187-190 | succeeds exactly when NormalizePaths does, with its error otherwise; on success the paths table is the old one with the normalized rows merged in order; nothing else changes |
| Ingestion.Session.IngestEntry | vcdb/subversion.py:184-205 | succeeds exactly when Store.IngestEntry does, with its error otherwise; on success the view is its tables; nothing is committed |
| Ingestion.Session.UpdateRepository | vcdb/subversion.py:167-206 | succeeds exactly when Store.UpdateRepository does, with its error otherwise; on success the view is its tables and is committed; on failure only the registration's commit, if any, has reached the database |
| Scenarios.CopyAndDeletionOfSourceIsMove | vcdb/subversion.py:191-205 | a commit that copies A to B and deletes A keeps exactly one row: B, moved |
| Scenarios.CopyWithoutDeletionOfSourceStaysCopy | vcdb/subversion.py:196-205 | a copy whose source the commit does not delete stays the same copy |
| Scenarios.AdditionAndUnrelatedDeletionAreKept | vcdb/subversion.py:191-205 | an addition and a deletion of another path are both kept as they are |
| Scenarios.BasePathWithoutBaseRevisionFailsRun | vcdb/subversion.py:53-54 | a path element with a base path but no base revision anywhere in the log makes the run fail |
| Scenarios.FirstOfTwoCommits | vcdb/subversion.py:184-205 | commit 1, adding `/hello.py`, stores its change and one added row |
| Scenarios.SecondOfTwoCommits | vcdb/subversion.py:184-205 | commit 2, copying `/hello.py` to `/hello_again.py`, stores its change and one copied row based on change `01-1` |
| Scenarios.TwoCommitRunIntoEmptyDatabase | vcdb/subversion.py:167-206 | on an empty database the two-commit log registers repository 1 and yields changes `01-1`, `01-2` and exactly the rows: added `/hello.py`, and copied `/hello_again.py` based on `/hello.py` of `01-1` |

## Left out

- Running `svn` and writing its XML log to a temporary file (`run_svn`,
  `write_svn_log_xml`, `svn_info_elements`, `svn_info_revision`, the temp-file
  handling of `update_repository`). The log is a parameter: a sequence of
  `RawLogEntry` records.
- XML parsing with ElementTree. A `logentry` becomes a `RawLogEntry` and a
  `paths/path` element a `RawPath`. An `author` or `msg` element without text
  becomes an absent value. The date and the path text are plain strings.
- ChangeFromLogEntry: the model assumes that the `author`, `msg` and `date`
  elements are present and that `date` has text. The code crashes when one of
  them is missing: `.text` on the `None` that `find` returns, at
  `vcdb/subversion.py:68`, `:70` and `:71`. It also crashes on an empty date, at
  `[:-1]` on `None`, `:73`. A missing element or a missing date text cannot be
  written as a `RawLogEntry`, so the model has no such failure.
- PathFromPathElement: a `path` element without text gives a row whose path is
  NULL. The database rejects that row at flush, because the column is not
  nullable (`vcdb/common.py:116`). The model's path text is a plain string: an
  empty path is the empty string, and the model does not fail on it.
- `datetime.strptime`. `Change.commitTime` holds the text handed to the parser,
  which is the raw date minus its last character. A date the parser would reject
  is not an error in the model.
- SQLAlchemy: the session, its queries and its transactions. The tables are maps
  keyed by primary key, `merge` is an upsert, and `commit` copies the session's
  view into the committed state. Autoincrement is `lastRepositoryId + 1`.
- Column widths other than the change id's, the foreign keys, and the
  relationships. The `UniqueConstraint('uri')` statement is never attached to
  the table, so uniqueness of uris rests on `repository_for` alone.
- Resuming from `last_change_id`. The source always asks for `0:HEAD`, and the
  column is never written.
- The command line (`vcdb/command.py`), logging, engine creation and `create_all` in `vcdb_session`, the file-system
  helpers `ensure_is_removed`, `ensure_folder_is_empty` and `func_name`, and the
  `__repr__` methods.
- The order in which the database returns copied rows is not fixed by the source.
  The model examines them in ascending primary-key order, which decides the
  outcome only when two copies share one deleted source (see
  `MoveReconciliation.ReconcileUnambiguous`).
- Store.ReingestIsIdempotent: re-ingestion is proved idempotent only when the log's
  revisions are distinct and the starting tables hold no path rows of the log's
  change ids. Stale rows of those changes left by a different log take part in
  reconciliation and can make a second run differ.
- Store.RepositoryFor: on success it states only that the returned repository is
  among the rows of the result. That it is stored under its own id holds on valid
  tables (`Store.RepositoryForKeepsUriUnique`).
