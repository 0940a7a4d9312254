/** The database as three tables keyed by primary key, and what
    repository_for and update_repository (vcdb/subversion.py) do to them,
    as functions. `session.merge` is an upsert by primary key. */
module Store {
  import opened Wrappers
  import opened Common
  import opened Subversion
  import opened MoveReconciliation

  /** The repositories, changes and paths tables. `lastRepositoryId` is the
      highest repository id the database has handed out: a new repository
      gets the next one. */
  datatype Tables = Tables(
    repositories: map<nat, Repository>,
    lastRepositoryId: nat,
    changes: map<string, Change>,
    paths: map<PathKey, Path>)

  function EmptyTables(): Tables {
    Tables(map[], 0, map[], map[])
  }

  /** Each repository row is stored under its own positive id, no id exceeds
      the last one handed out, and no two rows share a uri. */
  ghost predicate ValidRepositories(t: Tables) {
    && (forall id :: id in t.repositories ==>
          t.repositories[id].repositoryId == id && 0 < id <= t.lastRepositoryId)
    && (forall id1, id2 ::
          id1 in t.repositories && id2 in t.repositories && t.repositories[id1].uri == t.repositories[id2].uri
          ==> id1 == id2)
  }

  /** The ids of the rows the query `filter_by(uri=...)` returns. */
  function RepositoriesWithUri(repositories: map<nat, Repository>, uri: string): set<int> {
    set id | id in repositories && repositories[id].uri == uri
  }

  /** repository_for: the repository row with this uri, added when there is
      none; more than one is the assertion failure of the code. */
  ghost function RepositoryFor(t: Tables, uri: string): (r: Result<(Tables, Repository), Error>)
    ensures r.Failure? <==> |RepositoriesWithUri(t.repositories, uri)| > 1
    ensures r.Failure? ==> r.error == DuplicateRepository(uri)
    ensures r.Success? ==>
      && r.value.1.uri == uri
      && r.value.1 in r.value.0.repositories.Values
      && r.value.0.changes == t.changes
      && r.value.0.paths == t.paths
    ensures |RepositoriesWithUri(t.repositories, uri)| == 1 ==> r.Success? && r.value.0 == t
    ensures |RepositoriesWithUri(t.repositories, uri)| == 0 ==>
      && r.Success?
      && r.value.1 == Repository(t.lastRepositoryId + 1, uri, None)
      && r.value.0.repositories == t.repositories[t.lastRepositoryId + 1 := r.value.1]
      && r.value.0.lastRepositoryId == t.lastRepositoryId + 1
  {
    var existing := RepositoriesWithUri(t.repositories, uri);
    if |existing| == 0 then
      var id := t.lastRepositoryId + 1;
      var repository := Repository(id, uri, None);
      assert t.repositories[id := repository][id] == repository;
      Success((t.(repositories := t.repositories[id := repository], lastRepositoryId := id), repository))
    else if |existing| == 1 then
      assert existing != {};
      var id :| id in existing;
      Success((t, t.repositories[id]))
    else
      Failure(DuplicateRepository(uri))
  }

  /** Valid tables hold at most one repository per uri. */
  lemma AtMostOneRepositoryPerUri(t: Tables, uri: string)
    requires ValidRepositories(t)
    ensures |RepositoriesWithUri(t.repositories, uri)| <= 1
  {
    var existing := RepositoriesWithUri(t.repositories, uri);
    if existing != {} {
      var id :| id in existing;
      assert existing == {id};
    }
  }

  /** On valid tables repository_for never fails, keeps the tables valid,
      and afterwards exactly one repository has the uri: the one it
      returns. */
  lemma RepositoryForKeepsUriUnique(t: Tables, uri: string)
    requires ValidRepositories(t)
    ensures RepositoryFor(t, uri).Success?
    ensures ValidRepositories(RepositoryFor(t, uri).value.0)
    ensures RepositoriesWithUri(RepositoryFor(t, uri).value.0.repositories, uri)
            == {RepositoryFor(t, uri).value.1.repositoryId}
  {
    var existing := RepositoriesWithUri(t.repositories, uri);
    AtMostOneRepositoryPerUri(t, uri);
    var (t', repository) := RepositoryFor(t, uri).value;
    assert forall id :: id in RepositoriesWithUri(t'.repositories, uri) <==> id in t'.repositories && t'.repositories[id].uri == uri;
    if |existing| == 0 {
      assert t.lastRepositoryId + 1 !in t.repositories;
      assert RepositoriesWithUri(t'.repositories, uri) == {repository.repositoryId};
    } else {
      assert existing != {};
      var id :| id in existing;
      assert existing == {id};
      assert repository.repositoryId == id;
    }
  }

  /** Registering a uri a second time finds the row the first time added
      and changes nothing. */
  lemma RepositoryForIsStable(t: Tables, uri: string)
    requires ValidRepositories(t)
    ensures RepositoryFor(t, uri).Success?
    ensures var (t', repository) := RepositoryFor(t, uri).value;
      RepositoryFor(t', uri) == Success((t', repository))
  {
    RepositoryForKeepsUriUnique(t, uri);
  }

  // ---------------------------------------------------------------------
  // Ingestion of a log.

  /** The paths table after merging `rows` one after the other. */
  function MergePaths(paths: map<PathKey, Path>, rows: seq<Path>): map<PathKey, Path> {
    if rows == [] then paths
    else MergePaths(paths, rows[..|rows| - 1])[KeyOf(rows[|rows| - 1]) := rows[|rows| - 1]]
  }

  lemma MergePathsStep(paths: map<PathKey, Path>, rows: seq<Path>, row: Path)
    ensures MergePaths(paths, rows + [row]) == MergePaths(paths, rows)[KeyOf(row) := row]
  {
    assert (rows + [row])[..|rows|] == rows;
  }

  /** Merging overwrites: the merged rows win over the rows already there. */
  lemma {:induction false} MergePathsOverwrites(paths: map<PathKey, Path>, rows: seq<Path>)
    ensures MergePaths(paths, rows) == paths + MergePaths(map[], rows)
  {
    if rows != [] {
      MergePathsOverwrites(paths, rows[..|rows| - 1]);
    }
  }

  /** Merging rows of one change adds only rows of that change. */
  lemma {:induction false} MergedRowsBelongToChange(rows: seq<Path>, changeId: string)
    requires forall i :: 0 <= i < |rows| ==> rows[i].changeId == changeId
    ensures forall k :: k in MergePaths(map[], rows) ==> k.0 == changeId
  {
    if rows != [] {
      MergedRowsBelongToChange(rows[..|rows| - 1], changeId);
    }
  }

  /** What one pass of the loop over log entries stores: the change row,
      each of its path rows merged in order, then the moves of the change
      reconciled. */
  ghost function StoreEntry(t: Tables, change: Change, rows: seq<Path>): Tables {
    t.(changes := t.changes[change.changeId := change],
       paths := Reconcile(MergePaths(t.paths, rows), change.changeId))
  }

  /** One pass of the loop over log entries. */
  ghost function IngestEntry(t: Tables, repository: Repository, entry: RawLogEntry): Result<Tables, Error> {
    match ChangeFromLogEntry(repository, entry)
    case Failure(e) => Failure(e)
    case Success(change) =>
      match NormalizePaths(change, entry.paths)
      case Failure(e) => Failure(e)
      case Success(rows) => Success(StoreEntry(t, change, rows))
  }

  /** An entry whose change and path rows normalize stores them, */
  lemma IngestEntryStores(t: Tables, repository: Repository, entry: RawLogEntry, change: Change, rows: seq<Path>)
    requires ChangeFromLogEntry(repository, entry) == Success(change)
    requires NormalizePaths(change, entry.paths) == Success(rows)
    ensures IngestEntry(t, repository, entry) == Success(StoreEntry(t, change, rows))
  {
  }

  /** and one whose path rows do not fails with their error. */
  lemma IngestEntryFailsOnPaths(t: Tables, repository: Repository, entry: RawLogEntry, change: Change)
    requires ChangeFromLogEntry(repository, entry) == Success(change)
    requires NormalizePaths(change, entry.paths).Failure?
    ensures IngestEntry(t, repository, entry) == Failure(NormalizePaths(change, entry.paths).error)
  {
  }

  /** The loop over all log entries, in document order; the first failure
      ends the run. */
  ghost function Ingest(t: Tables, repository: Repository, log: seq<RawLogEntry>): Result<Tables, Error>
    decreases |log|
  {
    if log == [] then Success(t)
    else
      match Ingest(t, repository, log[..|log| - 1])
      case Failure(e) => Failure(e)
      case Success(u) => IngestEntry(u, repository, log[|log| - 1])
  }

  /** update_repository: register the uri, then ingest its log. */
  ghost function UpdateRepository(t: Tables, uri: string, log: seq<RawLogEntry>): Result<Tables, Error> {
    match RepositoryFor(t, uri)
    case Failure(e) => Failure(e)
    case Success((registered, repository)) => Ingest(registered, repository, log)
  }

  /** Ingestion never touches the repositories table. */
  lemma {:induction false} IngestKeepsRepositories(t: Tables, repository: Repository, log: seq<RawLogEntry>)
    requires Ingest(t, repository, log).Success?
    ensures Ingest(t, repository, log).value.repositories == t.repositories
    ensures Ingest(t, repository, log).value.lastRepositoryId == t.lastRepositoryId
    decreases |log|
  {
    if log != [] {
      IngestKeepsRepositories(t, repository, log[..|log| - 1]);
    }
  }

  /** A successful entry stores what StoreEntry stores for its change and
      its normalized rows, all of which belong to the change. */
  lemma IngestEntrySucceeds(t: Tables, repository: Repository, entry: RawLogEntry)
    requires IngestEntry(t, repository, entry).Success?
    ensures var change := ChangeFromLogEntry(repository, entry).value;
      && NormalizePaths(change, entry.paths).Success?
      && IngestEntry(t, repository, entry).value == StoreEntry(t, change, NormalizePaths(change, entry.paths).value)
      && (forall i :: 0 <= i < |NormalizePaths(change, entry.paths).value| ==>
            NormalizePaths(change, entry.paths).value[i].changeId == change.changeId)
  {
  }

  // Rows of one change and of the others, under union and splitting.

  lemma RowsOfUnion(a: map<PathKey, Path>, b: map<PathKey, Path>, changeId: string)
    ensures RowsOf(a + b, changeId) == RowsOf(a, changeId) + RowsOf(b, changeId)
    ensures Others(a + b, changeId) == Others(a, changeId) + Others(b, changeId)
  {
  }

  lemma RowsOfOwnRows(rows: map<PathKey, Path>, changeId: string)
    requires forall k :: k in rows ==> k.0 == changeId
    ensures RowsOf(rows, changeId) == rows
    ensures Others(rows, changeId) == map[]
  {
  }

  lemma RowsOfOthers(paths: map<PathKey, Path>, changeId: string, other: string)
    ensures RowsOf(Others(paths, changeId), changeId) == map[]
    ensures Others(Others(paths, changeId), changeId) == Others(paths, changeId)
    ensures other != changeId ==> RowsOf(Others(paths, changeId), other) == RowsOf(paths, other)
  {
  }

  /** Rows of other changes and rows of one change, put together and
      split again. */
  lemma SplitJoined(others: map<PathKey, Path>, rows: map<PathKey, Path>, changeId: string)
    requires forall k :: k in others ==> k.0 != changeId
    requires forall k :: k in rows ==> k.0 == changeId
    ensures RowsOf(others + rows, changeId) == rows
    ensures Others(others + rows, changeId) == others
  {
  }

  /** Merging rows of one change adds to that change's rows only. */
  lemma MergeSplit(paths: map<PathKey, Path>, rows: seq<Path>, changeId: string)
    requires forall i :: 0 <= i < |rows| ==> rows[i].changeId == changeId
    ensures RowsOf(MergePaths(paths, rows), changeId) == RowsOf(paths, changeId) + MergePaths(map[], rows)
    ensures Others(MergePaths(paths, rows), changeId) == Others(paths, changeId)
  {
    var added := MergePaths(map[], rows);
    MergePathsOverwrites(paths, rows);
    MergedRowsBelongToChange(rows, changeId);
    RowsOfUnion(paths, added, changeId);
    RowsOfOwnRows(added, changeId);
  }

  /** Storing an entry keeps the rows of the other changes and gives its
      change the reconciled merge of its rows over the rows it had. */
  lemma StoreEntryRows(t: Tables, change: Change, rows: seq<Path>)
    requires forall i :: 0 <= i < |rows| ==> rows[i].changeId == change.changeId
    ensures var cid := change.changeId;
      var u := StoreEntry(t, change, rows);
      && Others(u.paths, cid) == Others(t.paths, cid)
      && RowsOf(u.paths, cid) == Reconcile(RowsOf(t.paths, cid) + MergePaths(map[], rows), cid)
  {
    var cid := change.changeId;
    var merged := MergePaths(t.paths, rows);
    MergeSplit(t.paths, rows, cid);
    ReconcileIsLocal(merged, cid);
    var own := RowsOf(merged, cid);
    ReconcileTouchesOnlyCopiesAndDeletions(own, cid);
    SplitJoined(Others(merged, cid), Reconcile(own, cid), cid);
  }

  /** Rows and change row of any other change survive an entry unchanged. */
  lemma StoreEntryElsewhere(t: Tables, change: Change, rows: seq<Path>, changeId: string)
    requires forall i :: 0 <= i < |rows| ==> rows[i].changeId == change.changeId
    requires change.changeId != changeId
    ensures RowsOf(StoreEntry(t, change, rows).paths, changeId) == RowsOf(t.paths, changeId)
    ensures var u := StoreEntry(t, change, rows);
      (changeId in u.changes <==> changeId in t.changes)
      && (changeId in t.changes ==> u.changes[changeId] == t.changes[changeId])
  {
    var cid := change.changeId;
    var u := StoreEntry(t, change, rows);
    StoreEntryRows(t, change, rows);
    RowsOfOthers(u.paths, cid, changeId);
    RowsOfOthers(t.paths, cid, changeId);
  }

  lemma UnionWithCoveringMap(a: map<PathKey, Path>, b: map<PathKey, Path>)
    requires a.Keys <= b.Keys
    ensures a + b == b
  {
  }

  /** Reconciliation only removes rows. */
  lemma ReconcileKeepsKeysWithin(paths: map<PathKey, Path>, changeId: string)
    ensures Reconcile(paths, changeId).Keys <= paths.Keys
  {
    ReconcileTouchesOnlyCopiesAndDeletions(paths, changeId);
  }

  /** Storing an entry into tables whose rows of its change are already
      what storing it into tables without such rows gives changes nothing. */
  lemma StoreEntryFixpoint(t: Tables, s: Tables, change: Change, rows: seq<Path>)
    requires forall i :: 0 <= i < |rows| ==> rows[i].changeId == change.changeId
    requires var cid := change.changeId;
      && RowsOf(t.paths, cid) == map[]
      && RowsOf(s.paths, cid) == RowsOf(StoreEntry(t, change, rows).paths, cid)
      && cid in s.changes && s.changes[cid] == change
    ensures StoreEntry(s, change, rows) == s
  {
    var cid := change.changeId;
    var added := MergePaths(map[], rows);
    StoreEntryRows(t, change, rows);
    UnionWithCoveringMap(RowsOf(t.paths, cid), added);
    // A run from scratch stores for the change the reconciled merge, whose
    // keys are all merged keys.
    ReconcileKeepsKeysWithin(added, cid);
    UnionWithCoveringMap(RowsOf(s.paths, cid), added);
    StoreEntryRows(s, change, rows);
    var v := StoreEntry(s, change, rows);
    SplitByChange(v.paths, cid);
    SplitByChange(s.paths, cid);
  }

  /** Rows and change row of any other change survive an entry unchanged. */
  lemma IngestEntryElsewhere(t: Tables, repository: Repository, entry: RawLogEntry, changeId: string)
    requires IngestEntry(t, repository, entry).Success?
    requires ChangeFromLogEntry(repository, entry).value.changeId != changeId
    ensures RowsOf(IngestEntry(t, repository, entry).value.paths, changeId) == RowsOf(t.paths, changeId)
    ensures var u := IngestEntry(t, repository, entry).value;
      (changeId in u.changes <==> changeId in t.changes)
      && (changeId in t.changes ==> u.changes[changeId] == t.changes[changeId])
  {
    IngestEntrySucceeds(t, repository, entry);
    var change := ChangeFromLogEntry(repository, entry).value;
    StoreEntryElsewhere(t, change, NormalizePaths(change, entry.paths).value, changeId);
  }

  /** An entry whose change already holds what ingesting it into tables
      without rows of that change would store changes nothing. */
  lemma IngestEntryFixpoint(t: Tables, s: Tables, repository: Repository, entry: RawLogEntry)
    requires IngestEntry(t, repository, entry).Success?
    requires var cid := ChangeFromLogEntry(repository, entry).value.changeId;
      var u := IngestEntry(t, repository, entry).value;
      && RowsOf(t.paths, cid) == map[]
      && RowsOf(s.paths, cid) == RowsOf(u.paths, cid)
      && cid in s.changes && s.changes[cid] == u.changes[cid]
    ensures IngestEntry(s, repository, entry) == Success(s)
  {
    IngestEntrySucceeds(t, repository, entry);
    IngestEntrySucceeds(s, repository, entry);
    var change := ChangeFromLogEntry(repository, entry).value;
    StoreEntryFixpoint(t, s, change, NormalizePaths(change, entry.paths).value);
  }

  /** Revisions of one log are distinct, as Subversion numbers them. */
  ghost predicate DistinctRevisions(log: seq<RawLogEntry>) {
    forall i, j :: 0 <= i < j < |log| ==> log[i].revision != log[j].revision
  }

  /** The tables hold no path rows of the changes of the log yet. */
  ghost predicate NoRowsOfLog(t: Tables, repository: Repository, log: seq<RawLogEntry>) {
    forall i :: 0 <= i < |log| && ChangeIdFor(repository.repositoryId, log[i].revision).Success? ==>
      RowsOf(t.paths, ChangeIdFor(repository.repositoryId, log[i].revision).value) == map[]
  }

  lemma {:induction false} IngestAppend(t: Tables, repository: Repository, front: seq<RawLogEntry>, back: seq<RawLogEntry>)
    requires Ingest(t, repository, front).Success?
    ensures Ingest(t, repository, front + back) == Ingest(Ingest(t, repository, front).value, repository, back)
    decreases |back|
  {
    if back == [] {
      assert front + back == front;
    } else {
      var init := back[..|back| - 1];
      assert (front + back)[..|front + back| - 1] == front + init;
      assert (front + back)[|front + back| - 1] == back[|back| - 1];
      IngestAppend(t, repository, front, init);
    }
  }

  lemma {:induction false} IngestPrefix(t: Tables, repository: Repository, log: seq<RawLogEntry>, n: nat)
    requires n <= |log| && Ingest(t, repository, log).Success?
    ensures Ingest(t, repository, log[..n]).Success?
    decreases |log|
  {
    if n < |log| {
      assert log[..|log| - 1][..n] == log[..n];
      IngestPrefix(t, repository, log[..|log| - 1], n);
    } else {
      assert log[..n] == log;
    }
  }

  /** Once a prefix of the log fails, the whole run fails with the same
      error: later entries are never looked at. */
  lemma {:induction false} IngestStopsAtFailure(t: Tables, repository: Repository, log: seq<RawLogEntry>, n: nat)
    requires n <= |log| && Ingest(t, repository, log[..n]).Failure?
    ensures Ingest(t, repository, log) == Ingest(t, repository, log[..n])
    decreases |log|
  {
    if n < |log| {
      assert log[..|log| - 1][..n] == log[..n];
      IngestStopsAtFailure(t, repository, log[..|log| - 1], n);
    } else {
      assert log[..n] == log;
    }
  }

  /** Entries of other changes leave the rows and change row of a change
      as they are. */
  lemma {:induction false} IngestElsewhere(t: Tables, repository: Repository, log: seq<RawLogEntry>, changeId: string)
    requires Ingest(t, repository, log).Success?
    requires forall i :: 0 <= i < |log| ==> ChangeIdFor(repository.repositoryId, log[i].revision) != Success(changeId)
    ensures RowsOf(Ingest(t, repository, log).value.paths, changeId) == RowsOf(t.paths, changeId)
    ensures var u := Ingest(t, repository, log).value;
      (changeId in u.changes <==> changeId in t.changes)
      && (changeId in t.changes ==> u.changes[changeId] == t.changes[changeId])
    decreases |log|
  {
    if log != [] {
      var init := log[..|log| - 1];
      IngestElsewhere(t, repository, init, changeId);
      IngestEntryElsewhere(Ingest(t, repository, init).value, repository, log[|log| - 1], changeId);
    }
  }

  /** Tables that every entry of a log leaves unchanged are left unchanged
      by the whole log. */
  lemma {:induction false} IngestFixpoint(s: Tables, repository: Repository, log: seq<RawLogEntry>)
    requires forall i :: 0 <= i < |log| ==> IngestEntry(s, repository, log[i]) == Success(s)
    ensures Ingest(s, repository, log) == Success(s)
    decreases |log|
  {
    if log != [] {
      IngestFixpoint(s, repository, log[..|log| - 1]);
    }
  }

  /** A run whose first n entries succeed continues from their tables. */
  lemma IngestSuffix(t: Tables, repository: Repository, log: seq<RawLogEntry>, n: nat)
    requires n <= |log| && Ingest(t, repository, log[..n]).Success?
    ensures Ingest(t, repository, log) == Ingest(Ingest(t, repository, log[..n]).value, repository, log[n..])
  {
    var front, back := log[..n], log[n..];
    assert front + back == log;
    IngestAppend(t, repository, front, back);
  }

  /** A successful run up to entry n, included, is the run up to entry n
      followed by entry n. */
  lemma IngestLastStep(t: Tables, repository: Repository, log: seq<RawLogEntry>, n: nat)
    requires n < |log| && Ingest(t, repository, log[..n + 1]).Success?
    ensures Ingest(t, repository, log[..n]).Success?
    ensures IngestEntry(Ingest(t, repository, log[..n]).value, repository, log[n]) == Ingest(t, repository, log[..n + 1])
  {
    assert log[..n + 1][..n] == log[..n];
    assert log[..n + 1][n] == log[n];
  }

  /** A successful run is the run up to entry i, entry i, and the run
      over the rest. */
  lemma RunSplitsAt(t: Tables, repository: Repository, log: seq<RawLogEntry>, i: nat)
    requires i < |log| && Ingest(t, repository, log).Success?
    ensures Ingest(t, repository, log[..i]).Success?
    ensures IngestEntry(Ingest(t, repository, log[..i]).value, repository, log[i]).Success?
    ensures Ingest(t, repository, log)
            == Ingest(IngestEntry(Ingest(t, repository, log[..i]).value, repository, log[i]).value,
                      repository, log[i + 1..])
  {
    IngestPrefix(t, repository, log, i + 1);
    IngestLastStep(t, repository, log, i);
    IngestSuffix(t, repository, log, i + 1);
  }

  /** With distinct revisions, no other entry of the log has the change id
      of entry i. */
  lemma OtherEntriesHaveOtherChangeIds(repository: Repository, log: seq<RawLogEntry>, i: nat, changeId: string)
    requires DistinctRevisions(log)
    requires i < |log| && ChangeIdFor(repository.repositoryId, log[i].revision) == Success(changeId)
    ensures forall j :: 0 <= j < |log| && j != i ==>
      ChangeIdFor(repository.repositoryId, log[j].revision) != Success(changeId)
  {
    forall j | 0 <= j < |log| && j != i && ChangeIdFor(repository.repositoryId, log[j].revision).Success?
      ensures ChangeIdFor(repository.repositoryId, log[j].revision) != Success(changeId)
    {
      ChangeIdInjective(repository.repositoryId, log[j].revision, repository.repositoryId, log[i].revision);
    }
  }

  /** What holds of the entries lo..hi of a log holds of that slice. */
  lemma SliceHasOtherChangeIds(repository: Repository, log: seq<RawLogEntry>, lo: nat, hi: nat,
                               slice: seq<RawLogEntry>, changeId: string)
    requires lo <= hi <= |log| && slice == log[lo..hi]
    requires forall j :: lo <= j < hi ==> ChangeIdFor(repository.repositoryId, log[j].revision) != Success(changeId)
    ensures forall k :: 0 <= k < |slice| ==> ChangeIdFor(repository.repositoryId, slice[k].revision) != Success(changeId)
  {
    forall k | 0 <= k < |slice|
      ensures ChangeIdFor(repository.repositoryId, slice[k].revision) != Success(changeId)
    {
      assert slice[k] == log[lo + k];
    }
  }

  /** The entry at index i of a run, `before` it, `after` it and at the
      `end` of the run: when no other entry has its change id and the run
      started without rows of that change, the entry finds at the end
      exactly what it stored. */
  lemma EntryIsFixpointOfSplitRun(t: Tables, repository: Repository, log: seq<RawLogEntry>, i: nat,
                                  before: Tables, after: Tables, end: Tables, changeId: string)
    requires i < |log|
    requires Ingest(t, repository, log[..i]) == Success(before)
    requires IngestEntry(before, repository, log[i]) == Success(after)
    requires Ingest(after, repository, log[i + 1..]) == Success(end)
    requires ChangeFromLogEntry(repository, log[i]).Success?
    requires ChangeFromLogEntry(repository, log[i]).value.changeId == changeId
    requires RowsOf(t.paths, changeId) == map[]
    requires forall j :: 0 <= j < |log| && j != i ==>
      ChangeIdFor(repository.repositoryId, log[j].revision) != Success(changeId)
    ensures IngestEntry(end, repository, log[i]) == Success(end)
  {
    SliceHasOtherChangeIds(repository, log, 0, i, log[..i], changeId);
    SliceHasOtherChangeIds(repository, log, i + 1, |log|, log[i + 1..], changeId);
    IngestElsewhere(t, repository, log[..i], changeId);
    IngestElsewhere(after, repository, log[i + 1..], changeId);
    IngestEntrySucceeds(before, repository, log[i]);
    IngestEntryFixpoint(before, end, repository, log[i]);
  }

  /** After a run over the whole log, the entry at index i finds its change
      exactly as that run left it. */
  lemma EntryIsFixpointOfRun(t: Tables, repository: Repository, log: seq<RawLogEntry>, i: nat)
    requires DistinctRevisions(log) && NoRowsOfLog(t, repository, log)
    requires i < |log| && Ingest(t, repository, log).Success?
    ensures IngestEntry(Ingest(t, repository, log).value, repository, log[i])
            == Ingest(t, repository, log)
  {
    RunSplitsAt(t, repository, log, i);
    var before := Ingest(t, repository, log[..i]).value;
    var after := IngestEntry(before, repository, log[i]).value;
    assert ChangeFromLogEntry(repository, log[i]).Success?;
    var changeId := ChangeFromLogEntry(repository, log[i]).value.changeId;
    OtherEntriesHaveOtherChangeIds(repository, log, i, changeId);
    EntryIsFixpointOfSplitRun(t, repository, log, i, before, after, Ingest(t, repository, log).value, changeId);
  }

  /** Re-running ingestion over the same log gives the same tables, when
      the first run started without rows of the log's changes. */
  lemma ReingestIsIdempotent(t: Tables, repository: Repository, log: seq<RawLogEntry>)
    requires DistinctRevisions(log) && NoRowsOfLog(t, repository, log)
    requires Ingest(t, repository, log).Success?
    ensures Ingest(Ingest(t, repository, log).value, repository, log) == Ingest(t, repository, log)
  {
    var final := Ingest(t, repository, log).value;
    forall i | 0 <= i < |log|
      ensures IngestEntry(final, repository, log[i]) == Success(final)
    {
      EntryIsFixpointOfRun(t, repository, log, i);
    }
    IngestFixpoint(final, repository, log);
  }

  /** Building the database from scratch and then running update_repository
      again over the same log leaves the tables as the first run made them. */
  lemma RebuildIsIdempotent(uri: string, log: seq<RawLogEntry>)
    requires DistinctRevisions(log)
    requires UpdateRepository(EmptyTables(), uri, log).Success?
    ensures UpdateRepository(UpdateRepository(EmptyTables(), uri, log).value, uri, log)
            == UpdateRepository(EmptyTables(), uri, log)
  {
    var empty := EmptyTables();
    assert RepositoriesWithUri(empty.repositories, uri) == {};
    var (registered, repository) := RepositoryFor(empty, uri).value;
    RepositoryForKeepsUriUnique(empty, uri);
    var final := Ingest(registered, repository, log).value;
    IngestKeepsRepositories(registered, repository, log);
    assert RepositoriesWithUri(final.repositories, uri) == {repository.repositoryId};
    assert RepositoryFor(final, uri) == Success((final, repository));
    ReingestIsIdempotent(registered, repository, log);
  }
}
