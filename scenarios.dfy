/** Worked cases: a copy whose source the same commit deletes, a copy
    without such a deletion, an addition next to an unrelated deletion, a
    log with a malformed path element, and a two-commit log ingested into
    an empty database. */
module Scenarios {
  import opened Wrappers
  import opened Common
  import opened Subversion
  import opened MoveReconciliation
  import opened Store

  /** A commit that copies A to B and deletes A keeps one row: B, moved
      from A. */
  lemma CopyAndDeletionOfSourceIsMove(changeId: string, copy: Path, deletion: Path)
    requires copy.changeId == changeId && deletion.changeId == changeId
    requires copy.action == Copied && deletion.action == Deleted
    requires copy.basePath == Some(deletion.path) && copy.path != deletion.path
    ensures Reconcile(map[KeyOf(copy) := copy, KeyOf(deletion) := deletion], changeId)
            == map[KeyOf(copy) := copy.(action := Moved)]
  {
    var paths := map[KeyOf(copy) := copy, KeyOf(deletion) := deletion];
    assert CopiedKeys(paths, changeId) == {KeyOf(copy)};
    ReconcileUnambiguous(paths, changeId);
    ReconcileTouchesOnlyCopiesAndDeletions(paths, changeId);
    var result := Reconcile(paths, changeId);
    assert HasDeletedSource(paths, changeId, copy.basePath);
    assert KeyOf(copy) in CopiedKeys(paths, changeId) && paths[KeyOf(copy)].basePath == Some(KeyOf(deletion).1);
    assert KeyOf(deletion) !in result;
    assert result.Keys == {KeyOf(copy)};
  }

  /** A copy whose source the commit does not delete stays a copy, with
      its base. */
  lemma CopyWithoutDeletionOfSourceStaysCopy(paths: map<PathKey, Path>, changeId: string, copyKey: PathKey)
    requires copyKey in paths && copyKey.0 == changeId && paths[copyKey].action == Copied
    requires !HasDeletedSource(paths, changeId, paths[copyKey].basePath)
    ensures copyKey in Reconcile(paths, changeId)
    ensures Reconcile(paths, changeId)[copyKey] == paths[copyKey]
  {
    ReconcileTouchesOnlyCopiesAndDeletions(paths, changeId);
    ReconcileMovesMatchRemovals(paths, changeId);
    var result := Reconcile(paths, changeId);
    assert copyKey !in MovedKeys(paths, result);
  }

  /** An addition and a deletion of another path in one commit are two
      independent rows that reconciliation leaves alone. */
  lemma AdditionAndUnrelatedDeletionAreKept(changeId: string, addition: Path, deletion: Path)
    requires addition.changeId == changeId && deletion.changeId == changeId
    requires addition.action == Added && deletion.action == Deleted
    requires addition.path != deletion.path
    ensures var paths := map[KeyOf(addition) := addition, KeyOf(deletion) := deletion];
      Reconcile(paths, changeId) == paths
  {
    var paths := map[KeyOf(addition) := addition, KeyOf(deletion) := deletion];
    ReconcileWithoutSourcesChangesNothing(paths, changeId);
  }

  /** A path element with a `copyfrom-path` but no `copyfrom-rev` anywhere
      in the log makes the run fail. */
  lemma BasePathWithoutBaseRevisionFailsRun(t: Tables, repository: Repository, log: seq<RawLogEntry>, i: nat, j: nat)
    requires i < |log| && j < |log[i].paths|
    requires log[i].paths[j].copyFromRev.None? && log[i].paths[j].copyFromPath.Some?
    ensures Ingest(t, repository, log).Failure?
  {
    var front := log[..i + 1];
    assert front[..i] == log[..i] && front[i] == log[i];
    assert Ingest(t, repository, front).Failure?;
    IngestStopsAtFailure(t, repository, log, i + 1);
  }

  /** Commit 1 adds `/hello.py`; commit 2 copies it to `/hello_again.py`
      and keeps the original. */
  function TwoCommitLog(): seq<RawLogEntry> {
    [ RawLogEntry("1", Some("alice"), Some("Add hello."), "2016-05-01T12:00:00.000000Z",
        [RawPath("/hello.py", "file", "A", None, None)]),
      RawLogEntry("2", Some("alice"), Some("Copy hello."), "2016-05-01T12:05:00.000000Z",
        [RawPath("/hello_again.py", "file", "A", Some("1"), Some("/hello.py"))]) ]
  }

  /** The tables right after the repository is registered. */
  function Registered(uri: string): Tables {
    Tables(map[1 := Repository(1, uri, None)], 1, map[], map[])
  }

  function HelloRow(): Path {
    Path(1, "01-1", "/hello.py", File, Added, None, None)
  }

  function HelloAgainRow(): Path {
    Path(1, "01-2", "/hello_again.py", File, Copied, Some("01-1"), Some("/hello.py"))
  }

  lemma TwoCommitChangeIds()
    ensures ChangeIdFor(1, "1") == Success("01-1")
    ensures ChangeIdFor(1, "2") == Success("01-2")
  {
    assert ZeroPadded(1, 2) == "01" by {
      assert ZeroPadded(0, 1) == "0";
    }
    assert Pow10(MaxRepositoryIdDigits) == 100;
    assert "01" + "-" + "1" == "01-1";
    assert "01" + "-" + "2" == "01-2";
  }

  /** Commit 1 stores its change and the added row; there is nothing to
      reconcile. */
  lemma FirstOfTwoCommits(uri: string)
    ensures var repository := Repository(1, uri, None);
      var entry := TwoCommitLog()[0];
      && ChangeFromLogEntry(repository, entry).Success?
      && IngestEntry(Registered(uri), repository, entry)
         == Success(Registered(uri).(changes := map["01-1" := ChangeFromLogEntry(repository, entry).value],
                                     paths := map[("01-1", "/hello.py") := HelloRow()]))
  {
    var repository := Repository(1, uri, None);
    var entry := TwoCommitLog()[0];
    TwoCommitChangeIds();
    var change := ChangeFromLogEntry(repository, entry).value;
    var row := HelloRow();
    assert PathFromPathElement(change, entry.paths[0]) == Success(row);
    assert NormalizePaths(change, entry.paths) == Success([row]) by {
      assert entry.paths[..0] == [] && entry.paths[..1] == entry.paths;
      NormalizePathsStep(change, entry.paths, 0);
      assert [] + [row] == [row];
    }
    var merged := MergePaths(map[], [row]);
    assert merged == map[("01-1", "/hello.py") := row] by {
      MergePathsStep(map[], [], row);
      assert [] + [row] == [row];
    }
    ReconcileWithoutSourcesChangesNothing(merged, "01-1");
    IngestEntryStores(Registered(uri), repository, entry, change, [row]);
  }

  /** Commit 2 stores its change and the copied row, which stays a copy:
      the commit does not delete its source. */
  lemma SecondOfTwoCommits(uri: string, before: Tables)
    requires before.paths == map[("01-1", "/hello.py") := HelloRow()]
    ensures var repository := Repository(1, uri, None);
      var entry := TwoCommitLog()[1];
      && ChangeFromLogEntry(repository, entry).Success?
      && IngestEntry(before, repository, entry)
         == Success(before.(changes := before.changes["01-2" := ChangeFromLogEntry(repository, entry).value],
                            paths := map[("01-1", "/hello.py") := HelloRow(),
                                         ("01-2", "/hello_again.py") := HelloAgainRow()]))
  {
    var repository := Repository(1, uri, None);
    var entry := TwoCommitLog()[1];
    TwoCommitChangeIds();
    var change := ChangeFromLogEntry(repository, entry).value;
    var row := HelloAgainRow();
    assert PathFromPathElement(change, entry.paths[0]) == Success(row);
    assert NormalizePaths(change, entry.paths) == Success([row]) by {
      assert entry.paths[..0] == [] && entry.paths[..1] == entry.paths;
      NormalizePathsStep(change, entry.paths, 0);
      assert [] + [row] == [row];
    }
    var merged := MergePaths(before.paths, [row]);
    assert merged == before.paths[("01-2", "/hello_again.py") := row] by {
      MergePathsStep(before.paths, [], row);
      assert [] + [row] == [row];
    }
    ReconcileWithoutSourcesChangesNothing(merged, "01-2");
    IngestEntryStores(before, repository, entry, change, [row]);
  }

  /** Ingesting that log into an empty database registers the repository
      with id 1 and stores two changes and two path rows: the addition in
      commit 1 and the copy, based on commit 1, in commit 2. */
  lemma TwoCommitRunIntoEmptyDatabase(uri: string)
    ensures UpdateRepository(EmptyTables(), uri, TwoCommitLog()).Success?
    ensures var result := UpdateRepository(EmptyTables(), uri, TwoCommitLog()).value;
      && result.repositories == map[1 := Repository(1, uri, None)]
      && result.changes.Keys == {"01-1", "01-2"}
      && result.paths == map[
           ("01-1", "/hello.py") := HelloRow(),
           ("01-2", "/hello_again.py") := HelloAgainRow()]
  {
    var log := TwoCommitLog();
    var repository := Repository(1, uri, None);
    assert RepositoriesWithUri(EmptyTables().repositories, uri) == {};
    assert RepositoryFor(EmptyTables(), uri) == Success((Registered(uri), repository));
    FirstOfTwoCommits(uri);
    var after := IngestEntry(Registered(uri), repository, log[0]).value;
    SecondOfTwoCommits(uri, after);
    assert log[..1][..0] == [] && log[..1][0] == log[0];
    assert Ingest(Registered(uri), repository, log[..1]) == Success(after);
    assert log[..1] == log[..|log| - 1];
    assert Ingest(Registered(uri), repository, log) == IngestEntry(after, repository, log[1]);
  }
}
