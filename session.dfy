/** The database session the ingestion code works through. Its fields are
    the tables as the session sees them; `committed` is what the database
    holds after the last commit. Each method is proved against the function
    of module Store that specifies it. */
module Ingestion {
  import opened Wrappers
  import opened Common
  import opened Subversion
  import opened KeyOrder
  import opened MoveReconciliation
  import opened Store

  class Session {
    var repositories: map<nat, Repository>
    var lastRepositoryId: nat
    var changes: map<string, Change>
    var paths: map<PathKey, Path>
    var committed: Tables

    /** The tables as this session sees them. */
    function View(): Tables
      reads this
    {
      Tables(repositories, lastRepositoryId, changes, paths)
    }

    /** A session on a database that holds `database`. */
    constructor(database: Tables)
      ensures View() == database && committed == database
    {
      repositories := database.repositories;
      lastRepositoryId := database.lastRepositoryId;
      changes := database.changes;
      paths := database.paths;
      committed := database;
    }

    method Commit()
      modifies this
      ensures View() == old(View()) && committed == View()
    {
      committed := View();
    }

    /** repository_for: find the repository row with `uri`, or add and
        commit one with the next id. */
    method RepositoryFor(uri: string) returns (r: Result<Repository, Error>)
      modifies this
      ensures var spec := Store.RepositoryFor(old(View()), uri);
        && (r.Success? <==> spec.Success?)
        && (r.Success? ==> r.value == spec.value.1 && View() == spec.value.0)
        && (r.Failure? ==> r.error == spec.error && View() == old(View()))
      ensures committed == if |RepositoriesWithUri(old(repositories), uri)| == 0 then View() else old(committed)
    {
      var existing := RepositoriesWithUri(repositories, uri);
      if |existing| == 0 {
        var id := lastRepositoryId + 1;
        var repository := Repository(id, uri, None);
        repositories := repositories[id := repository];
        lastRepositoryId := id;
        Commit();
        r := Success(repository);
      } else if |existing| == 1 {
        var id :| id in existing;
        assert existing == {id} by {
          assert |existing - {id}| == 0;
        }
        r := Success(repositories[id]);
      } else {
        r := Failure(DuplicateRepository(uri));
      }
    }

    /** The loop of update_repository that turns copies of the change
        `changeId` into moves: the copied rows are listed once, then each is
        examined in key order; a deleted row at its base path is removed and
        the copy becomes a move. */
    method ReconcileMoves(changeId: string)
      modifies this
      ensures paths == Reconcile(old(paths), changeId)
      ensures repositories == old(repositories) && lastRepositoryId == old(lastRepositoryId)
      ensures changes == old(changes) && committed == old(committed)
    {
      var copied := CopiedKeys(paths, changeId);
      ghost var target := Reconcile(paths, changeId);
      while copied != {}
        invariant Pending(paths, copied)
        invariant forall k :: k in copied ==> k.0 == changeId
        invariant ReconcileFrom(paths, copied) == target
        invariant repositories == old(repositories) && lastRepositoryId == old(lastRepositoryId)
        invariant changes == old(changes) && committed == old(committed)
        decreases copied
      {
        FirstExists(copied);
        var key :| IsFirst(key, copied);
        FirstUnique(key, First(copied), copied);
        ghost var previous := paths;
        var copy := paths[key];
        var matching := DeletedSourceKeys(paths, changeId, copy.basePath);
        paths := paths - matching;
        var deletedPathCount := |matching|;
        if deletedPathCount == 1 {
          paths := paths[key := copy.(action := Moved)];
        } else {
          assert deletedPathCount == 0;
        }
        assert paths == ExamineCopy(previous, key);
        copied := copied - {key};
      }
    }

    /** The inner loop of update_repository: merge the path row of each
        `path` element of the change, in document order; the first element
        that cannot be normalized ends the loop with its error. */
    method MergePathElements(change: Change, elements: seq<RawPath>) returns (result: Result<(), Error>)
      modifies this
      ensures var spec := NormalizePaths(change, elements);
        && (result.Success? <==> spec.Success?)
        && (result.Success? ==> paths == MergePaths(old(paths), spec.value))
        && (result.Failure? ==> result.error == spec.error)
      ensures repositories == old(repositories) && lastRepositoryId == old(lastRepositoryId)
      ensures changes == old(changes) && committed == old(committed)
    {
      ghost var rows: seq<Path> := [];
      var j := 0;
      while j < |elements|
        invariant 0 <= j <= |elements|
        invariant NormalizePaths(change, elements[..j]) == Success(rows)
        invariant paths == MergePaths(old(paths), rows)
        invariant repositories == old(repositories) && lastRepositoryId == old(lastRepositoryId)
        invariant changes == old(changes) && committed == old(committed)
      {
        var pathResult := PathFromPathElement(change, elements[j]);
        if pathResult.Failure? {
          NormalizePathsFailsAt(change, elements, j);
          return Failure(pathResult.error);
        }
        var path := pathResult.value;
        NormalizePathsStep(change, elements, j);
        MergePathsStep(old(paths), rows, path);
        paths := paths[KeyOf(path) := path];
        rows := rows + [path];
        j := j + 1;
      }
      assert elements[..j] == elements;
      result := Success(());
    }

    /** One pass of the loop over log entries: merge the change row, merge
        the path rows of its `path` elements, reconcile the moves of the
        change. Nothing is committed. */
    method IngestEntry(repository: Repository, entry: RawLogEntry) returns (result: Result<(), Error>)
      modifies this
      ensures var spec := Store.IngestEntry(old(View()), repository, entry);
        && (result.Success? <==> spec.Success?)
        && (result.Success? ==> View() == spec.value)
        && (result.Failure? ==> result.error == spec.error)
      ensures committed == old(committed)
    {
      var changeResult := ChangeFromLogEntry(repository, entry);
      if changeResult.Failure? {
        return Failure(changeResult.error);
      }
      var change := changeResult.value;
      ghost var before := View();
      changes := changes[change.changeId := change];
      var merged := MergePathElements(change, entry.paths);
      if merged.Failure? {
        IngestEntryFailsOnPaths(before, repository, entry, change);
        return Failure(merged.error);
      }
      IngestEntryStores(before, repository, entry, change, NormalizePaths(change, entry.paths).value);
      ReconcileMoves(change.changeId);
      result := Success(());
    }

    /** update_repository on the log of `uri`: register the repository, then
        ingest each entry in order and commit at the end. A failure ends the
        run without the final commit, so the database keeps at most the
        registration. */
    method UpdateRepository(uri: string, log: seq<RawLogEntry>) returns (outcome: Result<(), Error>)
      modifies this
      ensures var spec := Store.UpdateRepository(old(View()), uri, log);
        && (outcome.Success? <==> spec.Success?)
        && (outcome.Success? ==> View() == spec.value && committed == View())
        && (outcome.Failure? ==> outcome.error == spec.error)
      ensures outcome.Failure? ==>
        committed == if |RepositoriesWithUri(old(repositories), uri)| == 0
                     then Store.RepositoryFor(old(View()), uri).value.0
                     else old(committed)
    {
      var registered := RepositoryFor(uri);
      if registered.Failure? {
        return Failure(registered.error);
      }
      var repository := registered.value;
      ghost var start := View();
      ghost var registration := committed;
      var i := 0;
      while i < |log|
        invariant 0 <= i <= |log|
        invariant Store.Ingest(start, repository, log[..i]) == Success(View())
        invariant committed == registration
      {
        assert log[..i + 1][..i] == log[..i];
        var result := IngestEntry(repository, log[i]);
        if result.Failure? {
          IngestStopsAtFailure(start, repository, log, i + 1);
          return Failure(result.error);
        }
        i := i + 1;
      }
      assert log[..i] == log;
      Commit();
      outcome := Success(());
    }
  }
}
