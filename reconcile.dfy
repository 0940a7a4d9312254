/** Move reconciliation (vcdb/subversion.py, the loop over copied paths in
    update_repository): after the rows of one change are merged, every
    copied row of that change whose base path is a deleted row of the same
    change drops that deleted row and becomes a move. */
module MoveReconciliation {
  import opened Wrappers
  import opened Common
  import opened KeyOrder

  /** The keys of the copied rows of one change: the rows the query
      `action == 'c'` of the reconciliation returns. */
  function CopiedKeys(paths: map<PathKey, Path>, changeId: string): set<PathKey> {
    set k | k in paths && k.0 == changeId && paths[k].action == Copied
  }

  /** The change has a deleted row at `basePath`. A copy without a base
      path has none: no row has a NULL path. */
  predicate HasDeletedSource(paths: map<PathKey, Path>, changeId: string, basePath: Option<string>) {
    && basePath.Some?
    && (changeId, basePath.value) in paths
    && paths[(changeId, basePath.value)].action == Deleted
  }

  /** The rows the DELETE query of one examination matches. Because the
      paths table is keyed by (change_id, path) there is at most one. */
  function DeletedSourceKeys(paths: map<PathKey, Path>, changeId: string, basePath: Option<string>): (keys: set<PathKey>)
    ensures keys == if HasDeletedSource(paths, changeId, basePath) then {(changeId, basePath.value)} else {}
    ensures |keys| <= 1
  {
    var keys := set k | k in paths && k.0 == changeId && paths[k].action == Deleted && Some(k.1) == basePath;
    if HasDeletedSource(paths, changeId, basePath) then
      assert keys == {(changeId, basePath.value)};
      keys
    else
      keys
  }

  /** One iteration of the reconciliation loop for the copied row at
      `copyKey`: its deleted source, if any, is removed and the copy becomes
      a move. */
  function ExamineCopy(paths: map<PathKey, Path>, copyKey: PathKey): map<PathKey, Path>
    requires copyKey in paths
  {
    var copy := paths[copyKey];
    if HasDeletedSource(paths, copyKey.0, copy.basePath) then
      (paths - {(copyKey.0, copy.basePath.value)})[copyKey := copy.(action := Moved)]
    else
      paths
  }

  /** Every key still to examine names a copied row. */
  ghost predicate Pending(paths: map<PathKey, Path>, todo: set<PathKey>) {
    forall k :: k in todo ==> k in paths && paths[k].action == Copied
  }

  /** The reconciliation loop over the copied rows in `todo`, first key
      first. */
  ghost function ReconcileFrom(paths: map<PathKey, Path>, todo: set<PathKey>): map<PathKey, Path>
    requires Pending(paths, todo)
    decreases todo
  {
    if todo == {} then
      paths
    else
      var k := First(todo);
      ReconcileFrom(ExamineCopy(paths, k), todo - {k})
  }

  /** Reconciliation of the change `changeId`: the copied rows listed once,
      before the loop, then examined one by one. */
  ghost function Reconcile(paths: map<PathKey, Path>, changeId: string): map<PathKey, Path> {
    ReconcileFrom(paths, CopiedKeys(paths, changeId))
  }

  // ---------------------------------------------------------------------
  // What the loop maintains, relating the rows `before` the reconciliation
  // to the rows `now`.

  /** Copies of the change turned into moves: the rows the loop assigned `m`. */
  ghost function MovedKeys(before: map<PathKey, Path>, now: map<PathKey, Path>): set<PathKey> {
    set k | k in now && k in before && before[k].action == Copied && now[k].action == Moved
  }

  /** Rows the loop deleted. */
  ghost function RemovedKeys(before: map<PathKey, Path>, now: map<PathKey, Path>): set<PathKey> {
    before.Keys - now.Keys
  }

  /** Only deleted rows of the change are removed, and only copies of the
      change change, and then only their action, to a move. */
  ghost predicate Evolved(before: map<PathKey, Path>, now: map<PathKey, Path>, changeId: string) {
    && now.Keys <= before.Keys
    && (forall k :: k in before && k !in now ==> k.0 == changeId && before[k].action == Deleted)
    && (forall k :: k in now ==>
          now[k] == before[k]
          || (k.0 == changeId && before[k].action == Copied && now[k] == before[k].(action := Moved)))
  }

  /** Every move had a deleted source, which is gone; every removed row was
      the source of a move; as many rows were removed as copies moved. */
  ghost predicate Matched(before: map<PathKey, Path>, now: map<PathKey, Path>, changeId: string) {
    && (forall k :: k in MovedKeys(before, now) ==>
          && HasDeletedSource(before, changeId, before[k].basePath)
          && (changeId, before[k].basePath.value) !in now)
    && (forall d :: d in RemovedKeys(before, now) ==>
          exists k :: k in MovedKeys(before, now) && before[k].basePath == Some(d.1))
    && |MovedKeys(before, now)| == |RemovedKeys(before, now)|
  }

  /** A copy of the change already examined, and still a copy, has no
      deleted source. */
  ghost predicate Settled(now: map<PathKey, Path>, changeId: string, todo: set<PathKey>) {
    forall k :: k in now && k.0 == changeId && now[k].action == Copied && k !in todo ==>
      !HasDeletedSource(now, changeId, now[k].basePath)
  }

  ghost predicate LoopInvariant(before: map<PathKey, Path>, now: map<PathKey, Path>, changeId: string, todo: set<PathKey>) {
    && Pending(now, todo)
    && (forall k :: k in todo ==> k.0 == changeId)
    && Evolved(before, now, changeId)
    && Matched(before, now, changeId)
    && Settled(now, changeId, todo)
  }

  lemma InvariantHoldsInitially(paths: map<PathKey, Path>, changeId: string)
    ensures LoopInvariant(paths, paths, changeId, CopiedKeys(paths, changeId))
  {
    assert MovedKeys(paths, paths) == {};
    assert RemovedKeys(paths, paths) == {};
  }

  /** The rows after examining a copy with a deleted source. */
  lemma ExamineCopyMatchedRows(before: map<PathKey, Path>, now: map<PathKey, Path>, changeId: string, todo: set<PathKey>, k: PathKey)
    requires LoopInvariant(before, now, changeId, todo)
    requires k in todo && HasDeletedSource(now, changeId, now[k].basePath)
    ensures var dk := (changeId, now[k].basePath.value);
      && dk != k && dk in now && now[dk] == before[dk] && before[dk].action == Deleted
      && now[k] == before[k]
      && ExamineCopy(now, k) == (now - {dk})[k := before[k].(action := Moved)]
  {
  }

  lemma ExamineCopyMatchedEvolved(before: map<PathKey, Path>, now: map<PathKey, Path>, changeId: string, todo: set<PathKey>, k: PathKey)
    requires LoopInvariant(before, now, changeId, todo)
    requires k in todo && HasDeletedSource(now, changeId, now[k].basePath)
    ensures Pending(ExamineCopy(now, k), todo - {k})
    ensures Evolved(before, ExamineCopy(now, k), changeId)
    ensures Settled(ExamineCopy(now, k), changeId, todo - {k})
  {
    ExamineCopyMatchedRows(before, now, changeId, todo, k);
    var next := ExamineCopy(now, k);
    forall j | j in next && j.0 == changeId && next[j].action == Copied && j !in todo - {k}
      ensures !HasDeletedSource(next, changeId, next[j].basePath)
    {
      assert j != k && next[j] == now[j];
    }
  }

  /** Examining a copy with a deleted source adds it to the moves, */
  lemma ExamineCopyMatchedMovedKeys(before: map<PathKey, Path>, now: map<PathKey, Path>, changeId: string, todo: set<PathKey>, k: PathKey)
    requires LoopInvariant(before, now, changeId, todo)
    requires k in todo && HasDeletedSource(now, changeId, now[k].basePath)
    ensures MovedKeys(before, ExamineCopy(now, k)) == MovedKeys(before, now) + {k}
    ensures k !in MovedKeys(before, now)
  {
    ExamineCopyMatchedRows(before, now, changeId, todo, k);
  }

  /** Removing one more row `dk` while rewriting the row at `k` adds `dk`
      to the removed rows, */
  lemma RemovedOneMoreKey(before: map<PathKey, Path>, now: map<PathKey, Path>, next: map<PathKey, Path>,
                          k: PathKey, dk: PathKey, row: Path)
    requires now.Keys <= before.Keys && k in now && dk in now && dk != k
    requires next == (now - {dk})[k := row]
    ensures RemovedKeys(before, next) == RemovedKeys(before, now) + {dk}
    ensures dk !in RemovedKeys(before, now)
  {
    assert next.Keys == now.Keys - {dk};
  }

  /** so examining a copy with a deleted source adds that source to the
      removed rows. */
  lemma ExamineCopyMatchedRemovedKeys(before: map<PathKey, Path>, now: map<PathKey, Path>, changeId: string, todo: set<PathKey>, k: PathKey)
    requires LoopInvariant(before, now, changeId, todo)
    requires k in todo && HasDeletedSource(now, changeId, now[k].basePath)
    ensures var dk := (changeId, now[k].basePath.value);
      && RemovedKeys(before, ExamineCopy(now, k)) == RemovedKeys(before, now) + {dk}
      && dk !in RemovedKeys(before, now)
  {
    ExamineCopyMatchedRows(before, now, changeId, todo, k);
    var dk := (changeId, now[k].basePath.value);
    RemovedOneMoreKey(before, now, ExamineCopy(now, k), k, dk, before[k].(action := Moved));
  }

  lemma ExamineCopyMatchedMoves(before: map<PathKey, Path>, now: map<PathKey, Path>, changeId: string, todo: set<PathKey>, k: PathKey)
    requires LoopInvariant(before, now, changeId, todo)
    requires k in todo && HasDeletedSource(now, changeId, now[k].basePath)
    ensures var next := ExamineCopy(now, k);
      forall j :: j in MovedKeys(before, next) ==>
        && HasDeletedSource(before, changeId, before[j].basePath)
        && (changeId, before[j].basePath.value) !in next
  {
    var next := ExamineCopy(now, k);
    ExamineCopyMatchedRows(before, now, changeId, todo, k);
    ExamineCopyMatchedMovedKeys(before, now, changeId, todo, k);
    forall j | j in MovedKeys(before, next)
      ensures HasDeletedSource(before, changeId, before[j].basePath)
      ensures (changeId, before[j].basePath.value) !in next
    {
      if j != k {
        assert j in MovedKeys(before, now);
      }
    }
  }

  /** Every removed row stays the source of some move when one more copy
      becomes a move from one more removed row. */
  lemma RemovalsStayMatched(before: map<PathKey, Path>, now: map<PathKey, Path>, next: map<PathKey, Path>, k: PathKey, dk: PathKey)
    requires MovedKeys(before, next) == MovedKeys(before, now) + {k}
    requires RemovedKeys(before, next) == RemovedKeys(before, now) + {dk}
    requires k in before && before[k].basePath == Some(dk.1)
    requires forall d :: d in RemovedKeys(before, now) ==>
      exists j :: j in MovedKeys(before, now) && before[j].basePath == Some(d.1)
    ensures forall d :: d in RemovedKeys(before, next) ==>
      exists j :: j in MovedKeys(before, next) && before[j].basePath == Some(d.1)
  {
    forall d | d in RemovedKeys(before, next)
      ensures exists j :: j in MovedKeys(before, next) && before[j].basePath == Some(d.1)
    {
      if d == dk {
        assert k in MovedKeys(before, next) && before[k].basePath == Some(d.1);
      } else {
        var j :| j in MovedKeys(before, now) && before[j].basePath == Some(d.1);
        assert j in MovedKeys(before, next);
      }
    }
  }

  lemma ExamineCopyMatched(before: map<PathKey, Path>, now: map<PathKey, Path>, changeId: string, todo: set<PathKey>, k: PathKey)
    requires LoopInvariant(before, now, changeId, todo)
    requires k in todo && HasDeletedSource(now, changeId, now[k].basePath)
    ensures LoopInvariant(before, ExamineCopy(now, k), changeId, todo - {k})
  {
    ExamineCopyMatchedEvolved(before, now, changeId, todo, k);
    ExamineCopyMatchedMovedKeys(before, now, changeId, todo, k);
    ExamineCopyMatchedRemovedKeys(before, now, changeId, todo, k);
    ExamineCopyMatchedMoves(before, now, changeId, todo, k);
    ExamineCopyMatchedRows(before, now, changeId, todo, k);
    RemovalsStayMatched(before, now, ExamineCopy(now, k), k, (changeId, now[k].basePath.value));
  }

  lemma ExamineCopyUnmatched(before: map<PathKey, Path>, now: map<PathKey, Path>, changeId: string, todo: set<PathKey>, k: PathKey)
    requires LoopInvariant(before, now, changeId, todo)
    requires k in todo && !HasDeletedSource(now, changeId, now[k].basePath)
    ensures LoopInvariant(before, ExamineCopy(now, k), changeId, todo - {k})
  {
  }

  lemma {:induction false} ReconcileFromKeepsInvariant(before: map<PathKey, Path>, now: map<PathKey, Path>, changeId: string, todo: set<PathKey>)
    requires LoopInvariant(before, now, changeId, todo)
    ensures LoopInvariant(before, ReconcileFrom(now, todo), changeId, {})
    decreases todo
  {
    if todo != {} {
      var k := First(todo);
      if HasDeletedSource(now, changeId, now[k].basePath) {
        ExamineCopyMatched(before, now, changeId, todo, k);
      } else {
        ExamineCopyUnmatched(before, now, changeId, todo, k);
      }
      ReconcileFromKeepsInvariant(before, ExamineCopy(now, k), changeId, todo - {k});
    }
  }

  lemma ReconcileInvariant(paths: map<PathKey, Path>, changeId: string)
    ensures LoopInvariant(paths, Reconcile(paths, changeId), changeId, {})
  {
    InvariantHoldsInitially(paths, changeId);
    ReconcileFromKeepsInvariant(paths, paths, changeId, CopiedKeys(paths, changeId));
  }

  // ---------------------------------------------------------------------
  // Properties of one reconciliation.

  /** Nothing but copies and deletions of the change is touched: rows of
      other changes and added, edited or already moved rows stay as they
      are; a row only disappears if it is a deletion of the change; a row
      only changes if it is a copy of the change, and then only its action,
      to a move. */
  lemma ReconcileTouchesOnlyCopiesAndDeletions(paths: map<PathKey, Path>, changeId: string)
    ensures var result := Reconcile(paths, changeId);
      && result.Keys <= paths.Keys
      && (forall k :: k in paths && k.0 != changeId ==> k in result && result[k] == paths[k])
      && (forall k :: k in paths && paths[k].action !in {Copied, Deleted} ==> k in result && result[k] == paths[k])
      && (forall k :: k in paths && k !in result ==> k.0 == changeId && paths[k].action == Deleted)
      && (forall k :: k in result ==>
            result[k] == paths[k]
            || (k.0 == changeId && paths[k].action == Copied && result[k] == paths[k].(action := Moved)))
  {
    ReconcileInvariant(paths, changeId);
  }

  /** Each copy turned into a move had a deleted source in the change, and
      that row is gone; each removed row was the source of such a move; and
      the number of moves equals the number of removed rows. */
  lemma ReconcileMovesMatchRemovals(paths: map<PathKey, Path>, changeId: string)
    ensures var result := Reconcile(paths, changeId);
      && (forall k :: k in MovedKeys(paths, result) ==>
            && HasDeletedSource(paths, changeId, paths[k].basePath)
            && (changeId, paths[k].basePath.value) !in result)
      && (forall d :: d in RemovedKeys(paths, result) ==>
            exists k :: k in MovedKeys(paths, result) && paths[k].basePath == Some(d.1))
      && |MovedKeys(paths, result)| == |RemovedKeys(paths, result)|
  {
    ReconcileInvariant(paths, changeId);
  }

  /** No copy of the change is left whose base path is a deleted row of
      the change. */
  lemma ReconcileIsComplete(paths: map<PathKey, Path>, changeId: string)
    ensures var result := Reconcile(paths, changeId);
      forall k :: k in result && k.0 == changeId && result[k].action == Copied ==>
        !HasDeletedSource(result, changeId, result[k].basePath)
  {
    ReconcileInvariant(paths, changeId);
  }

  /** No two copies of the change share one deleted source. */
  ghost predicate Unambiguous(paths: map<PathKey, Path>, changeId: string) {
    forall k1, k2 ::
      k1 in CopiedKeys(paths, changeId) && k2 in CopiedKeys(paths, changeId) && k1 != k2
      && HasDeletedSource(paths, changeId, paths[k1].basePath)
      ==> paths[k1].basePath != paths[k2].basePath
  }

  /** At the end of the loop, a copy of the change that is still a copy
      but had a deleted source lost that source to another copy, now a
      move from the same base path. */
  lemma SourceTakenByAnotherCopy(before: map<PathKey, Path>, now: map<PathKey, Path>, changeId: string, k: PathKey)
    requires LoopInvariant(before, now, changeId, {})
    requires k in before && k.0 == changeId && before[k].action == Copied
    ensures k in now
    ensures now[k] == before[k] && HasDeletedSource(before, changeId, before[k].basePath) ==>
      exists j :: j in MovedKeys(before, now) && j != k && before[j].basePath == before[k].basePath
  {
    if now[k] == before[k] && HasDeletedSource(before, changeId, before[k].basePath) {
      var d := (changeId, before[k].basePath.value);
      assert d !in now;
      assert d in RemovedKeys(before, now);
      var j :| j in MovedKeys(before, now) && before[j].basePath == Some(d.1);
      assert j != k;
    }
  }

  /** At the end of the loop, without shared sources: a copy of the change
      is a move exactly when it had a deleted source. */
  lemma UnambiguousCopy(before: map<PathKey, Path>, now: map<PathKey, Path>, changeId: string, k: PathKey)
    requires LoopInvariant(before, now, changeId, {}) && Unambiguous(before, changeId)
    requires k in before && k.0 == changeId && before[k].action == Copied
    ensures k in now
    ensures now[k] == if HasDeletedSource(before, changeId, before[k].basePath)
                      then before[k].(action := Moved) else before[k]
  {
    SourceTakenByAnotherCopy(before, now, changeId, k);
    if now[k] != before[k] {
      assert k in MovedKeys(before, now);
    } else if HasDeletedSource(before, changeId, before[k].basePath) {
      assert false;
    }
  }

  /** At the end of the loop, without shared sources: a deletion of the
      change is gone exactly when some copy of the change names it. */
  lemma UnambiguousDeletion(before: map<PathKey, Path>, now: map<PathKey, Path>, changeId: string, d: PathKey)
    requires LoopInvariant(before, now, changeId, {}) && Unambiguous(before, changeId)
    requires d in before && d.0 == changeId && before[d].action == Deleted
    ensures d !in now <==> exists k :: k in CopiedKeys(before, changeId) && before[k].basePath == Some(d.1)
  {
    if d !in now {
      assert d in RemovedKeys(before, now);
      var j :| j in MovedKeys(before, now) && before[j].basePath == Some(d.1);
      assert j in CopiedKeys(before, changeId);
    }
    if exists k :: k in CopiedKeys(before, changeId) && before[k].basePath == Some(d.1) {
      var k :| k in CopiedKeys(before, changeId) && before[k].basePath == Some(d.1);
      assert d == (changeId, d.1);
      UnambiguousCopy(before, now, changeId, k);
      assert k in MovedKeys(before, now);
    }
  }

  /** When no two copies share a deleted source, the outcome does not
      depend on the order of examination: a copy becomes a move exactly
      when its base path is a deleted row of the change, and a deleted row
      disappears exactly when some copy of the change names it as its base
      path. */
  lemma ReconcileUnambiguous(paths: map<PathKey, Path>, changeId: string)
    requires Unambiguous(paths, changeId)
    ensures var result := Reconcile(paths, changeId);
      && (forall k :: k in paths && k.0 == changeId && paths[k].action == Copied ==>
            && k in result
            && result[k] == if HasDeletedSource(paths, changeId, paths[k].basePath)
                            then paths[k].(action := Moved) else paths[k])
      && (forall d :: d in paths && d.0 == changeId && paths[d].action == Deleted ==>
            (d !in result <==>
               exists k :: k in CopiedKeys(paths, changeId) && paths[k].basePath == Some(d.1)))
  {
    var result := Reconcile(paths, changeId);
    ReconcileInvariant(paths, changeId);
    forall k | k in paths && k.0 == changeId && paths[k].action == Copied
      ensures k in result
      ensures result[k] == if HasDeletedSource(paths, changeId, paths[k].basePath)
                           then paths[k].(action := Moved) else paths[k]
    {
      UnambiguousCopy(paths, result, changeId, k);
    }
    forall d | d in paths && d.0 == changeId && paths[d].action == Deleted
      ensures d !in result <==> exists k :: k in CopiedKeys(paths, changeId) && paths[k].basePath == Some(d.1)
    {
      UnambiguousDeletion(paths, result, changeId, d);
    }
  }

  lemma {:induction false} ReconcileFromSettled(paths: map<PathKey, Path>, changeId: string, todo: set<PathKey>)
    requires Pending(paths, todo) && (forall k :: k in todo ==> k.0 == changeId)
    requires Settled(paths, changeId, {})
    ensures ReconcileFrom(paths, todo) == paths
    decreases todo
  {
    if todo != {} {
      var k := First(todo);
      assert ExamineCopy(paths, k) == paths;
      ReconcileFromSettled(paths, changeId, todo - {k});
    }
  }

  /** When no copy of the change has a deleted source in the change,
      reconciliation changes nothing. */
  lemma ReconcileWithoutSourcesChangesNothing(paths: map<PathKey, Path>, changeId: string)
    requires forall k :: k in paths && k.0 == changeId && paths[k].action == Copied ==>
      !HasDeletedSource(paths, changeId, paths[k].basePath)
    ensures Reconcile(paths, changeId) == paths
  {
    ReconcileFromSettled(paths, changeId, CopiedKeys(paths, changeId));
  }

  /** Reconciling a change a second time changes nothing. */
  lemma ReconcileIdempotent(paths: map<PathKey, Path>, changeId: string)
    ensures Reconcile(Reconcile(paths, changeId), changeId) == Reconcile(paths, changeId)
  {
    var result := Reconcile(paths, changeId);
    ReconcileInvariant(paths, changeId);
    ReconcileFromSettled(result, changeId, CopiedKeys(result, changeId));
  }

  // ---------------------------------------------------------------------
  // Locality: the reconciliation of a change reads and writes only the rows
  // of that change.

  /** The rows of one change. */
  function RowsOf(paths: map<PathKey, Path>, changeId: string): map<PathKey, Path> {
    map k | k in paths && k.0 == changeId :: paths[k]
  }

  /** The rows of all other changes. */
  function Others(paths: map<PathKey, Path>, changeId: string): map<PathKey, Path> {
    map k | k in paths && k.0 != changeId :: paths[k]
  }

  lemma SplitByChange(paths: map<PathKey, Path>, changeId: string)
    ensures paths == Others(paths, changeId) + RowsOf(paths, changeId)
  {
  }

  lemma ExamineCopyIsLocal(paths: map<PathKey, Path>, k: PathKey)
    requires k in paths
    ensures ExamineCopy(paths, k) == Others(paths, k.0) + ExamineCopy(RowsOf(paths, k.0), k)
    ensures Others(ExamineCopy(paths, k), k.0) == Others(paths, k.0)
    ensures RowsOf(ExamineCopy(paths, k), k.0) == ExamineCopy(RowsOf(paths, k.0), k)
  {
  }

  lemma {:induction false} ReconcileFromIsLocal(paths: map<PathKey, Path>, changeId: string, todo: set<PathKey>)
    requires Pending(paths, todo) && (forall k :: k in todo ==> k.0 == changeId)
    ensures Pending(RowsOf(paths, changeId), todo)
    ensures ReconcileFrom(paths, todo) == Others(paths, changeId) + ReconcileFrom(RowsOf(paths, changeId), todo)
    decreases todo
  {
    if todo == {} {
      SplitByChange(paths, changeId);
    } else {
      var k := First(todo);
      var next := ExamineCopy(paths, k);
      ExamineCopyIsLocal(paths, k);
      ReconcileFromIsLocal(next, changeId, todo - {k});
    }
  }

  /** The reconciliation of a change leaves the rows of other changes as
      they are, and its effect on the change's own rows depends only on
      those rows. */
  lemma ReconcileIsLocal(paths: map<PathKey, Path>, changeId: string)
    ensures Reconcile(paths, changeId) == Others(paths, changeId) + Reconcile(RowsOf(paths, changeId), changeId)
  {
    assert CopiedKeys(RowsOf(paths, changeId), changeId) == CopiedKeys(paths, changeId);
    ReconcileFromIsLocal(paths, changeId, CopiedKeys(paths, changeId));
  }
}
