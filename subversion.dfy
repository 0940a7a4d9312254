/** Normalization of Subversion log entries into Change and Path rows
    (vcdb/subversion.py). The XML log is given as already extracted
    records: one RawLogEntry per `logentry` element, one RawPath per
    `paths/path` element, in document order. */
module Subversion {
  import opened Wrappers
  import opened Common

  /** A `path` element: its text and its `kind`, `action`, `copyfrom-rev`
      and `copyfrom-path` attributes. */
  datatype RawPath = RawPath(
    text: string,
    kind: string,
    action: string,
    copyFromRev: Option<string>,
    copyFromPath: Option<string>)

  /** A `logentry` element: its `revision` attribute, the texts of its
      `author`, `msg` and `date` children (an empty element has no text)
      and its `path` elements. */
  datatype RawLogEntry = RawLogEntry(
    revision: string,
    author: Option<string>,
    msg: Option<string>,
    date: string,
    paths: seq<RawPath>)

  const SubversionKindToPathKind: map<string, PathKind> :=
    map["dir" := Directory, "file" := File]

  /** `M` (modified) and `R` (replaced) are both edits. */
  const SubversionActionToPathAction: map<string, PathAction> :=
    map["A" := Added, "D" := Deleted, "M" := Edited, "R" := Edited]

  /** The native codes the tables know, and what they map to. */
  lemma NativeCodeTables()
    ensures SubversionKindToPathKind.Keys == {"dir", "file"}
    ensures SubversionKindToPathKind["dir"] == Directory && SubversionKindToPathKind["file"] == File
    ensures SubversionActionToPathAction.Keys == {"A", "D", "M", "R"}
    ensures SubversionActionToPathAction["A"] == Added && SubversionActionToPathAction["D"] == Deleted
    ensures SubversionActionToPathAction["M"] == Edited && SubversionActionToPathAction["R"] == Edited
    ensures SubversionActionToPathAction.Values == {Added, Deleted, Edited}
  {
    assert SubversionActionToPathAction["A"] == Added;
    assert SubversionActionToPathAction["D"] == Deleted;
    assert SubversionActionToPathAction["M"] == Edited;
  }

  /** path_from_path_element: the Path row for one `path` element of the
      commit `change`. A `copyfrom-rev` turns the action into a copy whose
      base is that revision of the same repository. */
  function PathFromPathElement(change: Change, element: RawPath): (r: Result<Path, Error>)
    ensures element.kind !in SubversionKindToPathKind ==> r == Failure(UnknownKind(element.kind))
    ensures element.kind in SubversionKindToPathKind && element.action !in SubversionActionToPathAction ==>
      r == Failure(UnknownAction(element.action))
    ensures
      (&& element.kind in SubversionKindToPathKind
       && element.action in SubversionActionToPathAction
       && element.copyFromRev.None? && element.copyFromPath.Some?)
      ==> r == Failure(BasePathWithoutBaseRevision(element.copyFromPath.value))
    ensures
      (&& element.kind in SubversionKindToPathKind
       && element.action in SubversionActionToPathAction
       && element.copyFromRev.Some?
       && ChangeIdFor(change.repositoryId, element.copyFromRev.value).Failure?)
      ==> r == Failure(ChangeIdFor(change.repositoryId, element.copyFromRev.value).error)
    ensures r.Success? <==>
      && element.kind in SubversionKindToPathKind
      && element.action in SubversionActionToPathAction
      && (if element.copyFromRev.Some?
          then ChangeIdFor(change.repositoryId, element.copyFromRev.value).Success?
          else element.copyFromPath.None?)
    ensures r.Success? ==>
      && r.value.path == element.text
      && r.value.changeId == change.changeId
      && r.value.repositoryId == change.repositoryId
      && r.value.kind == SubversionKindToPathKind[element.kind]
      && r.value.action != Moved
      && (r.value.action == Copied <==> element.copyFromRev.Some?)
      && (element.copyFromRev.None? ==> r.value.action == SubversionActionToPathAction[element.action])
      && (r.value.baseChangeId.Some? <==> element.copyFromRev.Some?)
      && (element.copyFromRev.Some? ==>
            r.value.baseChangeId == Some(ChangeIdFor(change.repositoryId, element.copyFromRev.value).value))
      && r.value.basePath == element.copyFromPath
  {
    if element.kind !in SubversionKindToPathKind then
      Failure(UnknownKind(element.kind))
    else if element.action !in SubversionActionToPathAction then
      Failure(UnknownAction(element.action))
    else
      var kind := SubversionKindToPathKind[element.kind];
      var action := SubversionActionToPathAction[element.action];
      assert action != Moved && action != Copied by { NativeCodeTables(); }
      match element.copyFromRev
      case Some(baseCommitId) =>
        var baseChangeId := ChangeIdFor(change.repositoryId, baseCommitId);
        if baseChangeId.Failure? then
          Failure(baseChangeId.error)
        else
          Success(Path(change.repositoryId, change.changeId, element.text, kind, Copied,
                       Some(baseChangeId.value), element.copyFromPath))
      case None =>
        if element.copyFromPath.Some? then
          Failure(BasePathWithoutBaseRevision(element.copyFromPath.value))
        else
          Success(Path(change.repositoryId, change.changeId, element.text, kind, action, None, None))
  }

  /** A `copyfrom-rev` without a `copyfrom-path` is accepted: the copy gets
      a base change but no base path. */
  lemma BaseRevisionWithoutBasePathIsAccepted(change: Change, element: RawPath)
    requires element.kind in SubversionKindToPathKind && element.action in SubversionActionToPathAction
    requires element.copyFromRev.Some? && element.copyFromPath.None?
    requires ChangeIdFor(change.repositoryId, element.copyFromRev.value).Success?
    ensures PathFromPathElement(change, element).Success?
    ensures PathFromPathElement(change, element).value.baseChangeId.Some?
    ensures PathFromPathElement(change, element).value.basePath.None?
  {
  }

  /** The letters `_SUBVERSION_KIND_TO_PATH_KIND_MAP` gives for the native
      kind codes, */
  const SubversionKindLetter: map<string, char> := map["dir" := 'd', "file" := 'f']

  /** and the letters `_SUBVERSION_ACTION_TO_PATH_ACTION_MAP` gives for the
      native action codes. */
  const SubversionActionLetter: map<string, char> := map["A" := 'a', "D" := 'd', "M" := 'e', "R" := 'e']

  /** A stored row carries the letters those two tables give for the
      element's native codes; a copy is stored as `c` whatever its native
      action. */
  lemma PathRowStoresTableLetters(change: Change, element: RawPath)
    requires PathFromPathElement(change, element).Success?
    ensures element.kind in SubversionKindLetter && element.action in SubversionActionLetter
    ensures KindCode(PathFromPathElement(change, element).value.kind) == SubversionKindLetter[element.kind]
    ensures ActionCode(PathFromPathElement(change, element).value.action)
            == if element.copyFromRev.Some? then 'c' else SubversionActionLetter[element.action]
  {
    NativeCodeTables();
  }

  /** The timestamp text minus its last character (the trailing `Z`);
      the empty text stays empty. */
  function WithoutLastCharacter(text: string): (r: string)
    ensures |text| > 0 ==> text == r + [text[|text| - 1]]
    ensures |text| == 0 ==> r == []
  {
    if |text| == 0 then text else text[..|text| - 1]
  }

  /** change_from_logentry_element: the Change row for one `logentry`
      element of `repository`. */
  function ChangeFromLogEntry(repository: Repository, entry: RawLogEntry): (r: Result<Change, Error>)
    ensures r.Success? <==> ChangeIdFor(repository.repositoryId, entry.revision).Success?
    ensures r.Failure? ==> r.error == ChangeIdFor(repository.repositoryId, entry.revision).error
    ensures r.Success? ==>
      && r.value.changeId == ChangeIdFor(repository.repositoryId, entry.revision).value
      && r.value.commitId == entry.revision
      && r.value.author == entry.author
      && r.value.commitMessage == entry.msg
      && r.value.repositoryId == repository.repositoryId
      && r.value.commitTime == WithoutLastCharacter(entry.date)
  {
    var commitTimeText := WithoutLastCharacter(entry.date);
    var changeId :- ChangeIdFor(repository.repositoryId, entry.revision);
    Success(Change(changeId, entry.revision, entry.author, entry.msg, commitTimeText, repository.repositoryId))
  }

  /** The Path rows of all `path` elements of a log entry, in document
      order; the first element that cannot be normalized ends the run with
      its error. */
  function NormalizePaths(change: Change, elements: seq<RawPath>): (r: Result<seq<Path>, Error>)
    ensures r.Success? <==> forall i :: 0 <= i < |elements| ==> PathFromPathElement(change, elements[i]).Success?
    ensures r.Success? ==>
      && |r.value| == |elements|
      && forall i :: 0 <= i < |elements| ==> r.value[i] == PathFromPathElement(change, elements[i]).value
    ensures r.Failure? ==>
      exists i :: 0 <= i < |elements|
        && PathFromPathElement(change, elements[i]) == Failure(r.error)
        && forall j :: 0 <= j < i ==> PathFromPathElement(change, elements[j]).Success?
  {
    if elements == [] then
      Success([])
    else
      var last := |elements| - 1;
      match NormalizePaths(change, elements[..last])
      case Failure(e) => Failure(e)
      case Success(paths) =>
        match PathFromPathElement(change, elements[last])
        case Failure(e) => Failure(e)
        case Success(p) => Success(paths + [p])
  }

  /** Once a prefix of the elements fails, normalizing all of them fails
      with the same error: later elements are never looked at. */
  lemma {:induction false} NormalizePathsStopsAtFailure(change: Change, elements: seq<RawPath>, n: nat)
    requires n <= |elements| && NormalizePaths(change, elements[..n]).Failure?
    ensures NormalizePaths(change, elements) == NormalizePaths(change, elements[..n])
    decreases |elements|
  {
    if n < |elements| {
      assert elements[..|elements| - 1][..n] == elements[..n];
      NormalizePathsStopsAtFailure(change, elements[..|elements| - 1], n);
    } else {
      assert elements[..n] == elements;
    }
  }

  /** The first element that cannot be normalized decides the error of
      the whole entry. */
  lemma NormalizePathsFailsAt(change: Change, elements: seq<RawPath>, n: nat)
    requires n < |elements|
    requires NormalizePaths(change, elements[..n]).Success?
    requires PathFromPathElement(change, elements[n]).Failure?
    ensures NormalizePaths(change, elements) == Failure(PathFromPathElement(change, elements[n]).error)
  {
    assert elements[..n + 1][..n] == elements[..n];
    assert elements[..n + 1][n] == elements[n];
    NormalizePathsStopsAtFailure(change, elements, n + 1);
  }

  /** Normalizing one more element appends its row. */
  lemma NormalizePathsStep(change: Change, elements: seq<RawPath>, n: nat)
    requires n < |elements|
    requires NormalizePaths(change, elements[..n]).Success?
    requires PathFromPathElement(change, elements[n]).Success?
    ensures NormalizePaths(change, elements[..n + 1])
            == Success(NormalizePaths(change, elements[..n]).value + [PathFromPathElement(change, elements[n]).value])
  {
    assert elements[..n + 1][..n] == elements[..n];
    assert elements[..n + 1][n] == elements[n];
  }
}
