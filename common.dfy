/** The change-id scheme, the width constants and the three stored records
    (repositories, changes, paths) of vcdb/common.py. */
module Common {
  import opened Wrappers

  /** Number of decimal digits the repository id takes in a change id. */
  const MaxRepositoryIdDigits: nat := 2

  /** Maximum number of characters of a commit id (a native revision). */
  const CommitIdLength: nat := 16

  /** Maximum number of characters of a change id: the padded repository id,
      the separator and the commit id. */
  const ChangeIdLength: nat := 1 + MaxRepositoryIdDigits + CommitIdLength

  /** The errors an ingestion run can end with. The first five are the
      assertions and the VcdbError raised by the code; the last is the
      assertion of repository_for that a uri matches at most one row. */
  datatype Error =
    | RepositoryIdOutOfRange(repositoryId: int)
    | ChangeIdTooLong(changeId: string)
    | UnknownKind(kind: string)
    | UnknownAction(action: string)
    | BasePathWithoutBaseRevision(basePath: string)
    | DuplicateRepository(uri: string)

  function Pow10(n: nat): (r: nat)
    ensures r >= 1
  {
    if n == 0 then 1 else 10 * Pow10(n - 1)
  }

  predicate IsDigit(c: char) {
    '0' <= c <= '9'
  }

  predicate AllDigits(s: string) {
    forall i :: 0 <= i < |s| ==> IsDigit(s[i])
  }

  function DigitChar(d: nat): (c: char)
    requires d < 10
    ensures IsDigit(c) && c as int - '0' as int == d
  {
    ('0' as int + d) as char
  }

  /** The `d` conversion of a `%0*d` format: the last `width` decimal digits
      of `n`, padded on the left with zeros. */
  function ZeroPadded(n: nat, width: nat): (s: string)
    ensures |s| == width
    ensures AllDigits(s)
  {
    if width == 0 then [] else ZeroPadded(n / 10, width - 1) + [DigitChar(n % 10)]
  }

  /** The number a string of decimal digits denotes. */
  function DecimalValue(s: string): nat
    requires AllDigits(s)
  {
    if s == [] then 0
    else 10 * DecimalValue(s[..|s| - 1]) + (s[|s| - 1] as int - '0' as int)
  }

  /** Padding to a width that can hold the number loses nothing. */
  lemma {:induction false} DecimalValueOfZeroPadded(n: nat, width: nat)
    requires n < Pow10(width)
    ensures DecimalValue(ZeroPadded(n, width)) == n
  {
    if width > 0 {
      var s := ZeroPadded(n, width);
      assert s[..|s| - 1] == ZeroPadded(n / 10, width - 1);
      DecimalValueOfZeroPadded(n / 10, width - 1);
    }
  }

  /** change_id_for: the repository id zero-padded to two digits, a dash,
      then the native commit id. Both assertions of the code are error
      results here. */
  function ChangeIdFor(repositoryId: int, commitId: string): (r: Result<string, Error>)
    ensures r.Success? <==> 0 < repositoryId < Pow10(MaxRepositoryIdDigits) && |commitId| <= CommitIdLength
    ensures !(0 < repositoryId < Pow10(MaxRepositoryIdDigits)) ==> r == Failure(RepositoryIdOutOfRange(repositoryId))
    ensures r.Failure? && 0 < repositoryId < Pow10(MaxRepositoryIdDigits) ==> r.error.ChangeIdTooLong?
    ensures r.Success? ==> |r.value| == MaxRepositoryIdDigits + 1 + |commitId| <= ChangeIdLength
    ensures r.Success? ==>
      && AllDigits(r.value[..MaxRepositoryIdDigits])
      && DecimalValue(r.value[..MaxRepositoryIdDigits]) == repositoryId
      && r.value[MaxRepositoryIdDigits] == '-'
      && r.value[MaxRepositoryIdDigits + 1..] == commitId
  {
    if !(0 < repositoryId < Pow10(MaxRepositoryIdDigits)) then
      Failure(RepositoryIdOutOfRange(repositoryId))
    else
      var prefix := ZeroPadded(repositoryId, MaxRepositoryIdDigits);
      var result := prefix + "-" + commitId;
      if |result| <= ChangeIdLength then
        DecimalValueOfZeroPadded(repositoryId, MaxRepositoryIdDigits);
        assert result[..MaxRepositoryIdDigits] == prefix;
        Success(result)
      else
        Failure(ChangeIdTooLong(result))
  }

  /** Splits a change id back into the repository id and the commit id. */
  function ParseChangeId(changeId: string): Option<(int, string)> {
    if |changeId| > MaxRepositoryIdDigits
      && AllDigits(changeId[..MaxRepositoryIdDigits])
      && changeId[MaxRepositoryIdDigits] == '-'
    then Some((DecimalValue(changeId[..MaxRepositoryIdDigits]), changeId[MaxRepositoryIdDigits + 1..]))
    else None
  }

  /** The fixed-width prefix makes every change id decodable. */
  lemma ChangeIdRoundTrip(repositoryId: int, commitId: string)
    requires ChangeIdFor(repositoryId, commitId).Success?
    ensures ParseChangeId(ChangeIdFor(repositoryId, commitId).value) == Some((repositoryId, commitId))
  {
  }

  /** Change ids of different repositories or different revisions differ. */
  lemma ChangeIdInjective(repositoryId1: int, commitId1: string, repositoryId2: int, commitId2: string)
    requires ChangeIdFor(repositoryId1, commitId1).Success?
    requires ChangeIdFor(repositoryId2, commitId2).Success?
    requires (repositoryId1, commitId1) != (repositoryId2, commitId2)
    ensures ChangeIdFor(repositoryId1, commitId1).value != ChangeIdFor(repositoryId2, commitId2).value
  {
    ChangeIdRoundTrip(repositoryId1, commitId1);
    ChangeIdRoundTrip(repositoryId2, commitId2);
  }

  /** Path.kind: `d` for a directory, `f` for a file. */
  datatype PathKind = Directory | File

  /** Path.action: added, copied, deleted, edited, moved. */
  datatype PathAction = Added | Copied | Deleted | Edited | Moved

  /** The letter the paths table stores for a kind. */
  function KindCode(kind: PathKind): (c: char)
    ensures c in "df"
    ensures c == 'd' <==> kind == Directory
  {
    match kind
    case Directory => 'd'
    case File => 'f'
  }

  /** The letter the paths table stores for an action. */
  function ActionCode(action: PathAction): (c: char)
    ensures c in "acdem"
  {
    match action
    case Added => 'a'
    case Copied => 'c'
    case Deleted => 'd'
    case Edited => 'e'
    case Moved => 'm'
  }

  /** Distinct actions are stored as distinct letters. */
  lemma ActionCodeInjective(a1: PathAction, a2: PathAction)
    requires a1 != a2
    ensures ActionCode(a1) != ActionCode(a2)
  {
  }

  /** A row of the repositories table. */
  datatype Repository = Repository(repositoryId: int, uri: string, lastChangeId: Option<string>)

  /** A row of the changes table: one commit. `commitTime` is the timestamp
      text handed to the timestamp parser. */
  datatype Change = Change(
    changeId: string,
    commitId: string,
    author: Option<string>,
    commitMessage: Option<string>,
    commitTime: string,
    repositoryId: int)

  /** A row of the paths table: one path touched by one commit. */
  datatype Path = Path(
    repositoryId: int,
    changeId: string,
    path: string,
    kind: PathKind,
    action: PathAction,
    baseChangeId: Option<string>,
    basePath: Option<string>)

  /** The primary key of the paths table: (change_id, path). */
  type PathKey = (string, string)

  function KeyOf(p: Path): PathKey {
    (p.changeId, p.path)
  }
}
