/**
 * The business layer (internal/biz): the records exchanged between the
 * services and the repositories, and the use cases, which pass arguments to
 * a repository unchanged and map what it answers: repository failures become
 * `Internal` errors, a missing account becomes `AccountNotExist`, and the
 * activity list is indexed by activity code.
 *
 * The use cases are modelled as functions of the repository's answer; the
 * service methods call the repository and then apply them.
 */
module Biz {
  import opened Base

  datatype AccountRequest = AccountRequest(
    accountId: string, email: string, name: string, provider: string,
    avatarUrl: string, solanaAddr: string, state: int, claimCount: int)

  datatype AccountResponse = AccountResponse(
    accountId: string, integral: int, received: int, email: string, name: string,
    provider: string, avatarUrl: string, solanaAddr: string, claimCount: int)

  datatype ActivityLogRequest = ActivityLogRequest(
    accountId: string, activityCode: int, activityName: string, integral: int)

  /** `createAt` is a timestamp (nanoseconds since an epoch). */
  datatype ActivityLogResponse = ActivityLogResponse(
    accountId: string, activityCode: int, activityName: string, integral: int, createAt: int)

  datatype ActivityResponse = ActivityResponse(
    activityCode: int, activityName: string, integral: int, limit: int)

  /** The provider `AccountUsecase.QueryAccount` looks up with: when neither an
      email nor a provider is given, the account is a wallet account. */
  const BlockchainProvider: string := "Blockchain"

  function LookupProvider(email: string, provider: string): (p: string)
    ensures email == "" && provider == "" ==> p == BlockchainProvider
    ensures email != "" || provider != "" ==> p == provider
  {
    if email == "" && provider == "" then BlockchainProvider else provider
  }

  /** The mapping of every pass-through use case (SaveAccount, UpdateClaimPoints,
      UpdateAccountIntegral, UpdateAddr, AddActivityLog, ConsumeActivityLimit):
      a repository failure is reported as `Internal` with the same cause, and
      success stays success. */
  function Wrapped(err: Option<RepoError>): (r: Option<Error>)
    ensures r.None? <==> err.None?
    ensures err.Some? ==> r == Some(Internal(err.value))
  {
    match err
    case None => None
    case Some(e) => Some(Internal(e))
  }

  /** `AccountUsecase.QueryAccount` after the repository answered: a failure is
      `Internal`, a missing account is `AccountNotExist`, a found account is
      returned unchanged. */
  function AccountLookup(res: Result<Option<AccountResponse>, RepoError>): (r: Result<AccountResponse, Error>)
    ensures res.Err? ==> r == Err(Internal(res.error))
    ensures res == Ok(None) ==> r == Err(AccountNotExist)
    ensures r.Ok? <==> res.Ok? && res.value.Some?
    ensures r.Ok? ==> r.value == res.value.value
  {
    match res
    case Err(e) => Err(Internal(e))
    case Ok(None) => Err(AccountNotExist)
    case Ok(Some(a)) => Ok(a)
  }

  /** `AccountUsecase.QueryAccounts` after the repository answered. */
  function AccountsResult(res: Result<seq<AccountResponse>, RepoError>): (r: Result<seq<AccountResponse>, Error>)
    ensures r.Ok? <==> res.Ok?
    ensures res.Ok? ==> r.value == res.value
    ensures res.Err? ==> r.error == Internal(res.error)
  {
    match res
    case Err(e) => Err(Internal(e))
    case Ok(list) => Ok(list)
  }

  /** `ActivityUsecase.QueryActivityExpend`: on failure the count is 0 next to
      the wrapped error. */
  function ExpendResult(n: int, err: Option<RepoError>): (r: (int, Option<Error>))
    ensures err.Some? ==> r == (0, Some(Internal(err.value)))
    ensures err.None? ==> r == (n, None)
  {
    if err.Some? then (0, Some(Internal(err.value))) else (n, None)
  }

  /** `ActivityUsecase.QueryActivityLog`: on failure the list is nil but the
      repository's count is still returned. */
  function LogsResult(logs: seq<ActivityLogResponse>, count: int, err: Option<RepoError>)
    : (r: (seq<ActivityLogResponse>, int, Option<Error>))
    ensures r.1 == count
    ensures err.Some? ==> r.0 == [] && r.2 == Some(Internal(err.value))
    ensures err.None? ==> r.0 == logs && r.2 == None
  {
    if err.Some? then ([], count, Some(Internal(err.value))) else (logs, count, None)
  }

  /** The activity catalog indexed by code: the keys are exactly the codes in
      `acts`, and each key maps to the LAST entry carrying that code. */
  ghost predicate IndexedByCode(acts: seq<ActivityResponse>, m: map<int, ActivityResponse>)
  {
    && (forall i :: 0 <= i < |acts| ==> acts[i].activityCode in m)
    && (forall k :: k in m ==>
          exists i :: 0 <= i < |acts| && acts[i].activityCode == k && m[k] == acts[i]
                      && forall j :: i < j < |acts| ==> acts[j].activityCode != k)
  }

  /** The index of a list is determined by the list alone. */
  lemma IndexedByCodeDeterministic(acts: seq<ActivityResponse>, m1: map<int, ActivityResponse>, m2: map<int, ActivityResponse>)
    requires IndexedByCode(acts, m1) && IndexedByCode(acts, m2)
    ensures m1 == m2
  {
    forall k | k in m1 ensures k in m2 && m2[k] == m1[k] {
      var i :| 0 <= i < |acts| && acts[i].activityCode == k && m1[k] == acts[i]
               && forall j :: i < j < |acts| ==> acts[j].activityCode != k;
      var i' :| 0 <= i' < |acts| && acts[i'].activityCode == k && m2[k] == acts[i']
               && forall j :: i' < j < |acts| ==> acts[j].activityCode != k;
      assert i == i';
    }
    forall k | k in m2 ensures k in m1 {
      var i :| 0 <= i < |acts| && acts[i].activityCode == k && m2[k] == acts[i];
    }
  }

  /** Indexing one more entry: its code now maps to it. */
  lemma IndexedByCodeStep(acts: seq<ActivityResponse>, i: nat, m: map<int, ActivityResponse>)
    requires i < |acts| && IndexedByCode(acts[..i], m)
    ensures IndexedByCode(acts[..i + 1], m[acts[i].activityCode := acts[i]])
  {
    var a := acts[i];
    var m' := m[a.activityCode := a];
    var pre, pre' := acts[..i], acts[..i + 1];
    assert pre' == pre + [a];
    forall k | k in m'
      ensures exists j :: 0 <= j < |pre'| && pre'[j].activityCode == k && m'[k] == pre'[j]
                          && forall l :: j < l < |pre'| ==> pre'[l].activityCode != k
    {
      if k == a.activityCode {
        assert pre'[i] == a;
      } else {
        var j :| 0 <= j < |pre| && pre[j].activityCode == k && m[k] == pre[j]
                 && forall l :: j < l < |pre| ==> pre[l].activityCode != k;
        assert pre'[j] == pre[j];
      }
    }
  }

  /** `ActivityUsecase.QueryActivity`: index the repository's list by
      `ActivityCode`, a later duplicate overwriting an earlier one; a
      repository failure gives `Internal` and no map. */
  method QueryActivity(res: Result<seq<ActivityResponse>, RepoError>)
    returns (r: Result<map<int, ActivityResponse>, Error>)
    ensures res.Err? ==> r == Err(Internal(res.error))
    ensures res.Ok? ==> r.Ok? && IndexedByCode(res.value, r.value)
    ensures res.Ok? ==> |r.value| <= |res.value|
    ensures r.Ok? ==> forall k :: k in r.value ==> r.value[k].activityCode == k
  {
    if res.Err? {
      return Err(Internal(res.error));
    }
    var acts := res.value;
    var m: map<int, ActivityResponse> := map[];
    var i := 0;
    while i < |acts|
      invariant 0 <= i <= |acts|
      invariant |m| <= i
      invariant IndexedByCode(acts[..i], m)
    {
      IndexedByCodeStep(acts, i, m);
      m := m[acts[i].activityCode := acts[i]];
      i := i + 1;
    }
    assert acts[..i] == acts;
    r := Ok(m);
  }
}
