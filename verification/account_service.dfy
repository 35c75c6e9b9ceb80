/**
 * The account service (internal/service/account/account.go): sign-in with
 * registration on first sight, the account query, points claims answered
 * with a signed token, the saving of the on-chain points address, and the
 * periodic reconciliation with the on-chain points accounts that
 * quarantines accounts whose on-chain record does not check out.
 *
 * What each operation does to the accounts table is a function (`AuthStep`,
 * `ClaimStep`, `TaskStep`, `TickStep`); the service methods are proved to
 * do exactly that, and the properties are lemmas about the functions.
 * Signing, signature checking and the chain reads are parameters.
 */
module Account {
  import opened Base
  import Text
  import Biz
  import AccountData

  /** The reconciliation ticker fires every 24 seconds. */
  const CheckPeriod: int := 24

  /** The account as the service returns it. */
  datatype AccountView = AccountView(
    accountId: string, email: string, name: string, provider: string, avatarUrl: string,
    integral: int, received: int, solanaAddr: string, claimCount: int)

  datatype AuthRequest = AuthRequest(
    accountId: string, email: string, name: string, provider: string, avatarUrl: string)

  datatype ClaimPointsRequest = ClaimPointsRequest(accountId: string, points: int, isOk: bool)

  /** `makeBizToAccountResponse`: every field but `ClaimCount` is copied. */
  function MakeBizToAccountResponse(a: Biz.AccountResponse): (v: AccountView)
    ensures v.claimCount == 0
    ensures v.accountId == a.accountId && v.integral == a.integral && v.received == a.received
    ensures v.email == a.email && v.name == a.name && v.provider == a.provider
    ensures v.avatarUrl == a.avatarUrl && v.solanaAddr == a.solanaAddr
  {
    AccountView(a.accountId, a.email, a.name, a.provider, a.avatarUrl, a.integral, a.received, a.solanaAddr, 0)
  }

  /** What the repository's `QueryAccount` answers. */
  function RepoLookup(rows: seq<AccountData.Account>, accountId: string, email: string, provider: string,
                      fails: bool): Result<Option<Biz.AccountResponse>, RepoError>
  {
    if fails then Err(EngineFailure)
    else match AccountData.Lookup(rows, accountId, email, provider)
      case None => Ok(None)
      case Some(a) => Ok(Some(AccountData.ToResponse(a)))
  }

  /** What the service's `QueryAccount(accountId)` answers: the account
      looked up by id, or, for an empty id, the first wallet account (no
      email, provider "Blockchain"). */
  function QueryView(rows: seq<AccountData.Account>, accountId: string, fails: bool): Result<AccountView, Error>
  {
    var res := RepoLookup(rows, accountId, "", Biz.LookupProvider("", ""), fails);
    match Biz.AccountLookup(res)
    case Err(e) => Err(e)
    case Ok(a) => Ok(MakeBizToAccountResponse(a))
  }

  /** The message a claim token signs: `fmt.Sprintf("%s-%d", user, claimCount)`. */
  function ClaimMessage(user: string, claimCount: int): string
  {
    user + "-" + Text.FormatInt(claimCount)
  }

  /** A message names one user and one (non-negative) claim count, even when
      the user id itself contains '-'. */
  lemma ClaimMessageInjective(u1: string, n1: int, u2: string, n2: int)
    requires n1 >= 0 && n2 >= 0
    requires ClaimMessage(u1, n1) == ClaimMessage(u2, n2)
    ensures u1 == u2 && n1 == n2
  {
    NoMinusInFormatInt(n1);
    NoMinusInFormatInt(n2);
    assert ClaimMessage(u1, n1) == u1 + ['-'] + Text.FormatInt(n1);
    assert ClaimMessage(u2, n2) == u2 + ['-'] + Text.FormatInt(n2);
    Text.TailFieldUnique(u1, Text.FormatInt(n1), u2, Text.FormatInt(n2), '-');
    Text.FormatIntInjective(n1, n2);
  }

  lemma NoMinusInFormatInt(n: int)
    requires n >= 0
    ensures '-' !in Text.FormatInt(n)
  {
    forall i | 0 <= i < |Text.FormatInt(n)| ensures Text.FormatInt(n)[i] != '-' {
      Text.FormatIntAlphabet(n, i);
    }
  }

  /** The name a registration stores: the request's name, or else the first
      six characters of the request's account id (all of it when shorter). */
  function DefaultName(req: AuthRequest): (name: string)
    ensures req.name != "" ==> name == req.name
    ensures req.name == "" ==> name <= req.accountId && |name| == if |req.accountId| > 6 then 6 else |req.accountId|
  {
    if req.name != "" then req.name
    else if |req.accountId| > 6 then req.accountId[..6]
    else req.accountId
  }

  /** The record a registration saves; address, state and claim count are zero. */
  function Registration(req: AuthRequest, freshId: string): Biz.AccountRequest
  {
    var id := if req.accountId == "" then freshId else req.accountId;
    Biz.AccountRequest(id, req.email, DefaultName(req), req.provider, req.avatarUrl, "", 0, 0)
  }

  /** `Auth`: when the lookup (by id, or by email and provider) fails for any
      reason, save a registration under the request's id or the fresh id. */
  function AuthStep(rows: seq<AccountData.Account>, req: AuthRequest, freshId: string,
                    lookupFails: bool, saveFails: bool): (Option<Error>, seq<AccountData.Account>)
  {
    var provider := Biz.LookupProvider(req.email, req.provider);
    var found := Biz.AccountLookup(RepoLookup(rows, req.accountId, req.email, provider, lookupFails));
    if found.Ok? then (None, rows)
    else if saveFails then (Some(Internal(EngineFailure)), rows)
    else (None, AccountData.Saved(rows, Registration(req, freshId)))
  }

  datatype ClaimFaults = ClaimFaults(lookupFails: bool, updateFails: bool)

  /** `ClaimPoints`: look the account up, refuse a claim that would take
      `received` above `integral`, store the new `received` (and the
      `integral` just read) when the claim is confirmed, then sign the
      account id with the claim count of the service's response. */
  function ClaimStep(rows: seq<AccountData.Account>, req: ClaimPointsRequest, f: ClaimFaults,
                     sign: string -> Option<string>): (Result<string, Error>, seq<AccountData.Account>)
  {
    match QueryView(rows, req.accountId, f.lookupFails)
    case Err(e) => (Err(e), rows)
    case Ok(account) =>
      var received := Wrap64(account.received + req.points);
      if account.integral < received then (Err(NotEnoughPoints), rows)
      else if req.isOk && f.updateFails then (Err(Internal(EngineFailure)), rows)
      else
        var rows' := if req.isOk then AccountData.ClaimUpdated(rows, req.accountId, account.integral, received)
                     else rows;
        match sign(ClaimMessage(account.accountId, account.claimCount))
        case None => (Err(SigningFailed), rows')
        case Some(token) => (Ok(token), rows')
  }

  /** `UserPoints` as decoded from the chain (`Authority` is not used). */
  datatype UserPoints = UserPoints(points: U64, lastSignature: seq<bv8>, claimCount: U64)

  /** A chain read: the address does not parse, the RPC call fails or the
      account data does not decode; or the decoded record. */
  datatype ChainRead = Unreadable | Decoded(record: UserPoints)

  /** `signatureVerify`: the signature checks out, does not, or the check
      panics (key file missing or unreadable, signature not base64). */
  datatype VerifyOutcome = SignatureValid | SignatureInvalid | VerifyPanicked

  /** The outside world of a reconciliation task: the chain, keyed by
      address; the signature check over a message and a signature; and which
      accounts' saves the database refuses. */
  datatype CheckEnv = CheckEnv(
    chain: string -> ChainRead,
    verify: (string, seq<bv8>) -> VerifyOutcome,
    saveFails: string -> bool)

  /** The save request quarantining `ar`: the response's fields with State -1. */
  function QuarantineRequest(ar: Biz.AccountResponse): Biz.AccountRequest
  {
    Biz.AccountRequest(ar.accountId, ar.email, ar.name, ar.provider, ar.avatarUrl,
                       ar.solanaAddr, AccountData.Quarantined, ar.claimCount)
  }

  /** `solanaTask`: skip an account without address, an unreadable chain
      record, a record whose points equal `received`, and a record whose last
      signature checks out (or whose check panics); quarantine the rest. */
  function TaskStep(rows: seq<AccountData.Account>, ar: Biz.AccountResponse, env: CheckEnv): seq<AccountData.Account>
  {
    if ar.solanaAddr == "" then rows
    else match env.chain(ar.solanaAddr)
      case Unreadable => rows
      case Decoded(p) =>
        if ToInt64(p.points) == ar.received then rows
        else match env.verify(ClaimMessage(ar.accountId, ToInt64(p.claimCount)), p.lastSignature)
          case SignatureValid => rows
          case VerifyPanicked => rows
          case SignatureInvalid =>
            if env.saveFails(ar.accountId) then rows else AccountData.Saved(rows, QuarantineRequest(ar))
  }

  /** The tasks of one tick, run one after another in list order. */
  function RunTasks(rows: seq<AccountData.Account>, ars: seq<Biz.AccountResponse>, env: CheckEnv)
    : seq<AccountData.Account>
    decreases |ars|
  {
    if ars == [] then rows
    else TaskStep(RunTasks(rows, ars[..|ars| - 1], env), ars[|ars| - 1], env)
  }

  /** One tick of `solanaChainDataCheckTask` (which ticks every `CheckPeriod`
      seconds): a failed `QueryAccounts` skips the tick; otherwise every
      account it returns gets its task. */
  function TickStep(rows: seq<AccountData.Account>, queryFails: bool, env: CheckEnv): seq<AccountData.Account>
  {
    if queryFails then rows else RunTasks(rows, AccountData.Responses(AccountData.Active(rows)), env)
  }

  class AccountService {
    const account: AccountData.AccountRepo

    constructor (account: AccountData.AccountRepo)
      ensures this.account == account
    {
      this.account := account;
    }

    /** Sign in `req`, registering it when it cannot be found. */
    method Auth(req: AuthRequest, freshId: string, lookupFails: bool, saveFails: bool) returns (err: Option<Error>)
      modifies account
      ensures (err, account.rows) == AuthStep(old(account.rows), req, freshId, lookupFails, saveFails)
    {
      var provider := Biz.LookupProvider(req.email, req.provider);
      var res := account.QueryAccount(req.accountId, req.email, provider, lookupFails);
      assert res == RepoLookup(account.rows, req.accountId, req.email, provider, lookupFails);
      var found := Biz.AccountLookup(res);
      if found.Ok? {
        return None;
      }
      var accountId := req.accountId;
      if accountId == "" {
        accountId := freshId;
      }
      var name := req.name;
      if name == "" {
        if |req.accountId| > 6 {
          name := req.accountId[..6];
        } else {
          name := req.accountId;
        }
      }
      var bizAct := Biz.AccountRequest(accountId, req.email, name, req.provider, req.avatarUrl, "", 0, 0);
      var serr := account.SaveAccount(bizAct, saveFails);
      err := Biz.Wrapped(serr);
    }

    /** The account with id `accountId`, as the service shows it. */
    method QueryAccount(accountId: string, lookupFails: bool) returns (r: Result<AccountView, Error>)
      ensures r == QueryView(account.rows, accountId, lookupFails)
      ensures lookupFails ==> r == Err(Internal(EngineFailure))
      ensures !lookupFails && accountId != "" ==>
        (r.Ok? <==> exists i :: 0 <= i < |account.rows| && account.rows[i].accountId == accountId)
      ensures r.Ok? ==> r.value.claimCount == 0 && r.value.email == "" && r.value.provider == ""
    {
      var res := account.QueryAccount(accountId, "", Biz.LookupProvider("", ""), lookupFails);
      assert res == RepoLookup(account.rows, accountId, "", Biz.LookupProvider("", ""), lookupFails);
      var found := Biz.AccountLookup(res);
      if found.Err? {
        return Err(found.error);
      }
      r := Ok(MakeBizToAccountResponse(found.value));
    }

    /** Claim `req.points`; on success the token signs the account's claim message. */
    method ClaimPoints(req: ClaimPointsRequest, f: ClaimFaults, sign: string -> Option<string>)
      returns (token: Result<string, Error>)
      modifies account
      ensures (token, account.rows) == ClaimStep(old(account.rows), req, f, sign)
    {
      var acc := QueryAccount(req.accountId, f.lookupFails);
      if acc.Err? {
        return Err(acc.error);
      }
      var a := acc.value;
      var received := Wrap64(a.received + req.points);
      if a.integral < received {
        return Err(NotEnoughPoints);
      }
      if req.isOk {
        var uerr := account.UpdateClaimPoints(req.accountId, a.integral, received, f.updateFails);
        if uerr.Some? {
          return Err(Internal(uerr.value));
        }
      }
      var signed := sign(ClaimMessage(a.accountId, a.claimCount));
      if signed.None? {
        return Err(SigningFailed);
      }
      token := Ok(signed.value);
    }

    /** Store the on-chain points address of `accountId`. */
    method SavePointsAddr(accountId: string, addr: string, dbFails: bool) returns (err: Option<Error>)
      modifies account
      ensures dbFails ==> err == Some(Internal(EngineFailure)) && account.rows == old(account.rows)
      ensures !dbFails ==> err == None && account.rows == AccountData.AddrUpdated(old(account.rows), accountId, addr)
    {
      var uerr := account.UpdateAddr(accountId, addr, dbFails);
      err := Biz.Wrapped(uerr);
    }

    /** Reconcile one account with its on-chain record. */
    method SolanaTask(ar: Biz.AccountResponse, env: CheckEnv)
      modifies account
      ensures account.rows == TaskStep(old(account.rows), ar, env)
    {
      if ar.solanaAddr == "" {
        return;
      }
      var read := env.chain(ar.solanaAddr);
      if read.Unreadable? {
        return;
      }
      var meta := read.record;
      if ToInt64(meta.points) == ar.received {
        return;
      }
      var outcome := env.verify(ClaimMessage(ar.accountId, ToInt64(meta.claimCount)), meta.lastSignature);
      if outcome == SignatureInvalid {
        var _ := account.SaveAccount(QuarantineRequest(ar), env.saveFails(ar.accountId));
      }
    }

    /** One tick of the reconciliation task. */
    method SolanaChainDataCheckTick(queryFails: bool, env: CheckEnv)
      modifies account
      ensures account.rows == TickStep(old(account.rows), queryFails, env)
    {
      var res := account.QueryAccounts(queryFails);
      var ar := Biz.AccountsResult(res);
      if ar.Err? {
        return;
      }
      var list := ar.value;
      ghost var start := account.rows;
      var i := 0;
      while i < |list|
        invariant 0 <= i <= |list|
        invariant account.rows == RunTasks(start, list[..i], env)
      {
        assert list[..i + 1][..i] == list[..i];
        assert RunTasks(start, list[..i + 1], env) == TaskStep(RunTasks(start, list[..i], env), list[i], env);
        SolanaTask(list[i], env);
        i := i + 1;
      }
      assert list[..i] == list;
    }
  }

  // ---------------------------------------------------------------------
  // Properties of sign-in

  /** What the account lookup reports at the service: an engine failure is
      `Internal`, an unknown id is `AccountNotExist`, and an empty id looks up
      the first wallet account (no email, provider "Blockchain"). */
  lemma QueryViewOutcomes(rows: seq<AccountData.Account>, accountId: string, fails: bool)
    ensures fails ==> QueryView(rows, accountId, fails) == Err(Internal(EngineFailure))
    ensures !fails && accountId != "" && AccountData.FirstWithId(rows, accountId).None? ==>
      QueryView(rows, accountId, fails) == Err(AccountNotExist)
    ensures !fails && accountId != "" && AccountData.FirstWithId(rows, accountId).Some? ==>
      QueryView(rows, accountId, fails)
        == Ok(MakeBizToAccountResponse(AccountData.ToResponse(rows[AccountData.FirstWithId(rows, accountId).value])))
    ensures !fails && accountId == "" ==>
      (QueryView(rows, accountId, fails).Ok? <==> AccountData.FirstMember(rows, "", Biz.BlockchainProvider).Some?)
  {
  }

  /** An account that is found is not written. */
  lemma AuthFoundWritesNothing(rows: seq<AccountData.Account>, req: AuthRequest, freshId: string, saveFails: bool)
    requires AccountData.Lookup(rows, req.accountId, req.email, Biz.LookupProvider(req.email, req.provider)).Some?
    ensures AuthStep(rows, req, freshId, false, saveFails) == (None, rows)
  {
  }

  /** A new account id is registered with zero points, the request's email,
      provider and avatar, and the defaulted name. */
  lemma AuthRegisters(rows: seq<AccountData.Account>, req: AuthRequest, freshId: string)
    requires req.accountId != ""
    requires AccountData.FirstWithId(rows, req.accountId).None?
    ensures var (err, rows') := AuthStep(rows, req, freshId, false, false);
      && err == None
      && rows' == rows + [AccountData.Account(req.accountId, 0, 0, req.email, DefaultName(req), req.provider,
                                               req.avatarUrl, 0, "", 0)]
  {
  }

  /** An email sign-in without account id that finds nothing registers under
      the freshId id. */
  lemma AuthRegistersFreshId(rows: seq<AccountData.Account>, req: AuthRequest, freshId: string)
    requires req.accountId == ""
    requires AccountData.FirstMember(rows, req.email, Biz.LookupProvider(req.email, req.provider)).None?
    requires AccountData.FirstWithId(rows, freshId).None?
    ensures var (err, rows') := AuthStep(rows, req, freshId, false, false);
      && err == None && |rows'| == |rows| + 1 && rows'[..|rows|] == rows
      && rows'[|rows|].accountId == freshId && rows'[|rows|].name == req.name
      && rows'[|rows|].integral == 0 && rows'[|rows|].received == 0
  {
  }

  /** A failed lookup of an existing account re-saves it with State 0: a
      sign-in during a database hiccup lifts a quarantine (and overwrites
      email, name, provider and avatar), keeping the points. */
  lemma AuthLookupFailureResetsState(rows: seq<AccountData.Account>, req: AuthRequest, freshId: string, i: nat)
    requires req.accountId != ""
    requires AccountData.FirstWithId(rows, req.accountId) == Some(i)
    ensures var (err, rows') := AuthStep(rows, req, freshId, true, false);
      && err == None && |rows'| == |rows|
      && rows'[i].state == 0 && rows'[i].name == DefaultName(req)
      && rows'[i].integral == rows[i].integral && rows'[i].received == rows[i].received
  {
    AccountData.SavedRow(rows, Registration(req, freshId));
  }

  // ---------------------------------------------------------------------
  // Properties of claims

  /** A claim beyond the balance is refused and writes nothing. */
  lemma ClaimRefusesOverdraw(rows: seq<AccountData.Account>, req: ClaimPointsRequest, f: ClaimFaults,
                             sign: string -> Option<string>)
    requires QueryView(rows, req.accountId, f.lookupFails).Ok?
    requires var a := QueryView(rows, req.accountId, f.lookupFails).value;
      a.integral < Wrap64(a.received + req.points)
    ensures ClaimStep(rows, req, f, sign) == (Err(NotEnoughPoints), rows)
  {
  }

  /** A claim that cannot find its account is refused and writes nothing. */
  lemma ClaimUnknownAccount(rows: seq<AccountData.Account>, req: ClaimPointsRequest, f: ClaimFaults,
                            sign: string -> Option<string>)
    requires req.accountId != ""
    requires AccountData.FirstWithId(rows, req.accountId).None?
    ensures ClaimStep(rows, req, f, sign).1 == rows
    ensures ClaimStep(rows, req, f, sign).0.Err?
  {
  }

  /** An unconfirmed claim (a preview) writes nothing.  Each call signs
      afresh (`sign1`, `sign2` stand for two calls' randomized signings), so
      a repeated preview also writes nothing, gives the same refusal, and
      signs the same message `<id>-0`. */
  lemma ClaimPreviewWritesNothing(rows: seq<AccountData.Account>, req: ClaimPointsRequest, f: ClaimFaults,
                                  sign1: string -> Option<string>, sign2: string -> Option<string>)
    requires !req.isOk
    ensures ClaimStep(rows, req, f, sign1).1 == rows
    ensures var again := ClaimStep(ClaimStep(rows, req, f, sign1).1, req, f, sign2);
      && again.1 == rows
      && (again.0 == Err(NotEnoughPoints) <==> ClaimStep(rows, req, f, sign1).0 == Err(NotEnoughPoints))
      && (again.0.Ok? ==> QueryView(rows, req.accountId, f.lookupFails).Ok?)
      && (again.0.Ok? ==>
            Some(again.0.value) == sign2(ClaimMessage(QueryView(rows, req.accountId, f.lookupFails).value.accountId, 0)))
  {
  }

  /** The token always signs claim count 0, whatever the stored count. */
  lemma ClaimTokenSignsCountZero(rows: seq<AccountData.Account>, req: ClaimPointsRequest, f: ClaimFaults,
                                 sign: string -> Option<string>)
    requires ClaimStep(rows, req, f, sign).0.Ok?
    ensures QueryView(rows, req.accountId, f.lookupFails).Ok?
    ensures Some(ClaimStep(rows, req, f, sign).0.value)
         == sign(ClaimMessage(QueryView(rows, req.accountId, f.lookupFails).value.accountId, 0))
  {
  }

  /** A confirmed claim on account row `i` sets `received` to the old
      `received` plus the points (unless that sum is 0, which gorm does not
      write) and leaves `integral` as it was; other rows are untouched. */
  lemma ClaimCommits(rows: seq<AccountData.Account>, req: ClaimPointsRequest, sign: string -> Option<string>, i: nat)
    requires AccountData.UniqueIds(rows)
    requires req.isOk && req.accountId != ""
    requires i < |rows| && rows[i].accountId == req.accountId
    requires IsInt64(rows[i].received + req.points)
    requires rows[i].received + req.points <= rows[i].integral
    ensures var rows' := ClaimStep(rows, req, ClaimFaults(false, false), sign).1;
      && |rows'| == |rows|
      && rows'[i].integral == rows[i].integral
      && rows'[i].received == (if rows[i].received + req.points != 0 then rows[i].received + req.points
                               else rows[i].received)
      && rows'[i].(integral := rows[i].integral, received := rows[i].received) == rows[i]
      && forall j :: 0 <= j < |rows| && j != i ==> rows'[j] == rows[j]
  {
    assert AccountData.FirstWithId(rows, req.accountId) == Some(i);
  }

  /** The ledger invariant: no claim, confirmed or not, successful or not,
      lets `received` exceed `integral` (account ids unique and non-empty). */
  lemma ClaimKeepsClaimsCovered(rows: seq<AccountData.Account>, req: ClaimPointsRequest, f: ClaimFaults,
                                sign: string -> Option<string>)
    requires AccountData.UniqueIds(rows) && AccountData.ClaimsCovered(rows)
    requires req.accountId != ""
    ensures AccountData.ClaimsCovered(ClaimStep(rows, req, f, sign).1)
  {
    var rows' := ClaimStep(rows, req, f, sign).1;
    if rows' != rows {
      var i := AccountData.FirstWithId(rows, req.accountId).value;
      forall j | 0 <= j < |rows'| ensures rows'[j].received <= rows'[j].integral {
        if j != i {
          assert rows[j].accountId != req.accountId;
        }
      }
    }
  }

  /** A claim with an empty account id is answered for the first wallet
      account (no email, provider "Blockchain"), but its update goes to the
      rows with an empty id: with none, nothing is written. */
  lemma ClaimWithoutIdWritesNothing(rows: seq<AccountData.Account>, req: ClaimPointsRequest, f: ClaimFaults,
                                    sign: string -> Option<string>)
    requires req.accountId == ""
    requires AccountData.FirstWithId(rows, "").None?
    ensures ClaimStep(rows, req, f, sign).1 == rows
    ensures ClaimStep(rows, req, f, sign).0.Ok? ==>
      AccountData.FirstMember(rows, "", Biz.BlockchainProvider).Some?
  {
  }

  // ---------------------------------------------------------------------
  // Properties of reconciliation

  /** A task that skips leaves the table as it was. */
  lemma TaskSkips(rows: seq<AccountData.Account>, ar: Biz.AccountResponse, env: CheckEnv)
    requires || ar.solanaAddr == ""
             || env.chain(ar.solanaAddr).Unreadable?
             || ToInt64(env.chain(ar.solanaAddr).record.points) == ar.received
    ensures TaskStep(rows, ar, env) == rows
  {
  }

  /** A task either leaves the table alone or quarantines the task's account. */
  lemma TaskOutcomes(rows: seq<AccountData.Account>, ar: Biz.AccountResponse, env: CheckEnv)
    ensures || TaskStep(rows, ar, env) == rows
            || TaskStep(rows, ar, env) == AccountData.Saved(rows, QuarantineRequest(ar))
  {
  }

  /** Quarantining the account listed at row `i` sets its state to -1 and
      blanks its email and provider (the listing carries neither); points,
      name, avatar, address and claim count stay. */
  lemma QuarantineEffect(rows: seq<AccountData.Account>, i: nat)
    requires AccountData.UniqueIds(rows)
    requires i < |rows|
    ensures var rows' := AccountData.Saved(rows, QuarantineRequest(AccountData.ToResponse(rows[i])));
      && |rows'| == |rows|
      && rows'[i] == rows[i].(state := AccountData.Quarantined, email := "", provider := "")
      && forall j :: 0 <= j < |rows| && j != i ==> rows'[j] == rows[j]
  {
    assert AccountData.FirstWithId(rows, rows[i].accountId) == Some(i);
    AccountData.SavedRow(rows, QuarantineRequest(AccountData.ToResponse(rows[i])));
  }

  /** Tasks for other accounts leave row `i` alone, and keep the ids of the
      rows that were there. */
  lemma {:induction false} RunTasksUntouched(rows: seq<AccountData.Account>, ars: seq<Biz.AccountResponse>,
                                             env: CheckEnv, i: nat)
    requires i < |rows|
    requires forall k :: 0 <= k < |ars| ==> ars[k].accountId != rows[i].accountId
    ensures |RunTasks(rows, ars, env)| >= |rows|
    ensures RunTasks(rows, ars, env)[i] == rows[i]
    decreases |ars|
  {
    if ars != [] {
      var prefix := ars[..|ars| - 1];
      RunTasksUntouched(rows, prefix, env, i);
    }
  }

  /** Quarantine is terminal for reconciliation: a tick never touches a
      quarantined row, since `QueryAccounts` does not list it. */
  lemma TickKeepsQuarantined(rows: seq<AccountData.Account>, queryFails: bool, env: CheckEnv, i: nat)
    requires AccountData.UniqueIds(rows)
    requires i < |rows| && rows[i].state == AccountData.Quarantined
    ensures |TickStep(rows, queryFails, env)| >= |rows|
    ensures TickStep(rows, queryFails, env)[i] == rows[i]
  {
    if !queryFails {
      var active := AccountData.Active(rows);
      var ars := AccountData.Responses(active);
      forall k | 0 <= k < |ars| ensures ars[k].accountId != rows[i].accountId {
        var j :| 0 <= j < |rows| && rows[j] == active[k];
        assert j != i;
      }
      RunTasksUntouched(rows, ars, env, i);
    }
  }

  /** An account whose on-chain points differ from its `received` and whose
      last signature does not check out is quarantined by its task. */
  lemma MismatchQuarantines(rows: seq<AccountData.Account>, i: nat, env: CheckEnv)
    requires AccountData.UniqueIds(rows)
    requires i < |rows| && rows[i].solanaAddr != ""
    requires env.chain(rows[i].solanaAddr).Decoded?
    requires var p := env.chain(rows[i].solanaAddr).record;
      && ToInt64(p.points) != rows[i].received
      && env.verify(ClaimMessage(rows[i].accountId, ToInt64(p.claimCount)), p.lastSignature) == SignatureInvalid
    requires !env.saveFails(rows[i].accountId)
    ensures TaskStep(rows, AccountData.ToResponse(rows[i]), env)[i].state == AccountData.Quarantined
  {
    QuarantineEffect(rows, i);
  }

  // ---------------------------------------------------------------------
  // The ledger invariant across the account operations

  /** Sign-in keeps every account's claims covered. */
  lemma AuthKeepsClaimsCovered(rows: seq<AccountData.Account>, req: AuthRequest, freshId: string,
                               lookupFails: bool, saveFails: bool)
    requires AccountData.ClaimsCovered(rows)
    ensures AccountData.ClaimsCovered(AuthStep(rows, req, freshId, lookupFails, saveFails).1)
  {
    AccountData.SavedKeepsClaimsCovered(rows, Registration(req, freshId));
  }

  /** A reconciliation task keeps every account's claims covered. */
  lemma TaskKeepsClaimsCovered(rows: seq<AccountData.Account>, ar: Biz.AccountResponse, env: CheckEnv)
    requires AccountData.ClaimsCovered(rows)
    ensures AccountData.ClaimsCovered(TaskStep(rows, ar, env))
  {
    AccountData.SavedKeepsClaimsCovered(rows, QuarantineRequest(ar));
  }

  lemma {:induction false} RunTasksKeepClaimsCovered(rows: seq<AccountData.Account>, ars: seq<Biz.AccountResponse>,
                                                     env: CheckEnv)
    requires AccountData.ClaimsCovered(rows)
    ensures AccountData.ClaimsCovered(RunTasks(rows, ars, env))
    decreases |ars|
  {
    if ars != [] {
      RunTasksKeepClaimsCovered(rows, ars[..|ars| - 1], env);
      TaskKeepsClaimsCovered(RunTasks(rows, ars[..|ars| - 1], env), ars[|ars| - 1], env);
    }
  }

  /** A whole reconciliation tick keeps every account's claims covered. */
  lemma TickKeepsClaimsCovered(rows: seq<AccountData.Account>, queryFails: bool, env: CheckEnv)
    requires AccountData.ClaimsCovered(rows)
    ensures AccountData.ClaimsCovered(TickStep(rows, queryFails, env))
  {
    if !queryFails {
      RunTasksKeepClaimsCovered(rows, AccountData.Responses(AccountData.Active(rows)), env);
    }
  }
}
