/**
 * The account repository (internal/data/account.go) over an abstract
 * accounts table.  The table is the sequence of rows in primary-key order
 * (the order in which they were inserted).  gorm's `First` orders by the
 * primary key, so it returns the earliest matching row.  `Find` emits no
 * `ORDER BY` and the engine promises no order; its listings are taken in
 * table order here.
 *
 * Every call can be refused by the engine: `dbFails` says it was, and then
 * nothing is written.
 */
module AccountData {
  import opened Base
  import Biz

  /** The `state` value that marks an account as quarantined. */
  const Quarantined: int := -1

  datatype Account = Account(
    accountId: string, integral: int, received: int, email: string, name: string,
    provider: string, avatarUrl: string, state: int, solanaAddr: string, claimCount: int)

  /** `account_id` identifies a row: the operations of the services never
      insert a second row with an existing id. */
  ghost predicate UniqueIds(rows: seq<Account>)
  {
    forall i, j :: 0 <= i < j < |rows| ==> rows[i].accountId != rows[j].accountId
  }

  /** The ledger invariant: no account has claimed more than it earned. */
  ghost predicate ClaimsCovered(rows: seq<Account>)
  {
    forall i :: 0 <= i < |rows| ==> rows[i].received <= rows[i].integral
  }

  /** The row `First` finds `Where("account_id = ?", id)`. */
  function FirstWithId(rows: seq<Account>, id: string): (r: Option<nat>)
    ensures r.Some? ==> r.value < |rows| && rows[r.value].accountId == id
    ensures r.Some? ==> forall j :: 0 <= j < r.value ==> rows[j].accountId != id
    ensures r.None? ==> forall j :: 0 <= j < |rows| ==> rows[j].accountId != id
    decreases |rows|
  {
    if rows == [] then None
    else if rows[0].accountId == id then Some(0)
    else match FirstWithId(rows[1..], id)
      case None => None
      case Some(k) => Some(k + 1)
  }

  /** The row `First` finds `Where("email = ? and provider = ?", email, provider)`. */
  function FirstMember(rows: seq<Account>, email: string, provider: string): (r: Option<nat>)
    ensures r.Some? ==> r.value < |rows| && rows[r.value].email == email && rows[r.value].provider == provider
    ensures r.Some? ==> forall j :: 0 <= j < r.value ==> !(rows[j].email == email && rows[j].provider == provider)
    ensures r.None? ==> forall j :: 0 <= j < |rows| ==> !(rows[j].email == email && rows[j].provider == provider)
    decreases |rows|
  {
    if rows == [] then None
    else if rows[0].email == email && rows[0].provider == provider then Some(0)
    else match FirstMember(rows[1..], email, provider)
      case None => None
      case Some(k) => Some(k + 1)
  }

  /** `makeAccountResponse`: Email, Provider and State are not copied. */
  function ToResponse(a: Account): Biz.AccountResponse
  {
    Biz.AccountResponse(a.accountId, a.integral, a.received, "", a.name, "", a.avatarUrl, a.solanaAddr, a.claimCount)
  }

  function Responses(rows: seq<Account>): seq<Biz.AccountResponse>
  {
    seq(|rows|, i requires 0 <= i < |rows| => ToResponse(rows[i]))
  }

  /** What `QueryAccount` finds: by email and provider when no account id is
      given, by account id otherwise. */
  function Lookup(rows: seq<Account>, accountId: string, email: string, provider: string): (r: Option<Account>)
    ensures accountId != "" ==> (r.Some? <==> exists i :: 0 <= i < |rows| && rows[i].accountId == accountId)
    ensures accountId != "" && r.Some? ==> r.value.accountId == accountId
    ensures accountId == "" ==>
      (r.Some? <==> exists i :: 0 <= i < |rows| && rows[i].email == email && rows[i].provider == provider)
    ensures accountId == "" && r.Some? ==> r.value.email == email && r.value.provider == provider
    ensures r.Some? ==> r.value in rows
  {
    var found := if accountId == "" then FirstMember(rows, email, provider) else FirstWithId(rows, accountId);
    match found
    case None => None
    case Some(i) => Some(rows[i])
  }

  /** The rows `QueryAccounts` returns: those not quarantined, in table order. */
  function Active(rows: seq<Account>): (r: seq<Account>)
    ensures |r| <= |rows|
    ensures forall k :: 0 <= k < |r| ==> r[k].state != Quarantined && r[k] in rows
    ensures forall i :: 0 <= i < |rows| && rows[i].state != Quarantined ==> rows[i] in r
    decreases |rows|
  {
    if rows == [] then []
    else (if rows[0].state != Quarantined then [rows[0]] else []) + Active(rows[1..])
  }

  lemma {:induction false} ActiveUniqueIds(rows: seq<Account>)
    requires UniqueIds(rows)
    ensures UniqueIds(Active(rows))
    decreases |rows|
  {
    if rows != [] {
      ActiveUniqueIds(rows[1..]);
      var tail := Active(rows[1..]);
      forall k | 0 <= k < |tail| ensures tail[k].accountId != rows[0].accountId {
        var j :| 0 <= j < |rows[1..]| && rows[1..][j] == tail[k];
        assert rows[j + 1] == tail[k];
      }
    }
  }

  /** The row written by `SaveAccount` from the stored row `a` (or, for a new
      account, the row built from the request): Email, Name, AvatarURL,
      Provider and State are always taken from the request, ClaimCount only
      when the stored one is not 0, SolanaAddr only when the request's is not
      empty; Integral and Received are kept. */
  function Merge(a: Account, req: Biz.AccountRequest): Account
  {
    a.(email := req.email, name := req.name, avatarUrl := req.avatarUrl,
       provider := req.provider, state := req.state,
       claimCount := if a.claimCount != 0 then req.claimCount else a.claimCount,
       solanaAddr := if req.solanaAddr != "" then req.solanaAddr else a.solanaAddr)
  }

  /** The row `SaveAccount` starts from when no row has the request's id. */
  function Created(req: Biz.AccountRequest): Account
  {
    Account(req.accountId, 0, 0, req.email, req.name, req.provider, req.avatarUrl,
            req.state, req.solanaAddr, req.claimCount)
  }

  /** The table after a successful `SaveAccount(req)`: the row with the
      request's id is rewritten in place, or a new row is appended. */
  function Saved(rows: seq<Account>, req: Biz.AccountRequest): (r: seq<Account>)
    ensures |r| == if FirstWithId(rows, req.accountId).None? then |rows| + 1 else |rows|
    ensures forall i :: 0 <= i < |r| ==> r[i].accountId == if i < |rows| then rows[i].accountId else req.accountId
    ensures forall i :: 0 <= i < |rows| && rows[i].accountId != req.accountId ==> r[i] == rows[i]
    ensures UniqueIds(rows) ==> UniqueIds(r)
  {
    match FirstWithId(rows, req.accountId)
    case None => rows + [Merge(Created(req), req)]
    case Some(i) => rows[i := Merge(rows[i], req)]
  }

  /** The field rules of `SaveAccount`, read off the row that holds the
      request's id afterwards. */
  lemma SavedRow(rows: seq<Account>, req: Biz.AccountRequest)
    ensures FirstWithId(Saved(rows, req), req.accountId).Some?
    ensures
      var r := Saved(rows, req);
      var a := r[FirstWithId(r, req.accountId).value];
      && a.email == req.email && a.name == req.name && a.avatarUrl == req.avatarUrl
      && a.provider == req.provider && a.state == req.state
      && match FirstWithId(rows, req.accountId)
         case None =>
           && a.integral == 0 && a.received == 0
           && a.solanaAddr == req.solanaAddr && a.claimCount == req.claimCount
         case Some(j) =>
           && FirstWithId(r, req.accountId) == Some(j)
           && a.integral == rows[j].integral && a.received == rows[j].received
           && a.solanaAddr == (if req.solanaAddr != "" then req.solanaAddr else rows[j].solanaAddr)
           && a.claimCount == (if rows[j].claimCount != 0 then req.claimCount else 0)
  {
    var r := Saved(rows, req);
    match FirstWithId(rows, req.accountId)
    case None =>
      assert FirstWithId(r, req.accountId) == Some(|rows|) by {
        assert r[|rows|].accountId == req.accountId;
      }
    case Some(j) =>
      assert r[j].accountId == req.accountId;
  }

  /** gorm's `Updates` with a struct skips zero-valued fields. */
  function NonZero(current: int, update: int): int
  {
    if update != 0 then update else current
  }

  function Credited(rows: seq<Account>, id: string, delta: int): seq<Account>
  {
    seq(|rows|, i requires 0 <= i < |rows| =>
      if rows[i].accountId == id then rows[i].(integral := rows[i].integral + delta) else rows[i])
  }

  function ClaimUpdated(rows: seq<Account>, id: string, integral: int, received: int): seq<Account>
  {
    seq(|rows|, i requires 0 <= i < |rows| =>
      if rows[i].accountId == id
      then rows[i].(integral := NonZero(rows[i].integral, integral),
                    received := NonZero(rows[i].received, received))
      else rows[i])
  }

  function AddrUpdated(rows: seq<Account>, id: string, addr: string): seq<Account>
  {
    seq(|rows|, i requires 0 <= i < |rows| =>
      if rows[i].accountId == id && addr != "" then rows[i].(solanaAddr := addr) else rows[i])
  }

  /** Crediting touches only Integral, and only on rows with that id;
      an unknown id changes nothing. */
  lemma CreditedEffect(rows: seq<Account>, id: string, delta: int)
    ensures |Credited(rows, id, delta)| == |rows|
    ensures forall i :: 0 <= i < |rows| ==>
      Credited(rows, id, delta)[i].(integral := rows[i].integral) == rows[i]
      && Credited(rows, id, delta)[i].integral == rows[i].integral + (if rows[i].accountId == id then delta else 0)
    ensures FirstWithId(rows, id).None? ==> Credited(rows, id, delta) == rows
  {
  }

  /** The address update touches only SolanaAddr, only on rows with that id,
      and only for a non-empty address; other rows and fields stay. */
  lemma AddrUpdatedEffect(rows: seq<Account>, id: string, addr: string)
    ensures |AddrUpdated(rows, id, addr)| == |rows|
    ensures forall i :: 0 <= i < |rows| ==>
      && AddrUpdated(rows, id, addr)[i].(solanaAddr := rows[i].solanaAddr) == rows[i]
      && AddrUpdated(rows, id, addr)[i].solanaAddr
         == (if rows[i].accountId == id && addr != "" then addr else rows[i].solanaAddr)
    ensures addr == "" || FirstWithId(rows, id).None? ==> AddrUpdated(rows, id, addr) == rows
  {
  }

  /** A save never changes Integral or Received, and a new row starts at 0/0,
      so it keeps every account's claims covered. */
  lemma SavedKeepsClaimsCovered(rows: seq<Account>, req: Biz.AccountRequest)
    requires ClaimsCovered(rows)
    ensures ClaimsCovered(Saved(rows, req))
  {
    var r := Saved(rows, req);
    forall i | 0 <= i < |r| ensures r[i].received <= r[i].integral {
      match FirstWithId(rows, req.accountId)
      case None =>
        if i < |rows| {
          assert r[i] == rows[i];
        }
      case Some(j) =>
        if i == j {
          assert r[i].integral == rows[j].integral && r[i].received == rows[j].received;
        } else {
          assert r[i] == rows[i];
        }
    }
  }

  class AccountRepo {
    var rows: seq<Account>

    constructor (rows: seq<Account>)
      ensures this.rows == rows
    {
      this.rows := rows;
    }

    /** Look the account up, merge the request into it field by field, write it back. */
    method SaveAccount(req: Biz.AccountRequest, dbFails: bool) returns (err: Option<RepoError>)
      modifies this
      ensures dbFails ==> err == Some(EngineFailure) && rows == old(rows)
      ensures !dbFails ==> err == None && rows == Saved(old(rows), req)
    {
      if dbFails {
        return Some(EngineFailure);
      }
      var found := FirstWithId(rows, req.accountId);
      var a: Account;
      if found.None? {
        a := Account(req.accountId, 0, 0, req.email, req.name, req.provider, req.avatarUrl,
                     req.state, req.solanaAddr, req.claimCount);
      } else {
        a := rows[found.value];
      }
      a := a.(email := req.email);
      a := a.(name := req.name);
      a := a.(avatarUrl := req.avatarUrl);
      a := a.(provider := req.provider);
      a := a.(state := req.state);
      if a.claimCount != 0 {
        a := a.(claimCount := req.claimCount);
      }
      if req.solanaAddr != "" {
        a := a.(solanaAddr := req.solanaAddr);
      }
      if found.None? {
        rows := rows + [a];
      } else {
        rows := rows[found.value := a];
      }
      err := None;
    }

    /** `UPDATE ... SET integral = integral + delta WHERE account_id = id`. */
    method UpdateAccountIntegral(accountId: string, delta: int, dbFails: bool) returns (err: Option<RepoError>)
      modifies this
      ensures dbFails ==> err == Some(EngineFailure) && rows == old(rows)
      ensures !dbFails ==> err == None && rows == Credited(old(rows), accountId, delta)
    {
      if dbFails {
        return Some(EngineFailure);
      }
      rows := Credited(rows, accountId, delta);
      err := None;
    }

    /** `Updates(Account{Integral: integral, Received: received})`: a zero
        value leaves its column alone. */
    method UpdateClaimPoints(accountId: string, integral: int, received: int, dbFails: bool)
      returns (err: Option<RepoError>)
      modifies this
      ensures dbFails ==> err == Some(EngineFailure) && rows == old(rows)
      ensures !dbFails ==> err == None && rows == ClaimUpdated(old(rows), accountId, integral, received)
    {
      if dbFails {
        return Some(EngineFailure);
      }
      rows := ClaimUpdated(rows, accountId, integral, received);
      err := None;
    }

    /** `Updates(Account{SolanaAddr: addr})`: an empty address leaves the column alone. */
    method UpdateAddr(accountId: string, addr: string, dbFails: bool) returns (err: Option<RepoError>)
      modifies this
      ensures dbFails ==> err == Some(EngineFailure) && rows == old(rows)
      ensures !dbFails ==> err == None && rows == AddrUpdated(old(rows), accountId, addr)
    {
      if dbFails {
        return Some(EngineFailure);
      }
      rows := AddrUpdated(rows, accountId, addr);
      err := None;
    }

    /** Not found is `(nil, nil)`; only an engine failure is an error. */
    method QueryAccount(accountId: string, email: string, provider: string, dbFails: bool)
      returns (r: Result<Option<Biz.AccountResponse>, RepoError>)
      ensures dbFails ==> r == Err(EngineFailure)
      ensures !dbFails ==> r.Ok?
      ensures !dbFails ==> (r.value.Some? <==> Lookup(rows, accountId, email, provider).Some?)
      ensures !dbFails && r.value.Some? ==> r.value.value == ToResponse(Lookup(rows, accountId, email, provider).value)
    {
      if dbFails {
        return Err(EngineFailure);
      }
      var found: Option<nat>;
      if accountId == "" {
        found := FirstMember(rows, email, provider);
      } else {
        found := FirstWithId(rows, accountId);
      }
      if found.None? {
        return Ok(None);
      }
      r := Ok(Some(ToResponse(rows[found.value])));
    }

    /** `Where("state <> ?", -1).Find(...)`: quarantined rows are skipped. */
    method QueryAccounts(dbFails: bool) returns (r: Result<seq<Biz.AccountResponse>, RepoError>)
      ensures dbFails ==> r == Err(EngineFailure)
      ensures !dbFails ==> r == Ok(Responses(Active(rows)))
    {
      if dbFails {
        return Err(EngineFailure);
      }
      var list := MakeAccountResponses(Active(rows));
      r := Ok(list);
    }
  }

  /** `makeAccountResponses`: one response per row, in order. */
  method MakeAccountResponses(req: seq<Account>) returns (r: seq<Biz.AccountResponse>)
    ensures |r| == |req|
    ensures forall i :: 0 <= i < |req| ==> r[i] == ToResponse(req[i])
    ensures r == Responses(req)
  {
    var res := new Biz.AccountResponse[|req|];
    var i := 0;
    while i < |req|
      invariant 0 <= i <= |req|
      invariant forall j :: 0 <= j < i ==> res[j] == ToResponse(req[j])
    {
      res[i] := ToResponse(req[i]);
      i := i + 1;
    }
    r := res[..];
  }
}
