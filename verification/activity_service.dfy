/**
 * The activity service (internal/service/activity/activity.go): plays of
 * rate-limited activities that earn points, the limit query, the periodic
 * refresh of the in-memory catalog, and the listings.
 *
 * The service holds the catalog snapshot `actMap` and reaches three stores
 * through the use cases of internal/biz: the accounts table, the play
 * counters and the activity log.  What a play does to the three stores is
 * the function `PlayStep`; the properties of plays are lemmas about it.
 */
module Activity {
  import opened Base
  import Text
  import Biz
  import AccountData
  import ActivityData
  import ActivityLogData

  /** The Redis key prefix of the play counters. */
  const KeyPrefix: string := "starland-account:"

  /** A counter lives for 24 hours after its last play (seconds). */
  const CounterTtl: int := 24 * 60 * 60

  /** The catalog is reloaded every 5 minutes (seconds). */
  const RefreshPeriod: int := 5 * 60

  /** `fmt.Sprintf("starland-account:%d_%s", activityCode, account)`. */
  function ActivityKey(activityCode: int, account: string): string
  {
    KeyPrefix + Text.FormatInt(activityCode) + "_" + account
  }

  lemma NoUnderscoreInFormatInt(n: int)
    ensures '_' !in Text.FormatInt(n)
  {
    forall i | 0 <= i < |Text.FormatInt(n)| ensures Text.FormatInt(n)[i] != '_' {
      Text.FormatIntAlphabet(n, i);
    }
  }

  /** Distinct (activity, account) pairs have distinct counters. */
  lemma ActivityKeyInjective(c1: int, a1: string, c2: int, a2: string)
    requires ActivityKey(c1, a1) == ActivityKey(c2, a2)
    ensures c1 == c2 && a1 == a2
  {
    var f1, f2 := Text.FormatInt(c1), Text.FormatInt(c2);
    var t1, t2 := f1 + ['_'] + a1, f2 + ['_'] + a2;
    KeyShape(c1, a1);
    KeyShape(c2, a2);
    PrefixCancel(KeyPrefix, t1, t2);
    NoUnderscoreInFormatInt(c1);
    NoUnderscoreInFormatInt(c2);
    Text.HeadFieldUnique(f1, a1, f2, a2, '_');
    Text.FormatIntInjective(c1, c2);
  }

  lemma KeyShape(c: int, a: string)
    ensures ActivityKey(c, a) == KeyPrefix + (Text.FormatInt(c) + ['_'] + a)
  {
  }

  lemma PrefixCancel(p: string, t1: string, t2: string)
    requires p + t1 == p + t2
    ensures t1 == t2
  {
    assert t1 == (p + t1)[|p|..];
    assert t2 == (p + t2)[|p|..];
  }

  /** The three stores a play touches. */
  datatype Ledger = Ledger(
    accounts: seq<AccountData.Account>,
    counters: map<string, ActivityData.CounterEntry>,
    logs: seq<ActivityLogData.ActivityLog>)

  /** Which store calls of a play the engines refuse. */
  datatype PlayFaults = PlayFaults(readFails: bool, creditFails: bool, logFails: bool, consumeFails: bool)

  const NoFaults: PlayFaults := PlayFaults(false, false, false, false)

  /** The counter reading `QueryActivityExpend` answers. */
  function ExpendRead(counters: map<string, ActivityData.CounterEntry>, key: string, readFails: bool)
    : (int, Option<RepoError>)
  {
    if readFails then (0, Some(EngineFailure)) else ActivityData.CounterRead(counters, key)
  }

  /** The log row a play of `v` by `account` appends. */
  function PlayLog(v: Biz.ActivityResponse, account: string, uuid: string, now: int): ActivityLogData.ActivityLog
  {
    ActivityLogData.ActivityLog(uuid, account, v.activityCode, v.activityName, v.integral, now)
  }

  /** One play: look the activity up, read the counter, refuse at the limit,
      then credit, log and count, each step stopping the play at its first
      failure without undoing the steps before. */
  function PlayStep(actMap: map<int, Biz.ActivityResponse>, s: Ledger, code: int, account: string,
                    uuid: string, now: int, f: PlayFaults): (Option<Error>, Ledger)
  {
    if code !in actMap then (Some(ActivityNotExist), s)
    else
      var v := actMap[code];
      var key := ActivityKey(code, account);
      var read := ExpendRead(s.counters, key, f.readFails);
      var (expend, err) := Biz.ExpendResult(read.0, read.1);
      if err.Some? then (err, s)
      else if expend >= v.limit then (Some(LimitReached), s)
      else if f.creditFails then (Some(Internal(EngineFailure)), s)
      else
        var s1 := s.(accounts := AccountData.Credited(s.accounts, account, v.integral));
        if f.logFails then (Some(Internal(EngineFailure)), s1)
        else
          var s2 := s1.(logs := s1.logs + [PlayLog(v, account, uuid, now)]);
          if f.consumeFails then (Some(Internal(EngineFailure)), s2)
          else
            var entry := ActivityData.CounterEntry(Text.FormatInt(Wrap64(expend + 1)), CounterTtl);
            (None, s2.(counters := s2.counters[key := entry]))
  }

  /** What `QueryIsLimit` reports: the activity is known, its counter reads
      without error, and the count has reached the limit. */
  predicate Limited(actMap: map<int, Biz.ActivityResponse>, counters: map<string, ActivityData.CounterEntry>,
                    code: int, account: string, readFails: bool)
  {
    && code in actMap
    && var read := ExpendRead(counters, ActivityKey(code, account), readFails);
    && read.1.None?
    && read.0 >= actMap[code].limit
  }

  /** The catalog entry as the service lists it (no limit). */
  datatype ActivityView = ActivityView(activityName: string, activityCode: int, integral: int)

  /** A log entry as the service lists it (no activity code). */
  datatype ActivityLogView = ActivityLogView(createAt: int, account: string, activityName: string, integral: int)

  function ToView(a: Biz.ActivityResponse): ActivityView
  {
    ActivityView(a.activityName, a.activityCode, a.integral)
  }

  function ToLogView(l: Biz.ActivityLogResponse): ActivityLogView
  {
    ActivityLogView(l.createAt, l.accountId, l.activityName, l.integral)
  }

  /** The catalog as the repository lists it. */
  function Catalog(acts: seq<ActivityData.Activity>): (r: seq<Biz.ActivityResponse>)
    ensures |r| == |acts|
  {
    seq(|acts|, i requires 0 <= i < |acts| => ActivityData.ToBiz(acts[i]))
  }

  /** `r` lists every entry of `m` once, in the key order `order`. */
  ghost predicate Enumerates(m: map<int, Biz.ActivityResponse>, order: seq<int>, r: seq<ActivityView>)
  {
    && |order| == |r| == |m|
    && (forall i :: 0 <= i < |order| ==> order[i] in m && r[i] == ToView(m[order[i]]))
    && (forall i, j :: 0 <= i < j < |order| ==> order[i] != order[j])
    && (forall k :: k in m ==> k in order)
  }

  lemma NonEmptyHasElement(s: set<int>)
    requires s != {}
    ensures exists x :: x in s
  {
    assert (forall x :: x !in s) ==> s == {};
  }

  /** `makeActivitys`: one entry per key of the map, in Go's (unspecified)
      map iteration order, which `order` records. */
  method MakeActivitys(acts: map<int, Biz.ActivityResponse>) returns (r: seq<ActivityView>, ghost order: seq<int>)
    ensures Enumerates(acts, order, r)
    ensures |r| == |acts|
    ensures forall k :: k in acts ==> ToView(acts[k]) in r
    ensures forall i :: 0 <= i < |r| ==> exists k :: k in acts && r[i] == ToView(acts[k])
  {
    var res := new ActivityView[|acts|];
    var remaining := acts.Keys;
    var i := 0;
    order := [];
    while remaining != {}
      invariant i == |order| && i + |remaining| == |acts|
      invariant remaining <= acts.Keys
      invariant forall j :: 0 <= j < i ==> order[j] in acts && order[j] !in remaining && res[j] == ToView(acts[order[j]])
      invariant forall j, l :: 0 <= j < l < i ==> order[j] != order[l]
      invariant forall k :: k in acts && k !in remaining ==> k in order
      decreases |remaining|
    {
      NonEmptyHasElement(remaining);
      var code :| code in remaining;
      res[i] := ToView(acts[code]);
      order := order + [code];
      remaining := remaining - {code};
      i := i + 1;
    }
    r := res[..];
    forall k | k in acts ensures ToView(acts[k]) in r {
      var j :| 0 <= j < |order| && order[j] == k;
      assert r[j] == ToView(acts[k]);
    }
  }

  /** `makeActivityLogs`: one entry per row, same order. */
  method MakeActivityLogs(acts: seq<Biz.ActivityLogResponse>) returns (r: seq<ActivityLogView>)
    ensures |r| == |acts|
    ensures forall i :: 0 <= i < |acts| ==>
      && r[i].account == acts[i].accountId && r[i].createAt == acts[i].createAt
      && r[i].activityName == acts[i].activityName && r[i].integral == acts[i].integral
  {
    var res := new ActivityLogView[|acts|];
    var i := 0;
    while i < |acts|
      invariant 0 <= i <= |acts|
      invariant forall j :: 0 <= j < i ==> res[j] == ToLogView(acts[j])
    {
      res[i] := ToLogView(acts[i]);
      i := i + 1;
    }
    r := res[..];
  }

  class ActivityService {
    var actMap: map<int, Biz.ActivityResponse>
    const activity: ActivityData.ActivityRepo
    const activityLog: ActivityLogData.ActivityLogRepo
    const account: AccountData.AccountRepo

    /** Every entry of the catalog snapshot sits under its own code. */
    predicate Valid()
      reads this
    {
      forall k :: k in actMap ==> actMap[k].activityCode == k
    }

    function Stores(): Ledger
      reads this, activity, activityLog, account
    {
      Ledger(account.rows, activity.counters, activityLog.logs)
    }

    /** The service starts with an empty catalog snapshot. */
    constructor (activity: ActivityData.ActivityRepo, activityLog: ActivityLogData.ActivityLogRepo,
                 account: AccountData.AccountRepo)
      ensures Valid() && actMap == map[]
      ensures this.activity == activity && this.activityLog == activityLog && this.account == account
    {
      actMap := map[];
      this.activity := activity;
      this.activityLog := activityLog;
      this.account := account;
    }

    /** Reload the catalog (every `RefreshPeriod` seconds): on failure the old
        snapshot stays, on success it is replaced by the index of the whole table. */
    method RefreshActMap(dbFails: bool)
      requires Valid()
      modifies this`actMap
      ensures Valid()
      ensures dbFails ==> actMap == old(actMap)
      ensures !dbFails ==> Biz.IndexedByCode(Catalog(activity.activities), actMap)
    {
      var res := activity.QueryActivity(dbFails);
      var indexed := Biz.QueryActivity(res);
      if indexed.Err? {
        return;
      }
      assert res.value == Catalog(activity.activities);
      actMap := indexed.value;
    }

    /** Play activity `code` as `account`. */
    method Play(code: int, account: string, uuid: string, now: int, f: PlayFaults) returns (err: Option<Error>)
      requires Valid()
      modifies this.account, this.activity`counters, this.activityLog
      ensures (err, Stores()) == PlayStep(actMap, old(Stores()), code, account, uuid, now, f)
    {
      var key := ActivityKey(code, account);
      if code !in actMap {
        return Some(ActivityNotExist);
      }
      var v := actMap[code];
      var n, rerr := activity.QueryActivityExpend(key, f.readFails);
      var (expend, e) := Biz.ExpendResult(n, rerr);
      if e.Some? {
        return e;
      }
      if expend >= v.limit {
        return Some(LimitReached);
      }
      var cerr := this.account.UpdateAccountIntegral(account, v.integral, f.creditFails);
      if cerr.Some? {
        return Biz.Wrapped(cerr);
      }
      var log := Biz.ActivityLogRequest(account, v.activityCode, v.activityName, v.integral);
      var lerr := activityLog.AddActivityLog(log, uuid, now, f.logFails);
      if lerr.Some? {
        return Biz.Wrapped(lerr);
      }
      var kerr := activity.ConsumeActivityLimit(key, Wrap64(expend + 1), CounterTtl, f.consumeFails);
      err := Biz.Wrapped(kerr);
    }

    /** Whether `account` has used up activity `code`; a store failure and an
        unknown activity both answer false without error. */
    method QueryIsLimit(code: int, account: string, readFails: bool) returns (limited: bool, err: Option<Error>)
      ensures err == None
      ensures limited <==> Limited(actMap, activity.counters, code, account, readFails)
    {
      var key := ActivityKey(code, account);
      if code in actMap {
        var v := actMap[code];
        var n, rerr := activity.QueryActivityExpend(key, readFails);
        var (expend, e) := Biz.ExpendResult(n, rerr);
        if e.Some? {
          return false, None;
        }
        if expend >= v.limit {
          return true, None;
        }
      }
      return false, None;
    }

    /** The catalog read afresh from the table (not from the snapshot). */
    method QueryActivitys(dbFails: bool) returns (r: Result<seq<ActivityView>, Error>, ghost order: seq<int>)
      ensures dbFails ==> r == Err(Internal(EngineFailure))
      ensures !dbFails ==> r.Ok?
      ensures !dbFails ==>
        exists m :: Biz.IndexedByCode(Catalog(activity.activities), m) && Enumerates(m, order, r.value)
    {
      order := [];
      var res := activity.QueryActivity(dbFails);
      var indexed := Biz.QueryActivity(res);
      if indexed.Err? {
        return Err(indexed.error), order;
      }
      assert res.value == Catalog(activity.activities);
      var list;
      list, order := MakeActivitys(indexed.value);
      r := Ok(list);
    }

    /** One page of `account`'s plays, newest first, and the number of all its plays. */
    method QueryActivityLogs(account: string, page: int, limit: int, findFails: bool, countFails: bool)
      returns (r: seq<ActivityLogView>, count: int, err: Option<Error>)
      ensures findFails || countFails ==> r == [] && count == 0 && err == Some(Internal(EngineFailure))
      ensures !findFails && !countFails ==>
        && err == None
        && count == |ActivityLogData.ForAccount(activityLog.logs, account)|
        && var rows := ActivityLogData.Page(ActivityLogData.NewestFirst(
             ActivityLogData.ForAccount(activityLog.logs, account)), page, limit);
        && |r| == |rows|
        && forall i :: 0 <= i < |rows| ==>
             r[i] == ActivityLogView(rows[i].createdAt, rows[i].accountId, rows[i].activityName, rows[i].integral)
    {
      var res, n, rerr := activityLog.QueryActivityLog(account, page, limit, findFails, countFails);
      var (list, c, e) := Biz.LogsResult(res, n, rerr);
      if e.Some? {
        return [], c, e;
      }
      r := MakeActivityLogs(list);
      count, err := c, None;
    }
  }

  // ---------------------------------------------------------------------
  // Properties of a play

  /** A code that is not in the catalog snapshot is refused and nothing is written. */
  lemma PlayUnknownActivity(actMap: map<int, Biz.ActivityResponse>, s: Ledger, code: int, account: string,
                            uuid: string, now: int, f: PlayFaults)
    requires code !in actMap
    ensures PlayStep(actMap, s, code, account, uuid, now, f) == (Some(ActivityNotExist), s)
  {
  }

  /** A play whose counter has reached the limit is refused and nothing is written. */
  lemma PlayAtLimit(actMap: map<int, Biz.ActivityResponse>, s: Ledger, code: int, account: string,
                    uuid: string, now: int, f: PlayFaults)
    requires Limited(actMap, s.counters, code, account, f.readFails)
    ensures PlayStep(actMap, s, code, account, uuid, now, f) == (Some(LimitReached), s)
  {
  }

  /** `QueryIsLimit` answers true exactly when a play would be refused for the limit. */
  lemma LimitedIffPlayRefused(actMap: map<int, Biz.ActivityResponse>, s: Ledger, code: int, account: string,
                              uuid: string, now: int, f: PlayFaults)
    ensures Limited(actMap, s.counters, code, account, f.readFails)
        <==> PlayStep(actMap, s, code, account, uuid, now, f).0 == Some(LimitReached)
  {
  }

  /** A play that completes credits the activity's points to the account, appends
      one log row for it, and sets the counter to one more than it read. */
  lemma PlaySucceeds(actMap: map<int, Biz.ActivityResponse>, s: Ledger, code: int, account: string,
                     uuid: string, now: int, n: int)
    requires code in actMap && IsInt64(actMap[code].limit)
    requires ActivityData.CounterRead(s.counters, ActivityKey(code, account)) == (n, None)
    requires n < actMap[code].limit
    ensures var (err, s') := PlayStep(actMap, s, code, account, uuid, now, NoFaults);
      && err == None
      && s'.accounts == AccountData.Credited(s.accounts, account, actMap[code].integral)
      && s'.logs == s.logs + [PlayLog(actMap[code], account, uuid, now)]
      && s'.counters == s.counters[ActivityKey(code, account) :=
                                   ActivityData.CounterEntry(Text.FormatInt(n + 1), CounterTtl)]
      && ActivityData.CounterRead(s'.counters, ActivityKey(code, account)) == (n + 1, None)
  {
    ActivityData.ConsumeThenRead(s.counters, ActivityKey(code, account), n + 1, CounterTtl);
  }

  /** The last allowed play: at `limit - 1` a play succeeds and leaves the counter at
      `limit`, after which the next play is refused. */
  lemma PlayBoundary(actMap: map<int, Biz.ActivityResponse>, s: Ledger, code: int, account: string,
                     uuid: string, now: int, uuid2: string, now2: int, f2: PlayFaults)
    requires code in actMap && IsInt64(actMap[code].limit) && actMap[code].limit > MinInt64
    requires ActivityData.CounterRead(s.counters, ActivityKey(code, account)) == (actMap[code].limit - 1, None)
    requires !f2.readFails
    ensures var (err, s1) := PlayStep(actMap, s, code, account, uuid, now, NoFaults);
      && err == None
      && ActivityData.CounterRead(s1.counters, ActivityKey(code, account)) == (actMap[code].limit, None)
      && PlayStep(actMap, s1, code, account, uuid2, now2, f2) == (Some(LimitReached), s1)
  {
    PlaySucceeds(actMap, s, code, account, uuid, now, actMap[code].limit - 1);
  }

  /** Through plays, a counter that does not exceed the activity's limit never
      comes to exceed it. */
  lemma PlayKeepsCounterWithinLimit(actMap: map<int, Biz.ActivityResponse>, s: Ledger, code: int, account: string,
                                    uuid: string, now: int, f: PlayFaults)
    requires code in actMap && IsInt64(actMap[code].limit)
    requires ActivityData.CounterRead(s.counters, ActivityKey(code, account)).0 <= actMap[code].limit
    ensures ActivityData.CounterRead(PlayStep(actMap, s, code, account, uuid, now, f).1.counters,
                                     ActivityKey(code, account)).0 <= actMap[code].limit
  {
    var key := ActivityKey(code, account);
    var read := ExpendRead(s.counters, key, f.readFails);
    if read.1.None? && read.0 < actMap[code].limit && !f.creditFails && !f.logFails && !f.consumeFails {
      ActivityData.ConsumeThenRead(s.counters, key, read.0 + 1, CounterTtl);
    }
  }

  /** A play touches no counter but its own (activity, account) pair's. */
  lemma PlayCountersIndependent(actMap: map<int, Biz.ActivityResponse>, s: Ledger, code: int, account: string,
                                uuid: string, now: int, f: PlayFaults, code2: int, account2: string)
    requires code2 != code || account2 != account
    ensures var s' := PlayStep(actMap, s, code, account, uuid, now, f).1;
      ActivityData.CounterRead(s'.counters, ActivityKey(code2, account2))
        == ActivityData.CounterRead(s.counters, ActivityKey(code2, account2))
  {
    if ActivityKey(code2, account2) == ActivityKey(code, account) {
      ActivityKeyInjective(code2, account2, code, account);
    }
  }

  /** A play touches no account but the player's, and only its `integral`. */
  lemma PlayTouchesOnlyPlayer(actMap: map<int, Biz.ActivityResponse>, s: Ledger, code: int, account: string,
                              uuid: string, now: int, f: PlayFaults)
    ensures var s' := PlayStep(actMap, s, code, account, uuid, now, f).1;
      && |s'.accounts| == |s.accounts|
      && forall i :: 0 <= i < |s.accounts| ==>
           && s'.accounts[i].(integral := s.accounts[i].integral) == s.accounts[i]
           && (s.accounts[i].accountId != account ==> s'.accounts[i] == s.accounts[i])
  {
    if code in actMap {
      AccountData.CreditedEffect(s.accounts, account, actMap[code].integral);
    }
  }

  /** There is no rollback: when the log or the counter step fails, the
      credit already made stays, and an error is returned. */
  lemma PlayNoRollback(actMap: map<int, Biz.ActivityResponse>, s: Ledger, code: int, account: string,
                       uuid: string, now: int, f: PlayFaults, n: int)
    requires code in actMap
    requires ExpendRead(s.counters, ActivityKey(code, account), f.readFails) == (n, None)
    requires n < actMap[code].limit
    requires !f.creditFails && (f.logFails || f.consumeFails)
    ensures var (err, s') := PlayStep(actMap, s, code, account, uuid, now, f);
      && err == Some(Internal(EngineFailure))
      && s'.accounts == AccountData.Credited(s.accounts, account, actMap[code].integral)
      && s'.counters == s.counters
  {
  }

  /** A play by an id with no account row still succeeds: no balance changes,
      but the play is logged and counted. */
  lemma PlayWithoutAccount(actMap: map<int, Biz.ActivityResponse>, s: Ledger, code: int, account: string,
                           uuid: string, now: int, n: int)
    requires code in actMap && IsInt64(actMap[code].limit)
    requires AccountData.FirstWithId(s.accounts, account).None?
    requires ActivityData.CounterRead(s.counters, ActivityKey(code, account)) == (n, None)
    requires n < actMap[code].limit
    ensures var (err, s') := PlayStep(actMap, s, code, account, uuid, now, NoFaults);
      && err == None && s'.accounts == s.accounts && |s'.logs| == |s.logs| + 1
  {
    AccountData.CreditedEffect(s.accounts, account, actMap[code].integral);
  }

  /** With a clock that does not go backwards, plays keep the log chronological. */
  lemma PlayKeepsLogChronological(actMap: map<int, Biz.ActivityResponse>, s: Ledger, code: int, account: string,
                                  uuid: string, now: int, f: PlayFaults)
    requires ActivityLogData.Chronological(s.logs)
    requires forall i :: 0 <= i < |s.logs| ==> s.logs[i].createdAt <= now
    ensures ActivityLogData.Chronological(PlayStep(actMap, s, code, account, uuid, now, f).1.logs)
  {
    if code in actMap {
      ActivityLogData.AppendKeepsChronological(s.logs, PlayLog(actMap[code], account, uuid, now));
    }
  }

  /** A counter that cannot be read stops the play before any write: an engine
      failure, or a stored value that is not an integer, is reported as
      `Internal` with that cause. */
  lemma PlayReadFailure(actMap: map<int, Biz.ActivityResponse>, s: Ledger, code: int, account: string,
                        uuid: string, now: int, f: PlayFaults)
    requires code in actMap
    ensures f.readFails ==> PlayStep(actMap, s, code, account, uuid, now, f) == (Some(Internal(EngineFailure)), s)
    ensures !f.readFails && ActivityData.CounterRead(s.counters, ActivityKey(code, account)).1 == Some(NotAnInteger) ==>
      PlayStep(actMap, s, code, account, uuid, now, f) == (Some(Internal(NotAnInteger)), s)
  {
  }

  /** A play of an activity worth a non-negative number of points keeps
      every account's claims covered. */
  lemma PlayKeepsClaimsCovered(actMap: map<int, Biz.ActivityResponse>, s: Ledger, code: int, account: string,
                               uuid: string, now: int, f: PlayFaults)
    requires AccountData.ClaimsCovered(s.accounts)
    requires code in actMap ==> actMap[code].integral >= 0
    ensures AccountData.ClaimsCovered(PlayStep(actMap, s, code, account, uuid, now, f).1.accounts)
  {
    if code in actMap {
      AccountData.CreditedEffect(s.accounts, account, actMap[code].integral);
    }
  }

  /** `Play` credits the catalog's `Integral` unchecked: an activity worth -1
      point takes a fresh account below what it has claimed. */
  lemma NegativeIntegralBreaksClaimsCovered()
    ensures var row := AccountData.Account("a", 0, 0, "", "", "", "", 0, "", 0);
      var actMap := map[1 := Biz.ActivityResponse(1, "x", -1, 1)];
      var s := Ledger([row], map[], []);
      && AccountData.ClaimsCovered(s.accounts)
      && !AccountData.ClaimsCovered(PlayStep(actMap, s, 1, "a", "u", 0, NoFaults).1.accounts)
  {
    var row := AccountData.Account("a", 0, 0, "", "", "", "", 0, "", 0);
    var actMap := map[1 := Biz.ActivityResponse(1, "x", -1, 1)];
    var s := Ledger([row], map[], []);
    var accounts := PlayStep(actMap, s, 1, "a", "u", 0, NoFaults).1.accounts;
    assert ActivityData.CounterRead(s.counters, ActivityKey(1, "a")) == (0, None);
    assert accounts == AccountData.Credited([row], "a", -1);
    assert accounts[0].integral == -1 && accounts[0].received == 0;
  }
}
