/**
 * The activity log repository (internal/data/activity_log.go): an
 * append-only table of plays, and the paged per-account query over it.
 *
 * The table is the sequence of rows in insertion order.  A row is never
 * updated, so its `updated_at` is its `created_at`, and ordering by
 * `updated_at desc` sorts by creation time, newest first (rows created within
 * the same clock tick are taken newest insertion first).  Only when the rows
 * were stamped by a clock that never goes backwards is that the table read
 * back to front.
 */
module ActivityLogData {
  import opened Base
  import Biz

  datatype ActivityLog = ActivityLog(
    uuid: string, accountId: string, activityCode: int, activityName: string,
    integral: int, createdAt: int)

  /** Rows were inserted with a clock that never goes backwards. */
  ghost predicate Chronological(logs: seq<ActivityLog>)
  {
    forall i, j :: 0 <= i < j < |logs| ==> logs[i].createdAt <= logs[j].createdAt
  }

  ghost predicate NewestFirstOrder(logs: seq<ActivityLog>)
  {
    forall i, j :: 0 <= i < j < |logs| ==> logs[i].createdAt >= logs[j].createdAt
  }

  /** `Where("account_id = ?", account)`, in table order. */
  function ForAccount(logs: seq<ActivityLog>, account: string): (r: seq<ActivityLog>)
    ensures |r| <= |logs|
    ensures forall k :: 0 <= k < |r| ==> r[k].accountId == account && r[k] in logs
    ensures forall i :: 0 <= i < |logs| && logs[i].accountId == account ==> logs[i] in r
    decreases |logs|
  {
    if logs == [] then []
    else (if logs[0].accountId == account then [logs[0]] else []) + ForAccount(logs[1..], account)
  }

  /** The filtered rows of a chronological table are still chronological. */
  lemma {:induction false} ForAccountChronological(logs: seq<ActivityLog>, account: string)
    requires Chronological(logs)
    ensures Chronological(ForAccount(logs, account))
    decreases |logs|
  {
    if logs != [] {
      var rest := logs[1..];
      assert Chronological(rest);
      ForAccountChronological(rest, account);
      var tail := ForAccount(rest, account);
      if logs[0].accountId == account {
        assert forall i :: 0 <= i < |rest| ==> logs[0].createdAt <= rest[i].createdAt;
        ForAccountNotBefore(rest, account, logs[0].createdAt);
        ConsChronological(logs[0], tail);
        assert ForAccount(logs, account) == [logs[0]] + tail;
      } else {
        assert ForAccount(logs, account) == tail;
      }
    }
  }

  /** Filtering keeps every row no earlier than a bound all rows respect. */
  lemma ForAccountNotBefore(logs: seq<ActivityLog>, account: string, t: int)
    requires forall i :: 0 <= i < |logs| ==> t <= logs[i].createdAt
    ensures forall k :: 0 <= k < |ForAccount(logs, account)| ==> t <= ForAccount(logs, account)[k].createdAt
  {
  }

  lemma ConsChronological(row: ActivityLog, logs: seq<ActivityLog>)
    requires Chronological(logs)
    requires forall k :: 0 <= k < |logs| ==> row.createdAt <= logs[k].createdAt
    ensures Chronological([row] + logs)
  {
    var r := [row] + logs;
    forall i, j | 0 <= i < j < |r| ensures r[i].createdAt <= r[j].createdAt {
      assert r[j] == logs[j - 1];
      if i > 0 {
        assert r[i] == logs[i - 1];
      }
    }
  }

  /** The table read back to front: the newest insertion first. */
  function Reversed(logs: seq<ActivityLog>): (r: seq<ActivityLog>)
    ensures |r| == |logs|
    ensures forall i :: 0 <= i < |logs| ==> r[i] == logs[|logs| - 1 - i]
    decreases |logs|
  {
    if logs == [] then [] else [logs[|logs| - 1]] + Reversed(logs[..|logs| - 1])
  }

  /** Every row of `rows` is no later than `t`. */
  ghost predicate NotAfter(rows: seq<ActivityLog>, t: int)
  {
    forall k :: 0 <= k < |rows| ==> rows[k].createdAt <= t
  }

  /** Rows drawn from two bounded collections are bounded too. */
  lemma NotAfterFromMultiset(r: seq<ActivityLog>, s: seq<ActivityLog>, row: ActivityLog, t: int)
    requires multiset(r) == multiset(s) + multiset{row}
    requires NotAfter(s, t) && row.createdAt <= t
    ensures NotAfter(r, t)
  {
    forall k | 0 <= k < |r| ensures r[k].createdAt <= t {
      assert r[k] in multiset(r);
      if r[k] != row {
        assert r[k] in multiset(s);
        var j :| 0 <= j < |s| && s[j] == r[k];
      }
    }
  }

  /** Place `row`, inserted after every row of the newest-first list `s`,
      before the first row it is not older than. */
  function Insert(row: ActivityLog, s: seq<ActivityLog>): (r: seq<ActivityLog>)
    requires NewestFirstOrder(s)
    ensures NewestFirstOrder(r)
    ensures multiset(r) == multiset(s) + multiset{row}
    ensures |r| == |s| + 1
    decreases |s|
  {
    if s == [] || s[0].createdAt <= row.createdAt then [row] + s
    else
      assert s == [s[0]] + s[1..];
      var t := Insert(row, s[1..]);
      assert NotAfter(t, s[0].createdAt) by {
        assert NotAfter(s[1..], s[0].createdAt);
        NotAfterFromMultiset(t, s[1..], row, s[0].createdAt);
      }
      [s[0]] + t
  }

  /** `Order("updated_at desc")` on rows never updated: sorted by creation
      time, newest first, ties newest insertion first. */
  function NewestFirst(logs: seq<ActivityLog>): (r: seq<ActivityLog>)
    ensures NewestFirstOrder(r)
    ensures multiset(r) == multiset(logs)
    ensures |r| == |logs|
    decreases |logs|
  {
    if logs == [] then []
    else
      assert logs == logs[..|logs| - 1] + [logs[|logs| - 1]];
      Insert(logs[|logs| - 1], NewestFirst(logs[..|logs| - 1]))
  }

  /** On a table stamped by a clock that never goes backwards, the sort is
      the table read back to front. */
  lemma {:induction false} NewestFirstChronological(logs: seq<ActivityLog>)
    requires Chronological(logs)
    ensures NewestFirst(logs) == Reversed(logs)
    decreases |logs|
  {
    if logs != [] {
      var n := |logs|;
      var init := logs[..n - 1];
      assert Chronological(init);
      NewestFirstChronological(init);
      if init != [] {
        assert NewestFirst(init)[0] == init[n - 2];
      }
    }
  }

  /** Where gorm starts the page.  `(page-1)*limit` is Go `int` arithmetic,
      so it wraps around at 64 bits, and `OFFSET` is only emitted when it is
      positive. */
  function PageStart(page: int, limit: int, n: nat): (s: nat)
    ensures s <= n
  {
    var offset := Wrap64(Wrap64(page - 1) * limit);
    if offset <= 0 then 0 else if offset < n then offset else n
  }

  /** A page number so large that `(page-1)*limit` wraps around to 0 gives
      the first page again. */
  lemma HugePageIsFirstPage(rows: seq<ActivityLog>)
    requires |rows| >= 4
    ensures Page(rows, 0x4000_0000_0000_0001, 4) == rows[..4]
  {
    assert Wrap64(0x4000_0000_0000_0001 - 1) == 0x4000_0000_0000_0000;
    assert Wrap64(0x4000_0000_0000_0000 * 4) == 0;
  }

  /** `Offset((page-1)*limit).Limit(limit)`: a negative limit is not emitted. */
  function Page(rows: seq<ActivityLog>, page: int, limit: int): (r: seq<ActivityLog>)
    ensures var s := PageStart(page, limit, |rows|);
      && s + |r| <= |rows| && r == rows[s..s + |r|]
      && (limit >= 0 ==> |r| == if limit < |rows| - s then limit else |rows| - s)
      && (limit < 0 ==> |r| == |rows| - s)
  {
    var rest := rows[PageStart(page, limit, |rows|)..];
    if 0 <= limit < |rest| then rest[..limit] else rest
  }

  /** An offset that fits an `int64` does not wrap, and the page starts
      there (or at the end of the rows). */
  lemma PageStartFits(page: int, limit: int, n: nat)
    requires page >= 1 && limit > 0 && (page - 1) * limit <= MaxInt64
    ensures PageStart(page, limit, n) == if (page - 1) * limit < n then (page - 1) * limit else n
  {
    var p := page - 1;
    NotBelowFactor(p, limit);
    assert IsInt64(p);
    assert Wrap64(p) == p;
    assert IsInt64(p * limit);
  }

  lemma NextMultiple(p: int, l: int)
    ensures (p + 1) * l == p * l + l
  {
  }

  lemma NotBelowFactor(a: int, b: int)
    requires a >= 0 && b >= 1
    ensures a <= a * b
  {
  }

  /** A page of non-negative size is the slice from its start. */
  lemma PageAt(rows: seq<ActivityLog>, page: int, limit: int, start: nat)
    requires limit >= 0 && PageStart(page, limit, |rows|) == start
    ensures start <= |rows|
    ensures Page(rows, page, limit) == rows[start..if start + limit <= |rows| then start + limit else |rows|]
  {
  }

  /** Consecutive pages of the same size continue one another (on a table
      whose row count, like gorm's `Count`, fits an `int64`). */
  lemma PagesContinue(rows: seq<ActivityLog>, page: int, limit: int)
    requires page >= 1 && limit > 0
    requires page * limit <= |rows| <= MaxInt64
    ensures Page(rows, page, limit) + Page(rows, page + 1, limit)
         == rows[(page - 1) * limit..if (page + 1) * limit <= |rows| then (page + 1) * limit else |rows|]
  {
    var a := (page - 1) * limit;
    var b := page * limit;
    NextMultiple(page - 1, limit);
    NextMultiple(page, limit);
    var e := if b + limit <= |rows| then b + limit else |rows|;
    PageStartFits(page, limit, |rows|);
    PageStartFits(page + 1, limit, |rows|);
    PageAt(rows, page, limit, a);
    PageAt(rows, page + 1, limit, if b < |rows| then b else |rows|);
    assert rows[a..b] + rows[b..e] == rows[a..e];
  }

  /** The listing of `account` holds exactly its rows, in non-increasing
      time order; with a clock that never goes backwards it is its rows in
      reverse insertion order. */
  lemma NewestFirstSorted(logs: seq<ActivityLog>, account: string)
    ensures NewestFirstOrder(NewestFirst(ForAccount(logs, account)))
    ensures multiset(NewestFirst(ForAccount(logs, account))) == multiset(ForAccount(logs, account))
    ensures forall k :: 0 <= k < |NewestFirst(ForAccount(logs, account))| ==>
      NewestFirst(ForAccount(logs, account))[k].accountId == account
    ensures Chronological(logs) ==> NewestFirst(ForAccount(logs, account)) == Reversed(ForAccount(logs, account))
  {
    var mine := ForAccount(logs, account);
    var r := NewestFirst(mine);
    forall k | 0 <= k < |r| ensures r[k].accountId == account {
      assert r[k] in multiset(mine);
      var j :| 0 <= j < |mine| && mine[j] == r[k];
    }
    if Chronological(logs) {
      ForAccountChronological(logs, account);
      NewestFirstChronological(mine);
    }
  }

  /** A page of a newest-first listing is itself newest first. */
  lemma PageKeepsOrder(rows: seq<ActivityLog>, page: int, limit: int)
    requires NewestFirstOrder(rows)
    ensures NewestFirstOrder(Page(rows, page, limit))
  {
    var s := PageStart(page, limit, |rows|);
    var r := Page(rows, page, limit);
    forall i, j | 0 <= i < j < |r| ensures r[i].createdAt >= r[j].createdAt {
      assert r[i] == rows[s + i] && r[j] == rows[s + j];
    }
  }

  function ToBiz(l: ActivityLog): Biz.ActivityLogResponse
  {
    Biz.ActivityLogResponse(l.accountId, l.activityCode, l.activityName, l.integral, l.createdAt)
  }

  /** `makeActivityLogsToBizRes`: one response per row, same order,
      `CreatedAt` becoming `CreateAt`. */
  method MakeActivityLogsToBizRes(logs: seq<ActivityLog>) returns (r: seq<Biz.ActivityLogResponse>)
    ensures |r| == |logs|
    ensures forall i :: 0 <= i < |logs| ==>
      && r[i].accountId == logs[i].accountId && r[i].activityCode == logs[i].activityCode
      && r[i].activityName == logs[i].activityName && r[i].integral == logs[i].integral
      && r[i].createAt == logs[i].createdAt
  {
    var res := new Biz.ActivityLogResponse[|logs|];
    var i := 0;
    while i < |logs|
      invariant 0 <= i <= |logs|
      invariant forall j :: 0 <= j < i ==> res[j] == ToBiz(logs[j])
    {
      res[i] := ToBiz(logs[i]);
      i := i + 1;
    }
    r := res[..];
  }

  class ActivityLogRepo {
    var logs: seq<ActivityLog>

    constructor (logs: seq<ActivityLog>)
      ensures this.logs == logs
    {
      this.logs := logs;
    }

    /** Insert one row carrying the request's fields, a fresh `uuid` and the
        creation time `now`. */
    method AddActivityLog(req: Biz.ActivityLogRequest, uuid: string, now: int, dbFails: bool)
      returns (err: Option<RepoError>)
      modifies this
      ensures dbFails ==> err == Some(EngineFailure) && logs == old(logs)
      ensures !dbFails ==> err == None
      ensures !dbFails ==>
        logs == old(logs) + [ActivityLog(uuid, req.accountId, req.activityCode, req.activityName, req.integral, now)]
    {
      if dbFails {
        return Some(EngineFailure);
      }
      logs := logs + [ActivityLog(uuid, req.accountId, req.activityCode, req.activityName, req.integral, now)];
      err := None;
    }

    /** One page of the account's plays, newest first, and the number of all
        its plays.  Either query failing gives no list and a count of 0. */
    method QueryActivityLog(account: string, page: int, limit: int, findFails: bool, countFails: bool)
      returns (res: seq<Biz.ActivityLogResponse>, count: int, err: Option<RepoError>)
      ensures findFails || countFails ==> res == [] && count == 0 && err == Some(EngineFailure)
      ensures !findFails && !countFails ==> err == None
      ensures !findFails && !countFails ==> count == |ForAccount(logs, account)|
      ensures !findFails && !countFails ==>
        var rows := Page(NewestFirst(ForAccount(logs, account)), page, limit);
        |res| == |rows| && forall i :: 0 <= i < |rows| ==> res[i] == ToBiz(rows[i])
    {
      if findFails {
        return [], 0, Some(EngineFailure);
      }
      var rows := Page(NewestFirst(ForAccount(logs, account)), page, limit);
      if countFails {
        return [], 0, Some(EngineFailure);
      }
      count := |ForAccount(logs, account)|;
      res := MakeActivityLogsToBizRes(rows);
      err := None;
    }
  }

  /** Appending a row stamped no earlier than every row before keeps the
      table chronological. */
  lemma AppendKeepsChronological(logs: seq<ActivityLog>, row: ActivityLog)
    requires Chronological(logs)
    requires forall i :: 0 <= i < |logs| ==> logs[i].createdAt <= row.createdAt
    ensures Chronological(logs + [row])
  {
  }
}
