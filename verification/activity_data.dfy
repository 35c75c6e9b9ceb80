/**
 * The activity repository (internal/data/activity.go): the activity catalog,
 * a table, and the per-(activity, account) play counters, kept in Redis as
 * decimal strings with a time to live.
 */
module ActivityData {
  import opened Base
  import Text
  import Biz

  datatype Activity = Activity(
    uuid: string, activityCode: int, activityName: string, integral: int, limit: int)

  /** A Redis string value and the time to live (in seconds) it was set with. */
  datatype CounterEntry = CounterEntry(raw: string, ttl: int)

  function ToBiz(a: Activity): Biz.ActivityResponse
  {
    Biz.ActivityResponse(a.activityCode, a.activityName, a.integral, a.limit)
  }

  /** `makeActivityToBizResponse`: one response per row, same order, with
      code, name, integral and limit copied. */
  method MakeActivityToBizResponse(acts: seq<Activity>) returns (r: seq<Biz.ActivityResponse>)
    ensures |r| == |acts|
    ensures forall i :: 0 <= i < |acts| ==>
      && r[i].activityCode == acts[i].activityCode && r[i].activityName == acts[i].activityName
      && r[i].integral == acts[i].integral && r[i].limit == acts[i].limit
  {
    var res := new Biz.ActivityResponse[|acts|];
    var i := 0;
    while i < |acts|
      invariant 0 <= i <= |acts|
      invariant forall j :: 0 <= j < i ==> res[j] == ToBiz(acts[j])
    {
      res[i] := ToBiz(acts[i]);
      i := i + 1;
    }
    r := res[..];
  }

  /** What `QueryActivityExpend` reads from a store that answers: a missing
      key is 0 without error, a stored value that `strconv.Atoi` rejects is 0
      with an error. */
  function CounterRead(counters: map<string, CounterEntry>, key: string): (r: (int, Option<RepoError>))
    ensures key !in counters ==> r == (0, None)
    ensures key in counters && Text.Atoi(counters[key].raw).Ok? ==> r == (Text.Atoi(counters[key].raw).value, None)
    ensures key in counters && Text.Atoi(counters[key].raw).Err? ==> r == (0, Some(NotAnInteger))
    ensures IsInt64(r.0)
  {
    if key !in counters then (0, None)
    else match Text.Atoi(counters[key].raw)
      case Ok(n) => (n, None)
      case Err(e) => (0, Some(e))
  }

  /** A counter written by `ConsumeActivityLimit` reads back as the value written. */
  lemma ConsumeThenRead(counters: map<string, CounterEntry>, key: string, n: int, ttl: int)
    requires IsInt64(n)
    ensures CounterRead(counters[key := CounterEntry(Text.FormatInt(n), ttl)], key) == (n, None)
  {
    Text.AtoiFormatInt(n);
  }

  /** Writing one counter leaves every other counter's reading alone. */
  lemma ConsumeKeepsOthers(counters: map<string, CounterEntry>, key: string, other: string, n: int, ttl: int)
    requires other != key
    ensures CounterRead(counters[key := CounterEntry(Text.FormatInt(n), ttl)], other) == CounterRead(counters, other)
  {
  }

  class ActivityRepo {
    var activities: seq<Activity>
    var counters: map<string, CounterEntry>

    constructor (activities: seq<Activity>, counters: map<string, CounterEntry>)
      ensures this.activities == activities && this.counters == counters
    {
      this.activities := activities;
      this.counters := counters;
    }

    /** The whole catalog.  `Find` emits no `ORDER BY`, so the engine
        promises no order; the listing is taken in table order. */
    method QueryActivity(dbFails: bool) returns (r: Result<seq<Biz.ActivityResponse>, RepoError>)
      ensures dbFails ==> r == Err(EngineFailure)
      ensures !dbFails ==> r.Ok? && |r.value| == |activities|
      ensures !dbFails ==> forall i :: 0 <= i < |activities| ==> r.value[i] == ToBiz(activities[i])
    {
      if dbFails {
        return Err(EngineFailure);
      }
      var list := MakeActivityToBizResponse(activities);
      r := Ok(list);
    }

    /** `SET key n EX ttl`: the counter becomes `n`, whatever it was. */
    method ConsumeActivityLimit(key: string, n: int, ttl: int, redisFails: bool) returns (err: Option<RepoError>)
      modifies this`counters
      ensures redisFails ==> err == Some(EngineFailure) && counters == old(counters)
      ensures !redisFails ==> err == None && counters == old(counters)[key := CounterEntry(Text.FormatInt(n), ttl)]
    {
      if redisFails {
        return Some(EngineFailure);
      }
      counters := counters[key := CounterEntry(Text.FormatInt(n), ttl)];
      err := None;
    }

    /** `GET key`, read as an integer. */
    method QueryActivityExpend(key: string, redisFails: bool) returns (n: int, err: Option<RepoError>)
      ensures redisFails ==> n == 0 && err == Some(EngineFailure)
      ensures !redisFails && key !in counters ==> n == 0 && err == None
      ensures !redisFails && key in counters ==>
        match Text.Atoi(counters[key].raw)
        case Ok(v) => n == v && err == None
        case Err(_) => n == 0 && err == Some(NotAnInteger)
    {
      if redisFails {
        return 0, Some(EngineFailure);
      }
      if key !in counters {
        return 0, None;
      }
      var parsed := Text.Atoi(counters[key].raw);
      if parsed.Err? {
        return 0, Some(parsed.error);
      }
      n, err := parsed.value, None;
    }

    /** The counter's time to live runs out: Redis drops the key. */
    method Expire(key: string)
      modifies this`counters
      ensures counters == old(counters) - {key}
    {
      counters := counters - {key};
    }
  }
}
