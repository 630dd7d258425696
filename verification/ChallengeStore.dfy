/** The store itself: a map keyed by hexadecimal strings, proved against the table of records. */
module ChallengeStore {
  import opened Bytes
  import opened Challenges
  import opened HexKeys
  import opened Protocol

  class ChallengeStore {
    var store: map<string, ChallengeRecord>
    /** The same records by session id. */
    ghost var records: Table

    ghost predicate Valid()
      reads this
    {
      Refines(store, records)
    }

    constructor ()
      ensures Valid() && records == map[]
    {
      store := map[];
      records := map[];
    }

    method AddChallenge(record: ChallengeRecord)
      requires Valid()
      modifies this
      ensures Valid() && records == old(records)[record.sessionId := record]
    {
      var key := BytesToKey(record.sessionId);
      RefinesUpdate(store, records, record.sessionId, record);
      store := store[key := record];
      records := records[record.sessionId := record];
    }

    /** outRecord is the record that answers the query, and is left alone otherwise. */
    method ValidateChallenge(q: Query, currentTimeMs: Uint64) returns (e: ErrorCode, outRecord: Option<ChallengeRecord>)
      requires Valid()
      ensures e == Verdict(records, q, currentTimeMs)
      ensures outRecord == if e == Success then Some(records[q.sessionId]) else None
    {
      var key := BytesToKey(q.sessionId);
      RefinesLookup(store, records, q.sessionId);
      if key !in store {
        return ChallengeNotFound, None;
      }
      var rec := store[key];
      if rec.state == Consumed {
        return ChallengeAlreadyConsumed, None;
      }
      if rec.state == Expired || currentTimeMs > rec.expirationTimestampMs {
        return ChallengeExpired, None;
      }
      if rec.deviceId != q.deviceId {
        return DeviceMismatch, None;
      }
      if rec.pcId != q.pcId {
        return PcMismatch, None;
      }
      if rec.challenge != q.challenge {
        return ChallengeNotFound, None;
      }
      return Success, Some(rec);
    }

    /** ConsumeChallenge has the same body. */
    method ValidateAndConsumeChallenge(q: Query, currentTimeMs: Uint64) returns (e: ErrorCode)
      requires Valid()
      modifies this
      ensures e == Verdict(old(records), q, currentTimeMs)
      ensures Valid() && records == AfterConsume(old(records), q, currentTimeMs)
    {
      var key := BytesToKey(q.sessionId);
      RefinesLookup(store, records, q.sessionId);
      if key !in store {
        return ChallengeNotFound;
      }
      var rec := store[key];
      if rec.state == Consumed {
        return ChallengeAlreadyConsumed;
      }
      if rec.state == Expired || currentTimeMs > rec.expirationTimestampMs {
        SetState(q.sessionId, key, Expired);
        return ChallengeExpired;
      }
      if rec.deviceId != q.deviceId {
        return DeviceMismatch;
      }
      if rec.pcId != q.pcId {
        return PcMismatch;
      }
      if rec.challenge != q.challenge {
        return ChallengeNotFound;
      }
      SetState(q.sessionId, key, Consumed);
      return Success;
    }

    /** rec.state = state, through the reference into the map. */
    method SetState(ghost id: Uuid, key: string, state: State)
      requires Valid() && id in records && key == Hex(id)
      modifies this
      ensures Valid() && records == WithState(old(records), id, state) && store.Keys == old(store.Keys)
    {
      RefinesLookup(store, records, id);
      RefinesUpdate(store, records, id, records[id].(state := state));
      store := store[key := store[key].(state := state)];
      records := WithState(records, id, state);
    }

    method ExpireEntry(ghost id: Uuid, key: string, currentTimeMs: Uint64) returns (expired: bool)
      requires Valid() && id in records && key == Hex(id)
      modifies this
      ensures Valid() && records == old(records)[id := ExpireRecord(old(records)[id], currentTimeMs)]
      ensures expired <==> id in Overdue(old(records), currentTimeMs)
      ensures store.Keys == old(store.Keys)
    {
      RefinesLookup(store, records, id);
      expired := store[key].state == Outstanding && currentTimeMs > store[key].expirationTimestampMs;
      if expired {
        SetState(id, key, Expired);
      }
      assert !expired ==> records == records[id := records[id]];
    }

    /** The loop visits the records in the order of the hash table, which is any order. */
    method ExpireChallenges(currentTimeMs: Uint64) returns (count: nat)
      requires Valid()
      modifies this
      ensures Valid() && records == AfterExpire(old(records), currentTimeMs)
      ensures records.Keys == old(records).Keys
      ensures forall s :: s in records ==>
        var rec := old(records)[s];
        records[s] == if rec.state == Outstanding && currentTimeMs > rec.expirationTimestampMs
                      then rec.(state := Expired) else rec
      ensures count == |Overdue(old(records), currentTimeMs)|
      ensures count == Count(old(records), Outstanding) - Count(records, Outstanding)
    {
      ghost var before := records;
      ghost var overdue, done: set<Uuid> := Overdue(before, currentTimeMs), {};
      count := 0;
      var todo := store.Keys;
      while todo != {}
        invariant Valid() && records == PartlyExpired(before, done, currentTimeMs)
        invariant Unvisited(before.Keys, todo, done) && todo <= store.Keys
        invariant count == |overdue * done|
        decreases |todo|
      {
        var key :| key in todo;
        ghost var id := IdOf(store, records, key);
        Visit(before.Keys, todo, done, id);
        CountOne(overdue, done, id);
        ExpireOne(before, done, currentTimeMs, id);
        var expired := ExpireEntry(id, key, currentTimeMs);
        if expired {
          count := count + 1;
        }
        todo, done := todo - {key}, done + {id};
      }
      AllVisited(before.Keys, todo, done);
      ExpiredAll(before, currentTimeMs);
    }

    method GetActiveCount() returns (count: nat)
      requires Valid()
      ensures count == Count(records, Outstanding)
    {
      ghost var active, done: set<Uuid> := Those(records, Outstanding), {};
      count := 0;
      var todo := store.Keys;
      while todo != {}
        invariant Unvisited(records.Keys, todo, done) && todo <= store.Keys
        invariant count == |active * done|
        decreases |todo|
      {
        var key :| key in todo;
        ghost var id := IdOf(store, records, key);
        RefinesLookup(store, records, id);
        Visit(records.Keys, todo, done, id);
        CountOne(active, done, id);
        if store[key].state == Outstanding {
          count := count + 1;
        }
        todo, done := todo - {key}, done + {id};
      }
      AllVisited(records.Keys, todo, done);
      assert active * done == active;
    }
  }

  /** The table while the loop of ExpireChallenges is under way. */
  ghost function PartlyExpired(t: Table, done: set<Uuid>, now: Uint64): Table {
    map s | s in t :: if s in done then ExpireRecord(t[s], now) else t[s]
  }

  lemma {:induction false} ExpireOne(t: Table, done: set<Uuid>, now: Uint64, id: Uuid)
    requires id in t && id !in done
    ensures var partly, next := PartlyExpired(t, done, now), PartlyExpired(t, done + {id}, now);
      partly[id] == t[id] && next == partly[id := ExpireRecord(t[id], now)]
  {
  }

  lemma {:induction false} ExpiredAll(t: Table, now: Uint64)
    ensures PartlyExpired(t, t.Keys, now) == AfterExpire(t, now) && Overdue(t, now) * t.Keys == Overdue(t, now)
    ensures |Overdue(t, now)| == Count(t, Outstanding) - Count(AfterExpire(t, now), Outstanding)
  {
    ExpireCounts(t, now);
  }

  lemma {:induction false} CountOne(all: set<Uuid>, done: set<Uuid>, id: Uuid)
    requires id !in done
    ensures |all * (done + {id})| == |all * done| + (if id in all then 1 else 0)
  {
    assert all * (done + {id}) == all * done + (if id in all then {id} else {});
  }
}
