/**
 * The in-memory cache backend (src/TreasureChest/Cache/Faux.php): a map
 * from key to a (value, expiry) pair.  The pure functions below say what
 * each operation does to the map; the class FauxCache performs the same
 * updates in place and its methods are proved against those functions.
 */
module Faux {
  import opened Php

  /**
   * One slot of the store.  expiry is None when inc or dec created the
   * slot: the code then writes only the value half of the pair.
   */
  datatype Entry = Entry(value: Value, expiry: Option<int>)

  type Data = map<string, Entry>

  /** The expiry store() records: never (IntMax) for ttl 0, otherwise now + ttl. */
  function ExpiryFor(ttl: int, now: int): int
  {
    if ttl == 0 then IntMax else now + ttl
  }

  /** exists(): the key is held and its expiry lies strictly after now. */
  predicate Live(data: Data, key: string, now: int)
  {
    key in data && data[key].expiry.Some? && data[key].expiry.value > now
  }

  /** The map after store(key, v, ttl). */
  function Stored(data: Data, key: string, v: Value, ttl: int, now: int): (r: Data)
    ensures r.Keys == data.Keys + {key}
    ensures forall k :: k in data && k != key ==> r[k] == data[k]
    ensures r[key].value == v
    ensures Live(r, key, now) <==> ttl > 0 || (ttl == 0 && now < IntMax)
  {
    data[key := Entry(v, Some(ExpiryFor(ttl, now)))]
  }

  /** add() succeeds exactly when the key is not held at all, live or not. */
  predicate AddSucceeds(data: Data, key: string)
  {
    key !in data
  }

  /** The map after add(key, v, ttl). */
  function Added(data: Data, key: string, v: Value, ttl: int, now: int): Data
  {
    if AddSucceeds(data, key) then Stored(data, key, v, ttl, now) else data
  }

  /** The map after replace(key, v, ttl). */
  function Replaced(data: Data, key: string, v: Value, ttl: int, now: int): Data
  {
    if Live(data, key, now) then Stored(data, key, v, ttl, now) else data
  }

  /** fetch(): the stored value of a live key, false otherwise. */
  function Fetched(data: Data, key: string, now: int): Value
  {
    if Live(data, key, now) then data[key].value else VBool(false)
  }

  /** The value inc(key, delta) and dec(key, -delta) compute and return. */
  function AdjustedValue(data: Data, key: string, delta: int, now: int): int
  {
    IntCast(Fetched(data, key, now)) + delta
  }

  /** The map after inc(key, delta) or dec(key, -delta): only the value half changes. */
  function Adjusted(data: Data, key: string, delta: int, now: int): (r: Data)
    ensures r.Keys == data.Keys + {key}
    ensures forall k :: k in data && k != key ==> r[k] == data[k]
    ensures r[key].value == VInt(AdjustedValue(data, key, delta, now))
    ensures r[key].expiry == if key in data then data[key].expiry else None
  {
    var n := AdjustedValue(data, key, delta, now);
    if key in data then data[key := data[key].(value := VInt(n))]
    else data[key := Entry(VInt(n), None)]
  }

  /** The map after delete(key). */
  function Deleted(data: Data, key: string, now: int): (r: Data)
    ensures r.Keys == if Live(data, key, now) then data.Keys - {key} else data.Keys
    ensures forall k :: k in r ==> r[k] == data[k]
  {
    if Live(data, key, now) then data - {key} else data
  }

  // -----------------------------------------------------------------------
  // Properties of the store

  /** What store() writes, fetch() returns at the same instant, unless the ttl is negative. */
  lemma StoreThenFetch(data: Data, key: string, v: Value, ttl: int, now: int)
    requires ttl > 0 || (ttl == 0 && now < IntMax)
    ensures Fetched(Stored(data, key, v, ttl, now), key, now) == v
  {
  }

  /** inc on a stored array counts from its (int) cast: 0 for the empty array, 1 otherwise. */
  lemma IncOfStoredStruct(data: Data, key: string, tag: string, empty: bool, ttl: int, now: int, step: int)
    requires ttl > 0 || (ttl == 0 && now < IntMax)
    ensures AdjustedValue(Stored(data, key, VStruct(tag, empty), ttl, now), key, step, now)
         == if empty then step else 1 + step
  {
    StoreThenFetch(data, key, VStruct(tag, empty), ttl, now);
  }

  /** A key held with an expired slot makes add() fail although exists() is false. */
  lemma AddRefusesExpiredKey(data: Data, key: string, v: Value, ttl: int, now: int)
    requires key in data && !Live(data, key, now)
    ensures Added(data, key, v, ttl, now) == data
    ensures Fetched(data, key, now) == VBool(false)
  {
  }

  /** inc followed by dec by the same step restores a live integer entry exactly. */
  lemma IncThenDecRestores(data: Data, key: string, step: int, now: int)
    requires Live(data, key, now) && data[key].value.VInt?
    ensures Adjusted(Adjusted(data, key, step, now), key, -step, now) == data
  {
    var once := Adjusted(data, key, step, now);
    assert Live(once, key, now);
    var twice := Adjusted(once, key, -step, now);
    assert twice[key] == data[key];
  }

  /**
   * inc on a key the store does not hold creates a slot with no expiry:
   * inc reports the new value, yet the key never exists afterwards.
   */
  lemma IncOfAbsentKeyIsInvisible(data: Data, key: string, step: int, now: int, later: int)
    requires key !in data
    ensures AdjustedValue(data, key, step, now) == step
    ensures !Live(Adjusted(data, key, step, now), key, later)
    ensures Fetched(Adjusted(data, key, step, now), key, later) == VBool(false)
  {
  }

  /** An entry whose expiry has passed is never revived by inc or dec. */
  lemma AdjustKeepsExpiry(data: Data, key: string, delta: int, now: int, later: int)
    ensures Live(Adjusted(data, key, delta, now), key, later) <==> Live(data, key, later)
  {
  }

  // -----------------------------------------------------------------------
  // The backend object

  class FauxCache {
    var data: Data

    constructor()
      ensures data == map[]
    {
      data := map[];
    }

    method Add(key: string, v: Value, ttl: int, now: int) returns (ok: bool)
      modifies this
      ensures ok == AddSucceeds(old(data), key)
      ensures data == Added(old(data), key, v, ttl, now)
    {
      if key in data {
        return false;
      }
      ok := Store(key, v, ttl, now);
    }

    method Store(key: string, v: Value, ttl: int, now: int) returns (ok: bool)
      modifies this
      ensures ok
      ensures data == Stored(old(data), key, v, ttl, now)
    {
      var expiry := if ttl == 0 then IntMax else now + ttl;
      data := data[key := Entry(v, Some(expiry))];
      ok := true;
    }

    method Replace(key: string, v: Value, ttl: int, now: int) returns (ok: bool)
      modifies this
      ensures ok == Live(old(data), key, now)
      ensures data == Replaced(old(data), key, v, ttl, now)
    {
      var present := Exists(key, now);
      if !present {
        return false;
      }
      ok := Store(key, v, ttl, now);
    }

    method Exists(key: string, now: int) returns (b: bool)
      ensures b == Live(data, key, now)
    {
      b := key in data && data[key].expiry.Some? && data[key].expiry.value > now;
    }

    /**
     * successIn is the caller's by-reference flag on entry and success its
     * value on return: a miss sets it to false, a hit leaves it alone.
     */
    method Fetch(key: string, now: int, successIn: bool) returns (v: Value, success: bool)
      ensures v == Fetched(data, key, now)
      ensures !Live(data, key, now) ==> v == VBool(false) && !success
      ensures Live(data, key, now) ==> success == successIn
    {
      success := successIn;
      var present := Exists(key, now);
      if !present {
        success := false;
        return VBool(false), success;
      }
      v := data[key].value;
    }

    method Inc(key: string, step: int, now: int) returns (r: int, success: bool)
      modifies this
      ensures success
      ensures r == IntCast(Fetched(old(data), key, now)) + step
      ensures data == Adjusted(old(data), key, step, now)
    {
      r, success := AdjustBy(key, step, now);
    }

    method Dec(key: string, step: int, now: int) returns (r: int, success: bool)
      modifies this
      ensures success
      ensures r == IntCast(Fetched(old(data), key, now)) - step
      ensures data == Adjusted(old(data), key, -step, now)
    {
      r, success := AdjustBy(key, -step, now);
    }

    /** The shared body of inc and dec: $data[$key][0] = (int)fetch($key) + delta. */
    method AdjustBy(key: string, delta: int, now: int) returns (r: int, success: bool)
      modifies this
      ensures success
      ensures r == AdjustedValue(old(data), key, delta, now)
      ensures data == Adjusted(old(data), key, delta, now)
    {
      var fetched, _ := Fetch(key, now, false);
      var oldVal := IntCast(fetched);
      if key in data {
        data := data[key := data[key].(value := VInt(oldVal + delta))];
      } else {
        data := data[key := Entry(VInt(oldVal + delta), None)];
      }
      success := true;
      r := oldVal + delta;
    }

    method Delete(key: string, now: int) returns (ok: bool)
      modifies this
      ensures ok == Live(old(data), key, now)
      ensures data == Deleted(old(data), key, now)
    {
      var present := Exists(key, now);
      if !present {
        return false;
      }
      data := data - {key};
      ok := true;
    }

    method Clear() returns (ok: bool)
      modifies this
      ensures ok && data == map[]
    {
      data := map[];
      ok := true;
    }
  }
}
