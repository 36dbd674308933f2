/**
 * The `sessionStorage` cache of `CaptchaWrite`: `setCapFoowwLocalStorage`
 * stores a value under a key together with an expiry time, and
 * `getCapFoowwLocalStorage` returns the value unless the entry has expired,
 * in which case it removes the entry. Times are milliseconds since the
 * epoch; the clock reading `new Date().getTime()` is a parameter.
 */
module TtlCache {
  import opened Wrappers

  /** A stored record `{value, expirse}`; `None` is an expiry that JSON wrote as `null`. */
  datatype Entry = Entry(value: string, expirse: Option<int>)

  /** The largest distance from the epoch, in milliseconds, that a `Date` can hold. */
  const MaxTime: int := 8_640_000_000_000_000

  /**
   * `new Date(ttl_ms).getTime()` for an integer: the time itself when a `Date`
   * can hold it, `NaN` otherwise, which `JSON.stringify` writes as `null`.
   */
  function TimeValue(ttl: int): (r: Option<int>)
    ensures r.Some? <==> -MaxTime <= ttl <= MaxTime
    ensures r.Some? ==> r.value == ttl
  {
    if -MaxTime <= ttl <= MaxTime then Some(ttl) else None
  }

  /** `data.expirse != null && data.expirse < now`. */
  predicate Expired(e: Entry, now: int) {
    e.expirse.Some? && e.expirse.value < now
  }

  /** The storage after `setCapFoowwLocalStorage(key, value, ttl)`. */
  function Stored(entries: map<string, Entry>, key: string, value: string, ttl: int): (m: map<string, Entry>)
    ensures key in m && m[key].value == value
    ensures forall k :: k != key ==> (k in m <==> k in entries) && (k in m ==> m[k] == entries[k])
  {
    entries[key := Entry(value, TimeValue(ttl))]
  }

  /** What `getCapFoowwLocalStorage(key)` answers at time `now`. */
  function Read(entries: map<string, Entry>, key: string, now: int): (r: Option<string>)
    ensures r.Some? <==> key in entries && !Expired(entries[key], now)
    ensures r.Some? ==> r.value == entries[key].value
  {
    if key in entries && !Expired(entries[key], now) then Some(entries[key].value) else None
  }

  /** The storage after `getCapFoowwLocalStorage(key)` at time `now`: an expired entry is gone. */
  function AfterRead(entries: map<string, Entry>, key: string, now: int): (m: map<string, Entry>)
    ensures key in entries && Expired(entries[key], now) ==> m == entries - {key}
    ensures !(key in entries && Expired(entries[key], now)) ==> m == entries
  {
    if key in entries && Expired(entries[key], now) then entries - {key} else entries
  }

  class SessionCache {
    var entries: map<string, Entry>

    constructor()
      ensures entries == map[]
    {
      entries := map[];
    }

    /** `setCapFoowwLocalStorage(key, value, ttl_ms)`: any earlier entry for the key is replaced. */
    method Set(key: string, value: string, ttl: int)
      modifies this
      ensures entries == Stored(old(entries), key, value, ttl)
    {
      var expirse := if -MaxTime <= ttl <= MaxTime then Some(ttl) else None;
      entries := entries[key := Entry(value, expirse)];
    }

    /** `getCapFoowwLocalStorage(key)` at time `now`. */
    method Get(key: string, now: int) returns (r: Option<string>)
      modifies this
      ensures r == Read(old(entries), key, now)
      ensures entries == AfterRead(old(entries), key, now)
    {
      r := None;
      if key in entries {
        var data := entries[key];
        if data.expirse.Some? && data.expirse.value < now {
          entries := entries - {key};
        } else {
          r := Some(data.value);
        }
      }
    }

    /** `delCapFoowwLocalStorage(key)`. */
    method Del(key: string)
      modifies this
      ensures entries == old(entries) - {key}
    {
      entries := entries - {key};
    }
  }

  /**
   * A value just stored is read back until its expiry has passed; an expiry
   * a `Date` cannot hold is stored as `null` and never passes.
   */
  lemma SetThenGet(entries: map<string, Entry>, key: string, value: string, ttl: int, now: int)
    ensures Read(Stored(entries, key, value, ttl), key, now) ==
      if -MaxTime <= ttl <= MaxTime && ttl < now then None else Some(value)
  {
  }

  /** Storing or reading one key leaves every other key as it was. */
  lemma OtherKeysUntouched(entries: map<string, Entry>, key: string, other: string, value: string, ttl: int, now: int)
    requires other != key
    ensures Read(Stored(entries, key, value, ttl), other, now) == Read(entries, other, now)
    ensures Read(AfterRead(entries, key, now), other, now) == Read(entries, other, now)
  {
  }

  /** Reading an expired entry removes it, so it stays unreadable at that time and later. */
  lemma ExpiredIsGone(entries: map<string, Entry>, key: string, now: int, later: int)
    requires key in entries && Expired(entries[key], now) && now <= later
    ensures Read(entries, key, now) == None
    ensures key !in AfterRead(entries, key, now)
    ensures Read(AfterRead(entries, key, now), key, later) == None
  {
  }

  /** An entry that has not expired is neither changed nor removed by reading it. */
  lemma ReadIsIdempotent(entries: map<string, Entry>, key: string, now: int)
    ensures Read(AfterRead(entries, key, now), key, now) == Read(entries, key, now)
    ensures AfterRead(AfterRead(entries, key, now), key, now) == AfterRead(entries, key, now)
  {
  }

  /** The span of the cross-origin recognition lock: `9999999 * 9999999` milliseconds. */
  const LockSpan: int := 9999999 * 9999999

  /**
   * The lock `Identify` sets at time `now` for a cross-origin image source
   * is still there at every later time up to `now + 9999999 * 9999999`, so the
   * same source is recognised only once.
   */
  lemma LockHolds(entries: map<string, Entry>, key: string, value: string, now: int, later: int)
    requires -MaxTime <= now <= MaxTime - LockSpan
    requires later <= now + LockSpan
    ensures Read(Stored(entries, key, value, now + LockSpan), key, later) == Some(value)
  {
  }
}
