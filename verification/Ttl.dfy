/** Deadlines of keys, on a clock counted in nanoseconds. */
module Deadlines {
  import opened ByteStrings

  const SECOND: nat := 1_000_000_000

  type Expiries = map<Bytes, nat>

  predicate Expired(expiries: Expiries, key: Bytes, now: nat) { key in expiries && expiries[key] <= now }

  /** A non-positive duration means no deadline. */
  function SetDeadline(expiries: Expiries, key: Bytes, seconds: int, now: nat): Expiries {
    if seconds <= 0 then expiries - {key} else expiries[key := now + seconds * SECOND]
  }

  function ExpiredKeys(expiries: Expiries, now: nat): set<Bytes> {
    set k | k in expiries && Expired(expiries, k, now)
  }
}

/** The table of deadlines that client operations and the sweeper share. */
module TtlTable {
  import opened ByteStrings
  import opened Sequences
  import opened Deadlines

  class TTLManager {
    var expiries: Expiries

    constructor ()
      ensures expiries == map[]
    {
      expiries := map[];
    }

    method SetTtl(key: Bytes, seconds: int, now: nat)
      modifies this
      ensures expiries == SetDeadline(old(expiries), key, seconds, now)
    {
      if seconds <= 0 {
        expiries := expiries - {key};
        return;
      }
      expiries := expiries[key := now + seconds * SECOND];
    }

    /** An expired entry is erased by the query that finds it. */
    method IsExpired(key: Bytes, now: nat) returns (expired: bool)
      modifies this
      ensures expired == Expired(old(expiries), key, now)
      ensures expiries == if expired then old(expiries) - {key} else old(expiries)
    {
      if key !in expiries {
        return false;
      }
      if expiries[key] <= now {
        expiries := expiries - {key};
        return true;
      }
      return false;
    }

    /** Takes every expired key out of the table, each once, and keeps every other entry as it was. */
    method CollectExpired(now: nat) returns (keys: seq<Bytes>)
      modifies this
      ensures Distinct(keys) && (set k | k in keys) == ExpiredKeys(old(expiries), now)
      ensures expiries == old(expiries) - ExpiredKeys(old(expiries), now)
    {
      keys := [];
      ghost var start := expiries;
      var rest := expiries;
      while rest != map[]
        invariant Distinct(keys) && rest.Keys <= expiries.Keys <= start.Keys
        invariant forall k :: k in expiries ==> expiries[k] == start[k]
        invariant forall k :: k in rest ==> rest[k] == start[k] && k !in keys
        invariant forall k :: k in keys <==> k in start && k !in rest && start[k] <= now
        invariant forall k :: k in expiries <==> k in rest || (k in start && start[k] > now)
        decreases |rest|
      {
        var k :| k in rest;
        if rest[k] <= now {
          keys := keys + [k];
          expiries := expiries - {k};
        }
        rest := rest - {k};
      }
      assert expiries == start - ExpiredKeys(start, now);
    }

    method Erase(key: Bytes)
      modifies this
      ensures expiries == old(expiries) - {key}
    {
      expiries := expiries - {key};
    }
  }
}
